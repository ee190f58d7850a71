/** Searching and cutting strings, as the Go, TypeScript and Python libraries do it. */
module Strings {

  /** The index of the first occurrence, or -1. */
  function IndexOf(s: string, c: char): (i: int)
    ensures -1 <= i < |s|
    ensures i == -1 <==> c !in s
    ensures 0 <= i ==> s[i] == c && forall k :: 0 <= k < i ==> s[k] != c
  {
    if s == "" then -1
    else if s[0] == c then 0
    else
      var i := IndexOf(s[1..], c);
      assert s == [s[0]] + s[1..];
      if i == -1 then -1 else i + 1
  }

  /** `strings.SplitN`: at most n pieces, the last one unsplit. */
  function SplitN(s: string, sep: char, n: nat): seq<string>
    requires 1 <= n
  {
    var i := IndexOf(s, sep);
    if n == 1 || i == -1 then [s] else [s[..i]] + SplitN(s[i + 1..], sep, n - 1)
  }

  /** `str.partition`: what precedes the first separator, the separator, and the rest. */
  function Partition(s: string, sep: char): (string, string, string) {
    if s == "" then ("", "", "")
    else if s[0] == sep then ("", [sep], s[1..])
    else
      var (before, found, after) := Partition(s[1..], sep);
      ([s[0]] + before, found, after)
  }

  /** A string has at most one first occurrence to be cut at. */
  lemma FirstCut(a: string, b: string, c: char)
    requires c !in a
    ensures IndexOf(a + [c] + b, c) == |a|
    ensures (a + [c] + b)[..|a|] == a && (a + [c] + b)[|a| + 1..] == b
  {
    var s := a + [c] + b;
    assert s[|a|] == c;
    assert forall k :: 0 <= k < |a| ==> s[k] == a[k];
  }

  lemma {:induction false} PartitionCuts(s: string, sep: char)
    ensures sep !in s ==> Partition(s, sep) == (s, "", "")
    ensures sep in s ==> Partition(s, sep) == (s[..IndexOf(s, sep)], [sep], s[IndexOf(s, sep) + 1..])
  {
    if s != "" && s[0] != sep {
      PartitionCuts(s[1..], sep);
      assert s == [s[0]] + s[1..];
      if sep in s {
        var i := IndexOf(s[1..], sep);
        assert IndexOf(s, sep) == i + 1;
        assert s[..i + 1] == [s[0]] + s[1..][..i];
      }
    }
  }
}
