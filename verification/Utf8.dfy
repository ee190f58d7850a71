/** UTF-8 (section 3 of RFC 3629), and which of its texts are white space. */
module Utf8 {
  import opened Basics

  /** A Unicode scalar value: a code point that is no surrogate. */
  type Scalar = c: int | 0 <= c < 0xD800 || 0xE000 <= c < 0x11_0000

  function EncodeScalar(c: Scalar): (bytes: seq<Byte>)
    ensures 1 <= |bytes| <= 4
  {
    if c < 0x80 then [c]
    else if c < 0x800 then [0xC0 + c / 64, 0x80 + c % 64]
    else if c < 0x1_0000 then [0xE0 + c / 4096, 0x80 + c / 64 % 64, 0x80 + c % 64]
    else [0xF0 + c / 262_144, 0x80 + c / 4096 % 64, 0x80 + c / 64 % 64, 0x80 + c % 64]
  }

  function Encode(text: seq<Scalar>): seq<Byte> {
    if text == [] then [] else EncodeScalar(text[0]) + Encode(text[1..])
  }

  /** The code points with the Unicode property White_Space. */
  predicate IsWhite(c: Scalar) {
    || 0x9 <= c <= 0xD || c == 0x20 || c == 0x85 || c == 0xA0 || c == 0x1680
    || 0x2000 <= c <= 0x200A || c == 0x2028 || c == 0x2029 || c == 0x202F || c == 0x205F || c == 0x3000
  }

  predicate AllWhite(text: seq<Scalar>) {
    forall i :: 0 <= i < |text| ==> IsWhite(text[i])
  }

  /** The bytes are a text, empty or not, of white-space characters only. */
  ghost predicate IsWhiteText(bytes: seq<Byte>) {
    exists text :: AllWhite(text) && Encode(text) == bytes
  }

  /** The length of the white-space character that the bytes start with; 0 if none. */
  function SpaceLength(s: seq<Byte>): (n: nat)
    ensures n <= |s|
  {
    if 1 <= |s| && (9 <= s[0] <= 13 || s[0] == 32) then 1
    else if 2 <= |s| && s[0] == 0xC2 && (s[1] == 0x85 || s[1] == 0xA0) then 2
    else if 3 <= |s| && (
         || (s[0] == 0xE1 && s[1] == 0x9A && s[2] == 0x80)
         || (s[0] == 0xE2 && s[1] == 0x80 && (0x80 <= s[2] <= 0x8A || s[2] in {0xA8, 0xA9, 0xAF}))
         || (s[0] == 0xE2 && s[1] == 0x81 && s[2] == 0x9F)
         || (s[0] == 0xE3 && s[1] == 0x80 && s[2] == 0x80)) then 3
    else 0
  }

  /** `bytes.TrimSpace` leaves nothing. */
  predicate IsBlank(s: seq<Byte>) {
    s == [] || (SpaceLength(s) != 0 && IsBlank(s[SpaceLength(s)..]))
  }

  /** A space is recognised by its encoding, and nothing else is, whatever follows. */
  lemma SpaceIsEncoded(c: Scalar, rest: seq<Byte>)
    ensures SpaceLength(EncodeScalar(c) + rest) == if IsWhite(c) then |EncodeScalar(c)| else 0
  {
    var s := EncodeScalar(c) + rest;
    assert forall i :: 0 <= i < |EncodeScalar(c)| ==> s[i] == EncodeScalar(c)[i];
  }

  /** The space that is recognised, as a character. */
  lemma SpaceDecodes(s: seq<Byte>) returns (c: Scalar)
    requires SpaceLength(s) != 0
    ensures IsWhite(c) && s == EncodeScalar(c) + s[SpaceLength(s)..]
  {
    var n := SpaceLength(s);
    var first: int, second: int, third: int := s[0], if n == 1 then 0 else s[1], if n == 3 then s[2] else 0;
    c := if n == 1 then first
         else if n == 2 then (first - 0xC0) * 64 + (second - 0x80)
         else (first - 0xE0) * 4096 + (second - 0x80) * 64 + (third - 0x80);
    assert s == s[..n] + s[n..];
    assert EncodeScalar(c) == s[..n];
  }

  /** Of valid UTF-8 exactly the texts of white space are blank. */
  lemma {:induction false} BlankText(text: seq<Scalar>)
    ensures IsBlank(Encode(text)) <==> AllWhite(text)
  {
    if text != [] {
      var c, rest := text[0], Encode(text[1..]);
      BlankText(text[1..]);
      SpaceIsEncoded(c, rest);
      assert text == [c] + text[1..];
      assert (EncodeScalar(c) + rest)[|EncodeScalar(c)|..] == rest;
    }
  }

  /** And no other bytes, valid or not. */
  lemma {:induction false} BlankIsWhiteText(s: seq<Byte>)
    ensures IsBlank(s) <==> IsWhiteText(s)
  {
    if text: seq<Scalar> :| AllWhite(text) && Encode(text) == s {
      BlankText(text);
    }
    if IsBlank(s) {
      var text := Decoded(s);
    }
  }

  lemma {:induction false} Decoded(s: seq<Byte>) returns (text: seq<Scalar>)
    requires IsBlank(s)
    ensures AllWhite(text) && Encode(text) == s
  {
    text := [];
    if s != [] {
      var c := SpaceDecodes(s);
      var rest := Decoded(s[SpaceLength(s)..]);
      text := [c] + rest;
      assert text[1..] == rest;
    }
  }
}
