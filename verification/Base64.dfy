/** Unpadded base64url, the encoding of random tokens (section 5 of RFC 4648). */
module Base64 {
  import opened Basics

  type Sextet = i: int | 0 <= i < 64

  function Char(i: Sextet): char {
    if i < 26 then ('A' as int + i) as char
    else if i < 52 then ('a' as int + i - 26) as char
    else if i < 62 then ('0' as int + i - 52) as char
    else if i == 62 then '-'
    else '_'
  }

  /** Three bytes as four characters. */
  function Quad(x: Byte, y: Byte, z: Byte): (quad: string)
    ensures |quad| == 4
  {
    [Char(x / 4), Char(x % 4 * 16 + y / 16), Char(y % 16 * 4 + z / 64), Char(z % 64)]
  }

  function Encode(bytes: seq<Byte>): string {
    match |bytes|
    case 0 => ""
    case 1 => [Char(bytes[0] / 4), Char(bytes[0] % 4 * 16)]
    case 2 => [Char(bytes[0] / 4), Char(bytes[0] % 4 * 16 + bytes[1] / 16), Char(bytes[1] % 16 * 4)]
    case _ => Quad(bytes[0], bytes[1], bytes[2]) + Encode(bytes[3..])
  }

  /** The alphabet has no dot and no NUL, so a token never does; it has four characters for three bytes. */
  lemma {:induction false} TokenHasNoDot(bytes: seq<Byte>)
    ensures '.' !in Encode(bytes) && '\0' !in Encode(bytes)
    ensures |Encode(bytes)| == (4 * |bytes| + 2) / 3
  {
    CharIsNoDot();
    if 3 <= |bytes| {
      TokenHasNoDot(bytes[3..]);
    }
  }

  lemma CharIsNoDot()
    ensures forall i: Sextet :: Char(i) != '.' && Char(i) != '\0'
  {
  }

  lemma CharIsInjective(i: Sextet, j: Sextet)
    requires Char(i) == Char(j)
    ensures i == j
  {
  }

  /** Two bytes that agree where the sextets cut them are the same. */
  lemma SplitByte(x: Byte, y: Byte, cut: int)
    requires cut in {4, 16, 64}
    requires x / cut == y / cut && x % cut == y % cut
    ensures x == y
  {
    assert x == x / cut * cut + x % cut && y == y / cut * cut + y % cut;
  }

  lemma MixedSextet(high: int, low: int, high': int, low': int, base: int)
    requires base in {4, 16} && 0 <= low < base && 0 <= low' < base
    requires high * base + low == high' * base + low'
    ensures high == high' && low == low'
  {
  }

  lemma QuadIsInjective(x: Byte, y: Byte, z: Byte, x': Byte, y': Byte, z': Byte)
    requires Quad(x, y, z) == Quad(x', y', z')
    ensures x == x' && y == y' && z == z'
  {
    var s, t := Quad(x, y, z), Quad(x', y', z');
    assert s[0] == t[0] && s[1] == t[1] && s[2] == t[2] && s[3] == t[3];
    hide Char;
    CharIsInjective(x / 4, x' / 4);
    CharIsInjective(x % 4 * 16 + y / 16, x' % 4 * 16 + y' / 16);
    CharIsInjective(y % 16 * 4 + z / 64, y' % 16 * 4 + z' / 64);
    CharIsInjective(z % 64, z' % 64);
    MixedSextet(x % 4, y / 16, x' % 4, y' / 16, 16);
    MixedSextet(y % 16, z / 64, y' % 16, z' / 64, 4);
    SplitByte(x, x', 4);
    SplitByte(y, y', 16);
    SplitByte(z, z', 64);
  }

  /** Different random bytes give different tokens. */
  lemma {:induction false} EncodeIsInjective(a: seq<Byte>, b: seq<Byte>)
    requires Encode(a) == Encode(b)
    ensures a == b
  {
    if 3 <= |a| && 3 <= |b| {
      hide Quad;
      var s, t := Encode(a), Encode(b);
      assert s[..4] == Quad(a[0], a[1], a[2]) && t[..4] == Quad(b[0], b[1], b[2]);
      QuadIsInjective(a[0], a[1], a[2], b[0], b[1], b[2]);
      assert s[4..] == Encode(a[3..]) && t[4..] == Encode(b[3..]);
      EncodeIsInjective(a[3..], b[3..]);
      assert a == [a[0], a[1], a[2]] + a[3..] && b == [b[0], b[1], b[2]] + b[3..];
    } else {
      ShortIsInjective(a, b);
    }
  }

  lemma ShortIsInjective(a: seq<Byte>, b: seq<Byte>)
    requires Encode(a) == Encode(b) && (|a| < 3 || |b| < 3)
    ensures a == b
  {
    hide Char;
    var s, t := Encode(a), Encode(b);
    assert |a| == |b|;
    if |a| == 1 {
      assert s[0] == t[0] && s[1] == t[1];
      CharIsInjective(a[0] / 4, b[0] / 4);
      CharIsInjective(a[0] % 4 * 16, b[0] % 4 * 16);
      SplitByte(a[0], b[0], 4);
    } else if |a| == 2 {
      assert s[0] == t[0] && s[1] == t[1] && s[2] == t[2];
      CharIsInjective(a[0] / 4, b[0] / 4);
      CharIsInjective(a[0] % 4 * 16 + a[1] / 16, b[0] % 4 * 16 + b[1] / 16);
      CharIsInjective(a[1] % 16 * 4, b[1] % 16 * 4);
      MixedSextet(a[0] % 4, a[1] / 16, b[0] % 4, b[1] / 16, 16);
      SplitByte(a[0], b[0], 4);
      SplitByte(a[1], b[1], 16);
    }
  }

  // ---------- no bit is lost or moved ----------

  /** The value of a character by the table of the URL-safe alphabet. */
  function Digit(c: char): nat {
    if 'A' <= c <= 'Z' then (c - 'A') as int
    else if 'a' <= c <= 'z' then 26 + (c - 'a') as int
    else if '0' <= c <= '9' then 52 + (c - '0') as int
    else if c == '-' then 62
    else if c == '_' then 63
    else 64
  }

  /** The number whose digits in base 256 continue those of `start` with the bytes. */
  function FromBytes(start: nat, bytes: seq<Byte>): nat
    decreases |bytes|
  {
    if bytes == [] then start else FromBytes(start * 256 + bytes[0], bytes[1..])
  }

  /** The same in base 64 with the characters. */
  function FromText(start: nat, text: string): nat
    decreases |text|
  {
    if text == "" then start else FromText(start * 64 + Digit(text[0]), text[1..])
  }

  lemma FromChar(start: nat, i: Sextet, rest: string)
    ensures FromText(start, [Char(i)] + rest) == FromText(start * 64 + i, rest)
    ensures FromText(start, [Char(i)]) == start * 64 + i
  {
    assert ([Char(i)] + rest)[1..] == rest;
  }

  lemma FromQuad(start: nat, x: Byte, y: Byte, z: Byte, rest: string)
    ensures FromText(start, Quad(x, y, z) + rest) == FromText(((start * 256 + x) * 256 + y) * 256 + z, rest)
  {
    hide Char, FromText;
    var a, b, c, d := x / 4, x % 4 * 16 + y / 16, y % 16 * 4 + z / 64, z % 64;
    assert Quad(x, y, z) + rest == [Char(a)] + ([Char(b)] + ([Char(c)] + ([Char(d)] + rest)));
    FromChar(start, a, [Char(b)] + ([Char(c)] + ([Char(d)] + rest)));
    FromChar(start * 64 + a, b, [Char(c)] + ([Char(d)] + rest));
    FromChar((start * 64 + a) * 64 + b, c, [Char(d)] + rest);
    FromChar(((start * 64 + a) * 64 + b) * 64 + c, d, rest);
    assert (((start * 64 + a) * 64 + b) * 64 + c) * 64 + d == ((start * 256 + x) * 256 + y) * 256 + z;
  }

  lemma FromByte(start: nat, x: Byte, rest: seq<Byte>)
    ensures FromBytes(start, [x] + rest) == FromBytes(start * 256 + x, rest)
    ensures FromBytes(start, []) == start
  {
    assert ([x] + rest)[1..] == rest;
  }

  lemma FromTriple(start: nat, bytes: seq<Byte>)
    requires 3 <= |bytes|
    ensures FromBytes(start, bytes) ==
            FromBytes(((start * 256 + bytes[0]) * 256 + bytes[1]) * 256 + bytes[2], bytes[3..])
  {
    hide FromBytes;
    var x, y, z := bytes[0], bytes[1], bytes[2];
    assert bytes == [x] + ([y] + ([z] + bytes[3..]));
    FromByte(start, x, [y] + ([z] + bytes[3..]));
    FromByte(start * 256 + x, y, [z] + bytes[3..]);
    FromByte((start * 256 + x) * 256 + y, z, bytes[3..]);
  }

  /** The text spells the bytes' number in base 64, shifted left by the 4 or 2 bits that fill the last character
      of an incomplete group. */
  lemma {:induction false} EncodeKeepsBits(start: nat, bytes: seq<Byte>)
    ensures FromText(start, Encode(bytes)) ==
            FromBytes(start, bytes) * (if |bytes| % 3 == 1 then 16 else if |bytes| % 3 == 2 then 4 else 1)
    decreases |bytes|
  {
    hide Char, Quad;
    if 3 <= |bytes| {
      var next := ((start * 256 + bytes[0]) * 256 + bytes[1]) * 256 + bytes[2];
      FromQuad(start, bytes[0], bytes[1], bytes[2], Encode(bytes[3..]));
      FromTriple(start, bytes);
      EncodeKeepsBits(next, bytes[3..]);
    } else if |bytes| == 1 {
      LastByte(start, bytes[0]);
    } else if |bytes| == 2 {
      LastTwoBytes(start, bytes[0], bytes[1]);
      assert bytes == [bytes[0], bytes[1]];
    }
  }

  lemma LastByte(start: nat, x: Byte)
    ensures FromText(start, [Char(x / 4), Char(x % 4 * 16)]) == FromBytes(start, [x]) * 16
  {
    hide Char, FromText;
    assert [Char(x / 4), Char(x % 4 * 16)] == [Char(x / 4)] + [Char(x % 4 * 16)];
    FromChar(start, x / 4, [Char(x % 4 * 16)]);
    FromChar(start * 64 + x / 4, x % 4 * 16, "");
  }

  lemma LastTwoBytes(start: nat, x: Byte, y: Byte)
    ensures FromText(start, [Char(x / 4), Char(x % 4 * 16 + y / 16), Char(y % 16 * 4)]) ==
            FromBytes(start, [x, y]) * 4
  {
    hide Char, FromText;
    var a, b, c := x / 4, x % 4 * 16 + y / 16, y % 16 * 4;
    assert [Char(a), Char(b), Char(c)] == [Char(a)] + ([Char(b)] + [Char(c)]);
    FromChar(start, a, [Char(b)] + [Char(c)]);
    FromChar(start * 64 + a, b, [Char(c)]);
    FromChar((start * 64 + a) * 64 + b, c, "");
    assert [x, y] == [x] + ([y] + []);
    FromByte(start, x, [y] + []);
    FromByte(start * 256 + x, y, []);
  }
}
