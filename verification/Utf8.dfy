/** UTF-8 (section 3 of RFC 3629) over Unicode scalar values: `char` is a scalar value, a byte is an
    integer below 256. The results here are the self-synchronisation facts that let byte-level
    searches be read as character-level searches. */
module Utf8 {
  type Byte = b: int | 0 <= b < 256

  predicate IsContinuation(b: Byte) { 0x80 <= b < 0xC0 }

  function EncodeChar(c: char): (bytes: seq<Byte>)
    ensures 1 <= |bytes| <= 4
    ensures !IsContinuation(bytes[0])
    ensures forall k :: 1 <= k < |bytes| ==> IsContinuation(bytes[k])
    ensures c as int < 0x80 <==> bytes[0] < 0x80
    ensures |bytes| == 1 <==> c as int < 0x80
  {
    var n := c as int;
    if n < 0x80 then [n]
    else if n < 0x800 then [0xC0 + n / 64, 0x80 + n % 64]
    else if n < 0x1_0000 then [0xE0 + n / 4096, 0x80 + n / 64 % 64, 0x80 + n % 64]
    else [0xF0 + n / 262144, 0x80 + n / 4096 % 64, 0x80 + n / 64 % 64, 0x80 + n % 64]
  }

  function Encode(s: string): (bytes: seq<Byte>)
    ensures |s| <= |bytes|
  {
    if s == [] then [] else EncodeChar(s[0]) + Encode(s[1..])
  }

  // The number of bytes a lead byte announces.
  function Width(lead: Byte): (w: nat) {
    if lead < 0x80 then 1 else if lead < 0xE0 then 2 else if lead < 0xF0 then 3 else 4
  }

  // The scalar value carried by one encoded character.
  function DecodeChar(bytes: seq<Byte>): int
    requires |bytes| > 0 && |bytes| >= Width(bytes[0])
  {
    var digit := (k: nat) requires k < |bytes| => bytes[k] as int;
    var width := Width(bytes[0]);
    if width == 1 then digit(0)
    else if width == 2 then (digit(0) - 0xC0) * 64 + (digit(1) - 0x80)
    else if width == 3 then (digit(0) - 0xE0) * 4096 + (digit(1) - 0x80) * 64 + (digit(2) - 0x80)
    else (digit(0) - 0xF0) * 262144 + (digit(1) - 0x80) * 4096 + (digit(2) - 0x80) * 64 + (digit(3) - 0x80)
  }

  lemma SixBitDigits(n: nat)
    ensures n == n / 64 * 64 + n % 64
    ensures n == n / 4096 * 4096 + n / 64 % 64 * 64 + n % 64
    ensures n == n / 262144 * 262144 + n / 4096 % 64 * 4096 + n / 64 % 64 * 64 + n % 64
  {
    assert n / 64 / 64 == n / 4096;
    assert n / 4096 / 64 == n / 262144;
  }

  lemma DecodeEncodeChar(c: char)
    ensures |EncodeChar(c)| == Width(EncodeChar(c)[0])
    ensures DecodeChar(EncodeChar(c)) == c as int
  {
    SixBitDigits(c as int);
  }

  /** Decoding at the start of any bytes that begin with an encoded character gives that character and
      its width, whatever follows. */
  lemma DecodeAtStart(c: char, rest: seq<Byte>)
    ensures var bytes := EncodeChar(c) + rest;
            && Width(bytes[0]) == |EncodeChar(c)| && DecodeChar(bytes) == c as int
            && bytes[Width(bytes[0])..] == rest
  {
    var bytes := EncodeChar(c) + rest;
    DecodeEncodeChar(c);
    assert bytes[..|EncodeChar(c)|] == EncodeChar(c);
    assert forall k :: 0 <= k < |EncodeChar(c)| ==> bytes[k] == EncodeChar(c)[k];
  }

  /** The code is prefix-free: the first character of a byte string and what follows it are unique. */
  lemma FirstCharUnique(c: char, x: seq<Byte>, d: char, y: seq<Byte>)
    requires EncodeChar(c) + x == EncodeChar(d) + y
    ensures c == d && x == y
  {
    var bs, ds := EncodeChar(c), EncodeChar(d);
    assert bs[0] == (bs + x)[0] == (ds + y)[0] == ds[0];
    DecodeEncodeChar(c);
    DecodeEncodeChar(d);
    assert bs == (bs + x)[..|bs|] == (ds + y)[..|ds|] == ds;
    assert x == (bs + x)[|bs|..] == (ds + y)[|ds|..] == y;
  }

  lemma EncodeConcat(s: string, t: string)
    ensures Encode(s + t) == Encode(s) + Encode(t)
  {
    if s == [] {
      assert s + t == t;
    } else {
      assert (s + t)[1..] == s[1..] + t;
      EncodeConcat(s[1..], t);
    }
  }

  // The first characters of two texts, compared by their bytes.
  lemma FirstCharPrefix(c: char, x: seq<Byte>, d: char, y: seq<Byte>)
    ensures EncodeChar(c) + x <= EncodeChar(d) + y <==> c == d && x <= y
  {
    var (bc, bd) := (EncodeChar(c), EncodeChar(d));
    if bc + x <= bd + y {
      var rest := (bd + y)[|bc + x|..];
      assert bc + (x + rest) == bd + y;
      FirstCharUnique(c, x + rest, d, y);
    }
    if c == d && x <= y {
      assert bc + y == bc + x + y[|x|..];
    }
  }

  /** At a character boundary, a byte prefix is a character prefix. */
  lemma {:induction false} PrefixAtBoundary(p: string, s: string)
    ensures Encode(p) <= Encode(s) <==> p <= s
  {
    hide EncodeChar;
    if p != [] && s != [] {
      FirstCharPrefix(p[0], Encode(p[1..]), s[0], Encode(s[1..]));
      PrefixAtBoundary(p[1..], s[1..]);
      assert p == [p[0]] + p[1..] && s == [s[0]] + s[1..];
      assert p <= s <==> p[0] == s[0] && p[1..] <= s[1..];
    }
  }

  ghost predicate IsCharBoundary(s: string, cursor: nat) {
    exists k :: 0 <= k <= |s| && cursor == |Encode(s[..k])|
  }
}
