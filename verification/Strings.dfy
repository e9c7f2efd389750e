/** The parts of the Rust string library the bot relies on, over sequences. */
module Strings {
  datatype Option<+T> = None | Some(value: T)

  /** `str::find`. */
  function Find<T(==)>(s: seq<T>, p: seq<T>): (r: Option<nat>)
    ensures r.Some? ==> r.value + |p| <= |s|
  {
    if p <= s then Some(0)
    else if s == [] then None
    else match Find(s[1..], p)
         case None => None
         case Some(k) => Some(k + 1)
  }

  /** `find` returns the first occurrence, and `None` exactly when there is none. */
  lemma {:induction false} FindIsFirst<T>(s: seq<T>, p: seq<T>)
    ensures match Find(s, p)
            case None => forall k :: 0 <= k <= |s| ==> !(p <= s[k..])
            case Some(first) => p <= s[first..] && forall k :: 0 <= k < first ==> !(p <= s[k..])
  {
    assert s[0..] == s;
    if !(p <= s) && s != [] {
      FindIsFirst(s[1..], p);
      assert forall k :: 1 <= k <= |s| ==> s[k..] == s[1..][k - 1..];
    }
  }

  lemma FoundAt<T>(s: seq<T>, p: seq<T>, at: nat)
    requires at <= |s| && p <= s[at..] && forall k :: 0 <= k < at ==> !(p <= s[k..])
    ensures Find(s, p) == Some(at)
  {
    FindIsFirst(s, p);
  }

  /** `str::contains`. */
  predicate Contains<T(==)>(s: seq<T>, p: seq<T>) {
    Find(s, p).Some?
  }

  lemma ContainsIff<T>(s: seq<T>, p: seq<T>)
    ensures Contains(s, p) <==> exists k :: 0 <= k <= |s| && p <= s[k..]
  {
    FindIsFirst(s, p);
  }

  /** `str::replace`: left to right, non-overlapping. */
  function Replace(s: string, needle: string, value: string): string
    requires needle != []
  {
    if |s| < |needle| then s
    else if needle <= s then value + Replace(s[|needle|..], needle, value)
    else [s[0]] + Replace(s[1..], needle, value)
  }

  function AsciiLowerChar(c: char): char {
    if 'A' <= c <= 'Z' then c + 'a' - 'A' else c
  }

  function AsciiUpperChar(c: char): char {
    if 'a' <= c <= 'z' then c - ('a' - 'A') else c
  }

  /** `str::to_ascii_lowercase`. */
  function AsciiLower(s: string): (r: string)
    ensures |r| == |s|
    ensures forall i :: 0 <= i < |s| ==> r[i] == AsciiLowerChar(s[i])
  {
    seq(|s|, i requires 0 <= i < |s| => AsciiLowerChar(s[i]))
  }

  /** `str::to_ascii_uppercase`. */
  function AsciiUpper(s: string): (r: string)
    ensures |r| == |s|
    ensures forall i :: 0 <= i < |s| ==> r[i] == AsciiUpperChar(s[i])
  {
    seq(|s|, i requires 0 <= i < |s| => AsciiUpperChar(s[i]))
  }

  predicate IsAscii(s: string) {
    forall c :: c in s ==> c as int < 128
  }

  // The Unicode White_Space property, as `char::is_whitespace` tests it.
  predicate IsWhitespace(c: char) {
    var n := c as int;
    || 9 <= n <= 13 || n == 0x20 || n == 0x85 || n == 0xA0 || n == 0x1680 || 0x2000 <= n <= 0x200A
    || n == 0x2028 || n == 0x2029 || n == 0x202F || n == 0x205F || n == 0x3000
  }

  /** One by one, as the property lists them. */
  lemma WhitespaceListed(c: char)
    ensures IsWhitespace(c) <==> c in {
      '\t', '\n', '\U{B}', '\U{C}', '\r', ' ', '\U{85}', '\U{A0}', '\U{1680}',
      '\U{2000}', '\U{2001}', '\U{2002}', '\U{2003}', '\U{2004}', '\U{2005}', '\U{2006}', '\U{2007}', '\U{2008}',
      '\U{2009}', '\U{200A}', '\U{2028}', '\U{2029}', '\U{202F}', '\U{205F}', '\U{3000}'}
  {
  }

  // `char::is_control`: general category Cc.
  predicate IsControl(c: char) {
    c as int < 0x20 || 0x7F <= c as int < 0xA0
  }

  /** `s.trim().is_empty()`. */
  predicate IsBlank(s: string) {
    forall c :: c in s ==> IsWhitespace(c)
  }

  /** `str::trim_end`. */
  function TrimEnd(s: string): (r: string)
    ensures r <= s
    ensures r != [] ==> !IsWhitespace(r[|r| - 1])
    ensures forall k :: |r| <= k < |s| ==> IsWhitespace(s[k])
  {
    if s != [] && IsWhitespace(s[|s| - 1]) then TrimEnd(s[..|s| - 1]) else s
  }

  /** `chars().take(n).collect()`. */
  function Take(s: string, n: nat): (r: string)
    ensures r <= s && |r| == (if n < |s| then n else |s|) && (|s| <= n ==> r == s)
  {
    if |s| <= n then s else s[..n]
  }
}
