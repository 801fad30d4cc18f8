/** The string operations the loaders rely on: `str.lower()`, `str.strip()`,
    `key.encode('ascii', 'ignore').decode()`, `str.join()`, `str.startswith()`
    and the decimal rendering of row numbers in messages. White space is
    Python's whole `str.isspace()` set; lower-casing covers the capitals of
    the ASCII and Latin-1 ranges only (see README, "Left out"). */
module Text {
  import opened Collections

  /** The capitals `str.lower()` maps one step of 32 down: A-Z and the
      Latin-1 capitals U+00C0-U+00DE except the multiplication sign. */
  predicate IsUpper(c: char) {
    'A' <= c <= 'Z' || ('\U{c0}' <= c <= '\U{de}' && c != '\U{d7}')
  }

  function LowerChar(c: char): (l: char)
    ensures !IsUpper(l)
    ensures IsUpper(c) ==> l as int == c as int + 32
    ensures !IsUpper(c) ==> l == c
  {
    if IsUpper(c) then (c as int + 32) as char else c
  }

  /** `s.lower()` on the capitals of `IsUpper`. */
  function Lower(s: string): (r: string)
    ensures |r| == |s|
    ensures forall i :: 0 <= i < |s| ==> r[i] == LowerChar(s[i])
  {
    seq(|s|, i requires 0 <= i < |s| => LowerChar(s[i]))
  }

  lemma LowerIdempotent(s: string)
    ensures Lower(Lower(s)) == Lower(s)
  {
  }

  /** The characters `str.isspace()` accepts, which are also the ones
      `str.strip()` removes: the separators of category Zs and the
      characters of bidirectional class WS, B or S. */
  predicate IsSpace(c: char) {
    || c == ' ' || '\t' <= c <= '\r' || '\U{1c}' <= c <= '\U{1f}'
    || c == '\U{85}' || c == '\U{a0}' || c == '\U{1680}'
    || '\U{2000}' <= c <= '\U{200a}' || c == '\U{2028}' || c == '\U{2029}'
    || c == '\U{202f}' || c == '\U{205f}' || c == '\U{3000}'
  }

  function StripLeft(s: string): (r: string)
    ensures |r| <= |s| && r == s[|s| - |r|..]
    ensures r == [] || !IsSpace(r[0])
    ensures forall i :: 0 <= i < |s| - |r| ==> IsSpace(s[i])
  {
    if s != [] && IsSpace(s[0]) then StripLeft(s[1..]) else s
  }

  function StripRight(s: string): (r: string)
    ensures |r| <= |s| && r == s[..|r|]
    ensures r == [] || !IsSpace(r[|r| - 1])
    ensures forall i :: |r| <= i < |s| ==> IsSpace(s[i])
  {
    if s != [] && IsSpace(s[|s| - 1]) then StripRight(s[..|s| - 1]) else s
  }

  /** `s.strip()`: a contiguous slice of `s` with no white space at either end,
      everything cut away being white space. */
  function Strip(s: string): (r: string)
    ensures r == [] || (!IsSpace(r[0]) && !IsSpace(r[|r| - 1]))
    ensures exists i, j :: && 0 <= i <= j <= |s| && r == s[i..j]
                           && (forall k :: 0 <= k < i ==> IsSpace(s[k]))
                           && (forall k :: j <= k < |s| ==> IsSpace(s[k]))
  {
    var l := StripLeft(s);
    var r := StripRight(l);
    TrimmedSlice(s, l, r, IsSpace);
    r
  }

  /** A suffix of `s` with only `cut` characters before it, and a prefix of
      that with only `cut` characters after it: a slice of `s` with only `cut`
      characters around it. */
  lemma TrimmedSlice(s: string, l: string, r: string, cut: char -> bool)
    requires |l| <= |s| && l == s[|s| - |l|..] && forall i :: 0 <= i < |s| - |l| ==> cut(s[i])
    requires |r| <= |l| && r == l[..|r|] && forall i :: |r| <= i < |l| ==> cut(l[i])
    ensures exists i, j :: && 0 <= i <= j <= |s| && r == s[i..j]
                           && (forall k :: 0 <= k < i ==> cut(s[k]))
                           && (forall k :: j <= k < |s| ==> cut(s[k]))
  {
    var i, j := |s| - |l|, |s| - |l| + |r|;
    assert r == s[i..][..|r|] == s[i..j];
    assert forall k :: j <= k < |s| ==> s[k] == l[k - i];
  }

  predicate IsAscii(c: char) { c as int < 128 }

  /** `key.encode('ascii', 'ignore').decode()`: the ASCII characters of the
      key, in order. */
  function AsciiOnly(s: string): (r: string)
    ensures r == Filter(s, IsAscii)
  {
    if s == [] then []
    else
      assert s == [s[0]] + s[1..];
      FilterCons(s[0], s[1..], IsAscii);
      if IsAscii(s[0]) then [s[0]] + AsciiOnly(s[1..]) else AsciiOnly(s[1..])
  }

  /** A key that is all ASCII comes through unchanged. */
  lemma AsciiKeyUnchanged(s: string)
    requires forall i :: 0 <= i < |s| ==> IsAscii(s[i])
    ensures AsciiOnly(s) == s
  {
    FilterAll(s, IsAscii);
  }

  predicate StartsWith(s: string, prefix: string) {
    |prefix| <= |s| && s[..|prefix|] == prefix
  }

  predicate EndsWith(s: string, suffix: string) {
    |suffix| <= |s| && s[|s| - |suffix|..] == suffix
  }

  /** `sep.join(parts)`: built here from the last part backwards, and shown to
      read from the first part forwards, each part followed by `sep` and the
      rest. */
  function Join(sep: string, parts: seq<string>): (r: string)
    ensures parts == [] ==> r == ""
    ensures |parts| == 1 ==> r == parts[0]
    ensures |parts| >= 2 ==> r == parts[0] + sep + Join(sep, parts[1..])
  {
    if parts == [] then ""
    else if |parts| == 1 then parts[0]
    else
      var init := parts[..|parts| - 1];
      if |parts| > 2 then
        assert parts[1..][..|parts[1..]| - 1] == init[1..];
        Join(sep, init) + sep + parts[|parts| - 1]
      else
        Join(sep, init) + sep + parts[|parts| - 1]
  }

  predicate IsDigit(c: char) { '0' <= c <= '9' }

  function DigitChar(d: nat): (c: char)
    requires d < 10
    ensures IsDigit(c)
  {
    ('0' as int + d) as char
  }

  /** The number a string of decimal digits denotes. */
  function DecimalValue(s: string): nat
    requires forall i :: 0 <= i < |s| ==> IsDigit(s[i])
  {
    if s == [] then 0
    else
      assert IsDigit(s[|s| - 1]);
      DecimalValue(s[..|s| - 1]) * 10 + (s[|s| - 1] as int - '0' as int)
  }

  /** The decimal rendering of `n` that `str.format` produces: digits that
      denote `n`, without a leading zero. */
  function NatToString(n: nat): (s: string)
    ensures |s| >= 1
    ensures forall i :: 0 <= i < |s| ==> IsDigit(s[i])
    ensures DecimalValue(s) == n
    ensures |s| > 1 ==> s[0] != '0'
    decreases n
  {
    if n < 10 then
      assert [DigitChar(n)][..0] == [];
      [DigitChar(n)]
    else
      var high := NatToString(n / 10);
      var s := high + [DigitChar(n % 10)];
      assert s[..|s| - 1] == high;
      assert |high| == 1 ==> high[..0] == [];
      s
  }
}
