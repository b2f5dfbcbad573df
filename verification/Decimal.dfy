/** Decimal renderings of sizes, as std::to_string and std::from_chars treat them. */
module Decimal {
  import opened Wrappers

  /** The largest std::size_t and std::uint64_t. */
  const SIZE_MAX: nat := 0xFFFF_FFFF_FFFF_FFFF

  predicate IsDigit(c: char) { '0' <= c <= '9' }

  predicate AllDigits(s: string) { forall i :: 0 <= i < |s| ==> IsDigit(s[i]) }

  function DigitChar(d: nat): (c: char)
    requires d < 10
    ensures IsDigit(c) && DigitValue(c) == d
  {
    (d + 48) as char
  }

  function DigitValue(c: char): (d: nat)
    requires IsDigit(c)
    ensures d < 10 && (d + 48) as char == c
  {
    c as int - 48
  }

  /** std::to_string of an unsigned number: no sign, no leading zeros. */
  function ToText(n: nat): (s: string)
    ensures |s| > 0 && AllDigits(s)
  {
    if n < 10 then [DigitChar(n)] else ToText(n / 10) + [DigitChar(n % 10)]
  }

  /** The number a digit string denotes. */
  function Value(s: string): nat
    requires AllDigits(s)
  {
    if s == "" then 0 else Value(s[..|s| - 1]) * 10 + DigitValue(s[|s| - 1])
  }

  lemma {:induction false} ValueOfText(n: nat)
    ensures Value(ToText(n)) == n
  {
    if n >= 10 {
      ValueOfText(n / 10);
      assert ToText(n)[..|ToText(n)| - 1] == ToText(n / 10);
    }
  }

  /** std::from_chars over a whole range: digits only, and no overflow of std::size_t. */
  function ParseSize(s: string): Option<nat> {
    if s != "" && AllDigits(s) && Value(s) <= SIZE_MAX then Some(Value(s)) else None
  }

  /** std::string_view::find of one character: the first index at or after `from`. */
  function FindChar(s: string, c: char, from: nat): (at: Option<nat>)
    requires from <= |s|
    ensures at.Some? ==> from <= at.value < |s| && s[at.value] == c && c !in s[from..at.value]
    ensures at.None? ==> c !in s[from..]
    decreases |s| - from
  {
    if from == |s| then None
    else if s[from] == c then Some(from)
    else FindChar(s, c, from + 1)
  }

  /** A number followed by a non-digit is a prefix code: neither it nor the rest is ambiguous. */
  lemma NumberThenCancels(a: nat, b: nat, sep: string, x: string, y: string)
    requires |sep| == 1 && !IsDigit(sep[0])
    requires ToText(a) + (sep + x) == ToText(b) + (sep + y)
    ensures a == b && x == y
  {
    var s, t := ToText(a), ToText(b);
    var whole := s + (sep + x);
    assert forall i :: 0 <= i < |s| ==> IsDigit(whole[i]);
    assert forall i :: 0 <= i < |t| ==> IsDigit(whole[i]);
    assert whole[|s|] == sep[0] && whole[|t|] == sep[0];
    PrefixCancels(s, t, sep + x, sep + y);
    PrefixCancels(sep, sep, x, y);
    ValueOfText(a);
    ValueOfText(b);
  }

  /** Equal-length pieces in front can be stripped. */
  lemma PrefixCancels<T>(p: seq<T>, q: seq<T>, x: seq<T>, y: seq<T>)
    requires p + x == q + y && |p| == |q|
    ensures p == q && x == y
  {
    assert p == (p + x)[..|p|] == q;
    assert x == (p + x)[|p|..] == y;
  }
}
