/** PDF real numbers: the shortest decimal text of a double is rewritten without an exponent, as section 7.3.3
    of ISO 32000-1 demands, and denotes the same number. */
module PdfReal {
  import opened Wrappers
  import opened Decimal

  // ---------------------------------------------------------------- decimal texts

  datatype Exponent = Exponent(letter: char, sign: string, digits: string)

  /** sign whole [. fraction] [e exponent] */
  datatype Number = Number(sign: string, whole: string, fraction: Option<string>, exponent: Option<Exponent>)

  predicate IsSign(s: string) { s == "" || s == "-" || s == "+" }

  predicate IsExponent(e: Exponent) { (e.letter == 'e' || e.letter == 'E') && IsSign(e.sign) && AllDigits(e.digits) && e.digits != "" }

  predicate IsNumber(n: Number) {
    && IsSign(n.sign) && AllDigits(n.whole) && n.whole != ""
    && (n.fraction.Some? ==> AllDigits(n.fraction.value))
    && (n.exponent.Some? ==> IsExponent(n.exponent.value))
  }

  /** What std::to_chars gives for a finite double. */
  type Finite = n: Number | IsNumber(n) witness Number("", "0", None, None)

  function MantissaText(n: Number): string {
    n.whole + match n.fraction case None => "" case Some(f) => "." + f
  }

  function ExponentText(n: Number): string {
    match n.exponent case None => "" case Some(e) => [e.letter] + (e.sign + e.digits)
  }

  function Text(n: Number): string { n.sign + (MantissaText(n) + ExponentText(n)) }

  function Ten(e: int): real
    decreases if e < 0 then -e else e
  {
    if e == 0 then 1.0 else if e > 0 then 10.0 * Ten(e - 1) else Ten(e + 1) / 10.0
  }

  function Signed(sign: string, x: int): int { if sign == "-" then -x else x }

  function ExponentOf(n: Number): int
    requires IsNumber(n)
  {
    match n.exponent case None => 0 case Some(e) => Signed(e.sign, Value(e.digits))
  }

  function Digits(n: Number): string { n.whole + n.fraction.GetOr("") }

  /** The number that a text denotes. */
  function Denoted(n: Number): real
    requires IsNumber(n)
  {
    Signed(n.sign, Value(Digits(n))) as real * Ten(ExponentOf(n) - |n.fraction.GetOr("")|)
  }

  // ---------------------------------------------------------------- the rewriting

  function Zeros(n: nat): (s: string)
    ensures |s| == n && AllDigits(s)
  {
    seq(n, _ => '0')
  }

  /** The exponent is worked into the digits. */
  function Expanded(n: Number): Number
    requires IsNumber(n)
  {
    if n.exponent.None? then n
    else
      var digits, target := Digits(n), |n.whole| + ExponentOf(n);
      if target <= 0 then Number(n.sign, "0", Some(Zeros(-target) + digits), None)
      else if target >= |digits| then Number(n.sign, digits + Zeros(target - |digits|), None, None)
      else Number(n.sign, digits[..target], Some(digits[target..]), None)
  }

  function StripZeros(s: string): string {
    if s != "" && s[|s| - 1] == '0' then StripZeros(s[..|s| - 1]) else s
  }

  /** Zeros at the end of the fraction go, and with the last of them the point. */
  function Trimmed(n: Number): Number {
    match n.fraction
    case None => n
    case Some(f) => n.(fraction := if StripZeros(f) == "" then None else Some(StripZeros(f)))
  }

  function WithoutMinusZero(s: string): string { if s == "-0" then "0" else s }

  function Formatted(n: Number): string
    requires IsNumber(n)
  {
    WithoutMinusZero(Text(Trimmed(Expanded(n))))
  }

  // ---------------------------------------------------------------- values

  /** A zero more at the end, and one less in the exponent, change nothing. */
  lemma OneMoreZero(sign: string, s: string, e: int)
    requires AllDigits(s)
    ensures AllDigits(s + "0")
    ensures Signed(sign, Value(s + "0")) as real * Ten(e) == Signed(sign, Value(s)) as real * Ten(e + 1)
  {
    assert Signed(sign, Value(s + "0")) == Signed(sign, Value(s)) * 10;
  }

  lemma {:induction false} MoreZeros(sign: string, s: string, k: nat, e: int)
    requires AllDigits(s)
    ensures AllDigits(s + Zeros(k))
    ensures Signed(sign, Value(s + Zeros(k))) as real * Ten(e) == Signed(sign, Value(s)) as real * Ten(e + k)
    decreases k
  {
    hide Ten, Value, Signed, Zeros, AllDigits;
    NextZero(s, k);
    if k > 0 {
      MoreZeros(sign, s, k - 1, e + 1);
      OneMoreZero(sign, s + Zeros(k - 1), e);
    }
  }

  lemma NextZero(s: string, k: nat)
    ensures k == 0 ==> s + Zeros(k) == s
    ensures k > 0 ==> s + Zeros(k) == (s + Zeros(k - 1)) + "0"
  {
  }

  lemma {:induction false} ZerosInFront(k: nat, s: string)
    requires AllDigits(s)
    ensures AllDigits(Zeros(k) + s) && Value(Zeros(k) + s) == Value(s)
    decreases |s|, k
  {
    if s != "" {
      var front, last := s[..|s| - 1], s[|s| - 1];
      ZerosInFront(k, front);
      assert s == front + [last] && Zeros(k) + s == (Zeros(k) + front) + [last];
    } else if k > 0 {
      ZerosInFront(k - 1, s);
      assert Zeros(k) + s == (Zeros(k - 1) + s) + ['0'];
    }
  }

  lemma ExpandedIsPlain(n: Number)
    requires IsNumber(n)
    ensures IsNumber(Expanded(n)) && Expanded(n).exponent.None?
  {
  }

  /** Working the exponent in does not change the number. */
  lemma ExpandedDenotes(n: Number)
    requires IsNumber(n)
    ensures IsNumber(Expanded(n)) && Denoted(Expanded(n)) == Denoted(n)
  {
    hide Ten, Value;
    ExpandedIsPlain(n);
    if n.exponent.Some? {
      var digits, target := Digits(n), |n.whole| + ExponentOf(n);
      if target <= 0 {
        ZerosInFront(1 - target, digits);
        assert Digits(Expanded(n)) == Zeros(1 - target) + digits;
      } else if target >= |digits| {
        MoreZeros(n.sign, digits, target - |digits|, 0);
        assert Digits(Expanded(n)) == digits + Zeros(target - |digits|);
      } else {
        assert Digits(Expanded(n)) == digits;
      }
    }
  }

  lemma {:induction false} StripZerosFacts(s: string)
    requires AllDigits(s)
    ensures StripZeros(s) <= s && AllDigits(StripZeros(s))
    ensures s == StripZeros(s) + Zeros(|s| - |StripZeros(s)|)
    ensures StripZeros(s) != "" ==> StripZeros(s)[|StripZeros(s)| - 1] != '0'
  {
    if s != "" && s[|s| - 1] == '0' { StripZerosFacts(s[..|s| - 1]); }
  }

  lemma TrimmedDenotes(n: Number)
    requires IsNumber(n) && n.exponent.None?
    ensures IsNumber(Trimmed(n)) && Denoted(Trimmed(n)) == Denoted(n)
  {
    hide Ten, Value, StripZeros;
    if n.fraction.Some? {
      var f := n.fraction.value;
      StripZerosFacts(f);
      var kept, k := StripZeros(f), |f| - |StripZeros(f)|;
      MoreZeros(n.sign, n.whole + kept, k, -|f|);
      assert Digits(n) == (n.whole + kept) + Zeros(k);
      assert Digits(Trimmed(n)) == n.whole + kept;
    }
  }

  /** A text in the form that a PDF file may hold: no exponent, a digit before the point, none of the digits after
      it superfluous, and no negative zero. */
  predicate IsPdfReal(s: string, n: Number) {
    && IsNumber(n) && s == Text(n) && n.exponent.None?
    && (n.fraction.Some? ==> n.fraction.value != "" && n.fraction.value[|n.fraction.value| - 1] != '0')
    && s != "-0"
  }

  lemma TrimmedIsTight(n: Number)
    requires IsNumber(n) && n.exponent.None?
    ensures var q := Trimmed(n);
            && q.exponent.None?
            && (q.fraction.Some? ==> q.fraction.value != "" && q.fraction.value[|q.fraction.value| - 1] != '0')
  {
    hide StripZeros;
    if n.fraction.Some? { StripZerosFacts(n.fraction.value); }
  }

  lemma ZeroIsPdfReal()
    ensures IsPdfReal("0", Number("", "0", None, None)) && Denoted(Number("", "0", None, None)) == 0.0
  {
  }

  lemma MinusZeroDenotes(q: Number)
    requires IsNumber(q) && q.exponent.None? && Text(q) == "-0"
    ensures Denoted(q) == 0.0
  {
    hide Ten, Text, Value;
    MinusZero(q);
  }

  /** The result of formatReal is such a text, and it denotes the number that it was made from. */
  lemma FormattedIsPdfReal(n: Number)
    requires IsNumber(n)
    ensures exists q :: IsPdfReal(Formatted(n), q) && Denoted(q) == Denoted(n)
  {
    hide Text, Expanded, Trimmed, Denoted;
    var m := Expanded(n);
    ExpandedIsPlain(n);
    ExpandedDenotes(n);
    TrimmedDenotes(m);
    TrimmedIsTight(m);
    var q := Trimmed(m);
    if Text(q) == "-0" {
      MinusZeroDenotes(q);
      ZeroIsPdfReal();
    } else {
      assert IsPdfReal(Text(q), q);
    }
  }

  lemma TextHead(n: Number)
    requires IsNumber(n)
    ensures Text(n) != "" && Text(n)[0] == if n.sign == "" then n.whole[0] else n.sign[0]
  {
  }

  lemma MinusZero(q: Number)
    requires IsNumber(q) && q.exponent.None? && Text(q) == "-0"
    ensures q.fraction.None? && Value(Digits(q)) == 0
  {
    var text := Text(q);
    TextHead(q);
    assert q.sign == "-";
    assert text[1] == q.whole[0];
    assert |MantissaText(q)| == 1;
    assert q.whole == "0" && Digits(q) == "0";
  }

  // ---------------------------------------------------------------- formatReal on the text itself

  predicate IsMantissaChar(c: char) { IsDigit(c) || c == '.' }

  lemma MantissaChars(n: Number)
    requires IsNumber(n)
    ensures forall i :: 0 <= i < |MantissaText(n)| ==> IsMantissaChar(MantissaText(n)[i])
    ensures FindChar(MantissaText(n), '.', 0) == if n.fraction.None? then None else Some(|n.whole|)
  {
    var m := MantissaText(n);
    if n.fraction.Some? {
      assert m[|n.whole|] == '.';
    }
  }

  /** result.find_first_of("eE"); the length of the text stands for npos. */
  method FindExponent(text: string, ghost n: Number) returns (position: nat)
    requires IsNumber(n) && text == Text(n)
    ensures position == |n.sign| + |MantissaText(n)| <= |text|
    ensures position < |text| <==> n.exponent.Some?
  {
    hide MantissaText;
    MantissaChars(n);
    ghost var end := |n.sign| + |MantissaText(n)|;
    assert forall i :: 0 <= i < |n.sign| ==> text[i] == n.sign[i];
    assert forall i :: |n.sign| <= i < end ==> text[i] == MantissaText(n)[i - |n.sign|];
    position := 0;
    while position < |text| && text[position] != 'e' && text[position] != 'E'
      invariant position <= end
    {
      position := position + 1;
    }
  }

  /** std::stoi of an optional sign and digits. */
  function ParseExponent(s: string): int
    requires s != "" && AllDigits(s[1..]) && (s[0] == '-' || s[0] == '+' || IsDigit(s[0]))
  {
    if s[0] == '-' then Signed("-", Value(s[1..])) else if s[0] == '+' then Value(s[1..]) else Value(s)
  }

  lemma ExponentParsed(e: Exponent)
    requires IsExponent(e)
    ensures var s := e.sign + e.digits;
            && s != "" && AllDigits(s[1..]) && (s[0] == '-' || s[0] == '+' || IsDigit(s[0]))
            && ParseExponent(s) == Signed(e.sign, Value(e.digits))
  {
    hide Value;
    var s := e.sign + e.digits;
    if e.sign == "" { assert s == e.digits; } else { assert s[0] == e.sign[0] && s[1..] == e.digits; }
  }

  lemma CutAtExponent(n: Number)
    requires IsNumber(n) && n.exponent.Some?
    ensures var p := |n.sign| + |MantissaText(n)|;
            && p < |Text(n)| && Text(n)[..p] == n.sign + MantissaText(n)
            && Text(n)[p + 1..] == n.exponent.value.sign + n.exponent.value.digits
  {
    hide MantissaText, Value;
    var front, e := n.sign + MantissaText(n), n.exponent.value;
    Regrouped(n.sign, MantissaText(n), ExponentText(n));
    assert (front + ExponentText(n))[|front| + 1..] == ExponentText(n)[1..] == e.sign + e.digits;
  }

  lemma WithoutPoint(n: Number)
    requires IsNumber(n)
    ensures n.fraction.None? ==> MantissaText(n) == Digits(n) == n.whole
    ensures n.fraction.Some? ==>
              MantissaText(n)[..|n.whole|] + MantissaText(n)[|n.whole| + 1..] == Digits(n)
  {
    var m := MantissaText(n);
    if n.fraction.Some? {
      assert m[..|n.whole|] == n.whole && m[|n.whole| + 1..] == n.fraction.value;
    }
  }

  /** The branch of formatReal for a text with an exponent. */
  method ExpandText(text: string, ghost n: Number) returns (result: string)
    requires IsNumber(n) && text == Text(n)
    ensures result == Text(Expanded(n))
  {
    hide MantissaText, Value, Zeros, Digits, Text, Expanded;
    NotExpanded(n);
    result := text;
    var exponentPosition := FindExponent(text, n);
    if exponentPosition == |text| { return; }
    CutAtExponent(n);
    ExponentParsed(n.exponent.value);
    var exponent := ParseExponent(text[exponentPosition + 1..]);
    var sign, mantissa := SplitSign(text[..exponentPosition], n);
    MantissaChars(n);
    WithoutPoint(n);
    var decimal := FindChar(mantissa, '.', 0);
    var originalDecimal := if decimal.None? then |mantissa| else decimal.value;
    if decimal.Some? { mantissa := mantissa[..originalDecimal] + mantissa[originalDecimal + 1..]; }
    assert mantissa == Digits(n) && originalDecimal == |n.whole| && exponent == ExponentOf(n);
    var target := originalDecimal + exponent;
    ExpandedText(n, target);
    if target <= 0 {
      result := sign + ("0." + (Zeros(-target) + mantissa));
    } else if target >= |mantissa| {
      result := sign + (mantissa + Zeros(target - |mantissa|));
    } else {
      result := sign + (mantissa[..target] + ("." + mantissa[target..]));
    }
  }

  lemma NotExpanded(n: Number)
    requires IsNumber(n)
    ensures n.exponent.None? ==> Expanded(n) == n
  {
  }

  lemma ExpandedText(n: Number, target: int)
    requires IsNumber(n) && n.exponent.Some? && target == |n.whole| + ExponentOf(n)
    ensures var digits := Digits(n);
            Text(Expanded(n)) == if target <= 0 then n.sign + ("0." + (Zeros(-target) + digits))
                                 else if target >= |digits| then n.sign + (digits + Zeros(target - |digits|))
                                 else n.sign + (digits[..target] + ("." + digits[target..]))
  {
    hide Value;
    var m := Expanded(n);
    assert MantissaText(m) + "" == MantissaText(m);
    assert "0" + ("." + (Zeros(if target <= 0 then -target else 0) + Digits(n)))
        == "0." + (Zeros(if target <= 0 then -target else 0) + Digits(n));
    assert (Digits(n) + Zeros(if target > |Digits(n)| then target - |Digits(n)| else 0)) + ""
        == Digits(n) + Zeros(if target > |Digits(n)| then target - |Digits(n)| else 0);
  }

  method SplitSign(text: string, ghost n: Number) returns (sign: string, mantissa: string)
    requires IsNumber(n) && text == n.sign + MantissaText(n)
    ensures sign == n.sign && mantissa == MantissaText(n)
  {
    MantissaChars(n);
    if n.sign != "" { assert text[0] == n.sign[0]; } else { assert text[0] == MantissaText(n)[0]; }
    sign, mantissa := "", text;
    if mantissa != "" && (mantissa[0] == '-' || mantissa[0] == '+') {
      sign, mantissa := mantissa[..1], mantissa[1..];
    }
  }

  lemma PlainText(n: Number)
    requires IsNumber(n) && n.exponent.None?
    ensures n.fraction.None? ==> Text(n) == n.sign + n.whole
    ensures n.fraction.Some? ==> Text(n) == (n.sign + n.whole) + ("." + n.fraction.value)
    ensures FindChar(Text(n), '.', 0) == if n.fraction.None? then None else Some(|n.sign + n.whole|)
  {
    MantissaChars(n);
    var text := Text(n);
    assert forall i :: 0 <= i < |n.sign + n.whole| ==> text[i] == (n.sign + n.whole)[i];
    if n.fraction.Some? {
      assert text[|n.sign + n.whole|] == '.';
    }
  }

  /** The loop that drops zeros from the end of the fraction, and then the point. */
  method TrimText(text: string, ghost n: Number) returns (result: string)
    requires IsNumber(n) && n.exponent.None? && text == Text(n)
    ensures result == Text(Trimmed(n))
  {
    hide Text;
    PlainText(n);
    result := text;
    var decimal := FindChar(result, '.', 0);
    if decimal.None? { return; }
    ghost var front, fraction := n.sign + n.whole, n.fraction.value;
    ghost var kept := fraction;
    while |result| > decimal.value + 1 && result[|result| - 1] == '0'
      invariant |result| > decimal.value == |front| && result == front + ("." + kept)
      invariant AllDigits(kept) && StripZeros(kept) == StripZeros(fraction)
    {
      assert kept[|kept| - 1] == '0';
      kept := kept[..|kept| - 1];
      result := result[..|result| - 1];
    }
    StripZerosFacts(fraction);
    if kept != "" { assert kept[|kept| - 1] == result[|result| - 1]; }
    assert kept == StripZeros(fraction);
    PlainText(Trimmed(n));
    if result[|result| - 1] == '.' { result := result[..|result| - 1]; }
  }

  /** formatReal after std::to_chars has given the text of a finite double. */
  method FormatReal(text: string, ghost n: Number) returns (result: string)
    requires IsNumber(n) && text == Text(n)
    ensures result == Formatted(n)
  {
    ExpandedIsPlain(n);
    var expanded := ExpandText(text, n);
    result := TrimText(expanded, Expanded(n));
    if result == "-0" { result := "0"; }
  }
}
