/** Canonical Base64 (section 4 of RFC 4648; section 3.5 for the canonical padding bits). Shifts and
    masks are written as division, remainder and sums. */
module Base64 {
  import opened Wrappers

  /** A std::string character read as unsigned char. */
  type Octet = c: char | c as int < 0x100 witness ' '
  type Octets = seq<Octet>

  // ---------------------------------------------------------------- the alphabet

  /** alphabet[n]. */
  function Digit(n: nat): char
    requires n < 64
  {
    if n < 26 then (65 + n) as char
    else if n < 52 then (97 + n - 26) as char
    else if n < 62 then (48 + n - 52) as char
    else if n == 62 then '+'
    else '/'
  }

  /** alphabet.find(c). */
  function DigitValue(c: char): (v: Option<nat>)
    ensures v.Some? <==> exists n :: 0 <= n < 64 && Digit(n) == c
    ensures v.Some? ==> v.value < 64 && Digit(v.value) == c
  {
    if 'A' <= c <= 'Z' then assert Digit(c as int - 65) == c; Some(c as int - 65)
    else if 'a' <= c <= 'z' then assert Digit(c as int - 97 + 26) == c; Some(c as int - 97 + 26)
    else if '0' <= c <= '9' then assert Digit(c as int - 48 + 52) == c; Some(c as int - 48 + 52)
    else if c == '+' then assert Digit(62) == c; Some(62)
    else if c == '/' then assert Digit(63) == c; Some(63)
    else None
  }

  lemma DigitRoundTrip(n: nat)
    requires n < 64
    ensures DigitValue(Digit(n)) == Some(n) && Digit(n) != '=' && Digit(n) != '-' && Digit(n) != '<'
  {
  }

  // ---------------------------------------------------------------- encoding

  /** Four characters for up to three bytes. */
  function EncodeGroup(s: Octets): (g: string)
    requires 1 <= |s| <= 3
    ensures |g| == 4
  {
    var a := s[0] as int;
    var b := if |s| > 1 then s[1] as int else 0;
    var c := if |s| > 2 then s[2] as int else 0;
    [Digit(a / 4), Digit(a % 4 * 16 + b / 16),
     if |s| > 1 then Digit(b % 16 * 4 + c / 64) else '=',
     if |s| > 2 then Digit(c % 64) else '=']
  }

  function Encode(s: Octets): (t: string)
    ensures |t| % 4 == 0
  {
    hide EncodeGroup;
    if s == [] then ""
    else if |s| <= 3 then EncodeGroup(s)
    else EncodeGroup(s[..3]) + Encode(s[3..])
  }

  /** encodeBase64. */
  method EncodeBase64(source: Octets) returns (result: string)
    ensures result == Encode(source)
  {
    hide Digit, Encode;
    result := "";
    var i := 0;
    assert source[0..] == source && "" + Encode(source) == Encode(source);
    while i < |source|
      invariant 0 <= i
      invariant result + Encode(source[Min(i, |source|)..]) == Encode(source)
    {
      var a := source[i] as int;
      var b := if i + 1 < |source| then source[i + 1] as int else 0;
      var c := if i + 2 < |source| then source[i + 2] as int else 0;
      EncodeStep(source, i);
      ghost var before, rest := result, Encode(source[Min(i + 3, |source|)..]);
      result := result + [Digit(a / 4), Digit(a % 4 * 16 + b / 16),
                          if i + 1 < |source| then Digit(b % 16 * 4 + c / 64) else '=',
                          if i + 2 < |source| then Digit(c % 64) else '='];
      assert result == before + EncodeGroup(source[i..Min(i + 3, |source|)]);
      assert before + (EncodeGroup(source[i..Min(i + 3, |source|)]) + rest) == result + rest;
      i := i + 3;
    }
    EncodeNothing();
    assert source[Min(i, |source|)..] == [] && result + "" == result;
  }

  lemma EncodeStep(s: Octets, i: nat)
    requires i < |s|
    ensures Encode(s[i..]) == EncodeGroup(s[i..Min(i + 3, |s|)]) + Encode(s[Min(i + 3, |s|)..])
  {
    hide EncodeGroup;
    var rest := s[i..];
    if |rest| <= 3 {
      assert rest == s[i..Min(i + 3, |s|)] && s[Min(i + 3, |s|)..] == [];
      assert EncodeGroup(rest) + "" == EncodeGroup(rest);
    } else {
      assert rest[..3] == s[i..i + 3] && rest[3..] == s[i + 3..];
    }
  }

  lemma EncodeNothing()
    ensures Encode([]) == ""
  {
  }

  // ---------------------------------------------------------------- decoding

  /** The number that characters `n..` of a group extend `bits` to, and the padding they end in. */
  function GroupBits(group: string, last: bool, n: nat, bits: nat, padding: nat): Option<(nat, nat)>
    requires |group| == 4 && n <= 4
    decreases 4 - n
  {
    if n == 4 then Some((bits, padding))
    else if group[n] == '=' then
      if !last || n < 2 then None else GroupBits(group, last, n + 1, bits * 64, padding + 1)
    else
      match DigitValue(group[n])
      case None => None
      case Some(v) => if padding > 0 then None else GroupBits(group, last, n + 1, bits * 64 + v, padding)
  }

  /** The bytes of a group. */
  function GroupOctets(bits: nat, padding: nat): Octets {
    [(bits / 0x10000 % 0x100) as char]
    + (if padding < 2 then [(bits / 0x100 % 0x100) as char] else [])
    + (if padding == 0 then [(bits % 0x100) as char] else [])
  }

  function DecodeGroups(s: string): Option<Octets>
    requires |s| % 4 == 0
    decreases |s|
  {
    if s == "" then Some([])
    else
      match GroupBits(s[..4], |s| == 4, 0, 0, 0)
      case None => None
      case Some((bits, padding)) => Prepend(GroupOctets(bits, padding), DecodeGroups(s[4..]))
  }

  /** decodeBase64: what it decodes must encode back to the input. */
  function Decode(s: string): Option<Octets> {
    if |s| % 4 != 0 then None
    else
      match DecodeGroups(s)
      case None => None
      case Some(result) => if Encode(result) != s then None else Some(result)
  }

  /** The inner loop of decodeBase64. */
  method ReadGroup(group: string, last: bool) returns (r: Option<(nat, nat)>)
    requires |group| == 4
    ensures r == GroupBits(group, last, 0, 0, 0)
  {
    hide DigitValue;
    var bits: nat, padding: nat := 0, 0;
    for n := 0 to 4
      invariant GroupBits(group, last, 0, 0, 0) == GroupBits(group, last, n, bits, padding)
    {
      if group[n] == '=' {
        if !last || n < 2 { return None; }
        padding, bits := padding + 1, bits * 64;
      } else {
        var v := DigitValue(group[n]);
        if padding > 0 || v.None? { return None; }
        bits := bits * 64 + v.value;
      }
    }
    return Some((bits, padding));
  }

  /** decodeBase64. */
  method DecodeBase64(source: string) returns (r: Option<Octets>)
    ensures r == Decode(source)
  {
    hide GroupOctets, Encode, GroupBits;
    if |source| % 4 != 0 { return None; }
    var result: Octets := [];
    assert source[0..] == source;
    PrependNothing(DecodeGroups(source));
    var i := 0;
    while i < |source|
      invariant 0 <= i <= |source| && i % 4 == 0
      invariant Prepend(result, DecodeGroups(source[i..])) == DecodeGroups(source)
    {
      var group := ReadGroup(source[i..i + 4], i + 4 == |source|);
      ghost var rest := source[i..];
      assert rest[..4] == source[i..i + 4] && rest[4..] == source[i + 4..];
      if group.None? { return None; }
      var octets := GroupOctets(group.value.0, group.value.1);
      PrependBoth(result, octets, DecodeGroups(source[i + 4..]));
      result := result + octets;
      i := i + 4;
    }
    assert source[i..] == "" && result + [] == result;
    var encoded := EncodeBase64(result);
    if encoded != source { return None; }
    return Some(result);
  }

  // ---------------------------------------------------------------- the round trips

  /** The bits of a group put together again. */
  lemma GroupSum(a: nat, b: nat, c: nat)
    requires a < 0x100 && b < 0x100 && c < 0x100
    ensures ((a / 4 * 64 + (a % 4 * 16 + b / 16)) * 64 + (b % 16 * 4 + c / 64)) * 64 + c % 64
         == a * 0x10000 + b * 0x100 + c
  {
    assert a == a / 4 * 4 + a % 4;
    assert b == b / 16 * 16 + b % 16;
    assert c == c / 64 * 64 + c % 64;
  }

  lemma OctetsOfSum(a: nat, b: nat, c: nat)
    requires a < 0x100 && b < 0x100 && c < 0x100
    ensures var bits := a * 0x10000 + b * 0x100 + c;
            bits / 0x10000 % 0x100 == a && bits / 0x100 % 0x100 == b && bits % 0x100 == c
  {
    var bits := a * 0x10000 + b * 0x100 + c;
    assert bits / 0x100 == a * 0x100 + b;
    assert bits / 0x10000 == a;
  }

  /** Decoding one encoded group; only the last group may be short. */
  lemma GroupRoundTrip(s: Octets, last: bool)
    requires 1 <= |s| <= 3 && (last || |s| == 3)
    ensures var r := GroupBits(EncodeGroup(s), last, 0, 0, 0);
            r.Some? && GroupOctets(r.value.0, r.value.1) == s
  {
    hide GroupBits, EncodeGroup, GroupOctets;
    GroupBitsOf(s, last);
    GroupOctetsOf(s);
    GroupSum(s[0] as int, if |s| > 1 then s[1] as int else 0, if |s| > 2 then s[2] as int else 0);
  }

  lemma GroupOctetsOf(s: Octets)
    requires 1 <= |s| <= 3
    ensures var a := s[0] as int;
            var b := if |s| > 1 then s[1] as int else 0;
            var c := if |s| > 2 then s[2] as int else 0;
            GroupOctets(a * 0x10000 + b * 0x100 + c, 3 - |s|) == s
  {
    OctetsOfSum(s[0] as int, if |s| > 1 then s[1] as int else 0, if |s| > 2 then s[2] as int else 0);
  }

  lemma GroupBitsOf(s: Octets, last: bool)
    requires 1 <= |s| <= 3 && (last || |s| == 3)
    ensures var a := s[0] as int;
            var b := if |s| > 1 then s[1] as int else 0;
            var c := if |s| > 2 then s[2] as int else 0;
            GroupBits(EncodeGroup(s), last, 0, 0, 0)
            == Some((((a / 4 * 64 + (a % 4 * 16 + b / 16)) * 64 + (b % 16 * 4 + c / 64)) * 64 + c % 64, 3 - |s|))
  {
    hide Digit, DigitValue;
    var a := s[0] as int;
    var b := if |s| > 1 then s[1] as int else 0;
    var c := if |s| > 2 then s[2] as int else 0;
    DigitRoundTrip(a / 4);
    DigitRoundTrip(a % 4 * 16 + b / 16);
    DigitRoundTrip(b % 16 * 4 + c / 64);
    DigitRoundTrip(c % 64);
  }

  lemma {:induction false} DecodeGroupsOfEncode(s: Octets)
    ensures DecodeGroups(Encode(s)) == Some(s)
    decreases |s|
  {
    hide EncodeGroup, GroupBits, GroupOctets;
    if s != [] && |s| <= 3 {
      GroupRoundTrip(s, true);
      assert Encode(s)[..4] == EncodeGroup(s) && Encode(s)[4..] == "";
      assert s + [] == s;
    } else if |s| > 3 {
      var first, rest := EncodeGroup(s[..3]), Encode(s[3..]);
      assert rest != "" by { EncodeIsNotEmpty(s[3..]); }
      GroupRoundTrip(s[..3], false);
      DecodeGroupsOfEncode(s[3..]);
      assert (first + rest)[..4] == first && (first + rest)[4..] == rest;
      assert s[..3] + s[3..] == s;
    }
  }

  lemma EncodeIsNotEmpty(s: Octets)
    requires s != []
    ensures Encode(s) != ""
  {
  }

  /** Decoding inverts encoding on all byte strings. */
  lemma DecodeOfEncode(s: Octets)
    ensures Decode(Encode(s)) == Some(s)
  {
    DecodeGroupsOfEncode(s);
  }

  /** The decoder accepts exactly the encoder's outputs, each as the string it came from. */
  lemma DecodeAcceptsExactlyEncodings(t: string, s: Octets)
    ensures Decode(t) == Some(s) <==> Encode(s) == t
  {
    if Encode(s) == t { DecodeOfEncode(s); }
  }

  /** Encoded text holds only digits and padding. */
  lemma {:induction false} EncodedCharacters(s: Octets, i: nat)
    requires i < |Encode(s)|
    ensures Encode(s)[i] == '=' || DigitValue(Encode(s)[i]).Some?
    decreases |s|
  {
    if |s| > 3 && i >= 4 { EncodedCharacters(s[3..], i - 4); }
  }
}
