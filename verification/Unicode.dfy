/** Strict UTF-8 (section 3 of RFC 3629) as the text type of the XML codecs reads and writes it. Shifts
    and masks of disjoint bit fields are written as division, remainder and sums. */
module Unicode {
  import opened Wrappers

  type Byte = b: int | 0 <= b < 0x100
  type Bytes = seq<Byte>

  /** A char32_t. */
  type Char32 = c: int | 0 <= c < 0x1_0000_0000

  predicate IsScalar(c: int) { (0 <= c <= 0x10FFFF) && !(0xD800 <= c <= 0xDFFF) }

  predicate AllScalars(cs: seq<Char32>) { forall i :: 0 <= i < |cs| ==> IsScalar(cs[i]) }

  // ---------------------------------------------------------------- encoding

  function Tail(x: nat): Byte { 0x80 + x % 64 }

  /** One code point; a lead byte of four drops what does not fit, as the cast to char does. */
  function EncodeOne(c: Char32): (bs: Bytes)
    ensures 1 <= |bs| <= 4
  {
    if c < 0x80 then [c]
    else if c < 0x800 then [0xC0 + c / 64, Tail(c)]
    else if c < 0x10000 then [0xE0 + c / 4096, Tail(c / 64), Tail(c)]
    else [0xF0 + c / 262144 % 16, Tail(c / 4096), Tail(c / 64), Tail(c)]
  }

  function Encode(cs: seq<Char32>): Bytes {
    if cs == [] then [] else EncodeOne(cs[0]) + Encode(cs[1..])
  }

  lemma {:induction false} EncodeConcat(a: seq<Char32>, b: seq<Char32>)
    ensures Encode(a + b) == Encode(a) + Encode(b)
  {
    if a == [] {
      assert a + b == b;
    } else {
      hide EncodeOne;
      EncodeConcat(a[1..], b);
      Regrouped(EncodeOne(a[0]), Encode(a[1..]), Encode(b));
      assert (a + b)[0] == a[0] && (a + b)[1..] == a[1..] + b;
    }
  }

  lemma EncodeFew(c: Char32)
    ensures Encode([]) == [] && Encode([c]) == EncodeOne(c)
  {
    assert [c][1..] == [] && EncodeOne(c) + [] == EncodeOne(c);
  }

  /** encodeUtf8. */
  method EncodeUtf8(points: seq<Char32>) returns (value: Bytes)
    ensures value == Encode(points)
  {
    hide Encode;
    value := [];
    EncodeFew(0);
    for i := 0 to |points|
      invariant value == Encode(points[..i])
    {
      var c := points[i];
      EncodeFew(c);
      EncodeConcat(points[..i], [c]);
      assert points[..i + 1] == points[..i] + [c];
      if c < 0x80 {
        value := value + [c];
      } else if c < 0x800 {
        value := value + [0xC0 + c / 64, Tail(c)];
      } else if c < 0x10000 {
        value := value + [0xE0 + c / 4096, Tail(c / 64), Tail(c)];
      } else {
        value := value + [0xF0 + c / 262144 % 16, Tail(c / 4096), Tail(c / 64), Tail(c)];
      }
    }
    assert points[..|points|] == points;
  }

  // ---------------------------------------------------------------- decoding

  datatype Lead = Lead(count: nat, point: nat, minimum: nat)

  /** What a first byte announces: the length, its payload bits and the least point of that length. */
  function LeadOf(b: Byte): (l: Option<Lead>)
    ensures l.Some? ==> 1 <= l.value.count <= 4
  {
    if b < 0x80 then Some(Lead(1, b, 0))
    else if 0xC2 <= b <= 0xDF then Some(Lead(2, b % 32, 0x80))
    else if 0xE0 <= b <= 0xEF then Some(Lead(3, b % 16, 0x800))
    else if 0xF0 <= b <= 0xF4 then Some(Lead(4, b % 8, 0x10000))
    else None
  }

  predicate IsTail(b: Byte) { 0x80 <= b < 0xC0 }

  /** `point` extended by the payloads of continuation bytes, if that is what they are. */
  function AddTails(point: nat, tails: Bytes): Option<nat>
    decreases |tails|
  {
    if tails == [] then Some(point)
    else if !IsTail(tails[0]) then None
    else AddTails(point * 64 + tails[0] % 64, tails[1..])
  }

  /** The first code point of a non-empty text, and its length. */
  function DecodeFirst(s: Bytes): (r: Option<(nat, nat)>)
    requires s != []
    ensures r.Some? ==> 1 <= r.value.1 <= |s| && IsScalar(r.value.0)
  {
    match LeadOf(s[0])
    case None => None
    case Some(lead) =>
      if lead.count > |s| then None
      else
        match AddTails(lead.point, s[1..lead.count])
        case None => None
        case Some(point) =>
          if point < lead.minimum || !IsScalar(point) then None else Some((point, lead.count))
  }

  function Decode(s: Bytes): (r: Option<seq<Char32>>)
    decreases |s|
  {
    if s == [] then Some([])
    else
      match DecodeFirst(s)
      case None => None
      case Some((point, count)) =>
        Prepend([point], Decode(s[count..]))
  }

  /** One turn of the loop of decodeUtf8: a code point and how many bytes it took. */
  method DecodePoint(input: Bytes, i: nat) returns (r: Option<(nat, nat)>)
    requires i < |input|
    ensures r == DecodeFirst(input[i..])
  {
    hide IsScalar;
    ghost var rest := input[i..];
    assert rest[0] == input[i];
    var lead := LeadOf(input[i]);
    if lead.None? || lead.value.count > |input| - i { return None; }
    var point: nat, count: nat := lead.value.point, lead.value.count;
    for n := 1 to count
      invariant AddTails(lead.value.point, rest[1..count]) == AddTails(point, rest[n..count])
    {
      var tail := input[i + n];
      assert rest[n..count][0] == tail && rest[n..count][1..] == rest[n + 1..count];
      if !IsTail(tail) { return None; }
      point := point * 64 + tail % 64;
    }
    return if point < lead.value.minimum || !IsScalar(point) then None else Some((point, count));
  }

  /** decodeUtf8; None is its std::invalid_argument. */
  method DecodeUtf8(input: Bytes) returns (r: Option<seq<Char32>>)
    ensures r == Decode(input)
  {
    hide DecodeFirst;
    var value: seq<Char32> := [];
    var i: nat := 0;
    assert input[0..] == input;
    PrependNothing(Decode(input));
    while i < |input|
      invariant i <= |input| && Prepend(value, Decode(input[i..])) == Decode(input)
    {
      var first := DecodePoint(input, i);
      if first.None? { return None; }
      var (point, count) := first.value;
      assert input[i..][count..] == input[i + count..];
      PrependBoth(value, [point], Decode(input[i + count..]));
      value := value + [point];
      i := i + count;
    }
    assert input[i..] == [] && value + [] == value;
    return Some(value);
  }

  // ---------------------------------------------------------------- the round trips

  lemma OneTail(point: nat, a: Byte)
    ensures AddTails(point, [a]) == if IsTail(a) then Some(point * 64 + a % 64) else None
  {
    assert [a][1..] == [];
  }

  lemma TwoTails(point: nat, a: Byte, b: Byte)
    ensures AddTails(point, [a, b])
         == if IsTail(a) && IsTail(b) then Some((point * 64 + a % 64) * 64 + b % 64) else None
  {
    assert [a, b][1..] == [b];
    OneTail(point * 64 + a % 64, b);
  }

  lemma ThreeTails(point: nat, a: Byte, b: Byte, c: Byte)
    ensures AddTails(point, [a, b, c])
         == if IsTail(a) && IsTail(b) && IsTail(c) then Some(((point * 64 + a % 64) * 64 + b % 64) * 64 + c % 64) else None
  {
    assert [a, b, c][1..] == [b, c];
    TwoTails(point * 64 + a % 64, b, c);
  }

  /** The base-64 digits of a code point. */
  lemma Digits(c: nat)
    ensures c == c / 64 * 64 + c % 64
    ensures c / 64 == c / 4096 * 64 + c / 64 % 64
    ensures c / 4096 == c / 262144 * 64 + c / 4096 % 64
  {
  }

  lemma FirstIs(s: Bytes, lead: Lead, point: nat)
    requires s != [] && LeadOf(s[0]) == Some(lead) && lead.count <= |s|
    requires AddTails(lead.point, s[1..lead.count]) == Some(point) && lead.minimum <= point && IsScalar(point)
    ensures DecodeFirst(s) == Some((point, lead.count))
  {
  }

  lemma TailDigit(x: nat)
    ensures IsTail(Tail(x)) && Tail(x) % 64 == x % 64
  {
  }

  lemma LeadDigit(p: nat)
    ensures 2 <= p < 32 ==> LeadOf(0xC0 + p) == Some(Lead(2, p, 0x80))
    ensures p < 16 ==> LeadOf(0xE0 + p) == Some(Lead(3, p, 0x800))
    ensures p <= 4 ==> LeadOf(0xF0 + p) == Some(Lead(4, p, 0x10000))
  {
  }

  /** Decoding reads back one encoded scalar. */
  lemma DecodeEncodedOne(c: Char32, rest: Bytes)
    requires IsScalar(c)
    ensures DecodeFirst(EncodeOne(c) + rest) == Some((c as nat, |EncodeOne(c)|))
  {
    if c < 0x80 {
      NoTail(c);
      assert (EncodeOne(c) + rest)[1..1] == [];
    } else if c < 0x800 {
      DecodeTwo(c, rest);
    } else if c < 0x10000 {
      DecodeThree(c, rest);
    } else {
      DecodeFour(c, rest);
    }
  }

  lemma DecodeTwo(c: Char32, rest: Bytes)
    requires IsScalar(c) && 0x80 <= c < 0x800
    ensures DecodeFirst(EncodeOne(c) + rest) == Some((c as nat, 2))
  {
    hide AddTails, DecodeFirst, LeadOf, Tail;
    var s := EncodeOne(c) + rest;
    Digits(c);
    TailDigit(c);
    LeadDigit(c / 64);
    assert s[1..2] == [Tail(c)];
    OneTail(c / 64, Tail(c));
    FirstIs(s, Lead(2, c / 64, 0x80), c);
  }

  lemma DecodeThree(c: Char32, rest: Bytes)
    requires IsScalar(c) && 0x800 <= c < 0x10000
    ensures DecodeFirst(EncodeOne(c) + rest) == Some((c as nat, 3))
  {
    hide AddTails, DecodeFirst, LeadOf, Tail;
    var s := EncodeOne(c) + rest;
    Digits(c);
    TailDigit(c);
    TailDigit(c / 64);
    LeadDigit(c / 4096);
    assert s[1..3] == [Tail(c / 64), Tail(c)];
    TwoTails(c / 4096, Tail(c / 64), Tail(c));
    FirstIs(s, Lead(3, c / 4096, 0x800), c);
  }

  lemma DecodeFour(c: Char32, rest: Bytes)
    requires IsScalar(c) && 0x10000 <= c
    ensures DecodeFirst(EncodeOne(c) + rest) == Some((c as nat, 4))
  {
    hide AddTails, DecodeFirst, LeadOf, Tail;
    var s := EncodeOne(c) + rest;
    Digits(c);
    TailDigit(c);
    TailDigit(c / 64);
    TailDigit(c / 4096);
    LeadDigit(c / 262144);
    assert s[1..4] == [Tail(c / 4096), Tail(c / 64), Tail(c)];
    ThreeTails(c / 262144, Tail(c / 4096), Tail(c / 64), Tail(c));
    FirstIs(s, Lead(4, c / 262144, 0x10000), c);
  }

  lemma NoTail(point: nat)
    ensures AddTails(point, []) == Some(point)
  {
  }

  /** Sums of base-64 digits come apart again. */
  lemma DigitsOfSum(q: nat, r: nat)
    requires r < 64
    ensures (q * 64 + r) / 64 == q && (q * 64 + r) % 64 == r
  {
  }

  lemma EncodeTwo(p: nat, a: Byte)
    requires IsTail(a) && p < 32 && 0x80 <= p * 64 + a % 64
    ensures EncodeOne(p * 64 + a % 64) == [0xC0 + p, a]
  {
    DigitsOfSum(p, a % 64);
  }

  lemma EncodeThree(p: nat, a: Byte, b: Byte)
    requires IsTail(a) && IsTail(b) && p < 16 && 0x800 <= (p * 64 + a % 64) * 64 + b % 64
    ensures EncodeOne((p * 64 + a % 64) * 64 + b % 64) == [0xE0 + p, a, b]
  {
    var q := p * 64 + a % 64;
    DigitsOfSum(q, b % 64);
    DigitsOfSum(p, a % 64);
    Digits(q * 64 + b % 64);
  }

  lemma EncodeFour(p: nat, a: Byte, b: Byte, c: Byte)
    requires IsTail(a) && IsTail(b) && IsTail(c) && p < 8
    requires 0x10000 <= ((p * 64 + a % 64) * 64 + b % 64) * 64 + c % 64
    ensures EncodeOne(((p * 64 + a % 64) * 64 + b % 64) * 64 + c % 64) == [0xF0 + p, a, b, c]
  {
    hide EncodeOne, Tail;
    TailOfSum(p, a);
    TailOfSum(p * 64 + a % 64, b);
    TailOfSum((p * 64 + a % 64) * 64 + b % 64, c);
    EncodeLarge(((p * 64 + a % 64) * 64 + b % 64) * 64 + c % 64);
  }

  lemma TailOfSum(q: nat, a: Byte)
    requires IsTail(a)
    ensures Tail(q * 64 + a % 64) == a && (q * 64 + a % 64) / 64 == q
  {
    DigitsOfSum(q, a % 64);
  }

  lemma EncodeLarge(c: Char32)
    requires 0x10000 <= c && c / 64 / 64 / 64 < 8
    ensures EncodeOne(c) == [0xF0 + c / 64 / 64 / 64, Tail(c / 64 / 64), Tail(c / 64), Tail(c)]
  {
    Quotients(c);
  }

  lemma Quotients(c: nat)
    ensures c / 64 / 64 == c / 4096 && c / 4096 / 64 == c / 262144
  {
  }

  /** Whatever decodes to a code point is that code point's only encoding. */
  lemma DecodedIsEncoding(s: Bytes)
    requires s != [] && DecodeFirst(s).Some?
    ensures var (point, count) := DecodeFirst(s).value;
            EncodeOne(point) == s[..count]
  {
    hide AddTails, EncodeOne;
    var lead := LeadOf(s[0]).value;
    if lead.count == 1 {
      assert s[1..1] == [];
      NoTail(lead.point);
      EncodeAscii(s[0]);
    } else if lead.count == 2 {
      assert s[1..2] == [s[1]];
      OneTail(lead.point, s[1]);
      EncodeTwo(lead.point, s[1]);
    } else if lead.count == 3 {
      assert s[1..3] == [s[1], s[2]];
      TwoTails(lead.point, s[1], s[2]);
      EncodeThree(lead.point, s[1], s[2]);
    } else {
      assert s[1..4] == [s[1], s[2], s[3]];
      ThreeTails(lead.point, s[1], s[2], s[3]);
      EncodeFour(lead.point, s[1], s[2], s[3]);
    }
  }

  lemma EncodeAscii(b: Byte)
    requires b < 0x80
    ensures EncodeOne(b) == [b]
  {
  }

  lemma {:induction false} DecodeGivesScalars(s: Bytes)
    requires Decode(s).Some?
    ensures AllScalars(Decode(s).value)
    decreases |s|
  {
    if s != [] { DecodeGivesScalars(s[DecodeFirst(s).value.1..]); }
  }

  lemma {:induction false} DecodeOfEncode(cs: seq<Char32>)
    requires AllScalars(cs)
    ensures Decode(Encode(cs)) == Some(cs)
  {
    if cs != [] {
      hide EncodeOne, DecodeFirst;
      var first, rest := EncodeOne(cs[0]), Encode(cs[1..]);
      DecodeEncodedOne(cs[0], rest);
      DecodeOfEncode(cs[1..]);
      assert (first + rest)[|first|..] == rest;
      assert cs == [cs[0]] + cs[1..];
    }
  }

  /** Code points survive encoding and decoding exactly when all of them are Unicode scalar values. */
  lemma EncodeThenDecode(cs: seq<Char32>)
    ensures Decode(Encode(cs)) == Some(cs) <==> AllScalars(cs)
  {
    if AllScalars(cs) { DecodeOfEncode(cs); }
    if Decode(Encode(cs)) == Some(cs) { DecodeGivesScalars(Encode(cs)); }
  }

  lemma EncodeCons(c: Char32, rest: seq<Char32>)
    ensures Encode([c] + rest) == EncodeOne(c) + Encode(rest)
  {
    assert ([c] + rest)[1..] == rest;
  }

  lemma DecodeParts(s: Bytes)
    requires s != [] && Decode(s).Some?
    ensures DecodeFirst(s).Some?
    ensures var (point, count) := DecodeFirst(s).value;
            Decode(s[count..]).Some? && Decode(s).value == [point] + Decode(s[count..]).value
  {
    hide DecodeFirst;
  }

  /** Bytes that decode at all are the encoding of what they decode to: no overlong forms, no surrogates. */
  lemma {:induction false} DecodeThenEncode(s: Bytes)
    requires Decode(s).Some?
    ensures Encode(Decode(s).value) == s
    decreases |s|
  {
    if s != [] {
      hide EncodeOne, Encode, DecodeFirst, Decode;
      DecodeParts(s);
      var (point, count) := DecodeFirst(s).value;
      DecodedIsEncoding(s);
      DecodeThenEncode(s[count..]);
      EncodeCons(point, Decode(s[count..]).value);
      Halves(s, count);
    }
  }

  // ---------------------------------------------------------------- order

  /** The order of a dictionary. */
  predicate Precedes(a: seq<int>, b: seq<int>)
    decreases |a|
  {
    b != [] && (a == [] || a[0] < b[0] || (a[0] == b[0] && Precedes(a[1..], b[1..])))
  }

  /** Before `b` whatever follows both. */
  predicate Decides(a: seq<int>, b: seq<int>)
    decreases |a|
  {
    a != [] && b != [] && (a[0] < b[0] || (a[0] == b[0] && Decides(a[1..], b[1..])))
  }

  lemma {:induction false} DecidesAlways(a: seq<int>, b: seq<int>, x: seq<int>, y: seq<int>)
    requires Decides(a, b)
    ensures Precedes(a + x, b + y) && Decides(a + x, b + y)
    decreases |a|
  {
    if a[0] == b[0] {
      DecidesAlways(a[1..], b[1..], x, y);
      assert (a + x)[1..] == a[1..] + x && (b + y)[1..] == b[1..] + y;
    }
  }

  lemma {:induction false} DecidedLater(front: seq<int>, x: seq<int>, y: seq<int>)
    requires Decides(x, y)
    ensures Decides(front + x, front + y)
  {
    if front == [] {
      NothingAround(x);
      NothingAround(y);
    } else {
      DecidedLater(front[1..], x, y);
      assert (front + x)[1..] == front[1..] + x && (front + y)[1..] == front[1..] + y;
    }
  }

  /** Six bits to a byte, the least significant ones last; the rest in the first byte. */
  function Sextets(lead: nat, c: nat, n: nat): seq<int>
    requires n >= 1
  {
    if n == 1 then [lead + c] else Sextets(lead, c / 64, n - 1) + [0x80 + c % 64]
  }

  lemma {:induction false} SextetsDecide(lead: nat, c: nat, d: nat, n: nat)
    requires n >= 1 && c < d
    ensures Decides(Sextets(lead, c, n), Sextets(lead, d, n))
  {
    if n > 1 {
      var a, b := Sextets(lead, c / 64, n - 1), Sextets(lead, d / 64, n - 1);
      if c / 64 < d / 64 {
        SextetsDecide(lead, c / 64, d / 64, n - 1);
        DecidesAlways(a, b, [0x80 + c % 64], [0x80 + d % 64]);
      } else {
        DecidedLater(a, [0x80 + c % 64], [0x80 + d % 64]);
      }
    }
  }

  /** The table of section 3 of RFC 3629. */
  lemma EncodeOneIsTable(c: Char32)
    requires IsScalar(c)
    ensures EncodeOne(c) == if c <= 0x7F then Sextets(0, c, 1) else if c <= 0x7FF then Sextets(0xC0, c, 2)
                            else if c <= 0xFFFF then Sextets(0xE0, c, 3) else Sextets(0xF0, c, 4)
  {
    assert c / 64 / 64 == c / 4096 && c / 4096 / 64 == c / 262144;
    if c > 0xFFFF {
      assert c / 262144 < 16;
      assert Sextets(0xF0, c / 262144, 1) == [0xF0 + c / 262144];
      assert Sextets(0xF0, c / 4096, 2) == [0xF0 + c / 262144, 0x80 + c / 4096 % 64];
      assert Sextets(0xF0, c / 64, 3) == [0xF0 + c / 262144, 0x80 + c / 4096 % 64, 0x80 + c / 64 % 64];
    } else if c > 0x7FF {
      assert Sextets(0xE0, c / 4096, 1) == [0xE0 + c / 4096];
      assert Sextets(0xE0, c / 64, 2) == [0xE0 + c / 4096, 0x80 + c / 64 % 64];
    } else if c > 0x7F {
      assert Sextets(0xC0, c / 64, 1) == [0xC0 + c / 64];
    }
  }

  lemma OneDecides(c: Char32, d: Char32)
    requires IsScalar(c) && IsScalar(d) && c < d
    ensures Decides(EncodeOne(c), EncodeOne(d))
  {
    hide Sextets;
    EncodeOneIsTable(c);
    EncodeOneIsTable(d);
    if |EncodeOne(c)| == |EncodeOne(d)| {
      hide EncodeOne, Decides;
      SextetsDecide(if c <= 0x7F then 0 else if c <= 0x7FF then 0xC0 else if c <= 0xFFFF then 0xE0 else 0xF0, c, d, |EncodeOne(c)|);
    }
  }

  /** UTF-8 texts are in the order of their code points. */
  lemma {:induction false} EncodingKeepsOrder(a: seq<Char32>, b: seq<Char32>)
    requires AllScalars(a) && AllScalars(b) && Precedes(a, b)
    ensures Precedes(Encode(a), Encode(b))
    decreases |a|
  {
    hide EncodeOne, IsScalar;
    if a != [] {
      if a[0] < b[0] {
        OneDecides(a[0], b[0]);
        DecidesAlways(EncodeOne(a[0]), EncodeOne(b[0]), Encode(a[1..]), Encode(b[1..]));
      } else {
        EncodingKeepsOrder(a[1..], b[1..]);
        PrecedesLater(EncodeOne(a[0]), Encode(a[1..]), Encode(b[1..]));
      }
    }
  }

  lemma {:induction false} PrecedesLater(front: seq<int>, x: seq<int>, y: seq<int>)
    requires Precedes(x, y)
    ensures Precedes(front + x, front + y)
  {
    if front == [] {
      NothingAround(x);
      NothingAround(y);
    } else {
      PrecedesLater(front[1..], x, y);
      assert (front + x)[1..] == front[1..] + x && (front + y)[1..] == front[1..] + y;
    }
  }
}
