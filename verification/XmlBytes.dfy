/** Text checks and encodings around UTF-8: the PDF text validator and the XML input transcoder
    (UTF-16 as in section 2 of RFC 2781). */
module XmlBytes {
  import opened Wrappers
  import opened Unicode

  // ---------------------------------------------------------------- validPdfText

  /** validPdfText accepts exactly the strict UTF-8 strings without NUL of at most 2^20 bytes. */
  method ValidPdfText(value: Bytes) returns (ok: bool)
    ensures ok <==> |value| <= 0x10_0000 && 0 !in value && Decode(value).Some?
  {
    hide Decode, DecodeFirst;
    if |value| > 0x10_0000 { return false; }
    var i: nat := 0;
    assert value[0..] == value;
    while i < |value|
      invariant i <= |value| && 0 !in value[..i]
      invariant Decode(value[i..]).Some? <==> Decode(value).Some?
    {
      ghost var rest := value[i..];
      DecodeStep(rest);
      if value[i] == 0 { return false; }
      var count := ScalarLength(value, i);
      if count == 0 { return false; }
      assert value[..i + count] == value[..i] + value[i..i + count];
      assert rest[count..] == value[i + count..];
      i := i + count;
    }
    DecodeNothing();
    assert value[i..] == [] && value[..i] == value;
    return true;
  }

  /** One turn of the validator's loop: the length of the scalar at `i`, or 0 if there is none. */
  method ScalarLength(value: Bytes, i: nat) returns (count: nat)
    requires i < |value| && value[i] != 0
    ensures match DecodeFirst(value[i..])
            case None => count == 0
            case Some((_, length)) => count == length && 0 !in value[i..i + count]
  {
    hide IsScalar;
    var b := value[i];
    ghost var rest := value[i..];
    var lead := LeadOf(b);
    if b < 0x80 {
      AsciiFirst(rest);
      return 1;
    }
    if lead.None? || lead.value.count > |value| - i { return 0; }
    var scalar: nat := lead.value.point;
    count := lead.value.count;
    assert rest[1..count] == value[i + 1..i + count];
    for n := 1 to count
      invariant AddTails(lead.value.point, rest[1..count]) == AddTails(scalar, value[i + n..i + count])
      invariant forall k :: i <= k < i + n ==> value[k] != 0
    {
      var tail := value[i + n];
      ghost var tails := value[i + n..i + count];
      assert tails[0] == tail && tails[1..] == value[i + n + 1..i + count];
      if !IsTail(tail) { return 0; }
      scalar := scalar * 64 + tail % 64;
    }
    if scalar < lead.value.minimum || !IsScalar(scalar) { return 0; }
  }

  lemma DecodeNothing()
    ensures Decode([]).Some?
  {
  }

  lemma DecodeStep(s: Bytes)
    requires s != []
    ensures Decode(s).Some? <==> DecodeFirst(s).Some? && Decode(s[DecodeFirst(s).value.1..]).Some?
  {
  }

  lemma AsciiFirst(s: Bytes)
    requires s != [] && s[0] < 0x80
    ensures DecodeFirst(s) == Some((s[0] as nat, 1))
  {
    assert s[1..1] == [];
  }

  // ---------------------------------------------------------------- xmlUtf8

  predicate IsXmlScalar(c: int) {
    c == 9 || c == 10 || c == 13 || 32 <= c <= 0xD7FF || 0xE000 <= c <= 0xFFFD || 0x10000 <= c <= 0x10FFFF
  }

  predicate AllXmlScalars(cs: seq<Char32>) { forall i :: 0 <= i < |cs| ==> IsXmlScalar(cs[i]) }

  datatype Layout = Layout(width: nat, little: bool, offset: nat)

  const LESS_THAN: Byte := 0x3C

  /** The encoding family that the first bytes show: a byte order mark, or zeros around a "<". */
  function Detect(bs: Bytes): (l: Layout)
    ensures l.width in {1, 2, 4} && l.offset <= |bs|
  {
    if |bs| >= 4 && bs[..4] == [0, 0, 0xFE, 0xFF] then Layout(4, false, 4)
    else if |bs| >= 4 && bs[..4] == [0xFF, 0xFE, 0, 0] then Layout(4, true, 4)
    else if |bs| >= 2 && bs[..2] == [0xFE, 0xFF] then Layout(2, false, 2)
    else if |bs| >= 2 && bs[..2] == [0xFF, 0xFE] then Layout(2, true, 2)
    else if |bs| >= 4 && bs[..4] == [0, 0, 0, LESS_THAN] then Layout(4, false, 0)
    else if |bs| >= 4 && bs[..4] == [LESS_THAN, 0, 0, 0] then Layout(4, true, 0)
    else if |bs| >= 2 && bs[..2] == [0, LESS_THAN] then Layout(2, false, 0)
    else if |bs| >= 2 && bs[..2] == [LESS_THAN, 0] then Layout(2, true, 0)
    else if |bs| >= 3 && bs[..3] == [0xEF, 0xBB, 0xBF] then Layout(1, false, 3)
    else Layout(1, false, 0)
  }

  /** The code unit that these bytes hold. */
  function UnitOf(bs: Bytes, little: bool): nat {
    if bs == [] then 0
    else if little then bs[0] + 0x100 * UnitOf(bs[1..], little)
    else UnitOf(bs[..|bs| - 1], little) * 0x100 + bs[|bs| - 1]
  }

  predicate IsHigh(u: int) { 0xD800 <= u <= 0xDBFF }

  predicate IsLow(u: int) { 0xDC00 <= u <= 0xDFFF }

  /** The first code point of a text of two- or four-byte units, and how many bytes it takes. */
  function FirstPoint(bs: Bytes, width: nat, little: bool): (r: Option<(Char32, nat)>)
    requires width in {2, 4} && |bs| >= width
    ensures r.Some? ==> IsScalar(r.value.0) && width <= r.value.1 <= |bs|
    ensures r.Some? ==> r.value.1 in {width, 4}
  {
    var c := UnitOf(bs[..width], little);
    if width == 2 && IsHigh(c) then
      if |bs| < 4 then None
      else
        var low := UnitOf(bs[2..4], little);
        if !IsLow(low) then None else Some((0x10000 + (c - 0xD800) * 0x400 + (low - 0xDC00), 4))
    else if !IsScalar(c) then None
    else Some((c, width))
  }

  function DecodeUnits(bs: Bytes, width: nat, little: bool): (r: Option<seq<Char32>>)
    requires width in {2, 4} && |bs| % width == 0
    decreases |bs|
  {
    if bs == [] then Some([])
    else
      WholeUnits(|bs|, width);
      match FirstPoint(bs, width, little)
      case None => None
      case Some((c, count)) => Prepend([c], DecodeUnits(bs[count..], width, little))
  }

  /** xmlUtf8 up to its checks; `latin` is the search for a Latin-1 encoding declaration. */
  function PointsOf(bs: Bytes, latin: Bytes -> bool): Option<seq<Char32>> {
    var l := Detect(bs);
    var raw := bs[l.offset..];
    if l.width == 1 then if latin(raw) then Some(raw) else Decode(raw)
    else if |raw| % l.width != 0 then None
    else DecodeUnits(raw, l.width, l.little)
  }

  function XmlUtf8(bs: Bytes, latin: Bytes -> bool): Option<Bytes> {
    match PointsOf(bs, latin)
    case None => None
    case Some(points) => if AllXmlScalars(points) then Some(Encode(points)) else None
  }

  /** xmlUtf8. */
  method ToXmlUtf8(bs: Bytes, latin: Bytes -> bool) returns (r: Option<Bytes>)
    ensures r == XmlUtf8(bs, latin)
  {
    hide Detect, DecodeUnits, Decode, Encode;
    var l := Detect(bs);
    var raw := bs[l.offset..];
    var points: seq<Char32> := [];
    if l.width == 1 {
      if latin(raw) {
        points := raw;
      } else {
        var decoded := DecodeUtf8(raw);
        if decoded.None? { return None; }
        points := decoded.value;
      }
    } else {
      if |raw| % l.width != 0 { return None; }
      var decoded := ReadUnits(raw, l.width, l.little);
      if decoded.None? { return None; }
      points := decoded.value;
    }
    if !AllXmlScalars(points) { return None; }
    var encoded := EncodeUtf8(points);
    return Some(encoded);
  }

  /** The loop over two- or four-byte units. */
  method ReadUnits(raw: Bytes, width: nat, little: bool) returns (r: Option<seq<Char32>>)
    requires width in {2, 4} && |raw| % width == 0
    ensures r == DecodeUnits(raw, width, little)
  {
    hide FirstPoint;
    var points: seq<Char32> := [];
    var i: nat := 0;
    assert raw[0..] == raw;
    PrependNothing(DecodeUnits(raw, width, little));
    while i < |raw|
      invariant i <= |raw| && (|raw| - i) % width == 0
      invariant Prepend(points, DecodeUnits(raw[i..], width, little)) == DecodeUnits(raw, width, little)
    {
      WholeUnits(|raw| - i, width);
      var first := FirstPoint(raw[i..], width, little);
      if first.None? { return None; }
      var c, count := first.value.0, first.value.1;
      assert raw[i..][count..] == raw[i + count..];
      PrependBoth(points, [c], DecodeUnits(raw[i + count..], width, little));
      points := points + [c];
      i := i + count;
    }
    assert raw[i..] == [] && points + [] == points;
    return Some(points);
  }

  lemma WholeUnits(n: nat, width: nat)
    requires width in {2, 4} && n > 0 && n % width == 0
    ensures n >= width && (n - width) % width == 0 && (n >= 4 ==> (n - 4) % width == 0)
  {
  }

  // ---------------------------------------------------------------- what it guarantees

  /** Whatever the input encoding, a result is the strict UTF-8 of XML characters. */
  lemma XmlUtf8IsXmlText(bs: Bytes, latin: Bytes -> bool)
    requires XmlUtf8(bs, latin).Some?
    ensures exists points :: Decode(XmlUtf8(bs, latin).value) == Some(points) && AllXmlScalars(points)
  {
    EncodeThenDecode(PointsOf(bs, latin).value);
  }

  function UnitBytes(u: nat, little: bool): Bytes
    requires u < 0x10000
  {
    if little then [u % 0x100, u / 0x100] else [u / 0x100, u % 0x100]
  }

  /** UTF-16 of one code point: one unit, or a surrogate pair. */
  function Utf16One(c: Char32, little: bool): (bs: Bytes)
    requires IsScalar(c)
    ensures |bs| == 2 || |bs| == 4
  {
    if c < 0x10000 then UnitBytes(c, little)
    else UnitBytes(0xD800 + (c - 0x10000) / 0x400, little) + UnitBytes(0xDC00 + (c - 0x10000) % 0x400, little)
  }

  function Utf16(cs: seq<Char32>, little: bool): (bs: Bytes)
    requires AllScalars(cs)
    ensures |bs| % 2 == 0
  {
    if cs == [] then []
    else
      var first, rest := Utf16One(cs[0], little), Utf16(cs[1..], little);
      first + rest
  }

  function ByteOrderMark(little: bool): Bytes { if little then [0xFF, 0xFE] else [0xFE, 0xFF] }

  lemma UnitRoundTrip(u: nat, little: bool)
    requires u < 0x10000
    ensures UnitOf(UnitBytes(u, little), little) == u
  {
    var bs := UnitBytes(u, little);
    assert bs[1..] == [bs[1]] && bs[..1] == [bs[0]];
    OneByteUnit(bs[0], little);
    OneByteUnit(bs[1], little);
  }

  lemma OneByteUnit(b: Byte, little: bool)
    ensures UnitOf([b], little) == b
  {
    assert [b][1..] == [] && [b][..0] == [];
  }

  lemma FirstPointOfUtf16(c: Char32, little: bool, rest: Bytes)
    requires IsScalar(c)
    ensures FirstPoint(Utf16One(c, little) + rest, 2, little) == Some((c, |Utf16One(c, little)|))
  {
    hide UnitOf;
    var bs := Utf16One(c, little) + rest;
    if c < 0x10000 {
      assert bs[..2] == UnitBytes(c, little);
      UnitRoundTrip(c, little);
    } else {
      var high, low := 0xD800 + (c - 0x10000) / 0x400, 0xDC00 + (c - 0x10000) % 0x400;
      assert bs[..2] == UnitBytes(high, little) && bs[2..4] == UnitBytes(low, little);
      UnitRoundTrip(high, little);
      UnitRoundTrip(low, little);
    }
  }

  lemma {:induction false} DecodeUtf16(cs: seq<Char32>, little: bool)
    requires AllScalars(cs)
    ensures DecodeUnits(Utf16(cs, little), 2, little) == Some(cs)
  {
    if cs != [] {
      hide FirstPoint, Utf16One;
      var first, rest := Utf16One(cs[0], little), Utf16(cs[1..], little);
      FirstPointOfUtf16(cs[0], little, rest);
      DecodeUtf16(cs[1..], little);
      assert (first + rest)[|first|..] == rest;
      assert cs == [cs[0]] + cs[1..];
    }
  }

  /** The mark of little-endian UTF-16 is also how that of UTF-32 begins, but no XML text begins with a zero. */
  lemma MarkIsDetected(tail: Bytes, little: bool)
    requires |tail| >= 2 ==> tail[0] != 0 || tail[1] != 0
    ensures Detect(ByteOrderMark(little) + tail) == Layout(2, little, 2)
  {
    var bs := ByteOrderMark(little) + tail;
    assert bs[..2] == ByteOrderMark(little);
    assert bs[..2][0] == bs[0] && bs[..2][1] == bs[1];
    if |bs| >= 4 {
      assert bs[..4][0] == bs[0] && bs[..4][2] == tail[0] && bs[..4][3] == tail[1];
    }
  }

  lemma XmlUtf16Begins(cs: seq<Char32>, little: bool)
    requires AllXmlScalars(cs) && AllScalars(cs)
    ensures |Utf16(cs, little)| >= 2 ==> Utf16(cs, little)[0] != 0 || Utf16(cs, little)[1] != 0
  {
    if cs != [] {
      var first, rest := Utf16One(cs[0], little), Utf16(cs[1..], little);
      assert IsXmlScalar(cs[0]);
      assert (first + rest)[0] == first[0] && (first + rest)[1] == first[1];
    }
  }

  /** UTF-16 with a byte order mark, in either order, becomes the UTF-8 of the same XML characters. */
  lemma Utf16BecomesUtf8(cs: seq<Char32>, little: bool, latin: Bytes -> bool)
    requires AllXmlScalars(cs)
    ensures AllScalars(cs)
    ensures XmlUtf8(ByteOrderMark(little) + Utf16(cs, little), latin) == Some(Encode(cs))
  {
    hide DecodeUnits, Encode, Decode, Detect, Utf16;
    var bs := ByteOrderMark(little) + Utf16(cs, little);
    XmlUtf16Begins(cs, little);
    MarkIsDetected(Utf16(cs, little), little);
    assert bs[2..] == Utf16(cs, little);
    DecodeUtf16(cs, little);
  }

  /** UTF-8 input, with or without a byte order mark, is passed through unchanged. */
  lemma Utf8IsKept(cs: seq<Char32>, latin: Bytes -> bool)
    requires AllXmlScalars(cs) && !latin(Encode(cs))
    ensures XmlUtf8([0xEF, 0xBB, 0xBF] + Encode(cs), latin) == Some(Encode(cs))
  {
    hide Encode, Decode;
    var bs := [0xEF, 0xBB, 0xBF] + Encode(cs);
    assert bs[..3] == [0xEF, 0xBB, 0xBF] && bs[0] == 0xEF;
    assert |bs| >= 4 ==> bs[..4][0] == bs[0];
    assert bs[..2][0] == bs[0];
    assert bs[3..] == Encode(cs);
    EncodeThenDecode(cs);
  }
}
