/** Whatever encoding family an XML text is stored in, with a byte order mark or with none, it becomes the UTF-8 of the
    same characters. */
module XmlEncodings {
  import opened Wrappers
  import opened Unicode
  import opened XmlBytes

  // ---------------------------------------------------------------- UTF-32

  /** Four bytes for a code point. */
  function Utf32One(c: Char32, little: bool): (bs: Bytes)
    ensures |bs| == 4
  {
    var a, b, d, e := c % 0x100, c / 0x100 % 0x100, c / 0x1_0000 % 0x100, c / 0x100_0000;
    if little then [a, b, d, e] else [e, d, b, a]
  }

  function Utf32(cs: seq<Char32>, little: bool): (bs: Bytes)
    ensures |bs| == 4 * |cs|
  {
    if cs == [] then [] else Utf32One(cs[0], little) + Utf32(cs[1..], little)
  }

  lemma FourBytes(bs: Bytes, little: bool)
    requires |bs| == 4
    ensures UnitOf(bs, little) == if little then bs[0] as int + 0x100 * (bs[1] as int + 0x100 * (bs[2] as int + 0x100 * bs[3] as int))
                                  else ((bs[0] as int * 0x100 + bs[1]) * 0x100 + bs[2]) * 0x100 + bs[3]
  {
    if little {
      var one, two, three := bs[1..], bs[1..][1..], bs[1..][1..][1..];
      assert UnitOf(bs, little) == bs[0] + 0x100 * UnitOf(one, little);
      assert UnitOf(one, little) == bs[1] + 0x100 * UnitOf(two, little);
      assert UnitOf(two, little) == bs[2] + 0x100 * UnitOf(three, little);
      assert three == [bs[3]];
      OneByteUnit(bs[3], little);
    } else {
      var three, two, one := bs[..3], bs[..3][..2], bs[..3][..2][..1];
      assert UnitOf(bs, little) == UnitOf(three, little) * 0x100 + bs[3];
      assert UnitOf(three, little) == UnitOf(two, little) * 0x100 + bs[2];
      assert UnitOf(two, little) == UnitOf(one, little) * 0x100 + bs[1];
      assert one == [bs[0]];
      OneByteUnit(bs[0], little);
    }
  }

  lemma FirstPointOfUtf32(c: Char32, little: bool, rest: Bytes)
    requires IsScalar(c)
    ensures FirstPoint(Utf32One(c, little) + rest, 4, little) == Some((c, 4))
  {
    hide UnitOf;
    var bs := Utf32One(c, little) + rest;
    assert bs[..4] == Utf32One(c, little);
    FourBytes(Utf32One(c, little), little);
    assert c / 0x100_0000 == c / 0x1_0000 / 0x100 && c / 0x1_0000 == c / 0x100 / 0x100;
  }

  lemma {:induction false} DecodeUtf32(cs: seq<Char32>, little: bool)
    requires AllScalars(cs)
    ensures DecodeUnits(Utf32(cs, little), 4, little) == Some(cs)
  {
    if cs != [] {
      hide FirstPoint, Utf32One;
      var first, rest := Utf32One(cs[0], little), Utf32(cs[1..], little);
      FirstPointOfUtf32(cs[0], little, rest);
      DecodeUtf32(cs[1..], little);
      assert (first + rest)[4..] == rest;
      assert cs == [cs[0]] + cs[1..];
    }
  }

  // ---------------------------------------------------------------- every family

  datatype Family = Utf8Family | Utf16Family(little: bool) | Utf32Family(little: bool)

  function Stored(cs: seq<Char32>, family: Family): Bytes
    requires AllScalars(cs)
  {
    match family
    case Utf8Family => Encode(cs)
    case Utf16Family(little) => Utf16(cs, little)
    case Utf32Family(little) => Utf32(cs, little)
  }

  /** U+FEFF as the family stores it. */
  function Mark(family: Family): Bytes {
    match family
    case Utf8Family => [0xEF, 0xBB, 0xBF]
    case Utf16Family(little) => if little then [0xFF, 0xFE] else [0xFE, 0xFF]
    case Utf32Family(little) => if little then [0xFF, 0xFE, 0, 0] else [0, 0, 0xFE, 0xFF]
  }

  function LayoutOf(family: Family, offset: nat): Layout {
    match family
    case Utf8Family => Layout(1, false, offset)
    case Utf16Family(little) => Layout(2, little, offset)
    case Utf32Family(little) => Layout(4, little, offset)
  }

  lemma MarkOf32IsDetected(tail: Bytes, little: bool)
    ensures Detect(Mark(Utf32Family(little)) + tail) == Layout(4, little, 4)
  {
    assert (Mark(Utf32Family(little)) + tail)[..4] == Mark(Utf32Family(little));
  }

  lemma FirstBytes(bs: Bytes)
    ensures |bs| >= 4 ==> bs[..4] == [bs[0], bs[1], bs[2], bs[3]]
    ensures |bs| >= 3 ==> bs[..3] == [bs[0], bs[1], bs[2]]
    ensures |bs| >= 2 ==> bs[..2] == [bs[0], bs[1]]
  {
  }

  lemma Utf8IsDetected(cs: seq<Char32>)
    requires cs != [] && cs[0] == 0x3C && AllXmlScalars(cs)
    ensures Detect(Encode(cs)) == Layout(1, false, 0)
  {
    var bs, rest := Encode(cs), Encode(cs[1..]);
    FirstBytes(bs);
    assert bs == [0x3C] + rest;
    if |cs| > 1 { assert IsXmlScalar(cs[1]) && rest == EncodeOne(cs[1]) + Encode(cs[1..][1..]) && rest[0] == EncodeOne(cs[1])[0]; }
  }

  lemma Utf16IsDetected(cs: seq<Char32>, little: bool)
    requires cs != [] && cs[0] == 0x3C && AllXmlScalars(cs) && AllScalars(cs)
    ensures Detect(Utf16(cs, little)) == Layout(2, little, 0)
  {
    var bs, rest := Utf16(cs, little), Utf16(cs[1..], little);
    FirstBytes(bs);
    assert bs == (if little then [0x3C, 0] else [0, 0x3C]) + rest;
    if |cs| > 1 {
      var second := Utf16One(cs[1], little);
      assert IsXmlScalar(cs[1]) && rest == second + Utf16(cs[1..][1..], little);
      assert rest[0] == second[0] && rest[1] == second[1];
    }
  }

  lemma Utf32IsDetected(cs: seq<Char32>, little: bool)
    requires cs != [] && cs[0] == 0x3C
    ensures Detect(Utf32(cs, little)) == Layout(4, little, 0)
  {
    var bs := Utf32(cs, little);
    FirstBytes(bs);
    assert bs == (if little then [0x3C, 0, 0, 0] else [0, 0, 0, 0x3C]) + Utf32(cs[1..], little);
  }

  /** Without a mark the first bytes of "<" show the family. */
  lemma UnmarkedIsDetected(cs: seq<Char32>, family: Family)
    requires cs != [] && cs[0] == 0x3C && AllXmlScalars(cs) && AllScalars(cs)
    ensures Detect(Stored(cs, family)) == LayoutOf(family, 0)
  {
    hide Detect, Encode, Utf16, Utf32;
    match family
    case Utf8Family => Utf8IsDetected(cs);
    case Utf16Family(little) => Utf16IsDetected(cs, little);
    case Utf32Family(little) => Utf32IsDetected(cs, little);
  }

  lemma XmlScalarsAreScalars(cs: seq<Char32>)
    requires AllXmlScalars(cs)
    ensures AllScalars(cs)
  {
  }

  lemma DetectedBecomesUtf8(bs: Bytes, cs: seq<Char32>, family: Family, latin: Bytes -> bool)
    requires AllXmlScalars(cs) && AllScalars(cs)
    requires var layout := Detect(bs); layout == LayoutOf(family, layout.offset) && bs[layout.offset..] == Stored(cs, family)
    requires family.Utf8Family? ==> !latin(Encode(cs))
    ensures XmlUtf8(bs, latin) == Some(Encode(cs))
  {
    hide DecodeUnits, Encode, Decode, Detect, Utf16, Utf32, AllScalars, AllXmlScalars;
    match family
    case Utf8Family => EncodeThenDecode(cs);
    case Utf16Family(little) => DecodeUtf16(cs, little);
    case Utf32Family(little) => DecodeUtf32(cs, little);
  }

  /** An XML text in any family, behind the mark of the family or with "<" first, becomes UTF-8. */
  lemma EveryFamilyBecomesUtf8(cs: seq<Char32>, family: Family, marked: bool, latin: Bytes -> bool)
    requires AllXmlScalars(cs) && (marked || (cs != [] && cs[0] == 0x3C))
    requires family.Utf8Family? ==> !latin(Encode(cs))
    ensures AllScalars(cs)
    ensures XmlUtf8((if marked then Mark(family) else []) + Stored(cs, family), latin) == Some(Encode(cs))
  {
    XmlScalarsAreScalars(cs);
    hide XmlUtf8, Encode, Detect, Utf16, Utf32, AllScalars, AllXmlScalars;
    var bs := (if marked then Mark(family) else []) + Stored(cs, family);
    if !marked {
      UnmarkedIsDetected(cs, family);
      assert bs == Stored(cs, family) && bs[0..] == bs;
      DetectedBecomesUtf8(bs, cs, family, latin);
    } else {
      match family
      case Utf8Family => Utf8IsKept(cs, latin);
      case Utf16Family(little) => Utf16BecomesUtf8(cs, little, latin);
      case Utf32Family(little) =>
        MarkOf32IsDetected(Utf32(cs, little), little);
        assert bs[4..] == Utf32(cs, little);
        DetectedBecomesUtf8(bs, cs, family, latin);
    }
  }

  /** A text whose declaration says Latin-1 is read byte for byte. */
  lemma Latin1BecomesUtf8(bs: Bytes, latin: Bytes -> bool)
    requires bs != [] && bs[0] == 0x3C && latin(bs) && AllXmlScalars(bs)
    ensures XmlUtf8(bs, latin) == Some(Encode(bs))
  {
    hide Encode, Decode;
    FirstBytes(bs);
    assert IsXmlScalar(bs[0]) && (|bs| > 1 ==> IsXmlScalar(bs[1]));
    assert bs[0..] == bs;
  }

  /** The characters of XML are all code points but the surrogates, the two that are no characters, and the controls
      other than tab, line feed and carriage return. */
  lemma XmlCharactersAre(c: int)
    ensures IsXmlScalar(c)
      <==> && 0 <= c <= 0x10FFFF && !(0xD800 <= c < 0xE000) && c != 0xFFFE && c != 0xFFFF
           && (c < 0x20 ==> c == 0x09 || c == 0x0A || c == 0x0D)
  {
  }
}
