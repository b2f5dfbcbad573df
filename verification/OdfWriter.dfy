/** The text that the OpenDocument writer puts into a paragraph, and what reading it back gives. */
module OdfWriter {
  import opened Wrappers
  import opened Decimal
  import opened Unicode
  import opened XmlBytes
  import opened OdfStyles
  import opened OdfModel

  // ---------------------------------------------------------------- writeOdfText

  predicate IsBreak(c: Char32) { c == 0x0A || c == 0x0D }

  /** A carriage return takes a line feed after it along. */
  function BreakLength(cs: Chars): (n: nat)
    requires cs != []
    ensures 1 <= n <= |cs|
  {
    if cs[0] == 0x0D && |cs| > 1 && cs[1] == 0x0A then 2 else 1
  }

  /** How many spaces a text begins with. */
  function LeadingSpaces(cs: Chars): (n: nat)
    ensures n <= |cs| && (forall i :: 0 <= i < n ==> cs[i] == 0x20) && (n < |cs| ==> cs[n] != 0x20)
  {
    if cs != [] && cs[0] == 0x20 then 1 + LeadingSpaces(cs[1..]) else 0
  }

  /** How many characters a text begins with that are written as they are. */
  function LeadingPlain(cs: Chars): (n: nat)
    ensures n <= |cs| && (forall i :: 0 <= i < n ==> !IsCollapsible(cs[i])) && (n < |cs| ==> IsCollapsible(cs[n]))
  {
    if cs != [] && !IsCollapsible(cs[0]) then 1 + LeadingPlain(cs[1..]) else 0
  }

  function SpaceElement(n: nat): Inline { Space(if n > 1 then Given(n) else Absent) }

  /** The elements and chunks that a text is written as. */
  function WrittenText(cs: Chars): seq<Inline>
    decreases |cs|
  {
    if cs == [] then []
    else if cs[0] == 0x20 then [SpaceElement(LeadingSpaces(cs))] + WrittenText(cs[LeadingSpaces(cs)..])
    else if cs[0] == 0x09 then [Tab] + WrittenText(cs[1..])
    else if IsBreak(cs[0]) then [LineBreak] + WrittenText(cs[BreakLength(cs)..])
    else [Characters(cs[..LeadingPlain(cs)])] + WrittenText(cs[LeadingPlain(cs)..])
  }

  /** The text with every line ending as a line feed. */
  function Unbroken(cs: Chars): Chars
    decreases |cs|
  {
    if cs == [] then []
    else if IsBreak(cs[0]) then [0x0A] + Unbroken(cs[BreakLength(cs)..])
    else [cs[0]] + Unbroken(cs[1..])
  }

  /** What the writer's flush adds. */
  function Flushed(chunk: Chars): seq<Inline> { if chunk == [] then [] else [Characters(chunk)] }

  lemma LeadingPlainIs(cs: Chars, n: nat)
    requires n <= |cs| && (forall i :: 0 <= i < n ==> !IsCollapsible(cs[i])) && (n < |cs| ==> IsCollapsible(cs[n]))
    ensures LeadingPlain(cs) == n
  {
  }

  lemma LeadingSpacesIs(cs: Chars, n: nat)
    requires n <= |cs| && (forall i :: 0 <= i < n ==> cs[i] == 0x20) && (n < |cs| ==> cs[n] != 0x20)
    ensures LeadingSpaces(cs) == n
  {
  }

  lemma ChunkThen(chunk: Chars, rest: Chars)
    requires forall i :: 0 <= i < |chunk| ==> !IsCollapsible(chunk[i])
    requires rest != [] ==> IsCollapsible(rest[0])
    ensures WrittenText(chunk + rest) == Flushed(chunk) + WrittenText(rest)
  {
    hide LeadingPlain, LeadingSpaces;
    var cs := chunk + rest;
    if chunk == [] {
      assert cs == rest;
      NothingAround(WrittenText(rest));
    } else {
      assert cs[0] == chunk[0] && !IsCollapsible(cs[0]);
      LeadingPlainIs(cs, |chunk|);
      assert cs[..|chunk|] == chunk && cs[|chunk|..] == rest;
    }
  }

  /** The inner loop of writeOdfText. */
  method CountSpaces(points: Chars, index: nat) returns (count: nat)
    requires index < |points| && points[index] == 0x20
    ensures count >= 1 && index + count <= |points| && count == LeadingSpaces(points[index..])
  {
    count := 1;
    while index + count < |points| && points[index + count] == 0x20
      invariant index + count <= |points|
      invariant forall i :: index <= i < index + count ==> points[i] == 0x20
    {
      count := count + 1;
    }
    LeadingSpacesIs(points[index..], count);
  }

  /** The first element of a written text, what it stands for, and where the text goes on. */
  function FirstWritten(cs: Chars): (f: (Inline, Chars, nat))
    requires cs != []
    ensures 1 <= f.2 <= |cs|
  {
    if cs[0] == 0x20 then (SpaceElement(LeadingSpaces(cs)), Spaces(LeadingSpaces(cs)), LeadingSpaces(cs))
    else if cs[0] == 0x09 then (Tab, [0x09], 1)
    else if IsBreak(cs[0]) then (LineBreak, [0x0A], BreakLength(cs))
    else (Characters(cs[..LeadingPlain(cs)]), cs[..LeadingPlain(cs)], LeadingPlain(cs))
  }

  /** The branches of writeOdfText for white space: the element written and where the text goes on. */
  method WriteSpecial(points: Chars, index: nat) returns (element: Inline, next: nat)
    requires index < |points| && IsCollapsible(points[index])
    ensures element == FirstWritten(points[index..]).0 && next == index + FirstWritten(points[index..]).2
    ensures index < next <= |points|
    ensures AllXmlScalars(points[index..next])
  {
    hide LeadingPlain, LeadingSpaces;
    ghost var rest := points[index..];
    assert rest[0] == points[index];
    if points[index] == 0x20 {
      var count := CountSpaces(points, index);
      assert forall i :: index <= i < index + count ==> points[i] == rest[i - index];
      return SpaceElement(count), index + count;
    } else if points[index] == 0x09 {
      return Tab, index + 1;
    } else {
      next := index + 1;
      if points[index] == 0x0D && next < |points| && points[next] == 0x0A { next := next + 1; }
      assert |rest| > 1 ==> rest[1] == points[index + 1];
      return LineBreak, next;
    }
  }

  lemma WrittenOne(cs: Chars)
    requires cs != []
    ensures WrittenText(cs) == [FirstWritten(cs).0] + WrittenText(cs[FirstWritten(cs).2..])
  {
    hide LeadingSpaces, LeadingPlain;
  }

  /** The text so far, a flush and one more element. */
  lemma SpecialStep(points: Chars, index: nat, out: seq<Inline>, chunk: Chars)
    requires index < |points| && IsCollapsible(points[index])
    requires forall i :: 0 <= i < |chunk| ==> !IsCollapsible(chunk[i])
    ensures var (element, _, n) := FirstWritten(points[index..]);
            out + WrittenText(chunk + points[index..])
            == (out + Flushed(chunk) + [element]) + WrittenText([] + points[index + n..])
  {
    hide WrittenText, FirstWritten, Flushed;
    var rest := points[index..];
    var (element, _, n) := FirstWritten(rest);
    ChunkThen(chunk, rest);
    WrittenOne(rest);
    assert rest[n..] == points[index + n..] && [] + points[index + n..] == points[index + n..];
    var after := WrittenText(points[index + n..]);
    Regrouped(Flushed(chunk), [element], after);
    Regrouped(out, Flushed(chunk) + [element], after);
    Regrouped(out, Flushed(chunk), [element]);
  }

  lemma LastStep(points: Chars, out: seq<Inline>, chunk: Chars)
    requires forall i :: 0 <= i < |chunk| ==> !IsCollapsible(chunk[i])
    ensures out + WrittenText(chunk + points[|points|..]) == out + Flushed(chunk)
  {
    hide Flushed;
    ChunkThen(chunk, []);
    WrittenNothing();
    assert points[|points|..] == [];
    NothingAround(Flushed(chunk));
  }

  /** The flush of writeOdfText: character data must be XML. */
  method Flush(out: seq<Inline>, chunk: Chars) returns (r: Option<seq<Inline>>)
    ensures r == if AllXmlScalars(chunk) then Some(out + Flushed(chunk)) else None
  {
    NothingAround(out);
    if chunk == [] { return Some(out); }
    if !AllXmlScalars(chunk) { return None; }
    return Some(out + [Characters(chunk)]);
  }

  /** writeOdfText: the text must be UTF-8, and whatever is written as character data must be XML. */
  method WriteOdfText(text: Bytes) returns (r: Option<seq<Inline>>)
    ensures r == match Decode(text)
                 case None => None
                 case Some(points) => if AllXmlScalars(points) then Some(WrittenText(points)) else None
  {
    hide *;
    var decoded := DecodeUtf8(text);
    if decoded.None? { return None; }
    var points := decoded.value;
    var out: seq<Inline> := [];
    var chunk: Chars := [];
    var index: nat := 0;
    NothingSoFar(points);
    while index < |points|
      invariant index <= |points| && SoFar(points, index, out, chunk)
    {
      if IsCollapsible(points[index]) {
        if !AllXmlScalars(chunk) { BadChunk(points, index, out, chunk); }
        var flushed := Flush(out, chunk);
        if flushed.None? { return None; }
        var element, next := WriteSpecial(points, index);
        SpecialSoFar(points, index, out, chunk, next);
        out, chunk, index := flushed.value + [element], [], next;
      } else {
        OneMoreInChunk(points, index, out, chunk);
        chunk := chunk + [points[index]];
        index := index + 1;
      }
    }
    if AllXmlScalars(chunk) { AllWritten(points, out, chunk); } else { BadChunk(points, index, out, chunk); }
    r := Flush(out, chunk);
  }

  /** What the loop of writeOdfText keeps: the chunk is the plain text before the index, and the elements so far with
      what is left to write are the whole text. */
  ghost predicate SoFar(points: Chars, index: nat, out: seq<Inline>, chunk: Chars) {
    && |chunk| <= index <= |points| && chunk == points[index - |chunk|..index]
    && (forall i :: 0 <= i < |chunk| ==> !IsCollapsible(chunk[i]))
    && AllXmlScalars(points[..index - |chunk|])
    && out + WrittenText(chunk + points[index..]) == WrittenText(points)
  }

  lemma NothingSoFar(points: Chars)
    ensures SoFar(points, 0, [], [])
  {
    hide WrittenText;
    NothingAround(WrittenText(points));
    NothingAround(points);
  }

  lemma BadChunk(points: Chars, index: nat, out: seq<Inline>, chunk: Chars)
    requires SoFar(points, index, out, chunk) && !AllXmlScalars(chunk)
    ensures !AllXmlScalars(points)
  {
    hide AllXmlScalars, WrittenText, IsCollapsible;
    XmlSoFar(points, index - |chunk|, index);
  }

  lemma SpecialSoFar(points: Chars, index: nat, out: seq<Inline>, chunk: Chars, next: nat)
    requires SoFar(points, index, out, chunk) && AllXmlScalars(chunk)
    requires index < |points| && IsCollapsible(points[index])
    requires next == index + FirstWritten(points[index..]).2 && next <= |points| && AllXmlScalars(points[index..next])
    ensures SoFar(points, next, out + Flushed(chunk) + [FirstWritten(points[index..]).0], [])
  {
    hide AllXmlScalars, WrittenText, IsCollapsible, FirstWritten, Flushed;
    XmlSoFar(points, index - |chunk|, index);
    XmlSoFar(points, index, next);
    SpecialStep(points, index, out, chunk);
  }

  lemma AllWritten(points: Chars, out: seq<Inline>, chunk: Chars)
    requires SoFar(points, |points|, out, chunk) && AllXmlScalars(chunk)
    ensures AllXmlScalars(points) && out + Flushed(chunk) == WrittenText(points)
  {
    hide AllXmlScalars, WrittenText, IsCollapsible, Flushed;
    XmlSoFar(points, |points| - |chunk|, |points|);
    LastStep(points, out, chunk);
  }

  lemma OneMoreInChunk(points: Chars, index: nat, out: seq<Inline>, chunk: Chars)
    requires SoFar(points, index, out, chunk) && index < |points| && !IsCollapsible(points[index])
    ensures SoFar(points, index + 1, out, chunk + [points[index]])
  {
    hide AllXmlScalars, WrittenText, IsCollapsible;
    ChunkGrows(points, chunk, index);
  }

  lemma ChunkGrows(points: Chars, chunk: Chars, index: nat)
    requires |chunk| <= index < |points| && chunk == points[index - |chunk|..index]
    ensures chunk + [points[index]] == points[index - |chunk|..index + 1]
    ensures chunk + points[index..] == (chunk + [points[index]]) + points[index + 1..]
  {
  }

  lemma WrittenNothing()
    ensures WrittenText([]) == []
  {
  }

  /** The characters so far are XML when those before and the new ones are; all are when those so far are. */
  lemma XmlSoFar(points: Chars, a: nat, b: nat)
    requires a <= b <= |points|
    ensures AllXmlScalars(points[..b]) <==> AllXmlScalars(points[..a]) && AllXmlScalars(points[a..b])
    ensures AllXmlScalars(points) ==> AllXmlScalars(points[..b])
    ensures b == |points| ==> points[..b] == points
  {
    hide IsXmlScalar;
    var all, front, back := points[..b], points[..a], points[a..b];
    if AllXmlScalars(front) && AllXmlScalars(back) {
      forall i | 0 <= i < b ensures IsXmlScalar(all[i]) {
        if i < a { assert all[i] == front[i]; } else { assert all[i] == back[i - a]; }
      }
    }
    if AllXmlScalars(all) {
      forall i | 0 <= i < |back| ensures IsXmlScalar(back[i]) { assert back[i] == all[a + i]; }
      forall i | 0 <= i < a ensures IsXmlScalar(front[i]) { assert front[i] == all[i]; }
    }
  }

  // ---------------------------------------------------------------- reading it back

  /** Text added to a paragraph in which no space is pending. */
  function Typed(r: Reading, text: Chars, p: RunProperties): Reading {
    if text == [] then r else Appended(r, text, p).(hasOutput := true)
  }

  lemma AppendedTwice(r: Reading, a: Chars, b: Chars, p: RunProperties)
    requires a != [] && b != []
    ensures Appended(Appended(r, a, p).(hasOutput := true), b, p) == Appended(r, a + b, p).(hasOutput := true)
  {
    hide Encode;
    EncodeConcat(a, b);
    var once := Appended(r, a, p);
    var last := |once.runs| - 1;
    assert once.runs[last].properties == p && !once.forceNewRun;
    if StartsRun(r, p) {
      assert once.runs[last := Run(Encode(a) + Encode(b), p)] == r.runs + [Run(Encode(a) + Encode(b), p)];
    } else {
      Regrouped(r.runs[last].text, Encode(a), Encode(b));
    }
  }

  lemma TypedTwice(r: Reading, a: Chars, b: Chars, p: RunProperties)
    ensures Typed(Typed(r, a, p), b, p) == Typed(r, a + b, p)
  {
    NothingAround(a);
    NothingAround(b);
    if a != [] && b != [] {
      hide Appended;
      AppendedTwice(r, a, b, p);
    }
  }

  lemma TypedHasNoSpacePending(r: Reading, text: Chars, p: RunProperties)
    requires !r.pendingSpace
    ensures !Typed(r, text, p).pendingSpace
  {
  }

  lemma HardIsTyped(r: Reading, text: Chars, p: RunProperties)
    requires !r.pendingSpace && text != []
    ensures AppendedHard(r, text, p) == Typed(r, text, p)
  {
    hide Appended;
    assert PendingSpace(r) + text == text;
    assert r.(pendingSpace := false) == r;
  }

  lemma {:induction false} NormalizedPlain(text: Chars, hasOutput: bool)
    requires text != [] && forall i :: 0 <= i < |text| ==> !IsCollapsible(text[i])
    ensures Normalized(text, hasOutput, false) == (text, true, false)
    decreases |text|
  {
    assert text == [text[0]] + text[1..];
    if |text| > 1 { NormalizedPlain(text[1..], true); }
    var none: Chars := [];
    assert none + [text[0]] + text[1..] == text;
    assert Normalized(text[1..], true, false) == (text[1..], true, false);
  }

  lemma PlainIsTyped(styles: StyleMap, r: Reading, text: Chars, p: RunProperties)
    requires !r.pendingSpace && text != [] && forall i :: 0 <= i < |text| ==> !IsCollapsible(text[i])
    ensures ReadInline(styles, Characters(text), p, r) == Typed(r, text, p)
  {
    hide Encode;
    NormalizedPlain(text, r.hasOutput);
  }

  lemma {:induction false} UnbrokenPrefix(cs: Chars, n: nat)
    requires n <= |cs| && forall i :: 0 <= i < n ==> !IsBreak(cs[i])
    ensures Unbroken(cs) == cs[..n] + Unbroken(cs[n..])
    decreases n
  {
    if n == 0 {
      assert cs[0..] == cs;
      NothingAround(Unbroken(cs));
    } else {
      UnbrokenPrefix(cs[1..], n - 1);
      assert cs[1..][n - 1..] == cs[n..] && cs[..n] == [cs[0]] + cs[1..][..n - 1];
    }
  }

  lemma WrittenFirst(cs: Chars)
    requires cs != []
    ensures var (element, text, n) := FirstWritten(cs);
            && WrittenText(cs) == [element] + WrittenText(cs[n..])
            && Unbroken(cs) == text + Unbroken(cs[n..])
            && text != []
  {
    hide LeadingSpaces, LeadingPlain, WrittenText;
    WrittenOne(cs);
    var (element, text, n) := FirstWritten(cs);
    if !IsBreak(cs[0]) {
      assert text == cs[..n];
      UnbrokenPrefix(cs, n);
    }
  }

  lemma FirstIsTyped(styles: StyleMap, cs: Chars, p: RunProperties, r: Reading)
    requires cs != [] && !r.pendingSpace
    ensures ReadInline(styles, FirstWritten(cs).0, p, r) == Typed(r, FirstWritten(cs).1, p)
  {
    hide Typed, Appended, Normalized, LeadingSpaces, LeadingPlain, AppendedHard, Encode;
    var text := FirstWritten(cs).1;
    if cs[0] == 0x20 {
      assert text[0] == 0x20;
      HardIsTyped(r, text, p);
    } else if cs[0] == 0x09 || IsBreak(cs[0]) {
      HardIsTyped(r, text, p);
    } else {
      PlainIsTyped(styles, r, text, p);
    }
  }

  /** Reading a written text types it, with line feeds for line endings. */
  lemma {:induction false} ReadWrittenText(styles: StyleMap, cs: Chars, p: RunProperties, r: Reading)
    requires !r.pendingSpace
    ensures ReadInlines(styles, WrittenText(cs), p, r) == Typed(r, Unbroken(cs), p)
    decreases |cs|
  {
    if cs != [] {
      hide WrittenText, Unbroken, ReadInline, Typed, FirstWritten;
      var (element, text, n) := FirstWritten(cs);
      WrittenFirst(cs);
      FirstIsTyped(styles, cs, p, r);
      TypedHasNoSpacePending(r, text, p);
      ReadWrittenText(styles, cs[n..], p, Typed(r, text, p));
      TypedTwice(r, text, Unbroken(cs[n..]), p);
      assert ([element] + WrittenText(cs[n..]))[1..] == WrittenText(cs[n..]);
    }
  }

  // ---------------------------------------------------------------- which texts can be read back

  predicate AllSpaces(cs: Chars) { forall i :: 0 <= i < |cs| ==> cs[i] == 0x20 }

  /** No more than a million spaces in a row. */
  ghost predicate SpacesFit(cs: Chars) {
    forall i, j :: 0 <= i <= j <= |cs| && AllSpaces(cs[i..j]) ==> j - i <= MAXIMUM_EXPANDED_ITEMS
  }

  lemma SpacesFitAfter(cs: Chars, n: nat, limit: nat)
    requires limit == MAXIMUM_EXPANDED_ITEMS && n <= |cs|
    requires AllSpaces(cs[..n]) ==> n < |cs| ==> cs[n] != 0x20
    requires forall i :: 0 <= i < n && cs[i] == 0x20 ==> AllSpaces(cs[..n])
    ensures SpacesFit(cs) <==> (AllSpaces(cs[..n]) ==> n <= limit) && SpacesFit(cs[n..])
  {
    if SpacesFit(cs) {
      if AllSpaces(cs[..n]) { assert cs[0..n] == cs[..n]; }
      forall i, j | 0 <= i <= j <= |cs[n..]| && AllSpaces(cs[n..][i..j]) ensures j - i <= limit {
        assert cs[n..][i..j] == cs[n + i..n + j];
      }
    }
    if (AllSpaces(cs[..n]) ==> n <= limit) && SpacesFit(cs[n..]) {
      forall i, j | 0 <= i <= j <= |cs| && AllSpaces(cs[i..j]) ensures j - i <= limit {
        if i >= n {
          assert cs[n..][i - n..j - n] == cs[i..j];
        } else if i < j {
          assert cs[i..j][0] == cs[i];
        }
      }
    }
  }

  lemma FirstReadable(cs: Chars, depth: nat)
    requires cs != []
    ensures var (element, text, n) := FirstWritten(cs);
            SpacesFit(cs) <==> InlineReadable(element, depth) && SpacesFit(cs[n..])
  {
    hide SpacesFit, LeadingSpaces, LeadingPlain;
    var (element, text, n) := FirstWritten(cs);
    if cs[0] == 0x20 {
      assert AllSpaces(cs[..n]);
    } else {
      assert cs[..n][0] == cs[0] && !AllSpaces(cs[..n]);
      forall i | 0 <= i < n ensures cs[i] != 0x20 {
        if !IsBreak(cs[0]) && cs[0] != 0x09 { assert !IsCollapsible(cs[i]); }
      }
    }
    SpacesFitAfter(cs, n, MAXIMUM_EXPANDED_ITEMS);
  }

  /** A written text is within the reader's limits exactly when no run of spaces is too long. */
  lemma {:induction false} WrittenTextIsReadable(cs: Chars, depth: nat)
    ensures AllInlinesReadable(WrittenText(cs), depth) <==> SpacesFit(cs)
    decreases |cs|
  {
    if cs == [] {
      assert SpacesFit(cs);
    } else {
      hide WrittenText, InlineReadable, SpacesFit, FirstWritten;
      var (element, text, n) := FirstWritten(cs);
      WrittenFirst(cs);
      FirstReadable(cs, depth);
      WrittenTextIsReadable(cs[n..], depth);
      assert ([element] + WrittenText(cs[n..]))[1..] == WrittenText(cs[n..]);
    }
  }

  /** A million and one spaces are written as one element that the reader refuses. */
  lemma TooManySpaces(depth: nat)
    ensures !AllInlinesReadable(WrittenText(Spaces(MAXIMUM_EXPANDED_ITEMS + 1)), depth)
  {
    hide WrittenText, AllInlinesReadable;
    var cs := Spaces(MAXIMUM_EXPANDED_ITEMS + 1);
    WrittenTextIsReadable(cs, depth);
    assert AllSpaces(cs[0..|cs|]);
  }

  // ---------------------------------------------------------------- paragraphs

  /** The name of the text style that the writer's plan gives to a run; "" for a plain one. */
  type RunStyleNames = RunProperties -> string

  function WrittenRuns(runs: seq<Run>, names: RunStyleNames): Option<seq<Inline>> {
    if runs == [] then Some([])
    else
      match (Decode(runs[0].text), WrittenRuns(runs[1..], names))
      case (Some(points), Some(rest)) =>
        if AllXmlScalars(points) then Some([Span(names(runs[0].properties), WrittenText(points))] + rest) else None
      case _ => None
  }

  /** A heading style has a level from one to nine. */
  function HeadingLevel(styleId: string): Option<int> {
    var prefix := "Heading";
    if !(prefix <= styleId) || |styleId| == |prefix| || !AllDigits(styleId[|prefix|..]) then None
    else if 1 <= Decimal.Value(styleId[|prefix|..]) <= 9 then Some(Decimal.Value(styleId[|prefix|..]))
    else None
  }

  /** paragraphStyleName; `generated` is the automatic style of the paragraph's style and alignment. */
  function WrittenStyleName(p: Paragraph, generated: string): string {
    if p.alignment != Automatic then generated else if p.styleId == "" then "IGDBase" else p.styleId
  }

  function WrittenParagraph(p: Paragraph, generated: string, names: RunStyleNames): Option<ParagraphElement> {
    match WrittenRuns(p.runs, names)
    case None => None
    case Some(content) =>
      var level := HeadingLevel(p.styleId);
      Some(ParagraphElement(level.Some?, WrittenStyleName(p, generated), level, content))
  }

  /** writeParagraph. */
  method WriteParagraph(p: Paragraph, generated: string, names: RunStyleNames) returns (r: Option<ParagraphElement>)
    ensures r == WrittenParagraph(p, generated, names)
  {
    hide HeadingLevel, Decode, WrittenText;
    var level := HeadingLevel(p.styleId);
    var content: seq<Inline> := [];
    assert p.runs[0..] == p.runs;
    PrependNothing(WrittenRuns(p.runs, names));
    for k := 0 to |p.runs|
      invariant WrittenRuns(p.runs, names) == Prepend(content, WrittenRuns(p.runs[k..], names))
    {
      assert p.runs[k..][1..] == p.runs[k + 1..];
      var written := WriteOdfText(p.runs[k].text);
      if written.None? { return None; }
      var span := Span(names(p.runs[k].properties), written.value);
      PrependBoth(content, [span], WrittenRuns(p.runs[k + 1..], names));
      content := content + [span];
    }
    NothingAround(content);
    return Some(ParagraphElement(level.Some?, WrittenStyleName(p, generated), level, content));
  }

  /** The runs that have text, with line feeds for line endings and the properties that their style gives. */
  function KeptRuns(styles: StyleMap, runs: seq<Run>, names: RunStyleNames, base: RunProperties): seq<Run>
    requires WrittenRuns(runs, names).Some?
  {
    if runs == [] then []
    else
      var text := Unbroken(Decode(runs[0].text).value);
      (if text == [] then [] else [Run(Encode(text), SpanProperties(styles, names(runs[0].properties), base))])
      + KeptRuns(styles, runs[1..], names, base)
  }

  /** A written run becomes one run, or none if it is empty. */
  lemma ReadWrittenRun(styles: StyleMap, styleName: string, points: Chars, base: RunProperties, r: Reading)
    requires !r.pendingSpace
    ensures var after := ReadInline(styles, Span(styleName, WrittenText(points)), base, r);
            && after.forceNewRun && !after.pendingSpace
            && after.runs == r.runs + (if Unbroken(points) == [] then []
                                       else [Run(Encode(Unbroken(points)), SpanProperties(styles, styleName, base))])
  {
    hide WrittenText, Unbroken, ReadInlines, SpanProperties, Encode;
    ReadWrittenText(styles, points, SpanProperties(styles, styleName, base), r.(forceNewRun := true));
    NothingAround(r.runs);
  }

  lemma {:induction false} ReadWrittenRuns(styles: StyleMap, runs: seq<Run>, names: RunStyleNames, base: RunProperties, r: Reading)
    requires WrittenRuns(runs, names).Some? && !r.pendingSpace
    ensures ReadInlines(styles, WrittenRuns(runs, names).value, base, r).runs == r.runs + KeptRuns(styles, runs, names, base)
    decreases |runs|
  {
    if runs == [] {
      NothingAround(r.runs);
    } else {
      hide WrittenText, Unbroken, ReadInline, SpanProperties, Encode, Decode;
      var points := Decode(runs[0].text).value;
      var span := Span(names(runs[0].properties), WrittenText(points));
      var rest := WrittenRuns(runs[1..], names).value;
      assert ([span] + rest)[0] == span && ([span] + rest)[1..] == rest;
      ReadWrittenRun(styles, names(runs[0].properties), points, base, r);
      var after := ReadInline(styles, span, base, r);
      ReadWrittenRuns(styles, runs[1..], names, base, after);
      var first: seq<Run> := if Unbroken(points) == [] then []
                             else [Run(Encode(Unbroken(points)), SpanProperties(styles, names(runs[0].properties), base))];
      Regrouped(r.runs, first, KeptRuns(styles, runs[1..], names, base));
    }
  }

  /** Reading back a written paragraph gives its runs, except the empty ones, with their boundaries. */
  lemma RunsRoundTrip(styles: StyleMap, p: Paragraph, generated: string, names: RunStyleNames)
    requires WrittenParagraph(p, generated, names).Some?
    ensures var e := WrittenParagraph(p, generated, names).value;
            ReadParagraph(styles, e).runs
            == KeptRuns(styles, p.runs, names, ApplyStyle(Resolve(styles, "paragraph", e.styleName), PLAIN))
  {
    hide WrittenRuns, ReadInlines, Resolve, ApplyStyle, KeptRuns, HeadingLevel;
    var e := WrittenParagraph(p, generated, names).value;
    ReadWrittenRuns(styles, p.runs, names, ApplyStyle(Resolve(styles, "paragraph", e.styleName), PLAIN), FRESH_READING);
    NothingAround(KeptRuns(styles, p.runs, names, ApplyStyle(Resolve(styles, "paragraph", e.styleName), PLAIN)));
  }

  /** A carriage return is encoded as one. */
  lemma {:induction false} NoReturn(cs: Chars)
    requires 0x0D !in Encode(cs)
    ensures 0x0D !in cs
  {
    if cs != [] {
      NoReturn(cs[1..]);
      assert Encode(cs) == EncodeOne(cs[0]) + Encode(cs[1..]);
      assert EncodeOne(0x0D)[0] == 0x0D && Encode(cs)[0] == EncodeOne(cs[0])[0];
    }
  }

  lemma {:induction false} UnbrokenKeeps(cs: Chars)
    requires 0x0D !in cs
    ensures Unbroken(cs) == cs
    decreases |cs|
  {
    if cs != [] {
      UnbrokenKeeps(cs[1..]);
      assert BreakLength(cs) == 1 && cs == [cs[0]] + cs[1..];
    }
  }

  ghost predicate RunFits(r: Run) { Decode(r.text).Some? && SpacesFit(Decode(r.text).value) }

  lemma FirstAndOthersFit(runs: seq<Run>)
    requires runs != []
    ensures (forall i :: 0 <= i < |runs| ==> RunFits(runs[i]))
            <==> RunFits(runs[0]) && forall i :: 0 <= i < |runs[1..]| ==> RunFits(runs[1..][i])
  {
    hide RunFits;
    assert runs == [runs[0]] + runs[1..];
  }

  lemma {:induction false} WrittenRunsAreReadable(runs: seq<Run>, names: RunStyleNames, depth: nat)
    requires WrittenRuns(runs, names).Some? && depth < MAXIMUM_SEMANTIC_NESTING_DEPTH
    ensures AllInlinesReadable(WrittenRuns(runs, names).value, depth)
            <==> forall i :: 0 <= i < |runs| ==> RunFits(runs[i])
    decreases |runs|
  {
    if runs != [] {
      hide WrittenText, SpacesFit, Decode;
      var points := Decode(runs[0].text).value;
      var span, rest := Span(names(runs[0].properties), WrittenText(points)), WrittenRuns(runs[1..], names).value;
      assert ([span] + rest)[0] == span && ([span] + rest)[1..] == rest;
      WrittenTextIsReadable(points, depth + 1);
      WrittenRunsAreReadable(runs[1..], names, depth);
      assert Decode(runs[0].text) == Some(points);
      assert RunFits(runs[0]) == SpacesFit(points);
      assert InlineReadable(span, depth) == AllInlinesReadable(WrittenText(points), depth + 1);
      assert AllInlinesReadable(WrittenRuns(runs, names).value, depth)
          == (InlineReadable(span, depth) && AllInlinesReadable(rest, depth));
      FirstAndOthersFit(runs);
    }
  }

  /** A written paragraph can be read exactly when no run of spaces in it is longer than a million. */
  lemma WrittenParagraphIsReadable(p: Paragraph, generated: string, names: RunStyleNames)
    requires WrittenParagraph(p, generated, names).Some?
    ensures WrittenRuns(p.runs, names).Some?
    ensures ParagraphReadable(WrittenParagraph(p, generated, names).value)
            <==> forall i :: 0 <= i < |p.runs| ==> RunFits(p.runs[i])
  {
    hide WrittenRuns, RunFits, HeadingLevel, AllInlinesReadable;
    WrittenRunsAreReadable(p.runs, names, 0);
  }
}
