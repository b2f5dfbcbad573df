/** Whitespace: reading a paragraph element by element gives the same text as the rule of section 6.1.2 of
    OpenDocument 1.3 Part 3, which speaks of the whole paragraph at once, and every octet of it carries the
    properties of the innermost span around it. */
module OdfText {
  import opened Wrappers
  import opened Unicode
  import opened OdfStyles
  import opened OdfModel

  // ---------------------------------------------------------------- the whole paragraph

  /** What a character looks like: its properties, and how many spans have begun or ended before it. */
  datatype Look = Look(properties: RunProperties, piece: nat)

  datatype Glyph = Glyph(c: Char32, look: Look)

  /** A character of the paragraph; `hard` ones stand for text:s, text:tab and text:line-break. */
  datatype Token = Token(glyph: Glyph, hard: bool)

  predicate IsBlank(t: Token) {
    !t.hard && (t.glyph.c == 0x20 || t.glyph.c == 0x09 || t.glyph.c == 0x0A || t.glyph.c == 0x0D)
  }

  function GlyphsOf(text: Chars, l: Look): (gs: seq<Glyph>)
    ensures |gs| == |text| && forall i :: 0 <= i < |gs| ==> gs[i] == Glyph(text[i], l)
  {
    seq(|text|, i requires 0 <= i < |text| => Glyph(text[i], l))
  }

  function TokensOf(text: Chars, l: Look, hard: bool): (ts: seq<Token>)
    ensures |ts| == |text| && forall i :: 0 <= i < |ts| ==> ts[i] == Token(Glyph(text[i], l), hard)
  {
    seq(|text|, i requires 0 <= i < |text| => Token(Glyph(text[i], l), hard))
  }

  /** The number of spans that have begun or ended after the element, given that before it. */
  function PieceAfter(node: Inline, piece: nat): (after: nat)
    ensures after >= piece
    decreases node
  {
    match node
    case Span(_, spanned) => PieceAfterAll(spanned, piece + 1) + 1
    case Flattened(content) => PieceAfterAll(content, piece)
    case _ => piece
  }

  function PieceAfterAll(nodes: seq<Inline>, piece: nat): (after: nat)
    ensures after >= piece
    decreases nodes
  {
    if nodes == [] then piece else PieceAfterAll(nodes[1..], PieceAfter(nodes[0], piece))
  }

  /** The characters of an element in order, wherever the text is cut into elements and chunks. */
  function InlineTokens(styles: StyleMap, node: Inline, l: Look): seq<Token>
    decreases node
  {
    match node
    case Characters(text) => TokensOf(text, l, false)
    case Space(count) => TokensOf(Spaces(SpaceCount(count)), l, true)
    case Tab => TokensOf([0x09], l, true)
    case LineBreak => TokensOf([0x0A], l, true)
    case Span(styleName, spanned) =>
      Tokens(styles, spanned, Look(SpanProperties(styles, styleName, l.properties), l.piece + 1))
    case Flattened(content) => Tokens(styles, content, l)
    case Omitted => []
  }

  function Tokens(styles: StyleMap, nodes: seq<Inline>, l: Look): seq<Token>
    decreases nodes
  {
    if nodes == [] then []
    else InlineTokens(styles, nodes[0], l) + Tokens(styles, nodes[1..], l.(piece := PieceAfter(nodes[0], l.piece)))
  }

  function StripLeading(ts: seq<Token>): seq<Token> {
    if ts != [] && IsBlank(ts[0]) then StripLeading(ts[1..]) else ts
  }

  function StripTrailing(ts: seq<Token>): (s: seq<Token>)
    ensures s <= ts
  {
    if ts != [] && IsBlank(ts[|ts| - 1]) then StripTrailing(ts[..|ts| - 1]) else ts
  }

  /** One space for every run of blanks; it looks like the character after it. */
  function Collapsed(ts: seq<Token>): seq<Glyph> {
    if ts == [] then []
    else if !IsBlank(ts[0]) then [ts[0].glyph] + Collapsed(ts[1..])
    else if |ts| > 1 && IsBlank(ts[1]) then Collapsed(ts[1..])
    else [Glyph(0x20, if |ts| > 1 then ts[1].glyph.look else ts[0].glyph.look)] + Collapsed(ts[1..])
  }

  /** The rule: blanks at both ends disappear, every other run of blanks becomes one space. */
  function WholeText(ts: seq<Token>): seq<Glyph> { Collapsed(StripTrailing(StripLeading(ts))) }

  // ---------------------------------------------------------------- one character at a time

  datatype Flow = Flow(glyphs: seq<Glyph>, hasOutput: bool, pendingSpace: bool)

  const START := Flow([], false, false)

  function Fed(f: Flow, t: Token): Flow {
    if IsBlank(t) then f.(pendingSpace := f.hasOutput)
    else
      var space := if f.pendingSpace && f.hasOutput then [Glyph(0x20, t.glyph.look)] else [];
      Flow(f.glyphs + (space + [t.glyph]), true, false)
  }

  function Streamed(ts: seq<Token>, f: Flow): Flow
    decreases |ts|
  {
    if ts == [] then f else Streamed(ts[1..], Fed(f, ts[0]))
  }

  lemma {:induction false} StreamConcat(a: seq<Token>, b: seq<Token>, f: Flow)
    ensures Streamed(a + b, f) == Streamed(b, Streamed(a, f))
    decreases |a|
  {
    if a == [] {
      assert a + b == b;
    } else {
      hide Fed;
      assert (a + b)[0] == a[0] && (a + b)[1..] == a[1..] + b;
      StreamConcat(a[1..], b, Fed(f, a[0]));
    }
  }

  lemma {:induction false} StripCons(t: Token, rest: seq<Token>)
    ensures StripTrailing([t] + rest) == if StripTrailing(rest) == [] && IsBlank(t) then [] else [t] + StripTrailing(rest)
    decreases |rest|
  {
    var ts := [t] + rest;
    if rest == [] {
      assert ts == [t] && ts[..0] == [];
    } else {
      assert ts[|ts| - 1] == rest[|rest| - 1];
      if IsBlank(rest[|rest| - 1]) {
        assert ts[..|ts| - 1] == [t] + rest[..|rest| - 1];
        StripCons(t, rest[..|rest| - 1]);
      }
    }
  }

  lemma CollapsedCons(t: Token, ts: seq<Token>)
    ensures !IsBlank(t) ==> Collapsed([t] + ts) == [t.glyph] + Collapsed(ts)
    ensures IsBlank(t) && ts != [] ==>
              Collapsed([t] + ts) == if IsBlank(ts[0]) then Collapsed(ts)
                                     else [Glyph(0x20, ts[0].glyph.look)] + Collapsed(ts)
  {
    assert ([t] + ts)[1..] == ts;
  }

  /** A pending space is a blank that has been read but not decided upon. */
  function Undecided(f: Flow, blank: Token, ts: seq<Token>): seq<Token> { if f.pendingSpace then [blank] + ts else ts }

  lemma {:induction false} StreamTail(ts: seq<Token>, f: Flow, blank: Token)
    requires f.hasOutput && IsBlank(blank)
    ensures Streamed(ts, f).glyphs == f.glyphs + Collapsed(StripTrailing(Undecided(f, blank, ts)))
    decreases |ts|
  {
    if ts == [] {
      assert [blank] + ts == [blank] && [blank][..0] == [];
    } else {
      var t, rest := ts[0], ts[1..];
      assert ts == [t] + rest;
      if IsBlank(t) {
        StreamTail(rest, Fed(f, t), t);
        SameCollapsed(blank, ts);
      } else {
        StreamTail(rest, Fed(f, t), blank);
        NextCollapsed(blank, t, rest);
      }
    }
  }

  /** A blank before a blank makes no difference. */
  lemma SameCollapsed(blank: Token, ts: seq<Token>)
    requires IsBlank(blank) && ts != [] && IsBlank(ts[0])
    ensures Collapsed(StripTrailing([blank] + ts)) == Collapsed(StripTrailing(ts))
  {
    hide Collapsed, StripTrailing;
    StripCons(blank, ts);
    CollapsedCons(blank, StripTrailing(ts));
  }

  /** What comes out for a character that is not blank, with and without a blank before it. */
  lemma NextCollapsed(blank: Token, t: Token, rest: seq<Token>)
    requires IsBlank(blank) && !IsBlank(t)
    ensures Collapsed(StripTrailing([t] + rest)) == [t.glyph] + Collapsed(StripTrailing(rest))
    ensures Collapsed(StripTrailing([blank] + ([t] + rest)))
         == [Glyph(0x20, t.glyph.look)] + ([t.glyph] + Collapsed(StripTrailing(rest)))
  {
    hide Collapsed, StripTrailing;
    StripCons(t, rest);
    StripCons(blank, [t] + rest);
    CollapsedCons(t, StripTrailing(rest));
    CollapsedCons(blank, [t] + StripTrailing(rest));
  }

  /** Reading character by character is the rule. */
  lemma {:induction false} StreamIsWholeText(ts: seq<Token>)
    ensures Streamed(ts, START).glyphs == WholeText(ts)
    decreases |ts|
  {
    if ts != [] {
      var t, rest := ts[0], ts[1..];
      if IsBlank(t) {
        StreamIsWholeText(rest);
      } else {
        hide Collapsed, StripTrailing;
        var blank := Token(Glyph(0x20, t.glyph.look), false);
        assert ts == [t] + rest && [] + ([] + [t.glyph]) == [t.glyph];
        StreamTail(rest, Fed(START, t), blank);
        NextCollapsed(blank, t, rest);
      }
    }
  }

  // ---------------------------------------------------------------- the reader

  /** The glyphs as runs: one run for what looks alike and has no beginning or end of a span in it. */
  function RunsOf(gs: seq<Glyph>): seq<Run> {
    if gs == [] then []
    else
      var n := |gs| - 1;
      var before, last := RunsOf(gs[..n]), gs[n];
      if n > 0 && gs[n - 1].look == last.look && before != []
      then before[|before| - 1 := before[|before| - 1].(text := before[|before| - 1].text + EncodeOne(last.c))]
      else before + [Run(EncodeOne(last.c), last.look.properties)]
  }

  /** The next glyph begins a run. */
  predicate BeginsRun(gs: seq<Glyph>, piece: nat) { gs == [] || gs[|gs| - 1].look.piece != piece }

  /** The last run looks like the last glyph. */
  lemma {:induction false} LastRun(gs: seq<Glyph>)
    ensures RunsOf(gs) == [] <==> gs == []
    ensures gs != [] ==> RunsOf(gs)[|RunsOf(gs)| - 1].properties == gs[|gs| - 1].look.properties
  {
    if gs != [] { LastRun(gs[..|gs| - 1]); }
  }

  /** The paragraph read so far and the stream read so far hold the same runs in the same state. */
  predicate Matches(r: Reading, f: Flow, piece: nat) {
    && r.runs == RunsOf(f.glyphs) && r.hasOutput == f.hasOutput && r.pendingSpace == f.pendingSpace
    && r.forceNewRun == BeginsRun(f.glyphs, piece)
    && forall k :: 0 <= k < |f.glyphs| ==> f.glyphs[k].look.piece <= piece
  }

  lemma OneMoreGlyph(r: Reading, gs: seq<Glyph>, c: Char32, l: Look)
    requires r.runs == RunsOf(gs) && r.forceNewRun == BeginsRun(gs, l.piece)
    ensures var after := Appended(r, [c], l.properties);
            after.runs == RunsOf(gs + [Glyph(c, l)]) && !after.forceNewRun
  {
    hide EncodeOne;
    EncodeFew(c);
    LastRun(gs);
    var all := gs + [Glyph(c, l)];
    assert all[..|gs|] == gs;
    if gs != [] { assert all[|gs| - 1] == gs[|gs| - 1]; }
  }

  lemma AppendedOneMore(r: Reading, text: Chars, c: Char32, p: RunProperties)
    ensures Appended(r, text + [c], p) == Appended(Appended(r, text, p), [c], p)
  {
    hide EncodeOne, Encode;
    EncodeConcat(text, [c]);
    if text == [] {
      assert text + [c] == [c];
    } else {
      var once := Appended(r, text, p);
      var last := |once.runs| - 1;
      assert once.runs[last].properties == p && !once.forceNewRun;
      if !StartsRun(r, p) { Regrouped(r.runs[last].text, Encode(text), Encode([c])); }
    }
  }

  lemma NothingAppended(r: Reading, gs: seq<Glyph>, l: Look)
    ensures Appended(r, [], l.properties) == r && gs + GlyphsOf([], l) == gs
  {
  }

  lemma LastOfText(gs: seq<Glyph>, text: Chars, l: Look)
    requires text != []
    ensures var n := |text| - 1;
            gs + GlyphsOf(text, l) == (gs + GlyphsOf(text[..n], l)) + [Glyph(text[n], l)] && text == text[..n] + [text[n]]
    ensures !BeginsRun(gs + GlyphsOf(text, l), l.piece)
  {
    var n := |text| - 1;
    assert GlyphsOf(text, l) == GlyphsOf(text[..n], l) + [Glyph(text[n], l)];
    Regrouped(gs, GlyphsOf(text[..n], l), [Glyph(text[n], l)]);
  }

  lemma {:induction false} AppendedRuns(r: Reading, gs: seq<Glyph>, text: Chars, l: Look)
    requires r.runs == RunsOf(gs) && r.forceNewRun == BeginsRun(gs, l.piece)
    ensures var after := Appended(r, text, l.properties);
            && after.runs == RunsOf(gs + GlyphsOf(text, l)) && after.forceNewRun == BeginsRun(gs + GlyphsOf(text, l), l.piece)
  {
    hide RunsOf, Appended, GlyphsOf, BeginsRun;
    NothingAppended(r, gs, l);
    if text != [] {
      var front, c := text[..|text| - 1], text[|text| - 1];
      AppendedRuns(r, gs, front, l);
      AppendedOneMore(r, front, c, l.properties);
      OneMoreGlyph(Appended(r, front, l.properties), gs + GlyphsOf(front, l), c, l);
      LastOfText(gs, text, l);
    }
  }

  lemma GlyphsConcat(a: Chars, b: Chars, l: Look)
    ensures GlyphsOf(a + b, l) == GlyphsOf(a, l) + GlyphsOf(b, l)
  {
  }

  function SpaceBefore(f: Flow): Chars { if f.pendingSpace && f.hasOutput then [0x20] else [] }

  lemma FedVisible(f: Flow, t: Token)
    requires !IsBlank(t)
    ensures Fed(f, t) == Flow(f.glyphs + GlyphsOf(SpaceBefore(f) + [t.glyph.c], t.glyph.look), true, false)
  {
    var l := t.glyph.look;
    assert GlyphsOf(SpaceBefore(f) + [t.glyph.c], l) == (if SpaceBefore(f) == [] then [] else [Glyph(0x20, l)]) + [t.glyph];
  }

  lemma {:induction false} StreamOfCharacters(text: Chars, l: Look, f: Flow)
    ensures var (normal, output, pending) := Normalized(text, f.hasOutput, f.pendingSpace);
            Streamed(TokensOf(text, l, false), f) == Flow(f.glyphs + GlyphsOf(normal, l), output, pending)
    decreases |text|
  {
    var ts := TokensOf(text, l, false);
    if text == [] {
      assert f.glyphs + GlyphsOf([], l) == f.glyphs;
    } else {
      hide GlyphsOf;
      assert ts[1..] == TokensOf(text[1..], l, false);
      StreamOfCharacters(text[1..], l, Fed(f, ts[0]));
      if !IsCollapsible(text[0]) {
        FedVisible(f, ts[0]);
        var rest := Normalized(text[1..], true, false).0;
        GlyphsConcat(SpaceBefore(f) + [text[0]], rest, l);
        Regrouped(f.glyphs, GlyphsOf(SpaceBefore(f) + [text[0]], l), GlyphsOf(rest, l));
      }
    }
  }

  lemma {:induction false} StreamOfHard(text: Chars, l: Look, f: Flow)
    requires text != []
    ensures Streamed(TokensOf(text, l, true), f) == Flow(f.glyphs + GlyphsOf(SpaceBefore(f) + text, l), true, false)
    decreases |text|
  {
    hide GlyphsOf, Fed;
    var ts, first, rest := TokensOf(text, l, true), SpaceBefore(f) + [text[0]], text[1..];
    assert ts[1..] == TokensOf(rest, l, true);
    FedVisible(f, ts[0]);
    assert SpaceBefore(f) + text == first + rest;
    var g := Flow(f.glyphs + GlyphsOf(first, l), true, false);
    if rest == [] {
      assert Streamed(ts[1..], g) == g;
      assert first + rest == first;
    } else {
      hide Streamed, TokensOf;
      StreamOfHard(rest, l, g);
      assert SpaceBefore(g) + rest == rest;
      GlyphsConcat(first, rest, l);
      Regrouped(f.glyphs, GlyphsOf(first, l), GlyphsOf(rest, l));
    }
  }

  lemma MatchesMore(r: Reading, f: Flow, text: Chars, l: Look, output: bool, pending: bool)
    requires Matches(r, f, l.piece)
    ensures Matches(Appended(r, text, l.properties).(hasOutput := output, pendingSpace := pending),
                    Flow(f.glyphs + GlyphsOf(text, l), output, pending), l.piece)
  {
    hide RunsOf, Appended;
    AppendedRuns(r, f.glyphs, text, l);
  }

  lemma AppendedKeepsState(r: Reading, text: Chars, p: RunProperties, output: bool, pending: bool)
    ensures Appended(r.(hasOutput := output, pendingSpace := pending), text, p)
         == Appended(r, text, p).(hasOutput := output, pendingSpace := pending)
  {
    hide Encode;
  }

  lemma HardMatches(r: Reading, f: Flow, text: Chars, l: Look)
    requires Matches(r, f, l.piece) && text != []
    ensures Matches(AppendedHard(r, text, l.properties), Streamed(TokensOf(text, l, true), f), l.piece)
  {
    hide Matches, Appended, Streamed, TokensOf;
    StreamOfHard(text, l, f);
    SameState(r, f, l.piece);
    MatchesMore(r, f, PendingSpace(r) + text, l, true, false);
    AppendedKeepsState(r, PendingSpace(r) + text, l.properties, r.hasOutput, false);
  }

  lemma SameState(r: Reading, f: Flow, piece: nat)
    requires Matches(r, f, piece)
    ensures r.hasOutput == f.hasOutput && r.pendingSpace == f.pendingSpace
    ensures forall later :: later > piece ==> Matches(r.(forceNewRun := true), f, later)
  {
    hide RunsOf;
  }

  lemma {:induction false} InlineMatches(styles: StyleMap, node: Inline, l: Look, r: Reading, f: Flow, depth: nat)
    requires Matches(r, f, l.piece) && InlineReadable(node, depth)
    ensures Matches(ReadInline(styles, node, l.properties, r), Streamed(InlineTokens(styles, node, l), f), PieceAfter(node, l.piece))
    decreases node
  {
    hide Matches, Appended, Streamed, AppendedHard, Spaces, TokensOf, SpanProperties;
    SameState(r, f, l.piece);
    match node
    case Characters(text) =>
      var (normal, output, pending) := Normalized(text, r.hasOutput, r.pendingSpace);
      StreamOfCharacters(text, l, f);
      MatchesMore(r, f, normal, l, output, pending);
      AppendedKeepsState(r, normal, l.properties, output, pending);
    case Space(count) => HardMatches(r, f, Spaces(SpaceCount(count)), l);
    case Tab => HardMatches(r, f, [0x09], l);
    case LineBreak => HardMatches(r, f, [0x0A], l);
    case Span(styleName, spanned) =>
      var inner := Look(SpanProperties(styles, styleName, l.properties), l.piece + 1);
      InlinesMatch(styles, spanned, inner, r.(forceNewRun := true), f, depth + 1);
      SameState(ReadInlines(styles, spanned, inner.properties, r.(forceNewRun := true)),
                Streamed(InlineTokens(styles, node, l), f), PieceAfterAll(spanned, l.piece + 1));
    case Flattened(content) => InlinesMatch(styles, content, l, r, f, depth + 1);
    case Omitted => StreamNothing(f);
  }

  lemma StreamNothing(f: Flow)
    ensures Streamed([], f) == f
  {
  }

  lemma {:induction false} InlinesMatch(styles: StyleMap, nodes: seq<Inline>, l: Look, r: Reading, f: Flow, depth: nat)
    requires Matches(r, f, l.piece) && AllInlinesReadable(nodes, depth)
    ensures Matches(ReadInlines(styles, nodes, l.properties, r), Streamed(Tokens(styles, nodes, l), f), PieceAfterAll(nodes, l.piece))
    decreases nodes
  {
    if nodes != [] {
      hide Matches, InlineTokens, ReadInline, Streamed, InlineReadable;
      var next := l.(piece := PieceAfter(nodes[0], l.piece));
      InlineMatches(styles, nodes[0], l, r, f, depth);
      StreamConcat(InlineTokens(styles, nodes[0], l), Tokens(styles, nodes[1..], next), f);
      InlinesMatch(styles, nodes[1..], next, ReadInline(styles, nodes[0], l.properties, r),
                   Streamed(InlineTokens(styles, nodes[0], l), f), depth);
    }
  }

  /** The text of a paragraph is its whole text by the rule, however it is split into chunks, spans and elements. Every
      octet has the properties of the innermost span that it, or the character after a collapsed space, stands in, and
      runs end exactly where the properties change or a span begins or ends. */
  lemma ParagraphTextIsWholeText(styles: StyleMap, e: ParagraphElement)
    requires ParagraphReadable(e)
    ensures var p := ApplyStyle(Resolve(styles, "paragraph", e.styleName), PLAIN);
            ReadParagraph(styles, e).runs == RunsOf(WholeText(Tokens(styles, e.content, Look(p, 0))))
  {
    hide RunsOf, ReadInlines, Tokens, WholeText, Streamed, AllInlinesReadable;
    var p := ApplyStyle(Resolve(styles, "paragraph", e.styleName), PLAIN);
    NothingMatches();
    InlinesMatch(styles, e.content, Look(p, 0), FRESH_READING, START, 0);
    StreamIsWholeText(Tokens(styles, e.content, Look(p, 0)));
  }

  lemma NothingMatches()
    ensures Matches(FRESH_READING, START, 0)
  {
  }
}
