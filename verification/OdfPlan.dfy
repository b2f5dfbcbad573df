/** The styles that the writer plans for a whole document, the map that the reader makes of them, and what
    paragraphs and runs come back as under it. */
module OdfPlan {
  import opened Wrappers
  import opened Decimal
  import opened Unicode
  import opened XmlBytes
  import opened OdfStyles
  import opened OdfModel
  import opened OdfWriter
  import Canonical

  // ---------------------------------------------------------------- the paragraphs of a document

  /** The parts of all elements in order. */
  function Concatenated<T, U>(xs: seq<T>, parts: T -> seq<U>): seq<U> {
    if xs == [] then [] else Concatenated(xs[..|xs| - 1], parts) + parts(xs[|xs| - 1])
  }

  lemma {:induction false} InConcatenated<T, U>(xs: seq<T>, parts: T -> seq<U>, u: U)
    ensures u in Concatenated(xs, parts) <==> exists k :: 0 <= k < |xs| && u in parts(xs[k])
  {
    if xs != [] {
      var front, last := xs[..|xs| - 1], |xs| - 1;
      assert Concatenated(xs, parts) == Concatenated(front, parts) + parts(xs[last]);
      InConcatenated(front, parts, u);
      hide Concatenated;
      if u in Concatenated(front, parts) {
        var k :| 0 <= k < |front| && u in parts(front[k]);
        assert u in parts(xs[k]);
      }
      if exists k :: 0 <= k < |xs| && u in parts(xs[k]) {
        var k :| 0 <= k < |xs| && u in parts(xs[k]);
        if k < last { assert u in parts(front[k]); }
      }
    }
  }

  function CellParagraphs(c: Cell): seq<Paragraph> { c.paragraphs }

  function RowParagraphs(r: Row): seq<Paragraph> { Concatenated(r.cells, CellParagraphs) }

  function BlockParagraphs(b: Block): seq<Paragraph> {
    match b case ParagraphBlock(p) => [p] case TableBlock(t) => Concatenated(t.rows, RowParagraphs)
  }

  function AllParagraphs(bs: seq<Block>): seq<Paragraph> { Concatenated(bs, BlockParagraphs) }

  // ---------------------------------------------------------------- the plan

  predicate HasRunProperties(p: RunProperties) {
    || p.bold || p.italic || p.underline || p.fontFamily != "" || p.eastAsiaFontFamily != ""
    || p.fontSizePoints > 0.0 || p.color != ""
  }

  /** A named style with an alignment of the paragraph's own: what an automatic style is generated for. */
  datatype ParagraphStyle = ParagraphStyle(parent: string, alignment: Alignment)

  /** The styles to write; style number k of a list is named after k + 1. */
  datatype Plan = Plan(
    runStyles: seq<RunProperties>,
    paragraphStyles: seq<ParagraphStyle>,
    namedParagraphStyles: set<string>,
    fonts: set<string>,
    numberingIdentifiers: set<int>)

  const NO_PLAN := Plan([], [], {}, {}, {})

  function ParagraphName(k: nat): string { "IGDP" + ToText(k + 1) }

  function RunName(k: nat): string { "IGDT" + ToText(k + 1) }

  function Added<T(==)>(xs: seq<T>, x: T): seq<T> { if x in xs then xs else xs + [x] }

  function StyleOf(p: Paragraph): ParagraphStyle { ParagraphStyle(p.styleId, p.alignment) }

  function NonEmpty(s: string): set<string> { if s == "" then {} else {s} }

  function CollectedRun(plan: Plan, r: RunProperties): Plan {
    plan.(fonts := plan.fonts + NonEmpty(r.fontFamily) + NonEmpty(r.eastAsiaFontFamily),
          runStyles := if HasRunProperties(r) then Added(plan.runStyles, r) else plan.runStyles)
  }

  function CollectedRuns(plan: Plan, runs: seq<Run>): Plan {
    if runs == [] then plan
    else CollectedRun(CollectedRuns(plan, runs[..|runs| - 1]), runs[|runs| - 1].properties)
  }

  function CollectedStyle(plan: Plan, p: Paragraph): Plan {
    plan.(
      namedParagraphStyles := plan.namedParagraphStyles + NonEmpty(p.styleId),
      paragraphStyles := if p.alignment != Automatic then Added(plan.paragraphStyles, StyleOf(p)) else plan.paragraphStyles,
      numberingIdentifiers := plan.numberingIdentifiers + if p.numberingId.Some? then {p.numberingId.value} else {})
  }

  /** collectParagraph. */
  function Collected(plan: Plan, p: Paragraph): Plan { CollectedRuns(CollectedStyle(plan, p), p.runs) }

  function CollectedAll(plan: Plan, ps: seq<Paragraph>): Plan {
    if ps == [] then plan else Collected(CollectedAll(plan, ps[..|ps| - 1]), ps[|ps| - 1])
  }

  /** makeWritePlan. */
  function PlanOf(bs: seq<Block>): Plan { CollectedAll(NO_PLAN, AllParagraphs(bs)) }

  lemma {:induction false} CollectedInParts(plan: Plan, a: seq<Paragraph>, b: seq<Paragraph>)
    ensures CollectedAll(plan, a + b) == CollectedAll(CollectedAll(plan, a), b)
    decreases |b|
  {
    if b == [] {
      assert a + b == a;
    } else {
      hide Collected;
      var last := |b| - 1;
      assert (a + b)[..|a + b| - 1] == a + b[..last] && (a + b)[|a + b| - 1] == b[last];
      CollectedInParts(plan, a, b[..last]);
    }
  }

  datatype RunStyleRecord = RunStyleRecord(name: string, properties: RunProperties)
  datatype ParagraphStyleRecord = ParagraphStyleRecord(name: string, parent: string, alignment: Alignment)

  function RunStylesOf(records: seq<RunStyleRecord>): seq<RunProperties> {
    seq(|records|, k requires 0 <= k < |records| => records[k].properties)
  }

  function ParagraphStylesOf(records: seq<ParagraphStyleRecord>): seq<ParagraphStyle> {
    seq(|records|, k requires 0 <= k < |records| => ParagraphStyle(records[k].parent, records[k].alignment))
  }

  /** No style twice, the names count them, and the map holds each under its name. */
  ghost predicate RunsNamed(records: seq<RunStyleRecord>, names: map<RunProperties, string>) {
    && (forall k :: 0 <= k < |records| ==> records[k].name == RunName(k))
    && Named(RunStylesOf(records), names, RunName)
  }

  ghost predicate ParagraphsNamed(records: seq<ParagraphStyleRecord>, names: map<ParagraphStyle, string>) {
    && (forall k :: 0 <= k < |records| ==> records[k].name == ParagraphName(k))
    && Named(ParagraphStylesOf(records), names, ParagraphName)
  }

  lemma {:induction false} OneMoreRun(records: seq<RunStyleRecord>, names: map<RunProperties, string>, r: RunProperties)
    requires RunsNamed(records, names)
    ensures r in names <==> r in RunStylesOf(records)
    ensures var name := "IGDT" + ToText(|records| + 1);
            r !in names ==>
              && RunsNamed(records + [RunStyleRecord(name, r)], names[r := name])
              && RunStylesOf(records + [RunStyleRecord(name, r)]) == RunStylesOf(records) + [r]
  {
    assert RunName(|records|) == "IGDT" + ToText(|records| + 1);
    assert RunStylesOf(records + [RunStyleRecord(RunName(|records|), r)]) == RunStylesOf(records) + [r];
  }

  lemma {:induction false} OneMoreParagraph(records: seq<ParagraphStyleRecord>, names: map<ParagraphStyle, string>, s: ParagraphStyle)
    requires ParagraphsNamed(records, names)
    ensures s in names <==> s in ParagraphStylesOf(records)
    ensures var record := ParagraphStyleRecord("IGDP" + ToText(|records| + 1), s.parent, s.alignment);
            s !in names ==>
              && ParagraphsNamed(records + [record], names[s := record.name])
              && ParagraphStylesOf(records + [record]) == ParagraphStylesOf(records) + [s]
  {
    var record := ParagraphStyleRecord("IGDP" + ToText(|records| + 1), s.parent, s.alignment);
    assert ParagraphName(|records|) == record.name;
    assert ParagraphStylesOf(records + [record]) == ParagraphStylesOf(records) + [s];
  }

  /** The plan under construction: the styles in the order of their names, and the names by style. */
  class WritePlan {
    var runStyleNames: map<RunProperties, string>
    var paragraphStyleNames: map<ParagraphStyle, string>
    var runStyles: seq<RunStyleRecord>
    var paragraphStyles: seq<ParagraphStyleRecord>
    var namedParagraphStyles: set<string>
    var fonts: set<string>
    var numberingIdentifiers: set<int>

    function View(): Plan
      reads this
    {
      Plan(RunStylesOf(runStyles), ParagraphStylesOf(paragraphStyles), namedParagraphStyles, fonts, numberingIdentifiers)
    }

    ghost predicate Valid()
      reads this
    {
      RunsNamed(runStyles, runStyleNames) && ParagraphsNamed(paragraphStyles, paragraphStyleNames)
    }

    constructor ()
      ensures Valid() && View() == NO_PLAN
    {
      runStyleNames, paragraphStyleNames := map[], map[];
      runStyles, paragraphStyles := [], [];
      namedParagraphStyles, fonts, numberingIdentifiers := {}, {}, {};
    }

    method CollectRun(r: RunProperties)
      requires Valid()
      modifies this
      ensures Valid() && View() == CollectedRun(old(View()), r)
    {
      hide HasRunProperties, RunsNamed, ParagraphsNamed, RunStylesOf, ParagraphStylesOf, ToText;
      OneMoreRun(runStyles, runStyleNames, r);
      if r.fontFamily != "" { fonts := fonts + {r.fontFamily}; }
      if r.eastAsiaFontFamily != "" { fonts := fonts + {r.eastAsiaFontFamily}; }
      if HasRunProperties(r) && r !in runStyleNames {
        var name := "IGDT" + ToText(|runStyles| + 1);
        runStyleNames := runStyleNames[r := name];
        runStyles := runStyles + [RunStyleRecord(name, r)];
      }
    }

    /** collectParagraph. */
    method CollectParagraph(p: Paragraph)
      requires Valid()
      modifies this
      ensures Valid() && View() == Collected(old(View()), p)
    {
      hide CollectedRun, RunsNamed, ParagraphsNamed, RunStylesOf, ParagraphStylesOf, ToText;
      OneMoreParagraph(paragraphStyles, paragraphStyleNames, StyleOf(p));
      if p.styleId != "" { namedParagraphStyles := namedParagraphStyles + {p.styleId}; }
      if p.numberingId.Some? { numberingIdentifiers := numberingIdentifiers + {p.numberingId.value}; }
      if p.alignment != Automatic && StyleOf(p) !in paragraphStyleNames {
        var name := "IGDP" + ToText(|paragraphStyles| + 1);
        paragraphStyleNames := paragraphStyleNames[StyleOf(p) := name];
        paragraphStyles := paragraphStyles + [ParagraphStyleRecord(name, p.styleId, p.alignment)];
      }
      ghost var named := View();
      assert named.numberingIdentifiers == CollectedStyle(old(View()), p).numberingIdentifiers;
      assert named.namedParagraphStyles == CollectedStyle(old(View()), p).namedParagraphStyles;
      assert named == CollectedStyle(old(View()), p);
      for k := 0 to |p.runs|
        invariant Valid() && View() == CollectedRuns(named, p.runs[..k])
      {
        assert p.runs[..k + 1][..k] == p.runs[..k];
        CollectRun(p.runs[k].properties);
      }
      assert p.runs[..|p.runs|] == p.runs;
    }

    method CollectParagraphs(ps: seq<Paragraph>)
      requires Valid()
      modifies this
      ensures Valid() && View() == CollectedAll(old(View()), ps)
    {
      hide Collected, RunsNamed, ParagraphsNamed;
      ghost var before := View();
      for k := 0 to |ps|
        invariant Valid() && View() == CollectedAll(before, ps[..k])
      {
        assert ps[..k + 1][..k] == ps[..k];
        CollectParagraph(ps[k]);
      }
      assert ps[..|ps|] == ps;
    }

    method CollectTable(t: Table)
      requires Valid()
      modifies this
      ensures Valid() && View() == CollectedAll(old(View()), BlockParagraphs(TableBlock(t)))
    {
      hide CollectedAll, RunsNamed, ParagraphsNamed;
      ghost var before := View();
      NothingCollected(before);
      for i := 0 to |t.rows|
        invariant Valid() && View() == CollectedAll(before, Concatenated(t.rows[..i], RowParagraphs))
      {
        ghost var above := View();
        NothingCollected(above);
        var cells := t.rows[i].cells;
        for k := 0 to |cells|
          invariant Valid() && View() == CollectedAll(above, Concatenated(cells[..k], CellParagraphs))
        {
          assert cells[..k + 1][..k] == cells[..k];
          CollectedInParts(above, Concatenated(cells[..k], CellParagraphs), cells[k].paragraphs);
          CollectParagraphs(cells[k].paragraphs);
        }
        assert cells[..|cells|] == cells && t.rows[..i + 1][..i] == t.rows[..i];
        CollectedInParts(before, Concatenated(t.rows[..i], RowParagraphs), RowParagraphs(t.rows[i]));
      }
      assert t.rows[..|t.rows|] == t.rows;
    }

    /** paragraphStyleName. */
    method ParagraphStyleName(p: Paragraph) returns (name: string)
      requires Valid()
      ensures name == WrittenStyleName(p, GeneratedName(View(), p))
    {
      hide RunName;
      if p.alignment != Automatic && StyleOf(p) in paragraphStyleNames { return paragraphStyleNames[StyleOf(p)]; }
      return if p.styleId == "" then "IGDBase" else p.styleId;
    }
  }

  lemma NothingCollected(plan: Plan)
    ensures CollectedAll(plan, []) == plan
  {
  }

  /** No style twice, and each mapped to its name. */
  ghost predicate Named<T(!new)>(styles: seq<T>, names: map<T, string>, name: nat -> string) {
    && Distinct(styles)
    && (forall s :: s in names <==> s in styles)
    && (forall k :: 0 <= k < |styles| ==> styles[k] in names && names[styles[k]] == name(k))
  }

  ghost predicate Distinct<T(!new)>(xs: seq<T>) { forall i, j :: 0 <= i < j < |xs| ==> xs[i] != xs[j] }

  method MakeWritePlan(bs: seq<Block>) returns (plan: WritePlan)
    ensures fresh(plan) && plan.Valid() && plan.View() == PlanOf(bs)
  {
    hide CollectedAll, BlockParagraphs, RunsNamed, ParagraphsNamed;
    plan := new WritePlan();
    NothingCollected(NO_PLAN);
    for k := 0 to |bs|
      invariant plan.Valid() && plan.View() == CollectedAll(NO_PLAN, Concatenated(bs[..k], BlockParagraphs))
    {
      assert bs[..k + 1][..k] == bs[..k];
      CollectedInParts(NO_PLAN, Concatenated(bs[..k], BlockParagraphs), BlockParagraphs(bs[k]));
      match bs[k] {
      case ParagraphBlock(p) =>
        OneCollected(plan.View(), p);
        plan.CollectParagraph(p);
      case TableBlock(t) =>
        plan.CollectTable(t);
      }
    }
    assert bs[..|bs|] == bs;
  }

  lemma OneCollected(plan: Plan, p: Paragraph)
    ensures CollectedAll(plan, BlockParagraphs(ParagraphBlock(p))) == Collected(plan, p)
  {
    hide Collected;
    assert CollectedAll(plan, []) == plan;
  }

  /** The first place of an element. */
  function Position<T(==)>(xs: seq<T>, x: T): (k: nat)
    requires x in xs
    ensures k < |xs| && xs[k] == x
  {
    if xs[0] == x then 0 else 1 + Position(xs[1..], x)
  }

  /** The automatic style of a paragraph with an alignment of its own. */
  function GeneratedName(plan: Plan, p: Paragraph): string {
    if StyleOf(p) in plan.paragraphStyles then ParagraphName(Position(plan.paragraphStyles, StyleOf(p)))
    else if p.styleId == "" then "IGDBase" else p.styleId
  }

  function RunNames(plan: Plan): RunStyleNames {
    (r: RunProperties) => if HasRunProperties(r) && r in plan.runStyles then RunName(Position(plan.runStyles, r)) else ""
  }

  // ---------------------------------------------------------------- what the plan holds

  ghost predicate Use(runs: seq<Run>, r: RunProperties) { exists k :: 0 <= k < |runs| && runs[k].properties == r }

  predicate IsFontOf(r: RunProperties, f: string) { f != "" && (r.fontFamily == f || r.eastAsiaFontFamily == f) }

  ghost predicate UseFont(runs: seq<Run>, f: string) { exists k :: 0 <= k < |runs| && IsFontOf(runs[k].properties, f) }

  /** Every style, font and list that the paragraphs need, each style once, and no other. */
  ghost predicate IsPlanFor(plan: Plan, ps: seq<Paragraph>) {
    && Distinct(plan.paragraphStyles) && Distinct(plan.runStyles)
    && (forall s :: s in plan.paragraphStyles <==> exists p :: p in ps && p.alignment != Automatic && StyleOf(p) == s)
    && (forall r :: r in plan.runStyles <==> HasRunProperties(r) && exists p :: p in ps && Use(p.runs, r))
    && (forall n :: n in plan.namedParagraphStyles <==> n != "" && exists p :: p in ps && p.styleId == n)
    && (forall n :: n in plan.numberingIdentifiers <==> exists p :: p in ps && p.numberingId == Some(n))
    && (forall f :: f in plan.fonts <==> exists p :: p in ps && UseFont(p.runs, f))
  }

  lemma AddedOnce<T(!new)>(xs: seq<T>, x: T)
    requires Distinct(xs)
    ensures Distinct(Added(xs, x)) && forall y :: y in Added(xs, x) <==> y in xs || y == x
  {
  }

  lemma {:induction false} RunsCollected(plan: Plan, runs: seq<Run>)
    requires Distinct(plan.runStyles)
    ensures var after := CollectedRuns(plan, runs);
            && after == plan.(runStyles := after.runStyles, fonts := after.fonts)
            && Distinct(after.runStyles)
            && (forall r :: r in after.runStyles <==> r in plan.runStyles || (HasRunProperties(r) && Use(runs, r)))
            && (forall f :: f in after.fonts <==> f in plan.fonts || UseFont(runs, f))
  {
    if runs != [] {
      hide HasRunProperties, Use, UseFont, IsFontOf, CollectedRun;
      var last := |runs| - 1;
      RunsCollected(plan, runs[..last]);
      RunCollected(CollectedRuns(plan, runs[..last]), runs[last].properties);
      forall r ensures Use(runs, r) <==> Use(runs[..last], r) || runs[last].properties == r { UseLast(runs, r, ""); }
      forall f ensures UseFont(runs, f) <==> UseFont(runs[..last], f) || IsFontOf(runs[last].properties, f) {
        UseLast(runs, PLAIN, f);
      }
    }
  }

  lemma RunCollected(plan: Plan, r: RunProperties)
    requires Distinct(plan.runStyles)
    ensures var after := CollectedRun(plan, r);
            && after == plan.(runStyles := after.runStyles, fonts := after.fonts)
            && Distinct(after.runStyles)
            && (forall q :: q in after.runStyles <==> q in plan.runStyles || (HasRunProperties(r) && q == r))
            && (forall f :: f in after.fonts <==> f in plan.fonts || IsFontOf(r, f))
  {
    hide HasRunProperties, Added;
    AddedOnce(plan.runStyles, r);
  }

  lemma UseLast(runs: seq<Run>, r: RunProperties, f: string)
    requires runs != []
    ensures var front, last := runs[..|runs| - 1], runs[|runs| - 1].properties;
            && (Use(runs, r) <==> Use(front, r) || last == r)
            && (UseFont(runs, f) <==> UseFont(front, f) || IsFontOf(last, f))
  {
    hide IsFontOf;
    var front := runs[..|runs| - 1];
    if Use(front, r) {
      var k :| 0 <= k < |front| && front[k].properties == r;
      assert runs[k].properties == r;
    }
    if UseFont(front, f) {
      var k :| 0 <= k < |front| && IsFontOf(front[k].properties, f);
      assert IsFontOf(runs[k].properties, f);
    }
    if UseFont(runs, f) {
      var k :| 0 <= k < |runs| && IsFontOf(runs[k].properties, f);
      assert k < |front| ==> IsFontOf(front[k].properties, f);
    }
    if Use(runs, r) {
      var k :| 0 <= k < |runs| && runs[k].properties == r;
      assert k < |front| ==> front[k].properties == r;
    }
  }

  lemma PlanForMore(plan: Plan, ps: seq<Paragraph>, p: Paragraph)
    requires IsPlanFor(plan, ps)
    ensures IsPlanFor(Collected(plan, p), ps + [p])
  {
    hide HasRunProperties, CollectedRuns, Use, UseFont;
    var after, styled := Collected(plan, p), CollectedStyle(plan, p);
    RunsCollected(styled, p.runs);
    AddedOnce(plan.paragraphStyles, StyleOf(p));
    assert forall q :: q in ps + [p] <==> q in ps || q == p;
    assert forall r :: r in after.runStyles <==> r in plan.runStyles || (HasRunProperties(r) && Use(p.runs, r));
    assert forall f :: f in after.fonts <==> f in plan.fonts || UseFont(p.runs, f);
  }

  lemma {:induction false} PlanForAll(ps: seq<Paragraph>)
    ensures IsPlanFor(CollectedAll(NO_PLAN, ps), ps)
  {
    hide Collected, IsPlanFor;
    if ps == [] {
      NothingPlanned();
    } else {
      var last := |ps| - 1;
      PlanForAll(ps[..last]);
      PlanForMore(CollectedAll(NO_PLAN, ps[..last]), ps[..last], ps[last]);
      assert ps[..last] + [ps[last]] == ps;
    }
  }

  lemma NothingPlanned()
    ensures IsPlanFor(NO_PLAN, [])
  {
  }

  /** The write plan of a document. */
  lemma PlanIsExact(bs: seq<Block>)
    ensures IsPlanFor(PlanOf(bs), AllParagraphs(bs))
  {
    hide IsPlanFor, CollectedAll;
    PlanForAll(AllParagraphs(bs));
  }

  // ---------------------------------------------------------------- fonts, sizes and colours as text

  predicate IsBlankChar(c: char) {
    c == ' ' || c == '\n' || c == '\r' || c == '\t' || c == 0x0B as char || c == 0x0C as char || c == 0xA0 as char
  }

  function Trimmed(s: string): string
    decreases |s|
  {
    if s != "" && IsBlankChar(s[0]) then Trimmed(s[1..])
    else if s != "" && IsBlankChar(s[|s| - 1]) then Trimmed(s[..|s| - 1])
    else s
  }

  predicate IsQuoted(s: string) {
    |s| >= 2 && s[0] == s[|s| - 1] && (s[0] == '\'' || s[0] == '"')
  }

  /** strippedFontFamily. */
  function StrippedFont(s: string): string {
    var t := Trimmed(s);
    if IsQuoted(t) then t[1..|t| - 1] else t
  }

  function Quoted(font: string): string { "'" + (font + "'") }

  lemma StrippedQuoted(font: string)
    ensures StrippedFont(Quoted(font)) == font
  {
    var q := Quoted(font);
    assert q[0] == '\'' && q[|q| - 1] == '\'' && q[1..|q| - 1] == font;
  }

  /** No blanks around the name and no quotation marks. */
  predicate IsBareFont(font: string) {
    font == "" || (!IsBlankChar(font[0]) && !IsBlankChar(font[|font| - 1]) && !IsQuoted(font))
  }

  lemma {:induction false} TrimmedIsNoLonger(s: string)
    ensures |Trimmed(s)| <= |s|
    decreases |s|
  {
    if s != "" && IsBlankChar(s[0]) { TrimmedIsNoLonger(s[1..]); }
    else if s != "" && IsBlankChar(s[|s| - 1]) { TrimmedIsNoLonger(s[..|s| - 1]); }
  }

  lemma StrippedIsBare(font: string)
    ensures StrippedFont(font) == font <==> IsBareFont(font)
  {
    if font != "" {
      TrimmedIsNoLonger(font[1..]);
      TrimmedIsNoLonger(font[..|font| - 1]);
    }
  }

  function UpperChar(c: char): char { if 'a' <= c <= 'z' then (c as int - 32) as char else c }

  function Upper(s: string): (t: string)
    ensures |t| == |s| && forall i :: 0 <= i < |s| ==> t[i] == UpperChar(s[i])
  {
    seq(|s|, i requires 0 <= i < |s| => UpperChar(s[i]))
  }

  predicate HasNoLowerCase(s: string) { forall i :: 0 <= i < |s| ==> !('a' <= s[i] <= 'z') }

  lemma UpperKeeps(s: string)
    ensures Upper(s) == s <==> HasNoLowerCase(s)
  {
    if Upper(s) == s {
      forall i | 0 <= i < |s| ensures !('a' <= s[i] <= 'z') { assert Upper(s)[i] == UpperChar(s[i]); }
    }
  }

  /** isHexColor. */
  predicate IsHexColor(s: string) {
    |s| == 6 && forall i :: 0 <= i < 6 ==> IsDigit(s[i]) || 'a' <= s[i] <= 'f' || 'A' <= s[i] <= 'F'
  }

  function ReadColor(text: string): Option<string> {
    var t := Trimmed(text);
    var digits := if t != "" && t[0] == '#' then t[1..] else t;
    if |digits| == 6 then Some(Upper(digits)) else None
  }

  lemma ReadHexColor(s: string)
    requires IsHexColor(s)
    ensures ReadColor("#" + s) == Some(Upper(s))
  {
    var t := "#" + s;
    assert t[|t| - 1] == s[5] && t[1..] == s;
  }

  /** pointText: four decimals. */
  function WrittenPoints(points: real): real { (points * 10000.0 + 0.5).Floor as real / 10000.0 }

  predicate HasFourDecimals(points: real) { (points * 10000.0).Floor as real == points * 10000.0 }

  lemma PointsKept(points: real)
    ensures WrittenPoints(points) == points <==> HasFourDecimals(points)
  {
    var n := points * 10000.0;
    assert WrittenPoints(points) == points <==> (n + 0.5).Floor as real == n;
    if n.Floor as real == n { assert (n + 0.5).Floor == n.Floor; }
  }

  // ---------------------------------------------------------------- the styles as they are written and read

  /** A style:style element. */
  datatype StyleElement = StyleElement(name: string, style: Style)

  const NAMED_STYLE := NO_STYLE.(family := "paragraph", masterPageName := "IGDStandard")

  function AutomaticStyle(s: ParagraphStyle): Style {
    NAMED_STYLE.(parent := s.parent, alignment := Some(s.alignment))
  }

  /** writeRunStyle, and what parseTextProperties makes of it. */
  function RunStyle(p: RunProperties): Style {
    NO_STYLE.(
      family := "text",
      bold := if p.bold then Some(true) else None,
      italic := if p.italic then Some(true) else None,
      underline := if p.underline then Some(true) else None,
      fontFamily := if p.fontFamily == "" then None else Some(StrippedFont(Quoted(p.fontFamily))),
      eastAsiaFontFamily := if p.eastAsiaFontFamily == "" then None else Some(StrippedFont(p.eastAsiaFontFamily)),
      fontSizePoints := if p.fontSizePoints > 0.0 then Some(WrittenPoints(p.fontSizePoints)) else None,
      color := if p.color == "" then None else ReadColor("#" + p.color))
  }

  function NamedElements(names: seq<string>): (es: seq<StyleElement>)
    ensures |es| == |names| && forall k :: 0 <= k < |names| ==> es[k] == StyleElement(names[k], NAMED_STYLE)
  {
    seq(|names|, k requires 0 <= k < |names| => StyleElement(names[k], NAMED_STYLE))
  }

  /** The styles of writeNamedStylesAndLists. */
  function CommonStyles(plan: Plan): seq<StyleElement> {
    NamedElements(["IGDBase"] + Canonical.SortedKeys(plan.namedParagraphStyles))
  }

  function ParagraphElements(styles: seq<ParagraphStyle>): (es: seq<StyleElement>)
    ensures |es| == |styles|
    ensures forall k :: 0 <= k < |styles| ==> es[k] == StyleElement(ParagraphName(k), AutomaticStyle(styles[k]))
  {
    seq(|styles|, k requires 0 <= k < |styles| => StyleElement(ParagraphName(k), AutomaticStyle(styles[k])))
  }

  function RunElements(runs: seq<RunProperties>): (es: seq<StyleElement>)
    ensures |es| == |runs| && forall k :: 0 <= k < |runs| ==> es[k] == StyleElement(RunName(k), RunStyle(runs[k]))
  {
    seq(|runs|, k requires 0 <= k < |runs| => StyleElement(RunName(k), RunStyle(runs[k])))
  }

  /** The text styles of writeAutomaticStyles. */
  function AutomaticStyles(plan: Plan): seq<StyleElement> {
    ParagraphElements(plan.paragraphStyles) + RunElements(plan.runStyles)
  }

  type FontFaces = map<string, string>

  /** writeFontFaces, and what parseStyles makes of it. */
  function FacesOf(fonts: set<string>): FontFaces {
    map f | f in fonts && f != "" && StrippedFont(Quoted(f)) != "" :: StrippedFont(Quoted(f))
  }

  function ResolvedFace(font: Option<string>, faces: FontFaces, fallback: FontFaces): Option<string> {
    match font
    case None => None
    case Some(f) => Some(if f in faces then faces[f] else if f in fallback then fallback[f] else f)
  }

  function FacesResolved(s: Style, faces: FontFaces, fallback: FontFaces): Style {
    s.(fontFamily := ResolvedFace(s.fontFamily, faces, fallback),
       eastAsiaFontFamily := ResolvedFace(s.eastAsiaFontFamily, faces, fallback))
  }

  function KeyOf(e: StyleElement): StyleKey { StyleKey(e.style.family, e.name) }

  /** The map that one part declares: a later style replaces an earlier one, and one without a name is dropped. */
  function Declared(es: seq<StyleElement>): StyleMap {
    if es == [] then map[]
    else
      var before, e := Declared(es[..|es| - 1]), es[|es| - 1];
      if e.name == "" then before else before[KeyOf(e) := e.style]
  }

  function AllFacesResolved(styles: StyleMap, faces: FontFaces, fallback: FontFaces): StyleMap {
    map k | k in styles :: FacesResolved(styles[k], faces, fallback)
  }

  /** parseStyles. */
  method ParseStyles(es: seq<StyleElement>, faces: FontFaces, fallback: FontFaces, styles: StyleMap) returns (after: StyleMap)
    ensures after == styles + AllFacesResolved(Declared(es), faces, fallback)
  {
    var parsed: StyleMap := map[];
    for k := 0 to |es|
      invariant parsed == Declared(es[..k])
    {
      assert es[..k + 1][..k] == es[..k];
      if es[k].name != "" { parsed := parsed[KeyOf(es[k]) := es[k].style]; }
    }
    assert es[..|es|] == es;
    after := styles + AllFacesResolved(parsed, faces, fallback);
  }

  /** What reading a written package gives: styles.xml declares the named styles, then content.xml the automatic
      ones, which replace named ones under the same names. */
  function WrittenStyles(plan: Plan): StyleMap {
    var faces := FacesOf(plan.fonts);
    AllFacesResolved(Declared(CommonStyles(plan)), faces, map[]) + AllFacesResolved(Declared(AutomaticStyles(plan)), faces, faces)
  }

  /** The styles of a document read back, from the two parts of a package or from a flat document. */
  method ReadWrittenStyles(plan: Plan, flat: bool) returns (styles: StyleMap)
    ensures styles == WrittenStyles(plan)
  {
    hide Declared, FacesOf, CommonStyles, AutomaticStyles;
    var faces := FacesOf(plan.fonts);
    if flat {
      styles := ParseStyles(CommonStyles(plan) + AutomaticStyles(plan), faces, map[], map[]);
      DeclaredInParts(CommonStyles(plan), AutomaticStyles(plan));
      FacesChangeNothing(Declared(CommonStyles(plan)), plan.fonts);
      FacesChangeNothing(Declared(AutomaticStyles(plan)), plan.fonts);
      FacesChangeNothing(Declared(CommonStyles(plan)) + Declared(AutomaticStyles(plan)), plan.fonts);
    } else {
      styles := ParseStyles(CommonStyles(plan), faces, map[], map[]);
      styles := ParseStyles(AutomaticStyles(plan), faces, faces, styles);
    }
  }

  lemma {:induction false} DeclaredInParts(a: seq<StyleElement>, b: seq<StyleElement>)
    ensures Declared(a + b) == Declared(a) + Declared(b)
    decreases |b|
  {
    if b == [] {
      assert a + b == a;
    } else {
      var last := |b| - 1;
      assert (a + b)[..|a + b| - 1] == a + b[..last] && (a + b)[|a + b| - 1] == b[last];
      DeclaredInParts(a, b[..last]);
    }
  }

  /** A face is declared under the name of its own font. */
  lemma FacesChangeNothing(styles: StyleMap, fonts: set<string>)
    ensures AllFacesResolved(styles, FacesOf(fonts), map[]) == styles
    ensures AllFacesResolved(styles, FacesOf(fonts), FacesOf(fonts)) == styles
  {
    hide StrippedFont;
    forall f | f in FacesOf(fonts) ensures FacesOf(fonts)[f] == f { StrippedQuoted(f); }
  }

  ghost predicate DeclaresAt(es: seq<StyleElement>, i: int, key: StyleKey) {
    0 <= i < |es| && es[i].name != "" && KeyOf(es[i]) == key
  }

  lemma {:induction false} DeclaredAre(es: seq<StyleElement>)
    requires forall i, j :: 0 <= i < j < |es| && KeyOf(es[i]) == KeyOf(es[j]) ==> es[i].style == es[j].style
    ensures forall key :: key in Declared(es) <==> exists i :: DeclaresAt(es, i, key)
    ensures forall i, key :: DeclaresAt(es, i, key) ==> Declared(es)[key] == es[i].style
  {
    if es == [] {
    } else {
      var last := |es| - 1;
      DeclaredAre(es[..last]);
      forall key ensures key in Declared(es) <==> exists i :: DeclaresAt(es, i, key) {
        if key in Declared(es[..last]) {
          var i :| DeclaresAt(es[..last], i, key);
          assert DeclaresAt(es, i, key);
        }
        if exists i :: DeclaresAt(es, i, key) {
          var i :| DeclaresAt(es, i, key);
          assert i < last ==> DeclaresAt(es[..last], i, key);
        }
        assert es[last].name != "" && KeyOf(es[last]) == key ==> DeclaresAt(es, last, key);
      }
      forall i, key | DeclaresAt(es, i, key) ensures Declared(es)[key] == es[i].style {
        if i < last { assert DeclaresAt(es[..last], i, key); }
      }
    }
  }

  /** The number of a generated name among the first `n`. */
  function NumberOf(name: string, n: nat): (k: Option<nat>)
    ensures k.Some? ==> k.value < n && name == ParagraphName(k.value)
    ensures k.None? ==> forall i: nat :: i < n ==> name != ParagraphName(i)
  {
    if n == 0 then None else if name == ParagraphName(n - 1) then Some(n - 1) else NumberOf(name, n - 1)
  }

  lemma NamesDiffer(i: nat, j: nat)
    requires i != j
    ensures ParagraphName(i) != ParagraphName(j) && RunName(i) != RunName(j)
  {
    assert ParagraphName(i)[4..] == ToText(i + 1) && ParagraphName(j)[4..] == ToText(j + 1);
    assert RunName(i)[4..] == ToText(i + 1) && RunName(j)[4..] == ToText(j + 1);
    ValueOfText(i + 1);
    ValueOfText(j + 1);
  }

  lemma AutomaticAreDeclared(plan: Plan)
    ensures var es := AutomaticStyles(plan);
            && (forall key :: key in Declared(es) <==> exists i :: DeclaresAt(es, i, key))
            && (forall i, key :: DeclaresAt(es, i, key) ==> Declared(es)[key] == es[i].style)
  {
    hide ParagraphName, RunName;
    var es, n := AutomaticStyles(plan), |plan.paragraphStyles|;
    forall i, j | 0 <= i < j < |es| ensures KeyOf(es[i]) != KeyOf(es[j]) {
      if j < n { NamesDiffer(i, j); }
      if i >= n { NamesDiffer(i - n, j - n); }
      if j >= n { TextStyle(plan.runStyles[j - n]); }
    }
    DeclaredAre(es);
  }

  lemma CommonAreDeclared(plan: Plan)
    ensures forall key :: key in Declared(CommonStyles(plan))
              <==> key.family == "paragraph" && key.name != "" && (key.name == "IGDBase" || key.name in plan.namedParagraphStyles)
    ensures forall key :: key in Declared(CommonStyles(plan)) ==> Declared(CommonStyles(plan))[key] == NAMED_STYLE
  {
    hide Canonical.SortedKeys;
    var names := ["IGDBase"] + Canonical.SortedKeys(plan.namedParagraphStyles);
    var es := CommonStyles(plan);
    DeclaredAre(es);
    forall key
      ensures key in Declared(es)
        <==> key.family == "paragraph" && key.name != "" && (key.name == "IGDBase" || key.name in plan.namedParagraphStyles)
    {
      if key.family == "paragraph" && key.name in names && key.name != "" {
        var i :| 0 <= i < |names| && names[i] == key.name;
        assert DeclaresAt(es, i, key);
      }
      if key in Declared(es) {
        var i :| DeclaresAt(es, i, key);
        assert names[i] in names;
      }
    }
  }

  /** The paragraph style that a name stands for in a written document. */
  lemma ParagraphStyleUnder(plan: Plan, name: string)
    requires "" !in plan.namedParagraphStyles
    ensures var styles, key := WrittenStyles(plan), StyleKey("paragraph", name);
            match NumberOf(name, |plan.paragraphStyles|)
            case Some(k) => key in styles && styles[key] == AutomaticStyle(plan.paragraphStyles[k])
            case None =>
              if name == "IGDBase" || name in plan.namedParagraphStyles then key in styles && styles[key] == NAMED_STYLE
              else key !in styles
  {
    hide Declared, CommonStyles, FacesOf, AllFacesResolved, NumberOf, ParagraphName;
    var es, key := AutomaticStyles(plan), StyleKey("paragraph", name);
    FacesChangeNothing(Declared(CommonStyles(plan)), plan.fonts);
    FacesChangeNothing(Declared(es), plan.fonts);
    AutomaticAreDeclared(plan);
    CommonAreDeclared(plan);
    match NumberOf(name, |plan.paragraphStyles|) {
    case Some(k) =>
      NameIsNotEmpty(k);
      assert DeclaresAt(es, k, key);
    case None =>
      forall i ensures !DeclaresAt(es, i, key) {}
    }
  }

  lemma NameIsNotEmpty(k: nat)
    ensures ParagraphName(k) != "" && RunName(k) != ""
  {
  }

  lemma RunStyleUnder(plan: Plan, k: nat)
    requires k < |plan.runStyles|
    ensures var styles, key := WrittenStyles(plan), StyleKey("text", RunName(k));
            key in styles && styles[key] == RunStyle(plan.runStyles[k])
  {
    hide Declared, CommonStyles, FacesOf, AllFacesResolved, RunName, RunStyle;
    var es, key := AutomaticStyles(plan), StyleKey("text", RunName(k));
    FacesChangeNothing(Declared(CommonStyles(plan)), plan.fonts);
    FacesChangeNothing(Declared(es), plan.fonts);
    AutomaticAreDeclared(plan);
    NameIsNotEmpty(k);
    TextStyle(plan.runStyles[k]);
    assert DeclaresAt(es, |plan.paragraphStyles| + k, key);
  }

  lemma TextStyle(p: RunProperties)
    ensures RunStyle(p).family == "text" && RunStyle(p).parent == ""
  {
  }

  // ---------------------------------------------------------------- what runs come back as

  /** validateParagraph on a run. */
  predicate PropertiesAreValid(r: RunProperties) { r.fontSizePoints >= 0.0 && (r.color == "" || IsHexColor(r.color)) }

  function BackProperties(r: RunProperties): RunProperties {
    r.(eastAsiaFontFamily := StrippedFont(r.eastAsiaFontFamily),
       fontSizePoints := WrittenPoints(r.fontSizePoints),
       color := Upper(r.color))
  }

  lemma PropertiesRoundTrip(plan: Plan, r: RunProperties)
    requires PropertiesAreValid(r) && (HasRunProperties(r) ==> r in plan.runStyles)
    ensures SpanProperties(WrittenStyles(plan), RunNames(plan)(r), PLAIN) == BackProperties(r)
  {
    hide WrittenStyles, StrippedFont, Upper;
    NothingToStrip();
    if HasRunProperties(r) {
      var k := Position(plan.runStyles, r);
      RunStyleUnder(plan, k);
      NameIsNotEmpty(k);
      StrippedQuoted(r.fontFamily);
      if r.color != "" { ReadHexColor(r.color); }
      hide RunName;
    }
  }

  lemma NothingToStrip()
    ensures StrippedFont("") == "" == Upper("") && WrittenPoints(0.0) == 0.0
  {
    assert (0.5).Floor == 0;
  }

  /** The properties of a run are kept exactly when its East Asian font has no blanks or quotation marks around it,
      its size has four decimals, and its colour is in capitals. */
  predicate AreKept(r: RunProperties) {
    IsBareFont(r.eastAsiaFontFamily) && HasFourDecimals(r.fontSizePoints) && HasNoLowerCase(r.color)
  }

  lemma PropertiesKept(r: RunProperties)
    ensures BackProperties(r) == r <==> AreKept(r)
  {
    hide StrippedFont, WrittenPoints, Upper, IsBareFont, HasFourDecimals, HasNoLowerCase;
    StrippedIsBare(r.eastAsiaFontFamily);
    PointsKept(r.fontSizePoints);
    UpperKeeps(r.color);
  }

  /** The texts of the runs are UTF-8 of XML characters. */
  predicate AreWritable(runs: seq<Run>) {
    forall k :: 0 <= k < |runs| ==> Decode(runs[k].text).Some? && AllXmlScalars(Decode(runs[k].text).value)
  }

  lemma {:induction false} WritableRuns(runs: seq<Run>, names: RunStyleNames)
    ensures WrittenRuns(runs, names).Some? <==> AreWritable(runs)
  {
    if runs != [] {
      hide Decode, AllXmlScalars, WrittenText;
      WritableRuns(runs[1..], names);
      assert runs == [runs[0]] + runs[1..];
    }
  }

  /** A run with line feeds for line endings, if it has any text. */
  function BackRun(r: Run): (back: seq<Run>)
    requires Decode(r.text).Some?
    ensures |back| <= 1
  {
    var text := Unbroken(Decode(r.text).value);
    if text == [] then [] else [Run(Encode(text), BackProperties(r.properties))]
  }

  function BackRuns(runs: seq<Run>): (back: seq<Run>)
    requires AreWritable(runs)
    ensures |back| <= |runs|
  {
    if runs == [] then [] else BackRun(runs[0]) + BackRuns(runs[1..])
  }

  lemma {:induction false} RunsBack(plan: Plan, runs: seq<Run>)
    requires AreWritable(runs)
    requires forall k :: 0 <= k < |runs| ==>
               var r := runs[k].properties;
               PropertiesAreValid(r) && (HasRunProperties(r) ==> r in plan.runStyles)
    ensures WrittenRuns(runs, RunNames(plan)).Some?
    ensures KeptRuns(WrittenStyles(plan), runs, RunNames(plan), PLAIN) == BackRuns(runs)
  {
    WritableRuns(runs, RunNames(plan));
    if runs != [] {
      hide Decode, AllXmlScalars, Unbroken, Encode, WrittenStyles, SpanProperties, BackProperties, RunNames,
           PropertiesAreValid, HasRunProperties, WrittenText;
      PropertiesRoundTrip(plan, runs[0].properties);
      RunsBack(plan, runs[1..]);
    }
  }

  /** A run comes back as it was exactly when it has text, no carriage return, and properties that are kept. */
  ghost predicate RunIsKept(r: Run) { r.text != [] && 0x0D !in r.text && AreKept(r.properties) }

  /** Exactly the runs of kept runs come back unchanged. */
  lemma {:induction false} RunsKept(runs: seq<Run>)
    requires AreWritable(runs)
    ensures BackRuns(runs) == runs <==> AllKept(runs)
  {
    if runs != [] {
      hide Decode, AllXmlScalars, BackRun, AllKept;
      assert BackRuns(runs) == BackRun(runs[0]) + BackRuns(runs[1..]);
      hide BackRuns, RunIsKept;
      RunKept(runs[0]);
      RunsKept(runs[1..]);
      SameInParts(BackRun(runs[0]), BackRuns(runs[1..]), runs[0], runs[1..]);
      AllKeptInParts(runs);
      assert runs == [runs[0]] + runs[1..];
    }
  }

  ghost predicate AllKept(runs: seq<Run>) { forall k :: 0 <= k < |runs| ==> RunIsKept(runs[k]) }

  lemma AllKeptInParts(runs: seq<Run>)
    requires runs != []
    ensures AllKept(runs) <==> RunIsKept(runs[0]) && AllKept(runs[1..])
  {
    hide RunIsKept;
    assert forall k :: 0 < k < |runs| ==> runs[k] == runs[1..][k - 1];
  }

  lemma RunKept(r: Run)
    requires Decode(r.text).Some?
    ensures BackRun(r) == [r] <==> RunIsKept(r)
  {
    hide Decode, Unbroken, Encode, BackProperties, AreKept;
    TextKept(r.text);
    PropertiesKept(r.properties);
  }

  lemma SameInParts<T>(a: seq<T>, b: seq<T>, x: T, rest: seq<T>)
    requires |a| <= 1 && |b| <= |rest|
    ensures a + b == [x] + rest <==> a == [x] && b == rest
  {
    if a + b == [x] + rest { assert (a + b)[0] == x && (a + b)[1..] == rest; }
  }

  lemma TextKept(text: Bytes)
    requires Decode(text).Some?
    ensures var cs := Decode(text).value;
            && (Unbroken(cs) == [] <==> text == [])
            && (Encode(Unbroken(cs)) == text <==> 0x0D !in text)
  {
    hide Decode, Encode;
    var cs := Decode(text).value;
    DecodeThenEncode(text);
    EncodedIsEmpty(cs);
    if 0x0D !in text {
      NoReturn(cs);
      UnbrokenKeeps(cs);
    } else {
      UnbrokenHasNoReturn(cs);
      hide Unbroken;
      EncodedHasNoReturn(Unbroken(cs));
    }
    NothingUnbroken(cs);
  }

  lemma NothingUnbroken(cs: Chars)
    ensures Unbroken(cs) == [] <==> cs == []
  {
  }

  lemma EncodedIsEmpty(cs: Chars)
    ensures Encode(cs) == [] <==> cs == []
  {
    if cs != [] { assert Encode(cs) == EncodeOne(cs[0]) + Encode(cs[1..]); }
  }

  lemma {:induction false} UnbrokenHasNoReturn(cs: Chars)
    ensures 0x0D !in Unbroken(cs)
    decreases |cs|
  {
    if cs != [] {
      UnbrokenHasNoReturn(cs[1..]);
      UnbrokenHasNoReturn(cs[BreakLength(cs)..]);
    }
  }

  lemma {:induction false} EncodedHasNoReturn(cs: Chars)
    requires 0x0D !in cs
    ensures 0x0D !in Encode(cs)
  {
    if cs != [] { EncodedHasNoReturn(cs[1..]); }
  }

  // ---------------------------------------------------------------- what paragraphs come back as

  /** A paragraph as the plan has it written. */
  function PlannedParagraph(plan: Plan, p: Paragraph): Option<ParagraphElement> {
    WrittenParagraph(p, GeneratedName(plan, p), RunNames(plan))
  }

  /** The automatic style that the paragraph ends up with, by its name, whether it was generated for it or not. */
  function StyleInEffect(plan: Plan, p: Paragraph): Option<ParagraphStyle> {
    match NumberOf(WrittenStyleName(p, GeneratedName(plan, p)), |plan.paragraphStyles|)
    case None => None
    case Some(k) => Some(plan.paragraphStyles[k])
  }

  function BackParagraph(plan: Plan, p: Paragraph): Paragraph
    requires AreWritable(p.runs)
  {
    var style := StyleInEffect(plan, p);
    var styleId := if style.Some? then style.value.parent
                   else if GeneratedStyleName(p.styleId, "IGDP") || p.styleId == "IGDBase" then ""
                   else p.styleId;
    Paragraph(styleId, if style.Some? then style.value.alignment else Automatic, None, 0, false, BackRuns(p.runs))
  }

  predicate SetsNoRunProperties(s: Style) {
    && s.bold.None? && s.italic.None? && s.underline.None? && s.fontFamily.None? && s.eastAsiaFontFamily.None?
    && s.fontSizePoints.None? && s.color.None?
  }

  lemma {:induction false} ResolvedSetsNothing(styles: StyleMap, name: string, resolving: set<StyleKey>, depth: nat)
    requires forall n :: StyleKey("paragraph", n) in styles ==> SetsNoRunProperties(styles[StyleKey("paragraph", n)])
    ensures SetsNoRunProperties(ResolveFrom(styles, "paragraph", name, resolving, depth))
    decreases MAXIMUM_SEMANTIC_NESTING_DEPTH + 1 - depth
  {
    var key := StyleKey("paragraph", name);
    if depth <= MAXIMUM_SEMANTIC_NESTING_DEPTH && key in styles && key !in resolving && styles[key].parent != "" {
      ResolvedSetsNothing(styles, styles[key].parent, resolving + {key}, depth + 1);
    }
  }

  /** The paragraph style in effect under a name in a written document. */
  lemma ResolvedUnder(plan: Plan, name: string)
    requires "" !in plan.namedParagraphStyles
    ensures var resolved := Resolve(WrittenStyles(plan), "paragraph", name);
            && ApplyStyle(resolved, PLAIN) == PLAIN
            && (match NumberOf(name, |plan.paragraphStyles|)
                case Some(k) => resolved.parent == plan.paragraphStyles[k].parent
                                && resolved.alignment == Some(plan.paragraphStyles[k].alignment)
                case None => resolved.parent == "" && resolved.alignment == None)
  {
    hide WrittenStyles, NumberOf;
    var styles := WrittenStyles(plan);
    forall n | StyleKey("paragraph", n) in styles ensures SetsNoRunProperties(styles[StyleKey("paragraph", n)]) {
      ParagraphStyleUnder(plan, n);
    }
    ResolvedSetsNothing(styles, name, {}, 0);
    ParagraphStyleUnder(plan, name);
    NoParent(styles, name);
  }

  lemma NoParent(styles: StyleMap, name: string)
    ensures var resolved, key := Resolve(styles, "paragraph", name), StyleKey("paragraph", name);
            if key !in styles then resolved == NO_STYLE
            else && resolved.parent == styles[key].parent
                 && (styles[key].alignment.Some? || styles[key].parent == "" ==> resolved.alignment == styles[key].alignment)
  {
  }

  /** The name under which a planned paragraph of the document is written. */
  lemma NamedByThePlan(plan: Plan, p: Paragraph)
    requires p.alignment != Automatic ==> StyleOf(p) in plan.paragraphStyles
    ensures p.alignment != Automatic ==> StyleInEffect(plan, p) == Some(StyleOf(p))
    ensures var name := WrittenStyleName(p, GeneratedName(plan, p));
            && (p.alignment != Automatic ==> GeneratedStyleName(name, "IGDP"))
            && (StyleInEffect(plan, p).Some? ==> GeneratedStyleName(name, "IGDP"))
  {
    hide ToText;
    var name, n := WrittenStyleName(p, GeneratedName(plan, p)), |plan.paragraphStyles|;
    if p.alignment != Automatic {
      var k := Position(plan.paragraphStyles, StyleOf(p));
      assert name == ParagraphName(k);
      if NumberOf(name, n) != Some(k) { NamesDiffer(k, NumberOf(name, n).value); }
    }
    if NumberOf(name, n).Some? {
      var k := NumberOf(name, n).value;
      assert name[4..] == ToText(k + 1) && name[..4] == "IGDP";
    }
  }

  /** A paragraph written under a plan that covers it comes back with its style, its alignment and its runs. */
  lemma PlannedComesBack(plan: Plan, p: Paragraph)
    requires "" !in plan.namedParagraphStyles && (p.alignment != Automatic ==> StyleOf(p) in plan.paragraphStyles)
    requires AreWritable(p.runs)
    requires forall k :: 0 <= k < |p.runs| ==>
               var r := p.runs[k].properties;
               PropertiesAreValid(r) && (HasRunProperties(r) ==> r in plan.runStyles)
    ensures PlannedParagraph(plan, p).Some?
    ensures ReadParagraph(WrittenStyles(plan), PlannedParagraph(plan, p).value) == BackParagraph(plan, p)
  {
    hide WrittenStyles, WrittenRuns, KeptRuns, BackRuns, AreWritable, ReadInlines, Resolve, ApplyStyle, RunNames,
         PropertiesAreValid, HasRunProperties, NumberOf, GeneratedStyleName, GeneratedName, HeadingLevel;
    RunsBack(plan, p.runs);
    NamedByThePlan(plan, p);
    var e := PlannedParagraph(plan, p).value;
    ResolvedUnder(plan, e.styleName);
    RunsRoundTrip(WrittenStyles(plan), p, GeneratedName(plan, p), RunNames(plan));
    HeadingHasName(p.styleId);
  }

  lemma HeadingHasName(styleId: string)
    ensures HeadingLevel(styleId).Some? ==> styleId != "" && styleId != "IGDBase" && !GeneratedStyleName(styleId, "IGDP")
    ensures !GeneratedStyleName("", "IGDP") && !GeneratedStyleName("IGDBase", "IGDP")
  {
    hide AllDigits;
    if HeadingLevel(styleId).Some? { assert styleId[0] == 'H'; }
    assert "IGDBase"[3] == 'B';
  }

  predicate RunsAreValid(runs: seq<Run>) { forall k :: 0 <= k < |runs| ==> PropertiesAreValid(runs[k].properties) }

  /** Every paragraph of a document, in a cell or not, written under the plan of the document and read back. */
  lemma ParagraphRoundTrip(bs: seq<Block>, p: Paragraph)
    requires p in AllParagraphs(bs) && AreWritable(p.runs) && RunsAreValid(p.runs)
    ensures PlannedParagraph(PlanOf(bs), p).Some?
    ensures ReadParagraph(WrittenStyles(PlanOf(bs)), PlannedParagraph(PlanOf(bs), p).value) == BackParagraph(PlanOf(bs), p)
  {
    hide PlanOf, AllParagraphs, PlannedParagraph, WrittenStyles, BackParagraph, ReadParagraph, AreWritable, PropertiesAreValid,
         HasRunProperties;
    PlanIsExact(bs);
    forall k | 0 <= k < |p.runs|
      ensures HasRunProperties(p.runs[k].properties) ==> p.runs[k].properties in PlanOf(bs).runStyles
    {
      assert Use(p.runs, p.runs[k].properties);
    }
    PlannedComesBack(PlanOf(bs), p);
  }

  /** The styles with an alignment that paragraphs use, in the order of first use. */
  function ExplicitStyles(ps: seq<Paragraph>): seq<ParagraphStyle> {
    if ps == [] then []
    else
      var before, p := ExplicitStyles(ps[..|ps| - 1]), ps[|ps| - 1];
      if p.alignment == Automatic || StyleOf(p) in before then before else before + [StyleOf(p)]
  }

  lemma {:induction false} PlanFollowsFirstUse(ps: seq<Paragraph>)
    ensures CollectedAll(NO_PLAN, ps).paragraphStyles == ExplicitStyles(ps)
  {
    if ps != [] {
      hide CollectedRun;
      var last := |ps| - 1;
      PlanFollowsFirstUse(ps[..last]);
      RunsKeepParagraphStyles(CollectedStyle(CollectedAll(NO_PLAN, ps[..last]), ps[last]), ps[last].runs);
    }
  }

  lemma {:induction false} RunsKeepParagraphStyles(plan: Plan, runs: seq<Run>)
    ensures CollectedRuns(plan, runs).paragraphStyles == plan.paragraphStyles
  {
    if runs != [] { RunsKeepParagraphStyles(plan, runs[..|runs| - 1]); }
  }

  /** The alignment of a paragraph comes back exactly when the paragraph has one of its own or its style does not have
      one of the names IGDP1 to IGDPn that are generated for the n styles with an alignment. Its style comes back
      exactly when the paragraph has an alignment of its own, or the style's name is not reserved, or it is the name
      generated for that style itself. */
  lemma StyleRoundTrip(bs: seq<Block>, p: Paragraph)
    requires p in AllParagraphs(bs) && AreWritable(p.runs) && RunsAreValid(p.runs)
    ensures PlannedParagraph(PlanOf(bs), p).Some?
    ensures var plan, styles := PlanOf(bs), ExplicitStyles(AllParagraphs(bs));
            var read := ReadParagraph(WrittenStyles(plan), PlannedParagraph(plan, p).value);
            var number := NumberOf(p.styleId, |styles|);
            && (read.alignment == p.alignment <==> p.alignment != Automatic || number.None?)
            && (read.styleId == p.styleId
                <==> || p.alignment != Automatic
                     || (match number
                         case Some(k) => styles[k].parent == p.styleId
                         case None => !GeneratedStyleName(p.styleId, "IGDP") && p.styleId != "IGDBase"))
  {
    hide *;
    FirstUses(bs);
    ParagraphRoundTrip(bs, p);
    if p.alignment != Automatic { UsesItsStyle(bs, p); }
    ExplicitAlignment(bs);
    StyleOfBack(PlanOf(bs), p);
  }

  lemma FirstUses(bs: seq<Block>)
    ensures PlanOf(bs).paragraphStyles == ExplicitStyles(AllParagraphs(bs))
  {
    hide CollectedAll, ExplicitStyles, AllParagraphs;
    PlanFollowsFirstUse(AllParagraphs(bs));
  }

  lemma UsesItsStyle(bs: seq<Block>, p: Paragraph)
    requires p in AllParagraphs(bs) && p.alignment != Automatic
    ensures StyleOf(p) in PlanOf(bs).paragraphStyles
  {
    hide AllParagraphs, PlanOf, Distinct, Use, UseFont, HasRunProperties;
    PlanIsExact(bs);
  }

  lemma StyleOfBack(plan: Plan, p: Paragraph)
    requires p.alignment != Automatic ==> StyleOf(p) in plan.paragraphStyles
    requires forall k :: 0 <= k < |plan.paragraphStyles| ==> plan.paragraphStyles[k].alignment != Automatic
    requires AreWritable(p.runs)
    ensures var back, number := BackParagraph(plan, p), NumberOf(p.styleId, |plan.paragraphStyles|);
            && (back.alignment == p.alignment <==> p.alignment != Automatic || number.None?)
            && (back.styleId == p.styleId
                <==> || p.alignment != Automatic
                     || (match number
                         case Some(k) => plan.paragraphStyles[k].parent == p.styleId
                         case None => !GeneratedStyleName(p.styleId, "IGDP") && p.styleId != "IGDBase"))
  {
    hide NumberOf, GeneratedStyleName, GeneratedName, BackRuns, AreWritable;
    NamedByThePlan(plan, p);
    HeadingHasName("");
    ReservedNames(p.styleId, |plan.paragraphStyles|);
  }

  /** Which paragraphs come back as they were, but for their numbering. */
  lemma ParagraphIsKept(bs: seq<Block>, p: Paragraph)
    requires p in AllParagraphs(bs) && AreWritable(p.runs)
    ensures var styles := ExplicitStyles(AllParagraphs(bs));
            BackParagraph(PlanOf(bs), p) == p.(numberingId := None, numberingLevel := 0, numberingContinuation := false)
            <==> && AllKept(p.runs)
                 && (p.alignment == Automatic ==>
                       && NumberOf(p.styleId, |styles|).None?
                       && !GeneratedStyleName(p.styleId, "IGDP") && p.styleId != "IGDBase")
  {
    hide PlanOf, AllParagraphs, ExplicitStyles, NumberOf, GeneratedStyleName, BackRuns, AreWritable, AllKept, StyleInEffect;
    FirstUses(bs);
    if p.alignment != Automatic { UsesItsStyle(bs, p); }
    ExplicitAlignment(bs);
    StyleOfBack(PlanOf(bs), p);
    RunsKept(p.runs);
  }

  lemma ReservedNames(name: string, n: nat)
    ensures NumberOf(name, n).Some? ==> GeneratedStyleName(name, "IGDP")
    ensures NumberOf("IGDBase", n).None? && NumberOf("", n).None?
  {
    hide ToText, NumberOf;
    if NumberOf(name, n).Some? {
      var k := NumberOf(name, n).value;
      assert name[4..] == ToText(k + 1) && name[..4] == "IGDP";
    }
    assert forall k :: ParagraphName(k)[3] == 'P';
  }

  lemma ExplicitAlignment(bs: seq<Block>)
    ensures forall k :: 0 <= k < |PlanOf(bs).paragraphStyles| ==> PlanOf(bs).paragraphStyles[k].alignment != Automatic
  {
    hide PlanOf, AllParagraphs, Distinct, Use, UseFont, HasRunProperties;
    PlanIsExact(bs);
    forall k | 0 <= k < |PlanOf(bs).paragraphStyles| ensures PlanOf(bs).paragraphStyles[k].alignment != Automatic {
      assert PlanOf(bs).paragraphStyles[k] in PlanOf(bs).paragraphStyles;
    }
  }

  // ---------------------------------------------------------------- generated styles that are nested too deep

  /** Each style but the last has the name generated for its successor as its parent; there are 129, all different,
      and the last one has a parent too. */
  ghost predicate IsOverlongChain(styles: seq<ParagraphStyle>, chain: seq<nat>) {
    && |chain| == MAXIMUM_SEMANTIC_NESTING_DEPTH + 1
    && Distinct(chain)
    && (forall i :: 0 <= i < |chain| ==> chain[i] < |styles| && styles[chain[i]].parent != "")
    && (forall i :: 0 <= i < |chain| - 1 ==> styles[chain[i]].parent == ParagraphName(chain[i + 1]))
  }

  ghost predicate NestTooDeep(styles: seq<ParagraphStyle>) { exists chain :: IsOverlongChain(styles, chain) }

  lemma NumberOfName(k: nat, n: nat)
    requires k < n
    ensures NumberOf(ParagraphName(k), n) == Some(k)
  {
    hide NumberOf, ParagraphName;
    var found := NumberOf(ParagraphName(k), n);
    if found.Some? && found.value != k { NamesDiffer(k, found.value); }
  }

  function NamesOf(chain: seq<nat>): seq<StyleKey> {
    seq(|chain|, i requires 0 <= i < |chain| => StyleKey("paragraph", ParagraphName(chain[i])))
  }

  lemma ChainIsWalk(plan: Plan, chain: seq<nat>)
    requires "" !in plan.namedParagraphStyles && IsOverlongChain(plan.paragraphStyles, chain)
    ensures IsOverlongWalk(WrittenStyles(plan), "paragraph", ParagraphName(chain[0]), NamesOf(chain))
  {
    hide WrittenStyles, ParagraphName, NumberOf;
    var styles, walk := WrittenStyles(plan), NamesOf(chain);
    forall i | 0 <= i < |chain|
      ensures walk[i] in styles && styles[walk[i]].parent == plan.paragraphStyles[chain[i]].parent
    {
      NumberOfName(chain[i], |plan.paragraphStyles|);
      ParagraphStyleUnder(plan, ParagraphName(chain[i]));
    }
    forall i, j | 0 <= i < j < |chain| ensures walk[i] != walk[j] { NamesDiffer(chain[i], chain[j]); }
  }

  lemma WalkIsChain(plan: Plan, name: string, walk: seq<StyleKey>) returns (chain: seq<nat>)
    requires "" !in plan.namedParagraphStyles && IsOverlongWalk(WrittenStyles(plan), "paragraph", name, walk)
    ensures IsOverlongChain(plan.paragraphStyles, chain) && name == ParagraphName(chain[0])
  {
    hide WrittenStyles, ParagraphName, NumberOf;
    var styles, n := WrittenStyles(plan), |plan.paragraphStyles|;
    forall i | 0 <= i < |walk|
      ensures walk[i].family == "paragraph" && NumberOf(walk[i].name, n).Some?
      ensures styles[walk[i]].parent == plan.paragraphStyles[NumberOf(walk[i].name, n).value].parent != ""
    {
      if i > 0 { assert walk[i - 1 + 1] == StyleKey("paragraph", styles[walk[i - 1]].parent); }
      ParagraphStyleUnder(plan, walk[i].name);
    }
    chain := seq(|walk|, i requires 0 <= i < |walk| => NumberOf(walk[i].name, n).value);
  }

  /** An overlong chain begins with the style of this name. */
  ghost predicate StartsChain(styles: seq<ParagraphStyle>, name: string) {
    exists chain :: IsOverlongChain(styles, chain) && name == ParagraphName(chain[0])
  }

  /** Resolving a paragraph style of a written document reports an error exactly when the style is a generated one from
      which 129 generated ones follow. */
  lemma TooDeepIsChain(plan: Plan, name: string)
    requires "" !in plan.namedParagraphStyles
    ensures TooDeep(WrittenStyles(plan), "paragraph", name) <==> StartsChain(plan.paragraphStyles, name)
  {
    hide WrittenStyles, IsOverlongWalk, TooDeep, ParagraphName;
    TooDeepIsOverlongWalk(WrittenStyles(plan), "paragraph", name);
    if walk :| IsOverlongWalk(WrittenStyles(plan), "paragraph", name, walk) {
      var chain := WalkIsChain(plan, name, walk);
    }
    if chain :| IsOverlongChain(plan.paragraphStyles, chain) && name == ParagraphName(chain[0]) {
      ChainIsWalk(plan, chain);
    }
  }

  /** Generated text styles have no parents. */
  lemma TextStyleResolves(plan: Plan, r: RunProperties)
    ensures RunNames(plan)(r) == "" || !TooDeep(WrittenStyles(plan), "text", RunNames(plan)(r))
  {
    hide WrittenStyles, RunName;
    if HasRunProperties(r) && r in plan.runStyles {
      var k := Position(plan.runStyles, r);
      RunStyleUnder(plan, k);
      TextStyle(plan.runStyles[k]);
    }
  }

  lemma {:induction false} TextResolves(styles: StyleMap, cs: Chars)
    ensures InlinesResolve(styles, WrittenText(cs))
    decreases |cs|
  {
    if cs != [] {
      hide WrittenText;
      TextResolves(styles, cs[FirstWritten(cs).2..]);
      WrittenOne(cs);
    }
  }

  lemma {:induction false} RunsResolve(plan: Plan, runs: seq<Run>)
    requires WrittenRuns(runs, RunNames(plan)).Some?
    ensures InlinesResolve(WrittenStyles(plan), WrittenRuns(runs, RunNames(plan)).value)
  {
    if runs != [] {
      hide WrittenStyles, WrittenText, RunNames, TooDeep, Decode;
      RunsResolve(plan, runs[1..]);
      TextStyleResolves(plan, runs[0].properties);
      TextResolves(WrittenStyles(plan), Decode(runs[0].text).value);
    }
  }

  lemma WrittenResolves(plan: Plan, p: Paragraph)
    requires PlannedParagraph(plan, p).Some?
    ensures ParagraphResolves(WrittenStyles(plan), PlannedParagraph(plan, p).value)
            <==> !TooDeep(WrittenStyles(plan), "paragraph", WrittenStyleName(p, GeneratedName(plan, p)))
  {
    hide WrittenStyles, WrittenRuns, RunNames, TooDeep, InlinesResolve, WrittenStyleName, HeadingLevel;
    RunsResolve(plan, p.runs);
  }

  lemma ChainsStart(styles: seq<ParagraphStyle>)
    ensures NestTooDeep(styles) <==> exists k: nat :: k < |styles| && StartsChain(styles, ParagraphName(k))
    ensures forall name :: StartsChain(styles, name) ==> NestTooDeep(styles)
  {
    hide ParagraphName;
    if chain :| IsOverlongChain(styles, chain) { assert StartsChain(styles, ParagraphName(chain[0])); }
  }

  /** Every generated style is that of some paragraph. */
  lemma StyleIsUsed(bs: seq<Block>, k: nat) returns (p: Paragraph)
    requires k < |PlanOf(bs).paragraphStyles|
    ensures p in AllParagraphs(bs) && WrittenStyleName(p, GeneratedName(PlanOf(bs), p)) == ParagraphName(k)
  {
    hide PlanOf, AllParagraphs, Use, UseFont, HasRunProperties, ParagraphName;
    PlanIsExact(bs);
    var styles := PlanOf(bs).paragraphStyles;
    assert styles[k] in styles;
    p :| p in AllParagraphs(bs) && p.alignment != Automatic && StyleOf(p) == styles[k];
    assert Position(styles, StyleOf(p)) == k;
  }

  lemma NamedHaveNames(bs: seq<Block>)
    ensures "" !in PlanOf(bs).namedParagraphStyles
  {
    hide PlanOf, AllParagraphs, Distinct, Use, UseFont, HasRunProperties;
    PlanIsExact(bs);
  }

  /** What is written of a paragraph resolves. */
  ghost predicate Resolves(plan: Plan, p: Paragraph) {
    PlannedParagraph(plan, p).Some? && ParagraphResolves(WrittenStyles(plan), PlannedParagraph(plan, p).value)
  }

  /** The styles of all paragraphs of a written document can be resolved exactly when the styles with an alignment that
      the document uses do not form a chain of 129 that goes on. */
  lemma DocumentNests(bs: seq<Block>)
    requires forall p :: p in AllParagraphs(bs) ==> PlannedParagraph(PlanOf(bs), p).Some?
    ensures (forall p :: p in AllParagraphs(bs) ==> Resolves(PlanOf(bs), p))
            <==> !NestTooDeep(ExplicitStyles(AllParagraphs(bs)))
  {
    hide PlanOf, AllParagraphs, ExplicitStyles, WrittenStyles, PlannedParagraph, ParagraphResolves, NestTooDeep, StartsChain,
         WrittenStyleName, GeneratedName, ParagraphName, TooDeep;
    var plan := PlanOf(bs);
    FirstUses(bs);
    NamedHaveNames(bs);
    ChainsStart(plan.paragraphStyles);
    forall p | p in AllParagraphs(bs)
      ensures Resolves(plan, p) <==> !StartsChain(plan.paragraphStyles, WrittenStyleName(p, GeneratedName(plan, p)))
    {
      WrittenResolves(plan, p);
      TooDeepIsChain(plan, WrittenStyleName(p, GeneratedName(plan, p)));
    }
    if k: nat :| k < |plan.paragraphStyles| && StartsChain(plan.paragraphStyles, ParagraphName(k)) {
      var p := StyleIsUsed(bs, k);
      assert !Resolves(plan, p);
    }
  }

  /** A paragraph that uses a style called IGDP1, in a document whose first explicit alignment is `first`. */
  function Clash(styleId: string): seq<Block> {
    [ParagraphBlock(EMPTY_PARAGRAPH.(styleId := "IGDP1")),
     ParagraphBlock(EMPTY_PARAGRAPH.(styleId := styleId, alignment := Center))]
  }

  /** The generated style replaces a named one of the same name: the paragraph takes over its alignment and its parent. */
  lemma NamesClash(styleId: string)
    ensures var p, plan := EMPTY_PARAGRAPH.(styleId := "IGDP1"), PlanOf(Clash(styleId));
            && p in AllParagraphs(Clash(styleId))
            && PlannedParagraph(plan, p).Some?
            && var read := ReadParagraph(WrittenStyles(plan), PlannedParagraph(plan, p).value);
               read.alignment == Center && read.styleId == styleId
  {
    hide PlanOf, ExplicitStyles, AllParagraphs, PlannedParagraph, WrittenStyles, ReadParagraph, Clash, NumberOf;
    ClashStyles(styleId);
    FirstUses(Clash(styleId));
    ParagraphRoundTrip(Clash(styleId), EMPTY_PARAGRAPH.(styleId := "IGDP1"));
    FirstName();
  }

  lemma ClashStyles(styleId: string)
    ensures EMPTY_PARAGRAPH.(styleId := "IGDP1") in AllParagraphs(Clash(styleId))
    ensures ExplicitStyles(AllParagraphs(Clash(styleId))) == [ParagraphStyle(styleId, Center)]
  {
    hide Concatenated, ExplicitStyles;
    var p, q := EMPTY_PARAGRAPH.(styleId := "IGDP1"), EMPTY_PARAGRAPH.(styleId := styleId, alignment := Center);
    OneMorePart([], ParagraphBlock(p), BlockParagraphs);
    OneMorePart([ParagraphBlock(p)], ParagraphBlock(q), BlockParagraphs);
    OneMoreStyle([], p);
    OneMoreStyle([p], q);
    assert Clash(styleId) == [ParagraphBlock(p)] + [ParagraphBlock(q)];
    assert AllParagraphs(Clash(styleId)) == [p] + [q];
  }

  lemma OneMorePart<T, U>(xs: seq<T>, x: T, parts: T -> seq<U>)
    ensures Concatenated(xs + [x], parts) == Concatenated(xs, parts) + parts(x)
    ensures xs == [] ==> xs + [x] == [x] && Concatenated([x], parts) == parts(x)
  {
    assert (xs + [x])[..|xs|] == xs;
    if xs == [] { assert xs + [x] == [x] && [] + parts(x) == parts(x); }
  }

  lemma OneMoreStyle(ps: seq<Paragraph>, p: Paragraph)
    ensures var before := ExplicitStyles(ps);
            ExplicitStyles(ps + [p]) == if p.alignment == Automatic || StyleOf(p) in before then before else before + [StyleOf(p)]
    ensures ps == [] ==> ps + [p] == [p] && ExplicitStyles(ps) == []
  {
    assert (ps + [p])[..|ps|] == ps;
    if ps == [] { assert ps + [p] == [p]; }
  }

  lemma FirstName()
    ensures NumberOf("IGDP1", 1) == Some(0)
  {
    assert ToText(1) == "1";
  }

  // ---------------------------------------------------------------- a chain of any length

  /** A centred paragraph whose style has the name that is generated for the next paragraph. */
  function Linked(k: nat): Paragraph { EMPTY_PARAGRAPH.(styleId := ParagraphName(k + 1), alignment := Center) }

  function LinkedParagraphs(n: nat): (ps: seq<Paragraph>)
    ensures |ps| == n && forall k :: 0 <= k < n ==> ps[k] == Linked(k)
  {
    seq(n, k requires 0 <= k < n => Linked(k))
  }

  function LinkedStyles(n: nat): (styles: seq<ParagraphStyle>)
    ensures |styles| == n && forall k :: 0 <= k < n ==> styles[k] == ParagraphStyle(ParagraphName(k + 1), Center)
  {
    seq(n, k requires 0 <= k < n => ParagraphStyle(ParagraphName(k + 1), Center))
  }

  function LinkedDocument(n: nat): (bs: seq<Block>)
    ensures |bs| == n && forall k :: 0 <= k < n ==> bs[k] == ParagraphBlock(Linked(k))
  {
    seq(n, k requires 0 <= k < n => ParagraphBlock(Linked(k)))
  }

  lemma {:induction false} LinkedParagraphsAre(n: nat)
    ensures AllParagraphs(LinkedDocument(n)) == LinkedParagraphs(n)
  {
    if n > 0 {
      hide Concatenated, Linked;
      var k := n - 1;
      LinkedParagraphsAre(k);
      assert LinkedDocument(n) == LinkedDocument(k) + [ParagraphBlock(Linked(k))];
      OneMorePart(LinkedDocument(k), ParagraphBlock(Linked(k)), BlockParagraphs);
      assert LinkedParagraphs(n) == LinkedParagraphs(k) + [Linked(k)];
    }
  }

  lemma NextLinked(k: nat)
    ensures LinkedParagraphs(k + 1) == LinkedParagraphs(k) + [Linked(k)]
    ensures LinkedStyles(k + 1) == LinkedStyles(k) + [StyleOf(Linked(k))]
    ensures StyleOf(Linked(k)) !in LinkedStyles(k)
  {
    hide ParagraphName;
    forall i | 0 <= i < k ensures LinkedStyles(k)[i] != StyleOf(Linked(k)) { NamesDiffer(i + 1, k + 1); }
  }

  lemma NoneLinked()
    ensures LinkedParagraphs(0) == [] && LinkedStyles(0) == []
  {
    hide ParagraphName;
  }

  lemma {:induction false} LinkedStylesAre(n: nat)
    ensures ExplicitStyles(LinkedParagraphs(n)) == LinkedStyles(n)
  {
    hide ParagraphName, LinkedParagraphs, LinkedStyles;
    if n == 0 {
      NoneLinked();
    } else {
      hide ExplicitStyles;
      var k := n - 1;
      LinkedStylesAre(k);
      NextLinked(k);
      OneMoreStyle(LinkedParagraphs(k), Linked(k));
    }
  }

  lemma {:induction false} DistinctFit(chain: seq<nat>, n: nat)
    requires Distinct(chain) && forall i :: 0 <= i < |chain| ==> chain[i] < n
    ensures |chain| <= n
    decreases n
  {
    if chain != [] {
      assert chain[0] < n;
      if i :| 0 <= i < |chain| && chain[i] == n - 1 {
        DistinctFit(chain[..i] + chain[i + 1..], n - 1);
      } else {
        DistinctFit(chain, n - 1);
      }
    }
  }

  /** Of the documents of linked paragraphs, exactly those of more than 128 have styles nested too deep. */
  lemma LinkedNest(n: nat)
    ensures NestTooDeep(ExplicitStyles(AllParagraphs(LinkedDocument(n)))) <==> n > MAXIMUM_SEMANTIC_NESTING_DEPTH
  {
    hide AllParagraphs, ExplicitStyles, ParagraphName;
    LinkedParagraphsAre(n);
    LinkedStylesAre(n);
    if n > MAXIMUM_SEMANTIC_NESTING_DEPTH {
      var chain: seq<nat> := seq(MAXIMUM_SEMANTIC_NESTING_DEPTH + 1, k => k);
      forall k | 0 <= k < n ensures LinkedStyles(n)[k].parent != "" { NameIsNotEmpty(k + 1); }
      assert IsOverlongChain(LinkedStyles(n), chain);
    }
    if chain :| IsOverlongChain(LinkedStyles(n), chain) { DistinctFit(chain, n); }
  }
}
