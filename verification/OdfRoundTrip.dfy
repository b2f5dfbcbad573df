/** A document validated, written under its own plan and read back, as the writer itself does before it commits
    a file. */
module OdfRoundTrip {
  import opened Wrappers
  import opened Unicode
  import opened XmlBytes
  import opened OdfStyles
  import opened OdfModel
  import opened OdfLists
  import opened OdfReader
  import opened OdfWriter
  import opened OdfPlan
  import opened OdfDocument

  // ---------------------------------------------------------------- what the writer accepts

  /** validateParagraph. */
  predicate ParagraphIsValid(p: Paragraph) {
    && (p.numberingId.Some? ==> p.numberingId.value >= 0)
    && (p.numberingContinuation ==> p.numberingId.Some?)
    && InRange(p) && RunsAreValid(p.runs)
  }

  ghost predicate ParagraphsAreValid(ps: seq<Paragraph>) {
    (forall k :: 0 <= k < |ps| ==> ParagraphIsValid(ps[k])) && (forall k :: 0 <= k < |ps| ==> Accepted(ps, k))
  }

  ghost predicate RowIsValid(r: Row) {
    r.cells != [] && forall k :: 0 <= k < |r.cells| ==> ParagraphsAreValid(r.cells[k].paragraphs)
  }

  ghost predicate TableIsValid(t: Table) { t.rows != [] && forall k :: 0 <= k < |t.rows| ==> RowIsValid(t.rows[k]) }

  /** A table ends the lists before it. */
  ghost predicate DocumentIsValid(bs: seq<Block>) {
    && (forall k :: 0 <= k < |bs| && bs[k].TableBlock? ==> TableIsValid(bs[k].table))
    && ParagraphsAreValid(AsParagraphs(bs))
  }

  method ValidateParagraphs(ps: seq<Paragraph>) returns (ok: bool)
    ensures ok <==> ParagraphsAreValid(ps)
  {
    hide ParagraphIsValid, Accepted;
    ok := ValidateNumberingContinuations(ps);
    ghost var accepted := ok;
    for k := 0 to |ps|
      invariant ok <==> accepted && forall i :: 0 <= i < k ==> ParagraphIsValid(ps[i])
    {
      ok := ok && ParagraphIsValid(ps[k]);
    }
  }

  method ValidateTable(t: Table) returns (ok: bool)
    ensures ok <==> TableIsValid(t)
  {
    hide ParagraphsAreValid;
    ok := t.rows != [];
    for i := 0 to |t.rows|
      invariant ok <==> t.rows != [] && forall k :: 0 <= k < i ==> RowIsValid(t.rows[k])
    {
      var row := t.rows[i];
      var valid := row.cells != [];
      for j := 0 to |row.cells|
        invariant valid <==> row.cells != [] && forall k :: 0 <= k < j ==> ParagraphsAreValid(row.cells[k].paragraphs)
      {
        var cell := ValidateParagraphs(row.cells[j].paragraphs);
        valid := valid && cell;
      }
      ok := ok && valid;
    }
  }

  /** validateDocument: paragraphs are collected until a table comes. */
  method ValidateDocument(bs: seq<Block>) returns (ok: bool)
    ensures ok <==> DocumentIsValid(bs)
  {
    hide ParagraphIsValid, Accepted, TableIsValid;
    ghost var ps := AsParagraphs(bs);
    var bodyParagraphs: seq<Paragraph> := [];
    var start := 0;
    ok := true;
    EmptyIsValid();
    for k := 0 to |bs|
      invariant 0 <= start <= k && bodyParagraphs == ps[start..k]
      invariant start > 0 ==> ps[start - 1].numberingId.None?
      invariant ok <==> && (forall i :: 0 <= i < k && bs[i].TableBlock? ==> TableIsValid(bs[i].table))
                        && (forall i :: 0 <= i < start ==> ParagraphIsValid(ps[i]) && Accepted(ps, i))
    {
      match bs[k] {
      case ParagraphBlock(p) =>
        assert ps[start..k + 1] == ps[start..k] + [p];
        bodyParagraphs := bodyParagraphs + [p];
      case TableBlock(t) =>
        assert ps[k + 1..k + 1] == [];
        StretchIsValid(ps, start, k);
        UnnumberedIsAccepted(ps, k);
        var paragraphs := ValidateParagraphs(bodyParagraphs);
        var table := ValidateTable(t);
        ok, bodyParagraphs, start := ok && paragraphs && table, [], k + 1;
      }
    }
    StretchIsValid(ps, start, |bs|);
    var paragraphs := ValidateParagraphs(bodyParagraphs);
    ok := ok && paragraphs;
  }

  lemma EmptyIsValid()
    ensures ParagraphIsValid(EMPTY_PARAGRAPH)
  {
  }

  lemma UnnumberedIsAccepted(ps: seq<Paragraph>, k: nat)
    requires k < |ps| && ps[k].numberingId.None?
    ensures Accepted(ps, k)
  {
  }

  /** After a paragraph without a number, the validator starts anew. */
  lemma StretchIsValid(ps: seq<Paragraph>, start: nat, end: nat)
    requires start <= end <= |ps| && (start > 0 ==> ps[start - 1].numberingId.None?)
    ensures ParagraphsAreValid(ps[start..end])
            <==> forall i :: start <= i < end ==> ParagraphIsValid(ps[i]) && Accepted(ps, i)
  {
    hide ParagraphIsValid, Accepted;
    var part := ps[start..end];
    forall k | 0 <= k < |part| ensures Accepted(part, k) == Accepted(ps, start + k) { AcceptedInPart(ps, start, end, k); }
    assert forall i :: start <= i < end ==> ps[i] == part[i - start];
    if ParagraphsAreValid(part) {
      forall i | start <= i < end ensures ParagraphIsValid(ps[i]) && Accepted(ps, i) {
        assert ParagraphIsValid(part[i - start]) && Accepted(part, i - start);
      }
    }
  }

  lemma AcceptedInPart(ps: seq<Paragraph>, start: nat, end: nat, k: nat)
    requires start <= end <= |ps| && k < end - start && (start > 0 ==> ps[start - 1].numberingId.None?)
    ensures Accepted(ps[start..end], k) == Accepted(ps, start + k)
  {
    var part, p := ps[start..end], ps[start + k];
    if p.numberingId.Some? {
      var id, level := p.numberingId.value, p.numberingLevel;
      if HasItem(part, k, id, level) {
        var j :| 0 <= j < k && ItemSince(part, j, k, id, level);
        ItemInPart(ps, start, end, j, k, id, level);
      }
      if HasItem(ps, start + k, id, level) {
        var j :| 0 <= j < start + k && ItemSince(ps, j, start + k, id, level);
        assert j >= start;
        ItemInPart(ps, start, end, j - start, k, id, level);
      }
    }
  }

  lemma ItemInPart(ps: seq<Paragraph>, start: nat, end: nat, j: nat, k: nat, id: int, level: int)
    requires start <= end <= |ps| && j < k < end - start
    ensures ItemSince(ps[start..end], j, k, id, level) == ItemSince(ps, start + j, start + k, id, level)
  {
    var part := ps[start..end];
    assert forall m :: 0 <= m < |part| ==> part[m] == ps[start + m];
    if ItemSince(part, j, k, id, level) {
      forall m | start + j <= m < start + k
        ensures ps[m].numberingId == Some(id)
        ensures m > start + j && InRange(ps[m]) && !ps[m].numberingContinuation ==> ps[m].numberingLevel >= level
      {
        assert part[m - start] == ps[m];
      }
    }
  }

  // ---------------------------------------------------------------- writing and reading whole documents

  /** How the plan has paragraphs written. */
  function Writer(plan: Plan): ParagraphWriter { (p: Paragraph) => PlannedParagraph(plan, p).GetOr(EMPTY_ELEMENT) }

  /** All texts are UTF-8 of XML characters. */
  ghost predicate DocumentIsWritable(bs: seq<Block>) { forall p :: p in AllParagraphs(bs) ==> AreWritable(p.runs) }

  /** What a file holds: the plan's styles and the body. */
  datatype Written = Written(plan: Plan, body: seq<BlockElement>)

  function WrittenDocument(bs: seq<Block>): Written { Written(PlanOf(bs), WrittenBody(Writer(PlanOf(bs)), bs)) }

  /** The texts that make the writer throw. */
  method CheckTexts(ps: seq<Paragraph>, plan: Plan) returns (ok: bool)
    ensures ok <==> forall p :: p in ps ==> AreWritable(p.runs)
  {
    hide WrittenRuns, HeadingLevel, AreWritable, GeneratedName, RunNames;
    ok := true;
    for k := 0 to |ps|
      invariant ok <==> forall i :: 0 <= i < k ==> AreWritable(ps[i].runs)
    {
      WritableRuns(ps[k].runs, RunNames(plan));
      var written := WriteParagraph(ps[k], GeneratedName(plan, ps[k]), RunNames(plan));
      ok := ok && written.Some?;
    }
  }

  /** Reading a file, a package or a flat document. */
  method ReadDocument(file: Written, flat: bool, maximumExpandedCharacters: nat) returns (r: Option<seq<Block>>)
    ensures var styles, text := WrittenStyles(file.plan), OfficeText(file.body);
            r == if TextFits(styles, text, maximumExpandedCharacters) then Some(ReadText(styles, text)) else None
  {
    hide TextFits, WrittenStyles, ReadText;
    var styles := ReadWrittenStyles(file.plan, flat);
    var text := OfficeText(file.body);
    OneText(styles, text);
    r := ParseBody(styles, [text], maximumExpandedCharacters);
    assert [text][0] == text;
  }

  lemma OneText(styles: StyleMap, text: BodyChild)
    ensures ReadBody(styles, [text]) == ReadText(styles, text)
  {
    assert [text][..0] == [] && ReadBody(styles, []) == [];
    assert [] + ReadText(styles, text) == ReadText(styles, text);
  }

  /** The writer up to its commit: it validates the document, writes it, and reads back what it wrote. */
  method WriteDocument(bs: seq<Block>, flat: bool, maximumExpandedCharacters: nat) returns (r: Option<Written>)
    ensures r.Some? <==> && DocumentIsValid(bs) && DocumentIsWritable(bs) && DocumentFits(bs)
                         && !NestTooDeep(ExplicitStyles(AllParagraphs(bs)))
                         && KeptCost(bs).items <= MAXIMUM_EXPANDED_ITEMS
                         && KeptCost(bs).characters <= maximumExpandedCharacters
    ensures r.Some? ==> r.value == WrittenDocument(bs)
                        && DocumentComesBack(bs, ReadText(WrittenStyles(PlanOf(bs)), OfficeText(r.value.body)))
  {
    hide DocumentIsValid, DocumentFits, NestTooDeep, ExplicitStyles, KeptCost, DocumentComesBack, TextFits, WrittenStyles, PlanOf,
         AllParagraphs, AreWritable, WrittenBody, Writer, ReadText;
    var valid := ValidateDocument(bs);
    if !valid { return None; }
    var writePlan := MakeWritePlan(bs);
    var plan := writePlan.View();
    var texts := CheckTexts(AllParagraphs(bs), plan);
    if !texts { return None; }
    DocumentRoundTrip(bs, maximumExpandedCharacters);
    var body := WriteBody(Writer(plan), bs);
    var back := ReadDocument(Written(plan, body), flat, maximumExpandedCharacters);
    if back.None? { return None; }
    return Some(Written(plan, body));
  }

  // ---------------------------------------------------------------- what it takes

  /** No run of spaces is longer than a million. */
  ghost predicate DocumentFits(bs: seq<Block>) {
    forall p, k :: p in AllParagraphs(bs) && 0 <= k < |p.runs| ==> RunFits(p.runs[k])
  }

  /** The cost of a run as it comes back: one item and its octets, or nothing without text. */
  function KeptRunCost(r: Run): Cost {
    match Decode(r.text)
    case None => FREE
    case Some(points) => if points == [] then FREE else Cost(1, |Encode(Unbroken(points))|)
  }

  function KeptParagraphCost(p: Paragraph): Cost { Cost(1, 0).Plus(Sum(p.runs, KeptRunCost)) }

  /** An empty cell comes back with an empty paragraph. */
  function KeptCellCost(c: Cell): Cost {
    if c.paragraphs == [] then Cost(2, 0) else Cost(1, 0).Plus(Sum(c.paragraphs, KeptParagraphCost))
  }

  function KeptRowCost(r: Row): Cost { Cost(1, 0).Plus(Sum(r.cells, KeptCellCost)) }

  function KeptBlockCost(b: Block): Cost {
    match b
    case ParagraphBlock(p) => KeptParagraphCost(p)
    case TableBlock(t) => Cost(1, 0).Plus(Sum(t.rows, KeptRowCost))
  }

  function KeptCost(bs: seq<Block>): Cost { Sum(bs, KeptBlockCost) }

  lemma {:induction false} SumAlike<S, T>(xs: seq<S>, ys: seq<T>, f: S -> Cost, g: T -> Cost)
    requires |xs| == |ys| && forall k :: 0 <= k < |xs| ==> f(xs[k]) == g(ys[k])
    ensures Sum(xs, f) == Sum(ys, g)
  {
    if xs != [] { SumAlike(xs[..|xs| - 1], ys[..|ys| - 1], f, g); }
  }

  lemma {:induction false} BackRunsCost(runs: seq<Run>)
    requires AreWritable(runs)
    ensures RunsCost(BackRuns(runs)) == Sum(runs, KeptRunCost)
  {
    if runs != [] {
      hide Sum, Decode, AllXmlScalars, KeptRunCost, BackRun;
      var first, rest := BackRun(runs[0]), BackRuns(runs[1..]);
      assert BackRuns(runs) == first + rest;
      hide BackRuns;
      assert RunsCost(first + rest) == RunsCost(first).Plus(RunsCost(rest)) by { SumConcat(first, rest, RunCost); }
      assert Sum(runs, KeptRunCost) == KeptRunCost(runs[0]).Plus(Sum(runs[1..], KeptRunCost)) by {
        assert [runs[0]] + runs[1..] == runs;
        SumConcat([runs[0]], runs[1..], KeptRunCost);
        SumOfOne(runs[0], KeptRunCost);
      }
      BackRunCost(runs[0]);
      BackRunsCost(runs[1..]);
    }
  }

  lemma BackRunCost(r: Run)
    requires Decode(r.text).Some?
    ensures RunsCost(BackRun(r)) == KeptRunCost(r)
  {
    hide Sum, Decode, Encode, Unbroken, BackProperties;
    NothingUnbroken(Decode(r.text).value);
    NoRuns();
    if BackRun(r) != [] { SumOfOne(BackRun(r)[0], RunCost); }
  }

  /** What is written of a paragraph comes back as planned, and is within the limits. */
  lemma WrittenComesBack(bs: seq<Block>, p: Paragraph)
    requires p in AllParagraphs(bs) && AreWritable(p.runs) && RunsAreValid(p.runs)
    ensures var plan := PlanOf(bs);
            && ReadParagraph(WrittenStyles(plan), Writer(plan)(p)) == BackParagraph(plan, p)
            && ParagraphCost(BackParagraph(plan, p)) == KeptParagraphCost(p)
            && (ParagraphReadable(Writer(plan)(p)) <==> forall k :: 0 <= k < |p.runs| ==> RunFits(p.runs[k]))
            && (ParagraphResolves(WrittenStyles(plan), Writer(plan)(p)) <==> Resolves(plan, p))
            && PlannedParagraph(plan, p).Some?
  {
    hide PlanOf, AllParagraphs, WrittenStyles, ReadParagraph, AreWritable, RunsAreValid, BackRuns, Sum, StyleInEffect,
         ParagraphReadable, ParagraphResolves, RunFits, WrittenParagraph, RunNames, GeneratedName;
    ParagraphRoundTrip(bs, p);
    BackRunsCost(p.runs);
    WrittenParagraphIsReadable(p, GeneratedName(PlanOf(bs), p), RunNames(PlanOf(bs)));
  }

  // ---------------------------------------------------------------- every paragraph of a document

  lemma InCells(cells: seq<Cell>, j: nat, k: nat)
    requires j < |cells| && k < |cells[j].paragraphs|
    ensures cells[j].paragraphs[k] in Concatenated(cells, CellParagraphs)
  {
    InConcatenated(cells, CellParagraphs, cells[j].paragraphs[k]);
    assert cells[j].paragraphs[k] in CellParagraphs(cells[j]);
  }

  lemma InTable(bs: seq<Block>, b: nat, i: nat, j: nat, k: nat)
    requires b < |bs| && bs[b].TableBlock? && i < |bs[b].table.rows|
    requires var cells := bs[b].table.rows[i].cells; j < |cells| && k < |cells[j].paragraphs|
    ensures bs[b].table.rows[i].cells[j].paragraphs[k] in AllParagraphs(bs)
  {
    var rows := bs[b].table.rows;
    var p := rows[i].cells[j].paragraphs[k];
    InCells(rows[i].cells, j, k);
    assert p in RowParagraphs(rows[i]);
    InConcatenated(rows, RowParagraphs, p);
    assert p in BlockParagraphs(bs[b]);
    InConcatenated(bs, BlockParagraphs, p);
  }

  lemma InBody(bs: seq<Block>, b: nat)
    requires b < |bs| && bs[b].ParagraphBlock?
    ensures bs[b].paragraph in AllParagraphs(bs)
  {
    assert bs[b].paragraph in BlockParagraphs(bs[b]);
    InConcatenated(bs, BlockParagraphs, bs[b].paragraph);
  }

  /** Every paragraph stands in the body or in a cell. */
  lemma Somewhere(bs: seq<Block>, p: Paragraph)
    requires p in AllParagraphs(bs)
    ensures || (exists b :: 0 <= b < |bs| && bs[b].ParagraphBlock? && bs[b].paragraph == p)
            || (exists b, i, j, k :: IsAt(bs, b, i, j, k, p))
  {
    hide Concatenated;
    InConcatenated(bs, BlockParagraphs, p);
    var b :| 0 <= b < |bs| && p in BlockParagraphs(bs[b]);
    if bs[b].TableBlock? {
      var rows := bs[b].table.rows;
      InConcatenated(rows, RowParagraphs, p);
      var i :| 0 <= i < |rows| && p in RowParagraphs(rows[i]);
      InConcatenated(rows[i].cells, CellParagraphs, p);
      var j :| 0 <= j < |rows[i].cells| && p in CellParagraphs(rows[i].cells[j]);
      var k :| 0 <= k < |rows[i].cells[j].paragraphs| && rows[i].cells[j].paragraphs[k] == p;
      assert IsAt(bs, b, i, j, k, p);
    }
  }

  ghost predicate IsAt(bs: seq<Block>, b: int, i: int, j: int, k: int, p: Paragraph) {
    && 0 <= b < |bs| && bs[b].TableBlock?
    && 0 <= i < |bs[b].table.rows|
    && 0 <= j < |bs[b].table.rows[i].cells|
    && 0 <= k < |bs[b].table.rows[i].cells[j].paragraphs|
    && bs[b].table.rows[i].cells[j].paragraphs[k] == p
  }

  /** The paragraphs of a valid document are valid. */
  lemma AllAreValid(bs: seq<Block>, p: Paragraph)
    requires DocumentIsValid(bs) && p in AllParagraphs(bs)
    ensures RunsAreValid(p.runs)
  {
    hide AllParagraphs, RunsAreValid, Accepted, InRange;
    Somewhere(bs, p);
    if b :| 0 <= b < |bs| && bs[b].ParagraphBlock? && bs[b].paragraph == p {
      assert AsParagraphs(bs)[b] == p && ParagraphIsValid(AsParagraphs(bs)[b]);
    } else {
      var b, i, j, k :| IsAt(bs, b, i, j, k, p);
      var row := bs[b].table.rows[i];
      assert TableIsValid(bs[b].table) && RowIsValid(row) && ParagraphsAreValid(row.cells[j].paragraphs);
      assert ParagraphIsValid(row.cells[j].paragraphs[k]);
    }
  }

  lemma FitsEverywhere(good: Demand, w: ParagraphWriter, bs: seq<Block>)
    ensures (forall b :: 0 <= b < |bs| ==> BlockFits(good, w, bs[b])) <==> forall p :: p in AllParagraphs(bs) ==> good(w(p))
  {
    hide AllParagraphs;
    if forall b :: 0 <= b < |bs| ==> BlockFits(good, w, bs[b]) {
      forall p | p in AllParagraphs(bs) ensures good(w(p)) {
        Somewhere(bs, p);
        if b :| 0 <= b < |bs| && bs[b].ParagraphBlock? && bs[b].paragraph == p {
          assert BlockFits(good, w, bs[b]);
        } else {
          var b, i, j, k :| IsAt(bs, b, i, j, k, p);
          assert BlockFits(good, w, bs[b]) && CellsFit(good, w, bs[b].table.rows[i].cells);
          assert CellFits(good, w, bs[b].table.rows[i].cells[j]);
        }
      }
    }
    if forall p :: p in AllParagraphs(bs) ==> good(w(p)) {
      forall b | 0 <= b < |bs| ensures BlockFits(good, w, bs[b]) { BlockFitsIn(good, w, bs, b); }
    }
  }

  lemma BlockFitsIn(good: Demand, w: ParagraphWriter, bs: seq<Block>, b: nat)
    requires b < |bs| && forall p :: p in AllParagraphs(bs) ==> good(w(p))
    ensures BlockFits(good, w, bs[b])
  {
    hide AllParagraphs;
    match bs[b] {
    case ParagraphBlock(p) =>
      InBody(bs, b);
    case TableBlock(t) =>
      forall i | 0 <= i < |t.rows| ensures CellsFit(good, w, t.rows[i].cells) {
        forall j | 0 <= j < |t.rows[i].cells| ensures CellFits(good, w, t.rows[i].cells[j]) {
          forall k | 0 <= k < |t.rows[i].cells[j].paragraphs| ensures good(w(t.rows[i].cells[j].paragraphs[k])) {
            InTable(bs, b, i, j, k);
          }
        }
      }
    }
  }

  // ---------------------------------------------------------------- the cost of what comes back

  /** The paragraph costs what is kept of it. */
  ghost predicate IsCounted(styles: StyleMap, w: ParagraphWriter, p: Paragraph) {
    ParagraphCost(ReadParagraph(styles, w(p))) == KeptParagraphCost(p)
  }

  lemma ParagraphCostBack(styles: StyleMap, w: ParagraphWriter, ps: seq<Paragraph>, k: nat, q: Paragraph, low: int, high: int)
    requires k < |ps| && ComesBack(styles, w, ps, k, q, low, high) && IsCounted(styles, w, ps[k])
    ensures ParagraphCost(q) == KeptParagraphCost(ps[k])
  {
    hide ReadParagraph, OpenIn, Level, KeptParagraphCost, RunsCost;
  }

  lemma CellCostBack(styles: StyleMap, w: ParagraphWriter, c: Cell, q: Cell, low: int, high: int)
    requires CellComesBack(styles, w, c, q, low, high) && ReadParagraph(styles, EMPTY_ELEMENT) == EMPTY_PARAGRAPH
    requires forall k :: 0 <= k < |c.paragraphs| ==> IsCounted(styles, w, c.paragraphs[k])
    ensures CellCost(q) == KeptCellCost(c)
  {
    hide ReadParagraph, ComesBack, SameLists, IsCounted, Sum;
    if c.paragraphs == [] {
      EmptyCellCost();
    } else {
      forall k | 0 <= k < |c.paragraphs| ensures ParagraphCost(q.paragraphs[k]) == KeptParagraphCost(c.paragraphs[k]) {
        ParagraphCostBack(styles, w, c.paragraphs, k, q.paragraphs[k], low, high);
      }
      SumAlike(q.paragraphs, c.paragraphs, ParagraphCost, KeptParagraphCost);
    }
  }

  lemma RowCostBack(styles: StyleMap, w: ParagraphWriter, r: Row, q: Row, low: int, high: int)
    requires CellsComeBack(styles, w, r.cells, q.cells, low, high) && ReadParagraph(styles, EMPTY_ELEMENT) == EMPTY_PARAGRAPH
    requires forall j, k :: 0 <= j < |r.cells| && 0 <= k < |r.cells[j].paragraphs| ==>
               IsCounted(styles, w, r.cells[j].paragraphs[k])
    ensures RowCost(q) == KeptRowCost(r)
  {
    hide ReadParagraph, CellComesBack, IsCounted, Sum, CellCost, KeptCellCost;
    forall j | 0 <= j < |r.cells| ensures CellCost(q.cells[j]) == KeptCellCost(r.cells[j]) {
      CellCostBack(styles, w, r.cells[j], q.cells[j], low, high);
    }
    SumAlike(q.cells, r.cells, CellCost, KeptCellCost);
  }

  lemma BlockCostBack(styles: StyleMap, w: ParagraphWriter, bs: seq<Block>, b: nat, q: Block, low: int, high: int)
    requires b < |bs| && BlockComesBack(styles, w, bs, b, q, low, high) && ReadParagraph(styles, EMPTY_ELEMENT) == EMPTY_PARAGRAPH
    requires forall p :: p in AllParagraphs(bs) ==> IsCounted(styles, w, p)
    ensures BlockCost(q) == KeptBlockCost(bs[b])
  {
    hide ReadParagraph, CellsComeBack, ComesBack, IsCounted, Sum, RowCost, KeptRowCost, ParagraphCost, KeptParagraphCost,
         AllParagraphs;
    match bs[b] {
    case ParagraphBlock(p) =>
      InBody(bs, b);
      ParagraphCostBack(styles, w, AsParagraphs(bs), b, q.paragraph, low, high);
    case TableBlock(t) =>
      forall i | 0 <= i < |t.rows| ensures RowCost(q.table.rows[i]) == KeptRowCost(t.rows[i]) {
        forall j, k | 0 <= j < |t.rows[i].cells| && 0 <= k < |t.rows[i].cells[j].paragraphs|
          ensures IsCounted(styles, w, t.rows[i].cells[j].paragraphs[k])
        {
          InTable(bs, b, i, j, k);
        }
        RowCostBack(styles, w, t.rows[i], q.table.rows[i], low, high);
      }
      SumAlike(q.table.rows, t.rows, RowCost, KeptRowCost);
    }
  }

  lemma BodyCostBack(styles: StyleMap, w: ParagraphWriter, bs: seq<Block>, out: seq<Block>, low: int, high: int)
    requires BodyComesBack(styles, w, bs, out, low, high) && ReadParagraph(styles, EMPTY_ELEMENT) == EMPTY_PARAGRAPH
    requires forall p :: p in AllParagraphs(bs) ==> IsCounted(styles, w, p)
    ensures BlocksCost(out) == KeptCost(bs)
  {
    hide ReadParagraph, BlockComesBack, IsCounted, Sum, BlockCost, KeptBlockCost, AllParagraphs;
    forall b | 0 <= b < |bs| ensures BlockCost(out[b]) == KeptBlockCost(bs[b]) {
      BlockCostBack(styles, w, bs, b, out[b], low, high);
    }
    SumAlike(out, bs, BlockCost, KeptBlockCost);
  }

  lemma EmptyElementBack(bs: seq<Block>)
    ensures ReadParagraph(WrittenStyles(PlanOf(bs)), EMPTY_ELEMENT) == EMPTY_PARAGRAPH
  {
    hide PlanOf, AllParagraphs, WrittenStyles, Resolve, ApplyStyle, NumberOf, Distinct, Use, UseFont, HasRunProperties;
    PlanIsExact(bs);
    ReservedNames("", |PlanOf(bs).paragraphStyles|);
    HeadingHasName("");
    ResolvedUnder(PlanOf(bs), "");
  }

  lemma EmptyElementResolves(bs: seq<Block>)
    ensures ParagraphResolves(WrittenStyles(PlanOf(bs)), EMPTY_ELEMENT)
  {
    hide PlanOf, WrittenStyles, TooDeep, ParagraphName;
    NamedHaveNames(bs);
    TooDeepIsChain(PlanOf(bs), "");
    forall k: nat ensures ParagraphName(k) != "" { NameIsNotEmpty(k); }
    assert !StartsChain(PlanOf(bs).paragraphStyles, "");
    assert EMPTY_ELEMENT.styleName == "" && InlinesResolve(WrittenStyles(PlanOf(bs)), EMPTY_ELEMENT.content);
  }

  // ---------------------------------------------------------------- the round trip

  /** What a document reads back as: block for block and cell for cell, every paragraph with its kept style,
      alignment and runs, and the same lists. */
  ghost predicate DocumentComesBack(bs: seq<Block>, out: seq<Block>) {
    var plan := PlanOf(bs);
    var styles, w := WrittenStyles(plan), Writer(plan);
    && (exists high :: BodyComesBack(styles, w, bs, out, 1, high))
    && SameLists(AsParagraphs(bs), AsParagraphs(out))
    && ReadParagraph(styles, EMPTY_ELEMENT) == EMPTY_PARAGRAPH
    && (forall p :: p in AllParagraphs(bs) && AreWritable(p.runs) ==> ReadParagraph(styles, w(p)) == BackParagraph(plan, p))
  }

  /** A document that the writer accepts can be read exactly when no run of spaces in it is too long, its styles do not
      nest too deep and what is kept of it is within both limits, and then it comes back. */
  lemma DocumentRoundTrip(bs: seq<Block>, maximumExpandedCharacters: nat)
    requires DocumentIsValid(bs) && DocumentIsWritable(bs)
    ensures var styles, text := WrittenStyles(PlanOf(bs)), OfficeText(WrittenDocument(bs).body);
            && (TextFits(styles, text, maximumExpandedCharacters)
                <==> DocumentFits(bs) && !NestTooDeep(ExplicitStyles(AllParagraphs(bs)))
                                      && KeptCost(bs).items <= MAXIMUM_EXPANDED_ITEMS
                                      && KeptCost(bs).characters <= maximumExpandedCharacters)
            && DocumentComesBack(bs, ReadText(styles, text))
  {
    hide DocumentIsValid, DocumentIsWritable, WrittenStyles, PlanOf, AllParagraphs, AreWritable, RunsAreValid, WrittenBody, Writer,
         ReadBlocks, ReadParagraph, BackParagraph, BlocksCost, KeptCost, BodyComesBack, SameLists, BlocksReadable, BlocksResolve,
         DocumentFits, NestTooDeep, ExplicitStyles;
    var plan := PlanOf(bs);
    var styles, w := WrittenStyles(plan), Writer(plan);
    forall p | p in AllParagraphs(bs)
      ensures AreWritable(p.runs) && ReadParagraph(styles, w(p)) == BackParagraph(plan, p)
      ensures IsCounted(styles, w, p)
    {
      TextsAreWritable(bs, p);
      AllAreValid(bs, p);
      WrittenComesBack(bs, p);
    }
    EmptyElementBack(bs);
    BodyRoundTrip(styles, w, bs, NO_LISTS);
    BodyCostBack(styles, w, bs, ReadBlocks(styles, WrittenBody(w, bs), NO_LISTS).0, 1,
                 ReadBlocks(styles, WrittenBody(w, bs), NO_LISTS).1.nextListIdentifier);
    WrittenDocumentFits(bs);
  }

  /** Which written documents meet the limits of their paragraphs and of their styles. */
  lemma WrittenDocumentFits(bs: seq<Block>)
    requires DocumentIsValid(bs) && DocumentIsWritable(bs)
    ensures BlocksReadable(WrittenDocument(bs).body, 0) <==> DocumentFits(bs)
    ensures BlocksResolve(WrittenStyles(PlanOf(bs)), WrittenDocument(bs).body)
            <==> !NestTooDeep(ExplicitStyles(AllParagraphs(bs)))
  {
    hide DocumentIsValid, DocumentIsWritable, WrittenStyles, PlanOf, AllParagraphs, AreWritable, RunsAreValid, WrittenBody, Writer,
         BlocksReadable, BlocksResolve, BlockFits, ParagraphReadable, ParagraphResolves, RunFits, Resolves, NestTooDeep,
         ExplicitStyles, PlannedParagraph, BackParagraph, ReadParagraph;
    var plan := PlanOf(bs);
    var styles, w := WrittenStyles(plan), Writer(plan);
    forall p | p in AllParagraphs(bs)
      ensures ParagraphReadable(w(p)) <==> forall k :: 0 <= k < |p.runs| ==> RunFits(p.runs[k])
      ensures PlannedParagraph(plan, p).Some? && (Resolving(styles)(w(p)) <==> Resolves(plan, p))
    {
      TextsAreWritable(bs, p);
      AllAreValid(bs, p);
      WrittenComesBack(bs, p);
    }
    EmptyElementResolves(bs);
    WrittenBodyFits(styles, w, bs);
    FitsEverywhere(ParagraphReadable, w, bs);
    FitsEverywhere(Resolving(styles), w, bs);
    DocumentNests(bs);
  }

  lemma TextsAreWritable(bs: seq<Block>, p: Paragraph)
    requires DocumentIsWritable(bs) && p in AllParagraphs(bs)
    ensures AreWritable(p.runs)
  {
    hide AllParagraphs, AreWritable;
  }

  // ---------------------------------------------------------------- a chain of styles

  lemma {:induction false} LinkedCost(n: nat)
    ensures KeptCost(LinkedDocument(n)) == Cost(n, 0)
  {
    if n > 0 {
      hide Linked, Sum, KeptParagraphCost;
      var k := n - 1;
      assert LinkedDocument(n) == LinkedDocument(k) + [ParagraphBlock(Linked(k))];
      hide LinkedDocument;
      LinkedCost(k);
      SumOfOneMore(LinkedDocument(k), ParagraphBlock(Linked(k)), KeptBlockCost);
      LinkedCostsOne(k);
    }
  }

  lemma LinkedCostsOne(k: nat)
    ensures KeptParagraphCost(Linked(k)) == Cost(1, 0)
  {
    hide Linked;
    LinkedIsPlain(k);
  }

  lemma LinkedIsPlain(k: nat)
    ensures Linked(k).runs == [] && Linked(k).numberingId.None? && ParagraphIsValid(Linked(k))
  {
    hide ParagraphName;
  }

  lemma LinkedAreValid(n: nat)
    ensures DocumentIsValid(LinkedDocument(n)) && DocumentIsWritable(LinkedDocument(n)) && DocumentFits(LinkedDocument(n))
  {
    hide AllParagraphs, ParagraphIsValid, Linked, Accepted;
    LinkedParagraphsAre(n);
    forall k: nat ensures Linked(k).runs == [] && Linked(k).numberingId.None? && ParagraphIsValid(Linked(k)) { LinkedIsPlain(k); }
    var ps := AsParagraphs(LinkedDocument(n));
    forall k | 0 <= k < n ensures ParagraphIsValid(ps[k]) && Accepted(ps, k) { UnnumberedIsAccepted(ps, k); }
  }

  /** Valid paragraphs with nothing in them can be too deep for the reader: each style is generated, and has the next
      one as its parent. Exactly 128 such paragraphs can still be written. */
  lemma LinkedDocumentsFit(n: nat, maximumExpandedCharacters: nat)
    ensures DocumentIsValid(LinkedDocument(n)) && DocumentIsWritable(LinkedDocument(n)) && DocumentFits(LinkedDocument(n))
    ensures var bs := LinkedDocument(n);
            TextFits(WrittenStyles(PlanOf(bs)), OfficeText(WrittenDocument(bs).body), maximumExpandedCharacters)
            <==> n <= MAXIMUM_SEMANTIC_NESTING_DEPTH
  {
    hide DocumentIsValid, DocumentIsWritable, DocumentFits, NestTooDeep, ExplicitStyles, AllParagraphs, KeptCost, LinkedDocument,
         TextFits, DocumentComesBack, ReadText, WrittenStyles, WrittenBody, PlanOf;
    LinkedAreValid(n);
    LinkedCost(n);
    LinkedNest(n);
    DocumentRoundTrip(LinkedDocument(n), maximumExpandedCharacters);
  }
}
