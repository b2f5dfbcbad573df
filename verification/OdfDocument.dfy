/** Whole documents: a body of paragraphs, lists and tables, written and read back. */
module OdfDocument {
  import opened Wrappers
  import opened OdfStyles
  import opened OdfModel
  import opened OdfLists
  import opened OdfReader

  // ---------------------------------------------------------------- writing

  /** An empty text:p. */
  const EMPTY_ELEMENT := ParagraphElement(false, "", None, [])

  function WrittenCell(w: ParagraphWriter, c: Cell): RowChild {
    TableCell(Absent, if c.paragraphs == [] then [CellParagraph(EMPTY_ELEMENT)] else WrittenSequence(w, c.paragraphs))
  }

  function WrittenCells(w: ParagraphWriter, cells: seq<Cell>): seq<RowChild> {
    if cells == [] then [] else [WrittenCell(w, cells[0])] + WrittenCells(w, cells[1..])
  }

  function WrittenRows(w: ParagraphWriter, rows: seq<Row>): seq<TableChild> {
    if rows == [] then [] else [TableRow(Absent, WrittenCells(w, rows[0].cells))] + WrittenRows(w, rows[1..])
  }

  /** writeTable: a table:table-column, then the rows. */
  function WrittenTable(w: ParagraphWriter, t: Table): seq<TableChild> { [OtherTableChild] + WrittenRows(w, t.rows) }

  /** The paragraphs of a body; a table separates lists like a paragraph without a number. */
  function AsParagraphs(bs: seq<Block>): (ps: seq<Paragraph>)
    ensures |ps| == |bs|
    ensures forall i :: 0 <= i < |bs| ==> ps[i] == if bs[i].ParagraphBlock? then bs[i].paragraph else EMPTY_PARAGRAPH
  {
    seq(|bs|, i requires 0 <= i < |bs| => if bs[i].ParagraphBlock? then bs[i].paragraph else EMPTY_PARAGRAPH)
  }

  /** One turn of the loop of writeBody, and how many blocks it takes. */
  function FirstElement(w: ParagraphWriter, bs: seq<Block>): (r: (BlockElement, nat))
    requires bs != []
    ensures 1 <= r.1 <= |bs|
  {
    if bs[0].TableBlock? then (BlockTable(WrittenTable(w, bs[0].table)), 1)
    else if bs[0].paragraph.numberingId.None? then (BlockParagraph(w(bs[0].paragraph)), 1)
    else
      var n := GroupLength(AsParagraphs(bs));
      (BlockList(WrittenList(w, AsParagraphs(bs[..n]))), n)
  }

  function WrittenBody(w: ParagraphWriter, bs: seq<Block>): seq<BlockElement>
    decreases |bs|
  {
    if bs == [] then []
    else
      var (element, n) := FirstElement(w, bs);
      [element] + WrittenBody(w, bs[n..])
  }

  /** The loop of writeTable over the cells of a row. */
  method WriteCells(w: ParagraphWriter, cells: seq<Cell>) returns (children: seq<RowChild>)
    ensures children == WrittenCells(w, cells)
  {
    children := [];
    assert cells[0..] == cells && [] + WrittenCells(w, cells) == WrittenCells(w, cells);
    for k := 0 to |cells|
      invariant children + WrittenCells(w, cells[k..]) == WrittenCells(w, cells)
    {
      assert cells[k..][0] == cells[k] && cells[k..][1..] == cells[k + 1..];
      Regrouped(children, [WrittenCell(w, cells[k])], WrittenCells(w, cells[k + 1..]));
      var content := [CellParagraph(EMPTY_ELEMENT)];
      if cells[k].paragraphs != [] { content := WriteParagraphSequence(w, cells[k].paragraphs); }
      children := children + [TableCell(Absent, content)];
    }
    assert cells[|cells|..] == [] && children + [] == children;
  }

  method WriteTable(w: ParagraphWriter, t: Table) returns (children: seq<TableChild>)
    ensures children == WrittenTable(w, t)
  {
    hide WrittenCells;
    children := [OtherTableChild];
    assert t.rows[0..] == t.rows;
    for k := 0 to |t.rows|
      invariant children + WrittenRows(w, t.rows[k..]) == WrittenTable(w, t)
    {
      assert t.rows[k..][0] == t.rows[k] && t.rows[k..][1..] == t.rows[k + 1..];
      var cells := WriteCells(w, t.rows[k].cells);
      Regrouped(children, [TableRow(Absent, cells)], WrittenRows(w, t.rows[k + 1..]));
      children := children + [TableRow(Absent, cells)];
    }
    assert t.rows[|t.rows|..] == [] && children + [] == children;
  }

  /** The inner loop of writeBody. */
  method CollectBlocks(bs: seq<Block>, index: nat) returns (group: seq<Paragraph>, next: nat)
    requires index < |bs| && bs[index].ParagraphBlock? && bs[index].paragraph.numberingId.Some?
    ensures next == index + GroupLength(AsParagraphs(bs[index..])) && next <= |bs|
    ensures group == AsParagraphs(bs[index..next])
  {
    var identifier := bs[index].paragraph.numberingId;
    group, next := [], index;
    while next < |bs| && bs[next].ParagraphBlock? && bs[next].paragraph.numberingId == identifier
      invariant index <= next <= |bs| && group == AsParagraphs(bs[index..next])
      invariant forall i :: index <= i < next ==> bs[i].ParagraphBlock? && bs[i].paragraph.numberingId == identifier
    {
      assert AsParagraphs(bs[index..next + 1]) == AsParagraphs(bs[index..next]) + [bs[next].paragraph];
      group := group + [bs[next].paragraph];
      next := next + 1;
    }
    var ps := AsParagraphs(bs[index..]);
    forall i | 0 <= i < next - index ensures ps[i].numberingId == identifier { assert bs[index..][i] == bs[index + i]; }
    assert next < |bs| ==> bs[index..][next - index] == bs[next];
    GroupLengthIs(ps, next - index);
  }

  method WriteElement(w: ParagraphWriter, bs: seq<Block>, index: nat) returns (element: BlockElement, next: nat)
    requires index < |bs|
    ensures (element, next - index) == FirstElement(w, bs[index..])
  {
    hide GroupLength, WrittenLevel, WrittenTable;
    var rest := bs[index..];
    assert rest[0] == bs[index];
    if bs[index].TableBlock? {
      var children := WriteTable(w, bs[index].table);
      return BlockTable(children), index + 1;
    }
    if bs[index].paragraph.numberingId.None? { return BlockParagraph(w(bs[index].paragraph)), index + 1; }
    var group;
    group, next := CollectBlocks(bs, index);
    assert rest[..next - index] == bs[index..next];
    assert group[0] == bs[index].paragraph;
    var list, end := WriteListLevel(w, group, 0, 0, GeneratedListStyle(group[0].numberingId.value));
    element := BlockList(list);
  }

  /** writeBody. */
  method WriteBody(w: ParagraphWriter, bs: seq<Block>) returns (elements: seq<BlockElement>)
    ensures elements == WrittenBody(w, bs)
  {
    hide FirstElement;
    elements := [];
    var blockIndex: nat := 0;
    assert bs[0..] == bs && [] + WrittenBody(w, bs) == WrittenBody(w, bs);
    while blockIndex < |bs|
      invariant blockIndex <= |bs|
      invariant elements + WrittenBody(w, bs[blockIndex..]) == WrittenBody(w, bs)
      decreases |bs| - blockIndex
    {
      var element, next := WriteElement(w, bs, blockIndex);
      elements, blockIndex := elements + [element], next;
    }
    assert bs[blockIndex..] == [] && elements + [] == elements;
  }

  // ---------------------------------------------------------------- what comes back

  /** An empty cell comes back with one empty paragraph, any other with its paragraphs. */
  ghost predicate CellComesBack(styles: StyleMap, w: ParagraphWriter, c: Cell, q: Cell, low: int, high: int) {
    if c.paragraphs == [] then q.paragraphs == [ReadParagraph(styles, EMPTY_ELEMENT)]
    else AllComeBack(styles, w, c.paragraphs, q.paragraphs, low, high) && SameLists(c.paragraphs, q.paragraphs)
  }

  ghost predicate CellsComeBack(styles: StyleMap, w: ParagraphWriter, cs: seq<Cell>, qs: seq<Cell>, low: int, high: int) {
    |qs| == |cs| && forall k :: 0 <= k < |cs| ==> CellComesBack(styles, w, cs[k], qs[k], low, high)
  }

  ghost predicate RowsComeBack(styles: StyleMap, w: ParagraphWriter, rs: seq<Row>, qs: seq<Row>, low: int, high: int) {
    |qs| == |rs| && forall k :: 0 <= k < |rs| ==> CellsComeBack(styles, w, rs[k].cells, qs[k].cells, low, high)
  }

  ghost predicate BlockComesBack(styles: StyleMap, w: ParagraphWriter, bs: seq<Block>, k: nat, q: Block, low: int, high: int)
    requires k < |bs|
  {
    match bs[k]
    case TableBlock(t) => q.TableBlock? && RowsComeBack(styles, w, t.rows, q.table.rows, low, high)
    case ParagraphBlock(p) => q.ParagraphBlock? && ComesBack(styles, w, AsParagraphs(bs), k, q.paragraph, low, high)
  }

  ghost predicate BodyComesBack(styles: StyleMap, w: ParagraphWriter, bs: seq<Block>, out: seq<Block>, low: int, high: int) {
    |out| == |bs| && forall k :: 0 <= k < |bs| ==> BlockComesBack(styles, w, bs, k, out[k], low, high)
  }

  // ---------------------------------------------------------------- wider ranges of identifiers

  lemma ComeBackWider(styles: StyleMap, w: ParagraphWriter, ps: seq<Paragraph>, out: seq<Paragraph>,
                      low: int, high: int, lower: int, higher: int)
    requires AllComeBack(styles, w, ps, out, low, high) && lower <= low && high <= higher
    ensures AllComeBack(styles, w, ps, out, lower, higher)
  {
    hide ReadParagraph, OpenIn;
    forall k | 0 <= k < |ps| ensures ComesBack(styles, w, ps, k, out[k], lower, higher) {
      assert ComesBack(styles, w, ps, k, out[k], low, high);
    }
  }

  lemma CellWider(styles: StyleMap, w: ParagraphWriter, c: Cell, q: Cell, low: int, high: int, lower: int, higher: int)
    requires CellComesBack(styles, w, c, q, low, high) && lower <= low && high <= higher
    ensures CellComesBack(styles, w, c, q, lower, higher)
  {
    hide AllComeBack, SameLists, ReadParagraph;
    if c.paragraphs != [] { ComeBackWider(styles, w, c.paragraphs, q.paragraphs, low, high, lower, higher); }
  }

  lemma CellsWider(styles: StyleMap, w: ParagraphWriter, cs: seq<Cell>, qs: seq<Cell>, low: int, high: int, lower: int, higher: int)
    requires CellsComeBack(styles, w, cs, qs, low, high) && lower <= low && high <= higher
    ensures CellsComeBack(styles, w, cs, qs, lower, higher)
  {
    hide CellComesBack;
    forall k | 0 <= k < |cs| ensures CellComesBack(styles, w, cs[k], qs[k], lower, higher) {
      CellWider(styles, w, cs[k], qs[k], low, high, lower, higher);
    }
  }

  lemma RowsWider(styles: StyleMap, w: ParagraphWriter, rs: seq<Row>, qs: seq<Row>, low: int, high: int, lower: int, higher: int)
    requires RowsComeBack(styles, w, rs, qs, low, high) && lower <= low && high <= higher
    ensures RowsComeBack(styles, w, rs, qs, lower, higher)
  {
    hide CellsComeBack;
    forall k | 0 <= k < |rs| ensures CellsComeBack(styles, w, rs[k].cells, qs[k].cells, lower, higher) {
      CellsWider(styles, w, rs[k].cells, qs[k].cells, low, high, lower, higher);
    }
  }

  // ---------------------------------------------------------------- tables

  lemma OneCell(styles: StyleMap, w: ParagraphWriter, c: Cell, s: ListState)
    ensures var (read, after) := ReadRowChild(styles, WrittenCell(w, c), s);
            && |read| == 1 && s.nextListIdentifier <= after.nextListIdentifier
            && CellComesBack(styles, w, c, read[0], s.nextListIdentifier, after.nextListIdentifier)
  {
    hide ReadParagraph, AllComeBack, SameLists, WrittenSequence;
    if c.paragraphs == [] {
      var content: seq<CellChild> := [CellParagraph(EMPTY_ELEMENT)];
      var read := [ReadParagraph(styles, EMPTY_ELEMENT)];
      assert content[1..] == [] && read + [] == read;
      assert ReadCellContent(styles, [], s) == ([], s);
      assert ReadCellContent(styles, content, s) == (read + [], s);
      assert Copies(Cell(read), 1) == [Cell(read)];
    } else {
      hide ReadCellContent;
      SequenceRoundTrip(styles, w, c.paragraphs, s);
      AsManyParagraphs(styles, w, c.paragraphs, ReadCellContent(styles, WrittenSequence(w, c.paragraphs), s).0,
                       s.nextListIdentifier, ReadCellContent(styles, WrittenSequence(w, c.paragraphs), s).1.nextListIdentifier);
    }
  }

  lemma AsManyParagraphs(styles: StyleMap, w: ParagraphWriter, ps: seq<Paragraph>, out: seq<Paragraph>, low: int, high: int)
    requires AllComeBack(styles, w, ps, out, low, high)
    ensures |out| == |ps|
  {
  }

  lemma CellsJoin(styles: StyleMap, w: ParagraphWriter, cells: seq<Cell>, q: Cell, qs: seq<Cell>, low: int, middle: int, high: int)
    requires cells != [] && low <= middle <= high
    requires CellComesBack(styles, w, cells[0], q, low, middle) && CellsComeBack(styles, w, cells[1..], qs, middle, high)
    ensures CellsComeBack(styles, w, cells, [q] + qs, low, high)
  {
    hide CellComesBack;
    CellWider(styles, w, cells[0], q, low, middle, low, high);
    CellsWider(styles, w, cells[1..], qs, middle, high, low, high);
  }

  lemma {:induction false} CellsBack(styles: StyleMap, w: ParagraphWriter, cells: seq<Cell>, s: ListState)
    ensures var (out, after) := ReadRow(styles, WrittenCells(w, cells), s);
            && s.nextListIdentifier <= after.nextListIdentifier
            && CellsComeBack(styles, w, cells, out, s.nextListIdentifier, after.nextListIdentifier)
  {
    if cells != [] {
      hide WrittenCell, ReadRowChild, CellComesBack, CellsComeBack;
      var first, rest := WrittenCell(w, cells[0]), WrittenCells(w, cells[1..]);
      assert ([first] + rest)[1..] == rest;
      OneCell(styles, w, cells[0], s);
      var (read, between) := ReadRowChild(styles, first, s);
      CellsBack(styles, w, cells[1..], between);
      var (out, after) := ReadRow(styles, rest, between);
      CellsJoin(styles, w, cells, read[0], out, s.nextListIdentifier, between.nextListIdentifier, after.nextListIdentifier);
      assert read == [read[0]];
    }
  }

  lemma {:induction false} RowsBack(styles: StyleMap, w: ParagraphWriter, rows: seq<Row>, s: ListState)
    ensures var (out, after) := ReadTable(styles, WrittenRows(w, rows), s);
            && s.nextListIdentifier <= after.nextListIdentifier
            && RowsComeBack(styles, w, rows, out, s.nextListIdentifier, after.nextListIdentifier)
  {
    if rows != [] {
      hide WrittenCells, ReadRow, CellsComeBack;
      var cells := WrittenCells(w, rows[0].cells);
      var rest := WrittenRows(w, rows[1..]);
      assert ([TableRow(Absent, cells)] + rest)[1..] == rest;
      CellsBack(styles, w, rows[0].cells, s);
      var (read, between) := ReadRow(styles, cells, s);
      assert Copies(Row(read), 1) == [Row(read)];
      RowsBack(styles, w, rows[1..], between);
      var (out, after) := ReadTable(styles, rest, between);
      CellsWider(styles, w, rows[0].cells, read, s.nextListIdentifier, between.nextListIdentifier,
                 s.nextListIdentifier, after.nextListIdentifier);
      RowsWider(styles, w, rows[1..], out, between.nextListIdentifier, after.nextListIdentifier,
                s.nextListIdentifier, after.nextListIdentifier);
    }
  }

  lemma TableBack(styles: StyleMap, w: ParagraphWriter, t: Table, s: ListState)
    ensures var (out, after) := ReadTable(styles, WrittenTable(w, t), s);
            && s.nextListIdentifier <= after.nextListIdentifier
            && RowsComeBack(styles, w, t.rows, out, s.nextListIdentifier, after.nextListIdentifier)
  {
    hide RowsComeBack, WrittenRows;
    var rest := WrittenRows(w, t.rows);
    assert ([OtherTableChild] + rest)[1..] == rest;
    RowsBack(styles, w, t.rows, s);
    assert [] + ReadTable(styles, rest, s).0 == ReadTable(styles, rest, s).0;
  }

  // ---------------------------------------------------------------- bodies

  lemma AsParagraphsOfParts(a: seq<Block>, b: seq<Block>)
    ensures AsParagraphs(a + b) == AsParagraphs(a) + AsParagraphs(b)
  {
  }

  /** A list at the end of one part does not go on in the next. */
  predicate Separate(a: seq<Paragraph>, b: seq<Paragraph>) {
    a != [] && b != [] && a[|a| - 1].numberingId.Some? ==> a[|a| - 1].numberingId != b[0].numberingId
  }

  lemma BlockInFront(styles: StyleMap, w: ParagraphWriter, a: seq<Block>, b: seq<Block>, k: nat, q: Block,
                     low: int, middle: int, high: int)
    requires k < |a| && middle <= high && BlockComesBack(styles, w, a, k, q, low, middle)
    ensures BlockComesBack(styles, w, a + b, k, q, low, high)
  {
    hide ComesBack, RowsComeBack;
    AsParagraphsOfParts(a, b);
    assert (a + b)[k] == a[k];
    if a[k].TableBlock? {
      RowsWider(styles, w, a[k].table.rows, q.table.rows, low, middle, low, high);
    } else {
      ComesBackInFront(styles, w, AsParagraphs(a), AsParagraphs(b), k, q.paragraph, low, middle, high);
    }
  }

  lemma BlockBehind(styles: StyleMap, w: ParagraphWriter, a: seq<Block>, b: seq<Block>, k: nat, q: Block,
                    low: int, middle: int, high: int)
    requires a != [] && k < |b| && low <= middle && BlockComesBack(styles, w, b, k, q, middle, high)
    requires Separate(AsParagraphs(a), AsParagraphs(b))
    ensures BlockComesBack(styles, w, a + b, |a| + k, q, low, high)
  {
    hide ComesBack, RowsComeBack;
    AsParagraphsOfParts(a, b);
    assert (a + b)[|a| + k] == b[k];
    if b[k].TableBlock? {
      RowsWider(styles, w, b[k].table.rows, q.table.rows, middle, high, low, high);
    } else {
      ComesBackBehind(styles, w, AsParagraphs(a), AsParagraphs(b), k, q.paragraph, low, middle, high);
    }
  }

  lemma BodyParts(styles: StyleMap, w: ParagraphWriter, a: seq<Block>, b: seq<Block>, outA: seq<Block>, outB: seq<Block>,
                  low: int, middle: int, high: int)
    requires a != [] && low <= middle <= high
    requires BodyComesBack(styles, w, a, outA, low, middle) && BodyComesBack(styles, w, b, outB, middle, high)
    requires Separate(AsParagraphs(a), AsParagraphs(b))
    ensures BodyComesBack(styles, w, a + b, outA + outB, low, high)
  {
    hide BlockComesBack, Separate;
    var bs, out, n := a + b, outA + outB, |a|;
    forall k | 0 <= k < |bs| ensures BlockComesBack(styles, w, bs, k, out[k], low, high) {
      if k < n {
        BlockInFront(styles, w, a, b, k, outA[k], low, middle, high);
      } else {
        BlockBehind(styles, w, a, b, k - n, outB[k - n], low, middle, high);
      }
    }
  }

  /** What the first element gives. */
  lemma ElementComesBack(styles: StyleMap, w: ParagraphWriter, bs: seq<Block>, s: ListState)
    requires bs != []
    ensures var (element, n) := FirstElement(w, bs);
            var (out, after) := ReadBlock(styles, element, s);
            var group, read := AsParagraphs(bs[..n]), AsParagraphs(out);
            && s.nextListIdentifier <= after.nextListIdentifier
            && BodyComesBack(styles, w, bs[..n], out, s.nextListIdentifier, after.nextListIdentifier)
            && |read| == n && SameLists(group, read)
            && Separate(group, AsParagraphs(bs[n..]))
  {
    hide ReadParagraph, ReadList, OpenIn, WrittenTable, WrittenList, ReadTable, RowsComeBack;
    var (element, n) := FirstElement(w, bs);
    if bs[0].TableBlock? {
      TableBack(styles, w, bs[0].table, s);
    } else if bs[0].paragraph.numberingId.None? {
      NotNumbered(styles, w(bs[0].paragraph));
    } else {
      ListOfBlocksBack(styles, w, bs, s);
    }
  }

  lemma ListOfBlocksBack(styles: StyleMap, w: ParagraphWriter, bs: seq<Block>, s: ListState)
    requires bs != [] && bs[0].ParagraphBlock? && bs[0].paragraph.numberingId.Some?
    ensures var n := GroupLength(AsParagraphs(bs));
            var group := AsParagraphs(bs[..n]);
            var (ps, after) := ReadList(styles, WrittenList(w, group), s);
            var read := AsParagraphs(AsBlocks(ps));
            && s.nextListIdentifier <= after.nextListIdentifier
            && BodyComesBack(styles, w, bs[..n], AsBlocks(ps), s.nextListIdentifier, after.nextListIdentifier)
            && |read| == n && SameLists(group, read)
            && Separate(group, AsParagraphs(bs[n..]))
  {
    hide ReadParagraph, ReadList, OpenIn, Returned, WrittenList, GroupLength;
    var n := GroupLength(AsParagraphs(bs));
    var group := AsParagraphs(bs[..n]);
    assert forall i :: 0 <= i < n ==> group[i] == AsParagraphs(bs)[i];
    ListBack(styles, w, group, s);
    GroupComesBack(styles, w, group, s.nextListIdentifier);
    var (ps, after) := ReadList(styles, WrittenList(w, group), s);
    assert AsParagraphs(AsBlocks(ps)) == ps;
    forall k | 0 <= k < n
      ensures BlockComesBack(styles, w, bs[..n], k, AsBlocks(ps)[k], s.nextListIdentifier, after.nextListIdentifier)
    {
      assert ComesBack(styles, w, group, k, ps[k], s.nextListIdentifier, after.nextListIdentifier);
      assert group[k].numberingId.Some?;
      assert bs[k].ParagraphBlock?;
    }
    if n < |bs| { assert AsParagraphs(bs[n..])[0] == AsParagraphs(bs)[n]; }
  }

  /** A document read back: block for block, cell for cell and paragraph for paragraph, with the levels, with lists
      that hold the same stretches of paragraphs as before, and with the continuations that had an open item. */
  lemma {:induction false} BodyRoundTrip(styles: StyleMap, w: ParagraphWriter, bs: seq<Block>, s: ListState)
    ensures var (out, after) := ReadBlocks(styles, WrittenBody(w, bs), s);
            && s.nextListIdentifier <= after.nextListIdentifier
            && BodyComesBack(styles, w, bs, out, s.nextListIdentifier, after.nextListIdentifier)
            && SameLists(AsParagraphs(bs), AsParagraphs(out))
    decreases |bs|
  {
    if bs != [] {
      hide ReadBlock, BodyComesBack, SameLists, FirstElement, Separate;
      var (element, n) := FirstElement(w, bs);
      var rest := WrittenBody(w, bs[n..]);
      ElementComesBack(styles, w, bs, s);
      var (outA, between) := ReadBlock(styles, element, s);
      BodyRoundTrip(styles, w, bs[n..], between);
      var (outB, after) := ReadBlocks(styles, rest, between);
      assert ([element] + rest)[0] == element && ([element] + rest)[1..] == rest;
      Halves(bs, n);
      BodyParts(styles, w, bs[..n], bs[n..], outA, outB, s.nextListIdentifier, between.nextListIdentifier,
                after.nextListIdentifier);
      JointLists(styles, w, bs, n, outA, outB, s.nextListIdentifier, between.nextListIdentifier, after.nextListIdentifier);
    }
  }

  lemma JointLists(styles: StyleMap, w: ParagraphWriter, bs: seq<Block>, n: nat, outA: seq<Block>, outB: seq<Block>,
                   low: int, middle: int, high: int)
    requires 1 <= n <= |bs|
    requires BodyComesBack(styles, w, bs[..n], outA, low, middle) && BodyComesBack(styles, w, bs[n..], outB, middle, high)
    requires SameLists(AsParagraphs(bs[..n]), AsParagraphs(outA)) && SameLists(AsParagraphs(bs[n..]), AsParagraphs(outB))
    requires Separate(AsParagraphs(bs[..n]), AsParagraphs(bs[n..]))
    ensures |outA + outB| == |bs| && SameLists(AsParagraphs(bs), AsParagraphs(outA + outB))
  {
    hide BlockComesBack, SameLists, NumberedWithin;
    Halves(bs, n);
    AsParagraphsOfParts(bs[..n], bs[n..]);
    AsParagraphsOfParts(outA, outB);
    BodyWithin(styles, w, bs[..n], outA, low, middle);
    BodyWithin(styles, w, bs[n..], outB, middle, high);
    PartsShareLists(AsParagraphs(bs[..n]), AsParagraphs(bs[n..]), AsParagraphs(outA), AsParagraphs(outB), low, middle, high);
  }

  lemma BodyWithin(styles: StyleMap, w: ParagraphWriter, bs: seq<Block>, out: seq<Block>, low: int, high: int)
    requires BodyComesBack(styles, w, bs, out, low, high)
    ensures NumberedWithin(AsParagraphs(bs), AsParagraphs(out), low, high)
  {
    hide OpenIn, Level, ReadParagraph, RowsComeBack;
    forall k | 0 <= k < |bs|
      ensures var p, q := AsParagraphs(bs)[k], AsParagraphs(out)[k];
              if p.numberingId.None? then q.numberingId.None?
              else q.numberingId.Some? && low <= q.numberingId.value < high
    {
      assert BlockComesBack(styles, w, bs, k, out[k], low, high);
      if bs[k].ParagraphBlock? { NotNumbered(styles, w(bs[k].paragraph)); }
    }
  }

  // ---------------------------------------------------------------- written bodies can be read

  /** A demand on paragraphs as they are written. */
  type Demand = ParagraphElement -> bool

  function Resolving(styles: StyleMap): Demand { (p: ParagraphElement) => ParagraphResolves(styles, p) }

  ghost predicate ParagraphsFit(good: Demand, w: ParagraphWriter, ps: seq<Paragraph>, from: nat, to: nat)
    requires to <= |ps|
  {
    forall i :: from <= i < to ==> good(w(ps[i]))
  }

  lemma FitInParts(good: Demand, w: ParagraphWriter, ps: seq<Paragraph>, a: nat, b: nat, c: nat)
    requires a <= b <= c <= |ps|
    ensures ParagraphsFit(good, w, ps, a, c) <==> ParagraphsFit(good, w, ps, a, b) && ParagraphsFit(good, w, ps, b, c)
  {
  }

  lemma FitOne(good: Demand, w: ParagraphWriter, ps: seq<Paragraph>, k: nat)
    requires k < |ps|
    ensures ParagraphsFit(good, w, ps, k, k + 1) <==> good(w(ps[k]))
    ensures ParagraphsFit(good, w, ps, k, k)
  {
  }

  lemma NothingToFit(good: Demand, w: ParagraphWriter, ps: seq<Paragraph>)
    ensures ParagraphsFit(good, w, ps, |ps|, |ps|)
  {
  }

  lemma FitShifted(good: Demand, w: ParagraphWriter, a: seq<Paragraph>, b: seq<Paragraph>)
    ensures ParagraphsFit(good, w, a + b, 0, |a + b|) <==> ParagraphsFit(good, w, a, 0, |a|) && ParagraphsFit(good, w, b, 0, |b|)
  {
    var ps := a + b;
    assert forall i :: 0 <= i < |a| ==> ps[i] == a[i];
    assert forall i :: 0 <= i < |b| ==> ps[|a| + i] == b[i];
    if ParagraphsFit(good, w, ps, 0, |ps|) {
      forall i | 0 <= i < |b| ensures good(w(b[i])) { assert ps[|a| + i] == b[i]; }
    }
  }

  /** Both demands that reading makes: the limits of the paragraph, and those of its styles. */
  ghost predicate BothFit(styles: StyleMap, readable: bool, resolves: bool, w: ParagraphWriter, ps: seq<Paragraph>, from: nat, to: nat)
    requires to <= |ps|
  {
    && (readable <==> ParagraphsFit(ParagraphReadable, w, ps, from, to))
    && (resolves <==> ParagraphsFit(Resolving(styles), w, ps, from, to))
  }

  /** Two stretches of paragraphs, one after the other. */
  lemma BothInParts(styles: StyleMap, r1: bool, t1: bool, r2: bool, t2: bool, w: ParagraphWriter, ps: seq<Paragraph>,
                    a: nat, b: nat, c: nat)
    requires a <= b <= c <= |ps| && BothFit(styles, r1, t1, w, ps, a, b) && BothFit(styles, r2, t2, w, ps, b, c)
    ensures BothFit(styles, r1 && r2, t1 && t2, w, ps, a, c)
  {
    hide ParagraphsFit;
    FitInParts(ParagraphReadable, w, ps, a, b, c);
    FitInParts(Resolving(styles), w, ps, a, b, c);
  }

  lemma BothForOne(styles: StyleMap, w: ParagraphWriter, ps: seq<Paragraph>, k: nat)
    requires k < |ps|
    ensures BothFit(styles, ParagraphReadable(w(ps[k])), ParagraphResolves(styles, w(ps[k])), w, ps, k, k + 1)
    ensures BothFit(styles, true, true, w, ps, k, k)
  {
    hide ParagraphsFit, ParagraphReadable, ParagraphResolves;
    FitOne(ParagraphReadable, w, ps, k);
    FitOne(Resolving(styles), w, ps, k);
  }

  lemma BothForNone(styles: StyleMap, w: ParagraphWriter, ps: seq<Paragraph>)
    ensures BothFit(styles, true, true, w, ps, |ps|, |ps|)
  {
    hide ParagraphsFit;
    NothingToFit(ParagraphReadable, w, ps);
    NothingToFit(Resolving(styles), w, ps);
  }

  lemma OneMoreItem(styles: StyleMap, first: ListChild, rest: seq<ListChild>, depth: nat)
    ensures ItemsReadable([first] + rest, depth) <==> ListChildReadable(first, depth) && ItemsReadable(rest, depth)
    ensures ItemsResolve(styles, [first] + rest) <==> ListChildResolves(styles, first) && ItemsResolve(styles, rest)
  {
    hide ListChildReadable, ListChildResolves;
    var all := [first] + rest;
    assert all[0] == first && all[1..] == rest && forall k :: 0 <= k < |rest| ==> all[k + 1] == rest[k];
    if ItemsResolve(styles, all) {
      forall k | 0 <= k < |rest| ensures ListChildResolves(styles, rest[k]) { assert all[k + 1] == rest[k]; }
    }
  }

  lemma OneMoreItemChild(styles: StyleMap, first: ItemChild, rest: seq<ItemChild>, depth: nat)
    ensures ItemReadable([first] + rest, depth) <==> ItemChildReadable(first, depth) && ItemReadable(rest, depth)
    ensures ItemResolves(styles, [first] + rest) <==> ItemChildResolves(styles, first) && ItemResolves(styles, rest)
    ensures ItemReadable([], depth) && ItemResolves(styles, [])
  {
    hide ItemChildReadable, ItemChildResolves;
    var all := [first] + rest;
    assert all[0] == first && all[1..] == rest && forall k :: 0 <= k < |rest| ==> all[k + 1] == rest[k];
    if ItemResolves(styles, all) {
      forall k | 0 <= k < |rest| ensures ItemChildResolves(styles, rest[k]) { assert all[k + 1] == rest[k]; }
    }
  }

  /** A written list nests at most nine deep, so only its paragraphs can make it unreadable. */
  lemma {:induction false} WrittenItemsFit(styles: StyleMap, w: ParagraphWriter, ps: seq<Paragraph>, k: nat, level: nat, styleName: string)
    requires k <= |ps| && level <= 8
    ensures var (items, next) := WrittenItems(w, ps, k, level, styleName);
            BothFit(styles, ItemsReadable(items, level), ItemsResolve(styles, items), w, ps, k, next)
    decreases |ps| - k, 9 - level, 1
  {
    hide WrittenItem, ItemReadable, ItemResolves, BothFit;
    if k < |ps| && Level(ps[k]) >= level {
      var (content, next) := WrittenItem(w, ps, k, level, styleName);
      var (rest, end) := WrittenItems(w, ps, next, level, styleName);
      WrittenItemFits(styles, w, ps, k, level, styleName);
      WrittenItemsFit(styles, w, ps, next, level, styleName);
      OneMoreItem(styles, ListItem(content), rest, level);
      hide ItemsReadable, ItemsResolve;
      BothInParts(styles, ItemReadable(content, level), ItemResolves(styles, content),
                  ItemsReadable(rest, level), ItemsResolve(styles, rest), w, ps, k, next, end);
    } else if k < |ps| {
      BothForOne(styles, w, ps, k);
    } else {
      BothForNone(styles, w, ps);
    }
  }

  lemma {:induction false} WrittenItemFits(styles: StyleMap, w: ParagraphWriter, ps: seq<Paragraph>, k: nat, level: nat, styleName: string)
    requires k < |ps| && level <= Level(ps[k])
    ensures var (content, next) := WrittenItem(w, ps, k, level, styleName);
            BothFit(styles, ItemReadable(content, level), ItemResolves(styles, content), w, ps, k, next)
    decreases |ps| - k, 9 - level, 0
  {
    hide BothFit, ParagraphReadable, ParagraphResolves, Level, ItemReadable, ItemResolves;
    if Level(ps[k]) > level {
      var nested := WrittenLevel(w, ps, k, level + 1, styleName).0;
      NestedFits(styles, w, ps, k, level, styleName);
      OneMoreItemChild(styles, ItemList(nested), [], level);
      assert [ItemList(nested)] + [] == [ItemList(nested)];
    } else {
      var (rest, next) := WrittenTail(w, ps, k + 1, level, styleName);
      WrittenTailFits(styles, w, ps, k + 1, level, styleName);
      OneMoreItemChild(styles, ItemParagraph(w(ps[k])), rest, level);
      BothForOne(styles, w, ps, k);
      BothInParts(styles, ParagraphReadable(w(ps[k])), ParagraphResolves(styles, w(ps[k])),
                  ItemReadable(rest, level), ItemResolves(styles, rest), w, ps, k, k + 1, next);
    }
  }

  lemma {:induction false} NestedFits(styles: StyleMap, w: ParagraphWriter, ps: seq<Paragraph>, k: nat, level: nat, styleName: string)
    requires k < |ps| && level < Level(ps[k])
    ensures var (nested, next) := WrittenLevel(w, ps, k, level + 1, styleName);
            BothFit(styles, ItemChildReadable(ItemList(nested), level), ItemChildResolves(styles, ItemList(nested)), w, ps, k, next)
    decreases |ps| - k, 8 - level, 3
  {
    hide BothFit, ItemsReadable, ItemsResolve;
    WrittenItemsFit(styles, w, ps, k, level + 1, styleName);
  }

  lemma {:induction false} WrittenTailFits(styles: StyleMap, w: ParagraphWriter, ps: seq<Paragraph>, k: nat, level: nat, styleName: string)
    requires k <= |ps| && level <= 8
    ensures var (content, next) := WrittenTail(w, ps, k, level, styleName);
            BothFit(styles, ItemReadable(content, level), ItemResolves(styles, content), w, ps, k, next)
    decreases |ps| - k, 9 - level, 0
  {
    hide BothFit, ParagraphReadable, ParagraphResolves, Level, ItemReadable, ItemResolves;
    if k < |ps| { BothForOne(styles, w, ps, k); } else { BothForNone(styles, w, ps); }
    if k < |ps| && Level(ps[k]) > level {
      var (nested, next) := WrittenLevel(w, ps, k, level + 1, styleName);
      var (rest, end) := WrittenTail(w, ps, next, level, styleName);
      NestedFits(styles, w, ps, k, level, styleName);
      WrittenTailFits(styles, w, ps, next, level, styleName);
      OneMoreItemChild(styles, ItemList(nested), rest, level);
      BothInParts(styles, ItemChildReadable(ItemList(nested), level), ItemChildResolves(styles, ItemList(nested)),
                  ItemReadable(rest, level), ItemResolves(styles, rest), w, ps, k, next, end);
    } else if k < |ps| && Level(ps[k]) == level && ps[k].numberingContinuation {
      var (rest, end) := WrittenTail(w, ps, k + 1, level, styleName);
      WrittenTailFits(styles, w, ps, k + 1, level, styleName);
      OneMoreItemChild(styles, ItemParagraph(w(ps[k])), rest, level);
      BothInParts(styles, ParagraphReadable(w(ps[k])), ParagraphResolves(styles, w(ps[k])),
                  ItemReadable(rest, level), ItemResolves(styles, rest), w, ps, k, k + 1, end);
    } else {
      OneMoreItemChild(styles, OtherItemChild, [], level);
    }
  }

  lemma WrittenListFits(styles: StyleMap, w: ParagraphWriter, group: seq<Paragraph>)
    requires group != [] && group[0].numberingId.Some?
    ensures BothFit(styles, ListReadable(WrittenList(w, group), 0), ListResolves(styles, WrittenList(w, group)), w, group, 0, |group|)
  {
    hide BothFit, ItemsReadable, ItemsResolve, GeneratedListStyle;
    WrittenItemsFit(styles, w, group, 0, 0, GeneratedListStyle(group[0].numberingId.value));
  }

  lemma OneMorePiece(styles: StyleMap, first: CellChild, rest: seq<CellChild>)
    ensures CellReadable([first] + rest) <==> CellChildReadable(first) && CellReadable(rest)
    ensures CellResolves(styles, [first] + rest) <==> CellChildResolves(styles, first) && CellResolves(styles, rest)
  {
    hide CellChildReadable, CellChildResolves;
    var all := [first] + rest;
    assert all[0] == first && all[1..] == rest && forall k :: 0 <= k < |rest| ==> all[k + 1] == rest[k];
    if CellResolves(styles, all) {
      forall k | 0 <= k < |rest| ensures CellChildResolves(styles, rest[k]) { assert all[k + 1] == rest[k]; }
    }
  }

  lemma FirstPieceFits(styles: StyleMap, w: ParagraphWriter, ps: seq<Paragraph>)
    requires ps != []
    ensures var (piece, n) := FirstPiece(w, ps);
            BothFit(styles, CellChildReadable(piece), CellChildResolves(styles, piece), w, ps[..n], 0, n)
  {
    hide BothFit, ParagraphReadable, ParagraphResolves, WrittenList, GroupLength, ListReadable, ListResolves;
    var n := FirstPiece(w, ps).1;
    if ps[0].numberingId.None? { BothForOne(styles, w, ps[..1], 0); } else { WrittenListFits(styles, w, ps[..n]); }
  }

  lemma {:induction false} WrittenSequenceFits(styles: StyleMap, w: ParagraphWriter, ps: seq<Paragraph>)
    ensures BothFit(styles, CellReadable(WrittenSequence(w, ps)), CellResolves(styles, WrittenSequence(w, ps)), w, ps, 0, |ps|)
    decreases |ps|
  {
    if ps != [] {
      hide ParagraphsFit, CellChildReadable, CellChildResolves, FirstPiece;
      var (piece, n) := FirstPiece(w, ps);
      FirstPieceFits(styles, w, ps);
      WrittenSequenceFits(styles, w, ps[n..]);
      OneMorePiece(styles, piece, WrittenSequence(w, ps[n..]));
      Halves(ps, n);
      FitShifted(ParagraphReadable, w, ps[..n], ps[n..]);
      FitShifted(Resolving(styles), w, ps[..n], ps[n..]);
    }
  }

  ghost predicate CellFits(good: Demand, w: ParagraphWriter, c: Cell) {
    ParagraphsFit(good, w, c.paragraphs, 0, |c.paragraphs|)
  }

  ghost predicate CellsFit(good: Demand, w: ParagraphWriter, cells: seq<Cell>) {
    forall k :: 0 <= k < |cells| ==> CellFits(good, w, cells[k])
  }

  ghost predicate TableFits(good: Demand, w: ParagraphWriter, t: Table) {
    forall k :: 0 <= k < |t.rows| ==> CellsFit(good, w, t.rows[k].cells)
  }

  /** All paragraphs of the block meet the demand. */
  ghost predicate BlockFits(good: Demand, w: ParagraphWriter, b: Block) {
    match b case ParagraphBlock(p) => good(w(p)) case TableBlock(t) => TableFits(good, w, t)
  }

  lemma WrittenCellFits(styles: StyleMap, w: ParagraphWriter, c: Cell)
    requires ParagraphResolves(styles, EMPTY_ELEMENT)
    ensures RowChildReadable(WrittenCell(w, c)) <==> CellFits(ParagraphReadable, w, c)
    ensures RowChildResolves(styles, WrittenCell(w, c)) <==> CellFits(Resolving(styles), w, c)
  {
    if c.paragraphs == [] {
      var content: seq<CellChild> := [CellParagraph(EMPTY_ELEMENT)];
      assert content[1..] == [] && CellReadable([]);
    } else {
      hide ParagraphsFit, CellReadable, CellResolves, WrittenSequence;
      WrittenSequenceFits(styles, w, c.paragraphs);
    }
  }

  lemma CellsFitInParts(good: Demand, w: ParagraphWriter, cells: seq<Cell>)
    requires cells != []
    ensures CellsFit(good, w, cells) <==> CellFits(good, w, cells[0]) && CellsFit(good, w, cells[1..])
    ensures CellsFit(good, w, [])
  {
    hide CellFits;
    assert forall k :: 0 < k < |cells| ==> cells[k] == cells[1..][k - 1];
  }

  lemma {:induction false} WrittenCellsFit(styles: StyleMap, w: ParagraphWriter, cells: seq<Cell>)
    requires ParagraphResolves(styles, EMPTY_ELEMENT)
    ensures RowReadable(WrittenCells(w, cells)) <==> CellsFit(ParagraphReadable, w, cells)
    ensures RowResolves(styles, WrittenCells(w, cells)) <==> CellsFit(Resolving(styles), w, cells)
  {
    if cells != [] {
      hide WrittenCell, RowChildReadable, RowChildResolves, RowResolves, CellsFit, CellFits, ParagraphResolves;
      var first, rest := WrittenCell(w, cells[0]), WrittenCells(w, cells[1..]);
      assert ([first] + rest)[0] == first && ([first] + rest)[1..] == rest;
      WrittenCellFits(styles, w, cells[0]);
      WrittenCellsFit(styles, w, cells[1..]);
      CellsInFront(styles, first, rest);
      CellsFitInParts(ParagraphReadable, w, cells);
      CellsFitInParts(Resolving(styles), w, cells);
    }
  }

  lemma CellsInFront(styles: StyleMap, first: RowChild, rest: seq<RowChild>)
    ensures RowResolves(styles, [first] + rest) <==> RowChildResolves(styles, first) && RowResolves(styles, rest)
  {
    hide RowChildResolves;
    var all := [first] + rest;
    assert all[0] == first && forall k :: 0 <= k < |rest| ==> all[k + 1] == rest[k];
    if RowResolves(styles, all) {
      forall k | 0 <= k < |rest| ensures RowChildResolves(styles, rest[k]) { assert all[k + 1] == rest[k]; }
    }
  }

  lemma RowsFitInParts(good: Demand, w: ParagraphWriter, rows: seq<Row>)
    requires rows != []
    ensures TableFits(good, w, Table(rows)) <==> CellsFit(good, w, rows[0].cells) && TableFits(good, w, Table(rows[1..]))
  {
    hide CellsFit;
    assert forall k :: 0 < k < |rows| ==> rows[k] == rows[1..][k - 1];
  }

  lemma {:induction false} WrittenRowsFit(styles: StyleMap, w: ParagraphWriter, rows: seq<Row>)
    requires ParagraphResolves(styles, EMPTY_ELEMENT)
    ensures TableReadable(WrittenRows(w, rows)) <==> TableFits(ParagraphReadable, w, Table(rows))
    ensures TableResolves(styles, WrittenRows(w, rows)) <==> TableFits(Resolving(styles), w, Table(rows))
  {
    if rows != [] {
      hide WrittenCells, RowReadable, RowResolves, TableResolves, TableFits, CellsFit, ParagraphResolves;
      var first, rest := TableRow(Absent, WrittenCells(w, rows[0].cells)), WrittenRows(w, rows[1..]);
      assert ([first] + rest)[0] == first && ([first] + rest)[1..] == rest;
      WrittenCellsFit(styles, w, rows[0].cells);
      WrittenRowsFit(styles, w, rows[1..]);
      RowsInFront(styles, first, rest);
      RowsFitInParts(ParagraphReadable, w, rows);
      RowsFitInParts(Resolving(styles), w, rows);
    }
  }

  lemma RowsInFront(styles: StyleMap, first: TableChild, rest: seq<TableChild>)
    ensures TableResolves(styles, [first] + rest) <==> TableChildResolves(styles, first) && TableResolves(styles, rest)
  {
    hide TableChildResolves;
    var all := [first] + rest;
    assert all[0] == first && forall k :: 0 <= k < |rest| ==> all[k + 1] == rest[k];
    if TableResolves(styles, all) {
      forall k | 0 <= k < |rest| ensures TableChildResolves(styles, rest[k]) { assert all[k + 1] == rest[k]; }
    }
  }

  lemma FirstElementFits(styles: StyleMap, w: ParagraphWriter, bs: seq<Block>)
    requires bs != [] && ParagraphResolves(styles, EMPTY_ELEMENT)
    ensures var (element, n) := FirstElement(w, bs);
            && (BlockReadable(element, 0) <==> forall k :: 0 <= k < n ==> BlockFits(ParagraphReadable, w, bs[k]))
            && (BlockResolves(styles, element) <==> forall k :: 0 <= k < n ==> BlockFits(Resolving(styles), w, bs[k]))
  {
    hide ParagraphReadable, ParagraphResolves, WrittenRows, TableReadable, TableResolves, TableFits, ListReadable, ListResolves,
         WrittenList, GroupLength;
    var (element, n) := FirstElement(w, bs);
    if bs[0].TableBlock? {
      var rest := WrittenRows(w, bs[0].table.rows);
      WrittenRowsFit(styles, w, bs[0].table.rows);
      AfterColumn(styles, rest);
    } else if bs[0].paragraph.numberingId.Some? {
      var group := AsParagraphs(bs[..n]);
      WrittenListFits(styles, w, group);
      GroupFits(ParagraphReadable, w, bs, n);
      GroupFits(Resolving(styles), w, bs, n);
    }
  }

  lemma GroupFits(good: Demand, w: ParagraphWriter, bs: seq<Block>, n: nat)
    requires n <= |bs| && forall k :: 0 <= k < n ==> bs[k].ParagraphBlock?
    ensures ParagraphsFit(good, w, AsParagraphs(bs[..n]), 0, n) <==> forall k :: 0 <= k < n ==> BlockFits(good, w, bs[k])
  {
    var group := AsParagraphs(bs[..n]);
    assert forall k :: 0 <= k < n ==> group[k] == bs[k].paragraph;
    if ParagraphsFit(good, w, group, 0, n) {
      forall k | 0 <= k < n ensures BlockFits(good, w, bs[k]) { assert good(w(group[k])); }
    }
  }

  lemma AfterColumn(styles: StyleMap, rest: seq<TableChild>)
    ensures TableReadable([OtherTableChild] + rest) == TableReadable(rest)
    ensures TableResolves(styles, [OtherTableChild] + rest) == TableResolves(styles, rest)
  {
    assert ([OtherTableChild] + rest)[1..] == rest;
    RowsInFront(styles, OtherTableChild, rest);
  }

  /** A written document can be read exactly when each of its paragraphs can, and its styles are nested too deep exactly
      when those of some paragraph are. */
  lemma {:induction false} WrittenBodyFits(styles: StyleMap, w: ParagraphWriter, bs: seq<Block>)
    requires ParagraphResolves(styles, EMPTY_ELEMENT)
    ensures BlocksReadable(WrittenBody(w, bs), 0) <==> forall k :: 0 <= k < |bs| ==> BlockFits(ParagraphReadable, w, bs[k])
    ensures BlocksResolve(styles, WrittenBody(w, bs)) <==> forall k :: 0 <= k < |bs| ==> BlockFits(Resolving(styles), w, bs[k])
    decreases |bs|
  {
    if bs != [] {
      hide BlockReadable, BlockResolves, BlockFits, FirstElement, ParagraphResolves;
      var (element, n) := FirstElement(w, bs);
      var rest := WrittenBody(w, bs[n..]);
      assert ([element] + rest)[0] == element && ([element] + rest)[1..] == rest;
      FirstElementFits(styles, w, bs);
      WrittenBodyFits(styles, w, bs[n..]);
      BlocksInFront(styles, element, rest);
      AllBlocksFit(ParagraphReadable, w, bs, n);
      AllBlocksFit(Resolving(styles), w, bs, n);
    }
  }

  lemma BlocksInFront(styles: StyleMap, first: BlockElement, rest: seq<BlockElement>)
    ensures BlocksResolve(styles, [first] + rest) <==> BlockResolves(styles, first) && BlocksResolve(styles, rest)
  {
    hide BlockResolves;
    var all := [first] + rest;
    assert all[0] == first && forall k :: 0 <= k < |rest| ==> all[k + 1] == rest[k];
    if BlocksResolve(styles, all) {
      forall k | 0 <= k < |rest| ensures BlockResolves(styles, rest[k]) { assert all[k + 1] == rest[k]; }
    }
  }

  lemma AllBlocksFit(good: Demand, w: ParagraphWriter, bs: seq<Block>, n: nat)
    requires n <= |bs|
    ensures (forall k :: 0 <= k < |bs| ==> BlockFits(good, w, bs[k]))
            <==> && (forall k :: 0 <= k < n ==> BlockFits(good, w, bs[k]))
                 && (forall k :: 0 <= k < |bs| - n ==> BlockFits(good, w, bs[n..][k]))
  {
    hide BlockFits;
    assert forall k :: n <= k < |bs| ==> bs[k] == bs[n..][k - n];
    assert forall k :: 0 <= k < |bs| - n ==> bs[n..][k] == bs[n + k];
  }
}
