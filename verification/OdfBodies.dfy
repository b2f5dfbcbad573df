/** Bodies and cells by position: which element every block of a text and every paragraph of a cell comes from. */
module OdfBodies {
  import opened Wrappers
  import opened Decimal
  import opened OdfStyles
  import opened OdfModel
  import opened OdfTables
  import opened OdfOutline
  import opened OdfNumbering
  import opened OdfWriter

  // ---------------------------------------------------------------- sections

  /** The contents of sections in their places, and nothing that is not read. */
  function Flat(elements: seq<BlockElement>): seq<BlockElement>
    decreases elements
  {
    if elements == [] then []
    else
      (match elements[0]
       case Section(inner) => Flat(inner)
       case OtherBlock => []
       case element => [element])
      + Flat(elements[1..])
  }

  lemma {:induction false} FlatIsFlat(elements: seq<BlockElement>)
    ensures forall k :: 0 <= k < |Flat(elements)| ==> !Flat(elements)[k].Section? && !Flat(elements)[k].OtherBlock?
    decreases elements
  {
    if elements != [] {
      if elements[0].Section? { FlatIsFlat(elements[0].blocks); }
      FlatIsFlat(elements[1..]);
    }
  }

  lemma {:induction false} BlocksInParts(styles: StyleMap, a: seq<BlockElement>, b: seq<BlockElement>, s: ListState)
    ensures var (first, between) := ReadBlocks(styles, a, s);
            var (rest, after) := ReadBlocks(styles, b, between);
            ReadBlocks(styles, a + b, s) == (first + rest, after)
    decreases |a|
  {
    if a == [] {
      assert a + b == b;
      NothingAround(ReadBlocks(styles, b, s).0);
    } else {
      hide ReadBlock;
      assert (a + b)[0] == a[0] && (a + b)[1..] == a[1..] + b;
      var (first, between) := ReadBlock(styles, a[0], s);
      BlocksInParts(styles, a[1..], b, between);
      var (middle, later) := ReadBlocks(styles, a[1..], between);
      Regrouped(first, middle, ReadBlocks(styles, b, later).0);
    }
  }

  lemma OneBlockRead(styles: StyleMap, element: BlockElement, s: ListState)
    ensures ReadBlocks(styles, [element], s) == ReadBlock(styles, element, s)
  {
    hide ReadBlock;
    NothingAround(ReadBlock(styles, element, s).0);
  }

  /** A section reads as its contents would in its place. */
  lemma {:induction false} FlatReadsTheSame(styles: StyleMap, elements: seq<BlockElement>, s: ListState)
    ensures ReadBlocks(styles, Flat(elements), s) == ReadBlocks(styles, elements, s)
    decreases elements
  {
    if elements != [] {
      var first, rest := elements[0], elements[1..];
      FlatReadsTheSame(styles, rest, ReadBlock(styles, first, s).1);
      match first {
      case Section(inner) =>
        FlatReadsTheSame(styles, inner, s);
        BlocksInParts(styles, Flat(inner), Flat(rest), s);
      case OtherBlock =>
        assert [] + Flat(rest) == Flat(rest);
        NothingAround(ReadBlocks(styles, rest, s).0);
      case _ =>
        hide ReadBlock;
        OneBlockRead(styles, first, s);
        BlocksInParts(styles, [first], Flat(rest), s);
      }
    }
  }

  // ---------------------------------------------------------------- the lists of a text in document order

  function CellLists(content: seq<CellChild>): seq<ListElement> {
    if content == [] then []
    else
      CellLists(content[..|content| - 1])
      + (match content[|content| - 1] case CellList(list) => [list] case _ => [])
  }

  function RowLists(children: seq<RowChild>): seq<ListElement> {
    if children == [] then []
    else
      RowLists(children[..|children| - 1])
      + (match children[|children| - 1] case TableCell(_, content) => CellLists(content) case _ => [])
  }

  function TableLists(children: seq<TableChild>): seq<ListElement> {
    if children == [] then []
    else
      TableLists(children[..|children| - 1])
      + (match children[|children| - 1] case TableRow(_, cells) => RowLists(cells) case _ => [])
  }

  /** Of elements outside sections. */
  function ListsOf(elements: seq<BlockElement>): seq<ListElement> {
    if elements == [] then []
    else
      ListsOf(elements[..|elements| - 1])
      + (match elements[|elements| - 1]
         case BlockList(list) => [list]
         case BlockTable(children) => TableLists(children)
         case _ => [])
  }

  lemma NextList(styles: StyleMap, before: seq<ListElement>, list: ListElement)
    ensures ReadList(styles, list, StateAfter(styles, before)).1 == StateAfter(styles, before + [list])
  {
    hide ReadList;
    assert (before + [list])[..|before|] == before;
  }

  lemma {:induction false} OneMorePieceRead(styles: StyleMap, a: seq<CellChild>, x: CellChild, s: ListState)
    ensures var (ps, between) := ReadCellContent(styles, a, s);
            var (read, after) := ReadCellChild(styles, x, between);
            ReadCellContent(styles, a + [x], s) == (ps + read, after)
  {
    hide ReadCellChild;
    if a == [] {
      assert ([] + [x])[0] == x && ([] + [x])[1..] == [];
      NothingAround(ReadCellChild(styles, x, s).0);
    } else {
      assert (a + [x])[0] == a[0] && (a + [x])[1..] == a[1..] + [x];
      var (first, between) := ReadCellChild(styles, a[0], s);
      OneMorePieceRead(styles, a[1..], x, between);
      var (rest, after) := ReadCellContent(styles, a[1..], between);
      Regrouped(first, rest, ReadCellChild(styles, x, after).0);
    }
  }

  lemma {:induction false} CellState(styles: StyleMap, content: seq<CellChild>, before: seq<ListElement>)
    ensures ReadCellContent(styles, content, StateAfter(styles, before)).1 == StateAfter(styles, before + CellLists(content))
  {
    NothingAround(before);
    if content != [] {
      hide StateAfter, ReadList, ReadParagraph;
      var n := |content| - 1;
      var front, last := content[..n], content[n];
      assert content == front + [last];
      CellState(styles, front, before);
      OneMorePieceRead(styles, front, last, StateAfter(styles, before));
      hide ReadCellContent;
      if last.CellList? {
        NextList(styles, before + CellLists(front), last.list);
        Regrouped(before, CellLists(front), [last.list]);
      } else {
        NothingAround(CellLists(front));
      }
    }
  }

  lemma {:induction false} RowState(styles: StyleMap, children: seq<RowChild>, before: seq<ListElement>)
    ensures ReadRow(styles, children, StateAfter(styles, before)).1 == StateAfter(styles, before + RowLists(children))
  {
    NothingAround(before);
    if children != [] {
      hide StateAfter, ReadCellContent, CellLists;
      var n := |children| - 1;
      var front, last := children[..n], children[n];
      assert children == front + [last];
      RowState(styles, front, before);
      OneMoreCell(styles, front, last, StateAfter(styles, before));
      hide ReadRow;
      if last.TableCell? {
        CellState(styles, last.content, before + RowLists(front));
        Regrouped(before, RowLists(front), CellLists(last.content));
      } else {
        NothingAround(RowLists(front));
      }
    }
  }

  lemma {:induction false} TableState(styles: StyleMap, children: seq<TableChild>, before: seq<ListElement>)
    ensures ReadTable(styles, children, StateAfter(styles, before)).1 == StateAfter(styles, before + TableLists(children))
  {
    NothingAround(before);
    if children != [] {
      hide StateAfter, ReadRow, RowLists;
      var n := |children| - 1;
      var front, last := children[..n], children[n];
      assert children == front + [last];
      TableState(styles, front, before);
      OneMoreRow(styles, front, last, StateAfter(styles, before));
      hide ReadTable;
      if last.TableRow? {
        RowState(styles, last.children, before + TableLists(front));
        Regrouped(before, TableLists(front), RowLists(last.children));
      } else {
        NothingAround(TableLists(front));
      }
    }
  }

  lemma {:induction false} TextState(styles: StyleMap, elements: seq<BlockElement>)
    requires forall k :: 0 <= k < |elements| ==> !elements[k].Section?
    ensures ReadBlocks(styles, elements, NO_LISTS).1 == StateAfter(styles, ListsOf(elements))
  {
    if elements != [] {
      var n := |elements| - 1;
      var front, last := elements[..n], elements[n];
      assert elements == front + [last];
      assert forall k :: 0 <= k < |front| ==> front[k] == elements[k];
      TextState(styles, front);
      BlocksInParts(styles, front, [last], NO_LISTS);
      OneBlockRead(styles, last, StateAfter(styles, ListsOf(front)));
      hide StateAfter, ReadBlocks, ReadList, ReadTable, ReadParagraph, TableLists;
      match last {
      case BlockList(list) => NextList(styles, ListsOf(front), list);
      case BlockTable(children) => TableState(styles, children, ListsOf(front));
      case _ => NothingAround(ListsOf(front));
      }
    }
  }

  // ---------------------------------------------------------------- blocks and paragraphs by position

  /** How many paragraphs stand in a list, however deep. */
  function ParagraphsIn(list: ListElement): nat { |PathsIn(list.items, 0)| }

  function BlocksFor(element: BlockElement): nat {
    match element
    case BlockParagraph(_) => 1
    case BlockList(list) => ParagraphsIn(list)
    case BlockTable(_) => 1
    case _ => 0
  }

  /** Paragraph `r` of a list, where `lists` are the lists up to this one. */
  ghost predicate IsFromList(styles: StyleMap, list: ListElement, lists: seq<ListElement>, r: nat, p: Paragraph) {
    && lists != [] && r < ParagraphsIn(list) && HolderAt(list.items, PathsIn(list.items, 0)[r]).Some?
    && IsReadAt(styles, list.items, PathsIn(list.items, 0)[r], 0, IdentifierOf(styles, lists, |lists| - 1), p)
  }

  /** Block `r` of those that element `k` stands for. */
  ghost predicate IsFromElement(styles: StyleMap, elements: seq<BlockElement>, k: nat, r: nat, b: Block)
    requires k < |elements|
  {
    match elements[k]
    case BlockParagraph(p) => b == ParagraphBlock(ReadParagraph(styles, p))
    case BlockList(list) => b.ParagraphBlock? && IsFromList(styles, list, ListsOf(elements[..k + 1]), r, b.paragraph)
    case BlockTable(children) =>
      b == TableBlock(Table(ReadTable(styles, children, StateAfter(styles, ListsOf(elements[..k]))).0))
    case _ => false
  }

  ghost predicate AreFromElements(styles: StyleMap, elements: seq<BlockElement>, n: nat, out: seq<Block>)
    requires n <= |elements|
  {
    && |out| == Before(elements, BlocksFor, n)
    && forall k, place :: 0 <= k < n && 0 <= place && Covers(elements, BlocksFor, k, place) ==>
         place < |out| && IsFromElement(styles, elements, k, place - Before(elements, BlocksFor, k), out[place])
  }

  /** The blocks that one element is read as. */
  lemma ElementReads(styles: StyleMap, elements: seq<BlockElement>, k: nat)
    requires k < |elements| && !elements[k].Section?
    ensures var read := ReadBlock(styles, elements[k], StateAfter(styles, ListsOf(elements[..k]))).0;
            && |read| == BlocksFor(elements[k])
            && forall r :: 0 <= r < |read| ==> IsFromElement(styles, elements, k, r, read[r])
  {
    hide ReadParagraph, ReadTable, ReadList, StateAfter, IsFromList;
    if elements[k].BlockList? {
      var list, before, lists := elements[k].list, ListsOf(elements[..k]), ListsOf(elements[..k + 1]);
      assert elements[..k + 1][..k] == elements[..k] && lists == before + [list];
      ListAfter(styles, list, before);
    }
  }

  lemma ListAfter(styles: StyleMap, list: ListElement, before: seq<ListElement>)
    ensures var ps := ReadList(styles, list, StateAfter(styles, before)).0;
            && |ps| == ParagraphsIn(list)
            && forall r :: 0 <= r < |ps| ==> IsFromList(styles, list, before + [list], r, ps[r])
  {
    hide ReadList, StateAfter, IsReadAt;
    ListIsItsParagraphs(styles, list, StateAfter(styles, before));
    NextList(styles, before, list);
    assert (before + [list])[..|before + [list]|] == before + [list];
  }

  lemma OneMoreElement(styles: StyleMap, elements: seq<BlockElement>, n: nat, out: seq<Block>, more: seq<Block>)
    requires n < |elements| && AreFromElements(styles, elements, n, out)
    requires |more| == BlocksFor(elements[n]) && forall r :: 0 <= r < |more| ==> IsFromElement(styles, elements, n, r, more[r])
    ensures AreFromElements(styles, elements, n + 1, out + more)
  {
    hide IsFromElement, BlocksFor;
    forall k, place | 0 <= k < n + 1 && 0 <= place && Covers(elements, BlocksFor, k, place)
      ensures place < |out + more| && IsFromElement(styles, elements, k, place - Before(elements, BlocksFor, k), (out + more)[place])
    {
      if k == n { assert (out + more)[place] == more[place - |out|]; }
    }
  }

  lemma {:induction false} FlatIsItsElements(styles: StyleMap, elements: seq<BlockElement>, n: nat)
    requires n <= |elements| && forall k :: 0 <= k < |elements| ==> !elements[k].Section?
    ensures AreFromElements(styles, elements, n, ReadBlocks(styles, elements[..n], NO_LISTS).0)
  {
    hide AreFromElements, IsFromElement, ReadBlocks, ReadBlock, StateAfter;
    if n == 0 {
      NoElements(styles, elements);
    } else {
      var front, last := elements[..n - 1], elements[n - 1];
      assert elements[..n] == front + [last];
      FlatIsItsElements(styles, elements, n - 1);
      TextState(styles, front);
      BlocksInParts(styles, front, [last], NO_LISTS);
      OneBlockRead(styles, last, StateAfter(styles, ListsOf(front)));
      ElementReads(styles, elements, n - 1);
      OneMoreElement(styles, elements, n - 1, ReadBlocks(styles, front, NO_LISTS).0,
                     ReadBlock(styles, last, StateAfter(styles, ListsOf(front))).0);
    }
  }

  lemma NoElements(styles: StyleMap, elements: seq<BlockElement>)
    ensures AreFromElements(styles, elements, 0, ReadBlocks(styles, elements[..0], NO_LISTS).0)
  {
  }

  /** Every block of a text comes from one element outside or inside sections, in document order: a paragraph from a
      paragraph, a table from a table, and one numbered paragraph from every paragraph in a list, under the identifier
      that the lists up to this one give. */
  lemma TextIsItsElements(styles: StyleMap, elements: seq<BlockElement>)
    ensures AreFromElements(styles, Flat(elements), |Flat(elements)|, ReadText(styles, OfficeText(elements)))
  {
    hide AreFromElements, ReadBlocks;
    FlatReadsTheSame(styles, elements, NO_LISTS);
    FlatIsFlat(elements);
    FlatIsItsElements(styles, Flat(elements), |Flat(elements)|);
    assert Flat(elements)[..|Flat(elements)|] == Flat(elements);
  }

  // ---------------------------------------------------------------- cells

  function ParagraphsFor(child: CellChild): nat {
    match child case CellParagraph(_) => 1 case CellList(list) => ParagraphsIn(list) case OtherCellChild => 0
  }

  /** Paragraph `r` of those that child `k` of a cell stands for; `before` are the lists before the cell. */
  ghost predicate IsFromChild(styles: StyleMap, content: seq<CellChild>, before: seq<ListElement>, k: nat, r: nat, p: Paragraph)
    requires k < |content|
  {
    match content[k]
    case CellParagraph(element) => p == ReadParagraph(styles, element)
    case CellList(list) => IsFromList(styles, list, before + CellLists(content[..k + 1]), r, p)
    case OtherCellChild => false
  }

  ghost predicate AreFromChildren(styles: StyleMap, content: seq<CellChild>, before: seq<ListElement>, n: nat, ps: seq<Paragraph>)
    requires n <= |content|
  {
    && |ps| == Before(content, ParagraphsFor, n)
    && forall k, place :: 0 <= k < n && 0 <= place && Covers(content, ParagraphsFor, k, place) ==>
         place < |ps| && IsFromChild(styles, content, before, k, place - Before(content, ParagraphsFor, k), ps[place])
  }

  lemma ChildReads(styles: StyleMap, content: seq<CellChild>, before: seq<ListElement>, k: nat)
    requires k < |content|
    ensures var read := ReadCellChild(styles, content[k], StateAfter(styles, before + CellLists(content[..k]))).0;
            && |read| == ParagraphsFor(content[k])
            && forall r :: 0 <= r < |read| ==> IsFromChild(styles, content, before, k, r, read[r])
  {
    hide ReadParagraph, ReadList, StateAfter, IsFromList;
    if content[k].CellList? {
      var list, lists := content[k].list, before + CellLists(content[..k]);
      assert content[..k + 1][..k] == content[..k];
      Regrouped(before, CellLists(content[..k]), [list]);
      ListAfter(styles, list, lists);
    }
  }

  lemma OneMorePiece(styles: StyleMap, content: seq<CellChild>, before: seq<ListElement>, n: nat, ps: seq<Paragraph>, more: seq<Paragraph>)
    requires n < |content| && AreFromChildren(styles, content, before, n, ps)
    requires |more| == ParagraphsFor(content[n]) && forall r :: 0 <= r < |more| ==> IsFromChild(styles, content, before, n, r, more[r])
    ensures AreFromChildren(styles, content, before, n + 1, ps + more)
  {
    hide IsFromChild, ParagraphsFor;
    forall k, place | 0 <= k < n + 1 && 0 <= place && Covers(content, ParagraphsFor, k, place)
      ensures place < |ps + more|
      ensures IsFromChild(styles, content, before, k, place - Before(content, ParagraphsFor, k), (ps + more)[place])
    {
      if k == n { assert (ps + more)[place] == more[place - |ps|]; }
    }
  }

  lemma {:induction false} ContentIsItsChildren(styles: StyleMap, content: seq<CellChild>, before: seq<ListElement>, n: nat)
    requires n <= |content|
    ensures AreFromChildren(styles, content, before, n, ReadCellContent(styles, content[..n], StateAfter(styles, before)).0)
  {
    hide AreFromChildren, IsFromChild, ReadCellContent, ReadCellChild, StateAfter;
    if n == 0 {
      NoPieces(styles, content, before);
    } else {
      var front, last := content[..n - 1], content[n - 1];
      assert content[..n] == front + [last];
      ContentIsItsChildren(styles, content, before, n - 1);
      CellState(styles, front, before);
      OneMorePieceRead(styles, front, last, StateAfter(styles, before));
      ChildReads(styles, content, before, n - 1);
      OneMorePiece(styles, content, before, n - 1, ReadCellContent(styles, front, StateAfter(styles, before)).0,
                   ReadCellChild(styles, last, StateAfter(styles, before + CellLists(front))).0);
    }
  }

  lemma NoPieces(styles: StyleMap, content: seq<CellChild>, before: seq<ListElement>)
    ensures AreFromChildren(styles, content, before, 0, ReadCellContent(styles, content[..0], StateAfter(styles, before)).0)
  {
  }

  /** The same for a cell, which has one empty paragraph if no other. */
  lemma CellIsItsChildren(styles: StyleMap, content: seq<CellChild>, before: seq<ListElement>)
    ensures var ps := ReadCell(styles, content, StateAfter(styles, before)).0.paragraphs;
            if Before(content, ParagraphsFor, |content|) == 0 then ps == [Paragraph("", Automatic, None, 0, false, [])]
            else AreFromChildren(styles, content, before, |content|, ps)
  {
    hide IsFromChild, ReadCellContent, StateAfter;
    ContentIsItsChildren(styles, content, before, |content|);
    assert content[..|content|] == content;
  }

  // ---------------------------------------------------------------- the style of a paragraph

  /** Names that the writer generates say nothing by themselves. */
  predicate IsGenerated(name: string) {
    |name| > 4 && name[..4] == "IGDP" && forall i :: 4 <= i < |name| ==> '0' <= name[i] <= '9'
  }

  /** The style that a paragraph names, if it names one of its own: for a generated one its parent. */
  function NamedStyle(styles: StyleMap, p: ParagraphElement): string {
    var key := StyleKey("paragraph", p.styleName);
    if IsGenerated(p.styleName) then if key in styles then styles[key].parent else ""
    else if p.styleName == "IGDBase" then ""
    else p.styleName
  }

  /** A paragraph has the style that it names. A heading without one has that of its outline level, Heading1 up to
      Heading9, from which the writer tells the same level again. */
  lemma StyleIsNamed(styles: StyleMap, p: ParagraphElement)
    ensures var styleId, level := ReadParagraph(styles, p).styleId, p.outlineLevel.GetOr(1);
            if NamedStyle(styles, p) != "" || !p.heading then styleId == NamedStyle(styles, p)
            else && (level <= 1 ==> styleId == "Heading1") && (level >= 9 ==> styleId == "Heading9")
                 && (1 < level < 9 ==> styleId == "Heading" + ["0123456789"[level]])
                 && HeadingLevel(styleId) == Some(if level < 1 then 1 else if level > 9 then 9 else level)
  {
    hide ReadInlines, ApplyStyle;
    ResolvedNames(styles, "paragraph", p.styleName);
    var level := Clamp(p.outlineLevel.GetOr(1), 1, 9);
    HeadingName(level);
  }

  lemma HeadingName(level: nat)
    requires 1 <= level <= 9
    ensures ToText(level) == ["0123456789"[level]] && HeadingLevel("Heading" + ToText(level)) == Some(level)
    ensures level == 1 ==> "Heading" + ToText(level) == "Heading1"
    ensures level == 9 ==> "Heading" + ToText(level) == "Heading9"
  {
    var name := "Heading" + ToText(level);
    assert name[7..] == ToText(level);
    ValueOfText(level);
  }
}
