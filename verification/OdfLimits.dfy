/** The limits of the reader as bounds on a whole text: how deep it nests, what counts it holds, and which styles it
    names. */
module OdfLimits {
  import opened Wrappers
  import opened OdfStyles
  import opened OdfModel

  // ---------------------------------------------------------------- what stands in a paragraph

  /** How many spans and other elements stand inside each other. */
  function InlineDepth(nodes: seq<Inline>): nat
    decreases nodes
  {
    if nodes == [] then 0 else Max(NodeDepth(nodes[0]), InlineDepth(nodes[1..]))
  }

  function NodeDepth(node: Inline): nat
    decreases node
  {
    match node
    case Span(_, spanned) => 1 + InlineDepth(spanned)
    case Flattened(content) => 1 + InlineDepth(content)
    case _ => 0
  }

  /** The numbers of spaces. */
  function SpaceCounts(nodes: seq<Inline>): seq<Count>
    decreases nodes
  {
    if nodes == [] then [] else NodeCounts(nodes[0]) + SpaceCounts(nodes[1..])
  }

  function NodeCounts(node: Inline): seq<Count>
    decreases node
  {
    match node
    case Space(count) => [count]
    case Span(_, spanned) => SpaceCounts(spanned)
    case Flattened(content) => SpaceCounts(content)
    case _ => []
  }

  /** The text styles that spans name. */
  function SpanStyles(nodes: seq<Inline>): seq<string>
    decreases nodes
  {
    if nodes == [] then [] else NodeStyles(nodes[0]) + SpanStyles(nodes[1..])
  }

  function NodeStyles(node: Inline): seq<string>
    decreases node
  {
    match node
    case Span(styleName, spanned) => [styleName] + SpanStyles(spanned)
    case Flattened(content) => SpanStyles(content)
    case _ => []
  }

  /** Nothing is given, or a number from one to a million. */
  predicate IsCount(c: Count) { c == Absent || (c.Given? && 1 <= c.n <= 1_000_000) }

  predicate AreCounts(cs: seq<Count>) { forall k :: 0 <= k < |cs| ==> IsCount(cs[k]) }

  lemma CountsInParts(a: seq<Count>, b: seq<Count>)
    ensures AreCounts(a + b) <==> AreCounts(a) && AreCounts(b)
  {
    if AreCounts(a + b) {
      assert forall k :: 0 <= k < |a| ==> a[k] == (a + b)[k];
      assert forall k :: 0 <= k < |b| ==> b[k] == (a + b)[|a| + k];
    }
  }

  lemma {:induction false} InlineLimits(nodes: seq<Inline>, depth: nat)
    ensures InlinesReadable(nodes, depth) <==> depth + InlineDepth(nodes) <= 128 && AreCounts(SpaceCounts(nodes))
    decreases nodes
  {
    if nodes != [] {
      hide AreCounts, InlineReadable, NodeDepth, NodeCounts;
      InlineLimits(nodes[1..], depth);
      NodeLimits(nodes[0], depth);
      CountsInParts(NodeCounts(nodes[0]), SpaceCounts(nodes[1..]));
    }
  }

  lemma {:induction false} NodeLimits(node: Inline, depth: nat)
    ensures depth <= 128 ==> (InlineReadable(node, depth) <==> depth + NodeDepth(node) <= 128 && AreCounts(NodeCounts(node)))
    decreases node
  {
    match node
    case Space(count) => OneCount(count);
    case Span(_, spanned) => InlineLimits(spanned, depth + 1);
    case Flattened(content) => InlineLimits(content, depth + 1);
    case _ =>
  }

  lemma OneCount(c: Count)
    ensures AreCounts([c]) <==> CountReadable(c)
    ensures AreCounts([c]) <==> IsCount(c)
  {
    assert [c][0] == c;
  }

  predicate AreShallow(styles: StyleMap, family: string, names: seq<string>) {
    forall k :: 0 <= k < |names| ==> names[k] == "" || !TooDeep(styles, family, names[k])
  }

  lemma ShallowInParts(styles: StyleMap, family: string, a: seq<string>, b: seq<string>)
    ensures AreShallow(styles, family, a + b) <==> AreShallow(styles, family, a) && AreShallow(styles, family, b)
  {
    hide TooDeep;
    if AreShallow(styles, family, a + b) {
      assert forall k :: 0 <= k < |a| ==> a[k] == (a + b)[k];
      assert forall k :: 0 <= k < |b| ==> b[k] == (a + b)[|a| + k];
    }
  }

  lemma {:induction false} InlineStyles(styles: StyleMap, nodes: seq<Inline>)
    ensures InlinesResolve(styles, nodes) <==> AreShallow(styles, "text", SpanStyles(nodes))
    decreases nodes
  {
    if nodes != [] {
      hide TooDeep, AreShallow, InlineResolves, NodeStyles;
      assert nodes == [nodes[0]] + nodes[1..];
      InlineStyles(styles, nodes[1..]);
      NodeStylesResolve(styles, nodes[0]);
      ShallowInParts(styles, "text", NodeStyles(nodes[0]), SpanStyles(nodes[1..]));
    }
  }

  lemma {:induction false} NodeStylesResolve(styles: StyleMap, node: Inline)
    ensures InlineResolves(styles, node) <==> AreShallow(styles, "text", NodeStyles(node))
    decreases node
  {
    hide TooDeep, AreShallow;
    match node
    case Span(styleName, spanned) =>
      InlineStyles(styles, spanned);
      OneName(styles, styleName);
      ShallowInParts(styles, "text", [styleName], SpanStyles(spanned));
    case Flattened(content) => InlineStyles(styles, content);
    case _ => NoNames(styles);
  }

  lemma NoNames(styles: StyleMap)
    ensures AreShallow(styles, "text", [])
  {
  }

  lemma OneName(styles: StyleMap, name: string)
    ensures AreShallow(styles, "text", [name]) <==> name == "" || !TooDeep(styles, "text", name)
  {
    hide TooDeep;
    assert [name][0] == name;
  }

  // ---------------------------------------------------------------- what stands in a text

  /** The parts of a text that the limits speak of. */
  datatype Parts = Parts(paragraphs: seq<ParagraphElement>, lists: seq<ListElement>, counts: seq<Count>)
  {
    function Plus(other: Parts): Parts {
      Parts(paragraphs + other.paragraphs, lists + other.lists, counts + other.counts)
    }
  }

  const NO_PARTS := Parts([], [], [])

  /** How many lists stand inside each other in the items. */
  function ListDepth(items: seq<ListChild>): nat
    decreases items
  {
    if items == [] then 0
    else
      Max(match items[0]
          case ListItem(content) => ItemDepth(content)
          case ListHeader(headings) => ItemDepth(headings)
          case OtherListChild => 0,
          ListDepth(items[1..]))
  }

  function ItemDepth(content: seq<ItemChild>): nat
    decreases content
  {
    if content == [] then 0 else Max(ChildDepth(content[0]), ItemDepth(content[1..]))
  }

  function ChildDepth(child: ItemChild): nat
    decreases child
  {
    match child case ItemList(list) => 1 + ListDepth(list.items) case _ => 0
  }

  /** The paragraphs of items and headers, however deep. */
  function ListParagraphs(items: seq<ListChild>): seq<ParagraphElement>
    decreases items
  {
    if items == [] then []
    else
      (match items[0]
       case ListItem(content) => ItemParagraphs(content)
       case ListHeader(headings) => ItemParagraphs(headings)
       case OtherListChild => [])
      + ListParagraphs(items[1..])
  }

  function ItemParagraphs(content: seq<ItemChild>): seq<ParagraphElement>
    decreases content
  {
    if content == [] then [] else ChildParagraphs(content[0]) + ItemParagraphs(content[1..])
  }

  function ChildParagraphs(child: ItemChild): seq<ParagraphElement>
    decreases child
  {
    match child case ItemParagraph(p) => [p] case ItemList(list) => ListParagraphs(list.items) case OtherItemChild => []
  }

  function ListParts(list: ListElement): Parts { Parts(ListParagraphs(list.items), [list], []) }

  function CellParts(content: seq<CellChild>): Parts {
    if content == [] then NO_PARTS
    else
      (match content[0]
       case CellParagraph(p) => Parts([p], [], [])
       case CellList(list) => ListParts(list)
       case OtherCellChild => NO_PARTS).Plus(CellParts(content[1..]))
  }

  function RowParts(children: seq<RowChild>): Parts {
    if children == [] then NO_PARTS
    else
      (match children[0]
       case TableCell(repeated, content) => Parts([], [], [repeated]).Plus(CellParts(content))
       case CoveredCell(repeated) => Parts([], [], [repeated])
       case OtherRowChild => NO_PARTS).Plus(RowParts(children[1..]))
  }

  function TableParts(children: seq<TableChild>): Parts {
    if children == [] then NO_PARTS
    else
      (match children[0]
       case TableRow(repeated, cells) => Parts([], [], [repeated]).Plus(RowParts(cells))
       case OtherTableChild => NO_PARTS).Plus(TableParts(children[1..]))
  }

  function PartsOf(elements: seq<BlockElement>): Parts
    decreases elements
  {
    if elements == [] then NO_PARTS else ElementParts(elements[0]).Plus(PartsOf(elements[1..]))
  }

  function ElementParts(element: BlockElement): Parts
    decreases element
  {
    match element
    case BlockParagraph(p) => OnlyParagraphs([p])
    case BlockList(list) => ListParts(list)
    case BlockTable(children) => TableParts(children)
    case Section(inner) => PartsOf(inner)
    case OtherBlock => NO_PARTS
  }

  function SectionDepth(elements: seq<BlockElement>): nat
    decreases elements
  {
    if elements == [] then 0
    else Max(if elements[0].Section? then 1 + SectionDepth(elements[0].blocks) else 0, SectionDepth(elements[1..]))
  }

  /** No paragraph holds more than 128 spans and other elements inside each other, or a bad number of spaces. */
  predicate IsPlainEnough(p: ParagraphElement) { InlineDepth(p.content) <= 128 && AreCounts(SpaceCounts(p.content)) }

  /** All limits on the parts. */
  ghost predicate AreWithin(parts: Parts) {
    && (forall k :: 0 <= k < |parts.paragraphs| ==> IsPlainEnough(parts.paragraphs[k]))
    && (forall k :: 0 <= k < |parts.lists| ==> ListDepth(parts.lists[k].items) <= 128)
    && AreCounts(parts.counts)
  }

  /** All styles that are resolved for the parts. */
  ghost predicate HaveShallowStyles(styles: StyleMap, parts: Parts) {
    forall k :: 0 <= k < |parts.paragraphs| ==>
      !TooDeep(styles, "paragraph", parts.paragraphs[k].styleName)
      && AreShallow(styles, "text", SpanStyles(parts.paragraphs[k].content))
  }

  lemma PartsJoin(styles: StyleMap, a: Parts, b: Parts)
    ensures AreWithin(a.Plus(b)) <==> AreWithin(a) && AreWithin(b)
    ensures HaveShallowStyles(styles, a.Plus(b)) <==> HaveShallowStyles(styles, a) && HaveShallowStyles(styles, b)
  {
    hide TooDeep, IsPlainEnough, ListDepth, AreCounts, AreShallow;
    CountsInParts(a.counts, b.counts);
    var all := a.Plus(b);
    forall k | 0 <= k < |b.paragraphs| ensures b.paragraphs[k] == all.paragraphs[|a.paragraphs| + k] {}
    forall k | 0 <= k < |b.lists| ensures b.lists[k] == all.lists[|a.lists| + k] {}
    assert forall k :: 0 <= k < |a.paragraphs| ==> a.paragraphs[k] == all.paragraphs[k];
    assert forall k :: 0 <= k < |a.lists| ==> a.lists[k] == all.lists[k];
  }

  // ---------------------------------------------------------------- the limits are these

  function OnlyParagraphs(ps: seq<ParagraphElement>): Parts { Parts(ps, [], []) }

  lemma MoreParagraphs(styles: StyleMap, a: seq<ParagraphElement>, b: seq<ParagraphElement>)
    ensures AreWithin(OnlyParagraphs(a + b)) <==> AreWithin(OnlyParagraphs(a)) && AreWithin(OnlyParagraphs(b))
    ensures HaveShallowStyles(styles, OnlyParagraphs(a + b))
            <==> HaveShallowStyles(styles, OnlyParagraphs(a)) && HaveShallowStyles(styles, OnlyParagraphs(b))
  {
    hide AreWithin, HaveShallowStyles;
    PartsJoin(styles, OnlyParagraphs(a), OnlyParagraphs(b));
    assert OnlyParagraphs(a).Plus(OnlyParagraphs(b)) == OnlyParagraphs(a + b);
  }

  lemma NoPartsAtAll(styles: StyleMap)
    ensures AreWithin(NO_PARTS) && HaveShallowStyles(styles, NO_PARTS) && OnlyParagraphs([]) == NO_PARTS
  {
  }

  lemma ParagraphLimits(styles: StyleMap, p: ParagraphElement)
    ensures AreWithin(OnlyParagraphs([p])) <==> ParagraphReadable(p)
    ensures HaveShallowStyles(styles, OnlyParagraphs([p])) <==> ParagraphResolves(styles, p)
  {
    hide TooDeep, InlineDepth, SpaceCounts, InlinesReadable, InlinesResolve, AreShallow;
    assert OnlyParagraphs([p]).paragraphs[0] == p;
    InlineLimits(p.content, 0);
    InlineStyles(styles, p.content);
  }

  lemma {:induction false} ItemsLimits(styles: StyleMap, items: seq<ListChild>, depth: nat)
    requires depth <= 128
    ensures ItemsReadable(items, depth) <==> depth + ListDepth(items) <= 128 && AreWithin(OnlyParagraphs(ListParagraphs(items)))
    ensures ItemsResolve(styles, items) <==> HaveShallowStyles(styles, OnlyParagraphs(ListParagraphs(items)))
    decreases items
  {
    hide AreWithin, HaveShallowStyles, ListChildResolves;
    NoPartsAtAll(styles);
    if items != [] {
      assert items == [items[0]] + items[1..];
      ItemsLimits(styles, items[1..], depth);
      ListChildLimits(styles, items[0], depth);
      hide ListChildReadable;
      MoreParagraphs(styles, match items[0]
                             case ListItem(content) => ItemParagraphs(content)
                             case ListHeader(headings) => ItemParagraphs(headings)
                             case OtherListChild => [],
                     ListParagraphs(items[1..]));
    }
  }

  lemma {:induction false} ListChildLimits(styles: StyleMap, child: ListChild, depth: nat)
    requires depth <= 128
    ensures var (deep, ps) := match child
                              case ListItem(content) => (ItemDepth(content), ItemParagraphs(content))
                              case ListHeader(headings) => (ItemDepth(headings), ItemParagraphs(headings))
                              case OtherListChild => (0, []);
            && (ListChildReadable(child, depth) <==> depth + deep <= 128 && AreWithin(OnlyParagraphs(ps)))
            && (ListChildResolves(styles, child) <==> HaveShallowStyles(styles, OnlyParagraphs(ps)))
    decreases child
  {
    hide AreWithin, HaveShallowStyles;
    match child
    case ListItem(content) => ItemLimits(styles, content, depth);
    case ListHeader(headings) => ItemLimits(styles, headings, depth);
    case OtherListChild => NoPartsAtAll(styles);
  }

  lemma {:induction false} ItemLimits(styles: StyleMap, content: seq<ItemChild>, depth: nat)
    requires depth <= 128
    ensures ItemReadable(content, depth) <==> depth + ItemDepth(content) <= 128 && AreWithin(OnlyParagraphs(ItemParagraphs(content)))
    ensures ItemResolves(styles, content) <==> HaveShallowStyles(styles, OnlyParagraphs(ItemParagraphs(content)))
    decreases content
  {
    hide AreWithin, HaveShallowStyles, ItemChildResolves, ChildDepth, ChildParagraphs;
    NoPartsAtAll(styles);
    if content != [] {
      assert content == [content[0]] + content[1..];
      ItemLimits(styles, content[1..], depth);
      ChildLimits(styles, content[0], depth);
      hide ItemChildReadable;
      MoreParagraphs(styles, ChildParagraphs(content[0]), ItemParagraphs(content[1..]));
    }
  }

  lemma {:induction false} ChildLimits(styles: StyleMap, child: ItemChild, depth: nat)
    requires depth <= 128
    ensures ItemChildReadable(child, depth) <==> depth + ChildDepth(child) <= 128 && AreWithin(OnlyParagraphs(ChildParagraphs(child)))
    ensures ItemChildResolves(styles, child) <==> HaveShallowStyles(styles, OnlyParagraphs(ChildParagraphs(child)))
    decreases child
  {
    hide AreWithin, HaveShallowStyles, ParagraphReadable, ParagraphResolves, ItemsResolve, ItemsReadable;
    match child
    case ItemParagraph(p) => ParagraphLimits(styles, p);
    case ItemList(list) => ItemsLimits(styles, list.items, if depth < 128 then depth + 1 else 0);
    case OtherItemChild => NoPartsAtAll(styles);
  }

  lemma ListLimits(styles: StyleMap, list: ListElement)
    ensures ListReadable(list, 0) <==> AreWithin(ListParts(list))
    ensures ListResolves(styles, list) <==> HaveShallowStyles(styles, ListParts(list))
  {
    hide TooDeep, IsPlainEnough, ItemsReadable, ItemsResolve, AreShallow, SpanStyles;
    ItemsLimits(styles, list.items, 0);
    assert ListParts(list).lists[0] == list;
  }

  lemma OnlyOneCount(styles: StyleMap, c: Count)
    ensures AreWithin(Parts([], [], [c])) <==> CountReadable(c)
    ensures HaveShallowStyles(styles, Parts([], [], [c]))
  {
    OneCount(c);
  }

  lemma {:induction false} CellLimits(styles: StyleMap, content: seq<CellChild>)
    ensures CellReadable(content) <==> AreWithin(CellParts(content))
    ensures CellResolves(styles, content) <==> HaveShallowStyles(styles, CellParts(content))
  {
    hide AreWithin, HaveShallowStyles, ParagraphReadable, ParagraphResolves, ListReadable, ListResolves, ListParts;
    NoPartsAtAll(styles);
    if content != [] {
      var first, rest := content[0], content[1..];
      assert CellResolves(styles, content) <==> CellChildResolves(styles, first) && CellResolves(styles, rest) by {
        hide CellChildResolves;
        assert content == [first] + rest;
      }
      CellLimits(styles, rest);
      hide CellResolves;
      match first {
      case CellParagraph(p) =>
        ParagraphLimits(styles, p);
        PartsJoin(styles, OnlyParagraphs([p]), CellParts(rest));
      case CellList(list) =>
        ListLimits(styles, list);
        PartsJoin(styles, ListParts(list), CellParts(rest));
      case OtherCellChild =>
        PartsJoin(styles, NO_PARTS, CellParts(rest));
      }
    }
  }

  lemma {:induction false} RowLimits(styles: StyleMap, children: seq<RowChild>)
    ensures RowReadable(children) <==> AreWithin(RowParts(children))
    ensures RowResolves(styles, children) <==> HaveShallowStyles(styles, RowParts(children))
  {
    hide AreWithin, HaveShallowStyles, CellReadable, CellResolves, CellParts, CountReadable;
    NoPartsAtAll(styles);
    if children != [] {
      var first, rest := children[0], children[1..];
      assert RowResolves(styles, children) <==> RowChildResolves(styles, first) && RowResolves(styles, rest) by {
        hide RowChildResolves;
        assert children == [first] + rest;
      }
      RowLimits(styles, rest);
      hide RowResolves;
      match first {
      case TableCell(repeated, content) =>
        var count := Parts([], [], [repeated]);
        OnlyOneCount(styles, repeated);
        CellLimits(styles, content);
        PartsJoin(styles, count, CellParts(content));
        PartsJoin(styles, count.Plus(CellParts(content)), RowParts(rest));
      case CoveredCell(repeated) =>
        OnlyOneCount(styles, repeated);
        PartsJoin(styles, Parts([], [], [repeated]), RowParts(rest));
      case OtherRowChild =>
        PartsJoin(styles, NO_PARTS, RowParts(rest));
      }
    }
  }

  lemma {:induction false} TableLimits(styles: StyleMap, children: seq<TableChild>)
    ensures TableReadable(children) <==> AreWithin(TableParts(children))
    ensures TableResolves(styles, children) <==> HaveShallowStyles(styles, TableParts(children))
  {
    hide AreWithin, HaveShallowStyles, RowReadable, RowResolves, RowParts, CountReadable;
    NoPartsAtAll(styles);
    if children != [] {
      var first, rest := children[0], children[1..];
      assert TableResolves(styles, children) <==> TableChildResolves(styles, first) && TableResolves(styles, rest) by {
        hide TableChildResolves;
        assert children == [first] + rest;
      }
      TableLimits(styles, rest);
      hide TableResolves;
      match first {
      case TableRow(repeated, cells) =>
        var count := Parts([], [], [repeated]);
        OnlyOneCount(styles, repeated);
        RowLimits(styles, cells);
        PartsJoin(styles, count, RowParts(cells));
        PartsJoin(styles, count.Plus(RowParts(cells)), TableParts(rest));
      case OtherTableChild =>
        PartsJoin(styles, NO_PARTS, TableParts(rest));
      }
    }
  }

  lemma {:induction false} ElementLimits(styles: StyleMap, element: BlockElement, depth: nat)
    requires depth <= 128
    ensures BlockReadable(element, depth)
            <==> depth + (if element.Section? then 1 + SectionDepth(element.blocks) else 0) <= 128 && AreWithin(ElementParts(element))
    ensures BlockResolves(styles, element) <==> HaveShallowStyles(styles, ElementParts(element))
    decreases element
  {
    hide AreWithin, HaveShallowStyles, ParagraphReadable, ParagraphResolves, ListReadable, ListResolves, TableReadable,
         TableResolves, ListParts, TableParts;
    match element
    case BlockParagraph(p) => ParagraphLimits(styles, p);
    case BlockList(list) => ListLimits(styles, list);
    case BlockTable(children) => TableLimits(styles, children);
    case Section(inner) => ElementsLimits(styles, inner, depth + 1);
    case OtherBlock => NoPartsAtAll(styles);
  }

  lemma {:induction false} ElementsLimits(styles: StyleMap, elements: seq<BlockElement>, depth: nat)
    ensures BlocksReadable(elements, depth) <==> depth + SectionDepth(elements) <= 128 && AreWithin(PartsOf(elements))
    ensures BlocksResolve(styles, elements) <==> HaveShallowStyles(styles, PartsOf(elements))
    decreases elements
  {
    hide AreWithin, HaveShallowStyles, BlockReadable, BlockResolves, ElementParts;
    NoPartsAtAll(styles);
    if elements != [] {
      assert elements == [elements[0]] + elements[1..];
      ElementsLimits(styles, elements[1..], depth);
      ElementLimits(styles, elements[0], if depth <= 128 then depth else 0);
      PartsJoin(styles, ElementParts(elements[0]), PartsOf(elements[1..]));
    }
  }

  /** A text is within the reader's limits on nesting, repetition and styles exactly when at most 128 sections stand
      inside each other, the same holds of every list and of what stands in every paragraph, in cells, items and headers
      too, every number of columns, rows and spaces is absent or from one to a million, and no style that is named has
      too many parents. */
  lemma LimitsAre(styles: StyleMap, elements: seq<BlockElement>)
    ensures BlocksReadable(elements, 0) <==> SectionDepth(elements) <= 128 && AreWithin(PartsOf(elements))
    ensures BlocksResolve(styles, elements) <==> HaveShallowStyles(styles, PartsOf(elements))
  {
    hide AreWithin, HaveShallowStyles;
    ElementsLimits(styles, elements, 0);
  }
}
