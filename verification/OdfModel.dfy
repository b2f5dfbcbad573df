/** The flow model, the OpenDocument elements it is read from, and what reading them gives when there is
    no budget to run out of. */
module OdfModel {
  import opened Wrappers
  import opened Decimal
  import opened Unicode
  import opened OdfStyles

  type Chars = seq<Char32>

  // ---------------------------------------------------------------- the flow model

  datatype RunProperties = RunProperties(
    bold: bool, italic: bool, underline: bool,
    fontFamily: string, eastAsiaFontFamily: string, fontSizePoints: real, color: string)

  const PLAIN := RunProperties(false, false, false, "", "", 0.0, "")

  /** The text is UTF-8. */
  datatype Run = Run(text: Bytes, properties: RunProperties)

  datatype Paragraph = Paragraph(
    styleId: string,
    alignment: Alignment,
    numberingId: Option<int>,
    numberingLevel: int,
    numberingContinuation: bool,
    runs: seq<Run>)

  const EMPTY_PARAGRAPH := Paragraph("", Automatic, None, 0, false, [])

  datatype Cell = Cell(paragraphs: seq<Paragraph>)
  datatype Row = Row(cells: seq<Cell>)
  datatype Table = Table(rows: seq<Row>)
  datatype Block = ParagraphBlock(paragraph: Paragraph) | TableBlock(table: Table)

  // ---------------------------------------------------------------- the elements

  /** An attribute holding an unsigned number. */
  datatype Count = Absent | Unreadable | Given(n: nat)

  /** What stands inside a paragraph. */
  datatype Inline =
    | Characters(text: Chars)
    | Space(count: Count)
    | Tab
    | LineBreak
    | Span(styleName: string, spanned: seq<Inline>)
    | Flattened(content: seq<Inline>)   // links and unsupported elements
    | Omitted                           // notes, annotations and drawings

  /** text:p or text:h. */
  datatype ParagraphElement = ParagraphElement(
    heading: bool, styleName: string, outlineLevel: Option<int>, content: seq<Inline>)

  datatype ListAttributes = ListAttributes(
    styleName: string, continueList: string, elementId: string, continueNumbering: bool)

  datatype ListElement = ListElement(attributes: ListAttributes, items: seq<ListChild>)
  datatype ListChild = ListItem(content: seq<ItemChild>) | ListHeader(headings: seq<ItemChild>) | OtherListChild
  datatype ItemChild = ItemParagraph(paragraph: ParagraphElement) | ItemList(list: ListElement) | OtherItemChild

  datatype CellChild = CellParagraph(paragraph: ParagraphElement) | CellList(list: ListElement) | OtherCellChild
  datatype RowChild =
    | TableCell(columnsRepeated: Count, content: seq<CellChild>)
    | CoveredCell(coveredRepeated: Count)
    | OtherRowChild
  datatype TableChild = TableRow(rowsRepeated: Count, children: seq<RowChild>) | OtherTableChild
  datatype BlockElement =
    | BlockParagraph(paragraph: ParagraphElement)
    | BlockList(list: ListElement)
    | BlockTable(children: seq<TableChild>)
    | Section(blocks: seq<BlockElement>)
    | OtherBlock

  /** What stands inside office:body. */
  datatype BodyChild = OfficeText(elements: seq<BlockElement>) | OtherBodyChild

  // ---------------------------------------------------------------- costs

  const MAXIMUM_EXPANDED_ITEMS: nat := 1_000_000

  datatype Cost = Cost(items: nat, characters: nat)
  {
    function Plus(other: Cost): Cost { Cost(items + other.items, characters + other.characters) }
    function Times(n: nat): Cost { Cost(items * n, characters * n) }
  }

  const FREE := Cost(0, 0)

  /** The costs of all elements together. */
  function Sum<T>(xs: seq<T>, cost: T -> Cost): Cost {
    if xs == [] then FREE else Sum(xs[..|xs| - 1], cost).Plus(cost(xs[|xs| - 1]))
  }

  function RunCost(r: Run): Cost { Cost(1, |r.text|) }

  function RunsCost(runs: seq<Run>): Cost { Sum(runs, RunCost) }

  /** modelCost of a paragraph, a cell and a row, and the same for a table and a document. */
  function ParagraphCost(p: Paragraph): Cost { Cost(1, 0).Plus(RunsCost(p.runs)) }

  function ParagraphsCost(ps: seq<Paragraph>): Cost { Sum(ps, ParagraphCost) }

  function CellCost(c: Cell): Cost { Cost(1, 0).Plus(ParagraphsCost(c.paragraphs)) }

  function CellsCost(cs: seq<Cell>): Cost { Sum(cs, CellCost) }

  function RowCost(r: Row): Cost { Cost(1, 0).Plus(CellsCost(r.cells)) }

  function RowsCost(rs: seq<Row>): Cost { Sum(rs, RowCost) }

  function TableCost(t: Table): Cost { Cost(1, 0).Plus(RowsCost(t.rows)) }

  function BlockCost(b: Block): Cost {
    match b case ParagraphBlock(p) => ParagraphCost(p) case TableBlock(t) => TableCost(t)
  }

  function BlocksCost(bs: seq<Block>): Cost { Sum(bs, BlockCost) }

  // ---------------------------------------------------------------- runs

  /** A paragraph being read: its runs, whether the next text starts a run, and the whitespace state. */
  datatype Reading = Reading(runs: seq<Run>, forceNewRun: bool, hasOutput: bool, pendingSpace: bool)

  predicate StartsRun(r: Reading, properties: RunProperties) {
    r.forceNewRun || r.runs == [] || r.runs[|r.runs| - 1].properties != properties
  }

  /** appendRunText without its charges. */
  function Appended(r: Reading, text: Chars, properties: RunProperties): Reading {
    if text == [] then r
    else if StartsRun(r, properties) then r.(runs := r.runs + [Run(Encode(text), properties)], forceNewRun := false)
    else
      var last := |r.runs| - 1;
      r.(runs := r.runs[last := r.runs[last].(text := r.runs[last].text + Encode(text))], forceNewRun := false)
  }

  predicate IsCollapsible(c: Char32) { c == 0x20 || c == 0x0A || c == 0x0D || c == 0x09 }

  /** consumePendingOdfSpace. */
  function PendingSpace(r: Reading): Chars { if r.pendingSpace && r.hasOutput then [0x20] else [] }

  /** normalizedOdfCharacters: what a chunk of character data adds to the text, and the state after it. */
  function Normalized(text: Chars, hasOutput: bool, pendingSpace: bool): (Chars, bool, bool) {
    if text == [] then ([], hasOutput, pendingSpace)
    else if IsCollapsible(text[0]) then Normalized(text[1..], hasOutput, hasOutput)
    else
      var (rest, output, pending) := Normalized(text[1..], true, false);
      ((if pendingSpace && hasOutput then [0x20] else []) + [text[0]] + rest, output, pending)
  }

  function ApplyStyle(s: Style, p: RunProperties): RunProperties {
    p.(bold := s.bold.GetOr(p.bold), italic := s.italic.GetOr(p.italic), underline := s.underline.GetOr(p.underline),
       fontFamily := s.fontFamily.GetOr(p.fontFamily),
       eastAsiaFontFamily := s.eastAsiaFontFamily.GetOr(p.eastAsiaFontFamily),
       fontSizePoints := s.fontSizePoints.GetOr(p.fontSizePoints), color := s.color.GetOr(p.color))
  }

  function SpanProperties(styles: StyleMap, styleName: string, p: RunProperties): RunProperties {
    if styleName == "" then p else ApplyStyle(Resolve(styles, "text", styleName), p)
  }

  function SpaceCount(c: Count): nat { match c case Given(n) => n case _ => 1 }

  function Spaces(n: nat): (s: Chars)
    ensures |s| == n && forall i :: 0 <= i < n ==> s[i] == 0x20
  {
    seq(n, _ => 0x20)
  }

  /** Text that whitespace rules leave alone, after whatever space is pending. */
  function AppendedHard(r: Reading, text: Chars, properties: RunProperties): Reading {
    Appended(r.(pendingSpace := false), PendingSpace(r) + text, properties).(hasOutput := true)
  }

  /** parseInlineElement's treatment of one node. */
  function ReadInline(styles: StyleMap, node: Inline, properties: RunProperties, r: Reading): Reading
    decreases node
  {
    match node
    case Characters(text) =>
      var (normal, output, pending) := Normalized(text, r.hasOutput, r.pendingSpace);
      Appended(r.(hasOutput := output, pendingSpace := pending), normal, properties)
    case Space(count) => AppendedHard(r, Spaces(SpaceCount(count)), properties)
    case Tab => AppendedHard(r, [0x09], properties)
    case LineBreak => AppendedHard(r, [0x0A], properties)
    case Span(styleName, spanned) =>
      ReadInlines(styles, spanned, SpanProperties(styles, styleName, properties), r.(forceNewRun := true))
        .(forceNewRun := true)
    case Flattened(content) => ReadInlines(styles, content, properties, r)
    case Omitted => r
  }

  function ReadInlines(styles: StyleMap, nodes: seq<Inline>, properties: RunProperties, r: Reading): Reading
    decreases nodes
  {
    if nodes == [] then r
    else ReadInlines(styles, nodes[1..], properties, ReadInline(styles, nodes[0], properties, r))
  }

  // ---------------------------------------------------------------- paragraphs

  predicate GeneratedStyleName(name: string, prefix: string) {
    |name| > |prefix| && name[..|prefix|] == prefix && AllDigits(name[|prefix|..])
  }

  function Clamp(n: int, low: int, high: int): int { if n < low then low else if n > high then high else n }

  function ParagraphStyleId(p: ParagraphElement, resolved: Style): string {
    var named := if p.styleName == "" then ""
                 else if GeneratedStyleName(p.styleName, "IGDP") then resolved.parent
                 else if p.styleName == "IGDBase" then ""
                 else p.styleName;
    if p.heading && named == "" then "Heading" + ToText(Clamp(p.outlineLevel.GetOr(1), 1, 9)) else named
  }

  const FRESH_READING := Reading([], true, false, false)

  /** parseParagraph without its charges. */
  function ReadParagraph(styles: StyleMap, p: ParagraphElement): Paragraph {
    var resolved := Resolve(styles, "paragraph", p.styleName);
    var reading := ReadInlines(styles, p.content, ApplyStyle(resolved, PLAIN), FRESH_READING);
    Paragraph(ParagraphStyleId(p, resolved), resolved.alignment.GetOr(Automatic), None, 0, false, reading.runs)
  }

  // ---------------------------------------------------------------- lists

  /** The list bookkeeping of the read context. */
  datatype ListState = ListState(
    listElementIdentifiers: map<string, int>,
    lastTopLevelListIdentifier: Option<int>,
    lastTopLevelListStyleName: Option<string>,
    nextListIdentifier: int)

  /** What a list adds to a paragraph read directly in it. */
  function Numbered(p: Paragraph, isItem: bool, level: int, id: int, numbered: bool): Paragraph {
    if isItem then p.(numberingId := Some(id), numberingLevel := Clamp(level, 0, 8), numberingContinuation := numbered)
    else p
  }

  /** One child of an item or header; `numbered` tells whether the item already holds a numbered paragraph. */
  function ReadItemChild(styles: StyleMap, child: ItemChild, isItem: bool, level: int, id: int, numbered: bool): seq<Paragraph>
    decreases child
  {
    match child
    case ItemParagraph(p) => [Numbered(ReadParagraph(styles, p), isItem, level, id, numbered)]
    case ItemList(list) => ReadNestedList(styles, list, level + 1, id)
    case OtherItemChild => []
  }

  function ReadItem(styles: StyleMap, content: seq<ItemChild>, isItem: bool, level: int, id: int, numbered: bool): seq<Paragraph>
    decreases content
  {
    if content == [] then []
    else
      ReadItemChild(styles, content[0], isItem, level, id, numbered)
      + ReadItem(styles, content[1..], isItem, level, id, numbered || (isItem && content[0].ItemParagraph?))
  }

  /** parseListParagraphs for a list inside an item: its paragraphs inherit the identifier. */
  function ReadNestedList(styles: StyleMap, list: ListElement, level: int, id: int): seq<Paragraph>
    decreases list
  {
    ReadItems(styles, list.items, level, id)
  }

  function ReadListChild(styles: StyleMap, child: ListChild, level: int, id: int): seq<Paragraph>
    decreases child
  {
    match child
    case ListItem(content) => ReadItem(styles, content, true, level, id, false)
    case ListHeader(headings) => ReadItem(styles, headings, false, level, id, false)
    case OtherListChild => []
  }

  function ReadItems(styles: StyleMap, items: seq<ListChild>, level: int, id: int): seq<Paragraph>
    decreases items
  {
    if items == [] then [] else ReadListChild(styles, items[0], level, id) + ReadItems(styles, items[1..], level, id)
  }

  function FirstOf(a: Option<string>, b: Option<string>): Option<string> { if a.Some? then a else b }

  /** The list style of the first paragraph directly in an item. */
  function InferredInChild(styles: StyleMap, child: ItemChild): Option<string> {
    if child.ItemParagraph? then Some(Resolve(styles, "paragraph", child.paragraph.styleName).listStyleName.GetOr(""))
    else None
  }

  function InferredInItem(styles: StyleMap, content: seq<ItemChild>): Option<string> {
    if content == [] then None
    else FirstOf(InferredInChild(styles, content[0]), InferredInItem(styles, content[1..]))
  }

  function InferredStyle(styles: StyleMap, items: seq<ListChild>): Option<string> {
    if items == [] then None
    else
      FirstOf(if items[0].ListItem? then InferredInItem(styles, items[0].content) else None,
              InferredStyle(styles, items[1..]))
  }

  function EffectiveStyle(styles: StyleMap, list: ListElement): string {
    if list.attributes.styleName != "" then list.attributes.styleName
    else InferredStyle(styles, list.items).GetOr("")
  }

  /** finalizeTopLevelListIdentifier: the identifier a top-level list ends up with. */
  function FinalIdentifier(a: ListAttributes, style: string, provisional: int, s: ListState): int {
    if a.continueList != "" then
      if a.continueList in s.listElementIdentifiers then s.listElementIdentifiers[a.continueList] else provisional
    else if a.continueNumbering && s.lastTopLevelListIdentifier.Some? && s.lastTopLevelListStyleName == Some(style)
    then s.lastTopLevelListIdentifier.value
    else provisional
  }

  function Finalized(a: ListAttributes, style: string, id: int, s: ListState): ListState {
    s.(listElementIdentifiers := if a.elementId == "" || a.elementId in s.listElementIdentifiers then s.listElementIdentifiers
                                 else s.listElementIdentifiers[a.elementId := id],
       lastTopLevelListIdentifier := Some(id),
       lastTopLevelListStyleName := Some(style))
  }

  /** Paragraphs numbered `from` are numbered `to`. */
  function Renumbered(ps: seq<Paragraph>, from: int, to: int): (out: seq<Paragraph>)
    ensures |out| == |ps|
    ensures forall i :: 0 <= i < |ps| ==>
              out[i] == if ps[i].numberingId == Some(from) then ps[i].(numberingId := Some(to)) else ps[i]
  {
    seq(|ps|, i requires 0 <= i < |ps| =>
      if ps[i].numberingId == Some(from) then ps[i].(numberingId := Some(to)) else ps[i])
  }

  lemma RenumberedToItself(ps: seq<Paragraph>, id: int)
    ensures Renumbered(ps, id, id) == ps
  {
  }

  /** parseListParagraphs for a top-level list. */
  function ReadList(styles: StyleMap, list: ListElement, s: ListState): (seq<Paragraph>, ListState) {
    var provisional := s.nextListIdentifier;
    var begun := s.(nextListIdentifier := provisional + 1);
    var ps := ReadItems(styles, list.items, 0, provisional);
    var style := EffectiveStyle(styles, list);
    var id := FinalIdentifier(list.attributes, style, provisional, begun);
    (Renumbered(ps, provisional, id), Finalized(list.attributes, style, id, begun))
  }

  // ---------------------------------------------------------------- tables and bodies

  function ReadCellChild(styles: StyleMap, child: CellChild, s: ListState): (seq<Paragraph>, ListState) {
    match child
    case CellParagraph(p) => ([ReadParagraph(styles, p)], s)
    case CellList(list) => ReadList(styles, list, s)
    case OtherCellChild => ([], s)
  }

  function ReadCellContent(styles: StyleMap, content: seq<CellChild>, s: ListState): (seq<Paragraph>, ListState) {
    if content == [] then ([], s)
    else
      var (first, between) := ReadCellChild(styles, content[0], s);
      var (rest, after) := ReadCellContent(styles, content[1..], between);
      (first + rest, after)
  }

  /** A cell always holds a paragraph. */
  function ReadCell(styles: StyleMap, content: seq<CellChild>, s: ListState): (Cell, ListState) {
    var (ps, after) := ReadCellContent(styles, content, s);
    (Cell(if ps == [] then [EMPTY_PARAGRAPH] else ps), after)
  }

  function Repeats(c: Count): nat { match c case Given(n) => n case _ => 1 }

  function Copies<T>(x: T, n: nat): (xs: seq<T>)
    ensures |xs| == n && forall i :: 0 <= i < n ==> xs[i] == x
  {
    seq(n, _ => x)
  }

  /** A cell and its repetitions. */
  function ReadRowChild(styles: StyleMap, child: RowChild, s: ListState): (seq<Cell>, ListState) {
    match child
    case TableCell(repeated, content) =>
      var (cell, after) := ReadCell(styles, content, s);
      (Copies(cell, Repeats(repeated)), after)
    case CoveredCell(repeated) => (Copies(Cell([EMPTY_PARAGRAPH]), Repeats(repeated)), s)
    case OtherRowChild => ([], s)
  }

  function ReadRow(styles: StyleMap, children: seq<RowChild>, s: ListState): (seq<Cell>, ListState) {
    if children == [] then ([], s)
    else
      var (first, between) := ReadRowChild(styles, children[0], s);
      var (rest, after) := ReadRow(styles, children[1..], between);
      (first + rest, after)
  }

  /** A row and its repetitions. */
  function ReadTableChild(styles: StyleMap, child: TableChild, s: ListState): (seq<Row>, ListState) {
    match child
    case TableRow(repeated, cells) =>
      var (read, after) := ReadRow(styles, cells, s);
      (Copies(Row(read), Repeats(repeated)), after)
    case OtherTableChild => ([], s)
  }

  function ReadTable(styles: StyleMap, children: seq<TableChild>, s: ListState): (seq<Row>, ListState) {
    if children == [] then ([], s)
    else
      var (first, between) := ReadTableChild(styles, children[0], s);
      var (rest, after) := ReadTable(styles, children[1..], between);
      (first + rest, after)
  }

  function AsBlocks(ps: seq<Paragraph>): (bs: seq<Block>)
    ensures |bs| == |ps| && forall i :: 0 <= i < |ps| ==> bs[i] == ParagraphBlock(ps[i])
  {
    seq(|ps|, i requires 0 <= i < |ps| => ParagraphBlock(ps[i]))
  }

  function ReadBlock(styles: StyleMap, b: BlockElement, s: ListState): (seq<Block>, ListState)
    decreases b
  {
    match b
    case BlockParagraph(p) => ([ParagraphBlock(ReadParagraph(styles, p))], s)
    case BlockList(list) => var (ps, after) := ReadList(styles, list, s); (AsBlocks(ps), after)
    case BlockTable(children) => var (rows, after) := ReadTable(styles, children, s); ([TableBlock(Table(rows))], after)
    case Section(blocks) => ReadBlocks(styles, blocks, s)
    case OtherBlock => ([], s)
  }

  /** parseBlockContainer without its charges. */
  function ReadBlocks(styles: StyleMap, blocks: seq<BlockElement>, s: ListState): (seq<Block>, ListState)
    decreases blocks
  {
    if blocks == [] then ([], s)
    else
      var (first, between) := ReadBlock(styles, blocks[0], s);
      var (rest, after) := ReadBlocks(styles, blocks[1..], between);
      (first + rest, after)
  }

  /** No list read yet. */
  const NO_LISTS := ListState(map[], None, None, 1)

  function ReadText(styles: StyleMap, child: BodyChild): seq<Block> {
    match child case OfficeText(elements) => ReadBlocks(styles, elements, NO_LISTS).0 case OtherBodyChild => []
  }

  /** parseBody without its charges: every office:text starts its lists anew. */
  function ReadBody(styles: StyleMap, children: seq<BodyChild>): seq<Block> {
    if children == [] then []
    else ReadBody(styles, children[..|children| - 1]) + ReadText(styles, children[|children| - 1])
  }

  // ---------------------------------------------------------------- styles that are nested too deep

  /** No style that is resolved for the element has parents beyond the nesting limit. */
  predicate InlineResolves(styles: StyleMap, node: Inline)
    decreases node
  {
    match node
    case Span(styleName, spanned) =>
      (styleName == "" || !TooDeep(styles, "text", styleName)) && InlinesResolve(styles, spanned)
    case Flattened(content) => InlinesResolve(styles, content)
    case _ => true
  }

  predicate InlinesResolve(styles: StyleMap, nodes: seq<Inline>)
    decreases nodes
  {
    forall k :: 0 <= k < |nodes| ==> InlineResolves(styles, nodes[k])
  }

  predicate ParagraphResolves(styles: StyleMap, p: ParagraphElement) {
    !TooDeep(styles, "paragraph", p.styleName) && InlinesResolve(styles, p.content)
  }

  predicate ItemChildResolves(styles: StyleMap, child: ItemChild)
    decreases child
  {
    match child
    case ItemParagraph(p) => ParagraphResolves(styles, p)
    case ItemList(list) => ListResolves(styles, list)
    case OtherItemChild => true
  }

  predicate ItemResolves(styles: StyleMap, content: seq<ItemChild>)
    decreases content
  {
    forall k :: 0 <= k < |content| ==> ItemChildResolves(styles, content[k])
  }

  predicate ListChildResolves(styles: StyleMap, child: ListChild)
    decreases child
  {
    match child
    case ListItem(content) => ItemResolves(styles, content)
    case ListHeader(headings) => ItemResolves(styles, headings)
    case OtherListChild => true
  }

  predicate ItemsResolve(styles: StyleMap, items: seq<ListChild>)
    decreases items
  {
    forall k :: 0 <= k < |items| ==> ListChildResolves(styles, items[k])
  }

  predicate ListResolves(styles: StyleMap, list: ListElement)
    decreases list
  {
    ItemsResolve(styles, list.items)
  }

  predicate CellChildResolves(styles: StyleMap, child: CellChild) {
    match child
    case CellParagraph(p) => ParagraphResolves(styles, p)
    case CellList(list) => ListResolves(styles, list)
    case OtherCellChild => true
  }

  predicate CellResolves(styles: StyleMap, content: seq<CellChild>) {
    forall k :: 0 <= k < |content| ==> CellChildResolves(styles, content[k])
  }

  predicate RowChildResolves(styles: StyleMap, child: RowChild) {
    child.TableCell? ==> CellResolves(styles, child.content)
  }

  predicate RowResolves(styles: StyleMap, children: seq<RowChild>) {
    forall k :: 0 <= k < |children| ==> RowChildResolves(styles, children[k])
  }

  predicate TableChildResolves(styles: StyleMap, child: TableChild) {
    child.TableRow? ==> RowResolves(styles, child.children)
  }

  predicate TableResolves(styles: StyleMap, children: seq<TableChild>) {
    forall k :: 0 <= k < |children| ==> TableChildResolves(styles, children[k])
  }

  predicate BlockResolves(styles: StyleMap, b: BlockElement)
    decreases b
  {
    match b
    case BlockParagraph(p) => ParagraphResolves(styles, p)
    case BlockList(list) => ListResolves(styles, list)
    case BlockTable(children) => TableResolves(styles, children)
    case Section(blocks) => BlocksResolve(styles, blocks)
    case OtherBlock => true
  }

  predicate BlocksResolve(styles: StyleMap, blocks: seq<BlockElement>)
    decreases blocks
  {
    forall k :: 0 <= k < |blocks| ==> BlockResolves(styles, blocks[k])
  }

  // ---------------------------------------------------------------- what can be read at all

  /** A repetition: absent, or a number from one to a million. */
  predicate CountReadable(c: Count) { c.Absent? || (c.Given? && 1 <= c.n <= MAXIMUM_EXPANDED_ITEMS) }

  predicate InlineReadable(node: Inline, depth: nat)
    decreases node
  {
    match node
    case Space(count) => CountReadable(count)
    case Span(_, spanned) => InlinesReadable(spanned, depth + 1)
    case Flattened(content) => InlinesReadable(content, depth + 1)
    case _ => true
  }

  /** Nesting within the limit, and readable counts. */
  predicate InlinesReadable(nodes: seq<Inline>, depth: nat)
    decreases nodes
  {
    depth <= MAXIMUM_SEMANTIC_NESTING_DEPTH && AllInlinesReadable(nodes, depth)
  }

  predicate AllInlinesReadable(nodes: seq<Inline>, depth: nat)
    decreases nodes, 0
  {
    nodes == [] || (InlineReadable(nodes[0], depth) && AllInlinesReadable(nodes[1..], depth))
  }

  predicate ParagraphReadable(p: ParagraphElement) { InlinesReadable(p.content, 0) }

  predicate ItemChildReadable(child: ItemChild, depth: nat)
    decreases child
  {
    match child
    case ItemParagraph(p) => ParagraphReadable(p)
    case ItemList(list) => ListReadable(list, depth + 1)
    case OtherItemChild => true
  }

  predicate ItemReadable(content: seq<ItemChild>, depth: nat)
    decreases content
  {
    content == [] || (ItemChildReadable(content[0], depth) && ItemReadable(content[1..], depth))
  }

  predicate ListChildReadable(child: ListChild, depth: nat)
    decreases child
  {
    match child
    case ListItem(content) => ItemReadable(content, depth)
    case ListHeader(headings) => ItemReadable(headings, depth)
    case OtherListChild => true
  }

  predicate ItemsReadable(items: seq<ListChild>, depth: nat)
    decreases items
  {
    items == [] || (ListChildReadable(items[0], depth) && ItemsReadable(items[1..], depth))
  }

  predicate ListReadable(list: ListElement, depth: nat)
    decreases list
  {
    depth <= MAXIMUM_SEMANTIC_NESTING_DEPTH && ItemsReadable(list.items, depth)
  }

  predicate CellChildReadable(child: CellChild) {
    match child
    case CellParagraph(p) => ParagraphReadable(p)
    case CellList(list) => ListReadable(list, 0)
    case OtherCellChild => true
  }

  predicate CellReadable(content: seq<CellChild>) {
    content == [] || (CellChildReadable(content[0]) && CellReadable(content[1..]))
  }

  predicate RowChildReadable(child: RowChild) {
    match child
    case TableCell(repeated, content) => CountReadable(repeated) && CellReadable(content)
    case CoveredCell(repeated) => CountReadable(repeated)
    case OtherRowChild => true
  }

  predicate RowReadable(children: seq<RowChild>) {
    children == [] || (RowChildReadable(children[0]) && RowReadable(children[1..]))
  }

  predicate TableChildReadable(child: TableChild) {
    child.TableRow? ==> CountReadable(child.rowsRepeated) && RowReadable(child.children)
  }

  predicate TableReadable(children: seq<TableChild>) {
    children == [] || (TableChildReadable(children[0]) && TableReadable(children[1..]))
  }

  predicate BlockReadable(b: BlockElement, depth: nat)
    decreases b
  {
    match b
    case BlockParagraph(p) => ParagraphReadable(p)
    case BlockList(list) => ListReadable(list, 0)
    case BlockTable(children) => TableReadable(children)
    case Section(blocks) => BlocksReadable(blocks, depth + 1)
    case OtherBlock => true
  }

  predicate BlocksReadable(blocks: seq<BlockElement>, depth: nat)
    decreases blocks
  {
    depth <= MAXIMUM_SEMANTIC_NESTING_DEPTH && AllBlocksReadable(blocks, depth)
  }

  predicate AllBlocksReadable(blocks: seq<BlockElement>, depth: nat)
    decreases blocks, 0
  {
    blocks == [] || (BlockReadable(blocks[0], depth) && AllBlocksReadable(blocks[1..], depth))
  }
}
