/** The OpenDocument flow reader with its expansion budget. Every method either reads exactly what the
    element says and charges exactly its cost, or fails, and it fails only when the element cannot be read
    at all or its cost does not fit. */
module OdfReader {
  import opened Wrappers
  import opened Unicode
  import opened OdfStyles
  import opened OdfModel

  // ---------------------------------------------------------------- the meter

  /** The expansion counters of a read context. */
  datatype Meter = Meter(items: nat, characters: nat, failed: bool)

  /** Nothing has failed, and no counter is past its limit. */
  predicate WithinLimits(m: Meter, limit: nat) {
    !m.failed && m.items <= MAXIMUM_EXPANDED_ITEMS && m.characters <= limit
  }

  predicate Fits(m: Meter, limit: nat, cost: Cost) {
    m.items + cost.items <= MAXIMUM_EXPANDED_ITEMS && m.characters + cost.characters <= limit
  }

  /** What is readable and fits is charged exactly; anything else fails. */
  predicate Charged(before: Meter, after: Meter, limit: nat, readable: bool, cost: Cost) {
    if readable && Fits(before, limit, cost)
    then after == Meter(before.items + cost.items, before.characters + cost.characters, false)
    else after.failed
  }

  /** The division test of consumeCopies is the multiplication that it avoids. */
  lemma CopiesFit(cost: nat, copies: nat, remaining: nat)
    requires cost > 0
    ensures copies > remaining / cost <==> cost * copies > remaining
  {
    var q := remaining / cost;
    assert remaining == cost * q + remaining % cost;
    if copies > q {
      Grows(cost, q + 1, copies);
    } else {
      Grows(cost, copies, q);
    }
  }

  lemma Grows(c: nat, a: nat, b: nat)
    requires a <= b
    ensures c * a <= c * b
  {
  }

  // ---------------------------------------------------------------- costs add up

  lemma SumOfOneMore<T>(xs: seq<T>, x: T, cost: T -> Cost)
    ensures Sum(xs + [x], cost) == Sum(xs, cost).Plus(cost(x))
  {
    assert (xs + [x])[..|xs|] == xs;
  }

  lemma {:induction false} SumConcat<T>(a: seq<T>, b: seq<T>, cost: T -> Cost)
    ensures Sum(a + b, cost) == Sum(a, cost).Plus(Sum(b, cost))
  {
    if b == [] {
      assert a + b == a;
    } else {
      hide Sum;
      var front, last := b[..|b| - 1], b[|b| - 1];
      SumConcat(a, front, cost);
      assert b == front + [last] && a + b == (a + front) + [last];
      SumOfOneMore(front, last, cost);
      SumOfOneMore(a + front, last, cost);
    }
  }

  lemma {:induction false} SumCopies<T>(x: T, n: nat, cost: T -> Cost)
    ensures Sum(Copies(x, n), cost) == cost(x).Times(n)
  {
    if n > 0 {
      SumCopies(x, n - 1, cost);
      assert Copies(x, n)[..n - 1] == Copies(x, n - 1);
      OneMore(cost(x).items, n - 1);
      OneMore(cost(x).characters, n - 1);
    }
  }

  lemma OneMore(c: nat, n: nat)
    ensures c * n + c == c * (n + 1)
  {
  }

  /** Elements of equal cost, one for one, have equal sums. */
  lemma {:induction false} SumPointwise<S, T>(a: seq<S>, b: seq<T>, costA: S -> Cost, costB: T -> Cost)
    requires |a| == |b| && forall i :: 0 <= i < |a| ==> costA(a[i]) == costB(b[i])
    ensures Sum(a, costA) == Sum(b, costB)
  {
    if a != [] { SumPointwise(a[..|a| - 1], b[..|b| - 1], costA, costB); }
  }

  lemma AsBlocksCost(ps: seq<Paragraph>)
    ensures BlocksCost(AsBlocks(ps)) == ParagraphsCost(ps)
  {
    SumPointwise(AsBlocks(ps), ps, BlockCost, ParagraphCost);
  }

  lemma RenumberedCost(ps: seq<Paragraph>, from: int, to: int)
    ensures ParagraphsCost(Renumbered(ps, from, to)) == ParagraphsCost(ps)
  {
    SumPointwise(Renumbered(ps, from, to), ps, ParagraphCost, ParagraphCost);
  }

  // ---------------------------------------------------------------- runs only grow

  predicate AtMost(a: Cost, b: Cost) { a.items <= b.items && a.characters <= b.characters }

  /** What reading on has added to a paragraph. */
  function Added(before: Reading, after: Reading): Cost
    requires AtMost(RunsCost(before.runs), RunsCost(after.runs))
  {
    Cost(RunsCost(after.runs).items - RunsCost(before.runs).items,
         RunsCost(after.runs).characters - RunsCost(before.runs).characters)
  }

  /** What appendRunText charges. */
  function AppendCost(r: Reading, text: Chars, properties: RunProperties): Cost {
    if text == [] then FREE else Cost(if StartsRun(r, properties) then 1 else 0, |Encode(text)|)
  }

  lemma AppendedCost(r: Reading, text: Chars, properties: RunProperties)
    ensures RunsCost(Appended(r, text, properties).runs) == RunsCost(r.runs).Plus(AppendCost(r, text, properties))
  {
    hide Encode;
    if text != [] {
      var out := Appended(r, text, properties).runs;
      if StartsRun(r, properties) {
        assert out[..|out| - 1] == r.runs;
      } else {
        assert out[..|out| - 1] == r.runs[..|r.runs| - 1];
      }
    }
  }

  lemma {:induction false} ReadInlineGrows(styles: StyleMap, node: Inline, properties: RunProperties, r: Reading)
    ensures AtMost(RunsCost(r.runs), RunsCost(ReadInline(styles, node, properties, r).runs))
    decreases node
  {
    hide RunsCost, Appended, AppendCost, Normalized, Spaces;
    match node
    case Characters(text) =>
      var (normal, output, pending) := Normalized(text, r.hasOutput, r.pendingSpace);
      AppendedCost(r.(hasOutput := output, pendingSpace := pending), normal, properties);
    case Space(count) => AppendedCost(r.(pendingSpace := false), PendingSpace(r) + Spaces(SpaceCount(count)), properties);
    case Tab => AppendedCost(r.(pendingSpace := false), PendingSpace(r) + [0x09], properties);
    case LineBreak => AppendedCost(r.(pendingSpace := false), PendingSpace(r) + [0x0A], properties);
    case Span(styleName, spanned) =>
      ReadInlinesGrow(styles, spanned, SpanProperties(styles, styleName, properties), r.(forceNewRun := true));
    case Flattened(content) => ReadInlinesGrow(styles, content, properties, r);
    case Omitted =>
  }

  lemma {:induction false} ReadInlinesGrow(styles: StyleMap, nodes: seq<Inline>, properties: RunProperties, r: Reading)
    ensures AtMost(RunsCost(r.runs), RunsCost(ReadInlines(styles, nodes, properties, r).runs))
    decreases nodes
  {
    hide RunsCost, ReadInline;
    if nodes != [] {
      ReadInlineGrows(styles, nodes[0], properties, r);
      ReadInlinesGrow(styles, nodes[1..], properties, ReadInline(styles, nodes[0], properties, r));
    }
  }

  /** Tabs, line breaks and counted spaces charge their text and the space pending before it. */
  lemma HardCost(r: Reading, text: Chars, properties: RunProperties)
    ensures RunsCost(AppendedHard(r, text, properties).runs)
         == RunsCost(r.runs).Plus(AppendCost(r.(pendingSpace := false), PendingSpace(r) + text, properties))
  {
    hide RunsCost, Appended, AppendCost;
    AppendedCost(r.(pendingSpace := false), PendingSpace(r) + text, properties);
  }

  /** Spaces take one octet each. */
  lemma {:induction false} SpacesCost(text: Chars, r: Reading, properties: RunProperties)
    requires text != [] && forall i :: 0 <= i < |text| ==> text[i] == 0x20
    ensures AppendCost(r, text, properties).characters == |text|
  {
    SpacesEncode(text);
  }

  lemma {:induction false} SpacesEncode(text: Chars)
    requires forall i :: 0 <= i < |text| ==> text[i] == 0x20
    ensures |Encode(text)| == |text|
  {
    if text != [] { SpacesEncode(text[1..]); }
  }

  /** normalizedOdfCharacters, one character at a time. */
  method NormalizedOdfCharacters(value: Chars, hasOutput: bool, pendingSpace: bool)
    returns (result: Chars, output: bool, pending: bool)
    ensures (result, output, pending) == Normalized(value, hasOutput, pendingSpace)
  {
    result, output, pending := [], hasOutput, pendingSpace;
    var i := 0;
    assert value[i..] == value;
    NothingAround(Normalized(value, hasOutput, pendingSpace).0);
    while i < |value|
      invariant 0 <= i <= |value|
      invariant var rest := Normalized(value[i..], output, pending);
                Normalized(value, hasOutput, pendingSpace) == (result + rest.0, rest.1, rest.2)
    {
      var character := value[i];
      assert value[i..][0] == character && value[i..][1..] == value[i + 1..];
      ghost var space: Chars := if pending && output then [0x20] else [];
      ghost var before := result;
      Regrouped(before, space + [character], Normalized(value[i + 1..], true, false).0);
      if IsCollapsible(character) {
        pending := output;
      } else {
        if pending && output { result := result + [0x20]; }
        pending := false;
        result := result + [character];
        output := true;
        assert result == before + (space + [character]);
      }
      i := i + 1;
    }
    assert value[i..] == [] && result + [] == result;
  }

  /** What reading the nodes charges. */
  function InlineCost(styles: StyleMap, node: Inline, properties: RunProperties, r: Reading): Cost {
    ReadInlineGrows(styles, node, properties, r);
    Added(r, ReadInline(styles, node, properties, r))
  }

  function InlinesCost(styles: StyleMap, nodes: seq<Inline>, properties: RunProperties, r: Reading): Cost {
    ReadInlinesGrow(styles, nodes, properties, r);
    Added(r, ReadInlines(styles, nodes, properties, r))
  }

  lemma InlinesCostNone(styles: StyleMap, properties: RunProperties, r: Reading)
    ensures InlinesCost(styles, [], properties, r) == FREE
  {
  }

  lemma InlinesCostStep(styles: StyleMap, nodes: seq<Inline>, properties: RunProperties, r: Reading)
    requires nodes != []
    ensures InlinesCost(styles, nodes, properties, r)
         == InlineCost(styles, nodes[0], properties, r)
              .Plus(InlinesCost(styles, nodes[1..], properties, ReadInline(styles, nodes[0], properties, r)))
  {
    hide RunsCost, ReadInline;
  }

  // ---------------------------------------------------------------- paragraphs and lists

  /** A paragraph costs itself and what its content charges. */
  lemma ParagraphInParts(styles: StyleMap, p: ParagraphElement)
    ensures ParagraphCost(ReadParagraph(styles, p))
         == Cost(1, 0).Plus(InlinesCost(styles, p.content, ApplyStyle(Resolve(styles, "paragraph", p.styleName), PLAIN),
                                        FRESH_READING))
  {
    hide Resolve, ApplyStyle, ReadInlines, ParagraphStyleId, Sum;
    NoRuns();
  }

  lemma NoRuns()
    ensures RunsCost([]) == FREE
  {
  }

  lemma SumInParts<T>(a: seq<T>, b: seq<T>, c: seq<T>, cost: T -> Cost)
    ensures Sum(a + b, cost) == Sum(a, cost).Plus(Sum(b, cost))
    ensures Sum(a + (b + c), cost) == Sum(a, cost).Plus(Sum(b, cost)).Plus(Sum(c, cost))
  {
    hide Sum;
    SumConcat(a, b, cost);
    SumConcat(a, b + c, cost);
    SumConcat(b, c, cost);
  }

  lemma SumOfOne<T>(x: T, cost: T -> Cost)
    ensures Sum([x], cost) == cost(x)
  {
    SumOfOneMore([], x, cost);
    assert [] + [x] == [x];
  }

  lemma NoParagraphs()
    ensures ParagraphsCost([]) == FREE
  {
  }

  lemma OneParagraph(p: Paragraph, q: Paragraph)
    requires p.runs == q.runs
    ensures ParagraphsCost([p]) == ParagraphCost(q)
  {
    hide Sum;
    SumOfOne(p, ParagraphCost);
  }

  /** What one more child of an item contributes, and what is left after it. */
  lemma ItemStep(styles: StyleMap, content: seq<ItemChild>, k: nat, isItem: bool, level: int, id: int, depth: nat,
                 numbered: bool, done: seq<Paragraph>)
    requires k < |content|
    ensures var child, tail := content[k], content[k + 1..];
            var read := ReadItemChild(styles, child, isItem, level, id, numbered);
            var rest := ReadItem(styles, tail, isItem, level, id, numbered || (isItem && child.ItemParagraph?));
            && done + ReadItem(styles, content[k..], isItem, level, id, numbered) == (done + read) + rest
            && ParagraphsCost(done + read) == ParagraphsCost(done).Plus(ParagraphsCost(read))
            && ParagraphsCost((done + read) + rest)
               == ParagraphsCost(done).Plus(ParagraphsCost(read)).Plus(ParagraphsCost(rest))
            && ItemReadable(content[k..], depth) == (ItemChildReadable(child, depth) && ItemReadable(tail, depth))
            && InferredInItem(styles, content[k..]) == FirstOf(InferredInChild(styles, child), InferredInItem(styles, tail))
  {
    hide ReadItemChild, ItemChildReadable, InferredInChild, Sum;
    var child, tail := content[k], content[k + 1..];
    var read := ReadItemChild(styles, child, isItem, level, id, numbered);
    var rest := ReadItem(styles, tail, isItem, level, id, numbered || (isItem && child.ItemParagraph?));
    assert content[k..][0] == child && content[k..][1..] == tail;
    Regrouped(done, read, rest);
    SumInParts(done, read, rest, ParagraphCost);
  }

  lemma ItemEnd(styles: StyleMap, content: seq<ItemChild>, isItem: bool, level: int, id: int, numbered: bool, done: seq<Paragraph>)
    ensures done + ReadItem(styles, content[|content|..], isItem, level, id, numbered) == done
    ensures InferredInItem(styles, content[|content|..]) == None
    ensures forall depth :: ItemReadable(content[|content|..], depth)
  {
  }

  /** What the first paragraphs infer, then the later ones. */
  function Inferred(on: bool, first: Option<string>, rest: Option<string>): Option<string> {
    if on then FirstOf(first, rest) else first
  }

  /** What one more item of a list contributes, and what is left after it. */
  lemma ItemsStep(styles: StyleMap, items: seq<ListChild>, k: nat, level: int, id: int, depth: nat, done: seq<Paragraph>)
    requires k < |items|
    ensures var child, tail := items[k], items[k + 1..];
            var read := ReadListChild(styles, child, level, id);
            var rest := ReadItems(styles, tail, level, id);
            && done + ReadItems(styles, items[k..], level, id) == (done + read) + rest
            && ParagraphsCost(done + read) == ParagraphsCost(done).Plus(ParagraphsCost(read))
            && ParagraphsCost((done + read) + rest)
               == ParagraphsCost(done).Plus(ParagraphsCost(read)).Plus(ParagraphsCost(rest))
            && ItemsReadable(items[k..], depth) == (ListChildReadable(child, depth) && ItemsReadable(tail, depth))
            && InferredStyle(styles, items[k..])
               == FirstOf(if child.ListItem? then InferredInItem(styles, child.content) else None, InferredStyle(styles, tail))
  {
    hide ReadListChild, ListChildReadable, InferredInItem, Sum;
    var child, tail := items[k], items[k + 1..];
    var read := ReadListChild(styles, child, level, id);
    var rest := ReadItems(styles, tail, level, id);
    assert items[k..][0] == child && items[k..][1..] == tail;
    Regrouped(done, read, rest);
    SumInParts(done, read, rest, ParagraphCost);
  }

  lemma ItemsEnd(styles: StyleMap, items: seq<ListChild>, level: int, id: int, done: seq<Paragraph>)
    ensures done + ReadItems(styles, items[|items|..], level, id) == done
    ensures InferredStyle(styles, items[|items|..]) == None
    ensures forall depth :: ItemsReadable(items[|items|..], depth)
  {
  }

  method Renumber(paragraphs: seq<Paragraph>, first: nat, from: int, to: int) returns (out: seq<Paragraph>)
    requires first <= |paragraphs|
    ensures out == paragraphs[..first] + Renumbered(paragraphs[first..], from, to)
  {
    out := paragraphs;
    var index := first;
    while index < |paragraphs|
      invariant first <= index <= |paragraphs| == |out|
      invariant forall i :: first <= i < index ==>
                  out[i] == if paragraphs[i].numberingId == Some(from) then paragraphs[i].(numberingId := Some(to))
                            else paragraphs[i]
      invariant forall i :: 0 <= i < |out| && !(first <= i < index) ==> out[i] == paragraphs[i]
    {
      if out[index].numberingId == Some(from) {
        out := out[index := out[index].(numberingId := Some(to))];
      }
      index := index + 1;
    }
  }

  // ---------------------------------------------------------------- tables

  lemma FollowBoth<T, S>(a: seq<T>, b: seq<T>, r: (seq<T>, S), cost: T -> Cost)
    ensures Follow(a, (b + r.0, r.1)) == Follow(a + b, r)
    ensures Sum(a + b, cost) == Sum(a, cost).Plus(Sum(b, cost))
    ensures Sum(Follow(a + b, r).0, cost) == Sum(a, cost).Plus(Sum(b, cost)).Plus(Sum(r.0, cost))
  {
    hide Sum;
    FollowOn(a, b, r);
    SumInParts(a, b, r.0, cost);
  }

  lemma CellContentStep(styles: StyleMap, content: seq<CellChild>, k: nat, done: seq<Paragraph>, s: ListState)
    requires k < |content|
    ensures var child, tail := content[k], content[k + 1..];
            var (read, between) := ReadCellChild(styles, child, s);
            var rest := ReadCellContent(styles, tail, between);
            && Follow(done, ReadCellContent(styles, content[k..], s)) == Follow(done + read, rest)
            && ParagraphsCost(done + read) == ParagraphsCost(done).Plus(ParagraphsCost(read))
            && ParagraphsCost(Follow(done + read, rest).0)
               == ParagraphsCost(done).Plus(ParagraphsCost(read)).Plus(ParagraphsCost(rest.0))
            && CellReadable(content[k..]) == (CellChildReadable(child) && CellReadable(tail))
  {
    hide ReadCellChild, CellChildReadable, Follow, Sum;
    var (read, between) := ReadCellChild(styles, content[k], s);
    assert content[k..][0] == content[k] && content[k..][1..] == content[k + 1..];
    FollowBoth(done, read, ReadCellContent(styles, content[k + 1..], between), ParagraphCost);
  }

  lemma CellContentEnd(styles: StyleMap, content: seq<CellChild>, done: seq<Paragraph>, s: ListState)
    ensures Follow(done, ReadCellContent(styles, content[|content|..], s)) == (done, s)
    ensures CellReadable(content[|content|..])
  {
    FollowNothing(([], s), done, s);
  }

  lemma RowStep(styles: StyleMap, children: seq<RowChild>, k: nat, done: seq<Cell>, s: ListState)
    requires k < |children|
    ensures var child, tail := children[k], children[k + 1..];
            var (read, between) := ReadRowChild(styles, child, s);
            var rest := ReadRow(styles, tail, between);
            && Follow(done, ReadRow(styles, children[k..], s)) == Follow(done + read, rest)
            && CellsCost(done + read) == CellsCost(done).Plus(CellsCost(read))
            && CellsCost(Follow(done + read, rest).0) == CellsCost(done).Plus(CellsCost(read)).Plus(CellsCost(rest.0))
            && RowReadable(children[k..]) == (RowChildReadable(child) && RowReadable(tail))
  {
    hide ReadRowChild, RowChildReadable, Follow, Sum;
    var (read, between) := ReadRowChild(styles, children[k], s);
    assert children[k..][0] == children[k] && children[k..][1..] == children[k + 1..];
    FollowBoth(done, read, ReadRow(styles, children[k + 1..], between), CellCost);
  }

  lemma RowEnd(styles: StyleMap, children: seq<RowChild>, done: seq<Cell>, s: ListState)
    ensures Follow(done, ReadRow(styles, children[|children|..], s)) == (done, s)
    ensures RowReadable(children[|children|..])
  {
    FollowNothing(([], s), done, s);
  }

  lemma TableStep(styles: StyleMap, children: seq<TableChild>, k: nat, done: seq<Row>, s: ListState)
    requires k < |children|
    ensures var child, tail := children[k], children[k + 1..];
            var (read, between) := ReadTableChild(styles, child, s);
            var rest := ReadTable(styles, tail, between);
            && Follow(done, ReadTable(styles, children[k..], s)) == Follow(done + read, rest)
            && RowsCost(done + read) == RowsCost(done).Plus(RowsCost(read))
            && RowsCost(Follow(done + read, rest).0) == RowsCost(done).Plus(RowsCost(read)).Plus(RowsCost(rest.0))
            && TableReadable(children[k..]) == (TableChildReadable(child) && TableReadable(tail))
  {
    hide ReadTableChild, TableChildReadable, Follow, Sum;
    var (read, between) := ReadTableChild(styles, children[k], s);
    assert children[k..][0] == children[k] && children[k..][1..] == children[k + 1..];
    FollowBoth(done, read, ReadTable(styles, children[k + 1..], between), RowCost);
  }

  lemma TableEnd(styles: StyleMap, children: seq<TableChild>, done: seq<Row>, s: ListState)
    ensures Follow(done, ReadTable(styles, children[|children|..], s)) == (done, s)
    ensures TableReadable(children[|children|..])
  {
    FollowNothing(([], s), done, s);
  }

  lemma BlocksStep(styles: StyleMap, elements: seq<BlockElement>, k: nat, depth: nat, done: seq<Block>, s: ListState)
    requires k < |elements|
    ensures var element, tail := elements[k], elements[k + 1..];
            var (read, between) := ReadBlock(styles, element, s);
            var rest := ReadBlocks(styles, tail, between);
            && Follow(done, ReadBlocks(styles, elements[k..], s)) == Follow(done + read, rest)
            && BlocksCost(done + read) == BlocksCost(done).Plus(BlocksCost(read))
            && BlocksCost(Follow(done + read, rest).0) == BlocksCost(done).Plus(BlocksCost(read)).Plus(BlocksCost(rest.0))
            && AllBlocksReadable(elements[k..], depth) == (BlockReadable(element, depth) && AllBlocksReadable(tail, depth))
  {
    hide ReadBlock, BlockReadable, Follow, Sum;
    var (read, between) := ReadBlock(styles, elements[k], s);
    assert elements[k..][0] == elements[k] && elements[k..][1..] == elements[k + 1..];
    FollowBoth(done, read, ReadBlocks(styles, elements[k + 1..], between), BlockCost);
  }

  lemma NothingToResolve(styles: StyleMap)
    ensures BlocksResolve(styles, [])
  {
  }

  lemma BlocksResolved(styles: StyleMap, elements: seq<BlockElement>, k: nat)
    requires k < |elements|
    ensures BlocksResolve(styles, elements[..k + 1]) <==> BlocksResolve(styles, elements[..k]) && BlockResolves(styles, elements[k])
  {
    hide BlockResolves;
    assert forall i :: 0 <= i < k ==> elements[..k][i] == elements[..k + 1][i];
    assert elements[..k + 1][k] == elements[k];
  }

  lemma BlocksEnd(styles: StyleMap, elements: seq<BlockElement>, done: seq<Block>, s: ListState)
    ensures Follow(done, ReadBlocks(styles, elements[|elements|..], s)) == (done, s)
    ensures forall depth :: AllBlocksReadable(elements[|elements|..], depth)
  {
    FollowNothing(([], s), done, s);
  }

  lemma NothingCosts()
    ensures ParagraphsCost([]) == CellsCost([]) == RowsCost([]) == BlocksCost([]) == FREE
  {
  }

  lemma EmptyCellCost()
    ensures CellCost(Cell([EMPTY_PARAGRAPH])) == Cost(2, 0)
    ensures ParagraphsCost([EMPTY_PARAGRAPH]) == Cost(1, 0)
  {
    hide Sum, RunsCost;
    OneParagraph(EMPTY_PARAGRAPH, EMPTY_PARAGRAPH);
    NoRuns();
  }

  lemma OneBlock(b: Block)
    ensures BlocksCost([b]) == BlockCost(b)
  {
    hide Sum, BlockCost;
    SumOfOne(b, BlockCost);
  }

  /** The repetitions of a cell or row are charged as its first occurrence and the copies of it. */
  lemma CopiesCost<T>(x: T, n: nat, cost: T -> Cost)
    requires n >= 1
    ensures Sum(Copies(x, n), cost) == cost(x).Plus(cost(x).Times(n - 1)) == cost(x).Times(n)
  {
    hide Sum;
    SumCopies(x, n, cost);
    OneMore(cost(x).items, n - 1);
    OneMore(cost(x).characters, n - 1);
  }

  lemma CellCopiesCost(x: Cell, n: nat)
    requires n >= 1
    ensures CellsCost(Copies(x, n)) == CellCost(x).Plus(CellCost(x).Times(n - 1)) == CellCost(x).Times(n)
  {
    hide CellCost, Sum;
    CopiesCost(x, n, CellCost);
  }

  lemma RowCopiesCost(x: Row, n: nat)
    requires n >= 1
    ensures RowsCost(Copies(x, n)) == RowCost(x).Plus(RowCost(x).Times(n - 1))
  {
    hide RowCost, Sum;
    CopiesCost(x, n, RowCost);
  }

  /** The loops that push the same cell or row again and again. */
  method PushCopies<T>(xs: seq<T>, x: T, count: nat) returns (out: seq<T>)
    ensures out == xs + Copies(x, count)
  {
    out := xs;
    var index := 0;
    while index < count
      invariant 0 <= index <= count && out == xs + Copies(x, index)
    {
      out := out + [x];
      index := index + 1;
    }
  }

  // ---------------------------------------------------------------- the context

  class ReadContext {
    const styles: StyleMap
    const maximumExpandedCharacters: nat
    var listElementIdentifiers: map<string, int>
    var lastTopLevelListIdentifier: Option<int>
    var lastTopLevelListStyleName: Option<string>
    var nextListIdentifier: int
    var expandedItems: nat
    var expandedCharacters: nat
    var expansionFailed: bool
    var stylesTooDeep: bool

    /** No style was nested too deep. */
    predicate Nests()
      reads this
    {
      !stylesTooDeep
    }

    function Counters(): Meter
      reads this
    {
      Meter(expandedItems, expandedCharacters, expansionFailed)
    }

    function Lists(): ListState
      reads this
    {
      ListState(listElementIdentifiers, lastTopLevelListIdentifier, lastTopLevelListStyleName, nextListIdentifier)
    }

    predicate Ready()
      reads this
    {
      WithinLimits(Counters(), maximumExpandedCharacters)
    }

    constructor (styles: StyleMap, maximumExpandedCharacters: nat)
      ensures this.styles == styles && this.maximumExpandedCharacters == maximumExpandedCharacters
      ensures Counters() == Meter(0, 0, false) && Lists() == NO_LISTS && Nests()
    {
      this.styles := styles;
      this.maximumExpandedCharacters := maximumExpandedCharacters;
      listElementIdentifiers, nextListIdentifier := map[], 1;
      lastTopLevelListIdentifier, lastTopLevelListStyleName := None, None;
      expandedItems, expandedCharacters, expansionFailed, stylesTooDeep := 0, 0, false, false;
    }

    /** resolveStyle with an empty set; an error is recorded, and reading goes on. */
    method ResolveHere(family: string, name: string) returns (result: Style)
      modifies this`stylesTooDeep
      ensures result == Resolve(styles, family, name)
      ensures Nests() <==> old(Nests()) && !TooDeep(styles, family, name)
    {
      var resolving := new KeySet();
      var tooDeep;
      result, tooDeep := ResolveStyle(styles, family, name, resolving, 0);
      stylesTooDeep := stylesTooDeep || tooDeep;
    }

    method ConsumeItems(count: nat) returns (ok: bool)
      requires Ready()
      modifies this`expandedItems, this`expansionFailed
      ensures Charged(old(Counters()), Counters(), maximumExpandedCharacters, true, Cost(count, 0))
      ensures ok == !expansionFailed
    {
      if count > MAXIMUM_EXPANDED_ITEMS - Min(expandedItems, MAXIMUM_EXPANDED_ITEMS) {
        expansionFailed := true;
        return false;
      }
      expandedItems := expandedItems + count;
      return true;
    }

    method ConsumeCharacters(count: nat) returns (ok: bool)
      requires Ready()
      modifies this`expandedCharacters, this`expansionFailed
      ensures Charged(old(Counters()), Counters(), maximumExpandedCharacters, true, Cost(0, count))
      ensures ok == !expansionFailed
    {
      if count > maximumExpandedCharacters - Min(expandedCharacters, maximumExpandedCharacters) {
        expansionFailed := true;
        return false;
      }
      expandedCharacters := expandedCharacters + count;
      return true;
    }

    /** The products are formed only after the divisions have shown that they fit. */
    method ConsumeCopies(cost: Cost, copies: nat) returns (ok: bool)
      requires Ready()
      modifies this`expandedItems, this`expandedCharacters, this`expansionFailed
      ensures Charged(old(Counters()), Counters(), maximumExpandedCharacters, true, cost.Times(copies))
      ensures ok == !expansionFailed
      ensures ok ==> && cost.Times(copies).items <= MAXIMUM_EXPANDED_ITEMS
                     && cost.Times(copies).characters <= maximumExpandedCharacters
    {
      if copies == 0 { return true; }
      var remainingItems := MAXIMUM_EXPANDED_ITEMS - Min(expandedItems, MAXIMUM_EXPANDED_ITEMS);
      var remainingCharacters := maximumExpandedCharacters - Min(expandedCharacters, maximumExpandedCharacters);
      if cost.items != 0 { CopiesFit(cost.items, copies, remainingItems); }
      if cost.characters != 0 { CopiesFit(cost.characters, copies, remainingCharacters); }
      if (cost.items != 0 && copies > remainingItems / cost.items)
         || (cost.characters != 0 && copies > remainingCharacters / cost.characters) {
        expansionFailed := true;
        return false;
      }
      expandedItems := expandedItems + cost.items * copies;
      expandedCharacters := expandedCharacters + cost.characters * copies;
      return true;
    }

    method AllowNesting(depth: nat) returns (ok: bool)
      requires Ready()
      modifies this`expansionFailed
      ensures Charged(old(Counters()), Counters(), maximumExpandedCharacters, depth <= MAXIMUM_SEMANTIC_NESTING_DEPTH, FREE)
      ensures ok == !expansionFailed
    {
      if depth <= MAXIMUM_SEMANTIC_NESTING_DEPTH { return true; }
      expansionFailed := true;
      return false;
    }

    method RepeatedCount(count: Count) returns (n: nat)
      requires Ready()
      modifies this`expansionFailed
      ensures Charged(old(Counters()), Counters(), maximumExpandedCharacters, CountReadable(count), FREE)
      ensures !expansionFailed ==> n == Repeats(count) >= 1
    {
      if count.Absent? { return 1; }
      if count.Unreadable? || count.n == 0 || count.n > MAXIMUM_EXPANDED_ITEMS {
        expansionFailed := true;
        return 1;
      }
      return count.n;
    }

    method AppendRunText(r: Reading, text: Chars, properties: RunProperties) returns (out: Reading)
      requires Ready()
      modifies this`expandedItems, this`expandedCharacters, this`expansionFailed
      ensures Charged(old(Counters()), Counters(), maximumExpandedCharacters, true, AppendCost(r, text, properties))
      ensures !expansionFailed ==> out == Appended(r, text, properties)
    {
      if text == [] { return r; }
      var encoded := EncodeUtf8(text);
      var ok := ConsumeCharacters(|encoded|);
      if !ok { return r; }
      var createRun := StartsRun(r, properties);
      if createRun {
        ok := ConsumeItems(1);
        if !ok { return r; }
        return r.(runs := r.runs + [Run(encoded, properties)], forceNewRun := false);
      }
      var last := |r.runs| - 1;
      return r.(runs := r.runs[last := r.runs[last].(text := r.runs[last].text + encoded)], forceNewRun := false);
    }

    method ParseInline(node: Inline, properties: RunProperties, depth: nat, r: Reading) returns (out: Reading)
      requires Ready()
      modifies this`expandedItems, this`expandedCharacters, this`expansionFailed, this`stylesTooDeep
      ensures Charged(old(Counters()), Counters(), maximumExpandedCharacters,
                      InlineReadable(node, depth), InlineCost(styles, node, properties, r))
      ensures !expansionFailed ==> (Nests() <==> old(Nests()) && InlineResolves(styles, node))
      ensures !expansionFailed ==> out == ReadInline(styles, node, properties, r)
      decreases node
    {
      hide RunsCost, Appended, AppendCost, Normalized, Spaces, InlinesReadable, InlinesResolve, Encode, Resolve, TooDeep, ApplyStyle;
      out := r;
      match node
      case Characters(text) =>
        var normal, hasOutput, pendingSpace := NormalizedOdfCharacters(text, r.hasOutput, r.pendingSpace);
        ghost var from := r.(hasOutput := hasOutput, pendingSpace := pendingSpace);
        AppendedCost(from, normal, properties);
        out := AppendRunText(r.(hasOutput := hasOutput, pendingSpace := pendingSpace), normal, properties);
      case Space(count) =>
        if count.Unreadable? || (count.Given? && (count.n == 0 || count.n > MAXIMUM_EXPANDED_ITEMS)) {
          expansionFailed := true;
          return;
        }
        var n := SpaceCount(count);
        var prefix := PendingSpace(r);
        HardCost(r, Spaces(n), properties);
        SpacesCost(prefix + Spaces(n), r.(pendingSpace := false), properties);
        var remainingCharacters := maximumExpandedCharacters - Min(expandedCharacters, maximumExpandedCharacters);
        if n + |prefix| > remainingCharacters {
          expansionFailed := true;
          return;
        }
        out := AppendRunText(r.(pendingSpace := false), prefix + Spaces(n), properties);
        out := out.(hasOutput := true);
      case Tab =>
        HardCost(r, [0x09], properties);
        out := AppendRunText(r.(pendingSpace := false), PendingSpace(r) + [0x09], properties);
        out := out.(hasOutput := true);
      case LineBreak =>
        HardCost(r, [0x0A], properties);
        out := AppendRunText(r.(pendingSpace := false), PendingSpace(r) + [0x0A], properties);
        out := out.(hasOutput := true);
      case Span(styleName, spanned) =>
        var inner := properties;
        if styleName != "" {
          var style := ResolveHere("text", styleName);
          inner := ApplyStyle(style, properties);
        }
        out := ParseInlines(spanned, inner, depth + 1, r.(forceNewRun := true));
        if expansionFailed { return; }
        out := out.(forceNewRun := true);
      case Flattened(content) =>
        out := ParseInlines(content, properties, depth + 1, r);
      case Omitted =>
    }

    method ParseInlines(nodes: seq<Inline>, properties: RunProperties, depth: nat, r: Reading) returns (out: Reading)
      requires Ready()
      modifies this`expandedItems, this`expandedCharacters, this`expansionFailed, this`stylesTooDeep
      ensures Charged(old(Counters()), Counters(), maximumExpandedCharacters,
                      InlinesReadable(nodes, depth), InlinesCost(styles, nodes, properties, r))
      ensures !expansionFailed ==> (Nests() <==> old(Nests()) && InlinesResolve(styles, nodes))
      ensures !expansionFailed ==> out == ReadInlines(styles, nodes, properties, r)
      decreases nodes
    {
      hide InlinesCost, InlineCost, ReadInline, InlineReadable, InlineResolves, RunsCost;
      out := r;
      var ok := AllowNesting(depth);
      if !ok { return; }
      ghost var start := Counters();
      ghost var done := FREE;
      InlinesCostNone(styles, properties, r);
      InlinesCostNone(styles, properties, ReadInlines(styles, nodes, properties, r));
      var k := 0;
      while k < |nodes|
        invariant 0 <= k <= |nodes| && Ready()
        invariant Nests() <==> old(Nests()) && forall i :: 0 <= i < k ==> InlineResolves(styles, nodes[i])
        invariant ReadInlines(styles, nodes, properties, r) == ReadInlines(styles, nodes[k..], properties, out)
        invariant AllInlinesReadable(nodes, depth) == AllInlinesReadable(nodes[k..], depth)
        invariant InlinesCost(styles, nodes, properties, r)
               == done.Plus(InlinesCost(styles, nodes[k..], properties, out))
        invariant Charged(start, Counters(), maximumExpandedCharacters, true, done)
      {
        InlinesCostStep(styles, nodes[k..], properties, out);
        assert nodes[k..][1..] == nodes[k + 1..] && nodes[k..][0] == nodes[k];
        ghost var before := out;
        out := ParseInline(nodes[k], properties, depth, out);
        if expansionFailed { return; }
        done := done.Plus(InlineCost(styles, nodes[k], properties, before));
        k := k + 1;
      }
    }

    method ParseParagraph(p: ParagraphElement) returns (paragraph: Paragraph)
      requires Ready()
      modifies this`expandedItems, this`expandedCharacters, this`expansionFailed, this`stylesTooDeep
      ensures Charged(old(Counters()), Counters(), maximumExpandedCharacters,
                      ParagraphReadable(p), ParagraphCost(ReadParagraph(styles, p)))
      ensures !expansionFailed ==> (Nests() <==> old(Nests()) && ParagraphResolves(styles, p))
      ensures !expansionFailed ==> paragraph == ReadParagraph(styles, p)
    {
      hide InlinesReadable, InlinesResolve, ReadInlines, Resolve, TooDeep, ParagraphStyleId, ApplyStyle, InlinesCost, ParagraphCost;
      ParagraphInParts(styles, p);
      paragraph := EMPTY_PARAGRAPH;
      var ok := ConsumeItems(1);
      if !ok { return; }
      var resolved := ResolveHere("paragraph", p.styleName);
      var reading := ParseInlines(p.content, ApplyStyle(resolved, PLAIN), 0, FRESH_READING);
      if expansionFailed { return; }
      paragraph := Paragraph(ParagraphStyleId(p, resolved), resolved.alignment.GetOr(Automatic), None, 0, false,
                             reading.runs);
    }

    /** One turn of the inner loop of parseListParagraphs. */
    method ParseItemChild(child: ItemChild, isItem: bool, level: int, id: int, depth: nat,
                          hasNumberedParagraph: bool, paragraphs: seq<Paragraph>)
      returns (out: seq<Paragraph>)
      requires Ready()
      modifies this
      ensures Lists() == old(Lists())
      ensures Charged(old(Counters()), Counters(), maximumExpandedCharacters, ItemChildReadable(child, depth),
                      ParagraphsCost(ReadItemChild(styles, child, isItem, level, id, hasNumberedParagraph)))
      ensures !expansionFailed ==> (Nests() <==> old(Nests()) && ItemChildResolves(styles, child))
      ensures !expansionFailed ==> out == paragraphs + ReadItemChild(styles, child, isItem, level, id, hasNumberedParagraph)
      decreases child
    {
      hide ParagraphReadable, ParagraphResolves, ReadParagraph, ParagraphsCost, ListReadable, ListResolves, ReadNestedList,
           ParagraphCost, ReadList;
      out := paragraphs;
      match child {
      case ItemParagraph(p) =>
        OneParagraph(Numbered(ReadParagraph(styles, p), isItem, level, id, hasNumberedParagraph), ReadParagraph(styles, p));
        var paragraph := ParseParagraph(p);
        if expansionFailed { return; }
        if isItem {
          paragraph := paragraph.(numberingId := Some(id), numberingLevel := Clamp(level, 0, 8),
                                  numberingContinuation := hasNumberedParagraph);
        }
        out := out + [paragraph];
      case ItemList(list) =>
        out := ParseListParagraphs(list, out, level + 1, Some(id), depth + 1);
      case OtherItemChild =>
        NoParagraphs();
      }
    }

    /** The inner loop of parseListParagraphs: one item or header. */
    method ParseItemContent(content: seq<ItemChild>, isItem: bool, inferring: bool, level: int, id: int, depth: nat,
                            paragraphs: seq<Paragraph>, inferred: Option<string>)
      returns (out: seq<Paragraph>, inferredAfter: Option<string>)
      requires Ready()
      modifies this
      ensures Lists() == old(Lists())
      ensures Charged(old(Counters()), Counters(), maximumExpandedCharacters, ItemReadable(content, depth),
                      ParagraphsCost(ReadItem(styles, content, isItem, level, id, false)))
      ensures !expansionFailed ==> (Nests() <==> old(Nests()) && ItemResolves(styles, content))
      ensures !expansionFailed ==> out == paragraphs + ReadItem(styles, content, isItem, level, id, false)
      ensures !expansionFailed ==>
                inferredAfter == Inferred(inferring && isItem, inferred, InferredInItem(styles, content))
      decreases content
    {
      hide ReadItem, ReadItemChild, ItemReadable, ItemChildReadable, InferredInItem, ParagraphsCost, Resolve, TooDeep,
           InlinesResolve, ListResolves;
      out, inferredAfter := paragraphs, inferred;
      var hasNumberedParagraph := false;
      ghost var all := ReadItem(styles, content, isItem, level, id, false);
      ghost var start, done := Counters(), [];
      NoParagraphs();
      assert content[0..] == content;
      var k := 0;
      while k < |content|
        invariant 0 <= k <= |content| && Ready() && Lists() == old(Lists())
        invariant Nests() <==> old(Nests()) && forall i :: 0 <= i < k ==> ItemChildResolves(styles, content[i])
        invariant out == paragraphs + done
        invariant all == done + ReadItem(styles, content[k..], isItem, level, id, hasNumberedParagraph)
        invariant ItemReadable(content, depth) ==> ItemReadable(content[k..], depth)
        invariant ItemReadable(content[k..], depth) ==> ItemReadable(content, depth)
        invariant Inferred(inferring && isItem, inferred, InferredInItem(styles, content))
               == Inferred(inferring && isItem, inferredAfter, InferredInItem(styles, content[k..]))
        invariant Charged(start, Counters(), maximumExpandedCharacters, true, ParagraphsCost(done))
        decreases |content| - k
      {
        ItemStep(styles, content, k, isItem, level, id, depth, hasNumberedParagraph, done);
        ghost var read := ReadItemChild(styles, content[k], isItem, level, id, hasNumberedParagraph);
        Regrouped(paragraphs, done, read);
        out := ParseItemChild(content[k], isItem, level, id, depth, hasNumberedParagraph, out);
        if expansionFailed { return; }
        done := done + read;
        if isItem && content[k].ItemParagraph? {
          if inferredAfter.None? && inferring {
            var style := ResolveHere("paragraph", content[k].paragraph.styleName);
            inferredAfter := Some(style.listStyleName.GetOr(""));
          }
          hasNumberedParagraph := true;
        }
        k := k + 1;
      }
      ItemEnd(styles, content, isItem, level, id, hasNumberedParagraph, done);
    }

    /** The outer loop of parseListParagraphs. */
    method ParseItems(list: ListElement, level: int, id: int, depth: nat, paragraphs: seq<Paragraph>)
      returns (out: seq<Paragraph>, inferred: Option<string>)
      requires Ready()
      modifies this
      ensures Lists() == old(Lists())
      ensures Charged(old(Counters()), Counters(), maximumExpandedCharacters, ItemsReadable(list.items, depth),
                      ParagraphsCost(ReadItems(styles, list.items, level, id)))
      ensures !expansionFailed ==> (Nests() <==> old(Nests()) && ListResolves(styles, list))
      ensures !expansionFailed ==> out == paragraphs + ReadItems(styles, list.items, level, id)
      ensures !expansionFailed && list.attributes.styleName == "" ==> inferred == InferredStyle(styles, list.items)
      decreases list, 0
    {
      hide ReadItems, ReadItem, ItemsReadable, ItemReadable, ItemResolves, InferredInItem, InferredStyle, ParagraphsCost;
      out, inferred := paragraphs, None;
      var inferring := list.attributes.styleName == "";
      var items := list.items;
      ghost var all := ReadItems(styles, items, level, id);
      ghost var start, done := Counters(), [];
      NoParagraphs();
      assert items[0..] == items;
      var k := 0;
      while k < |items|
        invariant 0 <= k <= |items| && Ready() && Lists() == old(Lists())
        invariant Nests() <==> old(Nests()) && forall i :: 0 <= i < k ==> ListChildResolves(styles, items[i])
        invariant out == paragraphs + done
        invariant all == done + ReadItems(styles, items[k..], level, id)
        invariant ItemsReadable(items, depth) ==> ItemsReadable(items[k..], depth)
        invariant ItemsReadable(items[k..], depth) ==> ItemsReadable(items, depth)
        invariant inferring ==> InferredStyle(styles, items) == FirstOf(inferred, InferredStyle(styles, items[k..]))
        invariant Charged(start, Counters(), maximumExpandedCharacters, true, ParagraphsCost(done))
        decreases |items| - k
      {
        ItemsStep(styles, items, k, level, id, depth, done);
        var child := items[k];
        ghost var read := ReadListChild(styles, child, level, id);
        Regrouped(paragraphs, done, read);
        if !child.OtherListChild? {
          assert child < list;
          var content := if child.ListItem? then child.content else child.headings;
          out, inferred := ParseItemContent(content, child.ListItem?, inferring, level, id, depth, out, inferred);
          if expansionFailed { return; }
        }
        done := done + read;
        k := k + 1;
      }
      ItemsEnd(styles, items, level, id, done);
    }

    /** A list inside an item inherits its identifier; a top-level list takes a new one, which may turn out to
        continue an earlier list. */
    method ParseListParagraphs(list: ListElement, paragraphs: seq<Paragraph>, level: int, inherited: Option<int>, depth: nat)
      returns (out: seq<Paragraph>)
      requires Ready()
      requires inherited.None? ==> level == 0
      modifies this
      ensures inherited.Some? ==> Lists() == old(Lists())
      ensures Charged(old(Counters()), Counters(), maximumExpandedCharacters, ListReadable(list, depth),
                      ParagraphsCost(if inherited.Some? then ReadNestedList(styles, list, level, inherited.value)
                                     else ReadList(styles, list, old(Lists())).0))
      ensures !expansionFailed ==> (Nests() <==> old(Nests()) && ListResolves(styles, list))
      ensures !expansionFailed && inherited.Some? ==>
                out == paragraphs + ReadNestedList(styles, list, level, inherited.value)
      ensures !expansionFailed && inherited.None? ==>
                out == paragraphs + ReadList(styles, list, old(Lists())).0 && Lists() == ReadList(styles, list, old(Lists())).1
      decreases list, 1
    {
      hide ItemsReadable, ListResolves, ReadItems, InferredStyle, ParagraphsCost, FinalIdentifier, Finalized, Renumbered;
      out := paragraphs;
      var ok := AllowNesting(depth);
      if !ok { return; }
      if inherited.Some? {
        var ignored;
        out, ignored := ParseItems(list, level, inherited.value, depth, paragraphs);
        return;
      }
      var identifier := nextListIdentifier;
      nextListIdentifier := nextListIdentifier + 1;
      ghost var id := FinalIdentifier(list.attributes, EffectiveStyle(styles, list), identifier, Lists());
      ghost var read := ReadItems(styles, list.items, 0, identifier);
      RenumberedCost(read, identifier, id);
      var inferred;
      out, inferred := ParseItems(list, level, identifier, depth, paragraphs);
      if expansionFailed { return; }
      assert out[..|paragraphs|] == paragraphs && out[|paragraphs|..] == read;
      var effective := if list.attributes.styleName == "" then inferred.GetOr("") else list.attributes.styleName;
      var final := FinalizeTopLevelListIdentifier(list.attributes, effective, identifier);
      if final != identifier {
        out := Renumber(out, |paragraphs|, identifier, final);
      } else {
        RenumberedToItself(read, identifier);
      }
    }

    method FinalizeTopLevelListIdentifier(a: ListAttributes, effectiveStyleName: string, provisional: int)
      returns (identifier: int)
      modifies this`listElementIdentifiers, this`lastTopLevelListIdentifier, this`lastTopLevelListStyleName
      ensures identifier == FinalIdentifier(a, effectiveStyleName, provisional, old(Lists()))
      ensures Lists() == Finalized(a, effectiveStyleName, identifier, old(Lists()))
    {
      identifier := provisional;
      if a.continueList != "" {
        if a.continueList in listElementIdentifiers { identifier := listElementIdentifiers[a.continueList]; }
      } else if a.continueNumbering && lastTopLevelListIdentifier.Some?
                && lastTopLevelListStyleName == Some(effectiveStyleName) {
        identifier := lastTopLevelListIdentifier.value;
      }
      if a.elementId != "" && a.elementId !in listElementIdentifiers {
        listElementIdentifiers := listElementIdentifiers[a.elementId := identifier];
      }
      lastTopLevelListIdentifier, lastTopLevelListStyleName := Some(identifier), Some(effectiveStyleName);
    }

    /** One turn of the loop of parseTableCell. */
    method ParseCellChild(child: CellChild, paragraphs: seq<Paragraph>) returns (out: seq<Paragraph>)
      requires Ready()
      modifies this
      ensures Charged(old(Counters()), Counters(), maximumExpandedCharacters, CellChildReadable(child),
                      ParagraphsCost(ReadCellChild(styles, child, old(Lists())).0))
      ensures !expansionFailed ==> (Nests() <==> old(Nests()) && CellChildResolves(styles, child))
      ensures !expansionFailed ==> out == paragraphs + ReadCellChild(styles, child, old(Lists())).0
                                   && Lists() == ReadCellChild(styles, child, old(Lists())).1
    {
      hide ParagraphReadable, ParagraphResolves, ReadParagraph, ParagraphsCost, ListReadable, ListResolves, ReadList,
           ParagraphCost, ReadNestedList;
      out := paragraphs;
      match child {
      case CellParagraph(p) =>
        OneParagraph(ReadParagraph(styles, p), ReadParagraph(styles, p));
        var paragraph := ParseParagraph(p);
        if expansionFailed { return; }
        out := out + [paragraph];
      case CellList(list) =>
        out := ParseListParagraphs(list, out, 0, None, 0);
      case OtherCellChild =>
        NoParagraphs();
      }
    }

    /** The loop of parseTableCell. */
    method ParseCellContent(content: seq<CellChild>) returns (paragraphs: seq<Paragraph>)
      requires Ready()
      modifies this
      ensures Charged(old(Counters()), Counters(), maximumExpandedCharacters, CellReadable(content),
                      ParagraphsCost(ReadCellContent(styles, content, old(Lists())).0))
      ensures !expansionFailed ==> (Nests() <==> old(Nests()) && CellResolves(styles, content))
      ensures !expansionFailed ==> (paragraphs, Lists()) == ReadCellContent(styles, content, old(Lists()))
    {
      hide CellReadable, CellChildReadable, CellChildResolves, ReadCellContent, ReadCellChild, ParagraphsCost, Follow;
      ghost var all := ReadCellContent(styles, content, Lists());
      ghost var start := Counters();
      NothingCosts();
      FollowNothing(all, [], Lists());
      assert content[0..] == content;
      paragraphs := [];
      var k := 0;
      while k < |content|
        invariant 0 <= k <= |content| && Ready()
        invariant Nests() <==> old(Nests()) && forall i :: 0 <= i < k ==> CellChildResolves(styles, content[i])
        invariant all == Follow(paragraphs, ReadCellContent(styles, content[k..], Lists()))
        invariant CellReadable(content) ==> CellReadable(content[k..])
        invariant CellReadable(content[k..]) ==> CellReadable(content)
        invariant Charged(start, Counters(), maximumExpandedCharacters, true, ParagraphsCost(paragraphs))
        decreases |content| - k
      {
        CellContentStep(styles, content, k, paragraphs, Lists());
        paragraphs := ParseCellChild(content[k], paragraphs);
        if expansionFailed { return; }
        k := k + 1;
      }
      CellContentEnd(styles, content, paragraphs, Lists());
    }

    method ParseTableCell(content: seq<CellChild>) returns (cell: Cell)
      requires Ready()
      modifies this
      ensures Charged(old(Counters()), Counters(), maximumExpandedCharacters, CellReadable(content),
                      CellCost(ReadCell(styles, content, old(Lists())).0))
      ensures !expansionFailed ==> (Nests() <==> old(Nests()) && CellResolves(styles, content))
      ensures !expansionFailed ==> (cell, Lists()) == ReadCell(styles, content, old(Lists()))
    {
      hide CellReadable, CellResolves, ParagraphsCost, ReadCellContent;
      cell := Cell([]);
      EmptyCellCost();
      NothingCosts();
      var ok := ConsumeItems(1);
      if !ok { return; }
      var paragraphs := ParseCellContent(content);
      if expansionFailed { return; }
      cell := Cell(paragraphs);
      if paragraphs == [] {
        ok := ConsumeItems(1);
        if ok { cell := Cell([EMPTY_PARAGRAPH]); }
      }
    }

    /** One turn of the loop of parseTableRow. */
    method ParseRowChild(child: RowChild, cells: seq<Cell>) returns (out: seq<Cell>)
      requires Ready()
      modifies this
      ensures Charged(old(Counters()), Counters(), maximumExpandedCharacters, RowChildReadable(child),
                      CellsCost(ReadRowChild(styles, child, old(Lists())).0))
      ensures !expansionFailed ==> (Nests() <==> old(Nests()) && RowChildResolves(styles, child))
      ensures !expansionFailed ==> out == cells + ReadRowChild(styles, child, old(Lists())).0
                                   && Lists() == ReadRowChild(styles, child, old(Lists())).1
    {
      if child.TableCell? {
        out := ParseCellAndCopies(child, cells);
      } else if child.CoveredCell? {
        out := ParseCoveredCells(child, cells);
      } else {
        NothingCosts();
        NothingAround(cells);
        return cells;
      }
    }

    method ParseCellAndCopies(child: RowChild, cells: seq<Cell>) returns (out: seq<Cell>)
      requires Ready() && child.TableCell?
      modifies this
      ensures Charged(old(Counters()), Counters(), maximumExpandedCharacters, RowChildReadable(child),
                      CellsCost(ReadRowChild(styles, child, old(Lists())).0))
      ensures !expansionFailed ==> (Nests() <==> old(Nests()) && RowChildResolves(styles, child))
      ensures !expansionFailed ==> out == cells + ReadRowChild(styles, child, old(Lists())).0
                                   && Lists() == ReadRowChild(styles, child, old(Lists())).1
    {
      hide CellReadable, CellResolves, ReadCell, CellsCost, CellCost, CountReadable, Copies, Cost.Times;
      out := cells;
      var repeat := RepeatedCount(child.columnsRepeated);
      if expansionFailed { return; }
      CellCopiesCost(ReadCell(styles, child.content, Lists()).0, repeat);
      var cell := ParseTableCell(child.content);
      if expansionFailed { return; }
      var ok := ConsumeCopies(CellCost(cell), repeat - 1);
      if !ok { return; }
      out := PushCopies(out, cell, repeat);
    }

    method ParseCoveredCells(child: RowChild, cells: seq<Cell>) returns (out: seq<Cell>)
      requires Ready() && child.CoveredCell?
      modifies this
      ensures Charged(old(Counters()), Counters(), maximumExpandedCharacters, RowChildReadable(child),
                      CellsCost(ReadRowChild(styles, child, old(Lists())).0))
      ensures Nests() == old(Nests())
      ensures !expansionFailed ==> out == cells + ReadRowChild(styles, child, old(Lists())).0
                                   && Lists() == ReadRowChild(styles, child, old(Lists())).1
    {
      hide CellsCost, CellCost, CountReadable, Copies, Cost.Times;
      out := cells;
      var repeat := RepeatedCount(child.coveredRepeated);
      if expansionFailed { return; }
      EmptyCellCost();
      CellCopiesCost(Cell([EMPTY_PARAGRAPH]), repeat);
      var ok := ConsumeCopies(Cost(2, 0), repeat);
      if !ok { return; }
      out := PushCopies(out, Cell([EMPTY_PARAGRAPH]), repeat);
    }

    method ParseTableRow(children: seq<RowChild>) returns (row: Row)
      requires Ready()
      modifies this
      ensures Charged(old(Counters()), Counters(), maximumExpandedCharacters, RowReadable(children),
                      RowCost(Row(ReadRow(styles, children, old(Lists())).0)))
      ensures !expansionFailed ==> (Nests() <==> old(Nests()) && RowResolves(styles, children))
      ensures !expansionFailed ==> (row.cells, Lists()) == ReadRow(styles, children, old(Lists()))
    {
      hide RowReadable, RowChildReadable, RowChildResolves, ReadRow, ReadRowChild, CellsCost, Follow;
      row := Row([]);
      ghost var all := ReadRow(styles, children, Lists());
      NothingCosts();
      FollowNothing(all, [], Lists());
      assert children[0..] == children;
      var ok := ConsumeItems(1);
      if !ok { return; }
      ghost var start := Counters();
      var k := 0;
      while k < |children|
        invariant 0 <= k <= |children| && Ready()
        invariant Nests() <==> old(Nests()) && forall i :: 0 <= i < k ==> RowChildResolves(styles, children[i])
        invariant all == Follow(row.cells, ReadRow(styles, children[k..], Lists()))
        invariant RowReadable(children) ==> RowReadable(children[k..])
        invariant RowReadable(children[k..]) ==> RowReadable(children)
        invariant Charged(start, Counters(), maximumExpandedCharacters, true, CellsCost(row.cells))
        decreases |children| - k
      {
        RowStep(styles, children, k, row.cells, Lists());
        var cells := ParseRowChild(children[k], row.cells);
        row := Row(cells);
        if expansionFailed { return; }
        k := k + 1;
      }
      RowEnd(styles, children, row.cells, Lists());
    }

    /** One turn of the loop of parseTable. */
    method ParseTableChild(child: TableChild, rows: seq<Row>) returns (out: seq<Row>)
      requires Ready()
      modifies this
      ensures Charged(old(Counters()), Counters(), maximumExpandedCharacters, TableChildReadable(child),
                      RowsCost(ReadTableChild(styles, child, old(Lists())).0))
      ensures !expansionFailed ==> (Nests() <==> old(Nests()) && TableChildResolves(styles, child))
      ensures !expansionFailed ==> out == rows + ReadTableChild(styles, child, old(Lists())).0
                                   && Lists() == ReadTableChild(styles, child, old(Lists())).1
    {
      hide RowReadable, RowResolves, ReadRow, RowsCost, RowCost, CountReadable, Copies, Cost.Times;
      out := rows;
      NothingCosts();
      if child.OtherTableChild? { return; }
      var repeat := RepeatedCount(child.rowsRepeated);
      if expansionFailed { return; }
      RowCopiesCost(Row(ReadRow(styles, child.children, Lists()).0), repeat);
      var row := ParseTableRow(child.children);
      if expansionFailed { return; }
      var ok := ConsumeCopies(RowCost(row), repeat - 1);
      if !ok { return; }
      out := PushCopies(out, row, repeat);
    }

    method ParseTable(children: seq<TableChild>) returns (table: Table)
      requires Ready()
      modifies this
      ensures Charged(old(Counters()), Counters(), maximumExpandedCharacters, TableReadable(children),
                      TableCost(Table(ReadTable(styles, children, old(Lists())).0)))
      ensures !expansionFailed ==> (Nests() <==> old(Nests()) && TableResolves(styles, children))
      ensures !expansionFailed ==> (table.rows, Lists()) == ReadTable(styles, children, old(Lists()))
    {
      hide TableReadable, TableChildReadable, TableChildResolves, ReadTable, ReadTableChild, RowsCost, Follow;
      table := Table([]);
      ghost var all := ReadTable(styles, children, Lists());
      NothingCosts();
      FollowNothing(all, [], Lists());
      assert children[0..] == children;
      var ok := ConsumeItems(1);
      if !ok { return; }
      ghost var start := Counters();
      var k := 0;
      while k < |children|
        invariant 0 <= k <= |children| && Ready()
        invariant Nests() <==> old(Nests()) && forall i :: 0 <= i < k ==> TableChildResolves(styles, children[i])
        invariant all == Follow(table.rows, ReadTable(styles, children[k..], Lists()))
        invariant TableReadable(children) ==> TableReadable(children[k..])
        invariant TableReadable(children[k..]) ==> TableReadable(children)
        invariant Charged(start, Counters(), maximumExpandedCharacters, true, RowsCost(table.rows))
        decreases |children| - k
      {
        TableStep(styles, children, k, table.rows, Lists());
        var rows := ParseTableChild(children[k], table.rows);
        table := Table(rows);
        if expansionFailed { return; }
        k := k + 1;
      }
      TableEnd(styles, children, table.rows, Lists());
    }

    method ParseBlockContainer(elements: seq<BlockElement>, blocks: seq<Block>, depth: nat) returns (out: seq<Block>)
      requires Ready()
      modifies this
      ensures Charged(old(Counters()), Counters(), maximumExpandedCharacters, BlocksReadable(elements, depth),
                      BlocksCost(ReadBlocks(styles, elements, old(Lists())).0))
      ensures !expansionFailed ==> (Nests() <==> old(Nests()) && BlocksResolve(styles, elements))
      ensures !expansionFailed ==> out == blocks + ReadBlocks(styles, elements, old(Lists())).0
                                   && Lists() == ReadBlocks(styles, elements, old(Lists())).1
      decreases elements
    {
      hide AllBlocksReadable, BlockReadable, BlocksResolve, ReadBlocks, ReadBlock, BlocksCost, Follow;
      out := blocks;
      ghost var all := ReadBlocks(styles, elements, Lists());
      ghost var done: seq<Block> := [];
      NothingCosts();
      FollowNothing(all, done, Lists());
      assert elements[0..] == elements && elements[..0] == [] && elements[..|elements|] == elements;
      NothingToResolve(styles);
      var ok := AllowNesting(depth);
      if !ok { return; }
      ghost var start := Counters();
      var k := 0;
      while k < |elements|
        invariant 0 <= k <= |elements| && Ready()
        invariant Nests() <==> old(Nests()) && BlocksResolve(styles, elements[..k])
        invariant out == blocks + done
        invariant all == Follow(done, ReadBlocks(styles, elements[k..], Lists()))
        invariant AllBlocksReadable(elements, depth) ==> AllBlocksReadable(elements[k..], depth)
        invariant AllBlocksReadable(elements[k..], depth) ==> AllBlocksReadable(elements, depth)
        invariant Charged(start, Counters(), maximumExpandedCharacters, true, BlocksCost(done))
        decreases |elements| - k
      {
        BlocksResolved(styles, elements, k);
        BlocksStep(styles, elements, k, depth, done, Lists());
        ghost var (read, after) := ReadBlock(styles, elements[k], Lists());
        Regrouped(blocks, done, read);
        out := ParseBlock(elements[k], out, depth);
        if expansionFailed { return; }
        done := done + read;
        k := k + 1;
      }
      BlocksEnd(styles, elements, done, Lists());
    }

    /** One turn of the loop of parseBlockContainer. */
    method ParseBlock(element: BlockElement, blocks: seq<Block>, depth: nat) returns (out: seq<Block>)
      requires Ready()
      modifies this
      ensures Charged(old(Counters()), Counters(), maximumExpandedCharacters, BlockReadable(element, depth),
                      BlocksCost(ReadBlock(styles, element, old(Lists())).0))
      ensures !expansionFailed ==> (Nests() <==> old(Nests()) && BlockResolves(styles, element))
      ensures !expansionFailed ==> out == blocks + ReadBlock(styles, element, old(Lists())).0
                                   && Lists() == ReadBlock(styles, element, old(Lists())).1
      decreases element
    {
      hide BlocksReadable, BlocksResolve, ReadBlocks, BlocksCost, ListReadable, ListResolves, ReadList, TableReadable, TableResolves,
           ReadTable, ReadParagraph, ParagraphReadable, ParagraphResolves, TableCost, ParagraphCost, ReadNestedList, Sum, AsBlocks;
      out := blocks;
      match element {
      case BlockParagraph(p) =>
        OneBlock(ParagraphBlock(ReadParagraph(styles, p)));
        var paragraph := ParseParagraph(p);
        if expansionFailed { return; }
        out := out + [ParagraphBlock(paragraph)];
      case BlockList(list) =>
        AsBlocksCost(ReadList(styles, list, Lists()).0);
        var paragraphs := ParseListParagraphs(list, [], 0, None, 0);
        if expansionFailed { return; }
        out := out + AsBlocks(paragraphs);
      case BlockTable(children) =>
        OneBlock(TableBlock(Table(ReadTable(styles, children, Lists()).0)));
        var table := ParseTable(children);
        if expansionFailed { return; }
        out := out + [TableBlock(table)];
      case Section(inner) =>
        out := ParseBlockContainer(inner, out, depth + 1);
      case OtherBlock =>
        NothingCosts();
      }
    }
  }

  // ---------------------------------------------------------------- bodies

  /** An office:text within the limits: its own on what is read, and that on the nesting of styles. */
  predicate TextFits(styles: StyleMap, child: BodyChild, maximumExpandedCharacters: nat) {
    child.OfficeText? ==>
      && BlocksReadable(child.elements, 0)
      && BlocksResolve(styles, child.elements)
      && BlocksCost(ReadText(styles, child)).items <= MAXIMUM_EXPANDED_ITEMS
      && BlocksCost(ReadText(styles, child)).characters <= maximumExpandedCharacters
  }

  predicate TextsFit(styles: StyleMap, children: seq<BodyChild>, maximumExpandedCharacters: nat) {
    forall k :: 0 <= k < |children| ==> TextFits(styles, children[k], maximumExpandedCharacters)
  }

  /** parseBody: it ends without an error exactly when there is an office:text and each one is within the limits, and
      then nothing is missing and nothing is extra. */
  method ParseBody(styles: StyleMap, children: seq<BodyChild>, maximumExpandedCharacters: nat) returns (r: Option<seq<Block>>)
    ensures r.Some? <==> (exists k :: 0 <= k < |children| && children[k].OfficeText?)
                         && TextsFit(styles, children, maximumExpandedCharacters)
    ensures r.Some? ==> r.value == ReadBody(styles, children)
  {
    hide BlocksReadable, BlocksResolve, ReadBlocks, BlocksCost;
    var foundTextBody, hasErrors := false, false;
    var blocks: seq<Block> := [];
    for k := 0 to |children|
      invariant foundTextBody <==> exists i :: 0 <= i < k && children[i].OfficeText?
      invariant !hasErrors <==> forall i :: 0 <= i < k ==> TextFits(styles, children[i], maximumExpandedCharacters)
      invariant blocks == ReadBody(styles, children[..k])
    {
      assert children[..k + 1][..k] == children[..k];
      if children[k].OfficeText? {
        foundTextBody := true;
        var context := new ReadContext(styles, maximumExpandedCharacters);
        blocks := context.ParseBlockContainer(children[k].elements, blocks, 0);
        if context.expansionFailed { return None; }
        hasErrors := hasErrors || context.stylesTooDeep;
      } else {
        NothingAround(blocks);
      }
    }
    assert children[..|children|] == children;
    return if foundTextBody && !hasErrors then Some(blocks) else None;
  }

  function Texts(children: seq<BodyChild>): nat {
    if children == [] then 0 else Texts(children[..|children| - 1]) + if children[|children| - 1].OfficeText? then 1 else 0
  }

  /** A body holds at most the budgets of its texts together. */
  lemma {:induction false} BodyIsBounded(styles: StyleMap, children: seq<BodyChild>, maximumExpandedCharacters: nat)
    requires TextsFit(styles, children, maximumExpandedCharacters)
    ensures var cost := BlocksCost(ReadBody(styles, children));
            && cost.items <= Texts(children) * MAXIMUM_EXPANDED_ITEMS
            && cost.characters <= Texts(children) * maximumExpandedCharacters
  {
    hide BlocksReadable, BlocksResolve, ReadText, BlocksCost;
    NothingCosts();
    if children != [] {
      var front, last := children[..|children| - 1], children[|children| - 1];
      assert TextFits(styles, last, maximumExpandedCharacters) && TextsFit(styles, front, maximumExpandedCharacters) by {
        hide TextFits;
        assert forall k :: 0 <= k < |front| ==> front[k] == children[k];
      }
      hide TextsFit;
      BodyIsBounded(styles, front, maximumExpandedCharacters);
      BodyCost(styles, children);
      OneMore(maximumExpandedCharacters, Texts(front));
    }
  }

  lemma BodyCost(styles: StyleMap, children: seq<BodyChild>)
    requires children != []
    ensures var front, last := children[..|children| - 1], children[|children| - 1];
            && BlocksCost(ReadBody(styles, children)) == BlocksCost(ReadBody(styles, front)).Plus(BlocksCost(ReadText(styles, last)))
            && (last.OtherBodyChild? ==> BlocksCost(ReadText(styles, last)) == FREE)
  {
    hide Sum, ReadBlocks;
    var front, last := children[..|children| - 1], children[|children| - 1];
    NothingCosts();
    SumConcat(ReadBody(styles, front), ReadText(styles, last), BlockCost);
  }

  /** A text that uses up its budget: a table of rows without cells. */
  const FULL_TEXT := OfficeText([BlockTable([TableRow(Given(MAXIMUM_EXPANDED_ITEMS - 1), [])])])

  lemma FullText(styles: StyleMap, maximumExpandedCharacters: nat)
    ensures TextFits(styles, FULL_TEXT, maximumExpandedCharacters)
    ensures BlocksCost(ReadText(styles, FULL_TEXT)) == Cost(MAXIMUM_EXPANDED_ITEMS, 0)
  {
    hide ReadText, BlocksCost, BlocksReadable, BlocksResolve, Copies;
    ReadFullText(styles);
    EmptyRowsCost(MAXIMUM_EXPANDED_ITEMS - 1);
  }

  lemma OneEach(n: nat)
    ensures Cost(1, 0).Times(n) == Cost(n, 0)
  {
  }

  lemma EmptyRowsCost(n: nat)
    requires n >= 1
    ensures BlocksCost([TableBlock(Table(Copies(Row([]), n)))]) == Cost(n + 1, 0)
  {
    hide RowsCost, BlocksCost, Copies;
    CopiedRowsCost(n);
    OneBlock(TableBlock(Table(Copies(Row([]), n))));
  }

  lemma CopiedRowsCost(n: nat)
    requires n >= 1
    ensures RowsCost(Copies(Row([]), n)) == Cost(n, 0)
  {
    hide Sum, Copies, CellsCost, Cost.Times, Cost.Plus;
    NothingCosts();
    CopiesCost(Row([]), n, RowCost);
    EmptyRowCost();
    OneEach(n);
  }

  lemma EmptyRowCost()
    ensures RowCost(Row([])) == Cost(1, 0)
  {
    NothingCosts();
  }

  lemma ReadFullText(styles: StyleMap)
    ensures ReadText(styles, FULL_TEXT) == [TableBlock(Table(Copies(Row([]), MAXIMUM_EXPANDED_ITEMS - 1)))]
    ensures BlocksReadable(FULL_TEXT.elements, 0) && BlocksResolve(styles, FULL_TEXT.elements)
  {
    hide Copies;
    var row := TableRow(Given(MAXIMUM_EXPANDED_ITEMS - 1), []);
    var rows := Copies(Row([]), MAXIMUM_EXPANDED_ITEMS - 1);
    assert [row][1..] == [] && [BlockTable([row])][1..] == [];
    assert rows + [] == rows;
    assert ReadTableChild(styles, row, NO_LISTS) == (rows, NO_LISTS);
    assert ReadTable(styles, [row], NO_LISTS) == (rows, NO_LISTS);
    assert [TableBlock(Table(rows))] + [] == [TableBlock(Table(rows))];
    assert TableReadable([row]) && AllBlocksReadable([], 0);
    assert BlockReadable(BlockTable([row]), 0) && FULL_TEXT.elements == [BlockTable([row])];
    assert ReadBlock(styles, BlockTable([row]), NO_LISTS) == ([TableBlock(Table(rows))], NO_LISTS);
    assert ReadBlocks(styles, [BlockTable([row])], NO_LISTS).0 == [TableBlock(Table(rows))];
  }

  lemma {:induction false} FullTexts(styles: StyleMap, n: nat, maximumExpandedCharacters: nat)
    ensures var children := Copies(FULL_TEXT, n);
            && Texts(children) == n && TextsFit(styles, children, maximumExpandedCharacters)
            && BlocksCost(ReadBody(styles, children)).items == n * MAXIMUM_EXPANDED_ITEMS
  {
    hide TextFits, ReadText, BlocksCost;
    NothingCosts();
    FullText(styles, maximumExpandedCharacters);
    if n > 0 {
      var children := Copies(FULL_TEXT, n);
      assert children[..n - 1] == Copies(FULL_TEXT, n - 1);
      FullTexts(styles, n - 1, maximumExpandedCharacters);
      BodyCost(styles, children);
    }
  }

  /** The limit on items holds for every body with n texts exactly when n is at most one. */
  lemma OneTextIsLimited(styles: StyleMap, n: nat, maximumExpandedCharacters: nat)
    ensures n <= 1
            <==> forall children :: Texts(children) == n && TextsFit(styles, children, maximumExpandedCharacters) ==>
                   BlocksCost(ReadBody(styles, children)).items <= MAXIMUM_EXPANDED_ITEMS
  {
    hide TextsFit, ReadBody, BlocksCost;
    if n <= 1 {
      forall children | Texts(children) == n && TextsFit(styles, children, maximumExpandedCharacters)
        ensures BlocksCost(ReadBody(styles, children)).items <= MAXIMUM_EXPANDED_ITEMS
      {
        BodyIsBounded(styles, children, maximumExpandedCharacters);
      }
    } else {
      FullTexts(styles, n, maximumExpandedCharacters);
    }
  }

  function Letters(n: nat): (cs: Chars)
    ensures |cs| == n && forall i :: 0 <= i < n ==> cs[i] == 0x78
  {
    seq(n, _ => 0x78)
  }

  /** A text of one paragraph with the given number of characters. */
  function LetterText(n: nat): BodyChild {
    OfficeText([BlockParagraph(ParagraphElement(false, "", None, [Characters(Letters(n))]))])
  }

  lemma {:induction false} LettersStay(n: nat, hasOutput: bool)
    ensures Normalized(Letters(n), hasOutput, false) == (Letters(n), hasOutput || n > 0, false)
    ensures |Encode(Letters(n))| == n
  {
    if n > 0 {
      assert Letters(n)[1..] == Letters(n - 1) && [] + [0x78] + Letters(n - 1) == Letters(n);
      LettersStay(n - 1, true);
    }
  }

  lemma ReadLetters(n: nat)
    ensures var p := ReadParagraph(map[], ParagraphElement(false, "", None, [Characters(Letters(n))]));
            ParagraphCost(p) == Cost(if n == 0 then 1 else 2, n)
  {
    hide Sum, Encode, Normalized;
    LettersStay(n, false);
    var node, run := Characters(Letters(n)), Run(Encode(Letters(n)), PLAIN);
    var reading := ReadInline(map[], node, PLAIN, FRESH_READING);
    assert reading.runs == if n == 0 then [] else [run] by { assert [] + [run] == [run]; }
    assert [node][1..] == [] && ReadInlines(map[], [], PLAIN, reading) == reading;
    assert ReadInlines(map[], [node], PLAIN, FRESH_READING) == reading;
    assert ApplyStyle(Resolve(map[], "paragraph", ""), PLAIN) == PLAIN;
    NoRuns();
    SumOfOne(run, RunCost);
  }

  lemma LetterTextFits(n: nat)
    ensures TextFits(map[], LetterText(n), n) && BlocksCost(ReadText(map[], LetterText(n))).characters == n
  {
    hide ReadParagraph, ParagraphCost, Sum, BlocksCost;
    var p := ParagraphElement(false, "", None, [Characters(Letters(n))]);
    var block := ParagraphBlock(ReadParagraph(map[], p));
    ReadLetters(n);
    OneBlock(block);
    assert [BlockParagraph(p)][1..] == [] && [Characters(Letters(n))][1..] == [];
    var elements := [BlockParagraph(p)];
    assert LetterText(n) == OfficeText(elements);
    assert ReadBlock(map[], elements[0], NO_LISTS) == ([block], NO_LISTS);
    assert ReadBlocks(map[], elements, NO_LISTS).0 == [block] + [] == [block];
    assert AllInlinesReadable([], 0) && AllInlinesReadable(p.content, 0);
    assert BlockReadable(elements[0], 0) && AllBlocksReadable([], 0) && BlocksReadable(elements, 0);
    assert InlineResolves(map[], p.content[0]) && BlockResolves(map[], elements[0]);
  }

  lemma {:induction false} LetterTexts(n: nat, maximumExpandedCharacters: nat)
    ensures var children := Copies(LetterText(maximumExpandedCharacters), n);
            && Texts(children) == n && TextsFit(map[], children, maximumExpandedCharacters)
            && BlocksCost(ReadBody(map[], children)).characters == n * maximumExpandedCharacters
  {
    hide TextFits, ReadText, BlocksCost, LetterText;
    NothingCosts();
    LetterTextFits(maximumExpandedCharacters);
    assert LetterText(maximumExpandedCharacters).OfficeText? by { LetterTextIsText(maximumExpandedCharacters); }
    if n > 0 {
      var children := Copies(LetterText(maximumExpandedCharacters), n);
      assert children[..n - 1] == Copies(LetterText(maximumExpandedCharacters), n - 1);
      LetterTexts(n - 1, maximumExpandedCharacters);
      BodyCost(map[], children);
      OneMore(maximumExpandedCharacters, n - 1);
    }
  }

  lemma LetterTextIsText(n: nat)
    ensures LetterText(n).OfficeText?
  {
  }

  /** The limit on characters holds for every body with n texts exactly when n is at most one or the limit is zero. */
  lemma OneTextHasItsCharacters(n: nat, maximumExpandedCharacters: nat)
    ensures n <= 1 || maximumExpandedCharacters == 0
            <==> forall styles, children :: Texts(children) == n && TextsFit(styles, children, maximumExpandedCharacters) ==>
                   BlocksCost(ReadBody(styles, children)).characters <= maximumExpandedCharacters
  {
    hide TextsFit, ReadBody, BlocksCost;
    if n <= 1 || maximumExpandedCharacters == 0 {
      forall styles, children | Texts(children) == n && TextsFit(styles, children, maximumExpandedCharacters)
        ensures BlocksCost(ReadBody(styles, children)).characters <= maximumExpandedCharacters
      {
        BodyIsBounded(styles, children, maximumExpandedCharacters);
        assert n == 0 || n == 1 || n * maximumExpandedCharacters == 0;
      }
    } else {
      LetterTexts(n, maximumExpandedCharacters);
      OneMore(maximumExpandedCharacters, n - 1);
      MoreThanOne(n - 1, maximumExpandedCharacters);
    }
  }

  lemma MoreThanOne(n: nat, c: nat)
    requires n >= 1
    ensures c * n >= c
  {
  }

  /** Lists in different texts are told apart by nothing: the identifiers start again. */
  lemma IdentifiersStartAgain(styles: StyleMap)
    ensures var list := ListElement(ListAttributes("", "", "", false),
                                    [ListItem([ItemParagraph(ParagraphElement(false, "", None, []))])]);
            var bs := ReadBody(styles, [OfficeText([BlockList(list)]), OfficeText([BlockList(list)])]);
            && |bs| == 2 && bs[0].ParagraphBlock? && bs[1].ParagraphBlock?
            && bs[0].paragraph.numberingId == bs[1].paragraph.numberingId == Some(1)
  {
    hide ReadBody, ReadList;
    var list := ListElement(ListAttributes("", "", "", false),
                            [ListItem([ItemParagraph(ParagraphElement(false, "", None, []))])]);
    var read, text := ReadList(styles, list, NO_LISTS).0, OfficeText([BlockList(list)]);
    assert [BlockList(list)][1..] == [];
    assert ReadBlocks(styles, [BlockList(list)], NO_LISTS).0 == AsBlocks(read) + [] == AsBlocks(read);
    TwoTexts(styles, text, text);
    OneItem(styles);
  }

  lemma TwoTexts(styles: StyleMap, a: BodyChild, b: BodyChild)
    ensures ReadBody(styles, [a, b]) == ReadText(styles, a) + ReadText(styles, b)
  {
    hide ReadText;
    assert [a, b][..1] == [a] && [a][..0] == [];
    assert ReadBody(styles, []) == [];
    assert [] + ReadText(styles, a) == ReadText(styles, a);
    assert ReadBody(styles, [a]) == ReadText(styles, a);
  }

  lemma OneItem(styles: StyleMap)
    ensures var list := ListElement(ListAttributes("", "", "", false),
                                    [ListItem([ItemParagraph(ParagraphElement(false, "", None, []))])]);
            var read := ReadList(styles, list, NO_LISTS).0;
            |read| == 1 && read[0].numberingId == Some(1)
  {
    hide ReadParagraph, EffectiveStyle;
    var content := [ItemParagraph(ParagraphElement(false, "", None, []))];
    var items := [ListItem(content)];
    assert content[1..] == [] && items[1..] == [];
    assert |ReadItem(styles, content, true, 0, 1, false)| == 1;
    assert ReadItems(styles, items, 0, 1) == ReadItem(styles, content, true, 0, 1, false);
  }
}
