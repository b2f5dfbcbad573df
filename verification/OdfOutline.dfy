/** Lists by position: every paragraph of a list element is read once, in document order, and its number follows from
    where it stands. */
module OdfOutline {
  import opened Wrappers
  import opened OdfStyles
  import opened OdfModel

  // ---------------------------------------------------------------- places in a list

  /** Child number `child` of item or header number `item`. */
  datatype Step = Step(item: nat, child: nat)

  /** A way down through nested lists. */
  type Path = seq<Step>

  function ContentOf(child: ListChild): seq<ItemChild> {
    match child case ListItem(content) => content case ListHeader(headings) => headings case OtherListChild => []
  }

  /** What the step leads to. */
  function Under(items: seq<ListChild>, s: Step): ItemChild {
    if s.item < |items| && s.child < |ContentOf(items[s.item])| then ContentOf(items[s.item])[s.child] else OtherItemChild
  }

  /** The item or header that the last step goes into, if the path ends at a paragraph. */
  function HolderAt(items: seq<ListChild>, path: Path): Option<ListChild>
    decreases |path|
  {
    if path == [] then None
    else
      match Under(items, path[0])
      case ItemParagraph(_) => if |path| == 1 then Some(items[path[0].item]) else None
      case ItemList(inner) => HolderAt(inner.items, path[1..])
      case OtherItemChild => None
  }

  /** Document order. */
  predicate Precedes(a: Path, b: Path)
    decreases |a|
  {
    if a == [] || b == [] then a == [] && b != []
    else if a[0] != b[0] then a[0].item < b[0].item || (a[0].item == b[0].item && a[0].child < b[0].child)
    else Precedes(a[1..], b[1..])
  }

  /** The paragraph at a path as it is numbered: directly in an item with the identifier, the level that its depth gives,
      nine levels at most, and as a continuation if it is not the first paragraph directly in its item; directly in a
      header without. */
  ghost predicate IsReadAt(styles: StyleMap, items: seq<ListChild>, path: Path, level: nat, id: int, p: Paragraph)
    requires HolderAt(items, path).Some?
  {
    var holder, last := HolderAt(items, path).value, path[|path| - 1].child;
    && last < |ContentOf(holder)| && ContentOf(holder)[last].ItemParagraph?
    && var read := ReadParagraph(styles, ContentOf(holder)[last].paragraph);
       if holder.ListItem? then
         && p == read.(numberingId := Some(id), numberingLevel := Min(8, level + |path| - 1), numberingContinuation := p.numberingContinuation)
         && (p.numberingContinuation <==> exists j :: 0 <= j < last && holder.content[j].ItemParagraph?)
       else p == read
  }

  lemma {:induction false} HolderHasParagraph(items: seq<ListChild>, path: Path)
    requires HolderAt(items, path).Some?
    ensures var holder, last := HolderAt(items, path).value, path[|path| - 1].child;
            && last < |ContentOf(holder)| && ContentOf(holder)[last].ItemParagraph? && !holder.OtherListChild?
    decreases |path|
  {
    if Under(items, path[0]).ItemList? {
      var rest := path[1..];
      HolderHasParagraph(Under(items, path[0]).list.items, rest);
      assert path[|path| - 1] == rest[|rest| - 1];
    }
  }

  // ---------------------------------------------------------------- all places in document order

  function Deeper(s: Step, paths: seq<Path>): (out: seq<Path>)
    ensures |out| == |paths| && forall k :: 0 <= k < |out| ==> out[k] == [s] + paths[k]
  {
    seq(|paths|, k requires 0 <= k < |paths| => [s] + paths[k])
  }

  /** Below one child of an item or header. */
  function PathsUnder(child: ItemChild, s: Step): seq<Path>
    decreases child
  {
    match child
    case ItemParagraph(_) => [[s]]
    case ItemList(list) => Deeper(s, PathsIn(list.items, 0))
    case OtherItemChild => []
  }

  /** Below children `child` and following of item number `item`. */
  function PathsInContent(content: seq<ItemChild>, item: nat, child: nat): seq<Path>
    decreases content
  {
    if content == [] then []
    else PathsUnder(content[0], Step(item, child)) + PathsInContent(content[1..], item, child + 1)
  }

  /** All paths to paragraphs below items and headers `item` and following. */
  function PathsIn(items: seq<ListChild>, item: nat): seq<Path>
    decreases items
  {
    if items == [] then []
    else
      (match items[0]
       case ListItem(content) => PathsInContent(content, item, 0)
       case ListHeader(headings) => PathsInContent(headings, item, 0)
       case OtherListChild => [])
      + PathsIn(items[1..], item + 1)
  }

  // ---------------------------------------------------------------- the order

  ghost predicate AreOrdered(paths: seq<Path>) { forall i, j :: 0 <= i < j < |paths| ==> Precedes(paths[i], paths[j]) }

  predicate IsBefore(a: Step, b: Step) { a.item < b.item || (a.item == b.item && a.child < b.child) }

  /** All paths begin with a step from `low` on and before `high`. */
  ghost predicate BeginBetween(paths: seq<Path>, low: Step, high: Step) {
    forall k :: 0 <= k < |paths| ==> paths[k] != [] && !IsBefore(paths[k][0], low) && IsBefore(paths[k][0], high)
  }

  lemma OrderedJoin(a: seq<Path>, b: seq<Path>, low: Step, middle: Step, high: Step)
    requires AreOrdered(a) && AreOrdered(b) && BeginBetween(a, low, middle) && BeginBetween(b, middle, high)
    requires !IsBefore(middle, low) && !IsBefore(high, middle)
    ensures AreOrdered(a + b) && BeginBetween(a + b, low, high)
  {
  }

  lemma DeeperOrdered(s: Step, paths: seq<Path>)
    requires AreOrdered(paths)
    ensures AreOrdered(Deeper(s, paths)) && BeginBetween(Deeper(s, paths), s, s.(child := s.child + 1))
  {
    var out := Deeper(s, paths);
    forall i, j | 0 <= i < j < |out| ensures Precedes(out[i], out[j]) {
      assert out[i][1..] == paths[i] && out[j][1..] == paths[j];
    }
  }

  lemma {:induction false} UnderOrdered(child: ItemChild, s: Step)
    ensures AreOrdered(PathsUnder(child, s)) && BeginBetween(PathsUnder(child, s), s, s.(child := s.child + 1))
    decreases child, 1
  {
    if child.ItemList? {
      InOrdered(child.list.items, 0);
      DeeperOrdered(s, PathsIn(child.list.items, 0));
    }
  }

  lemma {:induction false} ContentOrdered(content: seq<ItemChild>, item: nat, child: nat)
    ensures AreOrdered(PathsInContent(content, item, child))
    ensures BeginBetween(PathsInContent(content, item, child), Step(item, child), Step(item + 1, 0))
    decreases content, 0
  {
    if content != [] {
      hide AreOrdered, BeginBetween;
      UnderOrdered(content[0], Step(item, child));
      ContentOrdered(content[1..], item, child + 1);
      OrderedJoin(PathsUnder(content[0], Step(item, child)), PathsInContent(content[1..], item, child + 1),
                  Step(item, child), Step(item, child + 1), Step(item + 1, 0));
    }
  }

  lemma {:induction false} InOrdered(items: seq<ListChild>, item: nat)
    ensures AreOrdered(PathsIn(items, item))
    ensures BeginBetween(PathsIn(items, item), Step(item, 0), Step(item + |items|, 0))
    decreases items, 0
  {
    if items != [] {
      hide AreOrdered, BeginBetween;
      var first := ContentOf(items[0]);
      NothingOrdered(Step(item, 0), Step(item + 1, 0));
      match items[0] {
      case ListItem(content) => ContentOrdered(content, item, 0);
      case ListHeader(headings) => ContentOrdered(headings, item, 0);
      case OtherListChild =>
      }
      InOrdered(items[1..], item + 1);
      OrderedJoin(if items[0].OtherListChild? then [] else PathsInContent(first, item, 0), PathsIn(items[1..], item + 1),
                  Step(item, 0), Step(item + 1, 0), Step(item + |items|, 0));
    }
  }

  lemma NothingOrdered(low: Step, high: Step)
    ensures AreOrdered([]) && BeginBetween([], low, high)
  {
  }

  // ---------------------------------------------------------------- what is read there

  /** Paragraph for paragraph what stands at the paths. */
  ghost predicate AreReadAt(styles: StyleMap, items: seq<ListChild>, paths: seq<Path>, level: nat, id: int, ps: seq<Paragraph>) {
    && |ps| == |paths|
    && forall k :: 0 <= k < |paths| ==> HolderAt(items, paths[k]).Some? && IsReadAt(styles, items, paths[k], level, id, ps[k])
  }

  lemma ReadJoin(styles: StyleMap, items: seq<ListChild>, a: seq<Path>, b: seq<Path>, level: nat, id: int,
                 ps: seq<Paragraph>, qs: seq<Paragraph>)
    requires AreReadAt(styles, items, a, level, id, ps) && AreReadAt(styles, items, b, level, id, qs)
    ensures AreReadAt(styles, items, a + b, level, id, ps + qs)
  {
    hide IsReadAt;
  }

  lemma ReadDeeper(styles: StyleMap, items: seq<ListChild>, s: Step, paths: seq<Path>, level: nat, id: int, ps: seq<Paragraph>)
    requires Under(items, s).ItemList? && AreReadAt(styles, Under(items, s).list.items, paths, level + 1, id, ps)
    ensures AreReadAt(styles, items, Deeper(s, paths), level, id, ps)
  {
    hide ReadParagraph;
    var inner, out := Under(items, s).list.items, Deeper(s, paths);
    forall k | 0 <= k < |paths|
      ensures HolderAt(items, out[k]).Some? && IsReadAt(styles, items, out[k], level, id, ps[k])
    {
      assert IsReadAt(styles, inner, paths[k], level + 1, id, ps[k]);
      assert out[k][1..] == paths[k] && out[k][0] == s;
    }
  }

  /** A paragraph of the item has come before. */
  ghost predicate HasEarlier(content: seq<ItemChild>, n: nat)
    requires n <= |content|
  {
    exists j :: 0 <= j < n && content[j].ItemParagraph?
  }

  lemma {:induction false} ContentReads(styles: StyleMap, items: seq<ListChild>, item: nat, child: nat, level: nat, id: int)
    requires item < |items| && child <= |ContentOf(items[item])|
    ensures var content, isItem := ContentOf(items[item]), items[item].ListItem?;
            AreReadAt(styles, items, PathsInContent(content[child..], item, child), level, id,
                      ReadItem(styles, content[child..], isItem, level, id, isItem && HasEarlier(content, child)))
    decreases items[item], |ContentOf(items[item])| - child
  {
    var content, isItem := ContentOf(items[item]), items[item].ListItem?;
    if child < |content| {
      hide ReadParagraph, AreReadAt;
      var rest := content[child..];
      assert rest[0] == content[child] && rest[1..] == content[child + 1..];
      ContentReads(styles, items, item, child + 1, level, id);
      assert HasEarlier(content, child + 1) <==> HasEarlier(content, child) || content[child].ItemParagraph?;
      ChildReads(styles, items, item, child, level, id);
      ReadJoin(styles, items, PathsUnder(content[child], Step(item, child)), PathsInContent(rest[1..], item, child + 1), level, id,
               ReadItemChild(styles, content[child], isItem, level, id, isItem && HasEarlier(content, child)),
               ReadItem(styles, rest[1..], isItem, level, id, isItem && HasEarlier(content, child + 1)));
    }
  }

  lemma {:induction false} ChildReads(styles: StyleMap, items: seq<ListChild>, item: nat, child: nat, level: nat, id: int)
    requires item < |items| && child < |ContentOf(items[item])|
    ensures var content, isItem := ContentOf(items[item]), items[item].ListItem?;
            AreReadAt(styles, items, PathsUnder(content[child], Step(item, child)), level, id,
                      ReadItemChild(styles, content[child], isItem, level, id, isItem && HasEarlier(content, child)))
    decreases items[item], |ContentOf(items[item])| - child, 0
  {
    var content, s := ContentOf(items[item]), Step(item, child);
    match content[child] {
    case ItemParagraph(p) =>
      hide ReadParagraph;
      assert HolderAt(items, [s]) == Some(items[item]);
    case ItemList(inner) =>
      hide AreReadAt;
      ItemsRead(styles, inner.items, 0, level + 1, id);
      assert inner.items[0..] == inner.items;
      ReadDeeper(styles, items, s, PathsIn(inner.items, 0), level, id, ReadNestedList(styles, inner, level + 1, id));
    case OtherItemChild =>
    }
  }

  lemma {:induction false} ItemsRead(styles: StyleMap, items: seq<ListChild>, item: nat, level: nat, id: int)
    requires item <= |items|
    ensures AreReadAt(styles, items, PathsIn(items[item..], item), level, id, ReadItems(styles, items[item..], level, id))
    decreases items, |items| - item
  {
    if item < |items| {
      hide AreReadAt;
      var rest := items[item..];
      assert rest[0] == items[item] && rest[1..] == items[item + 1..];
      var content := ContentOf(items[item]);
      assert content[0..] == content;
      if !items[item].OtherListChild? { ContentReads(styles, items, item, 0, level, id); } else { NothingRead(styles, items, level, id); }
      ItemsRead(styles, items, item + 1, level, id);
      ReadJoin(styles, items, if items[item].OtherListChild? then [] else PathsInContent(content, item, 0),
               PathsIn(rest[1..], item + 1), level, id,
               ReadListChild(styles, items[item], level, id), ReadItems(styles, rest[1..], level, id));
    }
  }

  lemma NothingRead(styles: StyleMap, items: seq<ListChild>, level: nat, id: int)
    ensures AreReadAt(styles, items, [], level, id, [])
  {
  }

  // ---------------------------------------------------------------- nothing is left out

  lemma {:induction false} InContent(content: seq<ItemChild>, item: nat, child: nat, k: nat, path: Path)
    requires k < |content| && path in PathsUnder(content[k], Step(item, child + k))
    ensures path in PathsInContent(content, item, child)
    decreases |content|
  {
    if k > 0 { InContent(content[1..], item, child + 1, k - 1, path); }
  }

  lemma {:induction false} InItems(items: seq<ListChild>, item: nat, k: nat, path: Path)
    requires k < |items| && !items[k].OtherListChild? && path in PathsInContent(ContentOf(items[k]), item + k, 0)
    ensures path in PathsIn(items, item)
    decreases |items|
  {
    if k > 0 { InItems(items[1..], item + 1, k - 1, path); }
  }

  lemma {:induction false} EveryPathIsListed(items: seq<ListChild>, path: Path)
    requires HolderAt(items, path).Some?
    ensures path in PathsIn(items, 0)
    decreases |path|
  {
    hide PathsIn, PathsInContent;
    var s := path[0];
    var child := Under(items, s);
    if child.ItemList? {
      EveryPathIsListed(child.list.items, path[1..]);
      var inner := PathsIn(child.list.items, 0);
      var k :| 0 <= k < |inner| && inner[k] == path[1..];
      assert Deeper(s, inner)[k] == [s] + path[1..] == path;
    } else {
      assert path == [s];
    }
    assert path in PathsUnder(child, s);
    InContent(ContentOf(items[s.item]), s.item, 0, s.child, path);
    InItems(items, 0, s.item, path);
  }

  /** Reading the items of a list gives one paragraph for each paragraph element in it, however deep, in document order,
      numbered by where it stands. */
  lemma ItemsAreTheirParagraphs(styles: StyleMap, items: seq<ListChild>, level: nat, id: int)
    ensures var paths := PathsIn(items, 0);
            && AreOrdered(paths)
            && (forall path: Path :: path in paths <==> HolderAt(items, path).Some?)
            && AreReadAt(styles, items, paths, level, id, ReadItems(styles, items, level, id))
  {
    hide IsReadAt, AreOrdered, PathsIn, ReadItems, BeginBetween;
    var paths := PathsIn(items, 0);
    InOrdered(items, 0);
    ItemsRead(styles, items, 0, level, id);
    assert items[0..] == items;
    forall path: Path | HolderAt(items, path).Some? ensures path in paths { EveryPathIsListed(items, path); }
  }

  lemma RenumberedAt(styles: StyleMap, items: seq<ListChild>, paths: seq<Path>, from: int, to: int, ps: seq<Paragraph>)
    requires AreReadAt(styles, items, paths, 0, from, ps)
    ensures AreReadAt(styles, items, paths, 0, to, Renumbered(ps, from, to))
  {
    var qs := Renumbered(ps, from, to);
    forall k | 0 <= k < |paths| ensures IsReadAt(styles, items, paths[k], 0, to, qs[k]) {
      assert IsReadAt(styles, items, paths[k], 0, from, ps[k]);
    }
  }

  /** The same for a list that is not in another one; all its numbered paragraphs have its identifier. */
  lemma ListIsItsParagraphs(styles: StyleMap, list: ListElement, s: ListState)
    ensures var paths := PathsIn(list.items, 0);
            var (ps, after) := ReadList(styles, list, s);
            && AreOrdered(paths)
            && (forall path: Path :: path in paths <==> HolderAt(list.items, path).Some?)
            && after.lastTopLevelListIdentifier.Some?
            && AreReadAt(styles, list.items, paths, 0, after.lastTopLevelListIdentifier.value, ps)
  {
    hide AreReadAt, AreOrdered, PathsIn, ReadItems, FinalIdentifier, EffectiveStyle, HolderAt;
    ItemsAreTheirParagraphs(styles, list.items, 0, s.nextListIdentifier);
    RenumberedAt(styles, list.items, PathsIn(list.items, 0), s.nextListIdentifier,
                 ReadList(styles, list, s).1.lastTopLevelListIdentifier.value, ReadItems(styles, list.items, 0, s.nextListIdentifier));
  }
}
