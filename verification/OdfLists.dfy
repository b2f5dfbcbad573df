/** Numbered paragraphs are written as nested lists and read back from them. The reader's continuation flag
    says that an item already holds a numbered paragraph, so a flag survives exactly when the writer could
    put the paragraph into an open item of its level. */
module OdfLists {
  import opened Wrappers
  import opened Decimal
  import opened OdfStyles
  import opened OdfModel

  /** How one paragraph is written. */
  type ParagraphWriter = Paragraph -> ParagraphElement

  function Level(p: Paragraph): (level: int)
    ensures 0 <= level <= 8
  {
    Clamp(p.numberingLevel, 0, 8)
  }

  // ---------------------------------------------------------------- writing

  /** writeListLevel: the list that starts at `index`, and the first paragraph after it. */
  function WrittenLevel(w: ParagraphWriter, ps: seq<Paragraph>, index: nat, level: nat, styleName: string): (r: (ListElement, nat))
    requires index < |ps| && level <= Level(ps[index])
    ensures index < r.1 <= |ps|
    ensures forall i :: index <= i < r.1 ==> Level(ps[i]) >= level
    ensures r.1 < |ps| ==> Level(ps[r.1]) < level
    decreases |ps| - index, 9 - level, 2
  {
    var (items, next) := WrittenItems(w, ps, index, level, styleName);
    (ListElement(ListAttributes(styleName, "", "", false), items), next)
  }

  function WrittenItems(w: ParagraphWriter, ps: seq<Paragraph>, index: nat, level: nat, styleName: string): (r: (seq<ListChild>, nat))
    requires index <= |ps| && level <= 8
    ensures index <= r.1 <= |ps|
    ensures index < |ps| && level <= Level(ps[index]) ==> index < r.1
    ensures forall i :: index <= i < r.1 ==> Level(ps[i]) >= level
    ensures r.1 < |ps| ==> Level(ps[r.1]) < level
    decreases |ps| - index, 9 - level, 1
  {
    if index == |ps| || Level(ps[index]) < level then ([], index)
    else
      var (content, next) := WrittenItem(w, ps, index, level, styleName);
      var (rest, end) := WrittenItems(w, ps, next, level, styleName);
      ([ListItem(content)] + rest, end)
  }

  function WrittenItem(w: ParagraphWriter, ps: seq<Paragraph>, index: nat, level: nat, styleName: string): (r: (seq<ItemChild>, nat))
    requires index < |ps| && level <= Level(ps[index])
    ensures index < r.1 <= |ps|
    ensures forall i :: index <= i < r.1 ==> Level(ps[i]) >= level
    ensures r.1 < |ps| ==> Level(ps[r.1]) <= level
    decreases |ps| - index, 9 - level, 0
  {
    if Level(ps[index]) > level then
      var (nested, next) := WrittenLevel(w, ps, index, level + 1, styleName);
      ([ItemList(nested)], next)
    else
      var (rest, next) := WrittenTail(w, ps, index + 1, level, styleName);
      ([ItemParagraph(w(ps[index]))] + rest, next)
  }

  /** What else goes into an item: deeper lists and continuations. */
  function WrittenTail(w: ParagraphWriter, ps: seq<Paragraph>, index: nat, level: nat, styleName: string): (r: (seq<ItemChild>, nat))
    requires index <= |ps| && level <= 8
    ensures index <= r.1 <= |ps|
    ensures forall i :: index <= i < r.1 ==> Level(ps[i]) >= level
    ensures r.1 < |ps| ==> Level(ps[r.1]) <= level
    ensures r.1 < |ps| && Level(ps[r.1]) == level ==> !ps[r.1].numberingContinuation
    decreases |ps| - index, 9 - level, 0
  {
    if index == |ps| then ([], index)
    else if Level(ps[index]) > level then
      var (nested, next) := WrittenLevel(w, ps, index, level + 1, styleName);
      var (rest, end) := WrittenTail(w, ps, next, level, styleName);
      ([ItemList(nested)] + rest, end)
    else if Level(ps[index]) == level && ps[index].numberingContinuation then
      var (rest, end) := WrittenTail(w, ps, index + 1, level, styleName);
      ([ItemParagraph(w(ps[index]))] + rest, end)
    else ([], index)
  }

  /** writeListLevel: `next` is the index that the original advances by reference. */
  method WriteListLevel(w: ParagraphWriter, ps: seq<Paragraph>, index: nat, level: nat, styleName: string)
    returns (list: ListElement, next: nat)
    requires index < |ps| && level <= Level(ps[index])
    ensures (list, next) == WrittenLevel(w, ps, index, level, styleName)
    decreases |ps| - index, 9 - level, 1
  {
    hide WrittenItem, Level;
    var items: seq<ListChild> := [];
    next := index;
    FollowNothing(WrittenItems(w, ps, index, level, styleName), items, next);
    while next < |ps| && Level(ps[next]) >= level
      invariant index <= next <= |ps|
      invariant Follow(items, WrittenItems(w, ps, next, level, styleName)) == WrittenItems(w, ps, index, level, styleName)
      decreases |ps| - next
    {
      var (written, after) := WrittenItem(w, ps, next, level, styleName);
      FollowOn(items, [ListItem(written)], WrittenItems(w, ps, after, level, styleName));
      var content;
      content, next := WriteListItem(w, ps, next, level, styleName);
      items := items + [ListItem(content)];
    }
    FollowNothing(([], next), items, next);
    list := ListElement(ListAttributes(styleName, "", "", false), items);
  }

  /** One turn of the outer loop of writeListLevel: one list item. */
  method WriteListItem(w: ParagraphWriter, ps: seq<Paragraph>, index: nat, level: nat, styleName: string)
    returns (content: seq<ItemChild>, next: nat)
    requires index < |ps| && level <= Level(ps[index])
    ensures (content, next) == WrittenItem(w, ps, index, level, styleName)
    decreases |ps| - index, 9 - level, 0
  {
    hide WrittenLevel, Level;
    if Level(ps[index]) > level {
      var nested;
      nested, next := WriteListLevel(w, ps, index, level + 1, styleName);
      return [ItemList(nested)], next;
    }
    content, next := [ItemParagraph(w(ps[index]))], index + 1;
    while next < |ps|
      invariant index < next <= |ps|
      invariant Follow(content, WrittenTail(w, ps, next, level, styleName)) == WrittenItem(w, ps, index, level, styleName)
    {
      if Level(ps[next]) > level {
        var (written, after) := WrittenLevel(w, ps, next, level + 1, styleName);
        FollowOn(content, [ItemList(written)], WrittenTail(w, ps, after, level, styleName));
        var nested;
        nested, next := WriteListLevel(w, ps, next, level + 1, styleName);
        content := content + [ItemList(nested)];
      } else if Level(ps[next]) == level && ps[next].numberingContinuation {
        FollowOn(content, [ItemParagraph(w(ps[next]))], WrittenTail(w, ps, next + 1, level, styleName));
        content := content + [ItemParagraph(w(ps[next]))];
        next := next + 1;
      } else {
        break;
      }
    }
    FollowNothing(([], next), content, next);
  }

  // ---------------------------------------------------------------- reading back

  /** Paragraph `k` finds an open item: one of its level before it, with only deeper ones between. */
  ghost predicate OpenAt(ps: seq<Paragraph>, k: nat)
    requires k < |ps|
  {
    exists j :: 0 <= j < k && OpenFrom(ps, j, k)
  }

  ghost predicate OpenFrom(ps: seq<Paragraph>, j: nat, k: nat)
    requires j < k < |ps|
  {
    Level(ps[j]) == Level(ps[k]) && forall i :: j < i < k ==> Level(ps[i]) > Level(ps[k])
  }

  /** What paragraph `k` comes back as. */
  ghost function Returned(styles: StyleMap, w: ParagraphWriter, ps: seq<Paragraph>, k: nat, id: int): Paragraph
    requires k < |ps|
  {
    Numbered(ReadParagraph(styles, w(ps[k])), true, Level(ps[k]), id, ps[k].numberingContinuation && OpenAt(ps, k))
  }

  ghost function AllReturned(styles: StyleMap, w: ParagraphWriter, ps: seq<Paragraph>, from: nat, to: nat, id: int): (rs: seq<Paragraph>)
    requires from <= to <= |ps|
    ensures |rs| == to - from && forall i :: 0 <= i < |rs| ==> rs[i] == Returned(styles, w, ps, from + i, id)
  {
    seq(to - from, i requires 0 <= i < to - from => Returned(styles, w, ps, from + i, id))
  }

  lemma ReturnedInParts(styles: StyleMap, w: ParagraphWriter, ps: seq<Paragraph>, a: nat, b: nat, c: nat, id: int)
    requires a <= b <= c <= |ps|
    ensures AllReturned(styles, w, ps, a, b, id) + AllReturned(styles, w, ps, b, c, id) == AllReturned(styles, w, ps, a, c, id)
  {
    hide Returned;
  }

  /** Nothing before `s` can hold open an item of this level. */
  ghost predicate Begins(ps: seq<Paragraph>, s: nat, level: nat) {
    s <= |ps| && (s == 0 || Level(ps[s - 1]) < level)
  }

  ghost predicate AtLeast(ps: seq<Paragraph>, from: nat, to: nat, level: nat)
    requires to <= |ps|
  {
    forall i :: from <= i < to ==> Level(ps[i]) >= level
  }

  /** Paragraph `k`, if it is of this level, starts an item and comes back without a flag. */
  ghost predicate StartsItem(ps: seq<Paragraph>, k: nat, level: nat) {
    k < |ps| && Level(ps[k]) == level ==> !(ps[k].numberingContinuation && OpenAt(ps, k))
  }

  lemma NotOpenAtBegin(ps: seq<Paragraph>, s: nat, k: nat, level: nat)
    requires Begins(ps, s, level) && s <= k < |ps| && Level(ps[k]) == level
    requires forall i :: s <= i < k ==> Level(ps[i]) > level
    ensures !OpenAt(ps, k)
  {
    forall j | 0 <= j < k ensures !OpenFrom(ps, j, k) {
      if j < s - 1 { assert Level(ps[s - 1]) < level; }
    }
  }

  lemma OpenInItem(ps: seq<Paragraph>, j: nat, k: nat, level: nat)
    requires j < k < |ps| && Level(ps[j]) == level == Level(ps[k]) && AtLeast(ps, j, k, level)
    ensures OpenAt(ps, k)
    decreases k - j
  {
    if exists i :: j < i < k && Level(ps[i]) == level {
      var i :| j < i < k && Level(ps[i]) == level;
      OpenInItem(ps, i, k, level);
    } else {
      assert OpenFrom(ps, j, k);
    }
  }

  /** The items of a list from `k` on; the list begins at `s`. */
  lemma {:induction false} ItemsBack(styles: StyleMap, w: ParagraphWriter, ps: seq<Paragraph>, s: nat, k: nat, level: nat,
                                     styleName: string, id: int)
    requires level <= 8 && Begins(ps, s, level) && s <= k <= |ps| && AtLeast(ps, s, k, level)
    requires k > s && k < |ps| ==> Level(ps[k]) <= level
    requires StartsItem(ps, k, level)
    ensures var (items, next) := WrittenItems(w, ps, k, level, styleName);
            ReadItems(styles, items, level, id) == AllReturned(styles, w, ps, k, next, id)
    decreases |ps| - k, 9 - level, 1
  {
    if k < |ps| && Level(ps[k]) >= level {
      hide OpenAt, ReadItem, WrittenItem, Returned, Level;
      var (content, next) := WrittenItem(w, ps, k, level, styleName);
      ItemBack(styles, w, ps, s, k, level, styleName, id);
      ItemsBack(styles, w, ps, s, next, level, styleName, id);
      var (rest, end) := WrittenItems(w, ps, next, level, styleName);
      assert ([ListItem(content)] + rest)[1..] == rest;
      ReturnedInParts(styles, w, ps, k, next, end, id);
    } else {
      assert AllReturned(styles, w, ps, k, k, id) == [];
    }
  }

  /** One item. */
  lemma {:induction false} ItemBack(styles: StyleMap, w: ParagraphWriter, ps: seq<Paragraph>, s: nat, k: nat, level: nat,
                                    styleName: string, id: int)
    requires Begins(ps, s, level) && s <= k < |ps| && AtLeast(ps, s, k, level)
    requires Level(ps[k]) >= level && (k > s ==> Level(ps[k]) == level)
    requires StartsItem(ps, k, level)
    ensures var (content, next) := WrittenItem(w, ps, k, level, styleName);
            && ReadItem(styles, content, true, level, id, false) == AllReturned(styles, w, ps, k, next, id)
            && StartsItem(ps, next, level)
    decreases |ps| - k, 9 - level, 0
  {
    hide ReadParagraph, OpenAt, Returned;
    var (content, next) := WrittenItem(w, ps, k, level, styleName);
    if Level(ps[k]) > level {
      var nested := WrittenLevel(w, ps, k, level + 1, styleName).0;
      NestedBack(styles, w, ps, k, level, styleName, id);
      if next < |ps| && Level(ps[next]) == level { NotOpenAtBegin(ps, s, next, level); }
    } else {
      TailBack(styles, w, ps, k, k + 1, level, styleName, id);
      var rest := WrittenTail(w, ps, k + 1, level, styleName).0;
      StartReturned(styles, w, ps, k, id);
      ReturnedInParts(styles, w, ps, k, k + 1, next, id);
    }
  }

  lemma StartReturned(styles: StyleMap, w: ParagraphWriter, ps: seq<Paragraph>, k: nat, id: int)
    requires k < |ps| && StartsItem(ps, k, Level(ps[k]))
    ensures Returned(styles, w, ps, k, id) == Numbered(ReadParagraph(styles, w(ps[k])), true, Level(ps[k]), id, false)
  {
    hide ReadParagraph, OpenAt, Numbered;
  }

  /** A list inside an item of this level. */
  lemma {:induction false} NestedBack(styles: StyleMap, w: ParagraphWriter, ps: seq<Paragraph>, k: nat, level: nat,
                                      styleName: string, id: int)
    requires k < |ps| && Level(ps[k]) > level && Begins(ps, k, level + 1)
    ensures var (nested, next) := WrittenLevel(w, ps, k, level + 1, styleName);
            ReadItemChild(styles, ItemList(nested), true, level, id, false) == AllReturned(styles, w, ps, k, next, id)
            == ReadItemChild(styles, ItemList(nested), true, level, id, true)
    decreases |ps| - k, 8 - level, 3
  {
    hide ReadParagraph, OpenAt, Returned, ReadItems;
    if Level(ps[k]) == level + 1 { NotOpenAtBegin(ps, k, k, level + 1); }
    ItemsBack(styles, w, ps, k, k, level + 1, styleName, id);
  }

  lemma NextOfItem(styles: StyleMap, child: ItemChild, rest: seq<ItemChild>, level: int, id: int)
    ensures ReadItem(styles, [child] + rest, true, level, id, true)
         == ReadItemChild(styles, child, true, level, id, true) + ReadItem(styles, rest, true, level, id, true)
  {
    hide ReadItemChild;
    assert ([child] + rest)[1..] == rest;
  }

  /** The rest of the item that paragraph `j` began. */
  lemma {:induction false} TailBack(styles: StyleMap, w: ParagraphWriter, ps: seq<Paragraph>, j: nat, k: nat, level: nat,
                                    styleName: string, id: int)
    requires j < k <= |ps| && level <= 8 && Level(ps[j]) == level && AtLeast(ps, j, k, level)
    requires k < |ps| && Level(ps[k]) > level ==> Level(ps[k - 1]) == level
    ensures var (content, next) := WrittenTail(w, ps, k, level, styleName);
            ReadItem(styles, content, true, level, id, true) == AllReturned(styles, w, ps, k, next, id)
    decreases |ps| - k, 9 - level, 0
  {
    hide ReadParagraph;
    if k == |ps| {
      assert AllReturned(styles, w, ps, k, k, id) == [];
    } else if Level(ps[k]) > level {
      var (nested, next) := WrittenLevel(w, ps, k, level + 1, styleName);
      NestedBack(styles, w, ps, k, level, styleName, id);
      TailBack(styles, w, ps, j, next, level, styleName, id);
      var (rest, end) := WrittenTail(w, ps, next, level, styleName);
      NextOfItem(styles, ItemList(nested), rest, level, id);
      ReturnedInParts(styles, w, ps, k, next, end, id);
    } else if Level(ps[k]) == level && ps[k].numberingContinuation {
      OpenInItem(ps, j, k, level);
      TailBack(styles, w, ps, j, k + 1, level, styleName, id);
      var (rest, end) := WrittenTail(w, ps, k + 1, level, styleName);
      NextOfItem(styles, ItemParagraph(w(ps[k])), rest, level, id);
      ReturnedInParts(styles, w, ps, k, k + 1, end, id);
    } else {
      assert AllReturned(styles, w, ps, k, k, id) == [];
    }
  }

  // ---------------------------------------------------------------- sequences with several lists

  function GeneratedListStyle(id: int): string { "IGDL" + (if id < 0 then "-" + ToText(-id) else ToText(id)) }

  /** How many paragraphs from the first one on have its identifier. */
  function GroupLength(ps: seq<Paragraph>): (n: nat)
    requires ps != []
    ensures 1 <= n <= |ps|
    ensures forall i :: 0 <= i < n ==> ps[i].numberingId == ps[0].numberingId
    ensures n < |ps| ==> ps[n].numberingId != ps[0].numberingId
  {
    if |ps| > 1 && ps[1].numberingId == ps[0].numberingId then 1 + GroupLength(ps[1..]) else 1
  }

  function WrittenList(w: ParagraphWriter, group: seq<Paragraph>): ListElement
    requires group != [] && group[0].numberingId.Some?
  {
    WrittenLevel(w, group, 0, 0, GeneratedListStyle(group[0].numberingId.value)).0
  }

  /** writeParagraphSequence: one element for a paragraph without a number, or a list for all neighbours with
      the same identifier; and how many paragraphs it takes. */
  function FirstPiece(w: ParagraphWriter, ps: seq<Paragraph>): (r: (CellChild, nat))
    requires ps != []
    ensures 1 <= r.1 <= |ps|
  {
    if ps[0].numberingId.None? then (CellParagraph(w(ps[0])), 1)
    else (CellList(WrittenList(w, ps[..GroupLength(ps)])), GroupLength(ps))
  }

  function WrittenSequence(w: ParagraphWriter, ps: seq<Paragraph>): seq<CellChild>
    decreases |ps|
  {
    if ps == [] then []
    else
      var (piece, n) := FirstPiece(w, ps);
      [piece] + WrittenSequence(w, ps[n..])
  }

  /** The inner loop of writeParagraphSequence. */
  method CollectGroup(ps: seq<Paragraph>, index: nat) returns (next: nat)
    requires index < |ps|
    ensures next == index + GroupLength(ps[index..])
  {
    next := index;
    while next < |ps| && ps[next].numberingId == ps[index].numberingId
      invariant index <= next <= |ps|
      invariant forall i :: index <= i < next ==> ps[i].numberingId == ps[index].numberingId
    {
      next := next + 1;
    }
    GroupLengthIs(ps[index..], next - index);
  }

  lemma GroupLengthIs(ps: seq<Paragraph>, n: nat)
    requires 1 <= n <= |ps| && (forall i :: 0 <= i < n ==> ps[i].numberingId == ps[0].numberingId)
    requires n < |ps| ==> ps[n].numberingId != ps[0].numberingId
    ensures GroupLength(ps) == n
  {
  }

  /** One turn of the loop of writeParagraphSequence. */
  method WritePiece(w: ParagraphWriter, ps: seq<Paragraph>, index: nat) returns (piece: CellChild, next: nat)
    requires index < |ps|
    ensures (piece, next - index) == FirstPiece(w, ps[index..])
  {
    hide GroupLength, WrittenLevel;
    if ps[index].numberingId.None? { return CellParagraph(w(ps[index])), index + 1; }
    next := CollectGroup(ps, index);
    assert ps[index..next] == ps[index..][..next - index];
    var list, end := WriteListLevel(w, ps[index..next], 0, 0, GeneratedListStyle(ps[index].numberingId.value));
    piece := CellList(list);
  }

  method WriteParagraphSequence(w: ParagraphWriter, ps: seq<Paragraph>) returns (content: seq<CellChild>)
    ensures content == WrittenSequence(w, ps)
  {
    hide FirstPiece;
    content := [];
    var index: nat := 0;
    assert ps[0..] == ps && [] + WrittenSequence(w, ps) == WrittenSequence(w, ps);
    while index < |ps|
      invariant 0 <= index <= |ps|
      invariant content + WrittenSequence(w, ps[index..]) == WrittenSequence(w, ps)
      decreases |ps| - index
    {
      var piece, next := WritePiece(w, ps, index);
      content, index := content + [piece], next;
    }
    assert ps[index..] == [] && content + [] == content;
  }

  // ---------------------------------------------------------------- reading sequences back

  /** Paragraph `k` finds an open item in its own list: the paragraphs in between have its identifier, too. */
  ghost predicate OpenIn(ps: seq<Paragraph>, k: nat)
    requires k < |ps|
  {
    exists j :: 0 <= j < k && OpenFrom(ps, j, k) && SameList(ps, j, k)
  }

  ghost predicate SameList(ps: seq<Paragraph>, j: nat, k: nat)
    requires j <= k < |ps|
  {
    forall m :: j <= m < k ==> ps[m].numberingId == ps[k].numberingId
  }

  /** `q` is what paragraph `k` comes back as, with a list identifier in the given range. */
  ghost predicate ComesBack(styles: StyleMap, w: ParagraphWriter, ps: seq<Paragraph>, k: nat, q: Paragraph, low: int, high: int)
    requires k < |ps|
  {
    var plain := ReadParagraph(styles, w(ps[k]));
    if ps[k].numberingId.None? then q == plain
    else
      && q.numberingId.Some? && low <= q.numberingId.value < high
      && q == Numbered(plain, true, Level(ps[k]), q.numberingId.value, ps[k].numberingContinuation && OpenIn(ps, k))
  }

  ghost predicate AllComeBack(styles: StyleMap, w: ParagraphWriter, ps: seq<Paragraph>, out: seq<Paragraph>, low: int, high: int) {
    |out| == |ps| && forall k :: 0 <= k < |ps| ==> ComesBack(styles, w, ps, k, out[k], low, high)
  }

  /** Two numbered paragraphs share an identifier in `out` exactly when all from the one to the other share one
      in `ps`. */
  ghost predicate SameLists(ps: seq<Paragraph>, out: seq<Paragraph>)
    requires |out| == |ps|
  {
    forall j, k :: 0 <= j < k < |ps| && ps[j].numberingId.Some? ==>
      (out[j].numberingId == out[k].numberingId <==> SameList(ps, j, k))
  }

  /** The same paragraphs are numbered, with identifiers in the given range. */
  ghost predicate NumberedWithin(ps: seq<Paragraph>, out: seq<Paragraph>, low: int, high: int)
    requires |out| == |ps|
  {
    forall k :: 0 <= k < |ps| ==>
      if ps[k].numberingId.None? then out[k].numberingId.None?
      else out[k].numberingId.Some? && low <= out[k].numberingId.value < high
  }

  /** A whole list comes back under a fresh identifier. */
  lemma ListBack(styles: StyleMap, w: ParagraphWriter, group: seq<Paragraph>, s: ListState)
    requires group != [] && group[0].numberingId.Some?
    ensures var (out, after) := ReadList(styles, WrittenList(w, group), s);
            && out == AllReturned(styles, w, group, 0, |group|, s.nextListIdentifier)
            && after.nextListIdentifier == s.nextListIdentifier + 1
  {
    hide WrittenItems, ReadItems, Returned, EffectiveStyle;
    var name, id := GeneratedListStyle(group[0].numberingId.value), s.nextListIdentifier;
    StartsFirst(group);
    ItemsBack(styles, w, group, 0, 0, 0, name, id);
    RenumberedToItself(ReadItems(styles, WrittenItems(w, group, 0, 0, name).0, 0, id), id);
  }

  lemma StartsFirst(ps: seq<Paragraph>)
    requires ps != []
    ensures StartsItem(ps, 0, 0) && Begins(ps, 0, 0) && AtLeast(ps, 0, 0, 0)
  {
  }

  /** One list, all of one identifier. */
  lemma GroupComesBack(styles: StyleMap, w: ParagraphWriter, group: seq<Paragraph>, id: int)
    requires group != [] && group[0].numberingId.Some?
    requires forall i :: 0 <= i < |group| ==> group[i].numberingId == group[0].numberingId
    ensures var out := AllReturned(styles, w, group, 0, |group|, id);
            AllComeBack(styles, w, group, out, id, id + 1) && SameLists(group, out)
            && forall i :: 0 <= i < |out| ==> out[i].numberingId == Some(id)
  {
    var out := AllReturned(styles, w, group, 0, |group|, id);
    forall k | 0 <= k < |group| ensures ComesBack(styles, w, group, k, out[k], id, id + 1) && out[k].numberingId == Some(id) {
      hide ReadParagraph;
      assert out[k] == Returned(styles, w, group, k, id);
      OneIdentifier(group, k);
    }
  }

  lemma OneIdentifier(ps: seq<Paragraph>, k: nat)
    requires k < |ps| && forall i :: 0 <= i < |ps| ==> ps[i].numberingId == ps[0].numberingId
    ensures OpenIn(ps, k) == OpenAt(ps, k)
  {
    if OpenAt(ps, k) {
      var j :| 0 <= j < k && OpenFrom(ps, j, k);
      assert SameList(ps, j, k);
    }
  }

  lemma ListsAreSeparate(a: seq<Paragraph>, b: seq<Paragraph>, j: nat, k: nat)
    requires j < |a| && k < |b| && b[k].numberingId.Some?
    requires a[|a| - 1].numberingId.Some? ==> a[|a| - 1].numberingId != b[0].numberingId
    ensures !SameList(a + b, j, |a| + k)
  {
    var ps, n := a + b, |a|;
    var m := if ps[n - 1].numberingId != ps[n + k].numberingId then n - 1 else n;
    assert ps[n - 1] == a[n - 1] && ps[n] == b[0] && ps[n + k] == b[k];
    assert m < n + k && ps[m].numberingId != ps[n + k].numberingId;
  }

  /** Whether an item is open is the same question with and without another list in front. */
  lemma OpenBehind(a: seq<Paragraph>, b: seq<Paragraph>, k: nat)
    requires a != [] && k < |b| && b[k].numberingId.Some?
    requires a[|a| - 1].numberingId.Some? ==> a[|a| - 1].numberingId != b[0].numberingId
    ensures OpenIn(a + b, |a| + k) == OpenIn(b, k)
  {
    var ps, n := a + b, |a|;
    if OpenIn(ps, n + k) {
      var j :| 0 <= j < n + k && OpenFrom(ps, j, n + k) && SameList(ps, j, n + k);
      if j < n { ListsAreSeparate(a, b, j, k); }
      OpenShifted(a, b, j - n, k);
    }
    if OpenIn(b, k) {
      var j :| 0 <= j < k && OpenFrom(b, j, k) && SameList(b, j, k);
      OpenShifted(a, b, j, k);
      assert OpenFrom(ps, n + j, n + k) && SameList(ps, n + j, n + k);
    }
  }

  lemma OpenShifted(a: seq<Paragraph>, b: seq<Paragraph>, j: nat, k: nat)
    requires j < k < |b|
    ensures OpenFrom(a + b, |a| + j, |a| + k) == OpenFrom(b, j, k)
    ensures SameList(a + b, |a| + j, |a| + k) == SameList(b, j, k)
  {
    var ps, n := a + b, |a|;
    assert forall i :: 0 <= i < |b| ==> ps[n + i] == b[i];
    if OpenFrom(ps, n + j, n + k) {
      forall i | j < i < k ensures Level(b[i]) > Level(b[k]) { assert ps[n + i] == b[i]; }
    }
    if SameList(ps, n + j, n + k) {
      forall m | j <= m < k ensures b[m].numberingId == b[k].numberingId { assert ps[n + m] == b[m]; }
    }
  }

  lemma OpenInFront(a: seq<Paragraph>, b: seq<Paragraph>, k: nat)
    requires k < |a|
    ensures OpenIn(a + b, k) == OpenIn(a, k)
  {
    var ps := a + b;
    assert forall i :: 0 <= i < |a| ==> a[i] == ps[i];
    if OpenIn(ps, k) {
      var j :| 0 <= j < k && OpenFrom(ps, j, k) && SameList(ps, j, k);
      assert OpenFrom(a, j, k) && SameList(a, j, k);
    }
    if OpenIn(a, k) {
      var j :| 0 <= j < k && OpenFrom(a, j, k) && SameList(a, j, k);
      assert OpenFrom(ps, j, k) && SameList(ps, j, k);
    }
  }

  /** Two parts that come back separately come back together. */
  lemma PartsComeBack(styles: StyleMap, w: ParagraphWriter, a: seq<Paragraph>, b: seq<Paragraph>,
                      outA: seq<Paragraph>, outB: seq<Paragraph>, low: int, middle: int, high: int)
    requires a != [] && low <= middle <= high
    requires AllComeBack(styles, w, a, outA, low, middle) && AllComeBack(styles, w, b, outB, middle, high)
    requires b != [] && a[|a| - 1].numberingId.Some? ==> a[|a| - 1].numberingId != b[0].numberingId
    ensures AllComeBack(styles, w, a + b, outA + outB, low, high)
  {
    hide ComesBack;
    var ps, out, n := a + b, outA + outB, |a|;
    forall k | 0 <= k < |ps| ensures ComesBack(styles, w, ps, k, out[k], low, high) {
      if k < n {
        ComesBackInFront(styles, w, a, b, k, outA[k], low, middle, high);
      } else {
        ComesBackBehind(styles, w, a, b, k - n, outB[k - n], low, middle, high);
      }
    }
  }

  lemma ComesBackInFront(styles: StyleMap, w: ParagraphWriter, a: seq<Paragraph>, b: seq<Paragraph>, k: nat, q: Paragraph,
                         low: int, middle: int, high: int)
    requires k < |a| && middle <= high && ComesBack(styles, w, a, k, q, low, middle)
    ensures ComesBack(styles, w, a + b, k, q, low, high)
  {
    hide ReadParagraph, OpenIn, Level;
    OpenInFront(a, b, k);
    assert (a + b)[k] == a[k];
  }

  lemma ComesBackBehind(styles: StyleMap, w: ParagraphWriter, a: seq<Paragraph>, b: seq<Paragraph>, k: nat, q: Paragraph,
                        low: int, middle: int, high: int)
    requires a != [] && k < |b| && low <= middle && ComesBack(styles, w, b, k, q, middle, high)
    requires a[|a| - 1].numberingId.Some? ==> a[|a| - 1].numberingId != b[0].numberingId
    ensures ComesBack(styles, w, a + b, |a| + k, q, low, high)
  {
    hide ReadParagraph, OpenIn, Level;
    if b[k].numberingId.Some? { OpenBehind(a, b, k); }
    assert (a + b)[|a| + k] == b[k];
  }

  /** Lists of two parts, with identifiers of the second part above those of the first. */
  lemma PartsShareLists(a: seq<Paragraph>, b: seq<Paragraph>, outA: seq<Paragraph>, outB: seq<Paragraph>,
                        low: int, middle: int, high: int)
    requires |outA| == |a| > 0 && |outB| == |b|
    requires NumberedWithin(a, outA, low, middle) && NumberedWithin(b, outB, middle, high)
    requires SameLists(a, outA) && SameLists(b, outB)
    requires b != [] && a[|a| - 1].numberingId.Some? ==> a[|a| - 1].numberingId != b[0].numberingId
    ensures SameLists(a + b, outA + outB)
  {
    hide SameList;
    var ps, out, n := a + b, outA + outB, |a|;
    forall j, k | 0 <= j < k < |ps| && ps[j].numberingId.Some?
      ensures out[j].numberingId == out[k].numberingId <==> SameList(ps, j, k)
    {
      if k < n {
        SameListInFront(a, b, j, k);
      } else if j >= n {
        OpenShifted(a, b, j - n, k - n);
      } else {
        assert ps[j] == a[j] && ps[k] == b[k - n];
        if b[k - n].numberingId.Some? { ListsAreSeparate(a, b, j, k - n); } else if SameList(ps, j, k) { SameListIsNumbered(ps, j, k); }
      }
    }
  }

  lemma SameListIsNumbered(ps: seq<Paragraph>, j: nat, k: nat)
    requires j < k < |ps| && ps[j].numberingId.Some? && SameList(ps, j, k)
    ensures ps[k].numberingId.Some?
  {
  }

  lemma SameListInFront(a: seq<Paragraph>, b: seq<Paragraph>, j: nat, k: nat)
    requires j <= k < |a|
    ensures SameList(a + b, j, k) == SameList(a, j, k)
  {
    assert forall i :: 0 <= i < |a| ==> (a + b)[i] == a[i];
    if SameList(a + b, j, k) {
      forall m | j <= m < k ensures a[m].numberingId == a[k].numberingId { assert (a + b)[m] == a[m]; }
    }
  }

  /** Reading back what writeParagraphSequence wrote: every paragraph with its level; two paragraphs share a
      list exactly when all from the one to the other did before; and a continuation stays one exactly when an item of its level is
      open. */
  lemma {:induction false} SequenceRoundTrip(styles: StyleMap, w: ParagraphWriter, ps: seq<Paragraph>, s: ListState)
    ensures var (out, after) := ReadCellContent(styles, WrittenSequence(w, ps), s);
            && s.nextListIdentifier <= after.nextListIdentifier
            && AllComeBack(styles, w, ps, out, s.nextListIdentifier, after.nextListIdentifier)
            && SameLists(ps, out)
    decreases |ps|
  {
    if ps != [] {
      hide ReadCellChild, ReadCellContent, WrittenSequence, AllComeBack, SameLists, FirstPiece;
      var (piece, n) := FirstPiece(w, ps);
      Halves(ps, n);
      PieceComesBack(styles, w, ps, s);
      var (outA, between) := ReadCellChild(styles, piece, s);
      SequenceRoundTrip(styles, w, ps[n..], between);
      var (outB, after) := ReadCellContent(styles, WrittenSequence(w, ps[n..]), between);
      SequenceInParts(styles, w, ps, s);
      Joint(styles, w, ps, n, outA, outB, s.nextListIdentifier, between.nextListIdentifier, after.nextListIdentifier);
    }
  }

  lemma SequenceInParts(styles: StyleMap, w: ParagraphWriter, ps: seq<Paragraph>, s: ListState)
    requires ps != []
    ensures var (piece, n) := FirstPiece(w, ps);
            var (outA, between) := ReadCellChild(styles, piece, s);
            var (outB, after) := ReadCellContent(styles, WrittenSequence(w, ps[n..]), between);
            ReadCellContent(styles, WrittenSequence(w, ps), s) == (outA + outB, after)
  {
    hide ReadCellChild, FirstPiece;
    var (piece, n) := FirstPiece(w, ps);
    var rest := WrittenSequence(w, ps[n..]);
    assert ([piece] + rest)[0] == piece && ([piece] + rest)[1..] == rest;
  }

  /** What the first piece gives, and that the piece after it starts another list. */
  lemma PieceComesBack(styles: StyleMap, w: ParagraphWriter, ps: seq<Paragraph>, s: ListState)
    requires ps != []
    ensures var (piece, n) := FirstPiece(w, ps);
            var (out, after) := ReadCellChild(styles, piece, s);
            && s.nextListIdentifier <= after.nextListIdentifier
            && AllComeBack(styles, w, ps[..n], out, s.nextListIdentifier, after.nextListIdentifier)
            && SameLists(ps[..n], out)
            && (n < |ps| && ps[n - 1].numberingId.Some? ==> ps[n - 1].numberingId != ps[n].numberingId)
  {
    hide ReadParagraph, ReadList, OpenIn, Returned, WrittenList;
    var (piece, n) := FirstPiece(w, ps);
    if ps[0].numberingId.None? {
      NotNumbered(styles, w(ps[0]));
    } else {
      ListBack(styles, w, ps[..n], s);
      GroupComesBack(styles, w, ps[..n], s.nextListIdentifier);
    }
  }

  lemma NotNumbered(styles: StyleMap, p: ParagraphElement)
    ensures ReadParagraph(styles, p).numberingId == None
  {
  }

  lemma Joint(styles: StyleMap, w: ParagraphWriter, ps: seq<Paragraph>, n: nat, outA: seq<Paragraph>, outB: seq<Paragraph>,
              low: int, middle: int, high: int)
    requires 1 <= n <= |ps| && low <= middle <= high
    requires AllComeBack(styles, w, ps[..n], outA, low, middle) && AllComeBack(styles, w, ps[n..], outB, middle, high)
    requires SameLists(ps[..n], outA) && SameLists(ps[n..], outB)
    requires n < |ps| && ps[n - 1].numberingId.Some? ==> ps[n - 1].numberingId != ps[n].numberingId
    ensures AllComeBack(styles, w, ps, outA + outB, low, high) && SameLists(ps, outA + outB)
  {
    hide AllComeBack, SameLists;
    Halves(ps, n);
    PartsComeBack(styles, w, ps[..n], ps[n..], outA, outB, low, middle, high);
    BackWithin(styles, w, ps[..n], outA, low, middle);
    BackWithin(styles, w, ps[n..], outB, middle, high);
    PartsShareLists(ps[..n], ps[n..], outA, outB, low, middle, high);
  }

  lemma BackWithin(styles: StyleMap, w: ParagraphWriter, ps: seq<Paragraph>, out: seq<Paragraph>, low: int, high: int)
    requires AllComeBack(styles, w, ps, out, low, high)
    ensures |out| == |ps| && NumberedWithin(ps, out, low, high)
  {
    hide OpenIn, Level, ReadParagraph;
    forall k | 0 <= k < |ps|
      ensures if ps[k].numberingId.None? then out[k].numberingId.None?
              else out[k].numberingId.Some? && low <= out[k].numberingId.value < high
    {
      assert ComesBack(styles, w, ps, k, out[k], low, high);
      NotNumbered(styles, w(ps[k]));
    }
  }

  // ---------------------------------------------------------------- flags, and the validator

  /** Every continuation has an open item. */
  ghost predicate AllOpen(ps: seq<Paragraph>) {
    forall k :: 0 <= k < |ps| && ps[k].numberingId.Some? && ps[k].numberingContinuation ==> OpenIn(ps, k)
  }

  /** All flags of numbered paragraphs survive a round trip exactly when every continuation has an open item. */
  lemma FlagsRoundTrip(styles: StyleMap, w: ParagraphWriter, ps: seq<Paragraph>, s: ListState)
    ensures var out := ReadCellContent(styles, WrittenSequence(w, ps), s).0;
            && |out| == |ps|
            && (AllOpen(ps) <==> forall k :: 0 <= k < |ps| && ps[k].numberingId.Some? ==>
                                   out[k].numberingContinuation == ps[k].numberingContinuation)
            && forall k :: 0 <= k < |ps| && ps[k].numberingId.Some? ==> out[k].numberingLevel == Level(ps[k])
  {
    hide OpenIn, ReadParagraph, WrittenSequence, ReadCellContent;
    SequenceRoundTrip(styles, w, ps, s);
    var (out, after) := ReadCellContent(styles, WrittenSequence(w, ps), s);
    forall k | 0 <= k < |ps| && ps[k].numberingId.Some?
      ensures out[k].numberingContinuation == (ps[k].numberingContinuation && OpenIn(ps, k))
      ensures out[k].numberingLevel == Level(ps[k])
    {
      assert ComesBack(styles, w, ps, k, out[k], s.nextListIdentifier, after.nextListIdentifier);
    }
  }

  predicate InRange(p: Paragraph) { 0 <= p.numberingLevel <= 8 }

  /** What the validator looks for: an item of the level in the same list, and since then no item of a lower
      level. Continuations of lower levels do not count, although the writer closes items for them. */
  ghost predicate HasItem(ps: seq<Paragraph>, k: nat, id: int, level: int)
    requires k <= |ps|
  {
    exists j :: 0 <= j < k && ItemSince(ps, j, k, id, level)
  }

  ghost predicate ItemSince(ps: seq<Paragraph>, j: nat, k: nat, id: int, level: int)
    requires j < k <= |ps|
  {
    && ps[j].numberingLevel == level && !ps[j].numberingContinuation
    && (forall m :: j <= m < k ==> ps[m].numberingId == Some(id))
    && (forall m :: j < m < k && InRange(ps[m]) && !ps[m].numberingContinuation ==> ps[m].numberingLevel >= level)
  }

  ghost predicate Accepted(ps: seq<Paragraph>, k: nat)
    requires k < |ps|
  {
    var p := ps[k];
    p.numberingId.Some? && p.numberingContinuation && InRange(p) ==> HasItem(ps, k, p.numberingId.value, p.numberingLevel)
  }

  /** How the validator's array changes with one more paragraph. */
  lemma ItemsAfter(ps: seq<Paragraph>, k: nat, id: int, level: int)
    requires k < |ps| && ps[k].numberingId == Some(id) && 0 <= level <= 8
    ensures HasItem(ps, k + 1, id, level)
            == if !InRange(ps[k]) || ps[k].numberingContinuation then HasItem(ps, k, id, level)
               else level == ps[k].numberingLevel || (level < ps[k].numberingLevel && HasItem(ps, k, id, level))
  {
    if HasItem(ps, k + 1, id, level) {
      var j :| 0 <= j < k + 1 && ItemSince(ps, j, k + 1, id, level);
      if j < k { assert ItemSince(ps, j, k, id, level); }
    }
    if HasItem(ps, k, id, level) {
      var j :| 0 <= j < k && ItemSince(ps, j, k, id, level);
      assert !InRange(ps[k]) || ps[k].numberingContinuation || level <= ps[k].numberingLevel ==> ItemSince(ps, j, k + 1, id, level);
    }
    if ps[k].numberingLevel == level && !ps[k].numberingContinuation { assert ItemSince(ps, k, k + 1, id, level); }
  }

  lemma OtherList(ps: seq<Paragraph>, k: nat, id: int, level: int)
    requires k <= |ps| && (k == 0 || ps[k - 1].numberingId != Some(id))
    ensures !HasItem(ps, k, id, level)
  {
  }

  /** The validator's array before paragraph `k`. */
  ghost predicate Tracks(ps: seq<Paragraph>, k: nat, hasItem: seq<bool>)
    requires k <= |ps|
  {
    && |hasItem| == 9
    && forall level :: 0 <= level < 9 ==>
         hasItem[level] == (k > 0 && ps[k - 1].numberingId.Some? && HasItem(ps, k, ps[k - 1].numberingId.value, level))
  }

  method ValidateNumberingContinuations(ps: seq<Paragraph>) returns (ok: bool)
    ensures ok <==> forall k :: 0 <= k < |ps| ==> Accepted(ps, k)
  {
    hide Tracks, Accepted;
    ok := true;
    var activeIdentifier: Option<int> := None;
    var hasItemAtLevel := new bool[9](_ => false);
    NothingTracked(ps, hasItemAtLevel[..]);
    for index := 0 to |ps|
      invariant fresh(hasItemAtLevel) && hasItemAtLevel.Length == 9
      invariant ok <==> forall k :: 0 <= k < index ==> Accepted(ps, k)
      invariant activeIdentifier == if index == 0 then None else ps[index - 1].numberingId
      invariant Tracks(ps, index, hasItemAtLevel[..])
    {
      var accepted := ValidateOne(ps, index, activeIdentifier, hasItemAtLevel);
      activeIdentifier := ps[index].numberingId;
      ok := ok && accepted;
    }
  }

  lemma NothingTracked(ps: seq<Paragraph>, hasItem: seq<bool>)
    requires |hasItem| == 9 && forall level :: 0 <= level < 9 ==> !hasItem[level]
    ensures Tracks(ps, 0, hasItem)
  {
  }

  /** One turn of the validator's loop. */
  method ValidateOne(ps: seq<Paragraph>, index: nat, activeIdentifier: Option<int>, hasItemAtLevel: array<bool>)
    returns (accepted: bool)
    requires index < |ps| && hasItemAtLevel.Length == 9
    requires activeIdentifier == if index == 0 then None else ps[index - 1].numberingId
    requires Tracks(ps, index, hasItemAtLevel[..])
    modifies hasItemAtLevel
    ensures accepted == Accepted(ps, index)
    ensures Tracks(ps, index + 1, hasItemAtLevel[..])
  {
    hide HasItem;
    var p := ps[index];
    if p.numberingId.None? {
      ClearFrom(hasItemAtLevel, 0);
      return true;
    }
    ghost var id := p.numberingId.value;
    ghost var before := hasItemAtLevel[..];
    if activeIdentifier != p.numberingId { ClearFrom(hasItemAtLevel, 0); }
    forall level | 0 <= level < 9
      ensures hasItemAtLevel[level] == HasItem(ps, index, id, level)
    {
      if activeIdentifier != p.numberingId {
        OtherList(ps, index, id, level);
      } else {
        assert hasItemAtLevel[level] == before[level];
      }
    }
    ghost var items := hasItemAtLevel[..];
    accepted := true;
    if InRange(p) {
      var level := p.numberingLevel;
      if p.numberingContinuation {
        accepted := hasItemAtLevel[level];
      } else {
        hasItemAtLevel[level] := true;
        ClearFrom(hasItemAtLevel, level + 1);
      }
    }
    forall level | 0 <= level < 9 ensures hasItemAtLevel[level] == HasItem(ps, index + 1, id, level) {
      ItemsAfter(ps, index, id, level);
      assert items[level] == HasItem(ps, index, id, level);
    }
  }

  method ClearFrom(a: array<bool>, first: nat)
    requires first <= a.Length
    modifies a
    ensures forall i :: 0 <= i < first ==> a[i] == old(a[i])
    ensures forall i :: first <= i < a.Length ==> !a[i]
  {
    var i := first;
    while i < a.Length
      invariant first <= i <= a.Length
      invariant forall j :: 0 <= j < first ==> a[j] == old(a[j])
      invariant forall j :: first <= j < i ==> !a[j]
    {
      a[i] := false;
      i := i + 1;
    }
  }

  lemma {:induction false} OpenHasItem(ps: seq<Paragraph>, k: nat, j: nat, id: int)
    requires AllOpen(ps) && j < k < |ps| && OpenFrom(ps, j, k) && SameList(ps, j, k) && ps[k].numberingId == Some(id)
    requires forall i :: 0 <= i < |ps| ==> InRange(ps[i])
    ensures HasItem(ps, k, id, ps[k].numberingLevel)
    decreases j
  {
    if !ps[j].numberingContinuation {
      assert ItemSince(ps, j, k, id, ps[k].numberingLevel);
    } else {
      assert ps[j].numberingId == Some(id) && OpenIn(ps, j);
      var i :| 0 <= i < j && OpenFrom(ps, i, j) && SameList(ps, i, j);
      OpenHasItem(ps, j, i, id);
      var n :| 0 <= n < j && ItemSince(ps, n, j, id, ps[j].numberingLevel);
      assert forall m :: n < m < k && InRange(ps[m]) && !ps[m].numberingContinuation ==> m < j || m == j || j < m;
      assert ItemSince(ps, n, k, id, ps[k].numberingLevel);
    }
  }

  /** Whatever survives the round trip is accepted by the validator. */
  lemma OpenIsAccepted(ps: seq<Paragraph>)
    requires AllOpen(ps) && forall i :: 0 <= i < |ps| ==> InRange(ps[i])
    ensures forall k :: 0 <= k < |ps| ==> Accepted(ps, k)
  {
    forall k | 0 <= k < |ps| ensures Accepted(ps, k) {
      if ps[k].numberingId.Some? && ps[k].numberingContinuation {
        assert OpenIn(ps, k);
        var j :| 0 <= j < k && OpenFrom(ps, j, k) && SameList(ps, j, k);
        OpenHasItem(ps, k, j, ps[k].numberingId.value);
      }
    }
  }

  function Listed(level: int, continuation: bool): Paragraph {
    EMPTY_PARAGRAPH.(numberingId := Some(1), numberingLevel := level, numberingContinuation := continuation)
  }

  /** The validator accepts more than survives: an item, a deeper item, a continuation of the first, and then a
      continuation of the deeper one, whose item the writer has closed by then. */
  lemma AcceptedButNotOpen(styles: StyleMap, w: ParagraphWriter, s: ListState)
    ensures var ps := [Listed(0, false), Listed(1, false), Listed(0, true), Listed(1, true)];
            && (forall k :: 0 <= k < |ps| ==> Accepted(ps, k) && InRange(ps[k]))
            && var out := ReadCellContent(styles, WrittenSequence(w, ps), s).0;
            && |out| == 4 && !out[3].numberingContinuation
  {
    hide ReadCellContent, WrittenSequence, ReadParagraph;
    var ps := [Listed(0, false), Listed(1, false), Listed(0, true), Listed(1, true)];
    assert ItemSince(ps, 0, 2, 1, 0) && ItemSince(ps, 1, 3, 1, 1);
    forall j | 0 <= j < 3 ensures !OpenFrom(ps, j, 3) { assert ps[2].numberingLevel == 0; }
    SequenceRoundTrip(styles, w, ps, s);
    var (out, after) := ReadCellContent(styles, WrittenSequence(w, ps), s);
    assert ComesBack(styles, w, ps, 3, out[3], s.nextListIdentifier, after.nextListIdentifier);
  }
}