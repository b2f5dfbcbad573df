/** The identifiers of lists: which lists of a text are one and the same. */
module OdfNumbering {
  import opened Wrappers
  import opened OdfStyles
  import opened OdfModel
  import opened OdfOutline

  // ---------------------------------------------------------------- the style of a list

  /** The step leads to a paragraph directly in an item. */
  predicate IsItemParagraph(items: seq<ListChild>, s: Step) {
    s.item < |items| && items[s.item].ListItem? && Under(items, s).ItemParagraph?
  }

  function ListStyleOf(styles: StyleMap, p: ParagraphElement): string {
    Resolve(styles, "paragraph", p.styleName).listStyleName.GetOr("")
  }

  /** The first such paragraph in document order. */
  ghost predicate IsFirstItemParagraph(items: seq<ListChild>, s: Step) {
    IsItemParagraph(items, s) && forall t :: IsItemParagraph(items, t) ==> t == s || IsBefore(s, t)
  }

  lemma {:induction false} InferredInItemIs(styles: StyleMap, content: seq<ItemChild>)
    ensures var inferred := InferredInItem(styles, content);
            && (inferred.None? ==> forall k :: 0 <= k < |content| ==> !content[k].ItemParagraph?)
            && (inferred.Some? ==> exists k :: IsFirstParagraph(content, k)
                                               && inferred.value == ListStyleOf(styles, content[k].paragraph))
  {
    hide Resolve;
    if content != [] {
      var rest := content[1..];
      InferredInItemIs(styles, rest);
      assert forall k :: 0 < k < |content| ==> content[k] == rest[k - 1];
      if content[0].ItemParagraph? {
        assert IsFirstParagraph(content, 0);
      } else if InferredInItem(styles, rest).Some? {
        var k :| IsFirstParagraph(rest, k) && InferredInItem(styles, rest).value == ListStyleOf(styles, rest[k].paragraph);
        assert IsFirstParagraph(content, k + 1);
      }
    }
  }

  predicate IsFirstParagraph(content: seq<ItemChild>, k: int) {
    0 <= k < |content| && content[k].ItemParagraph? && forall j :: 0 <= j < k ==> !content[j].ItemParagraph?
  }

  /** The name is the list style of the first such paragraph. */
  ghost predicate IsStyledBy(styles: StyleMap, items: seq<ListChild>, s: Step, name: string) {
    IsFirstItemParagraph(items, s) && name == ListStyleOf(styles, Under(items, s).paragraph)
  }

  lemma FirstHere(styles: StyleMap, items: seq<ListChild>, k: nat)
    requires items != [] && items[0].ListItem? && IsFirstParagraph(items[0].content, k)
    ensures IsStyledBy(styles, items, Step(0, k), ListStyleOf(styles, items[0].content[k].paragraph))
  {
    hide ListStyleOf;
  }

  lemma LaterStep(items: seq<ListChild>, s: Step)
    requires items != [] && s.item > 0
    ensures IsItemParagraph(items, s) == IsItemParagraph(items[1..], Step(s.item - 1, s.child))
    ensures s.item < |items| ==> Under(items, s) == Under(items[1..], Step(s.item - 1, s.child))
  {
    if s.item < |items| { assert items[s.item] == items[1..][s.item - 1]; }
  }

  predicate HasNoParagraph(child: ListChild) {
    child.ListItem? ==> forall k :: 0 <= k < |child.content| ==> !child.content[k].ItemParagraph?
  }

  lemma FirstLater(styles: StyleMap, items: seq<ListChild>, t: Step, name: string)
    requires items != [] && HasNoParagraph(items[0]) && IsStyledBy(styles, items[1..], t, name)
    ensures IsStyledBy(styles, items, Step(t.item + 1, t.child), name)
  {
    hide Under, ListStyleOf;
    var s := Step(t.item + 1, t.child);
    LaterStep(items, s);
    forall u: Step | IsItemParagraph(items, u) ensures u == s || IsBefore(s, u) {
      NotInFirst(items, u);
      LaterStep(items, u);
      assert IsItemParagraph(items[1..], Step(u.item - 1, u.child));
    }
  }

  lemma NotInFirst(items: seq<ListChild>, u: Step)
    requires items != [] && HasNoParagraph(items[0]) && IsItemParagraph(items, u)
    ensures u.item > 0
  {
  }

  lemma NoneAnywhere(items: seq<ListChild>)
    requires items != [] && HasNoParagraph(items[0]) && forall s :: !IsItemParagraph(items[1..], s)
    ensures forall s :: !IsItemParagraph(items, s)
  {
    hide Under;
    forall s: Step ensures !IsItemParagraph(items, s) {
      if s.item > 0 { LaterStep(items, s); } else if IsItemParagraph(items, s) { NotInFirst(items, s); }
    }
  }

  lemma {:induction false} InferredStyleIs(styles: StyleMap, items: seq<ListChild>)
    ensures var inferred := InferredStyle(styles, items);
            && (inferred.None? ==> forall s :: !IsItemParagraph(items, s))
            && (inferred.Some? ==> exists s :: IsStyledBy(styles, items, s, inferred.value))
  {
    hide InferredInItem, ListStyleOf, IsStyledBy, IsItemParagraph;
    if items == [] {
      NoItems();
    } else {
      var rest := items[1..];
      InferredStyleIs(styles, rest);
      var here := if items[0].ListItem? then InferredInItem(styles, items[0].content) else None;
      if items[0].ListItem? { InferredInItemIs(styles, items[0].content); }
      if here.Some? {
        var k :| IsFirstParagraph(items[0].content, k) && here.value == ListStyleOf(styles, items[0].content[k].paragraph);
        FirstHere(styles, items, k);
      } else if InferredStyle(styles, rest).Some? {
        var t :| IsStyledBy(styles, rest, t, InferredStyle(styles, rest).value);
        FirstLater(styles, items, t, InferredStyle(styles, rest).value);
      } else {
        NoneAnywhere(items);
      }
    }
  }

  lemma NoItems()
    ensures forall s :: !IsItemParagraph([], s)
  {
  }

  /** The style of a list: the one it names, or that of the first paragraph directly in one of its items. */
  lemma EffectiveStyleIs(styles: StyleMap, list: ListElement)
    ensures var style := EffectiveStyle(styles, list);
            if list.attributes.styleName != "" then style == list.attributes.styleName
            else || (exists s :: IsStyledBy(styles, list.items, s, style))
                 || (style == "" && forall s :: !IsItemParagraph(list.items, s))
  {
    hide Resolve, InferredStyle;
    InferredStyleIs(styles, list.items);
  }

  // ---------------------------------------------------------------- identifiers

  /** The bookkeeping after the lists of a text that are not in other lists. */
  function StateAfter(styles: StyleMap, lists: seq<ListElement>): ListState {
    if lists == [] then NO_LISTS
    else ReadList(styles, lists[|lists| - 1], StateAfter(styles, lists[..|lists| - 1])).1
  }

  /** The identifier of the numbered paragraphs of list `k`. */
  function IdentifierOf(styles: StyleMap, lists: seq<ListElement>, k: nat): int
    requires k < |lists|
  {
    StateAfter(styles, lists[..k + 1]).lastTopLevelListIdentifier.GetOr(0)
  }

  predicate HasElementId(lists: seq<ListElement>, j: int, name: string) {
    0 <= j < |lists| && lists[j].attributes.elementId == name
  }

  /** The first list that has the name. */
  ghost predicate IsFirstNamed(lists: seq<ListElement>, j: int, name: string) {
    HasElementId(lists, j, name) && forall i :: 0 <= i < j ==> !HasElementId(lists, i, name)
  }

  ghost predicate KnowsNames(styles: StyleMap, lists: seq<ListElement>, st: ListState) {
    && (forall name :: name in st.listElementIdentifiers ==> exists j :: IsFirstNamed(lists, j, name))
    && (forall name, j :: 0 <= j < |lists| && name != "" && IsFirstNamed(lists, j, name) ==>
          name in st.listElementIdentifiers && st.listElementIdentifiers[name] == IdentifierOf(styles, lists, j))
    && "" !in st.listElementIdentifiers
  }

  /** What the bookkeeping knows of the lists so far. */
  ghost predicate Knows(styles: StyleMap, lists: seq<ListElement>, st: ListState) {
    && st.nextListIdentifier == |lists| + 1
    && (lists == [] ==> st.lastTopLevelListIdentifier == None && st.lastTopLevelListStyleName == None)
    && (lists != [] ==>
          && st.lastTopLevelListIdentifier == Some(IdentifierOf(styles, lists, |lists| - 1))
          && st.lastTopLevelListStyleName == Some(EffectiveStyle(styles, lists[|lists| - 1])))
    && KnowsNames(styles, lists, st)
  }

  lemma SameIdentifier(styles: StyleMap, lists: seq<ListElement>, n: nat, j: nat)
    requires j < n <= |lists|
    ensures IdentifierOf(styles, lists[..n], j) == IdentifierOf(styles, lists, j)
  {
    hide StateAfter;
    assert lists[..n][..j + 1] == lists[..j + 1];
  }

  lemma FirstNamedStays(lists: seq<ListElement>, n: nat, j: int, name: string)
    requires n <= |lists| && j < n
    ensures IsFirstNamed(lists[..n], j, name) == IsFirstNamed(lists, j, name)
  {
    var front := lists[..n];
    assert forall i :: 0 <= i < n ==> HasElementId(front, i, name) == HasElementId(lists, i, name);
  }

  lemma NamesKnown(styles: StyleMap, lists: seq<ListElement>, before: ListState, st: ListState)
    requires lists != [] && KnowsNames(styles, lists[..|lists| - 1], before)
    requires var a, id := lists[|lists| - 1].attributes, IdentifierOf(styles, lists, |lists| - 1);
             st.listElementIdentifiers == if a.elementId == "" || a.elementId in before.listElementIdentifiers
                                          then before.listElementIdentifiers
                                          else before.listElementIdentifiers[a.elementId := id]
    ensures KnowsNames(styles, lists, st)
  {
    hide IdentifierOf, IsFirstNamed;
    var n := |lists| - 1;
    var front, a := lists[..n], lists[n].attributes;
    forall j, name | j < n ensures IsFirstNamed(front, j, name) == IsFirstNamed(lists, j, name) { FirstNamedStays(lists, n, j, name); }
    forall j: nat | j < n ensures IdentifierOf(styles, front, j) == IdentifierOf(styles, lists, j) { SameIdentifier(styles, lists, n, j); }
    if a.elementId != "" && a.elementId !in before.listElementIdentifiers { NewName(styles, lists, before); }
    forall name, j | 0 <= j < |lists| && name != "" && IsFirstNamed(lists, j, name)
      ensures name in st.listElementIdentifiers && st.listElementIdentifiers[name] == IdentifierOf(styles, lists, j)
    {
      NamedIsList(lists, j, name);
      if j == n && name in before.listElementIdentifiers {
        var i :| IsFirstNamed(front, i, name);
        NamedIsList(front, i, name);
        TwoFirst(lists, i, j, name);
      }
    }
    forall name | name in st.listElementIdentifiers ensures exists j :: IsFirstNamed(lists, j, name) {
      if name in before.listElementIdentifiers {
        var i :| IsFirstNamed(front, i, name);
        NamedIsList(front, i, name);
        assert IsFirstNamed(lists, i, name);
      }
    }
  }

  lemma NamedIsList(lists: seq<ListElement>, j: int, name: string)
    requires IsFirstNamed(lists, j, name)
    ensures 0 <= j < |lists| && lists[j].attributes.elementId == name
  {
  }

  lemma TwoFirst(lists: seq<ListElement>, i: int, j: int, name: string)
    requires IsFirstNamed(lists, i, name) && IsFirstNamed(lists, j, name)
    ensures i == j
  {
  }

  lemma NewName(styles: StyleMap, lists: seq<ListElement>, before: ListState)
    requires lists != [] && KnowsNames(styles, lists[..|lists| - 1], before)
    requires var name := lists[|lists| - 1].attributes.elementId; name != "" && name !in before.listElementIdentifiers
    ensures IsFirstNamed(lists, |lists| - 1, lists[|lists| - 1].attributes.elementId)
  {
    hide KnowsNames;
    var n := |lists| - 1;
    var name := lists[n].attributes.elementId;
    if i :| 0 <= i < n && HasElementId(lists, i, name) { NameIsKnown(styles, lists[..n], before, i, name); }
  }

  lemma NameIsKnown(styles: StyleMap, lists: seq<ListElement>, st: ListState, i: nat, name: string)
    requires KnowsNames(styles, lists, st) && name != "" && HasElementId(lists, i, name)
    ensures name in st.listElementIdentifiers
  {
    hide IdentifierOf;
    var j := Earliest(lists, i, name);
  }

  ghost function Earliest(lists: seq<ListElement>, i: nat, name: string): (j: nat)
    requires HasElementId(lists, i, name)
    ensures j <= i && IsFirstNamed(lists, j, name)
  {
    if forall k :: 0 <= k < i ==> !HasElementId(lists, k, name) then i
    else var k: nat :| k < i && HasElementId(lists, k, name); Earliest(lists, k, name)
  }

  lemma {:induction false} StateKnows(styles: StyleMap, lists: seq<ListElement>)
    ensures Knows(styles, lists, StateAfter(styles, lists))
  {
    hide EffectiveStyle, ReadItems, KnowsNames;
    if lists == [] {
      NoNames(styles);
    } else {
      var n := |lists| - 1;
      StateKnows(styles, lists[..n]);
      assert lists[..n + 1] == lists;
      NamesKnown(styles, lists, StateAfter(styles, lists[..n]), StateAfter(styles, lists));
    }
  }

  lemma NoNames(styles: StyleMap)
    ensures KnowsNames(styles, [], NO_LISTS)
  {
  }

  /** Whether the list continues the numbers of the one before it. */
  predicate ContinuesLast(styles: StyleMap, lists: seq<ListElement>, k: nat)
    requires k < |lists|
  {
    && k > 0 && lists[k].attributes.continueNumbering
    && EffectiveStyle(styles, lists[k]) == EffectiveStyle(styles, lists[k - 1])
  }

  /** A list that names a list to continue has the identifier of the first list of that name before it. One that only
      continues numbers has that of the list just before it, if both have the same style. Every other list has one
      of its own, which is its number. */
  lemma ListsAreIdentified(styles: StyleMap, lists: seq<ListElement>, k: nat)
    requires k < |lists|
    ensures var id, target := IdentifierOf(styles, lists, k), lists[k].attributes.continueList;
            if target != "" then
              && (forall j :: 0 <= j < k && IsFirstNamed(lists, j, target) ==> id == IdentifierOf(styles, lists, j))
              && ((forall j :: 0 <= j < k ==> !HasElementId(lists, j, target)) ==> id == k + 1)
            else if ContinuesLast(styles, lists, k) then id == IdentifierOf(styles, lists, k - 1)
            else id == k + 1
  {
    hide EffectiveStyle, ReadItems, IsFirstNamed, StateAfter, KnowsNames;
    var front, target := lists[..k], lists[k].attributes.continueList;
    StateKnows(styles, front);
    OneMoreList(styles, lists, k);
    if target != "" {
      forall j | 0 <= j < k && IsFirstNamed(lists, j, target)
        ensures IdentifierOf(styles, lists, k) == IdentifierOf(styles, lists, j)
      {
        FirstNamedStays(lists, k, j, target);
        SameIdentifier(styles, lists, k, j);
        NameLeadsTo(styles, front, StateAfter(styles, front), j, target);
      }
      if forall j :: 0 <= j < k ==> !HasElementId(lists, j, target) {
        assert forall j :: 0 <= j < k ==> HasElementId(front, j, target) == HasElementId(lists, j, target);
        NameIsUnknown(styles, front, StateAfter(styles, front), target);
      }
    } else if k > 0 {
      SameIdentifier(styles, lists, k, k - 1);
    }
  }

  lemma OneMoreList(styles: StyleMap, lists: seq<ListElement>, k: nat)
    requires k < |lists|
    ensures var before, list := StateAfter(styles, lists[..k]), lists[k];
            IdentifierOf(styles, lists, k)
            == FinalIdentifier(list.attributes, EffectiveStyle(styles, list), before.nextListIdentifier, before)
  {
    hide EffectiveStyle, ReadItems;
    assert lists[..k + 1][..k] == lists[..k];
  }

  lemma NameLeadsTo(styles: StyleMap, lists: seq<ListElement>, st: ListState, j: nat, name: string)
    requires KnowsNames(styles, lists, st) && j < |lists| && name != "" && IsFirstNamed(lists, j, name)
    ensures name in st.listElementIdentifiers && st.listElementIdentifiers[name] == IdentifierOf(styles, lists, j)
  {
    hide IdentifierOf;
  }

  lemma NameIsUnknown(styles: StyleMap, lists: seq<ListElement>, st: ListState, name: string)
    requires KnowsNames(styles, lists, st) && forall j :: 0 <= j < |lists| ==> !HasElementId(lists, j, name)
    ensures name !in st.listElementIdentifiers
  {
    hide IdentifierOf;
  }
}
