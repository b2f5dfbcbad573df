/** Searching page elements through shared and cyclic form content. */
module FormSearch {
  import opened Wrappers

  const ID_LIMIT: nat := 0x1_0000_0000_0000_0000

  /** A std::uint64_t. */
  type ElementId = n: nat | n < ID_LIMIT

  /** The elements of a page or of a form; a form's content may be shared, and may contain itself. */
  class ElementList {
    var elements: seq<Element>

    constructor (elements: seq<Element>)
      ensures this.elements == elements
    {
      this.elements := elements;
    }
  }

  /** `content` is what a form element shows, if this is one and has any. */
  datatype Element = Element(id: ElementId, content: Option<ElementList>)

  /** Where an element is. */
  datatype Place = Place(list: ElementList, index: nat)

  // ---------------------------------------------------------------- what can be reached

  /** All lists with their elements at one moment. */
  type Graph = map<ElementList, seq<Element>>

  function Now(all: set<ElementList>): (g: Graph)
    reads all
    ensures g.Keys == all && forall l :: l in all ==> g[l] == l.elements
  {
    map l | l in all :: l.elements
  }

  /** Pages and the contents of elements are among the lists. */
  predicate Closed(g: Graph) {
    forall l, i :: l in g && 0 <= i < |g[l]| && g[l][i].content.Some? ==> g[l][i].content.value in g
  }

  predicate Complete(g: Graph, pages: seq<ElementList>) {
    Closed(g) && forall k :: 0 <= k < |pages| ==> pages[k] in g
  }

  /** The list that a path of element positions leads to. */
  function Follow(g: Graph, l: ElementList, path: seq<nat>): (to: Option<ElementList>)
    requires Closed(g) && l in g
    ensures to.Some? ==> to.value in g
    decreases |path|
  {
    if path == [] then Some(l)
    else if path[0] < |g[l]| && g[l][path[0]].content.Some? then Follow(g, g[l][path[0]].content.value, path[1..])
    else None
  }

  ghost predicate Leads(g: Graph, l: ElementList, to: ElementList)
    requires Closed(g) && l in g
  {
    exists path :: Follow(g, l, path) == Some(to)
  }

  /** The list is that of a page, or the content of a form that can be reached from one. */
  ghost predicate Reachable(g: Graph, pages: seq<ElementList>, to: ElementList)
    requires Complete(g, pages)
  {
    exists k :: 0 <= k < |pages| && Leads(g, pages[k], to)
  }

  predicate StandsAt(g: Graph, place: Place, id: ElementId) {
    place.list in g && place.index < |g[place.list]| && g[place.list][place.index].id == id
  }

  /** A reachable element has the id. */
  ghost predicate Holds(g: Graph, pages: seq<ElementList>, place: Place, id: ElementId)
    requires Complete(g, pages)
  {
    StandsAt(g, place, id) && Reachable(g, pages, place.list)
  }

  /** An element of the id stands where the list leads. */
  ghost predicate Found(g: Graph, l: ElementList, place: Place, id: ElementId)
    requires Closed(g) && l in g
  {
    StandsAt(g, place, id) && Leads(g, l, place.list)
  }

  /** Some reachable element has the id. */
  ghost predicate Present(g: Graph, pages: seq<ElementList>, id: ElementId)
    requires Complete(g, pages)
  {
    exists l, i :: l in g && 0 <= i < |g[l]| && Holds(g, pages, Place(l, i), id)
  }

  lemma LeadsToItself(g: Graph, l: ElementList)
    requires Closed(g) && l in g
    ensures Leads(g, l, l)
  {
    assert Follow(g, l, []) == Some(l);
  }

  lemma LeadsOn(g: Graph, l: ElementList, i: nat, to: ElementList)
    requires Closed(g) && l in g && i < |g[l]| && g[l][i].content.Some?
    requires Leads(g, g[l][i].content.value, to)
    ensures Leads(g, l, to)
  {
    var path :| Follow(g, g[l][i].content.value, path) == Some(to);
    assert ([i] + path)[1..] == path;
    assert Follow(g, l, [i] + path) == Some(to);
  }

  /** The contents of all elements before position `upTo` are in the set. */
  predicate KeptIn(es: seq<Element>, upTo: nat, inside: set<ElementList>) {
    forall i :: 0 <= i < upTo && i < |es| && es[i].content.Some? ==> es[i].content.value in inside
  }

  /** A set that keeps the contents of its lists keeps everything that can be reached. */
  lemma {:induction false} StaysInside(g: Graph, inside: set<ElementList>, l: ElementList, path: seq<nat>)
    requires Closed(g) && l in inside && inside <= g.Keys && forall m :: m in inside ==> KeptIn(g[m], |g[m]|, inside)
    ensures Follow(g, l, path).Some? ==> Follow(g, l, path).value in inside
    decreases |path|
  {
    if path != [] && path[0] < |g[l]| && g[l][path[0]].content.Some? {
      StaysInside(g, inside, g[l][path[0]].content.value, path[1..]);
    }
  }

  // ---------------------------------------------------------------- walks

  /** A walk is complete for a property of elements: all elements before `upTo` have it, and the contents of all
      of them have been visited. */
  ghost predicate Walked(es: seq<Element>, upTo: nat, good: Element -> bool, visited: set<ElementList>) {
    (forall i :: 0 <= i < upTo && i < |es| ==> good(es[i])) && KeptIn(es, upTo, visited)
  }

  ghost predicate AllWalked(g: Graph, lists: set<ElementList>, good: Element -> bool, visited: set<ElementList>)
    requires lists <= g.Keys
  {
    forall l :: l in lists ==> Walked(g[l], |g[l]|, good, visited)
  }

  ghost function PageSet(pages: seq<ElementList>, n: nat): set<ElementList>
    requires n <= |pages|
  {
    set k | 0 <= k < n :: pages[k]
  }

  /** When all pages and everything visited have been walked, every reachable element is good. */
  lemma WalkedIsAll(g: Graph, pages: seq<ElementList>, good: Element -> bool, visited: set<ElementList>, place: Place)
    requires Complete(g, pages) && visited <= g.Keys
    requires AllWalked(g, PageSet(pages, |pages|), good, visited) && AllWalked(g, visited, good, visited)
    requires place.list in g && place.index < |g[place.list]| && Reachable(g, pages, place.list)
    ensures good(g[place.list][place.index])
  {
    var k :| 0 <= k < |pages| && Leads(g, pages[k], place.list);
    var path :| Follow(g, pages[k], path) == Some(place.list);
    var inside := visited + {pages[k]};
    assert pages[k] in PageSet(pages, |pages|);
    forall m | m in inside ensures KeptIn(g[m], |g[m]|, inside) && Walked(g[m], |g[m]|, good, visited) {}
    StaysInside(g, inside, pages[k], path);
    assert Walked(g[place.list], |g[place.list]|, good, visited);
  }

  lemma FewerLeft<T>(all: set<T>, before: set<T>, after: set<T>, x: T)
    requires before <= after && x in all && x !in after
    ensures |all - (after + {x})| < |all - before|
  {
    var left, less := all - before, all - (after + {x});
    assert less <= left - {x};
    SmallerSet(less, left - {x});
  }

  lemma {:induction false} SmallerSet<T>(a: set<T>, b: set<T>)
    requires a <= b
    ensures |a| <= |b|
  {
    assert b == a + (b - a);
  }

  function Unlike(id: ElementId): Element -> bool { (e: Element) => e.id != id }

  function AtMost(maximum: nat): Element -> bool { (e: Element) => e.id <= maximum }

  // ---------------------------------------------------------------- find

  /** findInElements. */
  method FindInElements(ghost all: set<ElementList>, list: ElementList, id: ElementId, visited: set<ElementList>)
    returns (r: Option<Place>, after: set<ElementList>)
    requires Closed(Now(all)) && list in all && visited <= all
    ensures visited <= after <= all
    ensures r.Some? ==> Found(Now(all), list, r.value, id)
    ensures r.None? ==> Walked(list.elements, |list.elements|, Unlike(id), after)
                        && AllWalked(Now(all), after - visited, Unlike(id), after)
    decreases |all - visited|
  {
    ghost var g := Now(all);
    after := visited;
    for i := 0 to |list.elements|
      invariant visited <= after <= all
      invariant Walked(list.elements, i, Unlike(id), after)
      invariant AllWalked(g, after - visited, Unlike(id), after)
    {
      var element := list.elements[i];
      if element.id == id {
        LeadsToItself(g, list);
        return Some(Place(list, i)), after;
      }
      if element.content.None? || element.content.value in after { continue; }
      var content := element.content.value;
      ghost var before := after;
      FewerLeft(all, visited, after, content);
      var nested;
      nested, after := FindInElements(all, content, id, after + {content});
      if nested.Some? {
        LeadsOn(g, list, i, nested.value.list);
        return nested, after;
      }
      WalkedOne(g, visited, before, content, Unlike(id), Unlike(id), after);
    }
    r := None;
  }

  /** After a walk of new content, everything newly visited has been walked. */
  lemma WalkedOne(g: Graph, visited: set<ElementList>, before: set<ElementList>, content: ElementList,
                  good: Element -> bool, better: Element -> bool, after: set<ElementList>)
    requires visited <= before && before + {content} <= after <= g.Keys
    requires AllWalked(g, before - visited, good, before)
    requires Walked(g[content], |g[content]|, better, after) && AllWalked(g, after - (before + {content}), better, after)
    requires forall l, i :: l in g && 0 <= i < |g[l]| && good(g[l][i]) ==> better(g[l][i])
    ensures AllWalked(g, after - visited, better, after)
  {
    assert forall l :: l in after - visited ==> l in (before - visited) + ((after - (before + {content})) + {content});
  }

  /** One more page has been walked. */
  lemma WalkedPage(g: Graph, pages: seq<ElementList>, k: nat, good: Element -> bool, better: Element -> bool,
                   before: set<ElementList>, after: set<ElementList>)
    requires Complete(g, pages) && k < |pages| && before <= after <= g.Keys
    requires AllWalked(g, PageSet(pages, k), good, before) && AllWalked(g, before, good, before)
    requires Walked(g[pages[k]], |g[pages[k]]|, better, after) && AllWalked(g, after - before, better, after)
    requires forall l, i :: l in g && 0 <= i < |g[l]| && good(g[l][i]) ==> better(g[l][i])
    ensures AllWalked(g, PageSet(pages, k + 1), better, after) && AllWalked(g, after, better, after)
  {
    assert PageSet(pages, k + 1) == PageSet(pages, k) + {pages[k]};
    assert before + (after - before) == after;
  }

  /** Once every page has been walked without the id, no reachable element has it. */
  lemma WalkedIsAbsent(g: Graph, pages: seq<ElementList>, id: ElementId, visited: set<ElementList>)
    requires Complete(g, pages) && visited <= g.Keys
    requires AllWalked(g, PageSet(pages, |pages|), Unlike(id), visited) && AllWalked(g, visited, Unlike(id), visited)
    ensures !Present(g, pages, id)
  {
    forall l, i | l in g && 0 <= i < |g[l]| ensures !Holds(g, pages, Place(l, i), id) {
      if Reachable(g, pages, l) { WalkedIsAll(g, pages, Unlike(id), visited, Place(l, i)); }
    }
  }

  /** DocumentEditor::find: an element of the id is found exactly when one can be reached from some page,
      although content that one page has visited is not visited again for another. */
  method Find(ghost all: set<ElementList>, pages: seq<ElementList>, id: ElementId) returns (r: Option<Place>)
    requires Complete(Now(all), pages)
    ensures r.Some? <==> Present(Now(all), pages, id)
    ensures r.Some? ==> Holds(Now(all), pages, r.value, id)
  {
    ghost var g := Now(all);
    var visited: set<ElementList> := {};
    for k := 0 to |pages|
      invariant visited <= all
      invariant AllWalked(g, PageSet(pages, k), Unlike(id), visited) && AllWalked(g, visited, Unlike(id), visited)
    {
      ghost var before := visited;
      r, visited := FindInElements(all, pages[k], id, visited);
      if r.Some? { return; }
      WalkedPage(g, pages, k, Unlike(id), Unlike(id), before, visited);
    }
    WalkedIsAbsent(g, pages, id, visited);
    r := None;
  }

  // ---------------------------------------------------------------- remove

  method IndexOf(elements: seq<Element>, id: ElementId) returns (found: nat)
    ensures found <= |elements| && (forall i :: 0 <= i < found ==> elements[i].id != id)
    ensures found < |elements| ==> elements[found].id == id
  {
    found := 0;
    while found < |elements| && elements[found].id != id
      invariant found <= |elements| && forall i :: 0 <= i < found ==> elements[i].id != id
    {
      found := found + 1;
    }
  }

  /** One element is gone and nothing else has changed. */
  function Erased(g: Graph, place: Place): Graph
    requires place.list in g && place.index < |g[place.list]|
  {
    g[place.list := g[place.list][..place.index] + g[place.list][place.index + 1..]]
  }

  /** removeFromElements: the elements of a list are searched before the contents in it. */
  method RemoveFromElements(ghost all: set<ElementList>, list: ElementList, id: ElementId, visited: set<ElementList>)
    returns (ok: bool, after: set<ElementList>, ghost place: Place)
    requires Closed(Now(all)) && list in all && visited <= all
    modifies all
    ensures visited <= after <= all
    ensures ok ==> Found(old(Now(all)), list, place, id) && Now(all) == Erased(old(Now(all)), place)
    ensures !ok ==> unchanged(all)
    ensures !ok ==> Walked(list.elements, |list.elements|, Unlike(id), after)
                    && AllWalked(old(Now(all)), after - visited, Unlike(id), after)
    decreases |all - visited|
  {
    ghost var g := Now(all);
    after, place := visited, Place(list, 0);
    var found := IndexOf(list.elements, id);
    if found < |list.elements| {
      LeadsToItself(g, list);
      place := Place(list, found);
      list.elements := list.elements[..found] + list.elements[found + 1..];
      return true, after, place;
    }
    for i := 0 to |list.elements|
      invariant unchanged(all) && visited <= after <= all
      invariant Walked(list.elements, i, Unlike(id), after)
      invariant AllWalked(g, after - visited, Unlike(id), after)
    {
      var element := list.elements[i];
      if element.content.None? || element.content.value in after { continue; }
      var content := element.content.value;
      ghost var before := after;
      FewerLeft(all, visited, after, content);
      assert Now(all) == g;
      ok, after, place := RemoveFromElements(all, content, id, after + {content});
      if ok {
        LeadsOn(g, list, i, place.list);
        return;
      }
      WalkedOne(g, visited, before, content, Unlike(id), Unlike(id), after);
    }
    ok := false;
  }

  /** DocumentEditor::remove: something is deleted exactly when an element of the id can be reached, and then it
      is one such element and nothing else. */
  method Remove(ghost all: set<ElementList>, pages: seq<ElementList>, id: ElementId) returns (ok: bool, ghost place: Option<Place>)
    requires Complete(Now(all), pages)
    modifies all
    ensures ok <==> Present(old(Now(all)), pages, id)
    ensures ok ==> place.Some? && Holds(old(Now(all)), pages, place.value, id)
                   && Now(all) == Erased(old(Now(all)), place.value)
    ensures !ok ==> unchanged(all)
  {
    ghost var g := Now(all);
    place := None;
    var visited: set<ElementList> := {};
    for k := 0 to |pages|
      invariant unchanged(all) && visited <= all
      invariant AllWalked(g, PageSet(pages, k), Unlike(id), visited) && AllWalked(g, visited, Unlike(id), visited)
    {
      ghost var before := visited;
      ghost var there;
      assert Now(all) == g;
      ok, visited, there := RemoveFromElements(all, pages[k], id, visited);
      if ok {
        place := Some(there);
        return;
      }
      WalkedPage(g, pages, k, Unlike(id), Unlike(id), before, visited);
    }
    WalkedIsAbsent(g, pages, id, visited);
    ok := false;
  }

  /** No two reachable places hold the same id. */
  ghost predicate UniqueIds(g: Graph, pages: seq<ElementList>)
    requires Complete(g, pages)
  {
    forall l, i, m, j | l in g && m in g && 0 <= i < |g[l]| && 0 <= j < |g[m]| ::
      Reachable(g, pages, l) && Reachable(g, pages, m) && g[l][i].id == g[m][j].id ==> l == m && i == j
  }

  /** With unique ids there is one place to find, so remove deletes what find returns. */
  lemma OnePlace(g: Graph, pages: seq<ElementList>, id: ElementId, p: Place, q: Place)
    requires Complete(g, pages) && UniqueIds(g, pages)
    requires Holds(g, pages, p, id) && Holds(g, pages, q, id)
    ensures p == q
  {
    assert g[p.list][p.index].id == g[q.list][q.index].id;
  }

  /** The position that an element had before the deletion. */
  function Before(place: Place, l: ElementList, i: nat): nat { if l == place.list && i >= place.index then i + 1 else i }

  /** Deleting an element makes nothing reachable that was not. */
  lemma {:induction false} LedBefore(g: Graph, place: Place, l: ElementList, path: seq<nat>)
    requires Closed(g) && place.list in g && place.index < |g[place.list]| && Closed(Erased(g, place)) && l in g
    ensures Follow(Erased(g, place), l, path).Some? ==> Leads(g, l, Follow(Erased(g, place), l, path).value)
    decreases |path|
  {
    var h: Graph := Erased(g, place);
    if path == [] {
      LeadsToItself(g, l);
    } else if path[0] < |h[l]| && h[l][path[0]].content.Some? {
      assert g[l][Before(place, l, path[0])] == h[l][path[0]];
      LedBefore(g, place, h[l][path[0]].content.value, path[1..]);
      if Follow(h, l, path).Some? { LeadsOn(g, l, Before(place, l, path[0]), Follow(h, l, path).value); }
    }
  }

  /** With unique ids the id is gone after its removal, and the document is as complete as it was. */
  lemma ErasedIsGone(g: Graph, pages: seq<ElementList>, id: ElementId, place: Place)
    requires Complete(g, pages) && UniqueIds(g, pages) && Holds(g, pages, place, id)
    ensures Complete(Erased(g, place), pages) && !Present(Erased(g, place), pages, id)
  {
    var h: Graph := Erased(g, place);
    forall l, i | l in h && 0 <= i < |h[l]| ensures h[l][i] == g[l][Before(place, l, i)] {}
    forall l, i | l in h && 0 <= i < |h[l]| ensures !Holds(h, pages, Place(l, i), id) {
      if Reachable(h, pages, l) {
        var k :| 0 <= k < |pages| && Leads(h, pages[k], l);
        var path :| Follow(h, pages[k], path) == Some(l);
        LedBefore(g, place, pages[k], path);
        assert Reachable(g, pages, l);
        assert h[l][i] == g[l][Before(place, l, i)];
      }
    }
  }

  // ---------------------------------------------------------------- fresh ids

  /** updateMaximumId: the maximum and the visited set grow until everything in reach is measured. */
  method UpdateMaximumId(ghost all: set<ElementList>, list: ElementList, maximum: ElementId, visited: set<ElementList>)
    returns (greater: ElementId, after: set<ElementList>, ghost there: Place)
    requires Closed(Now(all)) && list in all && visited <= all
    ensures visited <= after <= all && maximum <= greater
    ensures Walked(list.elements, |list.elements|, AtMost(greater), after)
    ensures AllWalked(Now(all), after - visited, AtMost(greater), after)
    ensures greater == maximum || Found(Now(all), list, there, greater)
    decreases |all - visited|
  {
    hide Walked, AllWalked, Found, Closed;
    ghost var g := Now(all);
    greater, after, there := maximum, visited, Place(list, 0);
    NothingWalked(g, list.elements, AtMost(maximum), visited);
    assert visited - visited == {};
    for i := 0 to |list.elements|
      invariant visited <= after <= all && maximum <= greater
      invariant Walked(list.elements, i, AtMost(greater), after)
      invariant AllWalked(g, after - visited, AtMost(greater), after)
      invariant greater == maximum || Found(g, list, there, greater)
    {
      var element := list.elements[i];
      assert g[list][i] == element;
      ContentIsListed(g, list, i);
      ghost var smaller, before := greater, after;
      if element.id > greater {
        FoundHere(g, list, i);
        greater, there := element.id, Place(list, i);
      }
      LevelRaised(g, after - visited, smaller, greater, after);
      if element.content.Some? && element.content.value !in after {
        var content := element.content.value;
        ghost var least := greater;
        FewerLeft(all, visited, after, content);
        ghost var nested;
        greater, after, nested := UpdateMaximumId(all, content, greater, after + {content});
        if greater != least {
          FoundInside(g, list, i, nested, greater);
          there := nested;
        }
        WalkedOne(g, visited, before, content, AtMost(least), AtMost(greater), after);
      }
      OneMoreWalked(list.elements, i, AtMost(smaller), AtMost(greater), before, after);
    }
  }

  lemma NothingWalked(g: Graph, es: seq<Element>, good: Element -> bool, visited: set<ElementList>)
    ensures Walked(es, 0, good, visited) && AllWalked(g, {}, good, visited)
  {
  }

  lemma ContentIsListed(g: Graph, l: ElementList, i: nat)
    requires Closed(g) && l in g && i < |g[l]|
    ensures g[l][i].content.Some? ==> g[l][i].content.value in g
  {
  }

  lemma FoundHere(g: Graph, l: ElementList, i: nat)
    requires Closed(g) && l in g && i < |g[l]|
    ensures Found(g, l, Place(l, i), g[l][i].id)
  {
    LeadsToItself(g, l);
  }

  lemma FoundInside(g: Graph, l: ElementList, i: nat, place: Place, id: ElementId)
    requires Closed(g) && l in g && i < |g[l]| && g[l][i].content.Some? && Found(g, g[l][i].content.value, place, id)
    ensures Found(g, l, place, id)
  {
    LeadsOn(g, l, i, place.list);
  }

  lemma LevelRaised(g: Graph, lists: set<ElementList>, smaller: nat, greater: nat, visited: set<ElementList>)
    requires lists <= g.Keys && smaller <= greater && AllWalked(g, lists, AtMost(smaller), visited)
    ensures AllWalked(g, lists, AtMost(greater), visited)
  {
  }

  lemma OneMoreWalked(es: seq<Element>, i: nat, good: Element -> bool, better: Element -> bool,
                      before: set<ElementList>, after: set<ElementList>)
    requires i < |es| && Walked(es, i, good, before) && before <= after
    requires forall e: Element :: e in es && good(e) ==> better(e)
    requires better(es[i]) && (es[i].content.Some? ==> es[i].content.value in after)
    ensures Walked(es, i + 1, better, after)
  {
  }

  /** Every reachable id is less than `id`. */
  ghost predicate Exceeds(g: Graph, pages: seq<ElementList>, id: nat)
    requires Complete(g, pages)
  {
    forall l, i :: l in g && 0 <= i < |g[l]| && Reachable(g, pages, l) ==> g[l][i].id < id
  }

  /** DocumentEditor::nextElementId: one more than the greatest id, as a std::uint64_t. It is greater than every
      reachable id exactly when the greatest possible id is not in use; otherwise it wraps to 0. */
  method NextElementId(ghost all: set<ElementList>, pages: seq<ElementList>) returns (next: ElementId)
    requires Complete(Now(all), pages)
    ensures Exceeds(Now(all), pages, next) <==> !Present(Now(all), pages, ID_LIMIT - 1)
    ensures Present(Now(all), pages, ID_LIMIT - 1) ==> next == 0
    ensures next <= 1 || Present(Now(all), pages, next - 1)
  {
    ghost var g := Now(all);
    var maximum: ElementId := 0;
    var visited: set<ElementList> := {};
    for k := 0 to |pages|
      invariant visited <= all
      invariant AllWalked(g, PageSet(pages, k), AtMost(maximum), visited) && AllWalked(g, visited, AtMost(maximum), visited)
      invariant maximum == 0 || Present(g, pages, maximum)
    {
      ghost var smaller, before := maximum, visited;
      ghost var there;
      maximum, visited, there := UpdateMaximumId(all, pages[k], maximum, visited);
      if maximum != smaller { assert Holds(g, pages, there, maximum); }
      WalkedPage(g, pages, k, AtMost(smaller), AtMost(maximum), before, visited);
    }
    forall l, i | l in g && 0 <= i < |g[l]| && Reachable(g, pages, l) ensures g[l][i].id <= maximum {
      WalkedIsAll(g, pages, AtMost(maximum), visited, Place(l, i));
    }
    next := (maximum + 1) % ID_LIMIT;
  }

  /** A page with an element of the greatest id: no id exceeds it. */
  lemma GreatestIdIsNotExceeded(page: ElementList, next: ElementId)
    ensures !Exceeds(map[page := [Element(ID_LIMIT - 1, None)]], [page], next)
  {
    var g := map[page := [Element(ID_LIMIT - 1, None)]];
    LeadsToItself(g, page);
    assert Leads(g, [page][0], page);
    assert g[page][0].id >= next;
  }
}
