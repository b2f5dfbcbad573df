/** When carrying identities over succeeds: the new parse has an element wherever one is needed, and there are ids enough. */
module IdentityMatch {
  import opened Wrappers
  import opened Identity

  // ---------------------------------------------------------------- one element after the other

  /** The new parse has an element there. */
  ghost predicate Stands(news: seq<Element>, begin: nat, end: nat, name: Option<string>) {
    exists i :: 0 <= i < |news| && Matches(news[i], begin, end, name)
  }

  /** None that has been given an id is there. */
  ghost predicate IsFree(news: seq<Element>, given: Assignment, begin: nat, end: nat)
    requires |given| == |news|
  {
    forall i :: 0 <= i < |news| && given[i].Some? ==> news[i].begin != begin || news[i].end != end
  }

  lemma FoundIfStands(news: seq<Element>, given: Assignment, begin: nat, end: nat, name: Option<string>)
    requires |given| == |news| && IsFree(news, given, begin, end)
    ensures FindByRange(news, given, begin, end, name) < |news| <==> Stands(news, begin, end, name)
  {
  }

  lemma StaysFree(news: seq<Element>, given: Assignment, i: nat, id: nat, begin: nat, end: nat)
    requires |given| == |news| && IsFree(news, given, begin, end) && i < |news|
    requires news[i].begin != begin || news[i].end != end
    ensures IsFree(news, given[i := Some(id)], begin, end)
  {
  }

  /** How many elements have no id yet. */
  function OpenCount(given: Assignment): nat {
    if given == [] then 0 else (if given[0].None? then 1 else 0) + OpenCount(given[1..])
  }

  lemma {:induction false} OneGiven(given: Assignment, i: nat, id: nat)
    requires i < |given| && given[i].None?
    ensures OpenCount(given) == OpenCount(given[i := Some(id)]) + 1
  {
    var after := given[i := Some(id)];
    if i == 0 {
      assert after[1..] == given[1..];
    } else {
      assert after[1..] == given[1..][i - 1 := Some(id)];
      OneGiven(given[1..], i - 1, id);
    }
  }

  lemma {:induction false} AllOpen(n: nat)
    ensures OpenCount(seq(n, _ => None)) == n
  {
    if n > 0 {
      AllOpen(n - 1);
      var none: Assignment, fewer: Assignment := seq(n, _ => None), seq(n - 1, _ => None);
      assert none[1..] == fewer;
    }
  }

  /** There are `n` ids from the next one on. */
  predicate AreLeft(nextId: nat, n: int) { n == 0 || nextId + n <= ID_MAX }

  lemma {:induction false} FillSucceeds(given: Assignment, nextId: nat)
    requires nextId >= 1
    ensures FillFresh(given, nextId).Ok? <==> AreLeft(nextId, OpenCount(given))
    decreases |given|
  {
    if given != [] { FillSucceeds(given[1..], if given[0].None? then nextId + 1 else nextId); }
  }

  // ---------------------------------------------------------------- bindings

  predicate TakeSamePlace(a: Binding, b: Binding) { a.begin == b.begin && a.end == b.end }

  function Allocations(bindings: seq<Binding>): nat {
    if bindings == [] then 0 else (if bindings[0].allocate then 1 else 0) + Allocations(bindings[1..])
  }

  ghost predicate BindingsStand(news: seq<Element>, bindings: seq<Binding>) {
    forall k :: 0 <= k < |bindings| ==> Stands(news, bindings[k].begin, bindings[k].end, None)
  }

  ghost predicate BindingsFree(news: seq<Element>, given: Assignment, bindings: seq<Binding>)
    requires |given| == |news|
  {
    && (forall k :: 0 <= k < |bindings| ==> IsFree(news, given, bindings[k].begin, bindings[k].end))
    && (forall j, k :: 0 <= j < k < |bindings| ==> !TakeSamePlace(bindings[j], bindings[k]))
  }

  /** A new id is the next one, and only one is new. */
  predicate AllocatesNext(bindings: seq<Binding>, nextId: nat) {
    && (forall k :: 0 <= k < |bindings| && bindings[k].allocate ==> bindings[k].id == nextId)
    && (forall j, k :: 0 <= j < k < |bindings| ==> !(bindings[j].allocate && bindings[k].allocate))
  }

  lemma NothingAllocated(bindings: seq<Binding>)
    requires forall k :: 0 <= k < |bindings| ==> !bindings[k].allocate
    ensures Allocations(bindings) == 0
  {
  }

  lemma BoundFree(news: seq<Element>, given: Assignment, bindings: seq<Binding>, i: nat)
    requires |given| == |news| && BindingsFree(news, given, bindings) && bindings != [] && i < |news|
    requires Matches(news[i], bindings[0].begin, bindings[0].end, None)
    ensures BindingsFree(news, given[i := Some(bindings[0].id)], bindings[1..])
  {
    var rest := bindings[1..];
    forall k | 0 <= k < |rest| ensures IsFree(news, given[i := Some(bindings[0].id)], rest[k].begin, rest[k].end) {
      assert rest[k] == bindings[k + 1] && !TakeSamePlace(bindings[0], bindings[k + 1]);
      StaysFree(news, given, i, bindings[0].id, rest[k].begin, rest[k].end);
    }
  }

  lemma RestStands(news: seq<Element>, bindings: seq<Binding>)
    requires bindings != []
    ensures BindingsStand(news, bindings)
            <==> Stands(news, bindings[0].begin, bindings[0].end, None) && BindingsStand(news, bindings[1..])
  {
    hide Stands;
    assert forall k :: 0 < k < |bindings| ==> bindings[k] == bindings[1..][k - 1];
    if BindingsStand(news, bindings) {
      assert forall k :: 0 <= k < |bindings[1..]| ==> bindings[1..][k] == bindings[k + 1];
    }
  }

  lemma RestAllocates(bindings: seq<Binding>, nextId: nat)
    requires bindings != [] && AllocatesNext(bindings, nextId)
    ensures AllocatesNext(bindings[1..], if bindings[0].allocate then nextId + 1 else nextId)
    ensures bindings[0].allocate ==> Allocations(bindings[1..]) == 0
  {
    var rest := bindings[1..];
    assert forall k :: 0 <= k < |rest| ==> rest[k] == bindings[k + 1];
    if bindings[0].allocate { NothingAllocated(rest); }
  }

  lemma {:induction false} BindSucceeds(news: seq<Element>, given: Assignment, bindings: seq<Binding>, nextId: nat)
    requires |given| == |news| && nextId >= 1 && BindingsFree(news, given, bindings) && AllocatesNext(bindings, nextId)
    ensures var bound := BindAll(news, given, bindings, nextId);
            && (bound.Ok? <==> BindingsStand(news, bindings) && AreLeft(nextId, Allocations(bindings)))
            && (bound.Ok? ==> bound.value.1 == nextId + Allocations(bindings)
                              && OpenCount(given) == OpenCount(bound.value.0) + |bindings|)
    decreases |bindings|
  {
    hide FindByRange, BindingsFree, AllocatesNext, BindingsStand, Stands, OpenCount;
    if bindings == [] {
      NothingToBind(news);
    } else {
      var binding := bindings[0];
      var i := FindByRange(news, given, binding.begin, binding.end, None);
      FirstIsFree(news, given, bindings);
      FoundIfStands(news, given, binding.begin, binding.end, None);
      RestStands(news, bindings);
      RestAllocates(bindings, nextId);
      FirstAllocates(bindings, nextId);
      if i < |news| {
        BoundFree(news, given, bindings, i);
        OneGiven(given, i, binding.id);
        BindSucceeds(news, given[i := Some(binding.id)], bindings[1..], if binding.allocate then nextId + 1 else nextId);
      }
    }
  }

  lemma NothingToBind(news: seq<Element>)
    ensures BindingsStand(news, []) && Allocations([]) == 0
  {
  }

  lemma FirstIsFree(news: seq<Element>, given: Assignment, bindings: seq<Binding>)
    requires |given| == |news| && bindings != [] && BindingsFree(news, given, bindings)
    ensures IsFree(news, given, bindings[0].begin, bindings[0].end)
  {
    hide IsFree;
  }

  lemma FirstAllocates(bindings: seq<Binding>, nextId: nat)
    requires bindings != [] && AllocatesNext(bindings, nextId)
    ensures bindings[0].allocate ==> bindings[0].id == nextId
    ensures Allocations(bindings) == (if bindings[0].allocate then 1 else 0) + Allocations(bindings[1..])
  {
  }

  /** What is free and is not bound stays free. */
  lemma {:induction false} OthersStayFree(news: seq<Element>, given: Assignment, bindings: seq<Binding>, nextId: nat, begin: nat, end: nat)
    requires |given| == |news| && BindAll(news, given, bindings, nextId).Ok? && IsFree(news, given, begin, end)
    requires forall k :: 0 <= k < |bindings| ==> bindings[k].begin != begin || bindings[k].end != end
    ensures IsFree(news, BindAll(news, given, bindings, nextId).value.0, begin, end)
    decreases |bindings|
  {
    hide FindByRange, IsFree;
    if bindings != [] {
      var binding := bindings[0];
      var i := FindByRange(news, given, binding.begin, binding.end, None);
      StaysFree(news, given, i, binding.id, begin, end);
      assert forall k :: 0 <= k < |bindings[1..]| ==> bindings[1..][k] == bindings[k + 1];
      OthersStayFree(news, given[i := Some(binding.id)], bindings[1..], if binding.allocate then nextId + 1 else nextId, begin, end);
    }
  }

  // ---------------------------------------------------------------- the elements of before

  /** Where the edit moves an element that it keeps. */
  function NewPlace(o: Element, edit: Edit): (p: (nat, nat))
    requires edit.b <= edit.e && IsKept(o, edit)
  {
    var fate := FateOf(o, edit.b, edit.e, edit.size);
    (fate.begin, fate.end)
  }

  function KeptCount(olds: seq<Element>, edit: Edit): nat
    requires edit.b <= edit.e
  {
    if olds == [] then 0 else (if IsKept(olds[0], edit) then 1 else 0) + KeptCount(olds[1..], edit)
  }

  ghost predicate KeptStand(news: seq<Element>, olds: seq<Element>, edit: Edit)
    requires edit.b <= edit.e
  {
    forall k :: 0 <= k < |olds| && IsKept(olds[k], edit) ==>
      Stands(news, NewPlace(olds[k], edit).0, NewPlace(olds[k], edit).1, Some(olds[k].name))
  }

  ghost predicate NothingCrosses(olds: seq<Element>, edit: Edit)
    requires edit.b <= edit.e
  {
    forall k :: 0 <= k < |olds| && edit.skip != Some(olds[k].id) ==> !FateOf(olds[k], edit.b, edit.e, edit.size).Crossing?
  }

  ghost predicate KeptFree(news: seq<Element>, given: Assignment, olds: seq<Element>, edit: Edit)
    requires |given| == |news| && edit.b <= edit.e
  {
    && (forall k :: 0 <= k < |olds| && IsKept(olds[k], edit) ==>
          IsFree(news, given, NewPlace(olds[k], edit).0, NewPlace(olds[k], edit).1))
    && (forall j, k :: 0 <= j < k < |olds| && IsKept(olds[j], edit) && IsKept(olds[k], edit) ==>
          NewPlace(olds[j], edit) != NewPlace(olds[k], edit))
  }

  lemma RestOfOlds(news: seq<Element>, given: Assignment, olds: seq<Element>, edit: Edit)
    requires |given| == |news| && edit.b <= edit.e && olds != [] && KeptFree(news, given, olds, edit)
    ensures KeptFree(news, given, olds[1..], edit)
    ensures IsKept(olds[0], edit) ==> IsFree(news, given, NewPlace(olds[0], edit).0, NewPlace(olds[0], edit).1)
    ensures KeptStand(news, olds, edit)
            <==> && KeptStand(news, olds[1..], edit)
                 && (IsKept(olds[0], edit) ==> Stands(news, NewPlace(olds[0], edit).0, NewPlace(olds[0], edit).1, Some(olds[0].name)))
    ensures NothingCrosses(olds, edit)
            <==> && NothingCrosses(olds[1..], edit)
                 && (edit.skip != Some(olds[0].id) ==> !FateOf(olds[0], edit.b, edit.e, edit.size).Crossing?)
  {
    hide IsFree, Stands, FateOf;
    var rest := olds[1..];
    assert forall k :: 0 <= k < |rest| ==> rest[k] == olds[k + 1];
    assert forall k :: 0 < k < |olds| ==> olds[k] == rest[k - 1];
  }

  lemma GivenKeepsFree(news: seq<Element>, given: Assignment, olds: seq<Element>, edit: Edit, i: nat)
    requires |given| == |news| && edit.b <= edit.e && olds != [] && KeptFree(news, given, olds, edit) && IsKept(olds[0], edit)
    requires i < |news| && (news[i].begin, news[i].end) == NewPlace(olds[0], edit)
    ensures KeptFree(news, given[i := Some(olds[0].id)], olds[1..], edit)
  {
    hide IsFree, FateOf, IsKept, NewPlace;
    var rest, after := olds[1..], given[i := Some(olds[0].id)];
    assert forall k :: 0 <= k < |rest| ==> rest[k] == olds[k + 1];
    forall k | 0 <= k < |rest| && IsKept(rest[k], edit)
      ensures IsFree(news, after, NewPlace(rest[k], edit).0, NewPlace(rest[k], edit).1)
    {
      assert NewPlace(olds[0], edit) != NewPlace(olds[k + 1], edit);
      StaysFree(news, given, i, olds[0].id, NewPlace(rest[k], edit).0, NewPlace(rest[k], edit).1);
    }
  }

  lemma {:induction false} PreserveSucceeds(news: seq<Element>, given: Assignment, olds: seq<Element>, edit: Edit)
    requires |given| == |news| && edit.b <= edit.e && KeptFree(news, given, olds, edit)
    ensures var later := Preserve(news, given, olds, edit.b, edit.e, edit.size, edit.skip);
            && (later.Ok? <==> NothingCrosses(olds, edit) && KeptStand(news, olds, edit))
            && (later.Ok? ==> OpenCount(given) == OpenCount(later.value) + KeptCount(olds, edit))
    decreases |olds|
  {
    hide FindByRange, KeptFree, KeptStand, NothingCrosses, Stands, FateOf, OpenCount;
    if olds == [] {
      NothingOld(news, edit);
    } else {
      var o := olds[0];
      RestOfOlds(news, given, olds, edit);
      if IsKept(o, edit) {
        var place := NewPlace(o, edit);
        var i := FindByRange(news, given, place.0, place.1, Some(o.name));
        FoundIfStands(news, given, place.0, place.1, Some(o.name));
        if i < |news| {
          GivenKeepsFree(news, given, olds, edit, i);
          OneGiven(given, i, o.id);
          PreserveSucceeds(news, given[i := Some(o.id)], olds[1..], edit);
        }
      } else {
        PreserveSucceeds(news, given, olds[1..], edit);
      }
    }
  }

  lemma NothingOld(news: seq<Element>, edit: Edit)
    requires edit.b <= edit.e
    ensures KeptStand(news, [], edit) && NothingCrosses([], edit) && KeptCount([], edit) == 0
  {
  }

  // ---------------------------------------------------------------- the transfer

  /** No two elements have the same place. */
  predicate DistinctPlaces(es: seq<Element>) {
    forall j, k :: 0 <= j < k < |es| ==> es[j].begin != es[k].begin || es[j].end != es[k].end
  }

  /** What is bound lies in the new text, and no two bindings have the same place. */
  ghost predicate BindsInside(edit: Edit) {
    && (forall k :: 0 <= k < |edit.bindings| ==> edit.b <= edit.bindings[k].begin < edit.b + edit.size)
    && (forall j, k :: 0 <= j < k < |edit.bindings| ==> !TakeSamePlace(edit.bindings[j], edit.bindings[k]))
  }

  lemma PlacesDiffer(o: Element, p: Element, edit: Edit)
    requires edit.b <= edit.e && IsKept(o, edit) && IsKept(p, edit) && (o.begin != p.begin || o.end != p.end)
    ensures NewPlace(o, edit) != NewPlace(p, edit)
  {
  }

  lemma KeptIsOutside(o: Element, edit: Edit)
    requires edit.b <= edit.e && IsKept(o, edit)
    ensures NewPlace(o, edit).0 < edit.b || NewPlace(o, edit).0 >= edit.b + edit.size
  {
  }

  /** Elements of before have places of their own and bindings lie in the new text: then the transfer succeeds exactly
      when the new parse has an element for every binding and, of the same name, for every element outside the edit,
      nothing crosses the edit, and there are ids for all other elements. */
  lemma TransferSucceeds(news: seq<Element>, olds: seq<Element>, edit: Edit, nextId: nat)
    requires edit.b <= edit.e && nextId >= 1 && DistinctPlaces(olds) && BindsInside(edit) && AllocatesNext(edit.bindings, nextId)
    ensures Transfer(news, olds, edit, nextId).Ok?
            <==> && BindingsStand(news, edit.bindings) && KeptStand(news, olds, edit) && NothingCrosses(olds, edit)
                 && AreLeft(nextId, Allocations(edit.bindings))
                 && AreLeft(nextId + Allocations(edit.bindings), |news| - |edit.bindings| - KeptCount(olds, edit))
  {
    hide BindAll, Preserve, FillFresh, BindingsStand, KeptStand, NothingCrosses, KeptCount, Allocations, OpenCount, FateOf,
         BindingsFree, KeptFree;
    var none: Assignment := seq(|news|, _ => None);
    NothingTaken(news, olds, edit);
    AllOpen(|news|);
    BindSucceeds(news, none, edit.bindings, nextId);
    var bound := BindAll(news, none, edit.bindings, nextId);
    if bound.Ok? {
      FreeAfterBinding(news, olds, edit, nextId);
      PreserveSucceeds(news, bound.value.0, olds, edit);
      var given := Preserve(news, bound.value.0, olds, edit.b, edit.e, edit.size, edit.skip);
      if given.Ok? { FillSucceeds(given.value, bound.value.1); }
    }
  }

  lemma NothingTaken(news: seq<Element>, olds: seq<Element>, edit: Edit)
    requires edit.b <= edit.e && DistinctPlaces(olds) && BindsInside(edit)
    ensures BindingsFree(news, seq(|news|, _ => None), edit.bindings)
    ensures KeptFree(news, seq(|news|, _ => None), olds, edit)
  {
    hide FateOf, IsKept, NewPlace;
    forall j, k | 0 <= j < k < |olds| && IsKept(olds[j], edit) && IsKept(olds[k], edit)
      ensures NewPlace(olds[j], edit) != NewPlace(olds[k], edit)
    {
      PlacesDiffer(olds[j], olds[k], edit);
    }
  }

  lemma FreeAfterBinding(news: seq<Element>, olds: seq<Element>, edit: Edit, nextId: nat)
    requires edit.b <= edit.e && DistinctPlaces(olds) && BindsInside(edit)
    requires BindAll(news, seq(|news|, _ => None), edit.bindings, nextId).Ok?
    ensures KeptFree(news, BindAll(news, seq(|news|, _ => None), edit.bindings, nextId).value.0, olds, edit)
  {
    hide FateOf, IsKept, NewPlace, BindAll, IsFree;
    var none: Assignment := seq(|news|, _ => None);
    NothingTaken(news, olds, edit);
    forall k | 0 <= k < |olds| && IsKept(olds[k], edit)
      ensures IsFree(news, BindAll(news, none, edit.bindings, nextId).value.0, NewPlace(olds[k], edit).0, NewPlace(olds[k], edit).1)
    {
      KeptIsOutside(olds[k], edit);
      OthersStayFree(news, none, edit.bindings, nextId, NewPlace(olds[k], edit).0, NewPlace(olds[k], edit).1);
    }
  }
}
