/** How both range editors carry element identities from the old parse of a text to the parse of the
    edited text: explicit bindings first, then every old element outside the edit by its shifted
    range and name, then fresh ids for the rest. */
module Identity {
  import opened Wrappers

  /** The largest std::uint64_t; ids stop short of it. */
  const ID_MAX: nat := 0xFFFF_FFFF_FFFF_FFFF

  datatype EditError =
    | OutOfBounds
    | RevisionExhausted
    | ParseFailed
    | BindingNotFound
    | AllocationInconsistent
    | IdSpaceExhausted
    | CrossesRange
    | IdentityLost
    | RemapFailed
    | DuplicateIds
    | RootExists
    | NotFound
    | BadFragment
    | BadSelfClosingParent

  datatype Placed = Placed(id: nat, name: string, begin: nat, end: nat)

  /** An element as the editors see it: an id, a name and a non-empty source range. */
  type Element = p: Placed | p.begin < p.end witness Placed(1, "", 0, 1)

  datatype Binding = Binding(id: nat, begin: nat, end: nat, allocate: bool)

  /** The ids given to the new elements so far; None where `assigned` is false. */
  type Assignment = seq<Option<nat>>

  // ---------------------------------------------------------------- the steps

  datatype Fate = Dropped | Crossing | Moved(begin: nat, end: nat)

  /** What replacing [b, e) by `size` bytes does to an old element. */
  function FateOf(o: Element, b: nat, e: nat, size: nat): Fate
    requires b <= e
  {
    if o.begin == b && o.end == e then Dropped
    else if o.end <= b then Moved(o.begin, o.end)
    else if o.begin >= e then Moved(b + size + (o.begin - e), b + size + (o.end - e))
    else if o.begin < b && o.end > e then Moved(o.begin, o.end - (e - b) + size)
    else if o.begin < e && b < o.end && !(b <= o.begin && o.end <= e) then Crossing
    else Dropped
  }

  predicate Matches(p: Placed, begin: nat, end: nat, name: Option<string>) {
    p.begin == begin && p.end == end && (name.None? || p.name == name.value)
  }

  /** findNodeByRange / findBlockByRange: the first unassigned element there, or the element count. */
  function FindByRange(news: seq<Element>, given: Assignment, begin: nat, end: nat, name: Option<string>, from: nat := 0)
    : (i: nat)
    requires |given| == |news| && from <= |news|
    ensures from <= i <= |news|
    ensures i < |news| ==> given[i].None? && Matches(news[i], begin, end, name)
    ensures forall j :: from <= j < i ==> given[j].Some? || !Matches(news[j], begin, end, name)
    decreases |news| - from
  {
    if from == |news| then from
    else if given[from].None? && Matches(news[from], begin, end, name) then from
    else FindByRange(news, given, begin, end, name, from + 1)
  }

  /** takeNextId. */
  function TakeNextId(nextId: nat): Result<nat, EditError> {
    if nextId == 0 || nextId >= ID_MAX then Err(IdSpaceExhausted) else Ok(nextId + 1)
  }

  function BindAll(news: seq<Element>, given: Assignment, bindings: seq<Binding>, nextId: nat)
    : (r: Result<(Assignment, nat), EditError>)
    requires |given| == |news|
    ensures r.Ok? ==> |r.value.0| == |news|
    decreases |bindings|
  {
    if bindings == [] then Ok((given, nextId))
    else
      var binding := bindings[0];
      var i := FindByRange(news, given, binding.begin, binding.end, None);
      if i == |news| then Err(BindingNotFound)
      else if binding.allocate then
        match TakeNextId(nextId)
        case Err(error) => Err(error)
        case Ok(after) =>
          if nextId != binding.id then Err(AllocationInconsistent)
          else BindAll(news, given[i := Some(binding.id)], bindings[1..], after)
      else BindAll(news, given[i := Some(binding.id)], bindings[1..], nextId)
  }

  /** The loop over the old elements; `skip` is the HTML editor's replaced root. */
  function Preserve(news: seq<Element>, given: Assignment, olds: seq<Element>, b: nat, e: nat, size: nat, skip: Option<nat>)
    : (r: Result<Assignment, EditError>)
    requires |given| == |news| && b <= e
    ensures r.Ok? ==> |r.value| == |news|
    decreases |olds|
  {
    if olds == [] then Ok(given)
    else if skip == Some(olds[0].id) then Preserve(news, given, olds[1..], b, e, size, skip)
    else
      match FateOf(olds[0], b, e, size)
      case Dropped => Preserve(news, given, olds[1..], b, e, size, skip)
      case Crossing => Err(CrossesRange)
      case Moved(begin, end) =>
        var i := FindByRange(news, given, begin, end, Some(olds[0].name));
        if i == |news| then Err(IdentityLost)
        else Preserve(news, given[i := Some(olds[0].id)], olds[1..], b, e, size, skip)
  }

  /** `r` with `ids` in front of the ids it holds. */
  function Prefixed(ids: seq<nat>, r: Result<(seq<nat>, nat), EditError>): Result<(seq<nat>, nat), EditError> {
    match r case Err(error) => Err(error) case Ok(filled) => Ok(Follow(ids, filled))
  }

  /** Fresh ids, in order, for what is still unassigned. */
  function FillFresh(given: Assignment, nextId: nat): (r: Result<(seq<nat>, nat), EditError>)
    ensures r.Ok? ==> |r.value.0| == |given|
  {
    if given == [] then Ok(([], nextId))
    else if given[0].Some? then Prefixed([given[0].value], FillFresh(given[1..], nextId))
    else
      match TakeNextId(nextId)
      case Err(error) => Err(error)
      case Ok(next) => Prefixed([nextId], FillFresh(given[1..], next))
  }

  datatype Edit = Edit(b: nat, e: nat, size: nat, bindings: seq<Binding>, skip: Option<nat>)

  /** The ids of the new elements, and the next id. */
  function Transfer(news: seq<Element>, olds: seq<Element>, edit: Edit, nextId: nat): (r: Result<(seq<nat>, nat), EditError>)
    requires edit.b <= edit.e
    ensures r.Ok? ==> |r.value.0| == |news|
  {
    match BindAll(news, seq(|news|, _ => None), edit.bindings, nextId)
    case Err(error) => Err(error)
    case Ok((bound, next)) =>
      match Preserve(news, bound, olds, edit.b, edit.e, edit.size, edit.skip)
      case Err(error) => Err(error)
      case Ok(given) => FillFresh(given, next)
  }

  /** The same steps as the loops they are. */
  method TransferIds(news: seq<Element>, olds: seq<Element>, edit: Edit, nextId: nat)
    returns (r: Result<(seq<nat>, nat), EditError>)
    requires edit.b <= edit.e
    ensures r == Transfer(news, olds, edit, nextId)
  {
    hide FateOf, FindByRange;
    var given: Assignment := seq(|news|, _ => None);
    var next := nextId;
    for k := 0 to |edit.bindings|
      invariant |given| == |news|
      invariant BindAll(news, seq(|news|, _ => None), edit.bindings, nextId)
             == BindAll(news, given, edit.bindings[k..], next)
    {
      var binding := edit.bindings[k];
      assert edit.bindings[k..][0] == binding && edit.bindings[k..][1..] == edit.bindings[k + 1..];
      var i := FindByRange(news, given, binding.begin, binding.end, None);
      if i == |news| { return Err(BindingNotFound); }
      if binding.allocate {
        var taken := TakeNextId(next);
        if taken.Err? { return Err(taken.error); }
        if next != binding.id { return Err(AllocationInconsistent); }
        next := taken.value;
      }
      given := given[i := Some(binding.id)];
    }
    ghost var bound := given;
    for k := 0 to |olds|
      invariant |given| == |news|
      invariant Preserve(news, bound, olds, edit.b, edit.e, edit.size, edit.skip)
             == Preserve(news, given, olds[k..], edit.b, edit.e, edit.size, edit.skip)
    {
      var o := olds[k];
      assert olds[k..][0] == o && olds[k..][1..] == olds[k + 1..];
      if edit.skip != Some(o.id) {
        var fate := FateOf(o, edit.b, edit.e, edit.size);
        if fate.Crossing? { return Err(CrossesRange); }
        if fate.Moved? {
          var i := FindByRange(news, given, fate.begin, fate.end, Some(o.name));
          if i == |news| { return Err(IdentityLost); }
          given := given[i := Some(o.id)];
        }
      }
    }
    r := FillIds(given, next);
  }

  method FillIds(given: Assignment, nextId: nat) returns (r: Result<(seq<nat>, nat), EditError>)
    ensures r == FillFresh(given, nextId)
  {
    var ids: seq<nat>, next := [], nextId;
    PrefixedNothing(FillFresh(given, nextId));
    for k := 0 to |given|
      invariant FillFresh(given, nextId) == Prefixed(ids, FillFresh(given[k..], next))
    {
      assert given[k..][0] == given[k] && given[k..][1..] == given[k + 1..];
      if given[k].Some? {
        PrefixedBoth(ids, [given[k].value], FillFresh(given[k + 1..], next));
        ids := ids + [given[k].value];
      } else {
        var taken := TakeNextId(next);
        if taken.Err? { return Err(taken.error); }
        PrefixedBoth(ids, [next], FillFresh(given[k + 1..], taken.value));
        ids, next := ids + [next], taken.value;
      }
    }
    assert ids + [] == ids;
    return Ok((ids, next));
  }

  lemma PrefixedNothing(r: Result<(seq<nat>, nat), EditError>)
    ensures Prefixed([], r) == r
  {
    if r.Ok? { FollowNothing(r.value, [], 0); }
  }

  lemma PrefixedBoth(a: seq<nat>, b: seq<nat>, r: Result<(seq<nat>, nat), EditError>)
    ensures Prefixed(a, Prefixed(b, r)) == Prefixed(a + b, r)
  {
    if r.Ok? { FollowOn(a, b, r.value); }
  }

  // ---------------------------------------------------------------- what the transfer guarantees

  /** The ids in use are different, non-zero and below the next one. */
  ghost predicate IdsOk(ids: seq<nat>, nextId: nat) {
    && nextId >= 1
    && (forall i :: 0 <= i < |ids| ==> 0 < ids[i] < nextId)
    && (forall i, j :: 0 <= i < j < |ids| ==> ids[i] != ids[j])
  }

  function IdsOf(es: seq<Element>): (ids: seq<nat>)
    ensures |ids| == |es| && forall i :: 0 <= i < |es| ==> ids[i] == es[i].id
  {
    seq(|es|, i requires 0 <= i < |es| => es[i].id)
  }

  /** The ids given so far. */
  function Values(given: Assignment): set<nat> {
    set i | 0 <= i < |given| && given[i].Some? :: given[i].value
  }

  /** No id was given twice. */
  ghost predicate Injective(given: Assignment) {
    forall i, j :: 0 <= i < j < |given| && given[i].Some? ==> given[i] != given[j]
  }

  /** `later` gives everything that `given` gives. */
  ghost predicate Extends(given: Assignment, later: Assignment) {
    |given| == |later| && forall i :: 0 <= i < |given| && given[i].Some? ==> later[i] == given[i]
  }

  lemma GiveOne(given: Assignment, i: nat, id: nat)
    requires i < |given| && given[i].None? && id !in Values(given) && Injective(given)
    ensures Injective(given[i := Some(id)]) && Extends(given, given[i := Some(id)])
    ensures Values(given[i := Some(id)]) == Values(given) + {id}
  {
    var given' := given[i := Some(id)];
    assert given'[i] == Some(id);
    forall j | 0 <= j < |given| && given[j].Some? ensures given[j].value in Values(given) && given'[j] == given[j] {}
    forall v | v in Values(given) ensures v in Values(given') {
      var j :| 0 <= j < |given| && given[j] == Some(v);
      assert given'[j] == Some(v);
    }
  }

  lemma ExtendsIsTransitive(a: Assignment, b: Assignment, c: Assignment)
    requires Extends(a, b) && Extends(b, c)
    ensures Extends(a, c)
  {
  }

  /** `id` is given to an element at exactly [begin, end), of that name if one is named. */
  ghost predicate GivenAt(news: seq<Element>, given: Assignment, id: nat, begin: nat, end: nat, name: Option<string>)
    requires |given| == |news|
  {
    exists i :: 0 <= i < |news| && given[i] == Some(id) && Matches(news[i], begin, end, name)
  }

  lemma GivenAtStays(news: seq<Element>, given: Assignment, later: Assignment, id: nat, begin: nat, end: nat, name: Option<string>)
    requires |given| == |news| && GivenAt(news, given, id, begin, end, name) && Extends(given, later)
    ensures GivenAt(news, later, id, begin, end, name)
  {
    var i :| 0 <= i < |news| && given[i] == Some(id) && Matches(news[i], begin, end, name);
    assert later[i] == Some(id);
  }

  function BindingIds(bindings: seq<Binding>): set<nat> {
    set k | 0 <= k < |bindings| :: bindings[k].id
  }

  lemma BindingIdsStep(bindings: seq<Binding>)
    requires bindings != []
    ensures BindingIds(bindings) == {bindings[0].id} + BindingIds(bindings[1..])
  {
    forall k | 0 <= k < |bindings| ensures k > 0 ==> bindings[k].id in BindingIds(bindings[1..]) {
      if k > 0 { assert bindings[1..][k - 1] == bindings[k]; }
    }
  }

  ghost predicate AllBound(news: seq<Element>, given: Assignment, bindings: seq<Binding>)
    requires |given| == |news|
  {
    forall k :: 0 <= k < |bindings| ==>
      GivenAt(news, given, bindings[k].id, bindings[k].begin, bindings[k].end, None)
  }

  predicate DistinctBindings(bindings: seq<Binding>) {
    forall k, l :: 0 <= k < l < |bindings| ==> bindings[k].id != bindings[l].id
  }

  lemma {:induction false} BindAllKeeps(
    news: seq<Element>, given: Assignment, bindings: seq<Binding>, nextId: nat)
    requires |given| == |news| && BindAll(news, given, bindings, nextId).Ok?
    requires Injective(given) && Values(given) !! BindingIds(bindings) && DistinctBindings(bindings)
    ensures var (bound, next) := BindAll(news, given, bindings, nextId).value;
            && Injective(bound) && Extends(given, bound)
            && Values(bound) == Values(given) + BindingIds(bindings)
            && AllBound(news, bound, bindings)
            && nextId <= next
            && (forall k :: 0 <= k < |bindings| && bindings[k].allocate ==> nextId <= bindings[k].id < next)
    decreases |bindings|
  {
    hide Injective, Extends, Values, FindByRange, GivenAt, BindingIds;
    if bindings == [] {
      NothingBound(given);
    } else {
      var binding := bindings[0];
      var i := FindByRange(news, given, binding.begin, binding.end, None);
      var given' := given[i := Some(binding.id)];
      var nextId' := if binding.allocate then nextId + 1 else nextId;
      BindingIdsStep(bindings);
      FirstIsNotInRest(bindings);
      GiveOne(given, i, binding.id);
      BindAllKeeps(news, given', bindings[1..], nextId');
      var (bound, next) := BindAll(news, given, bindings, nextId).value;
      ExtendsIsTransitive(given, given', bound);
      GivenAtStays(news, given', bound, binding.id, binding.begin, binding.end, None);
      forall k | 0 < k < |bindings|
        ensures GivenAt(news, bound, bindings[k].id, bindings[k].begin, bindings[k].end, None)
        ensures bindings[k].allocate ==> nextId' <= bindings[k].id < next
      {
        assert bindings[1..][k - 1] == bindings[k];
      }
    }
  }

  lemma NothingBound(given: Assignment)
    ensures Extends(given, given) && BindingIds([]) == {}
  {
  }

  lemma FirstIsNotInRest(bindings: seq<Binding>)
    requires bindings != [] && DistinctBindings(bindings)
    ensures bindings[0].id !in BindingIds(bindings[1..]) && DistinctBindings(bindings[1..])
  {
  }

  // ---- edits whose bindings make sense

  /** The bindings of an edit are the next id and ids of old elements with exactly the edited range;
      no id is bound twice, and only a bound element is skipped. */
  ghost predicate BindingsSound(edit: Edit, olds: seq<Element>, nextId: nat) {
    && edit.b <= edit.e
    && (forall k :: 0 <= k < |edit.bindings| ==>
          var binding := edit.bindings[k];
          if binding.allocate then binding.id == nextId
          else exists o :: o in olds && o.id == binding.id && o.begin == edit.b && o.end == edit.e)
    && DistinctBindings(edit.bindings)
    && (edit.skip.Some? ==> exists k :: 0 <= k < |edit.bindings| && edit.bindings[k].id == edit.skip.value)
  }

  /** `o` lies outside the edit and has to be found again. */
  predicate IsKept(o: Element, edit: Edit)
    requires edit.b <= edit.e
  {
    edit.skip != Some(o.id) && FateOf(o, edit.b, edit.e, edit.size).Moved?
  }

  function KeptIds(olds: seq<Element>, edit: Edit): set<nat>
    requires edit.b <= edit.e
  {
    set k | 0 <= k < |olds| && IsKept(olds[k], edit) :: olds[k].id
  }

  lemma KeptIdsStep(olds: seq<Element>, edit: Edit)
    requires edit.b <= edit.e && olds != []
    ensures KeptIds(olds, edit)
         == (if IsKept(olds[0], edit) then {olds[0].id} else {}) + KeptIds(olds[1..], edit)
  {
    forall k | 0 < k < |olds| && IsKept(olds[k], edit) ensures olds[k].id in KeptIds(olds[1..], edit) {
      assert olds[1..][k - 1] == olds[k];
    }
  }

  predicate DistinctElements(olds: seq<Element>) {
    forall k, l :: 0 <= k < l < |olds| ==> olds[k].id != olds[l].id
  }

  lemma FirstIsNotKeptInRest(olds: seq<Element>, edit: Edit)
    requires edit.b <= edit.e && olds != [] && DistinctElements(olds)
    ensures olds[0].id !in KeptIds(olds[1..], edit) && DistinctElements(olds[1..])
  {
  }

  /** The id of `o` is given to an element of its name at the range it has to move to. */
  ghost predicate Reappears(o: Element, edit: Edit, news: seq<Element>, given: Assignment)
    requires edit.b <= edit.e && |given| == |news| && IsKept(o, edit)
  {
    var fate := FateOf(o, edit.b, edit.e, edit.size);
    GivenAt(news, given, o.id, fate.begin, fate.end, Some(o.name))
  }

  ghost predicate AllReappear(olds: seq<Element>, edit: Edit, news: seq<Element>, given: Assignment)
    requires edit.b <= edit.e && |given| == |news|
  {
    forall k :: 0 <= k < |olds| && IsKept(olds[k], edit) ==> Reappears(olds[k], edit, news, given)
  }

  lemma {:induction false} PreserveKeeps(news: seq<Element>, given: Assignment, olds: seq<Element>, edit: Edit)
    requires |given| == |news| && edit.b <= edit.e
    requires Preserve(news, given, olds, edit.b, edit.e, edit.size, edit.skip).Ok?
    requires Injective(given) && Values(given) !! KeptIds(olds, edit) && DistinctElements(olds)
    ensures var later := Preserve(news, given, olds, edit.b, edit.e, edit.size, edit.skip).value;
            && Injective(later) && Extends(given, later)
            && Values(later) == Values(given) + KeptIds(olds, edit)
            && AllReappear(olds, edit, news, later)
    decreases |olds|
  {
    hide Injective, Extends, Values, FindByRange, GivenAt, KeptIds, FateOf;
    if olds == [] {
      NothingKept(given, edit);
    } else {
      var o, fate := olds[0], FateOf(olds[0], edit.b, edit.e, edit.size);
      KeptIdsStep(olds, edit);
      FirstIsNotKeptInRest(olds, edit);
      var later := Preserve(news, given, olds, edit.b, edit.e, edit.size, edit.skip).value;
      if IsKept(o, edit) {
        var i := FindByRange(news, given, fate.begin, fate.end, Some(o.name));
        var given' := given[i := Some(o.id)];
        GiveOne(given, i, o.id);
        PreserveKeeps(news, given', olds[1..], edit);
        ExtendsIsTransitive(given, given', later);
        GivenAtStays(news, given', later, o.id, fate.begin, fate.end, Some(o.name));
      } else {
        PreserveKeeps(news, given, olds[1..], edit);
      }
      forall k | 0 < k < |olds| && IsKept(olds[k], edit) ensures Reappears(olds[k], edit, news, later) {
        assert olds[1..][k - 1] == olds[k];
      }
    }
  }

  lemma NothingKept(given: Assignment, edit: Edit)
    requires edit.b <= edit.e
    ensures Extends(given, given) && KeptIds([], edit) == {}
  {
  }

  /** Filling keeps what was given and adds fresh ids in order. */
  lemma {:induction false} FillFreshKeeps(given: Assignment, nextId: nat)
    requires FillFresh(given, nextId).Ok?
    ensures var (ids, next) := FillFresh(given, nextId).value;
            && nextId <= next
            && (forall i :: 0 <= i < |given| ==>
                  if given[i].Some? then ids[i] == given[i].value else nextId <= ids[i] < next)
            && (forall i, j :: 0 <= i < j < |given| && given[i].None? && given[j].None? ==> ids[i] < ids[j])
    decreases |given|
  {
    if given != [] {
      var nextId' := if given[0].None? then nextId + 1 else nextId;
      FillFreshKeeps(given[1..], nextId');
      var (ids, next) := FillFresh(given, nextId).value;
      var (rest, _) := FillFresh(given[1..], nextId').value;
      assert ids[1..] == rest;
      forall i | 0 < i < |given| ensures ids[i] == rest[i - 1] && given[i] == given[1..][i - 1] {}
    }
  }

  lemma FilledIdsOk(given: Assignment, nextId: nat)
    requires FillFresh(given, nextId).Ok? && Injective(given) && nextId >= 1
    requires forall v :: v in Values(given) ==> 0 < v < nextId
    ensures IdsOk(FillFresh(given, nextId).value.0, FillFresh(given, nextId).value.1)
  {
    FillFreshKeeps(given, nextId);
    forall i | 0 <= i < |given| && given[i].Some? ensures 0 < given[i].value < nextId {
      assert given[i].value in Values(given);
    }
  }

  lemma BindingsMissKept(edit: Edit, olds: seq<Element>, nextId: nat)
    requires BindingsSound(edit, olds, nextId) && IdsOk(IdsOf(olds), nextId)
    ensures BindingIds(edit.bindings) !! KeptIds(olds, edit)
  {
    var ids := IdsOf(olds);
    forall k, j | 0 <= k < |edit.bindings| && 0 <= j < |olds| && IsKept(olds[j], edit)
      ensures edit.bindings[k].id != olds[j].id
    {
      assert ids[j] == olds[j].id;
      if !edit.bindings[k].allocate {
        var o :| o in olds && o.id == edit.bindings[k].id && o.begin == edit.b && o.end == edit.e;
        var l :| 0 <= l < |olds| && olds[l] == o;
        assert ids[l] == o.id && l != j;
      }
    }
  }

  /** `id` stands, in the final ids, at exactly that range and name. */
  ghost predicate IdAt(news: seq<Element>, ids: seq<nat>, id: nat, begin: nat, end: nat, name: Option<string>)
    requires |ids| == |news|
  {
    exists i :: 0 <= i < |news| && ids[i] == id && Matches(news[i], begin, end, name)
  }

  /** What an edit does to identities. */
  ghost predicate Transferred(news: seq<Element>, olds: seq<Element>, edit: Edit, nextId: nat, ids: seq<nat>, next: nat)
    requires |ids| == |news| && edit.b <= edit.e
  {
    && IdsOk(ids, next) && nextId <= next
    // what was bound and what lies outside the edit is there again
    && (forall k :: 0 <= k < |edit.bindings| ==>
          IdAt(news, ids, edit.bindings[k].id, edit.bindings[k].begin, edit.bindings[k].end, None))
    && (forall k :: 0 <= k < |olds| && IsKept(olds[k], edit) ==>
          var fate := FateOf(olds[k], edit.b, edit.e, edit.size);
          IdAt(news, ids, olds[k].id, fate.begin, fate.end, Some(olds[k].name)))
    // and no other old id is
    && (forall i :: 0 <= i < |ids| && ids[i] < nextId ==>
          ids[i] in BindingIds(edit.bindings) + KeptIds(olds, edit))
  }

  /** Any successful transfer with sound bindings keeps ids different, non-zero and below the next
      one, keeps the bound elements and all elements outside the edit, and revives no other id. */
  lemma TransferIsSound(news: seq<Element>, olds: seq<Element>, edit: Edit, nextId: nat)
    requires BindingsSound(edit, olds, nextId) && IdsOk(IdsOf(olds), nextId)
    requires Transfer(news, olds, edit, nextId).Ok?
    ensures var (ids, next) := Transfer(news, olds, edit, nextId).value;
            Transferred(news, olds, edit, nextId, ids, next)
  {
    hide FindByRange, FateOf, GivenAt, BindAll, Preserve, FillFresh, KeptIds, BindingIds, Injective, Values, Extends, IdAt;
    var none: Assignment := seq(|news|, _ => None);
    var (bound, afterBound) := BindAll(news, none, edit.bindings, nextId).value;
    NothingGiven(|news|);
    BindingsMissKept(edit, olds, nextId);
    BindAllKeeps(news, none, edit.bindings, nextId);
    var given := Preserve(news, bound, olds, edit.b, edit.e, edit.size, edit.skip).value;
    PreserveKeeps(news, bound, olds, edit);
    var (ids, next) := FillFresh(given, afterBound).value;
    assert Values(given) == BindingIds(edit.bindings) + KeptIds(olds, edit);
    GivenIdsAreSmall(edit, olds, nextId, afterBound);
    FilledIdsOk(given, afterBound);
    FillFreshKeeps(given, afterBound);
    forall k | 0 <= k < |edit.bindings|
      ensures IdAt(news, ids, edit.bindings[k].id, edit.bindings[k].begin, edit.bindings[k].end, None)
    {
      var binding := edit.bindings[k];
      GivenAtStays(news, bound, given, binding.id, binding.begin, binding.end, None);
      FilledAt(news, given, afterBound, binding.id, binding.begin, binding.end, None);
    }
    forall k | 0 <= k < |olds| && IsKept(olds[k], edit)
      ensures var fate := FateOf(olds[k], edit.b, edit.e, edit.size);
              IdAt(news, ids, olds[k].id, fate.begin, fate.end, Some(olds[k].name))
    {
      var fate := FateOf(olds[k], edit.b, edit.e, edit.size);
      assert Reappears(olds[k], edit, news, given);
      FilledAt(news, given, afterBound, olds[k].id, fate.begin, fate.end, Some(olds[k].name));
    }
    forall i | 0 <= i < |ids| && ids[i] < nextId ensures ids[i] in Values(given) {
      GivenIsValue(given, i);
    }
  }

  lemma NothingGiven(n: nat)
    ensures var none: Assignment := seq(n, _ => None);
            Injective(none) && Values(none) == {}
  {
  }

  lemma GivenIsValue(given: Assignment, i: nat)
    requires i < |given|
    ensures given[i].Some? ==> given[i].value in Values(given)
  {
  }

  lemma GivenIdsAreSmall(edit: Edit, olds: seq<Element>, nextId: nat, next: nat)
    requires BindingsSound(edit, olds, nextId) && IdsOk(IdsOf(olds), nextId) && nextId <= next
    requires forall k :: 0 <= k < |edit.bindings| && edit.bindings[k].allocate ==> nextId <= edit.bindings[k].id < next
    ensures forall v :: v in BindingIds(edit.bindings) + KeptIds(olds, edit) ==> 0 < v < next
  {
    hide FateOf;
    var ids := IdsOf(olds);
    assert forall k :: 0 <= k < |olds| ==> olds[k].id == ids[k];
  }

  lemma FilledAt(news: seq<Element>, given: Assignment, nextId: nat, id: nat, begin: nat, end: nat, name: Option<string>)
    requires |given| == |news| && FillFresh(given, nextId).Ok? && GivenAt(news, given, id, begin, end, name)
    ensures IdAt(news, FillFresh(given, nextId).value.0, id, begin, end, name)
  {
    FillFreshKeeps(given, nextId);
    var i :| 0 <= i < |news| && given[i] == Some(id) && Matches(news[i], begin, end, name);
    assert FillFresh(given, nextId).value.0[i] == id;
  }

  /** A transfer that did not fail met no old element crossing the edit. */
  lemma {:induction false} PreserveMeetsNoCrossing(news: seq<Element>, given: Assignment, olds: seq<Element>, edit: Edit)
    requires |given| == |news| && edit.b <= edit.e
    requires Preserve(news, given, olds, edit.b, edit.e, edit.size, edit.skip).Ok?
    ensures forall k :: 0 <= k < |olds| && edit.skip != Some(olds[k].id) ==>
              !FateOf(olds[k], edit.b, edit.e, edit.size).Crossing?
    decreases |olds|
  {
    hide FateOf, FindByRange;
    if olds != [] {
      var fate := FateOf(olds[0], edit.b, edit.e, edit.size);
      var i := if fate.Moved? then FindByRange(news, given, fate.begin, fate.end, Some(olds[0].name)) else 0;
      PreserveMeetsNoCrossing(news, if IsKept(olds[0], edit) then given[i := Some(olds[0].id)] else given, olds[1..], edit);
      forall k | 0 < k < |olds| ensures olds[k] == olds[1..][k - 1] {}
    }
  }

  /** If no old element crosses the edit, no transfer fails for that reason. */
  lemma {:induction false} PreserveNeverCrosses(news: seq<Element>, given: Assignment, olds: seq<Element>, edit: Edit)
    requires |given| == |news| && edit.b <= edit.e
    requires forall o :: o in olds ==> !FateOf(o, edit.b, edit.e, edit.size).Crossing?
    ensures Preserve(news, given, olds, edit.b, edit.e, edit.size, edit.skip) != Err(CrossesRange)
    decreases |olds|
  {
    hide FateOf, FindByRange;
    if olds != [] {
      var fate := FateOf(olds[0], edit.b, edit.e, edit.size);
      var i := if fate.Moved? then FindByRange(news, given, fate.begin, fate.end, Some(olds[0].name)) else 0;
      PreserveNeverCrosses(news, given, olds[1..], edit);
      if i < |news| { PreserveNeverCrosses(news, given[i := Some(olds[0].id)], olds[1..], edit); }
    }
  }

  /** What kept elements move by: everything outside [b, e) and everything around it, and nothing else. */
  lemma FateIsMovedOutside(o: Element, b: nat, e: nat, size: nat)
    requires b <= e
    ensures FateOf(o, b, e, size).Dropped? <==> b <= o.begin && o.end <= e
    ensures FateOf(o, b, e, size).Moved? <==>
              o.end <= b || o.begin >= e || (o.begin < b && e < o.end)
  {
  }

  lemma FillFreshErrors(given: Assignment, nextId: nat)
    ensures FillFresh(given, nextId).Err? ==> FillFresh(given, nextId).error == IdSpaceExhausted
    decreases |given|
  {
  }

  lemma {:induction false} BindAllIsConsistent(news: seq<Element>, given: Assignment, bindings: seq<Binding>, nextId: nat)
    requires |given| == |news| && DistinctBindings(bindings)
    requires forall k :: 0 <= k < |bindings| && bindings[k].allocate ==> bindings[k].id == nextId
    ensures BindAll(news, given, bindings, nextId).Err? ==>
              BindAll(news, given, bindings, nextId).error in {BindingNotFound, IdSpaceExhausted}
    decreases |bindings|
  {
    hide FindByRange;
    if bindings != [] {
      var i := FindByRange(news, given, bindings[0].begin, bindings[0].end, None);
      assert forall k :: 0 < k < |bindings| ==> bindings[k] == bindings[1..][k - 1];
      if i < |news| {
        BindAllIsConsistent(news, given[i := Some(bindings[0].id)], bindings[1..],
                            if bindings[0].allocate then nextId + 1 else nextId);
      }
    }
  }

  lemma PreserveErrors(news: seq<Element>, given: Assignment, olds: seq<Element>, edit: Edit)
    requires |given| == |news| && edit.b <= edit.e
    ensures var r := Preserve(news, given, olds, edit.b, edit.e, edit.size, edit.skip);
            r.Err? ==> r.error in {CrossesRange, IdentityLost}
    decreases |olds|
  {
    hide FateOf, FindByRange;
  }

  /** With sound bindings a transfer fails only because the new parse lacks an element, an old element
      crosses the edit, or the ids run out. */
  lemma TransferErrors(news: seq<Element>, olds: seq<Element>, edit: Edit, nextId: nat)
    requires BindingsSound(edit, olds, nextId)
    ensures Transfer(news, olds, edit, nextId).Err? ==>
              Transfer(news, olds, edit, nextId).error in {BindingNotFound, IdSpaceExhausted, CrossesRange, IdentityLost}
  {
    hide BindAll, Preserve, FillFresh;
    var none: Assignment := seq(|news|, _ => None);
    BindAllIsConsistent(news, none, edit.bindings, nextId);
    if BindAll(news, none, edit.bindings, nextId).Ok? {
      var (bound, next) := BindAll(news, none, edit.bindings, nextId).value;
      PreserveErrors(news, bound, olds, edit);
      var given := Preserve(news, bound, olds, edit.b, edit.e, edit.size, edit.skip);
      if given.Ok? { FillFreshErrors(given.value, next); }
    }
  }

  lemma TransferNeverCrosses(news: seq<Element>, olds: seq<Element>, edit: Edit, nextId: nat)
    requires BindingsSound(edit, olds, nextId)
    requires forall o :: o in olds ==> !FateOf(o, edit.b, edit.e, edit.size).Crossing?
    ensures Transfer(news, olds, edit, nextId) != Err(CrossesRange)
  {
    hide BindAll, Preserve, FillFresh;
    var none: Assignment := seq(|news|, _ => None);
    BindAllIsConsistent(news, none, edit.bindings, nextId);
    if BindAll(news, none, edit.bindings, nextId).Ok? {
      var (bound, next) := BindAll(news, none, edit.bindings, nextId).value;
      PreserveNeverCrosses(news, bound, olds, edit);
      var given := Preserve(news, bound, olds, edit.b, edit.e, edit.size, edit.skip);
      if given.Ok? { FillFreshErrors(given.value, next); }
    }
  }
}
