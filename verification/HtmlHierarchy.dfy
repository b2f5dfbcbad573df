/** Parent links, child lists and depths of HTML blocks, from their source ranges alone. The ranges may
    cross. */
module HtmlHierarchy {
  import opened Wrappers

  datatype RawBlock = RawBlock(
    id: nat,
    parentId: Option<nat>,
    childIds: seq<nat>,
    depth: nat,
    sourceIndex: nat,
    tagName: string,
    html: string,
    rawBegin: nat,
    valueBegin: nat,
    valueEnd: nat,
    rawEnd: nat)

  /** The block tracker only reports non-empty ranges. */
  type Block = b: RawBlock | b.rawBegin < b.rawEnd
    witness RawBlock(1, None, [], 0, 0, "", "", 0, 0, 0, 1)

  function Span(b: Block): nat { b.rawEnd - b.rawBegin }

  predicate StrictlyContains(outer: Block, inner: Block) {
    && outer.rawBegin <= inner.rawBegin && inner.rawEnd <= outer.rawEnd
    && (outer.rawBegin != inner.rawBegin || outer.rawEnd != inner.rawEnd)
  }

  /** The candidate starts later, or starts there and ends earlier. */
  predicate IsCloser(candidate: Block, current: Block) {
    candidate.rawBegin > current.rawBegin
    || (candidate.rawBegin == current.rawBegin && candidate.rawEnd < current.rawEnd)
  }

  // ---------------------------------------------------------------- parents

  /** The parent index of block `i` after looking at the first `k` candidates. */
  function ParentAmong(bs: seq<Block>, i: nat, k: nat): (p: Option<nat>)
    requires i < |bs| && k <= |bs|
    ensures p.Some? ==> p.value < k && StrictlyContains(bs[p.value], bs[i])
    ensures p.Some? ==> forall j :: 0 <= j < k && StrictlyContains(bs[j], bs[i]) ==> !IsCloser(bs[j], bs[p.value])
    ensures p.None? ==> forall j :: 0 <= j < k ==> !StrictlyContains(bs[j], bs[i])
  {
    if k == 0 then None
    else
      var p := ParentAmong(bs, i, k - 1);
      if k - 1 == i || !StrictlyContains(bs[k - 1], bs[i]) then p
      else if p.None? || IsCloser(bs[k - 1], bs[p.value]) then Some(k - 1)
      else p
  }

  function ParentOf(bs: seq<Block>, i: nat): (p: Option<nat>)
    requires i < |bs|
    ensures p.Some? ==> p.value < |bs| && StrictlyContains(bs[p.value], bs[i])
  {
    ParentAmong(bs, i, |bs|)
  }

  /** The range of `outer` holds that of `inner` and is longer. */
  predicate IsWider(outer: Block, inner: Block) {
    outer.rawBegin <= inner.rawBegin && inner.rawEnd <= outer.rawEnd && Span(inner) < Span(outer)
  }

  /** A block has a parent exactly if a range is wider; the parent is the one of these that begins last, the shortest of
      those that begin there, and the first of those. */
  lemma ParentIsLastContainer(bs: seq<Block>, i: nat)
    requires i < |bs|
    ensures ParentOf(bs, i).None? <==> forall j :: 0 <= j < |bs| ==> !IsWider(bs[j], bs[i])
    ensures ParentOf(bs, i).Some? ==>
              var p := ParentOf(bs, i).value;
              && p < |bs| && IsWider(bs[p], bs[i])
              && forall j :: 0 <= j < |bs| && IsWider(bs[j], bs[i]) ==>
                   || bs[j].rawBegin < bs[p].rawBegin
                   || (bs[j].rawBegin == bs[p].rawBegin && Span(bs[p]) < Span(bs[j]))
                   || (bs[j].rawBegin == bs[p].rawBegin && Span(bs[p]) == Span(bs[j]) && p <= j)
  {
    LastAmong(bs, i, |bs|);
  }

  lemma {:induction false} LastAmong(bs: seq<Block>, i: nat, k: nat)
    requires i < |bs| && k <= |bs|
    ensures forall j :: 0 <= j < |bs| ==> (IsWider(bs[j], bs[i]) <==> StrictlyContains(bs[j], bs[i]))
    ensures ParentAmong(bs, i, k).Some? ==>
              var p := ParentAmong(bs, i, k).value;
              forall j :: 0 <= j < p && StrictlyContains(bs[j], bs[i]) ==> IsCloser(bs[p], bs[j])
  {
    if k > 0 { LastAmong(bs, i, k - 1); }
  }

  /** So it is a minimal one: no other range lies between. */
  lemma ParentIsMinimalContainer(bs: seq<Block>, i: nat)
    requires i < |bs|
    ensures ParentOf(bs, i).None? <==> forall j :: 0 <= j < |bs| ==> !IsWider(bs[j], bs[i])
    ensures ParentOf(bs, i).Some? ==>
              var p := ParentOf(bs, i).value;
              && p < |bs| && IsWider(bs[p], bs[i])
              && forall j :: 0 <= j < |bs| ==> !(IsWider(bs[j], bs[i]) && IsWider(bs[p], bs[j]))
  {
    hide ParentOf;
    ParentIsLastContainer(bs, i);
  }

  function MaxEnd(bs: seq<Block>): (m: nat)
    ensures forall i :: 0 <= i < |bs| ==> bs[i].rawEnd <= m
  {
    if bs == [] then 0 else Max(bs[0].rawEnd, MaxEnd(bs[1..]))
  }

  /** resolveDepth. Parents span strictly more, so the recursion ends. */
  function Depth(bs: seq<Block>, i: nat): nat
    requires i < |bs|
    decreases MaxEnd(bs) - Span(bs[i])
  {
    match ParentOf(bs, i) case None => 0 case Some(p) => Depth(bs, p) + 1
  }

  /** Following `n` parent links up from block `i`. */
  function Up(bs: seq<Block>, i: nat, n: nat): (r: Option<nat>)
    requires i < |bs|
    ensures r.Some? ==> r.value < |bs|
    decreases n
  {
    if n == 0 then Some(i)
    else match ParentOf(bs, i) case None => None case Some(p) => Up(bs, p, n - 1)
  }

  /** No block is its own ancestor: every step up spans strictly more. */
  lemma {:induction false} ParentsAreAcyclic(bs: seq<Block>, i: nat, n: nat)
    requires i < |bs| && n > 0 && Up(bs, i, n).Some?
    ensures Span(bs[Up(bs, i, n).value]) > Span(bs[i]) && Up(bs, i, n).value != i
    decreases n
  {
    var p := ParentOf(bs, i).value;
    if n > 1 { ParentsAreAcyclic(bs, p, n - 1); }
  }

  /** The depth is the number of parent links up to a block that has none. */
  lemma {:induction false} DepthIsChainLength(bs: seq<Block>, i: nat)
    requires i < |bs|
    ensures Up(bs, i, Depth(bs, i)).Some? && ParentOf(bs, Up(bs, i, Depth(bs, i)).value).None?
    ensures Up(bs, i, Depth(bs, i) + 1).None?
    decreases MaxEnd(bs) - Span(bs[i])
  {
    if ParentOf(bs, i).Some? { DepthIsChainLength(bs, ParentOf(bs, i).value); }
  }

  // ---------------------------------------------------------------- the whole hierarchy

  /** The indexes below `k`, in order, of the blocks whose parent is block `i`. */
  function ChildIndexes(bs: seq<Block>, i: nat, k: nat): (js: seq<nat>)
    requires i < |bs| && k <= |bs|
    ensures forall a :: 0 <= a < |js| ==> js[a] < k && ParentOf(bs, js[a]) == Some(i)
    ensures forall j: nat {:trigger j in js} :: j < k && ParentOf(bs, j) == Some(i) ==> j in js
    ensures forall a, b :: 0 <= a < b < |js| ==> js[a] < js[b]
  {
    if k == 0 then []
    else ChildIndexes(bs, i, k - 1) + (if ParentOf(bs, k - 1) == Some(i) then [k - 1] else [])
  }

  /** The indexes below `k`, in order, of the blocks without a parent. */
  function RootIndexes(bs: seq<Block>, k: nat): (js: seq<nat>)
    requires k <= |bs|
    ensures forall a :: 0 <= a < |js| ==> js[a] < k && ParentOf(bs, js[a]).None?
    ensures forall j: nat {:trigger j in js} :: j < k && ParentOf(bs, j).None? ==> j in js
    ensures forall a, b :: 0 <= a < b < |js| ==> js[a] < js[b]
  {
    if k == 0 then []
    else RootIndexes(bs, k - 1) + (if ParentOf(bs, k - 1).None? then [k - 1] else [])
  }

  function IdsAt(bs: seq<Block>, js: seq<nat>): (ids: seq<nat>)
    requires forall a :: 0 <= a < |js| ==> js[a] < |bs|
    ensures |ids| == |js| && forall a :: 0 <= a < |js| ==> ids[a] == bs[js[a]].id
  {
    seq(|js|, a requires 0 <= a < |js| => bs[js[a]].id)
  }

  /** Block `i` when the linking loop has passed the first `k` blocks. */
  function LinkedUpTo(bs: seq<Block>, i: nat, k: nat): Block
    requires i < |bs| && k <= |bs|
  {
    var parent := ParentOf(bs, i);
    bs[i].(parentId := if i < k && parent.Some? then Some(bs[parent.value].id) else None,
           depth := if i < k then Depth(bs, i) else 0,
           childIds := IdsAt(bs, ChildIndexes(bs, i, k)))
  }

  function Hierarchy(bs: seq<Block>): (out: seq<Block>)
    ensures |out| == |bs| && forall i :: 0 <= i < |bs| ==> out[i] == LinkedUpTo(bs, i, |bs|)
  {
    seq(|bs|, i requires 0 <= i < |bs| => LinkedUpTo(bs, i, |bs|))
  }

  function Roots(bs: seq<Block>): seq<nat> { IdsAt(bs, RootIndexes(bs, |bs|)) }

  ghost predicate DistinctIds(bs: seq<Block>) { forall i, j :: 0 <= i < j < |bs| ==> bs[i].id != bs[j].id }

  lemma ListedAre(bs: seq<Block>, i: nat, j: nat)
    requires i < |bs| && j < |bs|
    ensures j in RootIndexes(bs, |bs|) <==> ParentOf(bs, j).None?
    ensures j in ChildIndexes(bs, i, |bs|) <==> ParentOf(bs, j) == Some(i)
  {
    hide ParentOf, RootIndexes, ChildIndexes;
  }

  lemma IdIsListed(bs: seq<Block>, js: seq<nat>, j: nat)
    requires DistinctIds(bs) && j < |bs| && forall a :: 0 <= a < |js| ==> js[a] < |bs|
    ensures bs[j].id in IdsAt(bs, js) <==> j in js
  {
    hide IdsAt;
    var ids := IdsAt(bs, js);
    if bs[j].id in ids {
      var a :| 0 <= a < |ids| && ids[a] == bs[j].id;
      assert js[a] == j;
    }
    if j in js {
      var a :| 0 <= a < |js| && js[a] == j;
      assert ids[a] == bs[j].id;
    }
  }

  /** Child lists and parent ids say the same thing; the roots are the blocks without a parent id, which
      are those than which no range is wider. Child and root lists are in source order. */
  lemma ChildListsAgreeWithParents(bs: seq<Block>, i: nat, j: nat)
    requires DistinctIds(bs) && i < |bs| && j < |bs|
    ensures var out := Hierarchy(bs);
            && (out[j].id in out[i].childIds <==> out[j].parentId == Some(out[i].id))
            && (out[j].id in Roots(bs) <==> out[j].parentId == None)
            && (out[j].parentId == None <==> forall k :: 0 <= k < |bs| ==> !IsWider(bs[k], bs[j]))
  {
    hide ParentOf, Depth, IsWider, StrictlyContains, RootIndexes, ChildIndexes, IdsAt;
    ParentIsMinimalContainer(bs, j);
    ListedAre(bs, i, j);
    IdIsListed(bs, RootIndexes(bs, |bs|), j);
    IdIsListed(bs, ChildIndexes(bs, i, |bs|), j);
  }

  /** Position in a child list is position in the source. */
  lemma ChildListsAreInSourceOrder(bs: seq<Block>, i: nat)
    requires i < |bs|
    ensures exists js: seq<nat> ::
              && (forall a, b :: 0 <= a < b < |js| ==> js[a] < js[b])
              && (forall a :: 0 <= a < |js| ==> js[a] < |bs|)
              && Hierarchy(bs)[i].childIds == IdsAt(bs, js)
  {
    var js := ChildIndexes(bs, i, |bs|);
    assert Hierarchy(bs)[i].childIds == IdsAt(bs, js);
  }

  // ---------------------------------------------------------------- rebuilding changes nothing twice

  /** The same ids at the same ranges. */
  ghost predicate SamePlaces(bs: seq<Block>, cs: seq<Block>) {
    |bs| == |cs| && forall i :: 0 <= i < |bs| ==>
      bs[i].id == cs[i].id && bs[i].rawBegin == cs[i].rawBegin && bs[i].rawEnd == cs[i].rawEnd
  }

  lemma {:induction false} SameParents(bs: seq<Block>, cs: seq<Block>, i: nat, k: nat)
    requires SamePlaces(bs, cs) && i < |bs| && k <= |bs|
    ensures ParentAmong(bs, i, k) == ParentAmong(cs, i, k)
  {
    if k > 0 { SameParents(bs, cs, i, k - 1); }
  }

  lemma SameParentOf(bs: seq<Block>, cs: seq<Block>, i: nat)
    requires SamePlaces(bs, cs) && i < |bs|
    ensures ParentOf(bs, i) == ParentOf(cs, i)
  {
    hide ParentAmong, StrictlyContains;
    SameParents(bs, cs, i, |bs|);
  }

  lemma {:induction false} SameDepth(bs: seq<Block>, cs: seq<Block>, i: nat)
    requires SamePlaces(bs, cs) && i < |bs|
    ensures Depth(bs, i) == Depth(cs, i)
    decreases MaxEnd(bs) - Span(bs[i])
  {
    SameParentOf(bs, cs, i);
    if ParentOf(bs, i).Some? { SameDepth(bs, cs, ParentOf(bs, i).value); }
  }

  lemma {:induction false} SameIndexes(bs: seq<Block>, cs: seq<Block>, i: nat, k: nat)
    requires SamePlaces(bs, cs) && i < |bs| && k <= |bs|
    ensures ChildIndexes(bs, i, k) == ChildIndexes(cs, i, k)
  {
    hide ParentOf, StrictlyContains;
    if k > 0 {
      SameParentOf(bs, cs, k - 1);
      SameIndexes(bs, cs, i, k - 1);
    }
  }

  lemma {:induction false} SameRoots(bs: seq<Block>, cs: seq<Block>, k: nat)
    requires SamePlaces(bs, cs) && k <= |bs|
    ensures RootIndexes(bs, k) == RootIndexes(cs, k)
  {
    hide ParentOf, StrictlyContains;
    if k > 0 {
      SameParentOf(bs, cs, k - 1);
      SameRoots(bs, cs, k - 1);
    }
  }

  /** The links depend on ids and ranges only, so rebuilding a rebuilt hierarchy changes nothing. */
  lemma RebuildIsIdempotent(bs: seq<Block>)
    ensures Hierarchy(Hierarchy(bs)) == Hierarchy(bs) && Roots(Hierarchy(bs)) == Roots(bs)
  {
    hide Depth, ParentOf, ChildIndexes, RootIndexes, IdsAt;
    var cs := Hierarchy(bs);
    assert SamePlaces(bs, cs);
    forall i | 0 <= i < |bs| ensures Hierarchy(cs)[i] == cs[i] {
      SameParentOf(bs, cs, i);
      SameDepth(bs, cs, i);
      SameIndexes(bs, cs, i, |bs|);
    }
    SameRoots(bs, cs, |bs|);
  }

  // ---------------------------------------------------------------- rebuildHierarchy

  /** The double loop that picks every block's parent. */
  method FindParents(blocks: array<Block>) returns (parentIndexes: array<Option<nat>>)
    ensures fresh(parentIndexes) && parentIndexes.Length == blocks.Length
    ensures forall i :: 0 <= i < blocks.Length ==> parentIndexes[i] == ParentOf(blocks[..], i)
  {
    ghost var bs := blocks[..];
    var n := blocks.Length;
    parentIndexes := new Option<nat>[n](_ => None);
    for childIndex := 0 to n
      invariant forall i :: 0 <= i < childIndex ==> parentIndexes[i] == ParentOf(bs, i)
      invariant forall i :: childIndex <= i < n ==> parentIndexes[i] == None
    {
      for candidateIndex := 0 to n
        invariant forall i :: 0 <= i < childIndex ==> parentIndexes[i] == ParentOf(bs, i)
        invariant forall i :: childIndex < i < n ==> parentIndexes[i] == None
        invariant parentIndexes[childIndex] == ParentAmong(bs, childIndex, candidateIndex)
      {
        if candidateIndex == childIndex || !StrictlyContains(blocks[candidateIndex], blocks[childIndex]) {
          continue;
        }
        var currentParent := parentIndexes[childIndex];
        if currentParent.None? || IsCloser(blocks[candidateIndex], blocks[currentParent.value]) {
          parentIndexes[childIndex] := Some(candidateIndex);
        }
      }
    }
  }

  /** Every depth already filled in is right. */
  ghost predicate DepthsRight(bs: seq<Block>, depths: seq<Option<nat>>) {
    |depths| == |bs| && forall i :: 0 <= i < |bs| && depths[i].Some? ==> depths[i].value == Depth(bs, i)
  }

  /** The memoised recursion of resolveDepth. */
  method ResolveDepth(ghost bs: seq<Block>, parentIndexes: array<Option<nat>>, depths: array<Option<nat>>, index: nat)
    returns (depth: nat)
    requires index < |bs| == parentIndexes.Length && parentIndexes != depths
    requires forall i :: 0 <= i < |bs| ==> parentIndexes[i] == ParentOf(bs, i)
    requires DepthsRight(bs, depths[..])
    modifies depths
    ensures depth == Depth(bs, index) && DepthsRight(bs, depths[..])
    decreases MaxEnd(bs) - Span(bs[index])
  {
    if depths[index].Some? { return depths[index].value; }
    depth := 0;
    if parentIndexes[index].Some? {
      var parentDepth := ResolveDepth(bs, parentIndexes, depths, parentIndexes[index].value);
      depth := parentDepth + 1;
    }
    depths[index] := Some(depth);
  }

  lemma LinkStep(bs: seq<Block>, j: nat, k: nat)
    requires j < |bs| && k < |bs|
    ensures LinkedUpTo(bs, j, k).id == bs[j].id && (j >= k ==> LinkedUpTo(bs, j, k).parentId == None)
    ensures var b, parent := LinkedUpTo(bs, j, k), ParentOf(bs, k);
            LinkedUpTo(bs, j, k + 1)
            == (if j == k then
                  b.(parentId := if parent.Some? then Some(bs[parent.value].id) else None, depth := Depth(bs, k))
                else if parent == Some(j) then b.(childIds := b.childIds + [bs[k].id])
                else b)
  {
    hide Depth, ParentAmong;
    var js := ChildIndexes(bs, j, k);
    assert IdsAt(bs, js + [k]) == IdsAt(bs, js) + [bs[k].id];
    assert js + [] == js;
  }

  lemma LinkStart(bs: seq<Block>, j: nat)
    requires j < |bs|
    ensures LinkedUpTo(bs, j, 0) == bs[j].(parentId := None, childIds := [], depth := 0)
  {
  }

  lemma RootStep(bs: seq<Block>, k: nat)
    requires k < |bs|
    ensures IdsAt(bs, RootIndexes(bs, k + 1))
         == IdsAt(bs, RootIndexes(bs, k)) + (if ParentOf(bs, k).None? then [bs[k].id] else [])
  {
    hide ParentOf;
    if ParentOf(bs, k).None? {
      assert IdsAt(bs, RootIndexes(bs, k) + [k]) == IdsAt(bs, RootIndexes(bs, k)) + [bs[k].id];
    }
  }

  /** One turn of the linking loop: block `k` and its parent. */
  method LinkOne(ghost bs: seq<Block>, parent: Option<nat>, depth: nat, k: nat, blocks: array<Block>)
    requires k < |bs| == blocks.Length && parent == ParentOf(bs, k) && depth == Depth(bs, k)
    requires forall j :: 0 <= j < |bs| ==> blocks[j] == LinkedUpTo(bs, j, k)
    modifies blocks
    ensures forall j :: 0 <= j < |bs| ==> blocks[j] == LinkedUpTo(bs, j, k + 1)
  {
    hide ParentOf, Depth, LinkedUpTo;
    forall j | 0 <= j < |bs| { LinkStep(bs, j, k); }
    blocks[k] := blocks[k].(depth := depth);
    if parent.Some? {
      var p := parent.value;
      blocks[k] := blocks[k].(parentId := Some(blocks[p].id));
      blocks[p] := blocks[p].(childIds := blocks[p].childIds + [blocks[k].id]);
    }
  }

  /** rebuildHierarchy, writing the links into the blocks in place. */
  method RebuildHierarchy(blocks: array<Block>) returns (roots: seq<nat>)
    modifies blocks
    ensures blocks[..] == Hierarchy(old(blocks[..]))
    ensures roots == Roots(old(blocks[..]))
  {
    hide ParentOf, Depth, LinkedUpTo, RootIndexes, IdsAt;
    ghost var bs := blocks[..];
    var n := blocks.Length;
    var parentIndexes := FindParents(blocks);
    for i := 0 to n
      invariant forall j :: i <= j < n ==> blocks[j] == bs[j]
      invariant forall j :: 0 <= j < i ==> blocks[j] == LinkedUpTo(bs, j, 0)
      invariant forall j :: 0 <= j < n ==> parentIndexes[j] == ParentOf(bs, j)
    {
      LinkStart(bs, i);
      blocks[i] := blocks[i].(parentId := None, childIds := [], depth := 0);
    }
    var depths := new Option<nat>[n](_ => None);
    roots := [];
    NoRootsYet(bs);
    for k := 0 to n
      invariant forall j :: 0 <= j < n ==> parentIndexes[j] == ParentOf(bs, j)
      invariant roots == IdsAt(bs, RootIndexes(bs, k))
      invariant forall j :: 0 <= j < n ==> blocks[j] == LinkedUpTo(bs, j, k)
      invariant DepthsRight(bs, depths[..])
    {
      RootStep(bs, k);
      LinkStep(bs, k, k);
      if parentIndexes[k].None? { roots := roots + [blocks[k].id]; }
      var depth := ResolveDepth(bs, parentIndexes, depths, k);
      LinkOne(bs, parentIndexes[k], depth, k, blocks);
    }
  }

  lemma NoRootsYet(bs: seq<Block>)
    ensures IdsAt(bs, RootIndexes(bs, 0)) == []
  {
  }
}
