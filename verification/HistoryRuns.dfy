/** What holds of every history that a run of `record` calls reaches, and what the checker guarantees. */
module HistoryRuns {
  import opened Wrappers
  import opened Decimal
  import opened TextDiff
  import opened Canonical
  import opened History

  // ---------------------------------------------------------------- what a passed check means

  /** Every retained version finds its snapshot and its diff. */
  predicate Resolves(st: State) {
    forall v :: v in st.versions ==> v.snapshotObjectId in st.snapshots && v.diffObjectId in st.diffs
  }

  lemma VerifiedResolves(h: Hash, st: State)
    requires Verified(h, st)
    ensures Resolves(st)
  {
    forall v | v in st.versions ensures v.snapshotObjectId in st.snapshots && v.diffObjectId in st.diffs {
      var i :| 0 <= i < |st.versions| && st.versions[i] == v;
      assert VersionChecks(h, st, i);
    }
  }

  /** Rebuilding version `i` by applying the stored diffs one after the other, from the empty
      snapshot or, in a pruned history, from the first retained snapshot. */
  function Replay(h: Hash, st: State, i: nat): Option<Snapshot>
    requires i < |st.versions| && Resolves(st)
  {
    var v := st.versions[i];
    if i == 0 && st.prunedVersionCount != 0 then Some(st.snapshots[v.snapshotObjectId])
    else
      match (if i == 0 then Some(EmptySnapshot(h)) else Replay(h, st, i - 1))
      case None => None
      case Some(base) => ApplyDiff(h, st.diffs[v.diffObjectId], base)
  }

  lemma CheckedDiffApplies(h: Hash, d: Diff, base: Snapshot, target: Snapshot)
    requires DiffLeadsTo(d, base, target) && d.targetSnapshotObjectId == target.objectId
    requires SnapshotMatchesId(h, base) && SnapshotMatchesId(h, target)
    ensures ApplyDiff(h, d, base) == Some(target)
  {
    hide CanonicalHeader, ParseCanonicalHeader;
    HeaderRoundTrip(target.headerMetadata);
  }

  /** One step of replaying a checked history: the stored diff takes the base that the checker used to the
      stored snapshot. */
  lemma CheckedStepApplies(h: Hash, st: State, i: nat)
    requires Verified(h, st) && i < |st.versions| && (i > 0 || st.prunedVersionCount == 0)
    ensures Resolves(st)
    ensures var v := st.versions[i];
            var base := if i == 0 then EmptySnapshot(h) else st.snapshots[st.versions[i - 1].snapshotObjectId];
            ApplyDiff(h, st.diffs[v.diffObjectId], base) == Some(st.snapshots[v.snapshotObjectId])
  {
    hide HashObject, CanonicalHeader, CanonicalVersion, CanonicalDiff, DiffLeadsTo, SnapshotMatchesId, ApplyDiff,
         EmptySnapshot, MakeSnapshot;
    VerifiedResolves(h, st);
    var v := st.versions[i];
    assert VersionChecks(h, st, i) && SnapshotChecks(h, st, v.snapshotObjectId);
    if i == 0 {
      EmptyMatches(h);
      CheckedDiffApplies(h, st.diffs[v.diffObjectId], EmptySnapshot(h), st.snapshots[v.snapshotObjectId]);
    } else {
      var base := st.snapshots[st.versions[i - 1].snapshotObjectId];
      assert SnapshotChecks(h, st, st.versions[i - 1].snapshotObjectId);
      CheckedDiffApplies(h, st.diffs[v.diffObjectId], base, st.snapshots[v.snapshotObjectId]);
    }
  }

  /** If the checker passes, replaying never fails and rebuilds every stored version exactly. */
  lemma {:induction false} VerifiedReplays(h: Hash, st: State, i: nat)
    requires Verified(h, st) && i < |st.versions|
    ensures Resolves(st)
    ensures Replay(h, st, i) == Some(st.snapshots[st.versions[i].snapshotObjectId])
  {
    hide Verified, ApplyDiff, EmptySnapshot;
    VerifiedResolves(h, st);
    if i > 0 {
      VerifiedReplays(h, st, i - 1);
      CheckedStepApplies(h, st, i);
    } else if st.prunedVersionCount == 0 {
      CheckedStepApplies(h, st, i);
    }
  }

  lemma EmptyMatches(h: Hash)
    ensures SnapshotMatchesId(h, EmptySnapshot(h))
  {
  }

  // ---------------------------------------------------------------- runs

  datatype Content = Content(metadata: Metadata, html: string)

  const NOTHING := Content(map[], "")

  /** A run so far: the state, every version ever issued with its content, and every framed payload
      that was hashed. */
  datatype Trace = Trace(state: State, issued: seq<Version>, contents: seq<Content>, hashed: set<string>)

  /** SHA-256 object ids are 64 hexadecimal digits. */
  ghost predicate HasObjectIdLength(h: Hash) { forall s: string :: |h(s)| == 64 }

  ghost predicate CollisionFree(h: Hash, hashed: set<string>) {
    forall a, b :: a in hashed && b in hashed && h(a) == h(b) ==> a == b
  }

  function Snap(h: Hash, c: Content): Snapshot { MakeSnapshot(h, c.metadata, c.html) }

  /** The content that content `i` was diffed against. */
  function BaseContent(contents: seq<Content>, i: nat): Content
    requires i <= |contents|
  {
    if i == 0 then NOTHING else contents[i - 1]
  }

  function IssuedDiff(h: Hash, base: Content, c: Content): Diff { MakeDiff(h, Snap(h, base), Snap(h, c)) }

  function SnapshotFrames(h: Hash, c: Content): set<string> {
    {Frame("blob", CanonicalHeader(c.metadata)), Frame("blob", c.html),
     Frame("tree", CanonicalTree(Snap(h, c).headerObjectId, Snap(h, c).bodyObjectId))}
  }

  /** All that one call hashes: the base's and the target's objects, the diff and the commit. */
  function CallFrames(h: Hash, base: Content, c: Content, v: Version): set<string> {
    SnapshotFrames(h, base) + SnapshotFrames(h, c)
    + {Frame("diff", CanonicalDiff(IssuedDiff(h, base, c))), Frame("commit", CanonicalVersion(v))}
  }

  function Step(h: Hash, t: Trace, e: Entry): Trace
    requires |t.contents| == |t.issued|
  {
    match Recorded(h, t.state, e)
    case Err(_) => t
    case Ok((state, v)) =>
      var c := Content(e.metadata, e.html);
      Trace(state, t.issued + [v], t.contents + [c],
            t.hashed + CallFrames(h, BaseContent(t.contents, |t.contents|), c, v))
  }

  function Run(h: Hash, entries: seq<Entry>): (t: Trace)
    ensures |t.contents| == |t.issued|
  {
    if entries == [] then Trace(EMPTY_STATE, [], [], {})
    else Step(h, Run(h, entries[..|entries| - 1]), entries[|entries| - 1])
  }

  /** The contents of one call fit a std::string. */
  predicate Storable(c: Content) { |CanonicalHeader(c.metadata)| <= SIZE_MAX && |c.html| <= SIZE_MAX }

  // ---------------------------------------------------------------- the invariant

  /** Version `i` ever issued says what it should. */
  predicate IssuedRight(h: Hash, t: Trace, i: nat)
    requires |t.contents| == |t.issued| && i < |t.issued|
  {
    var v, c, base := t.issued[i], t.contents[i], BaseContent(t.contents, i);
    && v.parentObjectId == (if i == 0 then "" else t.issued[i - 1].objectId)
    && v.snapshotObjectId == Snap(h, c).objectId
    && v.diffObjectId == IssuedDiff(h, base, c).objectId
    && v.objectId == HashObject(h, "commit", CanonicalVersion(v))
    && Storable(c)
    && CallFrames(h, base, c, v) <= t.hashed
  }

  /** The snapshot and the diff of version `i` are stored under their ids. */
  predicate IsStored(h: Hash, t: Trace, i: nat)
    requires |t.contents| == |t.issued| && i < |t.issued|
  {
    var v := t.issued[i];
    && v.snapshotObjectId in t.state.snapshots
    && t.state.snapshots[v.snapshotObjectId] == Snap(h, t.contents[i])
    && v.diffObjectId in t.state.diffs
    && t.state.diffs[v.diffObjectId] == IssuedDiff(h, BaseContent(t.contents, i), t.contents[i])
  }

  ghost predicate SnapshotIsReferenced(t: Trace, first: nat, k: string) {
    exists i :: first <= i < |t.issued| && t.issued[i].snapshotObjectId == k
  }

  ghost predicate DiffIsReferenced(t: Trace, first: nat, k: string) {
    exists i :: first <= i < |t.issued| && t.issued[i].diffObjectId == k
  }

  /** The counters and the boundary agree with what was issued; `limit` versions may be kept. */
  ghost predicate CountsRight(t: Trace, limit: nat) {
    var st := t.state;
    && |t.contents| == |t.issued|
    && st.prunedVersionCount <= |t.issued| && st.prunedVersionCount <= SIZE_MAX
    && st.versions == t.issued[st.prunedVersionCount..]
    && |st.versions| <= limit
    && (st.prunedVersionCount > 0 ==> |st.versions| >= MAXIMUM_VERSION_COUNT)
    && st.shallowBoundaryParentObjectId
       == (if st.prunedVersionCount == 0 then "" else t.issued[st.prunedVersionCount - 1].objectId)
  }

  /** The invariant of a run. */
  ghost predicate Good(h: Hash, t: Trace, limit: nat) {
    && CountsRight(t, limit)
    && (forall i :: 0 <= i < |t.issued| ==> IssuedRight(h, t, i))
    && (forall i :: t.state.prunedVersionCount <= i < |t.issued| ==> IsStored(h, t, i))
    && (forall k :: k in t.state.snapshots ==> SnapshotIsReferenced(t, t.state.prunedVersionCount, k))
    && (forall k :: k in t.state.diffs ==> DiffIsReferenced(t, t.state.prunedVersionCount, k))
  }

  // ---------------------------------------------------------------- no collision, no confusion

  lemma FrameIsInjective(kind: string, p: string, q: string)
    requires Frame(kind, p) == Frame(kind, q)
    ensures p == q
  {
    PrefixCancels(kind, kind, " " + (ToText(|p|) + ("\0" + p)), " " + (ToText(|q|) + ("\0" + q)));
    PrefixCancels(" ", " ", ToText(|p|) + ("\0" + p), ToText(|q|) + ("\0" + q));
    NumberThenCancels(|p|, |q|, "\0", p, q);
  }

  lemma SameIdSamePayload(h: Hash, hashed: set<string>, kind: string, p: string, q: string)
    requires CollisionFree(h, hashed)
    requires Frame(kind, p) in hashed && Frame(kind, q) in hashed
    requires HashObject(h, kind, p) == HashObject(h, kind, q)
    ensures p == q
  {
    FrameIsInjective(kind, p, q);
  }

  lemma SnapshotIdsIdentifyContent(h: Hash, hashed: set<string>, c: Content, d: Content)
    requires HasObjectIdLength(h) && CollisionFree(h, hashed)
    requires SnapshotFrames(h, c) <= hashed && SnapshotFrames(h, d) <= hashed
    requires Snap(h, c).objectId == Snap(h, d).objectId
    ensures c == d
  {
    hide Frame, CanonicalTree, CanonicalHeader;
    var s, t := Snap(h, c), Snap(h, d);
    SameIdSamePayload(h, hashed, "tree", CanonicalTree(s.headerObjectId, s.bodyObjectId),
                      CanonicalTree(t.headerObjectId, t.bodyObjectId));
    CanonicalTreeIsInjective(s.headerObjectId, s.bodyObjectId, t.headerObjectId, t.bodyObjectId);
    SameIdSamePayload(h, hashed, "blob", CanonicalHeader(c.metadata), CanonicalHeader(d.metadata));
    SameIdSamePayload(h, hashed, "blob", c.html, d.html);
    CanonicalHeaderIsInjective(c.metadata, d.metadata);
  }

  lemma DiffIdsIdentifyDiff(h: Hash, hashed: set<string>, d: Diff, e: Diff)
    requires HasObjectIdLength(h) && CollisionFree(h, hashed)
    requires |d.baseSnapshotObjectId| == |e.baseSnapshotObjectId| == 64
    requires |d.targetSnapshotObjectId| == |e.targetSnapshotObjectId| == 64
    requires Frame("diff", CanonicalDiff(d)) in hashed && Frame("diff", CanonicalDiff(e)) in hashed
    requires d.objectId == HashObject(h, "diff", CanonicalDiff(d)) == e.objectId
          == HashObject(h, "diff", CanonicalDiff(e))
    ensures d == e
  {
    hide Frame, CanonicalDiff;
    SameIdSamePayload(h, hashed, "diff", CanonicalDiff(d), CanonicalDiff(e));
    CanonicalDiffIsInjective(d, e);
  }

  /** The id of a diff is the hash of its own payload; the payload does not contain the id. */
  lemma DiffPayload(h: Hash, base: Content, c: Content)
    ensures var d := IssuedDiff(h, base, c);
            && d.objectId == HashObject(h, "diff", CanonicalDiff(d))
            && d.baseSnapshotObjectId == Snap(h, base).objectId
            && d.targetSnapshotObjectId == Snap(h, c).objectId
  {
    hide HashObject, CanonicalHeader, MakeTextDiff, LengthPrefixed, CanonicalTextDiff;
  }

  lemma SnapIdLength(h: Hash, c: Content)
    requires HasObjectIdLength(h)
    ensures |Snap(h, c).objectId| == 64
  {
  }

  /** What the invariant says of one issued version. */
  lemma IssuedFacts(h: Hash, t: Trace, limit: nat, i: nat)
    requires Good(h, t, limit) && HasObjectIdLength(h) && i < |t.issued|
    ensures var v := t.issued[i];
            && v.objectId == HashObject(h, "commit", CanonicalVersion(v))
            && Frame("commit", CanonicalVersion(v)) in t.hashed
            && v.parentObjectId == (if i == 0 then "" else t.issued[i - 1].objectId)
            && |v.objectId| == 64 && |v.snapshotObjectId| == 64 && |v.diffObjectId| == 64
  {
    hide CanonicalVersion, Frame, IsStored, Storable, IssuedDiff, CanonicalDiff, SnapshotFrames, Snap,
         SnapshotIsReferenced, DiffIsReferenced;
    assert IssuedRight(h, t, i);
    SnapIdLength(h, t.contents[i]);
    DiffPayload(h, BaseContent(t.contents, i), t.contents[i]);
  }

  /** All version ids ever issued are different, pruned ones included. */
  lemma {:induction false} IssuedIdsDiffer(h: Hash, t: Trace, limit: nat, i: nat, j: nat)
    requires Good(h, t, limit) && HasObjectIdLength(h) && CollisionFree(h, t.hashed)
    requires i < j < |t.issued|
    ensures t.issued[i].objectId != t.issued[j].objectId
  {
    hide Good, CanonicalVersion, Frame, HashObject, CollisionFree, HasObjectIdLength;
    var v, w := t.issued[i], t.issued[j];
    IssuedFacts(h, t, limit, i);
    IssuedFacts(h, t, limit, j);
    IssuedFacts(h, t, limit, j - 1);
    if i > 0 { IssuedFacts(h, t, limit, i - 1); }
    if v.objectId == w.objectId {
      SameIdSamePayload(h, t.hashed, "commit", CanonicalVersion(v), CanonicalVersion(w));
      CanonicalVersionIsInjective(v, w);
      if i > 0 { IssuedIdsDiffer(h, t, limit, i - 1, j - 1); }
    }
  }

  // ---------------------------------------------------------------- one call keeps the invariant

  lemma HeadIsLastIssued(h: Hash, t: Trace)
    requires Good(h, t, MAXIMUM_VERSION_COUNT)
    ensures t.state.versions == [] <==> t.issued == []
    ensures t.issued != [] ==> Last(t.state.versions) == t.issued[|t.issued| - 1]
    ensures BaseForNext(h, t.state) == Some(Snap(h, BaseContent(t.contents, |t.contents|)))
  {
    hide IssuedRight, MakeSnapshot, SnapshotIsReferenced, DiffIsReferenced, IssuedDiff;
    if t.issued != [] {
      assert IsStored(h, t, |t.issued| - 1);
      assert t.issued[|t.issued| - 1] == Last(t.state.versions);
    }
  }

  /** The run before pruning: one more version, with its objects. */
  function GrownTrace(h: Hash, t: Trace, e: Entry): Trace
    requires |t.contents| == |t.issued|
  {
    var base, c := BaseContent(t.contents, |t.contents|), Content(e.metadata, e.html);
    var grown := Grown(h, t.state, Snap(h, base), e);
    Trace(grown, t.issued + [Last(grown.versions)], t.contents + [c],
          t.hashed + CallFrames(h, base, c, Last(grown.versions)))
  }

  lemma GoodIssues(h: Hash, t: Trace, limit: nat)
    requires Good(h, t, limit)
    ensures |t.contents| == |t.issued| && forall i :: 0 <= i < |t.issued| ==> IssuedRight(h, t, i)
  {
    hide IssuedRight, IsStored, SnapshotIsReferenced, DiffIsReferenced;
  }

  lemma GrownTraceIs(h: Hash, t: Trace, e: Entry)
    requires |t.contents| == |t.issued|
    ensures var g := GrownTrace(h, t, e);
            && |g.issued| == |g.contents| == |t.issued| + 1
            && g.issued == t.issued + [g.issued[|t.issued|]] && g.contents == t.contents + [g.contents[|t.contents|]]
            && t.hashed <= g.hashed
  {
    hide Grown, CallFrames, BaseContent;
  }

  lemma GrownIssuesRight(h: Hash, t: Trace, e: Entry)
    requires Good(h, t, MAXIMUM_VERSION_COUNT) && Storable(Content(e.metadata, e.html))
    ensures var g := GrownTrace(h, t, e);
            forall i :: 0 <= i < |g.issued| ==> IssuedRight(h, g, i)
  {
    hide *;
    GoodIssues(h, t, MAXIMUM_VERSION_COUNT);
    var g := GrownTrace(h, t, e);
    GrownTraceIs(h, t, e);
    NewIssuedRight(h, t, e);
    forall i | 0 <= i < |g.issued| ensures IssuedRight(h, g, i) {
      if i < |t.issued| { StaysIssued(h, t, g, g.issued[|t.issued|], g.contents[|t.contents|], i); }
    }
  }

  lemma NewIssuedRight(h: Hash, t: Trace, e: Entry)
    requires Good(h, t, MAXIMUM_VERSION_COUNT) && Storable(Content(e.metadata, e.html))
    ensures IssuedRight(h, GrownTrace(h, t, e), |t.issued|)
  {
    hide CanonicalVersion, CanonicalDiff, MakeDiff, MakeSnapshot, Frame, HashObject, IsStored, Storable, CallFrames,
         SnapshotIsReferenced, DiffIsReferenced;
    HeadIsLastIssued(h, t);
    CommitPayload(h, if t.issued == [] then "" else Last(t.state.versions).objectId,
      Snap(h, Content(e.metadata, e.html)).objectId,
      IssuedDiff(h, BaseContent(t.contents, |t.contents|), Content(e.metadata, e.html)).objectId, e);
  }

  lemma StaysIssued(h: Hash, t: Trace, g: Trace, v: Version, c: Content, i: nat)
    requires |t.contents| == |t.issued| && i < |t.issued| && IssuedRight(h, t, i)
    requires g.issued == t.issued + [v] && g.contents == t.contents + [c] && t.hashed <= g.hashed
    ensures IssuedRight(h, g, i)
  {
    hide CanonicalVersion, HashObject, CallFrames, Storable, IssuedDiff, Snap;
    assert BaseContent(g.contents, i) == BaseContent(t.contents, i);
    assert CallFrames(h, BaseContent(t.contents, i), t.contents[i], t.issued[i]) <= t.hashed;
  }

  lemma CommitPayload(h: Hash, parent: string, snapshot: string, diff: string, e: Entry)
    ensures var v := NewVersion(h, parent, snapshot, diff, e);
            v.objectId == HashObject(h, "commit", CanonicalVersion(v))
  {
    hide HashObject, LengthPrefixed;
  }

  /** An already stored object with the new id is the new object. */
  lemma SameSnapshotUnderId(h: Hash, t: Trace, e: Entry)
    requires Good(h, t, MAXIMUM_VERSION_COUNT) && HasObjectIdLength(h)
    requires CollisionFree(h, GrownTrace(h, t, e).hashed)
    ensures var c := Content(e.metadata, e.html);
            Snap(h, c).objectId in t.state.snapshots ==>
              t.state.snapshots[Snap(h, c).objectId] == Snap(h, c)
  {
    hide CanonicalVersion, CanonicalDiff, MakeDiff, MakeSnapshot, Frame, Storable, SnapshotFrames, Grown,
         DiffIsReferenced;
    var c := Content(e.metadata, e.html);
    if Snap(h, c).objectId in t.state.snapshots {
      var i :| t.state.prunedVersionCount <= i < |t.issued| && t.issued[i].snapshotObjectId == Snap(h, c).objectId;
      assert IssuedRight(h, t, i) && IsStored(h, t, i);
      SnapshotIdsIdentifyContent(h, GrownTrace(h, t, e).hashed, t.contents[i], c);
    }
  }

  lemma SameDiffUnderId(h: Hash, t: Trace, e: Entry)
    requires Good(h, t, MAXIMUM_VERSION_COUNT) && HasObjectIdLength(h)
    requires CollisionFree(h, GrownTrace(h, t, e).hashed)
    ensures var d := IssuedDiff(h, BaseContent(t.contents, |t.contents|), Content(e.metadata, e.html));
            d.objectId in t.state.diffs ==> t.state.diffs[d.objectId] == d
  {
    hide CanonicalVersion, CanonicalDiff, IssuedDiff, Snap, Frame, Storable, SnapshotFrames, Grown,
         SnapshotIsReferenced;
    var base, c := BaseContent(t.contents, |t.contents|), Content(e.metadata, e.html);
    var d := IssuedDiff(h, base, c);
    DiffPayload(h, base, c);
    SnapIdLength(h, base);
    SnapIdLength(h, c);
    if d.objectId in t.state.diffs {
      var i :| t.state.prunedVersionCount <= i < |t.issued| && t.issued[i].diffObjectId == d.objectId;
      assert IssuedRight(h, t, i) && IsStored(h, t, i);
      var was, wasBase := t.contents[i], BaseContent(t.contents, i);
      DiffPayload(h, wasBase, was);
      SnapIdLength(h, wasBase);
      SnapIdLength(h, was);
      DiffIdsIdentifyDiff(h, GrownTrace(h, t, e).hashed, IssuedDiff(h, wasBase, was), d);
    }
  }

  lemma GrownIsGood(h: Hash, t: Trace, e: Entry)
    requires Good(h, t, MAXIMUM_VERSION_COUNT) && HasObjectIdLength(h)
    requires CollisionFree(h, GrownTrace(h, t, e).hashed) && Storable(Content(e.metadata, e.html))
    ensures Good(h, GrownTrace(h, t, e), MAXIMUM_VERSION_COUNT + 1)
  {
    hide GrownTrace, CountsRight, IssuedRight, IsStored, SnapshotIsReferenced, DiffIsReferenced, Storable;
    GrownIssuesRight(h, t, e);
    GrownCounts(h, t, e);
    GrownIsStored(h, t, e);
    GrownIsReferenced(h, t, e);
  }

  lemma GrownCounts(h: Hash, t: Trace, e: Entry)
    requires Good(h, t, MAXIMUM_VERSION_COUNT)
    ensures CountsRight(GrownTrace(h, t, e), MAXIMUM_VERSION_COUNT + 1)
    ensures GrownTrace(h, t, e).state.prunedVersionCount == t.state.prunedVersionCount
  {
    hide MakeDiff, MakeSnapshot, NewVersion, IssuedRight, IsStored, SnapshotIsReferenced, DiffIsReferenced, CallFrames,
         BaseContent;
    AppendThenDrop(t.issued, Last(GrownTrace(h, t, e).issued), t.state.prunedVersionCount);
  }

  lemma AppendThenDrop<T>(s: seq<T>, v: T, k: nat)
    requires k <= |s|
    ensures (s + [v])[k..] == s[k..] + [v]
  {
  }

  lemma GrownIsStored(h: Hash, t: Trace, e: Entry)
    requires Good(h, t, MAXIMUM_VERSION_COUNT) && HasObjectIdLength(h)
    requires CollisionFree(h, GrownTrace(h, t, e).hashed)
    ensures var g := GrownTrace(h, t, e);
            forall i :: t.state.prunedVersionCount <= i < |g.issued| ==> IsStored(h, g, i)
  {
    hide CanonicalVersion, CanonicalDiff, MakeDiff, MakeSnapshot, HashObject, CallFrames, IssuedRight, CollisionFree,
         SnapshotIsReferenced, DiffIsReferenced;
    SameSnapshotUnderId(h, t, e);
    SameDiffUnderId(h, t, e);
    HeadIsLastIssued(h, t);
    var g := GrownTrace(h, t, e);
    forall i | t.state.prunedVersionCount <= i < |g.issued| ensures IsStored(h, g, i) {
      if i < |t.issued| { StaysStored(h, t, g, i); }
    }
  }

  lemma StaysStored(h: Hash, t: Trace, g: Trace, i: nat)
    requires |t.contents| == |t.issued| && |g.contents| == |g.issued| && i < |t.issued| && IsStored(h, t, i)
    requires t.issued <= g.issued && t.contents <= g.contents
    requires forall k :: k in t.state.snapshots ==> k in g.state.snapshots && g.state.snapshots[k] == t.state.snapshots[k]
    requires forall k :: k in t.state.diffs ==> k in g.state.diffs && g.state.diffs[k] == t.state.diffs[k]
    ensures IsStored(h, g, i)
  {
    hide IssuedDiff, Snap;
    assert BaseContent(g.contents, i) == BaseContent(t.contents, i);
  }

  lemma GrownIsReferenced(h: Hash, t: Trace, e: Entry)
    requires Good(h, t, MAXIMUM_VERSION_COUNT)
    ensures var g, first := GrownTrace(h, t, e), t.state.prunedVersionCount;
            && (forall k :: k in g.state.snapshots ==> SnapshotIsReferenced(g, first, k))
            && (forall k :: k in g.state.diffs ==> DiffIsReferenced(g, first, k))
  {
    hide CanonicalVersion, MakeDiff, MakeSnapshot, HashObject, CallFrames, IssuedRight, IsStored;
    var g, first := GrownTrace(h, t, e), t.state.prunedVersionCount;
    forall k | k in g.state.snapshots ensures SnapshotIsReferenced(g, first, k) {
      if k in t.state.snapshots {
        assert SnapshotIsReferenced(t, first, k);
        var i :| first <= i < |t.issued| && t.issued[i].snapshotObjectId == k;
        assert g.issued[i] == t.issued[i];
      } else {
        assert k == g.issued[|t.issued|].snapshotObjectId;
      }
    }
    forall k | k in g.state.diffs ensures DiffIsReferenced(g, first, k) {
      if k in t.state.diffs {
        assert DiffIsReferenced(t, first, k);
        var i :| first <= i < |t.issued| && t.issued[i].diffObjectId == k;
        assert g.issued[i] == t.issued[i];
      } else {
        assert k == g.issued[|t.issued|].diffObjectId;
      }
    }
  }

  /** Dropping the oldest version: what the state has left, in terms of the versions issued. */
  lemma PrunedState(h: Hash, g: Trace)
    requires Good(h, g, MAXIMUM_VERSION_COUNT + 1)
    requires |g.state.versions| > MAXIMUM_VERSION_COUNT && g.state.prunedVersionCount < SIZE_MAX
    ensures var st, first := Pruned(g.state), g.state.prunedVersionCount + 1;
            && first < |g.issued| && st.prunedVersionCount == first && st.versions == g.issued[first..]
            && st.shallowBoundaryParentObjectId == g.issued[first].parentObjectId
            && (forall k :: k in st.snapshots ==>
                  && k in g.state.snapshots && st.snapshots[k] == g.state.snapshots[k]
                  && exists v :: v in st.versions && v.snapshotObjectId == k)
            && (forall k :: k in st.diffs ==>
                  && k in g.state.diffs && st.diffs[k] == g.state.diffs[k]
                  && exists v :: v in st.versions && v.diffObjectId == k)
            && (forall v :: v in st.versions ==>
                  && (v.snapshotObjectId in g.state.snapshots ==> v.snapshotObjectId in st.snapshots)
                  && (v.diffObjectId in g.state.diffs ==> v.diffObjectId in st.diffs))
  {
    hide IssuedRight, IsStored, SnapshotIsReferenced, DiffIsReferenced;
  }

  lemma PrunedIsReferenced(p: Trace, first: nat)
    requires first <= |p.issued| && p.state.versions == p.issued[first..]
    requires forall k :: k in p.state.snapshots ==> exists v :: v in p.state.versions && v.snapshotObjectId == k
    requires forall k :: k in p.state.diffs ==> exists v :: v in p.state.versions && v.diffObjectId == k
    ensures forall k :: k in p.state.snapshots ==> SnapshotIsReferenced(p, first, k)
    ensures forall k :: k in p.state.diffs ==> DiffIsReferenced(p, first, k)
  {
    forall k | k in p.state.snapshots ensures SnapshotIsReferenced(p, first, k) {
      var v :| v in p.state.versions && v.snapshotObjectId == k;
      var j :| 0 <= j < |p.state.versions| && p.state.versions[j] == v;
      assert p.issued[first + j] == v;
    }
    forall k | k in p.state.diffs ensures DiffIsReferenced(p, first, k) {
      var v :| v in p.state.versions && v.diffObjectId == k;
      var j :| 0 <= j < |p.state.versions| && p.state.versions[j] == v;
      assert p.issued[first + j] == v;
    }
  }

  lemma PrunedIsStored(h: Hash, g: Trace, i: nat)
    requires Good(h, g, MAXIMUM_VERSION_COUNT + 1)
    requires |g.state.versions| > MAXIMUM_VERSION_COUNT && g.state.prunedVersionCount < SIZE_MAX
    requires g.state.prunedVersionCount < i < |g.issued|
    ensures IsStored(h, g.(state := Pruned(g.state)), i)
  {
    hide IssuedRight, SnapshotIsReferenced, DiffIsReferenced, Pruned, CanonicalVersion, CanonicalDiff, MakeDiff,
         MakeSnapshot, HashObject;
    PrunedState(h, g);
    assert IsStored(h, g, i);
    assert g.issued[i] == Pruned(g.state).versions[i - (g.state.prunedVersionCount + 1)];
  }

  lemma PrunedIsIssued(h: Hash, g: Trace, st: State)
    requires |g.contents| == |g.issued| && forall i :: 0 <= i < |g.issued| ==> IssuedRight(h, g, i)
    ensures forall i :: 0 <= i < |g.issued| ==> IssuedRight(h, g.(state := st), i)
  {
    hide CanonicalVersion, CanonicalDiff, MakeDiff, MakeSnapshot, HashObject, CallFrames, BaseContent, Storable;
    forall i | 0 <= i < |g.issued| ensures IssuedRight(h, g.(state := st), i) { assert IssuedRight(h, g, i); }
  }

  lemma IssuedParent(h: Hash, g: Trace, i: nat)
    requires |g.contents| == |g.issued| && 0 < i < |g.issued| && IssuedRight(h, g, i)
    ensures g.issued[i].parentObjectId == g.issued[i - 1].objectId
  {
    hide CanonicalVersion, HashObject, CallFrames, Storable, IssuedDiff, Snap;
  }

  lemma PrunedCounts(h: Hash, g: Trace)
    requires Good(h, g, MAXIMUM_VERSION_COUNT + 1)
    requires |g.state.versions| > MAXIMUM_VERSION_COUNT && g.state.prunedVersionCount < SIZE_MAX
    ensures CountsRight(g.(state := Pruned(g.state)), MAXIMUM_VERSION_COUNT)
  {
    hide Pruned, IssuedRight, IsStored, SnapshotIsReferenced, DiffIsReferenced;
    PrunedState(h, g);
    IssuedParent(h, g, g.state.prunedVersionCount + 1);
  }

  lemma PrunedIsAllStored(h: Hash, g: Trace)
    requires Good(h, g, MAXIMUM_VERSION_COUNT + 1)
    requires |g.state.versions| > MAXIMUM_VERSION_COUNT && g.state.prunedVersionCount < SIZE_MAX
    ensures forall i :: g.state.prunedVersionCount + 1 <= i < |g.issued| ==> IsStored(h, g.(state := Pruned(g.state)), i)
  {
    forall i | g.state.prunedVersionCount + 1 <= i < |g.issued| ensures IsStored(h, g.(state := Pruned(g.state)), i) {
      hide *;
      PrunedIsStored(h, g, i);
    }
  }

  lemma PrunedIsAllReferenced(h: Hash, g: Trace)
    requires Good(h, g, MAXIMUM_VERSION_COUNT + 1)
    requires |g.state.versions| > MAXIMUM_VERSION_COUNT && g.state.prunedVersionCount < SIZE_MAX
    ensures var p, first := g.(state := Pruned(g.state)), g.state.prunedVersionCount + 1;
            && p.state.prunedVersionCount == first <= |p.issued|
            && (forall k :: k in p.state.snapshots ==> SnapshotIsReferenced(p, first, k))
            && (forall k :: k in p.state.diffs ==> DiffIsReferenced(p, first, k))
  {
    hide Good, Pruned, SnapshotIsReferenced, DiffIsReferenced;
    PrunedState(h, g);
    PrunedIsReferenced(g.(state := Pruned(g.state)), g.state.prunedVersionCount + 1);
  }

  lemma NothingToPrune(st: State)
    requires |st.versions| <= MAXIMUM_VERSION_COUNT
    ensures Pruned(st) == st
  {
  }

  lemma PrunedIsGood(h: Hash, g: Trace)
    requires Good(h, g, MAXIMUM_VERSION_COUNT + 1)
    requires |g.state.versions| > MAXIMUM_VERSION_COUNT ==> g.state.prunedVersionCount < SIZE_MAX
    ensures Good(h, g.(state := Pruned(g.state)), MAXIMUM_VERSION_COUNT)
  {
    hide IsStored, SnapshotIsReferenced, DiffIsReferenced, IssuedRight, Pruned;
    if |g.state.versions| > MAXIMUM_VERSION_COUNT {
      assert |g.contents| == |g.issued|;
      hide CountsRight;
      var p := g.(state := Pruned(g.state));
      PrunedIsAllReferenced(h, g);
      PrunedCounts(h, g);
      PrunedIsIssued(h, g, p.state);
      PrunedIsAllStored(h, g);
    } else {
      NothingToPrune(g.state);
      assert g.(state := Pruned(g.state)) == g;
    }
  }

  /** A call issues one more version and keeps the invariant; it fails only with 100 versions kept and
      the counter at its maximum. */
  lemma StepKeepsGood(h: Hash, t: Trace, e: Entry)
    requires Good(h, t, MAXIMUM_VERSION_COUNT) && HasObjectIdLength(h)
    requires CollisionFree(h, Step(h, t, e).hashed) && Storable(Content(e.metadata, e.html))
    ensures Good(h, Step(h, t, e), MAXIMUM_VERSION_COUNT)
    ensures |Step(h, t, e).issued| == if |t.issued| == SIZE_MAX + MAXIMUM_VERSION_COUNT then |t.issued| else |t.issued| + 1
  {
    hide CanonicalVersion, CanonicalDiff, MakeDiff, MakeSnapshot, CallFrames, Storable, IssuedRight, IsStored, Pruned,
         Grown, SnapshotIsReferenced, DiffIsReferenced;
    HeadIsLastIssued(h, t);
    if !Recorded(h, t.state, e).Err? {
      GrownIsGood(h, t, e);
      GrownHasOneMore(h, t, e);
      PrunedIsGood(h, GrownTrace(h, t, e));
    }
  }

  lemma GrownHasOneMore(h: Hash, t: Trace, e: Entry)
    requires |t.contents| == |t.issued|
    ensures |GrownTrace(h, t, e).state.versions| == |t.state.versions| + 1
    ensures GrownTrace(h, t, e).state.prunedVersionCount == t.state.prunedVersionCount
  {
    hide MakeDiff, MakeSnapshot;
  }

  // ---------------------------------------------------------------- every run

  predicate AllStorable(entries: seq<Entry>) {
    forall i :: 0 <= i < |entries| ==> Storable(Content(entries[i].metadata, entries[i].html))
  }

  lemma {:induction false} RunIsGood(h: Hash, entries: seq<Entry>)
    requires HasObjectIdLength(h) && CollisionFree(h, Run(h, entries).hashed) && AllStorable(entries)
    ensures Good(h, Run(h, entries), MAXIMUM_VERSION_COUNT)
    ensures |Run(h, entries).issued| == Min(|entries|, SIZE_MAX + MAXIMUM_VERSION_COUNT)
  {
    hide IssuedRight, IsStored, Storable, Recorded, CallFrames;
    if entries == [] {
      EmptyIsGood(h);
    } else {
      var front, e := entries[..|entries| - 1], entries[|entries| - 1];
      assert Run(h, entries) == Step(h, Run(h, front), e);
      assert Run(h, front).hashed <= Run(h, entries).hashed;
      RunIsGood(h, front);
      StepKeepsGood(h, Run(h, front), e);
    }
  }

  lemma EmptyIsGood(h: Hash)
    ensures Good(h, Run(h, []), MAXIMUM_VERSION_COUNT)
  {
  }

  lemma GoodVersionChecks(h: Hash, t: Trace, i: nat)
    requires Good(h, t, MAXIMUM_VERSION_COUNT) && i < |t.state.versions|
    ensures VersionChecks(h, t.state, i)
  {
    hide CanonicalVersion, CanonicalDiff, CanonicalHeader, MakeSnapshot, CallFrames, MakeDiff, HashObject,
         DiffLeadsTo, SnapshotIsReferenced, DiffIsReferenced;
    var st := t.state;
    var n := st.prunedVersionCount + i;
    assert st.versions[i] == t.issued[n];
    assert IssuedRight(h, t, n) && IsStored(h, t, n);
    DiffPayload(h, BaseContent(t.contents, n), t.contents[n]);
    if i > 0 {
      assert st.versions[i - 1] == t.issued[n - 1];
      assert IssuedRight(h, t, n - 1) && IsStored(h, t, n - 1);
    }
    if n > st.prunedVersionCount || n == 0 {
      GoodDiffLeads(h, BaseContent(t.contents, n), t.contents[n]);
    }
  }

  lemma GoodDiffLeads(h: Hash, base: Content, c: Content)
    requires Storable(c)
    ensures DiffLeadsTo(IssuedDiff(h, base, c), Snap(h, base), Snap(h, c))
  {
    hide CanonicalDiff, CanonicalHeader, MakeTextDiff, HashObject;
    ApplyMakeTextDiff(CanonicalHeader(base.metadata), CanonicalHeader(c.metadata));
    ApplyMakeTextDiff(base.html, c.html);
  }

  lemma GoodIsVerified(h: Hash, t: Trace)
    requires Good(h, t, MAXIMUM_VERSION_COUNT) && HasObjectIdLength(h)
    ensures Verified(h, t.state)
  {
    hide VersionChecks, SnapshotChecks, DiffChecks, CanonicalVersion, MakeSnapshot, MakeDiff, CallFrames, Storable,
         IssuedRight;
    var st := t.state;
    if st.prunedVersionCount > 0 { IssuedFacts(h, t, MAXIMUM_VERSION_COUNT, st.prunedVersionCount - 1); }
    forall i | 0 <= i < |st.versions| ensures VersionChecks(h, st, i) { GoodVersionChecks(h, t, i); }
    forall k | k in st.snapshots ensures SnapshotChecks(h, st, k) { GoodSnapshotChecks(h, t, k); }
    forall k | k in st.diffs ensures DiffChecks(h, st, k) { GoodDiffChecks(h, t, k); }
  }

  lemma GoodSnapshotChecks(h: Hash, t: Trace, k: string)
    requires Good(h, t, MAXIMUM_VERSION_COUNT) && k in t.state.snapshots
    ensures SnapshotChecks(h, t.state, k)
  {
    hide CanonicalVersion, MakeSnapshot, MakeDiff, CallFrames, Storable, DiffIsReferenced, SnapshotMatchesId;
    var st := t.state;
    assert SnapshotIsReferenced(t, st.prunedVersionCount, k);
    var i :| st.prunedVersionCount <= i < |t.issued| && t.issued[i].snapshotObjectId == k;
    assert st.versions[i - st.prunedVersionCount] == t.issued[i];
    assert IssuedRight(h, t, i) && IsStored(h, t, i);
    SnapMatches(h, t.contents[i]);
  }

  lemma GoodDiffChecks(h: Hash, t: Trace, k: string)
    requires Good(h, t, MAXIMUM_VERSION_COUNT) && k in t.state.diffs
    ensures DiffChecks(h, t.state, k)
  {
    hide CanonicalVersion, CanonicalDiff, MakeSnapshot, MakeDiff, CallFrames, Storable, SnapshotIsReferenced;
    var st := t.state;
    assert DiffIsReferenced(t, st.prunedVersionCount, k);
    var i :| st.prunedVersionCount <= i < |t.issued| && t.issued[i].diffObjectId == k;
    assert st.versions[i - st.prunedVersionCount] == t.issued[i];
    assert IssuedRight(h, t, i) && IsStored(h, t, i);
    DiffPayload(h, BaseContent(t.contents, i), t.contents[i]);
  }

  lemma SnapMatches(h: Hash, c: Content)
    ensures SnapshotMatchesId(h, Snap(h, c))
  {
  }

  /** Every history reached by `record` calls from the empty one, no two hashed payloads colliding:
      the checker passes; at most 100 versions are kept, namely the newest; the stored objects are
      exactly the referenced ones; nothing is miscounted; and no version id was ever issued twice. */
  lemma EveryRunVerifies(h: Hash, entries: seq<Entry>)
    requires HasObjectIdLength(h) && CollisionFree(h, Run(h, entries).hashed) && AllStorable(entries)
    ensures var t := Run(h, entries);
            var st := t.state;
            && Verified(h, st)
            && |t.issued| == Min(|entries|, SIZE_MAX + MAXIMUM_VERSION_COUNT)
            && st.prunedVersionCount + |st.versions| == |t.issued|
            && |st.versions| == Min(|t.issued|, MAXIMUM_VERSION_COUNT)
            && st.versions == t.issued[st.prunedVersionCount..]
            && st.snapshots.Keys == (set v | v in st.versions :: v.snapshotObjectId)
            && st.diffs.Keys == (set v | v in st.versions :: v.diffObjectId)
            && forall i, j :: 0 <= i < j < |t.issued| ==> t.issued[i].objectId != t.issued[j].objectId
  {
    hide IssuedRight, IsStored, Storable, Step, Verified, SnapshotIsReferenced, DiffIsReferenced;
    var t := Run(h, entries);
    var st := t.state;
    RunIsGood(h, entries);
    GoodIsVerified(h, t);
    KeysAreReferenced(h, t);
    forall i, j | 0 <= i < j < |t.issued| ensures t.issued[i].objectId != t.issued[j].objectId {
      IssuedIdsDiffer(h, t, MAXIMUM_VERSION_COUNT, i, j);
    }
  }

  lemma KeysAreReferenced(h: Hash, t: Trace)
    requires Good(h, t, MAXIMUM_VERSION_COUNT)
    ensures t.state.snapshots.Keys == set v | v in t.state.versions :: v.snapshotObjectId
    ensures t.state.diffs.Keys == set v | v in t.state.versions :: v.diffObjectId
  {
    hide Good, SnapshotMatchesId, HashObject, CanonicalDiff, Resolves;
    var st := t.state;
    RetainedAreStored(h, t);
    forall k | k in st.snapshots ensures exists v :: v in st.versions && v.snapshotObjectId == k {
      GoodSnapshotChecks(h, t, k);
    }
    forall k | k in st.diffs ensures exists v :: v in st.versions && v.diffObjectId == k {
      GoodDiffChecks(h, t, k);
    }
    ReferencedKeys(st);
  }

  lemma ReferencedKeys(st: State)
    requires Resolves(st)
    requires forall k :: k in st.snapshots ==> exists v :: v in st.versions && v.snapshotObjectId == k
    requires forall k :: k in st.diffs ==> exists v :: v in st.versions && v.diffObjectId == k
    ensures st.snapshots.Keys == set v | v in st.versions :: v.snapshotObjectId
    ensures st.diffs.Keys == set v | v in st.versions :: v.diffObjectId
  {
  }

  lemma RetainedAreStored(h: Hash, t: Trace)
    requires Good(h, t, MAXIMUM_VERSION_COUNT)
    ensures Resolves(t.state)
  {
    hide IssuedRight, MakeSnapshot, MakeDiff, SnapshotIsReferenced, DiffIsReferenced;
    var st, first := t.state, t.state.prunedVersionCount;
    forall v | v in st.versions ensures v.snapshotObjectId in st.snapshots && v.diffObjectId in st.diffs {
      var i :| 0 <= i < |st.versions| && st.versions[i] == v;
      assert IsStored(h, t, first + i);
    }
  }

  /** What a version was recorded with is what replaying the retained diffs rebuilds. */
  lemma EveryRunReplays(h: Hash, entries: seq<Entry>, i: nat)
    requires HasObjectIdLength(h) && CollisionFree(h, Run(h, entries).hashed) && AllStorable(entries)
    requires i < |Run(h, entries).state.versions|
    ensures var t := Run(h, entries);
            && Resolves(t.state)
            && t.state.prunedVersionCount + i < |t.contents|
            && Replay(h, t.state, i) == Some(Snap(h, t.contents[t.state.prunedVersionCount + i]))
  {
    hide IssuedRight, Storable, Step, Verified, Replay, MakeSnapshot, SnapshotIsReferenced, DiffIsReferenced,
         IssuedDiff;
    var t := Run(h, entries);
    RunIsGood(h, entries);
    GoodIsVerified(h, t);
    VerifiedReplays(h, t.state, i);
    assert t.state.versions[i] == t.issued[t.state.prunedVersionCount + i];
    assert IsStored(h, t, t.state.prunedVersionCount + i);
  }
}
