/** What a passed integrity check pins down: the newest version id stands for the whole history. And what a recorded
    version carries of the arguments of its call. */
module HistoryEvidence {
  import opened Wrappers
  import opened Decimal
  import opened TextDiff
  import opened Canonical
  import opened History
  import opened HistoryRuns

  // ---------------------------------------------------------------- what the newest id stands for

  function ContentOf(s: Snapshot): Content { Content(s.headerMetadata, s.bodyHtml) }

  /** All that the checker hashes of a history. */
  ghost predicate Covers(h: Hash, hashed: set<string>, st: State) {
    && (forall v :: v in st.versions ==> Frame("commit", CanonicalVersion(v)) in hashed)
    && (forall k :: k in st.snapshots ==> SnapshotFrames(h, ContentOf(st.snapshots[k])) <= hashed)
    && (forall k :: k in st.diffs ==> Frame("diff", CanonicalDiff(st.diffs[k])) in hashed)
  }

  /** Two histories that pass the check, without a collision between them; the first is not the longer one. */
  ghost predicate Comparable(h: Hash, hashed: set<string>, a: State, b: State) {
    && HasObjectIdLength(h) && CollisionFree(h, hashed)
    && Verified(h, a) && Verified(h, b) && Covers(h, hashed, a) && Covers(h, hashed, b)
    && 0 < |a.versions| <= |b.versions|
    && Last(a.versions).objectId == Last(b.versions).objectId
  }

  /** The same version with the same snapshot and the same diff. */
  ghost predicate Agree(a: State, i: nat, b: State, j: nat)
    requires i < |a.versions| && j < |b.versions| && Resolves(a) && Resolves(b)
  {
    var v := a.versions[i];
    && v == b.versions[j]
    && a.snapshots[v.snapshotObjectId] == b.snapshots[v.snapshotObjectId]
    && a.diffs[v.diffObjectId] == b.diffs[v.diffObjectId]
  }

  /** The lengths that nothing but the hash fixes in the oldest version of a pruned history: of the id of its parent,
      and of the id of the snapshot that its diff starts from. */
  predicate EquallyLong(a: State, i: nat, b: State, j: nat)
    requires i < |a.versions| && j < |b.versions| && Resolves(a) && Resolves(b)
  {
    && |a.versions[i].parentObjectId| == |b.versions[j].parentObjectId|
    && |a.diffs[a.versions[i].diffObjectId].baseSnapshotObjectId| == |b.diffs[b.versions[j].diffObjectId].baseSnapshotObjectId|
  }

  /** What the check says of one version and its objects. */
  lemma CheckedFacts(h: Hash, hashed: set<string>, st: State, i: nat)
    requires HasObjectIdLength(h) && Verified(h, st) && Covers(h, hashed, st) && i < |st.versions|
    ensures Resolves(st)
    ensures var v := st.versions[i];
            var s, d := st.snapshots[v.snapshotObjectId], st.diffs[v.diffObjectId];
            && v.objectId == HashObject(h, "commit", CanonicalVersion(v)) && Frame("commit", CanonicalVersion(v)) in hashed
            && v.snapshotObjectId == s.objectId && s == Snap(h, ContentOf(s)) && SnapshotFrames(h, ContentOf(s)) <= hashed
            && v.diffObjectId == d.objectId == HashObject(h, "diff", CanonicalDiff(d)) && Frame("diff", CanonicalDiff(d)) in hashed
            && |v.objectId| == |v.snapshotObjectId| == |v.diffObjectId| == |d.targetSnapshotObjectId| == 64
            && (i > 0 ==> v.parentObjectId == st.versions[i - 1].objectId
                          && d.baseSnapshotObjectId == st.versions[i - 1].snapshotObjectId)
            && (i == 0 && st.prunedVersionCount == 0 ==> v.parentObjectId == "" && |d.baseSnapshotObjectId| == 64)
            && (i == 0 && st.prunedVersionCount != 0 ==> v.parentObjectId == st.shallowBoundaryParentObjectId)
  {
    hide CanonicalVersion, CanonicalDiff, Frame, CanonicalHeader, CanonicalTree;
    VerifiedResolves(h, st);
    var v := st.versions[i];
    assert VersionChecks(h, st, i) && SnapshotChecks(h, st, v.snapshotObjectId) && DiffChecks(h, st, v.diffObjectId);
    SnapIdLength(h, ContentOf(st.snapshots[v.snapshotObjectId]));
    SnapIdLength(h, NOTHING);
    if i > 0 { assert SnapshotChecks(h, st, st.versions[i - 1].snapshotObjectId); }
  }

  /** Versions with one id are the same, with the same snapshot and diff, exactly if the two lengths agree. */
  lemma SameIdAgrees(h: Hash, hashed: set<string>, a: State, i: nat, b: State, j: nat)
    requires HasObjectIdLength(h) && CollisionFree(h, hashed)
    requires Verified(h, a) && Covers(h, hashed, a) && i < |a.versions|
    requires Verified(h, b) && Covers(h, hashed, b) && j < |b.versions|
    requires a.versions[i].objectId == b.versions[j].objectId
    ensures Resolves(a) && Resolves(b)
    ensures Agree(a, i, b, j) <==> EquallyLong(a, i, b, j)
  {
    hide Verified, Covers, CollisionFree, HasObjectIdLength, HashObject, Frame, CanonicalVersion, CanonicalDiff, SnapshotFrames,
         Snap;
    CheckedFacts(h, hashed, a, i);
    CheckedFacts(h, hashed, b, j);
    var v, w := a.versions[i], b.versions[j];
    if EquallyLong(a, i, b, j) {
      SameIdSamePayload(h, hashed, "commit", CanonicalVersion(v), CanonicalVersion(w));
      CanonicalVersionIsInjective(v, w);
      var d, e := a.diffs[v.diffObjectId], b.diffs[w.diffObjectId];
      SameIdSamePayload(h, hashed, "diff", CanonicalDiff(d), CanonicalDiff(e));
      CanonicalDiffIsInjective(d, e);
      var s, t := a.snapshots[v.snapshotObjectId], b.snapshots[w.snapshotObjectId];
      SnapshotIdsIdentifyContent(h, hashed, ContentOf(s), ContentOf(t));
    }
  }

  /** Below the newest version, parent ids carry the agreement on. */
  lemma {:induction false} SameIds(h: Hash, hashed: set<string>, a: State, b: State, i: nat)
    requires Comparable(h, hashed, a, b) && i < |a.versions|
    ensures Resolves(a) && Resolves(b)
    ensures var j := |b.versions| - |a.versions| + i;
            && a.versions[i].objectId == b.versions[j].objectId
            && (i > 0 ==> Agree(a, i, b, j))
    decreases |a.versions| - i
  {
    hide Verified, Covers, CollisionFree, HasObjectIdLength, HashObject, Frame, CanonicalVersion, CanonicalDiff, SnapshotFrames,
         Snap, Resolves, Agree;
    var j := |b.versions| - |a.versions| + i;
    if i < |a.versions| - 1 {
      SameIds(h, hashed, a, b, i + 1);
      ParentsAgree(h, hashed, a, i + 1, b, j + 1);
    }
    SameIdAgrees(h, hashed, a, i, b, j);
    if i > 0 { LengthsAgree(h, hashed, a, i, b, j); }
  }

  lemma ParentsAgree(h: Hash, hashed: set<string>, a: State, i: nat, b: State, j: nat)
    requires HasObjectIdLength(h) && Resolves(a) && Resolves(b)
    requires Verified(h, a) && Covers(h, hashed, a) && 0 < i < |a.versions|
    requires Verified(h, b) && Covers(h, hashed, b) && 0 < j < |b.versions|
    requires Agree(a, i, b, j)
    ensures a.versions[i - 1].objectId == b.versions[j - 1].objectId
  {
    hide Verified, Covers, HasObjectIdLength, HashObject, Frame, CanonicalVersion, CanonicalDiff, SnapshotFrames, Snap;
    CheckedFacts(h, hashed, a, i);
    CheckedFacts(h, hashed, b, j);
  }

  lemma LengthsAgree(h: Hash, hashed: set<string>, a: State, i: nat, b: State, j: nat)
    requires HasObjectIdLength(h) && Resolves(a) && Resolves(b)
    requires Verified(h, a) && Covers(h, hashed, a) && 0 < i < |a.versions|
    requires Verified(h, b) && Covers(h, hashed, b) && 0 < j < |b.versions|
    ensures EquallyLong(a, i, b, j)
  {
    hide Verified, Covers, HasObjectIdLength, HashObject, Frame, CanonicalVersion, CanonicalDiff, SnapshotFrames, Snap;
    CheckedFacts(h, hashed, a, i);
    CheckedFacts(h, hashed, b, j);
    CheckedFacts(h, hashed, a, i - 1);
    CheckedFacts(h, hashed, b, j - 1);
  }

  /** If both histories pass the check, the newest version id determines every version with its snapshot and its diff, as
      far back as the shorter history goes; its oldest version exactly if the two lengths agree. */
  lemma NewestIdStandsForHistory(h: Hash, hashed: set<string>, a: State, b: State)
    requires Comparable(h, hashed, a, b)
    ensures 0 < |a.versions| <= |b.versions| <= 100
    ensures Resolves(a) && Resolves(b)
    ensures var cut := |b.versions| - |a.versions|;
            && (forall i, j :: 0 < i < |a.versions| && j == cut + i ==> Agree(a, i, b, j))
            && (Agree(a, 0, b, cut) <==> EquallyLong(a, 0, b, cut))
  {
    hide Verified, Covers, CollisionFree, HasObjectIdLength, Resolves, Agree, EquallyLong;
    AtMostAHundred(h, b);
    SameIds(h, hashed, a, b, 0);
    SameIdAgrees(h, hashed, a, 0, b, |b.versions| - |a.versions|);
    forall i, j | 0 < i < |a.versions| && j == |b.versions| - |a.versions| + i ensures Agree(a, i, b, j) {
      SameIds(h, hashed, a, b, i);
    }
  }

  lemma AtMostAHundred(h: Hash, st: State)
    requires Verified(h, st)
    ensures |st.versions| <= 100
  {
  }

  /** Equally many versions: then all but the number of pruned versions is the same, exactly if the two lengths agree. */
  lemma SameNewestIdSameHistory(h: Hash, hashed: set<string>, a: State, b: State)
    requires Comparable(h, hashed, a, b) && |a.versions| == |b.versions|
    ensures Resolves(a) && Resolves(b)
    ensures a == b.(prunedVersionCount := a.prunedVersionCount) <==> EquallyLong(a, 0, b, 0)
  {
    hide Verified, Covers, CollisionFree, HasObjectIdLength, Resolves, EquallyLong;
    NewestIdStandsForHistory(h, hashed, a, b);
    if EquallyLong(a, 0, b, 0) {
      forall i | 0 <= i < |a.versions| ensures Agree(a, i, b, i) {}
      hide Agree;
      AllAgree(h, a, b);
    }
  }

  /** Nothing is stored that no version refers to. */
  lemma AllAgree(h: Hash, a: State, b: State)
    requires Verified(h, a) && Verified(h, b) && 0 < |a.versions| == |b.versions|
    requires Resolves(a) && Resolves(b) && forall i :: 0 <= i < |a.versions| ==> Agree(a, i, b, i)
    ensures a == b.(prunedVersionCount := a.prunedVersionCount)
  {
    hide VersionChecks, SnapshotChecks, DiffChecks;
    assert forall i :: 0 <= i < |a.versions| ==> Agree(a, i, b, i) && a.versions[i] == b.versions[i];
    assert a.versions == b.versions;
    forall k | k in a.snapshots || k in b.snapshots
      ensures k in a.snapshots && k in b.snapshots && a.snapshots[k] == b.snapshots[k]
    {
      var i := if k in a.snapshots then SnapshotHasVersion(h, a, k) else SnapshotHasVersion(h, b, k);
      assert Agree(a, i, b, i);
    }
    forall k | k in a.diffs || k in b.diffs ensures k in a.diffs && k in b.diffs && a.diffs[k] == b.diffs[k] {
      var i := if k in a.diffs then DiffHasVersion(h, a, k) else DiffHasVersion(h, b, k);
      assert Agree(a, i, b, i);
    }
    BoundaryIsParent(h, a);
    BoundaryIsParent(h, b);
  }

  ghost function SnapshotHasVersion(h: Hash, st: State, k: string): (i: nat)
    requires Verified(h, st) && k in st.snapshots
    ensures i < |st.versions| && st.versions[i].snapshotObjectId == k
  {
    assert SnapshotChecks(h, st, k);
    var i :| 0 <= i < |st.versions| && st.versions[i].snapshotObjectId == k;
    i
  }

  ghost function DiffHasVersion(h: Hash, st: State, k: string): (i: nat)
    requires Verified(h, st) && k in st.diffs
    ensures i < |st.versions| && st.versions[i].diffObjectId == k
  {
    assert DiffChecks(h, st, k);
    var i :| 0 <= i < |st.versions| && st.versions[i].diffObjectId == k;
    i
  }

  lemma BoundaryIsParent(h: Hash, st: State)
    requires Verified(h, st) && st.versions != []
    ensures st.versions[0].parentObjectId == st.shallowBoundaryParentObjectId
  {
    hide SnapshotChecks, DiffChecks, CanonicalVersion, HashObject, DiffLeadsTo;
    assert VersionChecks(h, st, 0);
  }

  /** A whole history is determined by its newest id: the other one cannot even be longer, or pruned. */
  lemma WholeHistoryIsDetermined(h: Hash, hashed: set<string>, a: State, b: State)
    requires Comparable(h, hashed, a, b) && a.prunedVersionCount == 0
    ensures a == b
  {
    hide Verified, Covers, CollisionFree, HasObjectIdLength, HashObject, Frame, CanonicalDiff, SnapshotFrames, Snap;
    var cut := |b.versions| - |a.versions|;
    SameIds(h, hashed, a, b, 0);
    CheckedFacts(h, hashed, a, 0);
    CheckedFacts(h, hashed, b, cut);
    var v, w := a.versions[0], b.versions[cut];
    SameIdSamePayload(h, hashed, "commit", CanonicalVersion(v), CanonicalVersion(w));
    CanonicalVersionIsInjective(v, w);
    if cut > 0 { CheckedFacts(h, hashed, b, cut - 1); }
    assert cut == 0;
    BoundaryIsEmpty(h, b);
    SameNewestIdSameHistory(h, hashed, a, b);
  }

  lemma BoundaryIsEmpty(h: Hash, st: State)
    requires Verified(h, st)
    ensures st.prunedVersionCount == 0 <==> st.shallowBoundaryParentObjectId == ""
  {
  }

  // ---------------------------------------------------------------- the oldest version of a pruned history

  /** The commit lines of a version with neither label nor time, behind a line feed and without the last one. */
  function BareLines(diff: string): string { "\ndiff " + (diff + "\ncreated 0:\nlabel 0:") }

  function Labelled(snapshot: string, diff: string): Version {
    Version("", "X", snapshot, diff, BareLines(diff), "")
  }

  /** The same text with the label counted to the parent. */
  function Unlabelled(snapshot: string, diff: string): Version {
    Version("", "X" + (("\ndiff " + (diff + "\ncreated 0:\nlabel ")) + (ToText(|BareLines(diff)|) + ":")), snapshot, diff, "", "")
  }

  lemma LinesOf(v: Version)
    requires v.createdAtUtc == ""
    ensures "\n" + CommitLines(v) == ("\ndiff " + (v.diffObjectId + "\ncreated 0:\nlabel ")) + (LengthPrefixed(v.versionLabel) + "\n")
  {
    var rest := LengthPrefixed(v.versionLabel) + "\n";
    assert LengthPrefixed("") == "0:";
    assert "\ncreated " + ("0:" + ("\nlabel " + rest)) == "\ncreated 0:\nlabel " + rest;
    assert "\n" + ("diff " + (v.diffObjectId + ("\ncreated 0:\nlabel " + rest)))
        == "\ndiff " + (v.diffObjectId + ("\ncreated 0:\nlabel " + rest));
    Regrouped(v.diffObjectId, "\ncreated 0:\nlabel ", rest);
    Regrouped("\ndiff ", v.diffObjectId + "\ncreated 0:\nlabel ", rest);
  }

  lemma BehindParent(v: Version)
    requires v.parentObjectId != ""
    ensures ParentLine(v) + CommitLines(v) == "parent " + (v.parentObjectId + ("\n" + CommitLines(v)))
  {
    var rest := CommitLines(v);
    Regrouped("parent ", v.parentObjectId + "\n", rest);
    Regrouped(v.parentObjectId, "\n", rest);
  }

  lemma BareLinesAre(diff: string)
    ensures BareLines(diff) == ("\ndiff " + (diff + "\ncreated 0:\nlabel ")) + "0:"
  {
    assert "\ncreated 0:\nlabel 0:" == "\ncreated 0:\nlabel " + "0:";
    Regrouped(diff, "\ncreated 0:\nlabel ", "0:");
    Regrouped("\ndiff ", diff + "\ncreated 0:\nlabel ", "0:");
  }

  /** "X", lines, count, lines, grouped in two ways. */
  lemma TwoGroupings(x: string, a: string, n: string, bare: string)
    requires bare == a + "0:"
    ensures x + (a + ((n + bare) + "\n")) == (x + (a + n)) + (a + ("0:" + "\n"))
  {
    var end := a + ("0:" + "\n");
    Regrouped(a, "0:", "\n");
    assert (n + bare) + "\n" == n + end by { Regrouped(n, bare, "\n"); }
    Regrouped(a, n, end);
    Regrouped(x, a + n, end);
  }

  lemma SamePayload(snapshot: string, diff: string)
    ensures CanonicalVersion(Labelled(snapshot, diff)) == CanonicalVersion(Unlabelled(snapshot, diff))
  {
    hide ToText, CommitLines, ParentLine, LengthPrefixed, BareLines;
    var v, w := Labelled(snapshot, diff), Unlabelled(snapshot, diff);
    var a, n := "\ndiff " + (diff + "\ncreated 0:\nlabel "), ToText(|BareLines(diff)|) + ":";
    LinesOf(v);
    LinesOf(w);
    BehindParent(v);
    BehindParent(w);
    BareLinesAre(diff);
    PrefixedLabels(diff);
    TwoGroupings("X", a, n, BareLines(diff));
  }

  lemma PrefixedLabels(diff: string)
    ensures LengthPrefixed(BareLines(diff)) == (ToText(|BareLines(diff)|) + ":") + BareLines(diff)
    ensures LengthPrefixed("") == "0:"
  {
    hide BareLines;
    Regrouped(ToText(|BareLines(diff)|), ":", BareLines(diff));
    assert ToText(0) == "0";
  }

  /** A history of which one version without content is left. */
  function OneLeft(h: Hash, v: Version): State {
    var s, d := EmptySnapshot(h), MakeDiff(h, EmptySnapshot(h), EmptySnapshot(h));
    State([v.(objectId := HashObject(h, "commit", CanonicalVersion(v)))], map[s.objectId := s], map[d.objectId := d], 1,
          v.parentObjectId)
  }

  lemma OneLeftIsVerified(h: Hash, v: Version)
    requires v.parentObjectId != ""
    requires v.snapshotObjectId == EmptySnapshot(h).objectId
    requires v.diffObjectId == MakeDiff(h, EmptySnapshot(h), EmptySnapshot(h)).objectId
    ensures Verified(h, OneLeft(h, v))
    ensures CanonicalVersion(OneLeft(h, v).versions[0]) == CanonicalVersion(v)
  {
    hide HashObject, CanonicalHeader, MakeTextDiff, LengthPrefixed, CanonicalTextDiff, DiffLeadsTo;
    EmptyMatches(h);
    DiffPayload(h, NOTHING, NOTHING);
    var st := OneLeft(h, v);
    assert st.versions[0] in st.versions;
  }

  /** The lengths are needed: nothing checks the boundary of a pruned history by itself, and with boundaries of different
      length two histories pass that differ in a label and hash the same payloads. */
  lemma BoundaryLengthCounts(h: Hash)
    ensures var s, d := EmptySnapshot(h).objectId, MakeDiff(h, EmptySnapshot(h), EmptySnapshot(h)).objectId;
            var a, b := OneLeft(h, Labelled(s, d)), OneLeft(h, Unlabelled(s, d));
            && Verified(h, a) && Verified(h, b) && Last(a.versions).objectId == Last(b.versions).objectId
            && a.snapshots == b.snapshots && a.diffs == b.diffs
            && CanonicalVersion(Last(a.versions)) == CanonicalVersion(Last(b.versions))
            && Last(a.versions).versionLabel != Last(b.versions).versionLabel == ""
  {
    hide EmptySnapshot, MakeDiff, CanonicalVersion, ToText, Verified;
    var s, d := EmptySnapshot(h).objectId, MakeDiff(h, EmptySnapshot(h), EmptySnapshot(h)).objectId;
    OneLeftIsVerified(h, Labelled(s, d));
    OneLeftIsVerified(h, Unlabelled(s, d));
    SamePayload(s, d);
  }

  // ---------------------------------------------------------------- what a recorded version carries

  /** One version for each call, in order: its label, its time and its content are the arguments of that call. */
  ghost predicate Carries(h: Hash, v: Version, c: Content, e: Entry) {
    && v.versionLabel == e.versionLabel
    && v.createdAtUtc == (if e.createdAtUtc != "" then e.createdAtUtc else e.now)
    && c.metadata == e.metadata && c.html == e.html
    && v.snapshotObjectId == MakeSnapshot(h, e.metadata, e.html).objectId
  }

  lemma StepCarries(h: Hash, t: Trace, e: Entry)
    requires |t.contents| == |t.issued|
    ensures var next, n := Step(h, t, e), |t.issued|;
            || next == t
            || (&& |next.issued| == n + 1 && next.issued[..n] == t.issued && next.contents[..n] == t.contents
                && Carries(h, next.issued[n], next.contents[n], e))
  {
    hide MakeDiff, MakeSnapshot, CanonicalVersion, HashObject, Pruned, CallFrames;
  }

  lemma {:induction false} IssuedCarry(h: Hash, entries: seq<Entry>, i: nat)
    requires HasObjectIdLength(h) && CollisionFree(h, Run(h, entries).hashed) && AllStorable(entries)
    requires i < |Run(h, entries).issued|
    ensures i < |entries| && Carries(h, Run(h, entries).issued[i], Run(h, entries).contents[i], entries[i])
    decreases |entries|
  {
    hide Carries, Step, Good, Storable, HasObjectIdLength;
    if entries != [] {
      var n := |entries| - 1;
      var front, e := entries[..n], entries[n];
      assert Run(h, entries) == Step(h, Run(h, front), e);
      HashedGrows(h, Run(h, front), e);
      RunIsGood(h, front);
      RunIsGood(h, entries);
      StepCarries(h, Run(h, front), e);
      if i < |Run(h, front).issued| {
        IssuedCarry(h, front, i);
        assert Run(h, entries).issued[i] == Run(h, front).issued[i];
      }
    }
  }

  lemma HashedGrows(h: Hash, t: Trace, e: Entry)
    requires |t.contents| == |t.issued|
    ensures t.hashed <= Step(h, t, e).hashed
  {
    hide Recorded, CallFrames;
  }

  /** Every version that a run keeps carries the label, the time and the content of its own call, and no call but the
      oldest ones is missing. */
  lemma EveryRunKeepsItsCalls(h: Hash, entries: seq<Entry>, i: nat)
    requires HasObjectIdLength(h) && CollisionFree(h, Run(h, entries).hashed) && AllStorable(entries)
    requires i < |Run(h, entries).state.versions|
    ensures var st := Run(h, entries).state;
            && st.prunedVersionCount + i < |entries|
            && var v, e := st.versions[i], entries[st.prunedVersionCount + i];
            && v.versionLabel == e.versionLabel
            && v.createdAtUtc == (if e.createdAtUtc != "" then e.createdAtUtc else e.now)
            && Resolves(st)
            && Replay(h, st, i) == Some(MakeSnapshot(h, e.metadata, e.html))
  {
    hide Verified, Replay, MakeSnapshot, Resolves, CollisionFree, HasObjectIdLength, Storable, Run;
    var t := Run(h, entries);
    EveryRunVerifies(h, entries);
    EveryRunReplays(h, entries, i);
    IssuedCarry(h, entries, t.state.prunedVersionCount + i);
    assert t.state.versions[i] == t.issued[t.state.prunedVersionCount + i];
  }

  // ---------------------------------------------------------------- what a diff applies to

  /** The snapshot says of itself what its content says, or has no id yet. */
  predicate IsGenuine(h: Hash, s: Snapshot) { s.objectId == "" || Snap(h, ContentOf(s)) == s }

  /** A diff applies exactly to the genuine snapshots of the content with the id of its base from which its texts lead to a
      content with the id of its target, and the result is the snapshot of that content. */
  lemma AppliesExactly(h: Hash, d: Diff, base: Snapshot, target: Snapshot)
    ensures ApplyDiff(h, d, base) == Some(target)
            <==> && IsGenuine(h, base) && target == Snap(h, ContentOf(target))
                 && Snap(h, ContentOf(base)).objectId == d.baseSnapshotObjectId && target.objectId == d.targetSnapshotObjectId
                 && d.body.Apply(base.bodyHtml) == Some(target.bodyHtml)
                 && var header := d.header.Apply(CanonicalHeader(base.headerMetadata));
                    header.Some? && ParseCanonicalHeader(header.value) == Some(target.headerMetadata)
  {
    hide HashObject, CanonicalHeader, ParseCanonicalHeader, CanonicalTree;
  }

  /** Without a collision it applies to one content only. */
  lemma OneBaseOnly(h: Hash, hashed: set<string>, d: Diff, a: Snapshot, b: Snapshot)
    requires HasObjectIdLength(h) && CollisionFree(h, hashed)
    requires SnapshotFrames(h, ContentOf(a)) <= hashed && SnapshotFrames(h, ContentOf(b)) <= hashed
    requires ApplyDiff(h, d, a).Some? && ApplyDiff(h, d, b).Some?
    ensures ContentOf(a) == ContentOf(b) && ApplyDiff(h, d, a) == ApplyDiff(h, d, b)
  {
    hide ApplyDiff, Snap, SnapshotFrames, CollisionFree, HasObjectIdLength, CanonicalHeader, ParseCanonicalHeader;
    AppliesExactly(h, d, a, ApplyDiff(h, d, a).value);
    AppliesExactly(h, d, b, ApplyDiff(h, d, b).value);
    SnapshotIdsIdentifyContent(h, hashed, ContentOf(a), ContentOf(b));
  }
}
