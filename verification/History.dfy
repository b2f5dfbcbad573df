/** The Thinking Space version history: a content-addressed commit chain of bounded length. */
module History {
  import opened Wrappers
  import opened Decimal
  import opened TextDiff
  import opened Canonical

  /** SHA-256 as printed by the file provider: an arbitrary function here. */
  type Hash = string -> string

  const MAXIMUM_VERSION_COUNT: nat := 100

  datatype Error = PrunedCounterExhausted | HeadSnapshotMissing

  /** The fields of ThinkingSpaceDocumentVersionHistory. */
  datatype State = State(
    versions: seq<Version>,
    snapshots: map<string, Snapshot>,
    diffs: map<string, Diff>,
    prunedVersionCount: nat,
    shallowBoundaryParentObjectId: string)

  const EMPTY_STATE := State([], map[], map[], 0, "")

  // ---------------------------------------------------------------- objects

  function Frame(kind: string, payload: string): string {
    kind + (" " + (ToText(|payload|) + ("\0" + payload)))
  }

  function HashObject(h: Hash, kind: string, payload: string): string { h(Frame(kind, payload)) }

  function MakeSnapshot(h: Hash, metadata: Metadata, html: string): Snapshot {
    var headerId := HashObject(h, "blob", CanonicalHeader(metadata));
    var bodyId := HashObject(h, "blob", html);
    Snapshot(HashObject(h, "tree", CanonicalTree(headerId, bodyId)), headerId, bodyId, metadata, html)
  }

  function EmptySnapshot(h: Hash): Snapshot { MakeSnapshot(h, map[], "") }

  function MakeDiff(h: Hash, base: Snapshot, target: Snapshot): Diff {
    var d := Diff("", base.objectId, target.objectId,
                  MakeTextDiff(CanonicalHeader(base.headerMetadata), CanonicalHeader(target.headerMetadata)),
                  MakeTextDiff(base.bodyHtml, target.bodyHtml));
    d.(objectId := HashObject(h, "diff", CanonicalDiff(d)))
  }

  predicate SnapshotMatchesId(h: Hash, s: Snapshot) {
    var rebuilt := MakeSnapshot(h, s.headerMetadata, s.bodyHtml);
    && rebuilt.objectId == s.objectId
    && rebuilt.headerObjectId == s.headerObjectId
    && rebuilt.bodyObjectId == s.bodyObjectId
  }

  /** ThinkingSpaceDocumentDiff::apply. */
  function ApplyDiff(h: Hash, d: Diff, base: Snapshot): Option<Snapshot> {
    if base.objectId != "" && !SnapshotMatchesId(h, base) then None
    else if MakeSnapshot(h, base.headerMetadata, base.bodyHtml).objectId != d.baseSnapshotObjectId then None
    else
      match (d.header.Apply(CanonicalHeader(base.headerMetadata)), d.body.Apply(base.bodyHtml))
      case (Some(header), Some(body)) =>
        (match ParseCanonicalHeader(header)
         case None => None
         case Some(metadata) =>
           var target := MakeSnapshot(h, metadata, body);
           if target.objectId != d.targetSnapshotObjectId then None else Some(target))
      case _ => None
  }

  // ---------------------------------------------------------------- recording

  /** std::map::try_emplace: the first value under a key stays. */
  function TryEmplace<V>(m: map<string, V>, k: string, v: V): map<string, V> {
    if k in m then m else m[k := v]
  }

  /** What the arguments of one `record` call amount to; `now` is the clock's answer. */
  datatype Entry = Entry(metadata: Metadata, html: string, versionLabel: string, createdAtUtc: string, now: string)

  function Stamp(e: Entry): string { if e.createdAtUtc == "" then e.now else e.createdAtUtc }

  function NewVersion(h: Hash, parent: string, snapshot: string, diff: string, e: Entry): Version {
    var v := Version("", parent, snapshot, diff, e.versionLabel, Stamp(e));
    v.(objectId := HashObject(h, "commit", CanonicalVersion(v)))
  }

  function Last(versions: seq<Version>): Version
    requires versions != []
  {
    versions[|versions| - 1]
  }

  /** The snapshot the next version is diffed against. */
  function BaseForNext(h: Hash, st: State): Option<Snapshot> {
    if st.versions == [] then Some(EmptySnapshot(h))
    else if Last(st.versions).snapshotObjectId in st.snapshots
    then Some(st.snapshots[Last(st.versions).snapshotObjectId])
    else None
  }

  /** `record` before pruning. */
  function Grown(h: Hash, st: State, base: Snapshot, e: Entry): State {
    var target := MakeSnapshot(h, e.metadata, e.html);
    var diff := MakeDiff(h, base, target);
    var parent := if st.versions == [] then "" else Last(st.versions).objectId;
    var version := NewVersion(h, parent, target.objectId, diff.objectId, e);
    st.(versions := st.versions + [version],
        snapshots := TryEmplace(st.snapshots, target.objectId, target),
        diffs := TryEmplace(st.diffs, diff.objectId, diff))
  }

  /** Only the objects that a retained version refers to. */
  function Collected(st: State): State {
    st.(snapshots := map k | k in st.snapshots && (exists v :: v in st.versions && v.snapshotObjectId == k)
                         :: st.snapshots[k],
        diffs := map k | k in st.diffs && (exists v :: v in st.versions && v.diffObjectId == k) :: st.diffs[k])
  }

  /** pruneOldestVersions; the counter is a std::uint64_t. */
  function Pruned(st: State): State {
    if |st.versions| <= MAXIMUM_VERSION_COUNT then st
    else
      var overflow := |st.versions| - MAXIMUM_VERSION_COUNT;
      var kept := st.versions[overflow..];
      Collected(st.(versions := kept,
                    prunedVersionCount := (st.prunedVersionCount + overflow) % (SIZE_MAX + 1),
                    shallowBoundaryParentObjectId := kept[0].parentObjectId))
  }

  lemma PrunedKeepsNewest(st: State)
    requires st.versions != []
    ensures Pruned(st).versions != [] && Last(Pruned(st).versions) == Last(st.versions)
  {
  }

  /** The state after one `record` call, and the version it returns; or what it throws. */
  function Recorded(h: Hash, st: State, e: Entry): Result<(State, Version), Error> {
    if |st.versions| >= MAXIMUM_VERSION_COUNT && st.prunedVersionCount == SIZE_MAX
    then Err(PrunedCounterExhausted)
    else
      match BaseForNext(h, st)
      case None => Err(HeadSnapshotMissing)
      case Some(base) =>
        var grown := Grown(h, st, base, e);
        Ok((Pruned(grown), Last(grown.versions)))
  }

  // ---------------------------------------------------------------- the integrity checker

  /** The base that the checker applies version `i`'s diff to: none for the first version retained
      after pruning. The outer option is None when the base is missing. */
  function CheckedBase(h: Hash, st: State, i: nat): Option<Option<Snapshot>>
    requires i < |st.versions|
  {
    if i > 0 then
      var id := st.versions[i - 1].snapshotObjectId;
      if id in st.snapshots then Some(Some(st.snapshots[id])) else None
    else if st.prunedVersionCount != 0 then Some(None)
    else Some(Some(EmptySnapshot(h)))
  }

  function ExpectedParent(st: State, i: nat): string
    requires i < |st.versions|
  {
    if i > 0 then st.versions[i - 1].objectId
    else if st.prunedVersionCount != 0 then st.shallowBoundaryParentObjectId
    else ""
  }

  predicate DiffLeadsTo(d: Diff, base: Snapshot, target: Snapshot) {
    && d.baseSnapshotObjectId == base.objectId
    && d.header.Apply(CanonicalHeader(base.headerMetadata)) == Some(CanonicalHeader(target.headerMetadata))
    && d.body.Apply(base.bodyHtml) == Some(target.bodyHtml)
  }

  /** What the checker demands of one version. */
  predicate VersionChecks(h: Hash, st: State, i: nat)
    requires i < |st.versions|
  {
    var v := st.versions[i];
    && v.snapshotObjectId in st.snapshots
    && v.diffObjectId in st.diffs
    && st.diffs[v.diffObjectId].targetSnapshotObjectId == st.snapshots[v.snapshotObjectId].objectId
    && v.objectId == HashObject(h, "commit", CanonicalVersion(v))
    && v.parentObjectId == ExpectedParent(st, i)
    && (match CheckedBase(h, st, i)
        case None => false
        case Some(None) => true
        case Some(Some(base)) => DiffLeadsTo(st.diffs[v.diffObjectId], base, st.snapshots[v.snapshotObjectId]))
  }

  predicate SnapshotChecks(h: Hash, st: State, k: string)
    requires k in st.snapshots
  {
    && (exists v :: v in st.versions && v.snapshotObjectId == k)
    && k == st.snapshots[k].objectId
    && SnapshotMatchesId(h, st.snapshots[k])
  }

  predicate DiffChecks(h: Hash, st: State, k: string)
    requires k in st.diffs
  {
    && (exists v :: v in st.versions && v.diffObjectId == k)
    && k == st.diffs[k].objectId
    && st.diffs[k].objectId == HashObject(h, "diff", CanonicalDiff(st.diffs[k]))
  }

  /** verifyIntegrity. */
  predicate Verified(h: Hash, st: State) {
    && |st.versions| <= MAXIMUM_VERSION_COUNT
    && (st.prunedVersionCount == 0 <==> st.shallowBoundaryParentObjectId == "")
    && (forall i :: 0 <= i < |st.versions| ==> VersionChecks(h, st, i))
    && (forall k :: k in st.snapshots ==> SnapshotChecks(h, st, k))
    && (forall k :: k in st.diffs ==> DiffChecks(h, st, k))
  }

  // ---------------------------------------------------------------- the class

  class VersionHistory {
    const hash: Hash
    var versions: seq<Version>
    var snapshots: map<string, Snapshot>
    var diffs: map<string, Diff>
    var prunedVersionCount: nat
    var shallowBoundaryParentObjectId: string

    function View(): State
      reads this
    {
      State(versions, snapshots, diffs, prunedVersionCount, shallowBoundaryParentObjectId)
    }

    constructor (hash: Hash)
      ensures this.hash == hash && View() == EMPTY_STATE
    {
      this.hash := hash;
      versions, snapshots, diffs := [], map[], map[];
      prunedVersionCount, shallowBoundaryParentObjectId := 0, "";
    }

    /** A failed call leaves the history as it was; the memory exhaustion that the original rolls
        back from is not modelled. */
    method Record(metadata: Metadata, html: string, versionLabel: string, createdAtUtc: string, now: string)
      returns (r: Result<Version, Error>)
      modifies this
      ensures match Recorded(hash, old(View()), Entry(metadata, html, versionLabel, createdAtUtc, now))
              case Ok((state, version)) => View() == state && r == Ok(version)
              case Err(error) => View() == old(View()) && r == Err(error)
      ensures r.Ok? ==> r.value.versionLabel == versionLabel
                        && r.value.createdAtUtc == (if createdAtUtc != "" then createdAtUtc else now)
                        && View().versions != [] && Last(View().versions) == r.value
    {
      hide EmptySnapshot, Pruned, Grown;
      if |versions| >= MAXIMUM_VERSION_COUNT && prunedVersionCount == SIZE_MAX {
        return Err(PrunedCounterExhausted);
      }
      var base := EmptySnapshot(hash);
      if versions != [] {
        var head := versions[|versions| - 1];
        if head.snapshotObjectId !in snapshots { return Err(HeadSnapshotMissing); }
        base := snapshots[head.snapshotObjectId];
      }
      var version := Store(base, metadata, html, versionLabel, createdAtUtc, now);
      PrunedKeepsNewest(View());
      PruneOldestVersions();
      return Ok(version);
    }

    /** The middle of `record`: the new objects are built and stored. */
    method Store(base: Snapshot, metadata: Metadata, html: string, versionLabel: string, createdAtUtc: string, now: string)
      returns (version: Version)
      modifies this
      ensures View() == Grown(hash, old(View()), base, Entry(metadata, html, versionLabel, createdAtUtc, now))
      ensures View().versions != [] && version == Last(View().versions)
      ensures version.versionLabel == versionLabel
      ensures version.createdAtUtc == if createdAtUtc != "" then createdAtUtc else now
    {
      hide CanonicalHeader, CanonicalDiff, CanonicalVersion, MakeTextDiff, HashObject;
      var created := if createdAtUtc == "" then now else createdAtUtc;
      var parent := if versions == [] then "" else versions[|versions| - 1].objectId;
      var target := MakeSnapshot(hash, metadata, html);
      var headerDiff := ComputeTextDiff(CanonicalHeader(base.headerMetadata), CanonicalHeader(metadata));
      var bodyDiff := ComputeTextDiff(base.bodyHtml, html);
      var diff := Diff("", base.objectId, target.objectId, headerDiff, bodyDiff);
      diff := diff.(objectId := HashObject(hash, "diff", CanonicalDiff(diff)));
      version := Version("", parent, target.objectId, diff.objectId, versionLabel, created);
      version := version.(objectId := HashObject(hash, "commit", CanonicalVersion(version)));
      snapshots := TryEmplace(snapshots, target.objectId, target);
      diffs := TryEmplace(diffs, diff.objectId, diff);
      versions := versions + [version];
    }

    method PruneOldestVersions()
      modifies this
      ensures View() == Pruned(old(View()))
    {
      hide Collected;
      if |versions| <= MAXIMUM_VERSION_COUNT { return; }
      var overflow := |versions| - MAXIMUM_VERSION_COUNT;
      versions := versions[overflow..];
      prunedVersionCount := (prunedVersionCount + overflow) % (SIZE_MAX + 1);
      shallowBoundaryParentObjectId := versions[0].parentObjectId;
      CollectUnreferencedObjects();
    }

    method CollectUnreferencedObjects()
      modifies this
      ensures View() == Collected(old(View()))
    {
      snapshots := map k | k in snapshots && (exists v :: v in versions && v.snapshotObjectId == k) :: snapshots[k];
      diffs := map k | k in diffs && (exists v :: v in versions && v.diffObjectId == k) :: diffs[k];
    }

    method VerifyIntegrity() returns (ok: bool)
      ensures ok == Verified(hash, View())
    {
      hide VersionChecks, SnapshotChecks, DiffChecks;
      if |versions| > MAXIMUM_VERSION_COUNT { return false; }
      if (prunedVersionCount == 0) != (shallowBoundaryParentObjectId == "") { return false; }
      for index := 0 to |versions|
        invariant forall i :: 0 <= i < index ==> VersionChecks(hash, View(), i)
      {
        var good := CheckVersion(index);
        if !good { return false; }
      }
      var ids := snapshots.Keys;
      while ids != {}
        invariant ids <= snapshots.Keys
        invariant forall k :: k in snapshots && k !in ids ==> SnapshotChecks(hash, View(), k)
      {
        var k :| k in ids;
        if !SnapshotChecks(hash, View(), k) { return false; }
        ids := ids - {k};
      }
      ids := diffs.Keys;
      while ids != {}
        invariant ids <= diffs.Keys
        invariant forall k :: k in diffs && k !in ids ==> DiffChecks(hash, View(), k)
      {
        var k :| k in ids;
        if !DiffChecks(hash, View(), k) { return false; }
        ids := ids - {k};
      }
      return true;
    }

    /** The body of the checker's version loop. */
    method CheckVersion(index: nat) returns (ok: bool)
      requires index < |versions|
      ensures ok == VersionChecks(hash, View(), index)
    {
      var version := versions[index];
      if version.snapshotObjectId !in snapshots || version.diffObjectId !in diffs { return false; }
      var snapshot, diff := snapshots[version.snapshotObjectId], diffs[version.diffObjectId];
      if diff.targetSnapshotObjectId != snapshot.objectId
         || version.objectId != HashObject(hash, "commit", CanonicalVersion(version)) {
        return false;
      }
      var base: Option<Snapshot> := None;
      if index == 0 {
        if prunedVersionCount != 0 {
          if version.parentObjectId != shallowBoundaryParentObjectId { return false; }
        } else {
          if version.parentObjectId != "" { return false; }
          base := Some(EmptySnapshot(hash));
        }
      } else {
        var parent := versions[index - 1];
        if version.parentObjectId != parent.objectId { return false; }
        if parent.snapshotObjectId !in snapshots { return false; }
        base := Some(snapshots[parent.snapshotObjectId]);
      }
      return base.None? || DiffLeadsTo(diff, base.value, snapshot);
    }
  }
}
