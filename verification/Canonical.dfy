/** The canonical byte forms that Thinking Space history objects are hashed in. */
module Canonical {
  import opened Wrappers
  import opened Decimal
  import opened TextDiff

  type Metadata = map<string, string>

  datatype Snapshot = Snapshot(
    objectId: string,
    headerObjectId: string,
    bodyObjectId: string,
    headerMetadata: Metadata,
    bodyHtml: string)

  datatype Diff = Diff(
    objectId: string,
    baseSnapshotObjectId: string,
    targetSnapshotObjectId: string,
    header: TextDiff,
    body: TextDiff)

  datatype Version = Version(
    objectId: string,
    parentObjectId: string,
    snapshotObjectId: string,
    diffObjectId: string,
    versionLabel: string,
    createdAtUtc: string)

  // ---------------------------------------------------------------- key order of std::map

  /** std::less<std::string>: byte-wise lexicographic order. */
  predicate Before(a: string, b: string) {
    b != "" && (a == "" || a[0] < b[0] || (a[0] == b[0] && Before(a[1..], b[1..])))
  }

  lemma {:induction false} BeforeIsTotal(a: string, b: string)
    ensures Before(a, b) || Before(b, a) || a == b
    ensures !(Before(a, b) && Before(b, a))
  {
    if a != "" && b != "" {
      BeforeIsTotal(a[1..], b[1..]);
      assert a == [a[0]] + a[1..] && b == [b[0]] + b[1..];
    }
  }

  lemma {:induction false} BeforeIsTransitive(a: string, b: string, c: string)
    requires Before(a, b) && Before(b, c)
    ensures Before(a, c)
  {
    if a != "" && a[0] == b[0] == c[0] {
      BeforeIsTransitive(a[1..], b[1..], c[1..]);
    }
  }

  predicate IsLeast(k: string, keys: set<string>) {
    k in keys && forall j :: j in keys ==> j == k || Before(k, j)
  }

  lemma {:induction false} LeastExists(keys: set<string>)
    requires keys != {}
    ensures exists k :: IsLeast(k, keys)
  {
    var k :| k in keys;
    if keys == {k} {
      assert IsLeast(k, keys);
    } else {
      LeastExists(keys - {k});
      var l :| IsLeast(l, keys - {k});
      BeforeIsTotal(k, l);
      if Before(k, l) {
        forall j | j in keys ensures j == k || Before(k, j) {
          if j != k && j != l { BeforeIsTransitive(k, l, j); }
        }
        assert IsLeast(k, keys);
      } else {
        assert IsLeast(l, keys);
      }
    }
  }

  lemma LeastIsUnique(keys: set<string>)
    ensures forall k, l :: IsLeast(k, keys) && IsLeast(l, keys) ==> k == l
  {
    forall k, l | IsLeast(k, keys) && IsLeast(l, keys) ensures k == l {
      BeforeIsTotal(k, l);
    }
  }

  function Least(keys: set<string>): (k: string)
    requires keys != {}
    ensures IsLeast(k, keys)
  {
    LeastExists(keys);
    LeastIsUnique(keys);
    var k :| k in keys && IsLeast(k, keys);
    k
  }

  /** The iteration order of a std::map with these keys. */
  function SortedKeys(keys: set<string>): (ks: seq<string>)
    ensures |ks| == |keys|
    ensures forall k :: k in ks <==> k in keys
    ensures forall i, j :: 0 <= i < j < |ks| ==> Before(ks[i], ks[j])
    ensures forall i, j :: 0 <= i < j < |ks| ==> ks[i] != ks[j]
  {
    if keys == {} then []
    else
      var k := Least(keys);
      var rest := SortedKeys(keys - {k});
      [k] + rest
  }

  // ---------------------------------------------------------------- header metadata

  function LengthPrefixed(value: string): string {
    ToText(|value|) + (":" + value)
  }

  /** One line per key, in the order of `ks`. */
  function HeaderLines(ks: seq<string>, m: Metadata): string
    requires forall k :: k in ks ==> k in m
  {
    if ks == [] then ""
    else LengthPrefixed(ks[0]) + (LengthPrefixed(m[ks[0]]) + ("\n" + HeaderLines(ks[1..], m)))
  }

  /** canonicalHeader: the entry count, then every entry in key order. */
  function CanonicalHeader(m: Metadata): string {
    ToText(|m|) + ("\n" + HeaderLines(SortedKeys(m.Keys), m))
  }

  /** canonicalHeader as the loop it is. */
  method PrintHeader(m: Metadata) returns (canonical: string)
    ensures canonical == CanonicalHeader(m)
  {
    hide LengthPrefixed, SortedKeys, HeaderLines, CanonicalHeader, ToText;
    var ks := SortedKeys(m.Keys);
    canonical := ToText(|m|) + "\n";
    HeaderStarts(m);
    for i := 0 to |ks|
      invariant canonical + HeaderLines(ks[i..], m) == CanonicalHeader(m)
    {
      HeaderGoesOn(canonical, ks, i, m);
      canonical := canonical + LengthPrefixed(ks[i]) + LengthPrefixed(m[ks[i]]) + "\n";
    }
    HeaderEnds(canonical, ks, m);
  }

  lemma HeaderStarts(m: Metadata)
    ensures (ToText(|m|) + "\n") + HeaderLines(SortedKeys(m.Keys)[0..], m) == CanonicalHeader(m)
  {
    hide HeaderLines, ToText, SortedKeys;
    var ks := SortedKeys(m.Keys);
    assert ks[0..] == ks;
    Regrouped(ToText(|m|), "\n", HeaderLines(ks, m));
  }

  lemma HeaderGoesOn(canonical: string, ks: seq<string>, i: nat, m: Metadata)
    requires i < |ks| && forall k :: k in ks ==> k in m
    ensures canonical + HeaderLines(ks[i..], m)
         == (canonical + LengthPrefixed(ks[i]) + LengthPrefixed(m[ks[i]]) + "\n") + HeaderLines(ks[i + 1..], m)
  {
    hide LengthPrefixed;
    assert ks[i..][0] == ks[i] && ks[i..][1..] == ks[i + 1..];
    Regroup(canonical, LengthPrefixed(ks[i]), LengthPrefixed(m[ks[i]]), "\n", HeaderLines(ks[i + 1..], m));
  }

  lemma HeaderEnds(canonical: string, ks: seq<string>, m: Metadata)
    ensures canonical + HeaderLines(ks[|ks|..], m) == canonical
  {
    assert canonical + "" == canonical;
  }

  lemma Regroup(s: string, a: string, b: string, c: string, rest: string)
    ensures s + (a + (b + (c + rest))) == (s + a + b + c) + rest
  {
    Regrouped(s + a + b, c, rest);
    Regrouped(s + a, b, c + rest);
    Regrouped(s, a, b + (c + rest));
  }

  /** readSize: a non-empty decimal number up to `delimiter`, and the offset after it. */
  function ReadSize(source: string, offset: nat, delimiter: char): (r: Option<(nat, nat)>)
    requires offset <= |source|
    ensures r.Some? ==> offset < r.value.1 <= |source|
  {
    match FindChar(source, delimiter, offset)
    case None => None
    case Some(end) =>
      match ParseSize(source[offset..end])
      case None => None
      case Some(n) => Some((n, end + 1))
  }

  /** A length-prefixed string at `offset`, and the offset after it. */
  function ReadPrefixed(source: string, offset: nat): (r: Option<(string, nat)>)
    requires offset <= |source|
    ensures r.Some? ==> offset < r.value.1 <= |source|
  {
    match ReadSize(source, offset, ':')
    case None => None
    case Some((size, begin)) =>
      if size > |source| - begin then None else Some((source[begin..begin + size], begin + size))
  }

  /** The entry loop of parseCanonicalHeader. */
  function ParseEntries(source: string, offset: nat, count: nat, metadata: Metadata): Option<Metadata>
    requires offset <= |source|
    decreases count
  {
    if count == 0 then
      if offset == |source| then Some(metadata) else None
    else
      match ReadPrefixed(source, offset)
      case None => None
      case Some((name, afterName)) =>
        match ReadPrefixed(source, afterName)
        case None => None
        case Some((value, end)) =>
          if end >= |source| || source[end] != '\n' then None
          else if name in metadata then None
          else ParseEntries(source, end + 1, count - 1, metadata[name := value])
  }

  function ParseCanonicalHeader(source: string): Option<Metadata> {
    match ReadSize(source, 0, '\n')
    case None => None
    case Some((count, offset)) => ParseEntries(source, offset, count, map[])
  }

  /** parseCanonicalHeader as the loop it is. */
  method ParseHeader(source: string) returns (r: Option<Metadata>)
    ensures r == ParseCanonicalHeader(source)
  {
    hide ReadSize, ReadPrefixed;
    var size := ReadSize(source, 0, '\n');
    if size.None? { return None; }
    var entryCount, offset: nat := size.value.0, size.value.1;
    var metadata: Metadata := map[];
    for index := 0 to entryCount
      invariant offset <= |source|
      invariant ParseCanonicalHeader(source) == ParseEntries(source, offset, entryCount - index, metadata)
    {
      var name := ReadPrefixed(source, offset);
      if name.None? { return None; }
      var value := ReadPrefixed(source, name.value.1);
      if value.None? { return None; }
      offset := value.value.1;
      if offset >= |source| || source[offset] != '\n' { return None; }
      offset := offset + 1;
      if name.value.0 in metadata { return None; }
      metadata := metadata[name.value.0 := value.value.0];
    }
    return if offset != |source| then None else Some(metadata);
  }

  lemma ReadSizeOfNumber(source: string, offset: nat, n: nat, sep: string, rest: string)
    requires |sep| == 1 && !IsDigit(sep[0]) && n <= SIZE_MAX
    requires offset <= |source| && source[offset..] == ToText(n) + (sep + rest)
    ensures ReadSize(source, offset, sep[0]) == Some((n, offset + |ToText(n)| + 1))
    ensures source[offset + |ToText(n)| + 1..] == rest
  {
    var text := ToText(n);
    var at := offset + |text|;
    var tail := source[offset..];
    assert forall i :: offset <= i < at ==> source[i] == tail[i - offset] == text[i - offset];
    assert source[at] == tail[|text|] == sep[0];
    FirstOccurrence(source, sep[0], offset, at);
    assert source[offset..at] == text;
    ValueOfText(n);
    assert source[at + 1..] == tail[|text| + 1..] == (sep + rest)[1..] == rest;
  }

  lemma {:induction false} FirstOccurrence(s: string, c: char, from: nat, at: nat)
    requires from <= at < |s| && s[at] == c && forall i :: from <= i < at ==> s[i] != c
    ensures FindChar(s, c, from) == Some(at)
    decreases at - from
  {
    if from < at { FirstOccurrence(s, c, from + 1, at); }
  }

  lemma ReadPrefixedOfValue(source: string, offset: nat, value: string, rest: string)
    requires offset <= |source| <= SIZE_MAX && source[offset..] == LengthPrefixed(value) + rest
    ensures ReadPrefixed(source, offset) == Some((value, offset + |LengthPrefixed(value)|))
    ensures source[offset + |LengthPrefixed(value)|..] == rest
  {
    assert source[offset..] == ToText(|value|) + (":" + (value + rest));
    ReadSizeOfNumber(source, offset, |value|, ":", value + rest);
    var begin := offset + |ToText(|value|)| + 1;
    assert source[begin..begin + |value|] == source[begin..][..|value|] == value;
    assert source[begin + |value|..] == source[begin..][|value|..] == rest;
  }

  /** One turn of the entry loop over one printed entry. */
  lemma ParseOneEntry(
    source: string, offset: nat, name: string, value: string, rest: string, count: nat, read: Metadata)
    returns (next: nat)
    requires offset <= |source| <= SIZE_MAX && count > 0 && name !in read
    requires source[offset..] == LengthPrefixed(name) + (LengthPrefixed(value) + ("\n" + rest))
    ensures next <= |source| && source[next..] == rest
    ensures ParseEntries(source, offset, count, read)
         == ParseEntries(source, next, count - 1, read[name := value])
  {
    hide ReadSize, ReadPrefixed, LengthPrefixed, ParseEntries;
    ReadPrefixedOfValue(source, offset, name, LengthPrefixed(value) + ("\n" + rest));
    var afterName := offset + |LengthPrefixed(name)|;
    ReadPrefixedOfValue(source, afterName, value, "\n" + rest);
    var end := afterName + |LengthPrefixed(value)|;
    next := end + 1;
    assert source[end] == source[end..][0] == '\n';
    assert source[next..] == source[end..][1..] == rest;
    EntryRead(source, offset, name, afterName, value, end, count, read);
  }

  lemma EntryRead(
    source: string, offset: nat, name: string, afterName: nat, value: string, end: nat, count: nat, read: Metadata)
    requires offset <= |source| && count > 0 && name !in read && afterName <= |source|
    requires ReadPrefixed(source, offset) == Some((name, afterName)) && ReadPrefixed(source, afterName) == Some((value, end))
    requires end < |source| && source[end] == '\n'
    ensures ParseEntries(source, offset, count, read) == ParseEntries(source, end + 1, count - 1, read[name := value])
  {
    hide ReadPrefixed;
  }

  /** The entries of `m` under the keys `ks`. */
  ghost function Chosen(ks: seq<string>, m: Metadata): Metadata
    requires forall k :: k in ks ==> k in m
  {
    map k | k in ks :: m[k]
  }

  lemma ChosenStep(ks: seq<string>, m: Metadata, read: Metadata)
    requires ks != [] && (forall k :: k in ks ==> k in m) && ks[0] !in ks[1..]
    ensures read[ks[0] := m[ks[0]]] + Chosen(ks[1..], m) == read + Chosen(ks, m)
  {
    assert forall k :: k in ks <==> k == ks[0] || k in ks[1..];
  }

  lemma KeysOnce(ks: seq<string>, m: Metadata, read: Metadata)
    requires ks != [] && forall k :: k in ks ==> k in m && k !in read
    requires forall i, j :: 0 <= i < j < |ks| ==> ks[i] != ks[j]
    ensures ks[0] !in ks[1..]
    ensures forall k :: k in ks[1..] ==> k in m && k !in read[ks[0] := m[ks[0]]]
    ensures forall i, j :: 0 <= i < j < |ks[1..]| ==> ks[1..][i] != ks[1..][j]
  {
  }

  /** The keys still to be read, each once, when `read` is to become `all`. */
  ghost predicate Remain(ks: seq<string>, m: Metadata, read: Metadata, all: Metadata) {
    && (forall k :: k in ks ==> k in m && k !in read)
    && (forall i, j :: 0 <= i < j < |ks| ==> ks[i] != ks[j])
    && all == read + Chosen(ks, m)
  }

  lemma OneLess(ks: seq<string>, m: Metadata, read: Metadata, all: Metadata)
    requires ks != [] && Remain(ks, m, read, all)
    ensures ks[0] in m && ks[0] !in read && (forall k :: k in ks[1..] ==> k in m)
    ensures Remain(ks[1..], m, read[ks[0] := m[ks[0]]], all)
  {
    hide Chosen;
    KeysOnce(ks, m, read);
    ChosenStep(ks, m, read);
  }

  lemma {:induction false} ParseHeaderLines(
    source: string, offset: nat, ks: seq<string>, m: Metadata, read: Metadata, all: Metadata)
    requires offset <= |source| <= SIZE_MAX && Remain(ks, m, read, all)
    requires source[offset..] == HeaderLines(ks, m)
    ensures ParseEntries(source, offset, |ks|, read) == Some(all)
    decreases |ks|
  {
    if ks == [] {
      assert all == read;
    } else {
      hide LengthPrefixed, ParseEntries, Remain, ToText;
      OneLess(ks, m, read, all);
      var next := ParseOneEntry(source, offset, ks[0], m[ks[0]], HeaderLines(ks[1..], m), |ks|, read);
      ParseHeaderLines(source, next, ks[1..], m, read[ks[0] := m[ks[0]]], all);
    }
  }

  lemma AllRemain(m: Metadata)
    ensures Remain(SortedKeys(m.Keys), m, map[], m)
  {
    hide SortedKeys, Before;
    assert map[] + Chosen(SortedKeys(m.Keys), m) == m;
  }

  lemma ParseHeaderText(source: string, ks: seq<string>, m: Metadata)
    requires |ks| <= |source| <= SIZE_MAX && Remain(ks, m, map[], m)
    requires source[0..] == ToText(|ks|) + ("\n" + HeaderLines(ks, m))
    ensures ParseCanonicalHeader(source) == Some(m)
  {
    assert forall k :: k in ks ==> k in m;
    hide ReadSize, ParseEntries, HeaderLines, Remain, ToText;
    ReadSizeOfNumber(source, 0, |ks|, "\n", HeaderLines(ks, m));
    ParseHeaderLines(source, |ToText(|ks|)| + 1, ks, m, map[], m);
  }

  /** Parsing a canonical header gives back exactly the metadata, whatever bytes it holds, as long
      as the header fits a std::string. */
  lemma HeaderRoundTrip(m: Metadata)
    requires |CanonicalHeader(m)| <= SIZE_MAX
    ensures ParseCanonicalHeader(CanonicalHeader(m)) == Some(m)
  {
    hide CanonicalHeader, ParseCanonicalHeader, HeaderLines, SortedKeys, Remain, ToText, Before;
    HeaderIsText(m);
    AllRemain(m);
    ParseHeaderText(CanonicalHeader(m), SortedKeys(m.Keys), m);
  }

  /** The count that a header starts with, the lines after it, and that the count is no more than the length. */
  lemma HeaderIsText(m: Metadata)
    ensures var ks, source := SortedKeys(m.Keys), CanonicalHeader(m);
            source[0..] == ToText(|m|) + ("\n" + HeaderLines(ks, m)) && |m| == |ks| <= |source|
  {
    hide HeaderLines, SortedKeys, ToText;
    HeaderLinesAreLong(SortedKeys(m.Keys), m);
    Whole(CanonicalHeader(m));
    assert |m| == |m.Keys|;
  }

  lemma Whole(s: string)
    ensures s[0..] == s
  {
  }

  lemma {:induction false} HeaderLinesAreLong(ks: seq<string>, m: Metadata)
    requires forall k :: k in ks ==> k in m
    ensures |HeaderLines(ks, m)| >= |ks|
  {
    if ks != [] { HeaderLinesAreLong(ks[1..], m); }
  }

  // ---------------------------------------------------------------- other canonical forms

  function CanonicalTextDiff(d: TextDiff): string {
    ToText(d.commonPrefixBytes) + ("\n" + (ToText(d.commonSuffixBytes) + ("\n"
    + (LengthPrefixed(d.removedText) + LengthPrefixed(d.insertedText)))))
  }

  /** The payload of a tree object. */
  function CanonicalTree(headerObjectId: string, bodyObjectId: string): string {
    "header " + (headerObjectId + ("\nbody " + (bodyObjectId + "\n")))
  }

  function CanonicalDiff(d: Diff): string {
    "base " + (d.baseSnapshotObjectId + ("\ntarget " + (d.targetSnapshotObjectId
    + ("\nheader " + (LengthPrefixed(CanonicalTextDiff(d.header))
    + ("\nbody " + (LengthPrefixed(CanonicalTextDiff(d.body)) + "\n")))))))
  }

  function CanonicalVersion(v: Version): string {
    "tree " + (v.snapshotObjectId + ("\n" + (ParentLine(v) + CommitLines(v))))
  }

  /** The parent line, which a version without a parent does not have. */
  function ParentLine(v: Version): string {
    if v.parentObjectId != "" then "parent " + (v.parentObjectId + "\n") else ""
  }

  function CommitLines(v: Version): string {
    "diff " + (v.diffObjectId + ("\ncreated " + (LengthPrefixed(v.createdAtUtc)
    + ("\nlabel " + (LengthPrefixed(v.versionLabel) + "\n")))))
  }

  // ---------------------------------------------------------------- injectivity

  lemma LengthPrefixedCancels(a: string, b: string, x: string, y: string)
    requires LengthPrefixed(a) + x == LengthPrefixed(b) + y
    ensures a == b && x == y
  {
    assert LengthPrefixed(a) + x == ToText(|a|) + (":" + (a + x));
    assert LengthPrefixed(b) + y == ToText(|b|) + (":" + (b + y));
    NumberThenCancels(|a|, |b|, ":", a + x, b + y);
    PrefixCancels(a, b, x, y);
  }

  lemma {:induction false} HeaderLinesCancel(ks: seq<string>, m: Metadata, ls: seq<string>, n: Metadata)
    requires (forall k :: k in ks ==> k in m) && (forall l :: l in ls ==> l in n)
    requires |ks| == |ls| && HeaderLines(ks, m) == HeaderLines(ls, n)
    ensures ks == ls && forall k :: k in ks ==> m[k] == n[k]
  {
    if ks != [] {
      var restK, restL := HeaderLines(ks[1..], m), HeaderLines(ls[1..], n);
      LengthPrefixedCancels(ks[0], ls[0],
        LengthPrefixed(m[ks[0]]) + ("\n" + restK), LengthPrefixed(n[ls[0]]) + ("\n" + restL));
      LengthPrefixedCancels(m[ks[0]], n[ls[0]], "\n" + restK, "\n" + restL);
      PrefixCancels("\n", "\n", restK, restL);
      HeaderLinesCancel(ks[1..], m, ls[1..], n);
    }
  }

  /** Different metadata never share a canonical header. */
  lemma CanonicalHeaderIsInjective(m: Metadata, n: Metadata)
    requires CanonicalHeader(m) == CanonicalHeader(n)
    ensures m == n
  {
    var ks, ls := SortedKeys(m.Keys), SortedKeys(n.Keys);
    NumberThenCancels(|m|, |n|, "\n", HeaderLines(ks, m), HeaderLines(ls, n));
    assert |m.Keys| == |m| == |n| == |n.Keys|;
    HeaderLinesCancel(ks, m, ls, n);
    assert m.Keys == n.Keys;
  }

  lemma CanonicalTextDiffIsInjective(d: TextDiff, e: TextDiff)
    requires CanonicalTextDiff(d) == CanonicalTextDiff(e)
    ensures d == e
  {
    var p, q := LengthPrefixed(d.insertedText), LengthPrefixed(e.insertedText);
    var s, t := LengthPrefixed(d.removedText) + p, LengthPrefixed(e.removedText) + q;
    NumberThenCancels(d.commonPrefixBytes, e.commonPrefixBytes, "\n",
      ToText(d.commonSuffixBytes) + ("\n" + s), ToText(e.commonSuffixBytes) + ("\n" + t));
    NumberThenCancels(d.commonSuffixBytes, e.commonSuffixBytes, "\n", s, t);
    LengthPrefixedCancels(d.removedText, e.removedText, p, q);
    assert p + "" == p && q + "" == q;
    LengthPrefixedCancels(d.insertedText, e.insertedText, "", "");
  }

  lemma CanonicalTreeIsInjective(h: string, b: string, h': string, b': string)
    requires |h| == |h'| && CanonicalTree(h, b) == CanonicalTree(h', b')
    ensures h == h' && b == b'
  {
    PrefixCancels("header ", "header ", h + ("\nbody " + (b + "\n")), h' + ("\nbody " + (b' + "\n")));
    PrefixCancels(h, h', "\nbody " + (b + "\n"), "\nbody " + (b' + "\n"));
    PrefixCancels("\nbody ", "\nbody ", b + "\n", b' + "\n");
    assert |b + "\n"| == |b' + "\n"|;
    PrefixCancels(b, b', "\n", "\n");
  }

  /** Two labelled fields of one length each, and what follows them. */
  lemma FieldCancels(name: string, a: string, b: string, x: string, y: string)
    requires |a| == |b| && name + (a + x) == name + (b + y)
    ensures a == b && x == y
  {
    PrefixCancels(name, name, a + x, b + y);
    PrefixCancels(a, b, x, y);
  }

  lemma PrefixedFieldCancels(name: string, a: string, b: string, x: string, y: string)
    requires name + (LengthPrefixed(a) + x) == name + (LengthPrefixed(b) + y)
    ensures a == b && x == y
  {
    PrefixCancels(name, name, LengthPrefixed(a) + x, LengthPrefixed(b) + y);
    LengthPrefixedCancels(a, b, x, y);
  }

  /** A diff payload determines both snapshot ids and both text diffs, ids having one length. */
  lemma CanonicalDiffIsInjective(d: Diff, e: Diff)
    requires |d.baseSnapshotObjectId| == |e.baseSnapshotObjectId|
    requires |d.targetSnapshotObjectId| == |e.targetSnapshotObjectId|
    requires CanonicalDiff(d) == CanonicalDiff(e)
    ensures d.(objectId := e.objectId) == e
  {
    var dh, db := CanonicalTextDiff(d.header), CanonicalTextDiff(d.body);
    var eh, eb := CanonicalTextDiff(e.header), CanonicalTextDiff(e.body);
    var dBody, eBody := "\nbody " + (LengthPrefixed(db) + "\n"), "\nbody " + (LengthPrefixed(eb) + "\n");
    var dHeader, eHeader := "\nheader " + (LengthPrefixed(dh) + dBody), "\nheader " + (LengthPrefixed(eh) + eBody);
    FieldCancels("base ", d.baseSnapshotObjectId, e.baseSnapshotObjectId,
      "\ntarget " + (d.targetSnapshotObjectId + dHeader), "\ntarget " + (e.targetSnapshotObjectId + eHeader));
    FieldCancels("\ntarget ", d.targetSnapshotObjectId, e.targetSnapshotObjectId, dHeader, eHeader);
    PrefixedFieldCancels("\nheader ", dh, eh, dBody, eBody);
    PrefixedFieldCancels("\nbody ", db, eb, "\n", "\n");
    CanonicalTextDiffIsInjective(d.header, e.header);
    CanonicalTextDiffIsInjective(d.body, e.body);
  }

  lemma CommitLinesAreInjective(v: Version, w: Version)
    requires |v.diffObjectId| == |w.diffObjectId| && CommitLines(v) == CommitLines(w)
    ensures v.diffObjectId == w.diffObjectId
    ensures v.createdAtUtc == w.createdAtUtc && v.versionLabel == w.versionLabel
  {
    var vLabel, wLabel := "\nlabel " + (LengthPrefixed(v.versionLabel) + "\n"),
                          "\nlabel " + (LengthPrefixed(w.versionLabel) + "\n");
    FieldCancels("diff ", v.diffObjectId, w.diffObjectId,
      "\ncreated " + (LengthPrefixed(v.createdAtUtc) + vLabel),
      "\ncreated " + (LengthPrefixed(w.createdAtUtc) + wLabel));
    PrefixedFieldCancels("\ncreated ", v.createdAtUtc, w.createdAtUtc, vLabel, wLabel);
    PrefixedFieldCancels("\nlabel ", v.versionLabel, w.versionLabel, "\n", "\n");
  }

  /** A commit payload determines the version, ids having one length; a missing parent is never
      confused with a present one. */
  lemma CanonicalVersionIsInjective(v: Version, w: Version)
    requires |v.snapshotObjectId| == |w.snapshotObjectId| && |v.diffObjectId| == |w.diffObjectId|
    requires v.parentObjectId != "" && w.parentObjectId != "" ==> |v.parentObjectId| == |w.parentObjectId|
    requires CanonicalVersion(v) == CanonicalVersion(w)
    ensures v.(objectId := w.objectId) == w
  {
    var vRest, wRest := ParentLine(v) + CommitLines(v), ParentLine(w) + CommitLines(w);
    FieldCancels("tree ", v.snapshotObjectId, w.snapshotObjectId, "\n" + vRest, "\n" + wRest);
    PrefixCancels("\n", "\n", vRest, wRest);
    assert vRest[0] == if v.parentObjectId != "" then 'p' else 'd';
    assert wRest[0] == if w.parentObjectId != "" then 'p' else 'd';
    PrefixCancels(ParentLine(v), ParentLine(w), CommitLines(v), CommitLines(w));
    if v.parentObjectId != "" {
      FieldCancels("parent ", v.parentObjectId, w.parentObjectId, "\n", "\n");
    }
    CommitLinesAreInjective(v, w);
  }
}
