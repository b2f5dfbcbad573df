/** Exactly which texts the parser of canonical headers accepts, and as what. */
module HeaderGrammar {
  import opened Wrappers
  import opened Decimal
  import opened Canonical

  /** An entry as it is written, with the digits of its two sizes. */
  datatype Entry = Entry(nameSize: string, name: string, valueSize: string, value: string)

  /** Digits, leading zeros included, of a number that fits a std::size_t. */
  predicate IsSize(text: string, n: nat) { text != "" && AllDigits(text) && Value(text) == n <= SIZE_MAX }

  function PrefixedText(size: string, value: string, rest: string): string { size + ([':'] + (value + rest)) }

  function Lines(es: seq<Entry>): string {
    if es == [] then ""
    else PrefixedText(es[0].nameSize, es[0].name, PrefixedText(es[0].valueSize, es[0].value, ['\n'] + Lines(es[1..])))
  }

  predicate IsEntry(e: Entry) { IsSize(e.nameSize, |e.name|) && IsSize(e.valueSize, |e.value|) }

  ghost predicate AreEntries(es: seq<Entry>) {
    && (forall k :: 0 <= k < |es| ==> IsEntry(es[k]))
    && forall j, k :: 0 <= j < k < |es| ==> es[j].name != es[k].name
  }

  /** The number of entries, a line feed, and the entries; no name twice, and nothing else. */
  ghost predicate IsHeader(source: string, count: string, es: seq<Entry>) {
    IsSize(count, |es|) && AreEntries(es) && source == count + (['\n'] + Lines(es))
  }

  ghost predicate HoldsExactly(m: Metadata, es: seq<Entry>) {
    && (forall k :: 0 <= k < |es| ==> es[k].name in m && m[es[k].name] == es[k].value)
    && forall name :: name in m ==> exists k :: 0 <= k < |es| && es[k].name == name
  }

  // ---------------------------------------------------------------- sizes

  lemma ReadSizeOfText(source: string, offset: nat, text: string, n: nat, sep: char, rest: string)
    requires IsSize(text, n) && !IsDigit(sep) && offset <= |source| && source[offset..] == text + ([sep] + rest)
    ensures ReadSize(source, offset, sep) == Some((n, offset + |text| + 1)) && source[offset + |text| + 1..] == rest
  {
    var at, tail := offset + |text|, source[offset..];
    assert forall i :: offset <= i < at ==> source[i] == tail[i - offset] == text[i - offset];
    assert source[at] == tail[|text|] == sep;
    FirstOccurrence(source, sep, offset, at);
    assert source[offset..at] == text;
    assert source[at + 1..] == tail[|text| + 1..] == rest;
  }

  lemma SizeIsText(source: string, offset: nat, sep: char) returns (text: string)
    requires offset <= |source| && ReadSize(source, offset, sep).Some?
    ensures var (n, after) := ReadSize(source, offset, sep).value;
            IsSize(text, n) && source[offset..] == text + ([sep] + source[after..])
  {
    var end := FindChar(source, sep, offset).value;
    text := source[offset..end];
    assert source[offset..] == text + source[end..] && source[end..] == [sep] + source[end + 1..];
  }

  lemma ReadPrefixedOfText(source: string, offset: nat, size: string, value: string, rest: string)
    requires IsSize(size, |value|) && offset <= |source| && source[offset..] == PrefixedText(size, value, rest)
    ensures ReadPrefixed(source, offset) == Some((value, offset + |size| + 1 + |value|))
    ensures source[offset + |size| + 1 + |value|..] == rest
  {
    hide ReadSize;
    ReadSizeOfText(source, offset, size, |value|, ':', value + rest);
    var begin := offset + |size| + 1;
    assert source[begin..][..|value|] == value && source[begin..][|value|..] == rest;
    assert source[begin..begin + |value|] == source[begin..][..|value|];
  }

  lemma PrefixedIsText(source: string, offset: nat) returns (size: string)
    requires offset <= |source| && ReadPrefixed(source, offset).Some?
    ensures var (value, after) := ReadPrefixed(source, offset).value;
            IsSize(size, |value|) && source[offset..] == PrefixedText(size, value, source[after..])
  {
    hide ReadSize;
    size := SizeIsText(source, offset, ':');
    var (n, begin) := ReadSize(source, offset, ':').value;
    assert source[begin..] == source[begin..begin + n] + source[begin + n..];
  }

  // ---------------------------------------------------------------- entries

  /** The entries still to come fit those read. */
  ghost predicate AreNew(es: seq<Entry>, m: Metadata) { AreEntries(es) && forall k :: 0 <= k < |es| ==> es[k].name !in m }

  function Read(es: seq<Entry>, m: Metadata): Metadata
    decreases |es|
  {
    if es == [] then m else Read(es[1..], m[es[0].name := es[0].value])
  }

  lemma OneFewer(es: seq<Entry>, m: Metadata)
    requires es != []
    ensures AreNew(es, m) <==> IsEntry(es[0]) && es[0].name !in m && AreNew(es[1..], m[es[0].name := es[0].value])
  {
    hide IsEntry;
    var rest := es[1..];
    assert forall k :: 0 < k < |es| ==> es[k] == rest[k - 1];
    if AreNew(es, m) {
      assert forall k :: 0 <= k < |rest| ==> rest[k] == es[k + 1];
    }
  }

  function EntryText(e: Entry, rest: string): string {
    PrefixedText(e.nameSize, e.name, PrefixedText(e.valueSize, e.value, ['\n'] + rest))
  }

  /** One turn of the entry loop over one entry. */
  lemma ParseEntry(source: string, offset: nat, e: Entry, rest: string, count: nat, m: Metadata) returns (next: nat)
    requires offset <= |source| && source[offset..] == EntryText(e, rest) && IsEntry(e) && count > 0 && e.name !in m
    ensures next <= |source| && source[next..] == rest
    ensures ParseEntries(source, offset, count, m) == ParseEntries(source, next, count - 1, m[e.name := e.value])
  {
    hide ReadPrefixed, PrefixedText, IsSize, ParseEntries;
    ReadPrefixedOfText(source, offset, e.nameSize, e.name, PrefixedText(e.valueSize, e.value, ['\n'] + rest));
    var after := offset + |e.nameSize| + 1 + |e.name|;
    ReadPrefixedOfText(source, after, e.valueSize, e.value, ['\n'] + rest);
    var end := after + |e.valueSize| + 1 + |e.value|;
    next := end + 1;
    assert source[end] == source[end..][0] == '\n' && source[next..] == source[end..][1..] == rest;
    EntryRead(source, offset, e.name, after, e.value, end, count, m);
  }

  lemma NoEntries(source: string, offset: nat, m: Metadata)
    requires offset <= |source|
    ensures AreNew([], m) && Lines([]) == ""
    ensures ParseEntries(source, offset, 0, m) == if source[offset..] == "" then Some(m) else None
  {
    hide ReadPrefixed;
  }

  lemma {:induction false} ParseLines(source: string, offset: nat, es: seq<Entry>, m: Metadata)
    requires offset <= |source| && source[offset..] == Lines(es) && AreNew(es, m)
    ensures ParseEntries(source, offset, |es|, m) == Some(Read(es, m))
    decreases |es|
  {
    hide ParseEntries, IsEntry, AreNew;
    if es == [] {
      NoEntries(source, offset, m);
    } else {
      OneFewer(es, m);
      assert Lines(es) == EntryText(es[0], Lines(es[1..]));
      hide Lines, EntryText;
      var next := ParseEntry(source, offset, es[0], Lines(es[1..]), |es|, m);
      ParseLines(source, next, es[1..], m[es[0].name := es[0].value]);
    }
  }

  lemma EntryIsText(source: string, offset: nat, count: nat, m: Metadata) returns (e: Entry, next: nat)
    requires offset <= |source| && count > 0 && ParseEntries(source, offset, count, m).Some?
    ensures next <= |source| && IsEntry(e) && e.name !in m && source[offset..] == EntryText(e, source[next..])
    ensures ParseEntries(source, offset, count, m) == ParseEntries(source, next, count - 1, m[e.name := e.value])
  {
    hide ReadPrefixed, IsSize, PrefixedText;
    var (name, after) := ReadPrefixed(source, offset).value;
    var (value, end) := ReadPrefixed(source, after).value;
    next := end + 1;
    hide ParseEntries;
    var nameSize := PrefixedIsText(source, offset);
    var valueSize := PrefixedIsText(source, after);
    e := Entry(nameSize, name, valueSize, value);
    assert source[end..] == ['\n'] + source[end + 1..];
    EntryRead(source, offset, name, after, value, end, count, m);
  }

  lemma {:induction false} EntriesAreLines(source: string, offset: nat, count: nat, m: Metadata) returns (es: seq<Entry>)
    requires offset <= |source| && ParseEntries(source, offset, count, m).Some?
    ensures |es| == count && source[offset..] == Lines(es) && AreNew(es, m)
    ensures ParseEntries(source, offset, count, m) == Some(Read(es, m))
    decreases count
  {
    hide ParseEntries, IsEntry, AreNew;
    if count == 0 {
      es := [];
      NoEntries(source, offset, m);
    } else {
      var e, next := EntryIsText(source, offset, count, m);
      var rest := EntriesAreLines(source, next, count - 1, m[e.name := e.value]);
      es := [e] + rest;
      assert es[0] == e && es[1..] == rest;
      OneFewer(es, m);
    }
  }

  lemma {:induction false} ReadHolds(es: seq<Entry>, m: Metadata)
    requires AreNew(es, m)
    ensures var read := Read(es, m);
            && (forall k :: 0 <= k < |es| ==> es[k].name in read && read[es[k].name] == es[k].value)
            && (forall name :: name in m ==> name in read && read[name] == m[name])
            && forall name :: name in read ==> name in m || exists k :: 0 <= k < |es| && es[k].name == name
    decreases |es|
  {
    if es != [] {
      hide IsEntry;
      var rest, more := es[1..], m[es[0].name := es[0].value];
      OneFewer(es, m);
      ReadHolds(rest, more);
      assert forall k :: 0 < k < |es| ==> es[k] == rest[k - 1];
      forall name | name in Read(es, m) && name !in m ensures exists k :: 0 <= k < |es| && es[k].name == name {
        if name != es[0].name {
          var k :| 0 <= k < |rest| && rest[k].name == name;
          assert es[k + 1].name == name;
        }
      }
    }
  }

  /** A text is accepted exactly when it is a header, and then the result holds exactly its entries. */
  lemma AcceptsExactlyHeaders(source: string)
    ensures ParseCanonicalHeader(source).Some? <==> exists count, es :: IsHeader(source, count, es)
    ensures forall count, es :: IsHeader(source, count, es) ==>
              ParseCanonicalHeader(source).Some? && HoldsExactly(ParseCanonicalHeader(source).value, es)
  {
    hide ReadSize, ParseEntries, Lines, IsSize, AreEntries;
    if ParseCanonicalHeader(source).Some? {
      var count := SizeIsText(source, 0, '\n');
      var (n, offset) := ReadSize(source, 0, '\n').value;
      var es := EntriesAreLines(source, offset, n, map[]);
      assert source[0..] == source;
      assert IsHeader(source, count, es);
    }
    forall count, es | IsHeader(source, count, es)
      ensures ParseCanonicalHeader(source).Some? && HoldsExactly(ParseCanonicalHeader(source).value, es)
    {
      assert source[0..] == source;
      ReadSizeOfText(source, 0, count, |es|, '\n', Lines(es));
      ParseLines(source, |count| + 1, es, map[]);
      ReadHolds(es, map[]);
    }
  }
}
