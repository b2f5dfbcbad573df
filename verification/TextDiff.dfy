/** Prefix/suffix byte diffs (ThinkingSpaceTextDiff). */
module TextDiff {
  import opened Wrappers
  import opened Decimal

  datatype TextDiff = TextDiff(
    commonPrefixBytes: nat,
    commonSuffixBytes: nat,
    removedText: string,
    insertedText: string)
  {
    predicate Empty() { removedText == "" && insertedText == "" }

    /** ThinkingSpaceTextDiff::apply. */
    function Apply(base: string): Option<string> {
      if commonPrefixBytes > |base| || commonSuffixBytes > |base| - commonPrefixBytes then None
      else
        var removedLength := |base| - commonPrefixBytes - commonSuffixBytes;
        if removedLength != |removedText|
           || base[commonPrefixBytes..commonPrefixBytes + removedLength] != removedText then None
        else if |insertedText| > SIZE_MAX - commonPrefixBytes - commonSuffixBytes then None
        else Some(base[..commonPrefixBytes] + insertedText + base[|base| - commonSuffixBytes..])
    }
  }

  /** `n` is the length of the longest common prefix. */
  ghost predicate IsCommonPrefix(a: string, b: string, n: nat) {
    && n <= |a| && n <= |b|
    && a[..n] == b[..n]
    && (n < |a| && n < |b| ==> a[n] != b[n])
  }

  /** `n` is the length of the longest common suffix of at most `limit` bytes. */
  ghost predicate IsCommonSuffix(a: string, b: string, limit: nat, n: nat) {
    && n <= limit && n <= |a| && n <= |b|
    && a[|a| - n..] == b[|b| - n..]
    && (n < limit && n < |a| && n < |b| ==> a[|a| - 1 - n] != b[|b| - 1 - n])
  }

  function CommonPrefix(a: string, b: string, k: nat := 0): (n: nat)
    requires k <= |a| && k <= |b| && a[..k] == b[..k]
    ensures IsCommonPrefix(a, b, n)
    decreases |a| - k
  {
    if k < |a| && k < |b| && a[k] == b[k] then CommonPrefix(a, b, k + 1) else k
  }

  function CommonSuffix(a: string, b: string, limit: nat, k: nat := 0): (n: nat)
    requires limit <= |a| && limit <= |b| && k <= limit && a[|a| - k..] == b[|b| - k..]
    ensures IsCommonSuffix(a, b, limit, n)
    decreases limit - k
  {
    if k < limit && a[|a| - 1 - k] == b[|b| - 1 - k] then
      CommonSuffix(a, b, limit, k + 1)
    else k
  }

  /** The diff that `makeTextDiff` builds: the longest common prefix, then the longest common suffix
      of what is left. The kept parts never overlap, and the diff is empty exactly for equal texts. */
  function MakeTextDiff(before: string, after: string): (d: TextDiff)
    ensures d.commonPrefixBytes + d.commonSuffixBytes <= Min(|before|, |after|)
    ensures IsCommonPrefix(before, after, d.commonPrefixBytes)
    ensures IsCommonSuffix(before, after, Min(|before|, |after|) - d.commonPrefixBytes, d.commonSuffixBytes)
    ensures d.Empty() <==> before == after
  {
    var p := CommonPrefix(before, after);
    var s := CommonSuffix(before, after, Min(|before|, |after|) - p);
    TextDiff(p, s, before[p..|before| - s], after[p..|after| - s])
  }

  /** The suffix loop of `makeTextDiff`. */
  method ScanSuffix(before: string, after: string, suffixLimit: nat) returns (s: nat)
    requires suffixLimit <= |before| && suffixLimit <= |after|
    ensures s == CommonSuffix(before, after, suffixLimit)
  {
    s := 0;
    while s < suffixLimit && before[|before| - 1 - s] == after[|after| - 1 - s]
      invariant s <= suffixLimit && before[|before| - s..] == after[|after| - s..]
      invariant CommonSuffix(before, after, suffixLimit, s) == CommonSuffix(before, after, suffixLimit)
    {
      s := s + 1;
    }
  }

  /** The prefix loop of `makeTextDiff`. */
  method ScanPrefix(before: string, after: string) returns (p: nat)
    ensures p == CommonPrefix(before, after)
  {
    var sharedLimit := Min(|before|, |after|);
    p := 0;
    while p < sharedLimit && before[p] == after[p]
      invariant p <= sharedLimit && before[..p] == after[..p]
      invariant CommonPrefix(before, after, p) == CommonPrefix(before, after)
    {
      p := p + 1;
    }
  }

  /** `makeTextDiff`: the prefix loop, then the suffix loop. */
  method ComputeTextDiff(before: string, after: string) returns (diff: TextDiff)
    ensures diff == MakeTextDiff(before, after)
  {
    hide CommonPrefix, CommonSuffix;
    var p := ScanPrefix(before, after);
    var s := ScanSuffix(before, after, Min(|before|, |after|) - p);
    diff := TextDiff(p, s, before[p..|before| - s], after[p..|after| - s]);
  }

  /** Applying a diff to the text it was made from gives the text it was made for. */
  lemma ApplyMakeTextDiff(before: string, after: string)
    requires |after| <= SIZE_MAX
    ensures MakeTextDiff(before, after).Apply(before) == Some(after)
  {
    var d := MakeTextDiff(before, after);
    var p, s := d.commonPrefixBytes, d.commonSuffixBytes;
    assert before[p..|before| - s] == d.removedText;
    assert before[..p] == after[..p];
    assert before[|before| - s..] == after[|after| - s..];
    assert after == after[..p] + after[p..|after| - s] + after[|after| - s..];
  }

  /** A diff applies to exactly the texts of the shape prefix + removed + suffix with the recorded
      lengths (and a result that fits in memory), and it exchanges only the middle. */
  lemma AppliesExactlyToShape(d: TextDiff, base: string, result: string)
    ensures d.Apply(base) == Some(result) <==>
            exists prefix: string, suffix: string ::
              && |prefix| == d.commonPrefixBytes && |suffix| == d.commonSuffixBytes
              && base == prefix + d.removedText + suffix
              && result == prefix + d.insertedText + suffix
              && |result| <= SIZE_MAX
  {
    if d.Apply(base) == Some(result) {
      var prefix, suffix := base[..d.commonPrefixBytes], base[|base| - d.commonSuffixBytes..];
      assert base == prefix + d.removedText + suffix;
      assert result == prefix + d.insertedText + suffix;
    }
    if prefix: string, suffix: string :|
      && |prefix| == d.commonPrefixBytes && |suffix| == d.commonSuffixBytes
      && base == prefix + d.removedText + suffix
      && result == prefix + d.insertedText + suffix
      && |result| <= SIZE_MAX
    {
      assert base[..|prefix|] == prefix;
      assert base[|base| - |suffix|..] == suffix;
      assert base[|prefix|..|prefix| + |d.removedText|] == d.removedText;
    }
  }
}
