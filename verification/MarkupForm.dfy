/** Exactly which files are read as a body and an authorship record. */
module MarkupForm {
  import opened Wrappers
  import opened Base64
  import opened Markup

  predicate AreSpaces(s: string) { forall i :: 0 <= i < |s| ==> s[i] in [' ', '\n', '\r', '\t', 11 as char, 12 as char] }

  /** A file with a record: the comment with the record's canonical Base64, and only white space behind it. */
  function File(body: string, record: Octets, tail: string): string {
    body + ("\n<!--iisacc:authorship:v1:" + (Encode(record) + ("-->" + tail)))
  }

  lemma FileIs(body: string, record: Octets, tail: string)
    ensures File(body, record, tail) == (body + MARKER) + (Encode(record) + (TERMINATOR + tail))
    ensures File(body, record, tail) == body + (MARKER + (Encode(record) + (TERMINATOR + tail)))
  {
    hide Encode;
    assert MARKER == "\n<!--iisacc:authorship:v1:";
    Regrouped(body, MARKER, Encode(record) + (TERMINATOR + tail));
  }

  /** From the record on there is a "-" first at the terminator, and no "<" at all. */
  lemma BehindMarker(prefix: string, record: Octets, tail: string, k: nat)
    requires AreSpaces(tail) && |prefix| <= k < |prefix| + |Encode(record)| + 3 + |tail|
    ensures var c := (prefix + (Encode(record) + (TERMINATOR + tail)))[k];
            c != '<' && (k < |prefix| + |Encode(record)| ==> c != '-')
  {
    hide Encode;
    var text, end := Encode(record), |prefix| + |Encode(record)|;
    if k < end {
      EncodedCharacters(record, k - |prefix|);
    } else if k >= end + 3 {
      assert (prefix + (text + (TERMINATOR + tail)))[k] == tail[k - end - 3];
    }
  }

  lemma FoundBehindMarker(prefix: string, record: Octets, tail: string)
    requires AreSpaces(tail)
    ensures var bytes := prefix + (Encode(record) + (TERMINATOR + tail));
            && Find(bytes, TERMINATOR, |prefix|) == Some(|prefix| + |Encode(record)|)
            && Find(bytes, TOKEN, |prefix|).None?
  {
    hide Encode, IsAt, Find, AreSpaces;
    var text := Encode(record);
    var bytes, end := prefix + (text + (TERMINATOR + tail)), |prefix| + |text|;
    forall k: nat | |prefix| <= k < end ensures !IsAt(bytes, TERMINATOR, k) {
      BehindMarker(prefix, record, tail, k);
      NoWordWithoutItsStart(bytes, TERMINATOR, k);
    }
    Stands(prefix + text, TERMINATOR, tail);
    Regrouped(prefix, text, TERMINATOR + tail);
    forall k: nat | |prefix| <= k ensures !IsAt(bytes, TOKEN, k) {
      if k < |bytes| { BehindMarker(prefix, record, tail, k); }
      NoWordWithoutItsStart(bytes, TOKEN, k);
    }
  }

  /** The body is read up to the comment, which is the whole rest of the file. */
  lemma FileIsRead<A>(authors: Authors<A>, body: string, record: Octets, tail: string)
    requires AreSpaces(tail) && !Contains(body, TOKEN)
    ensures ReadMarkup(authors, File(body, record, tail))
         == if |Encode(record)| > authors.maximumBytes * 2 then Err(Oversized)
            else match authors.fromDump(record) case None => Err(InvalidMetadata) case Some(author) => Ok((body, author))
  {
    hide Encode, Decode, IsAt, Find;
    var text, prefix, bytes := Encode(record), body + MARKER, File(body, record, tail);
    FileIs(body, record, tail);
    MarkerIsFound(MARKER, TOKEN, body, text + (TERMINATOR + tail));
    FoundBehindMarker(prefix, record, tail);
    DecodeOfEncode(record);
    assert bytes[..|body|] == body;
    assert bytes[|prefix|..|prefix| + |text|] == text;
    forall i | |prefix| + |text| + 3 <= i < |bytes| ensures IsSpace(bytes[i]) {
      assert bytes[i] == tail[i - |prefix| - |text| - 3];
    }
  }

  /** What reading has found when it succeeds. */
  lemma CommentParts<A>(authors: Authors<A>, bytes: string, begin: nat, afterMarker: nat, end: nat)
    requires begin <= afterMarker <= end <= |bytes| && ReadComment(authors, bytes, begin, afterMarker, end).Ok?
    ensures ReadComment(authors, bytes, begin, afterMarker, end).value.0 == bytes[..begin] && !Contains(bytes[..begin], TOKEN)
    ensures Decode(bytes[afterMarker..end]).Some? && forall i :: end + 3 <= i < |bytes| ==> IsSpace(bytes[i])
  {
    hide Decode, Find, Contains, IsSpace;
  }

  lemma ReadParts<A>(authors: Authors<A>, bytes: string)
    requires ReadMarkup(authors, bytes).Ok? && Find(bytes, MARKER, 0).Some?
    ensures var begin := Find(bytes, MARKER, 0).value;
            && begin + |MARKER| <= |bytes| && Find(bytes, TERMINATOR, begin + |MARKER|).Some?
            && var end := Find(bytes, TERMINATOR, begin + |MARKER|).value;
               && begin + |MARKER| <= end <= |bytes|
               && ReadMarkup(authors, bytes) == ReadComment(authors, bytes, begin, begin + |MARKER|, end)
  {
    hide Decode, Find, Contains, IsAt, ReadComment;
    FoundInRange(bytes, MARKER, 0);
    var begin := Find(bytes, MARKER, 0).value;
    MarkerFits(bytes, begin);
    if Find(bytes, TERMINATOR, begin + |MARKER|).Some? { FoundInRange(bytes, TERMINATOR, begin + |MARKER|); }
  }

  lemma MarkerFits(bytes: string, begin: nat)
    requires IsAt(bytes, MARKER, begin)
    ensures begin + |MARKER| <= |bytes|
  {
  }

  lemma RestIsBlank(s: string, from: nat)
    requires from <= |s| && forall i :: from <= i < |s| ==> IsSpace(s[i])
    ensures AreSpaces(s[from..])
  {
  }

  /** A record that was read stands in the file in this form. */
  lemma ReadIsFile<A>(authors: Authors<A>, bytes: string) returns (record: Octets, tail: string)
    requires ReadMarkup(authors, bytes).Ok? && Contains(bytes, MARKER)
    ensures var body := ReadMarkup(authors, bytes).value.0;
            && bytes == File(body, record, tail) && AreSpaces(tail) && !Contains(body, TOKEN)
  {
    hide Encode, Decode, Find, ReadMarkup, ReadComment, AreSpaces, File, IsSpace;
    ReadParts(authors, bytes);
    var begin := Find(bytes, MARKER, 0).value;
    var end := Find(bytes, TERMINATOR, begin + |MARKER|).value;
    CommentParts(authors, bytes, begin, begin + |MARKER|, end);
    record, tail := Decode(bytes[begin + |MARKER|..end]).value, bytes[end + 3..];
    DecodeAcceptsExactlyEncodings(bytes[begin + |MARKER|..end], record);
    RestIsBlank(bytes, end + 3);
    CutAround(bytes, begin, MARKER, end, TERMINATOR);
    FileIs(bytes[..begin], record, tail);
  }

  lemma CutAround(s: string, begin: nat, m: string, end: nat, t: string)
    requires IsAt(s, m, begin) && IsAt(s, t, end) && begin + |m| <= end
    ensures s == s[..begin] + (m + (s[begin + |m|..end] + (t + s[end + |t|..])))
  {
    assert s[end..] == t + s[end + |t|..];
    assert s[begin + |m|..] == s[begin + |m|..end] + s[end..];
    assert s[begin..] == m + s[begin + |m|..];
  }

  lemma NoMarker<A>(authors: Authors<A>, bytes: string)
    requires !Contains(bytes, MARKER)
    ensures ReadMarkup(authors, bytes) == if Contains(bytes, TOKEN) then Err(Unsupported) else Ok((bytes, authors.empty))
  {
  }

  lemma MarkerIsToken(bytes: string)
    requires Contains(bytes, MARKER)
    ensures Contains(bytes, TOKEN)
  {
    hide Find;
    MarkerHasToken(MARKER, TOKEN, bytes, Find(bytes, MARKER, 0).value);
  }

  lemma FileHasMarker(body: string, record: Octets, tail: string)
    ensures Contains(File(body, record, tail), MARKER)
  {
    hide Encode, Find;
    FileIs(body, record, tail);
    Stands(body, MARKER, Encode(record) + (TERMINATOR + tail));
  }

  /** A file is read exactly in two cases: it has no token, and then it is the body; or it is a body without the token,
      followed by the comment with the canonical Base64 of a record that is accepted and not too long, and white space. */
  lemma ReadsExactly<A>(authors: Authors<A>, bytes: string, body: string, author: A)
    ensures ReadMarkup(authors, bytes) == Ok((body, author))
            <==> || (!Contains(bytes, "<!--iisacc:authorship:") && body == bytes && author == authors.empty)
                 || (exists record, tail ::
                       && bytes == File(body, record, tail) && AreSpaces(tail) && !Contains(body, "<!--iisacc:authorship:")
                       && authors.fromDump(record) == Some(author) && |Encode(record)| <= authors.maximumBytes * 2)
  {
    hide Encode, Decode, Find, ReadMarkup, File;
    assert TOKEN == "<!--iisacc:authorship:";
    if Contains(bytes, MARKER) {
      MarkerIsToken(bytes);
      if ReadMarkup(authors, bytes).Ok? {
        var record, tail := ReadIsFile(authors, bytes);
        FileIsRead(authors, ReadMarkup(authors, bytes).value.0, record, tail);
      }
    } else {
      NoMarker(authors, bytes);
    }
    forall record, tail | bytes == File(body, record, tail) && AreSpaces(tail) && !Contains(body, TOKEN)
      ensures Contains(bytes, MARKER)
      ensures ReadMarkup(authors, bytes)
           == if |Encode(record)| > authors.maximumBytes * 2 then Err(Oversized)
              else match authors.fromDump(record) case None => Err(InvalidMetadata) case Some(a) => Ok((body, a))
    {
      FileHasMarker(body, record, tail);
      FileIsRead(authors, body, record, tail);
    }
  }
}
