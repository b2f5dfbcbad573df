/** The authorship comment at the end of XML and HTML files. */
module Markup {
  import opened Wrappers
  import opened Base64

  const TOKEN: string := "<!--iisacc:authorship:"
  const MARKER: string := "\n" + TOKEN + "v1:"
  const TERMINATOR: string := "-->"

  /** The file provider's authorship records and their serialised form. */
  datatype Authors<!A(==)> = Authors(
    empty: A,
    dump: A -> Octets,
    fromDump: Octets -> Option<A>,
    maximumBytes: nat)

  datatype MarkupError = Unsupported | Malformed | Oversized | BadEncoding | InvalidMetadata

  predicate IsAt(s: string, t: string, i: nat) { i + |t| <= |s| && s[i..i + |t|] == t }

  /** std::string_view::find of a string: the first occurrence at or after `from`. */
  function Find(s: string, t: string, from: nat): (at: Option<nat>)
    ensures at.Some? ==> from <= at.value && IsAt(s, t, at.value)
    ensures at.Some? ==> forall i :: from <= i < at.value ==> !IsAt(s, t, i)
    ensures at.None? ==> forall i :: from <= i ==> !IsAt(s, t, i)
    decreases |s| - from
  {
    if from + |t| > |s| then None
    else if s[from..from + |t|] == t then Some(from)
    else Find(s, t, from + 1)
  }

  predicate Contains(s: string, t: string) { Find(s, t, 0).Some? }

  predicate IsSpace(c: char) { c == ' ' || c == '\n' || c == '\r' || c == '\t' || c as int == 11 || c as int == 12 }

  function MarkupBytes<A(==)>(authors: Authors<A>, body: string, author: A): string {
    if author == authors.empty then body
    else body + (MARKER + (Encode(authors.dump(author)) + TERMINATOR))
  }

  function ReadMarkup<A(==)>(authors: Authors<A>, bytes: string): Result<(string, A), MarkupError> {
    match Find(bytes, MARKER, 0)
    case None => if Contains(bytes, TOKEN) then Err(Unsupported) else Ok((bytes, authors.empty))
    case Some(begin) =>
      var afterMarker := begin + |MARKER|;
      match Find(bytes, TERMINATOR, afterMarker)
      case None => Err(Malformed)
      case Some(end) => ReadComment(authors, bytes, begin, afterMarker, end)
  }

  /** The comment from the marker at `begin` to the terminator at `end`. */
  function ReadComment<A(==)>(authors: Authors<A>, bytes: string, begin: nat, afterMarker: nat, end: nat)
    : Result<(string, A), MarkupError>
    requires begin <= afterMarker <= end <= |bytes|
  {
    if (exists i :: end + 3 <= i < |bytes| && !IsSpace(bytes[i]))
       || Find(bytes, TOKEN, afterMarker).Some? || Contains(bytes[..begin], TOKEN) then Err(Malformed)
    else
      var encoded := bytes[afterMarker..end];
      if |encoded| > authors.maximumBytes * 2 then Err(Oversized)
      else
        match Decode(encoded)
        case None => Err(BadEncoding)
        case Some(dump) =>
          match authors.fromDump(dump)
          case None => Err(InvalidMetadata)
          case Some(author) => Ok((bytes[..begin], author))
  }

  /** A serialised record is read back. */
  ghost predicate ReadsBack<A>(authors: Authors<A>, author: A) {
    authors.fromDump(authors.dump(author)) == Some(author)
  }

  // ---------------------------------------------------------------- where tokens can stand

  lemma CharacterAt(s: string, t: string, i: nat, k: nat)
    requires IsAt(s, t, i) && k < |t|
    ensures i + k < |s| && s[i + k] == t[k]
  {
    assert s[i..i + |t|][k] == s[i + k];
  }

  /** The shape of the marker: a line break, which the token does not have, and the token. */
  ghost predicate Marks(marker: string, token: string) {
    && token != "" && token[0] == '<' && '\n' !in token
    && |marker| > |token| && marker[0] == '\n' && marker[1..1 + |token|] == token
  }

  /** Nothing that starts in the body reaches past a line break that follows it. */
  lemma TokenStaysInBody(token: string, body: string, tail: string, i: nat)
    requires '\n' !in token && tail != "" && tail[0] == '\n'
    requires i < |body| && IsAt(body + tail, token, i)
    ensures IsAt(body, token, i)
  {
    if i + |token| > |body| {
      CharacterAt(body + tail, token, i, |body| - i);
    } else {
      assert (body + tail)[i..i + |token|] == body[i..i + |token|];
    }
  }

  lemma MarkerHasToken(marker: string, token: string, s: string, i: nat)
    requires Marks(marker, token) && IsAt(s, marker, i)
    ensures IsAt(s, token, i + 1)
  {
    SubSlice(s, i, i + |marker|, 1, 1 + |token|);
  }

  lemma SubSlice(s: string, i: nat, j: nat, a: nat, b: nat)
    requires i <= j <= |s| && a <= b <= j - i
    ensures s[i..j][a..b] == s[i + a..i + b]
  {
    assert |s[i..j][a..b]| == b - a == |s[i + a..i + b]|;
    forall k | 0 <= k < b - a ensures s[i..j][a..b][k] == s[i + a..i + b][k] {
      assert s[i..j][a..b][k] == s[i..j][a + k] == s[i + a + k];
    }
  }

  /** Where a word's first character is missing, the word is missing. */
  lemma NoWordWithoutItsStart(s: string, t: string, i: nat)
    requires t != "" && (i < |s| ==> s[i] != t[0])
    ensures !IsAt(s, t, i)
  {
    if i + |t| <= |s| { assert s[i..i + |t|][0] == s[i]; }
  }

  // ---------------------------------------------------------------- the round trip

  function Written<A>(authors: Authors<A>, author: A): string { Encode(authors.dump(author)) }

  /** An empty record leaves the body alone; it is read back unless the body holds the token. */
  lemma EmptyRoundTrip<A>(authors: Authors<A>, body: string)
    ensures ReadMarkup(authors, body) == Ok((body, authors.empty)) <==> !Contains(body, TOKEN)
  {
    hide Decode, IsAt;
    match Find(body, MARKER, 0)
    case None =>
    case Some(begin) => MarkerHasToken(MARKER, TOKEN, body, begin);
  }

  /** The first marker of a marked file whose body has no token is the one that was written. */
  lemma MarkerIsFound(marker: string, token: string, body: string, rest: string)
    requires Marks(marker, token) && !Contains(body, token)
    ensures Find(body + (marker + rest), marker, 0) == Some(|body|)
  {
    hide IsAt;
    var bytes := body + (marker + rest);
    Stands(body, marker, rest);
    NoWordWithoutItsStart(bytes, token, |body|);
    forall i: nat | i < |body| ensures !IsAt(bytes, marker, i) {
      if IsAt(bytes, marker, i) {
        MarkerHasToken(marker, token, bytes, i);
        if i + 1 < |body| { TokenStaysInBody(token, body, marker + rest, i + 1); }
      }
    }
  }

  lemma Stands(before: string, t: string, after: string)
    ensures IsAt(before + (t + after), t, |before|)
  {
  }

  /** Base64 text followed by the terminator: the terminator is found at its end, and no token is in it. */
  lemma EncodedIsPlain(prefix: string, s: Octets, token: string)
    requires token != "" && token[0] == '<'
    ensures var bytes := prefix + (Encode(s) + TERMINATOR);
            && Find(bytes, TERMINATOR, |prefix|) == Some(|prefix| + |Encode(s)|)
            && Find(bytes, token, |prefix|).None?
  {
    hide Encode, IsAt, Find;
    var text := Encode(s);
    var bytes := prefix + (text + TERMINATOR);
    var end := |prefix| + |text|;
    forall k: nat | |prefix| <= k < end ensures !IsAt(bytes, TERMINATOR, k) {
      PlainCharacter(prefix, s, k);
      NoWordWithoutItsStart(bytes, TERMINATOR, k);
    }
    Stands(prefix + text, TERMINATOR, "");
    assert (prefix + text) + (TERMINATOR + "") == bytes;
    forall k: nat | |prefix| <= k ensures !IsAt(bytes, token, k) {
      if k < |bytes| { PlainCharacter(prefix, s, k); }
      NoWordWithoutItsStart(bytes, token, k);
    }
  }

  lemma PlainCharacter(prefix: string, s: Octets, k: nat)
    requires |prefix| <= k < |prefix| + |Encode(s)| + 3
    ensures var c := (prefix + (Encode(s) + TERMINATOR))[k];
            c != '<' && (k < |prefix| + |Encode(s)| ==> c != '-')
  {
    hide Encode, DigitValue;
    if k < |prefix| + |Encode(s)| { EncodedCharacters(s, k - |prefix|); }
  }

  /** A marked file is read back exactly when the body does not hold the token and the record is not too
      large. */
  lemma MarkedRoundTrip<A>(authors: Authors<A>, body: string, author: A)
    requires author != authors.empty && ReadsBack(authors, author)
    ensures ReadMarkup(authors, MarkupBytes(authors, body, author)) == Ok((body, author))
            <==> !Contains(body, TOKEN) && |Written(authors, author)| <= authors.maximumBytes * 2
  {
    if !Contains(body, TOKEN) { MarkedIsRead(authors, body, author); } else { TokenIsRefused(authors, body, author); }
  }

  /** What reading comes down to once the marker and the terminator are found. */
  lemma MarkedIsRead<A>(authors: Authors<A>, body: string, author: A)
    requires author != authors.empty && ReadsBack(authors, author) && !Contains(body, TOKEN) && Marks(MARKER, TOKEN)
    ensures ReadMarkup(authors, MarkupBytes(authors, body, author))
         == if |Written(authors, author)| <= authors.maximumBytes * 2 then Ok((body, author)) else Err(Oversized)
  {
    hide Encode, Decode, IsAt, Find;
    var text := Written(authors, author);
    var bytes := MarkupBytes(authors, body, author);
    var prefix := body + MARKER;
    MarkerIsFound(MARKER, TOKEN, body, text + TERMINATOR);
    assert bytes == prefix + (text + TERMINATOR);
    EncodedIsPlain(prefix, authors.dump(author), TOKEN);
    DecodeOfEncode(authors.dump(author));
    assert bytes[..|body|] == body;
    assert bytes[|prefix|..|prefix| + |text|] == text;
  }

  lemma TokenIsRefused<A>(authors: Authors<A>, body: string, author: A)
    requires Contains(body, TOKEN)
    ensures ReadMarkup(authors, MarkupBytes(authors, body, author)) != Ok((body, author))
  {
    hide Encode, Decode, IsAt, Find;
    var bytes := MarkupBytes(authors, body, author);
    if Find(bytes, MARKER, 0).Some? {
      FoundInRange(bytes, MARKER, 0);
      assert |bytes[..Find(bytes, MARKER, 0).value]| == Find(bytes, MARKER, 0).value;
    } else {
      ContainsStays(body, bytes[|body|..], TOKEN);
      assert body + bytes[|body|..] == bytes;
    }
  }

  lemma FoundInRange(s: string, t: string, from: nat)
    requires Find(s, t, from).Some?
    ensures Find(s, t, from).value <= |s|
  {
  }

  lemma ContainsStays(s: string, after: string, t: string)
    requires Contains(s, t)
    ensures Contains(s + after, t)
  {
    var i := Find(s, t, 0).value;
    assert (s + after)[i..i + |t|] == s[i..i + |t|];
    assert IsAt(s + after, t, i);
  }

  /** Writing and reading an authored body gives both parts back exactly when the body holds no authorship
      token and the record, if there is one, fits: no marker, token or terminator can match early or
      across a seam. */
  lemma MarkupRoundTrip<A>(authors: Authors<A>, body: string, author: A)
    requires ReadsBack(authors, author) || author == authors.empty
    ensures ReadMarkup(authors, MarkupBytes(authors, body, author)) == Ok((body, author))
            <==> && !Contains(body, TOKEN)
                 && (author != authors.empty ==> |Written(authors, author)| <= authors.maximumBytes * 2)
  {
    if author == authors.empty { EmptyRoundTrip(authors, body); } else { MarkedRoundTrip(authors, body, author); }
  }
}
