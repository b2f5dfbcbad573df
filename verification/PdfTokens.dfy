/** Content streams read by the lexical rules of section 7.2 of ISO 32000-1: what is written as instructions is read as
    their operands and operators, token for token. */
module PdfTokens {
  import opened Wrappers
  import opened Decimal
  import opened PdfContent
  import opened PdfElements
  import PdfReal

  datatype Token =
    | NumberToken(text: string)
    | KeywordToken(text: string)
    | NameToken(name: string)
    | StringToken(bytes: string)
    | OpenArray | CloseArray | OpenDictionary | CloseDictionary

  // ---------------------------------------------------------------- reading

  /** Table 1: the white-space characters. */
  predicate IsWhite(c: char) { c as int in [0, 9, 10, 12, 13, 32] }

  predicate IsTokenChar(c: char) { IsRegular(c) || c == '#' }

  predicate IsWord(s: string) { s != "" && forall i :: 0 <= i < |s| ==> IsTokenChar(s[i]) }

  /** The number of characters up to the next delimiter or white space. */
  function WordLength(s: string): (n: nat)
    ensures n <= |s| && (forall i :: 0 <= i < n ==> IsTokenChar(s[i])) && (n < |s| ==> !IsTokenChar(s[n]))
  {
    if s != "" && IsTokenChar(s[0]) then 1 + WordLength(s[1..]) else 0
  }

  predicate StartsNumber(c: char) { IsDigit(c) || c == '+' || c == '-' || c == '.' }

  function WordToken(w: string): Token
    requires w != ""
  {
    if StartsNumber(w[0]) then NumberToken(w) else KeywordToken(w)
  }

  function Tokens(s: string): Option<seq<Token>>
    decreases |s|
  {
    if s == "" then Some([])
    else if IsWhite(s[0]) then Tokens(s[1..])
    else if s[0] == '[' then Prepend([OpenArray], Tokens(s[1..]))
    else if s[0] == ']' then Prepend([CloseArray], Tokens(s[1..]))
    else if s[0] == '<' then if |s| > 1 && s[1] == '<' then Prepend([OpenDictionary], Tokens(s[2..])) else None
    else if s[0] == '>' then if |s| > 1 && s[1] == '>' then Prepend([CloseDictionary], Tokens(s[2..])) else None
    else if s[0] == '(' then
      match ReadLiteral(s[1..])
      case None => None
      case Some((bytes, rest)) => Prepend([StringToken(bytes)], Tokens(rest))
    else if s[0] == '/' then
      var n := WordLength(s[1..]);
      match ReadName(s[1..][..n])
      case None => None
      case Some(name) => Prepend([NameToken(name)], Tokens(s[1..][n..]))
    else
      var n := WordLength(s);
      if n == 0 then None else Prepend([WordToken(s[..n])], Tokens(s[n..]))
  }

  /** What follows a token does not belong to it. */
  predicate IsApart(rest: string) { rest == "" || !IsTokenChar(rest[0]) }

  lemma {:induction false} WordEnds(w: string, rest: string)
    requires (forall i :: 0 <= i < |w| ==> IsTokenChar(w[i])) && IsApart(rest)
    ensures WordLength(w + rest) == |w|
  {
    if w == "" {
      assert w + rest == rest;
    } else {
      WordEnds(w[1..], rest);
      assert (w + rest)[1..] == w[1..] + rest;
    }
  }

  lemma WordIsRead(w: string, rest: string)
    requires IsWord(w) && IsApart(rest)
    ensures Tokens(w + rest) == Prepend([WordToken(w)], Tokens(rest))
  {
    hide ReadLiteral, ReadName, WordLength;
    WordEnds(w, rest);
    var s := w + rest;
    assert s[0] == w[0] && s[..|w|] == w && s[|w|..] == rest;
  }

  lemma {:induction false} NameIsWord(s: ByteString)
    ensures forall i :: 0 <= i < |EscapedNameBytes(s)| ==> IsTokenChar(EscapedNameBytes(s)[i])
  {
    if s != "" { NameIsWord(s[1..]); }
  }

  lemma NameIsRead(name: ByteString, rest: string)
    requires IsApart(rest)
    ensures Tokens(NameText(name) + rest) == Prepend([NameToken(WithSolidus(name)[1..])], Tokens(rest))
  {
    hide ReadLiteral, ReadName, WordLength, EscapedNameBytes;
    var word := EscapedNameBytes(WithSolidus(name)[1..]);
    var s := NameText(name) + rest;
    NameIsWord(WithSolidus(name)[1..]);
    NameRoundTrip(WithSolidus(name)[1..]);
    WordEnds(word, rest);
    assert s[0] == '/' && s[1..] == word + rest;
    assert (word + rest)[..|word|] == word && (word + rest)[|word|..] == rest;
  }

  lemma StringIsRead(bytes: ByteString, rest: string)
    ensures Tokens(LiteralString(bytes) + rest) == Prepend([StringToken(bytes)], Tokens(rest))
  {
    hide ReadLiteral, ReadName, WordLength, EscapedBytes;
    var s := LiteralString(bytes) + rest;
    Regrouped("(", EscapedBytes(bytes) + ")", rest);
    Regrouped(EscapedBytes(bytes), ")", rest);
    assert s[0] == '(' && s[1..] == EscapedBytes(bytes) + (")" + rest);
    LiteralRoundTrip(bytes, rest);
  }

  lemma MarkIsRead(mark: string, rest: string)
    requires mark in ["[", "]", "<<", ">>"]
    ensures Tokens(mark + rest)
         == Prepend([if mark == "[" then OpenArray else if mark == "]" then CloseArray
                     else if mark == "<<" then OpenDictionary else CloseDictionary], Tokens(rest))
  {
    hide ReadLiteral, ReadName, WordLength;
    var s := mark + rest;
    assert s[0] == mark[0] && s[|mark|..] == rest;
    if |mark| > 1 { assert s[1] == mark[1]; }
  }

  lemma SpaceIsSkipped(rest: string)
    ensures Tokens(" " + rest) == Tokens(rest) && Tokens("\n" + rest) == Tokens(rest)
    ensures IsApart(" " + rest) && IsApart("\n" + rest)
  {
    hide ReadLiteral, ReadName, WordLength;
    assert (" " + rest)[1..] == rest && ("\n" + rest)[1..] == rest;
  }

  // ---------------------------------------------------------------- values

  predicate IsNumberText(s: string) { IsWord(s) && StartsNumber(s[0]) }

  /** Not text of unknown syntax, and numbers look like numbers. */
  predicate IsReadable(v: Value)
    decreases v
  {
    match v
    case Real(_, lexeme) => lexeme == "" || IsNumberText(lexeme)
    case Array(items) => AreReadable(items)
    case Dictionary(entries) => EntriesAreReadable(entries)
    case Raw(_) => false
    case _ => true
  }

  predicate AreReadable(vs: seq<Value>)
    decreases vs
  {
    vs == [] || (AreReadable(vs[..|vs| - 1]) && IsReadable(vs[|vs| - 1]))
  }

  predicate EntriesAreReadable(entries: seq<Entry>)
    decreases entries
  {
    entries == [] || (EntryIsReadable(entries[0]) && EntriesAreReadable(entries[1..]))
  }

  predicate EntryIsReadable(e: Entry)
    decreases e
  {
    IsReadable(e.value)
  }

  function ValueTokens(v: Value): seq<Token>
    decreases v
  {
    match v
    case Null => [KeywordToken("null")]
    case Boolean(b) => [KeywordToken(if b then "true" else "false")]
    case Integer(n) => [NumberToken((if n < 0 then "-" else "") + ToText(if n < 0 then -n else n))]
    case Real(number, lexeme) => [NumberToken(if lexeme == "" then PdfReal.Formatted(number) else lexeme)]
    case Name(name) => [NameToken(WithSolidus(name)[1..])]
    case String(bytes) => [StringToken(bytes)]
    case Array(items) => [OpenArray] + (ValuesTokens(items) + [CloseArray])
    case Dictionary(entries) => [OpenDictionary] + (EntriesTokens(entries) + [CloseDictionary])
    case Raw(_) => []
  }

  function ValuesTokens(vs: seq<Value>): seq<Token>
    decreases vs
  {
    if vs == [] then [] else ValuesTokens(vs[..|vs| - 1]) + ValueTokens(vs[|vs| - 1])
  }

  function EntriesTokens(entries: seq<Entry>): seq<Token>
    decreases entries
  {
    if entries == [] then [] else EntryTokens(entries[0]) + EntriesTokens(entries[1..])
  }

  function EntryTokens(e: Entry): seq<Token>
    decreases e
  {
    [NameToken(WithSolidus(e.key)[1..])] + ValueTokens(e.value)
  }

  /** What is written reads as the tokens, whatever follows it. */
  ghost predicate ReadsAs(written: string, ts: seq<Token>) {
    forall rest :: IsApart(rest) ==> Tokens(written + rest) == Prepend(ts, Tokens(rest))
  }

  lemma WordReadsAs(w: string)
    requires IsWord(w)
    ensures ReadsAs(w, [WordToken(w)])
  {
    hide Tokens;
    forall rest | IsApart(rest) ensures Tokens(w + rest) == Prepend([WordToken(w)], Tokens(rest)) { WordIsRead(w, rest); }
  }

  lemma {:induction false} DigitsAreWord(s: string)
    requires AllDigits(s)
    ensures forall i :: 0 <= i < |s| ==> IsTokenChar(s[i])
  {
  }

  lemma NumberReadsAs(sign: string, digits: string)
    requires (sign == "" || sign == "-") && digits != "" && AllDigits(digits)
    ensures ReadsAs(sign + digits, [NumberToken(sign + digits)])
  {
    DigitsAreWord(digits);
    WordReadsAs(sign + digits);
  }

  predicate AreTokenChars(s: string) { forall i :: 0 <= i < |s| ==> IsTokenChar(s[i]) }

  lemma TokenCharsJoin(a: string, b: string)
    requires AreTokenChars(a) && AreTokenChars(b)
    ensures AreTokenChars(a + b)
  {
    hide IsTokenChar;
  }

  lemma PlainNumberIsText(q: PdfReal.Number)
    requires PdfReal.IsNumber(q) && q.exponent.None?
    ensures IsNumberText(PdfReal.Text(q))
  {
    var fraction := match q.fraction case None => "" case Some(f) => "." + f;
    DigitsAreWord(q.whole);
    if q.fraction.Some? {
      DigitsAreWord(q.fraction.value);
      TokenCharsJoin(".", q.fraction.value);
    }
    assert AreTokenChars(q.sign);
    hide IsTokenChar;
    TokenCharsJoin(q.whole, fraction);
    NothingAround(q.whole + fraction);
    TokenCharsJoin(q.sign, q.whole + fraction);
    var text := q.sign + (q.whole + fraction);
    assert PdfReal.Text(q) == text && text[0] == if q.sign == "" then q.whole[0] else q.sign[0];
  }

  lemma FormattedIsNumberText(n: PdfReal.Finite)
    ensures IsNumberText(PdfReal.Formatted(n))
  {
    hide PdfReal.Formatted, PdfReal.Denoted, PdfReal.Text, IsNumberText;
    PdfReal.FormattedIsPdfReal(n);
    var q :| PdfReal.IsPdfReal(PdfReal.Formatted(n), q) && PdfReal.Denoted(q) == PdfReal.Denoted(n);
    PlainNumberIsText(q);
  }

  lemma NumberTextReadsAs(s: string)
    requires IsNumberText(s)
    ensures ReadsAs(s, [NumberToken(s)])
  {
    hide ReadsAs;
    WordReadsAs(s);
  }

  lemma NameReadsAs(name: ByteString)
    ensures ReadsAs(NameText(name), [NameToken(WithSolidus(name)[1..])])
  {
    hide Tokens, NameText;
    forall rest | IsApart(rest)
      ensures Tokens(NameText(name) + rest) == Prepend([NameToken(WithSolidus(name)[1..])], Tokens(rest))
    {
      NameIsRead(name, rest);
    }
  }

  lemma StringReadsAs(bytes: ByteString)
    ensures ReadsAs(LiteralString(bytes), [StringToken(bytes)])
  {
    hide Tokens, LiteralString;
    forall rest | IsApart(rest) ensures Tokens(LiteralString(bytes) + rest) == Prepend([StringToken(bytes)], Tokens(rest)) {
      StringIsRead(bytes, rest);
    }
  }

  /** One piece after another, the second one apart from the first. */
  lemma ReadsAsJoined(a: string, x: seq<Token>, b: string, y: seq<Token>)
    requires ReadsAs(a, x) && ReadsAs(b, y) && b != "" && IsApart(b)
    ensures ReadsAs(a + b, x + y)
  {
    hide Tokens;
    forall rest | IsApart(rest) ensures Tokens((a + b) + rest) == Prepend(x + y, Tokens(rest)) {
      Regrouped(a, b, rest);
      assert IsApart(b + rest);
      PrependBoth(x, y, Tokens(rest));
    }
  }

  /** The same behind a space. */
  lemma ReadsAsSpaced(b: string, y: seq<Token>)
    requires ReadsAs(b, y)
    ensures ReadsAs(" " + b, y) && IsApart(" " + b) && " " + b != ""
  {
    hide Tokens;
    forall rest | IsApart(rest) ensures Tokens((" " + b) + rest) == Prepend(y, Tokens(rest)) {
      Regrouped(" ", b, rest);
      SpaceIsSkipped(b + rest);
    }
    SpaceIsSkipped(b);
  }

  lemma MarkReadsAs(mark: string)
    requires mark in ["[", "]", "<<", ">>"]
    ensures ReadsAs(mark, [if mark == "[" then OpenArray else if mark == "]" then CloseArray
                           else if mark == "<<" then OpenDictionary else CloseDictionary])
    ensures IsApart(mark) && mark != ""
  {
    hide Tokens;
    forall rest | IsApart(rest)
      ensures Tokens(mark + rest)
           == Prepend([if mark == "[" then OpenArray else if mark == "]" then CloseArray
                       else if mark == "<<" then OpenDictionary else CloseDictionary], Tokens(rest))
    {
      MarkIsRead(mark, rest);
    }
  }

  /** An opening mark ends a token by itself, so anything may follow it. */
  lemma OpeningReadsAs(mark: string, inner: string, y: seq<Token>)
    requires (mark == "[" || mark == "<<") && ReadsAs(inner, y)
    ensures ReadsAs(mark + inner, [if mark == "[" then OpenArray else OpenDictionary] + y)
  {
    hide Tokens;
    var open := if mark == "[" then OpenArray else OpenDictionary;
    forall rest | IsApart(rest) ensures Tokens((mark + inner) + rest) == Prepend([open] + y, Tokens(rest)) {
      Regrouped(mark, inner, rest);
      MarkIsRead(mark, inner + rest);
      PrependBoth([open], y, Tokens(rest));
    }
  }

  lemma NothingReadsAs()
    ensures ReadsAs("", [])
  {
    hide Tokens;
    forall rest ensures Tokens("" + rest) == Prepend([], Tokens(rest)) {
      NothingAround(rest);
      PrependNothing(Tokens(rest));
    }
  }

  lemma {:induction false} ValueReadsAs(v: Value)
    requires IsReadable(v)
    ensures ReadsAs(Syntax(v), ValueTokens(v)) && Syntax(v) != ""
    decreases v
  {
    hide ReadsAs, NameText, LiteralString, PdfReal.Formatted, IsNumberText, Joined, EntriesSyntax, ValuesTokens, EntriesTokens,
         AreReadable, EntriesAreReadable;
    match v {
    case Real(number, lexeme) => RealReadsAs(number, lexeme);
    case Array(items) =>
      ItemsReadAs(items);
      ArrayReadsAs(items);
    case Dictionary(entries) =>
      EntriesReadAs(entries);
      DictionaryReadsAs(entries);
    case _ => PlainReadsAs(v);
    }
  }

  lemma PlainReadsAs(v: Value)
    requires v.Null? || v.Boolean? || v.Integer? || v.Name? || v.String?
    ensures ReadsAs(Syntax(v), ValueTokens(v)) && Syntax(v) != ""
  {
    hide ReadsAs, NameText, LiteralString;
    match v {
    case Null => WordReadsAs("null");
    case Boolean(b) => WordReadsAs(if b then "true" else "false");
    case Integer(n) => IntegerReadsAs(n);
    case Name(name) =>
      NameReadsAs(name);
      NamesAreSomething(name);
    case String(bytes) =>
      StringReadsAs(bytes);
      NamesAreSomething(bytes);
    }
  }

  lemma ArrayReadsAs(items: seq<Value>)
    requires ReadsAs(Joined(items), ValuesTokens(items))
    ensures ReadsAs(Syntax(Array(items)), ValueTokens(Array(items))) && Syntax(Array(items)) != ""
  {
    hide ReadsAs, Joined, ValuesTokens;
    MarkReadsAs("]");
    ReadsAsJoined(Joined(items), ValuesTokens(items), "]", [CloseArray]);
    OpeningReadsAs("[", Joined(items) + "]", ValuesTokens(items) + [CloseArray]);
  }

  lemma DictionaryReadsAs(entries: seq<Entry>)
    requires ReadsAs(EntriesSyntax(entries), EntriesTokens(entries))
    ensures ReadsAs(Syntax(Dictionary(entries)), ValueTokens(Dictionary(entries))) && Syntax(Dictionary(entries)) != ""
  {
    hide ReadsAs, EntriesSyntax, EntriesTokens;
    MarkReadsAs(">>");
    ReadsAsSpaced(">>", [CloseDictionary]);
    assert " " + ">>" == " >>";
    ReadsAsJoined(EntriesSyntax(entries), EntriesTokens(entries), " >>", [CloseDictionary]);
    OpeningReadsAs("<<", EntriesSyntax(entries) + " >>", EntriesTokens(entries) + [CloseDictionary]);
  }

  lemma NamesAreSomething(s: ByteString)
    ensures NameText(s) != "" && LiteralString(s) != ""
  {
  }

  lemma IntegerReadsAs(n: int)
    ensures ReadsAs(Syntax(Integer(n)), ValueTokens(Integer(n))) && Syntax(Integer(n)) != ""
  {
    hide ReadsAs, ToText;
    if n < 0 {
      NumberReadsAs("-", ToText(-n));
    } else {
      NumberReadsAs("", ToText(n));
      NothingAround(ToText(n));
    }
  }

  lemma RealReadsAs(number: PdfReal.Finite, lexeme: string)
    requires lexeme == "" || IsNumberText(lexeme)
    ensures ReadsAs(Syntax(Real(number, lexeme)), ValueTokens(Real(number, lexeme))) && Syntax(Real(number, lexeme)) != ""
  {
    hide ReadsAs, PdfReal.Formatted;
    FormattedIsNumberText(number);
    NumberTextReadsAs(if lexeme == "" then PdfReal.Formatted(number) else lexeme);
  }

  lemma {:induction false} ItemsReadAs(items: seq<Value>)
    requires AreReadable(items)
    ensures ReadsAs(Joined(items), ValuesTokens(items))
    decreases items
  {
    hide ReadsAs, Syntax, ValueTokens, IsReadable;
    if items == [] {
      NothingReadsAs();
    } else {
      var front, last := items[..|items| - 1], items[|items| - 1];
      ItemsReadAs(front);
      ValueReadsAs(last);
      if |items| == 1 {
        NothingAround(ValueTokens(last));
      } else {
        ReadsAsSpaced(Syntax(last), ValueTokens(last));
        ReadsAsJoined(Joined(front), ValuesTokens(front), " " + Syntax(last), ValueTokens(last));
      }
    }
  }

  lemma EntryReadsAs(e: Entry)
    requires EntryIsReadable(e) && ReadsAs(Syntax(e.value), ValueTokens(e.value)) && Syntax(e.value) != ""
    ensures ReadsAs(" " + (NameText(e.key) + (" " + Syntax(e.value))), EntryTokens(e))
  {
    hide ReadsAs, Syntax, ValueTokens, NameText;
    NameReadsAs(e.key);
    ReadsAsSpaced(Syntax(e.value), ValueTokens(e.value));
    ReadsAsJoined(NameText(e.key), [NameToken(WithSolidus(e.key)[1..])], " " + Syntax(e.value), ValueTokens(e.value));
    ReadsAsSpaced(NameText(e.key) + (" " + Syntax(e.value)), EntryTokens(e));
  }

  lemma {:induction false} EntriesReadAs(entries: seq<Entry>)
    requires EntriesAreReadable(entries)
    ensures ReadsAs(EntriesSyntax(entries), EntriesTokens(entries))
    ensures entries != [] ==> EntriesSyntax(entries) != "" && EntriesSyntax(entries)[0] == ' '
    decreases entries
  {
    hide ReadsAs, Syntax, ValueTokens, NameText, EntryTokens;
    if entries == [] {
      NothingReadsAs();
    } else {
      var e, rest := entries[0], entries[1..];
      ReadEntry(e);
      EntriesReadAs(rest);
      var first := " " + (NameText(e.key) + (" " + Syntax(e.value)));
      EntryThenRest(NameText(e.key), Syntax(e.value), EntriesSyntax(rest));
      if rest == [] {
        NothingAround(first);
        NothingAround(EntryTokens(e));
      } else {
        SpaceIsSkipped(EntriesSyntax(rest)[1..]);
        ReadsAsJoined(first, EntryTokens(e), EntriesSyntax(rest), EntriesTokens(rest));
      }
    }
  }

  lemma {:induction false} ReadEntry(e: Entry)
    requires EntryIsReadable(e)
    ensures ReadsAs(" " + (NameText(e.key) + (" " + Syntax(e.value))), EntryTokens(e))
    decreases e
  {
    hide ReadsAs, Syntax, ValueTokens, NameText, EntryTokens;
    ValueReadsAs(e.value);
    EntryReadsAs(e);
  }

  lemma EntryThenRest(name: string, value: string, rest: string)
    ensures " " + (name + (" " + (value + rest))) == (" " + (name + (" " + value))) + rest
  {
    Regrouped(" ", value, rest);
    Regrouped(name, " " + value, rest);
    Regrouped(" ", name + (" " + value), rest);
  }

  // ---------------------------------------------------------------- instructions

  /** Values that can be read, and an operator that is a word, if there is one; no image data. */
  predicate IsReadableInstruction(i: Instruction) {
    && AreReadable(i.operands) && !i.IsInlineImageData()
    && (i.operatorName != "" ==> IsWord(i.operatorName) && !StartsNumber(i.operatorName[0]))
  }

  function InstructionTokens(i: Instruction): seq<Token> {
    ValuesTokens(i.operands) + (if i.operatorName == "" then [] else [KeywordToken(i.operatorName)])
  }

  lemma {:induction false} OperandsReadAs(vs: seq<Value>)
    requires AreReadable(vs)
    ensures ReadsAs(Operands(vs), ValuesTokens(vs)) && (Operands(vs) == "" <==> vs == [])
  {
    hide ReadsAs, Syntax, ValueTokens, IsReadable;
    if vs == [] {
      NothingReadsAs();
    } else {
      var front, last := vs[..|vs| - 1], vs[|vs| - 1];
      OperandsReadAs(front);
      ValueReadsAs(last);
      if front == [] {
        NothingAround(ValueTokens(last));
      } else {
        ReadsAsSpaced(Syntax(last), ValueTokens(last));
        ReadsAsJoined(Operands(front), ValuesTokens(front), " " + Syntax(last), ValueTokens(last));
      }
    }
  }

  /** What is written for an instruction before the line feed. */
  function Line(i: Instruction): string {
    if i.operatorName == "" then Operands(i.operands) else Spaced(Operands(i.operands), i.operatorName)
  }

  lemma LineReadsAs(i: Instruction)
    requires IsReadableInstruction(i)
    ensures ReadsAs(Line(i), InstructionTokens(i))
  {
    hide ReadsAs, IsReadable, Operands, ValuesTokens, AreReadable;
    OperandsReadAs(i.operands);
    if i.operatorName == "" {
      NothingAround(ValuesTokens(i.operands));
    } else {
      WordReadsAs(i.operatorName);
      ReadsAsSpaced(i.operatorName, [KeywordToken(i.operatorName)]);
      if i.operands == [] {
        NoTokens();
        NothingAround([KeywordToken(i.operatorName)]);
      } else {
        ReadsAsJoined(Operands(i.operands), ValuesTokens(i.operands), " " + i.operatorName, [KeywordToken(i.operatorName)]);
      }
    }
  }

  lemma NoTokens()
    ensures ValuesTokens([]) == []
  {
  }

  /** An instruction is read back as its operands in order and its operator, whatever follows it. */
  lemma InstructionIsRead(i: Instruction, rest: string)
    requires IsReadableInstruction(i)
    ensures Tokens(InstructionSyntax(i) + rest) == Prepend(InstructionTokens(i), Tokens(rest))
  {
    hide Tokens, Operands, InstructionTokens;
    LineReadsAs(i);
    SpaceIsSkipped(rest);
    Regrouped(Line(i), "\n", rest);
  }

  function AllTokens(ops: seq<Instruction>): seq<Token> {
    if ops == [] then [] else InstructionTokens(ops[0]) + AllTokens(ops[1..])
  }

  /** So a content stream is read back as the operands and operators of its instructions in order: nothing is lost, split
      or run together. */
  lemma {:induction false} StreamIsRead(ops: seq<Instruction>)
    requires forall k :: 0 <= k < |ops| ==> IsReadableInstruction(ops[k])
    ensures Tokens(SyntaxOf(ops)) == Some(AllTokens(ops))
  {
    hide Tokens, InstructionTokens, InstructionSyntax, IsReadableInstruction;
    if ops == [] {
      NoText();
    } else {
      StreamIsRead(ops[1..]);
      InstructionIsRead(ops[0], SyntaxOf(ops[1..]));
    }
  }

  lemma NoText()
    ensures Tokens("") == Some([])
  {
  }

  // ---------------------------------------------------------------- which bytes are escaped

  /** A byte that a name may hold as it is (section 7.3.5 of ISO 32000-1). */
  predicate IsNamePlain(c: char) {
    '!' <= c <= '~' && c !in ['#', '%', '(', ')', '/', '<', '>', '[', ']', '{', '}']
  }

  predicate IsStringPlain(c: char) { ' ' <= c <= '~' && c !in ['(', ')', '\\'] }

  /** Names are written in printable ASCII without delimiters, and as they are exactly if they can be. */
  lemma {:induction false} NameIsPrintable(s: ByteString)
    ensures forall i :: 0 <= i < |EscapedNameBytes(s)| ==> IsNamePlain(EscapedNameBytes(s)[i]) || EscapedNameBytes(s)[i] == '#'
    ensures EscapedNameBytes(s) == s <==> forall i :: 0 <= i < |s| ==> IsNamePlain(s[i])
    ensures |s| <= |EscapedNameBytes(s)|
  {
    if s != "" {
      hide EscapedNameByte, IsNamePlain;
      var rest := s[1..];
      NameIsPrintable(rest);
      ByteIsPrintable(s[0]);
      assert s == [s[0]] + rest && forall i :: 0 < i < |s| ==> s[i] == rest[i - 1];
      SameFront(EscapedNameByte(s[0]), EscapedNameBytes(rest), s[0], rest);
    }
  }

  /** So are literal strings, between their parentheses. */
  lemma {:induction false} StringIsPrintable(s: ByteString)
    ensures forall i :: 0 <= i < |EscapedBytes(s)| ==> ' ' <= EscapedBytes(s)[i] <= '~'
    ensures EscapedBytes(s) == s <==> forall i :: 0 <= i < |s| ==> IsStringPlain(s[i])
    ensures |s| <= |EscapedBytes(s)|
  {
    if s != "" {
      hide EscapedByte, IsStringPlain;
      var rest := s[1..];
      StringIsPrintable(rest);
      ByteIsPrintable(s[0]);
      assert s == [s[0]] + rest && forall i :: 0 < i < |s| ==> s[i] == rest[i - 1];
      SameFront(EscapedByte(s[0]), EscapedBytes(rest), s[0], rest);
    }
  }

  lemma SameFront(e: string, es: string, c: char, rest: string)
    requires |e| >= 1 && |es| >= |rest|
    ensures e + es == [c] + rest <==> e == [c] && es == rest
  {
    if e + es == [c] + rest {
      assert |e| == 1 && (e + es)[0] == e[0] && (e + es)[1..] == es;
    }
  }

  lemma ByteIsPrintable(c: char)
    requires c as int < 256
    ensures EscapedNameByte(c) != "" && EscapedByte(c) != ""
    ensures EscapedNameByte(c) == [c] <==> IsNamePlain(c)
    ensures EscapedByte(c) == [c] <==> IsStringPlain(c)
    ensures forall i :: 0 <= i < |EscapedNameByte(c)| ==> IsNamePlain(EscapedNameByte(c)[i]) || EscapedNameByte(c)[i] == '#'
    ensures forall i :: 0 <= i < |EscapedByte(c)| ==> ' ' <= EscapedByte(c)[i] <= '~'
  {
    HexIsPlain(c as int / 16);
    HexIsPlain(c as int % 16);
    hide HexDigit;
  }

  lemma HexIsPlain(d: nat)
    requires d < 16
    ensures IsNamePlain(HexDigit(d))
  {
  }

  /** The solidus in front of a name may be given or left out. */
  lemma SolidusIsOptional(name: ByteString)
    requires name == "" || name[0] != '/'
    ensures NameText("/" + name) == NameText(name) == "/" + EscapedNameBytes(name)
    ensures ReadName(NameText(name)[1..]) == Some(name)
  {
    assert WithSolidus(name) == "/" + name == WithSolidus("/" + name) && ("/" + name)[1..] == name;
    NameRoundTrip(name);
    assert NameText(name)[1..] == EscapedNameBytes(name);
  }
}
