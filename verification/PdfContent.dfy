/** PDF content: values and instructions as text. */
module PdfContent {
  import opened Wrappers
  import opened Decimal
  import PdfReal

  // ---------------------------------------------------------------- names and strings

  predicate IsBytes(s: string) { forall i :: 0 <= i < |s| ==> s[i] as int < 256 }

  /** Strings of the original hold bytes. */
  type ByteString = s: string | IsBytes(s)

  predicate IsRegular(c: char) {
    33 <= c as int <= 126 && c !in "#%()/<>[]{}"
  }

  function HexDigit(d: nat): (c: char)
    requires d < 16
    ensures HexValue(c) == Some(d)
  {
    if d < 10 then (d + 48) as char else (d + 55) as char
  }

  function HexValue(c: char): (d: Option<nat>)
    ensures d.Some? ==> d.value < 16
  {
    if IsDigit(c) then Some(c as int - 48)
    else if 'A' <= c <= 'F' then Some(c as int - 55)
    else if 'a' <= c <= 'f' then Some(c as int - 87)
    else None
  }

  function EscapedNameByte(c: char): string
    requires c as int < 256
  {
    if IsRegular(c) then [c] else ['#', HexDigit(c as int / 16), HexDigit(c as int % 16)]
  }

  function EscapedNameBytes(s: ByteString): string {
    if s == "" then "" else EscapedNameByte(s[0]) + EscapedNameBytes(s[1..])
  }

  /** A name with its solidus. */
  function WithSolidus(name: ByteString): ByteString { if name == "" || name[0] != '/' then "/" + name else name }

  /** escapeName. */
  method EscapeName(name: ByteString) returns (result: string)
    ensures result == "/" + EscapedNameBytes(WithSolidus(name)[1..])
  {
    hide EscapedNameByte;
    var full := WithSolidus(name);
    var rest := full[1..];
    result := "/";
    assert rest[0..] == rest;
    for index := 0 to |rest|
      invariant result + EscapedNameBytes(rest[index..]) == "/" + EscapedNameBytes(rest)
    {
      var tail := rest[index..];
      assert tail[0] == rest[index] && tail[1..] == rest[index + 1..];
      Regrouped(result, EscapedNameByte(rest[index]), EscapedNameBytes(rest[index + 1..]));
      result := result + EscapedNameByte(rest[index]);
    }
    assert rest[|rest|..] == "" && result + "" == result;
  }

  /** Reading the characters of a name object: "#" and two hexadecimal digits stand for a byte (section 7.3.5 of
      ISO 32000-1), and only regular characters stand for themselves. */
  function ReadName(s: string): Option<string>
    decreases |s|
  {
    if s == "" then Some("")
    else if s[0] == '#' then
      if |s| < 3 || HexValue(s[1]).None? || HexValue(s[2]).None? then None
      else Prepend([(HexValue(s[1]).value * 16 + HexValue(s[2]).value) as char], ReadName(s[3..]))
    else if IsRegular(s[0]) then Prepend([s[0]], ReadName(s[1..]))
    else None
  }

  /** A name is read back as it was, whatever bytes it holds. */
  lemma {:induction false} NameRoundTrip(s: ByteString)
    ensures ReadName(EscapedNameBytes(s)) == Some(s)
  {
    if s != "" {
      hide EscapedNameByte, ReadName;
      NameRoundTrip(s[1..]);
      assert [s[0]] + s[1..] == s;
    } else {
      assert EscapedNameBytes(s) == "";
    }
  }

  function OctalDigit(d: nat): char
    requires d < 8
  {
    (d + 48) as char
  }

  /** One byte of a literal string. */
  function EscapedByte(c: char): string
    requires c as int < 256
  {
    if c == '\\' || c == '(' || c == ')' then ['\\', c]
    else if c == '\n' then "\\n"
    else if c == '\r' then "\\r"
    else if c == '\t' then "\\t"
    else if c == 8 as char then "\\b"
    else if c == 12 as char then "\\f"
    else if c as int < 32 || c as int > 126 then
      ['\\', OctalDigit(c as int / 64), OctalDigit(c as int / 8 % 8), OctalDigit(c as int % 8)]
    else [c]
  }

  function EscapedBytes(s: ByteString): string {
    if s == "" then "" else EscapedByte(s[0]) + EscapedBytes(s[1..])
  }

  function LiteralString(s: ByteString): string { "(" + (EscapedBytes(s) + ")") }

  /** escapeLiteralString. */
  method EscapeLiteralString(bytes: ByteString) returns (result: string)
    ensures result == LiteralString(bytes)
  {
    hide EscapedByte;
    result := "(";
    assert bytes[0..] == bytes;
    for index := 0 to |bytes|
      invariant result + EscapedBytes(bytes[index..]) == "(" + EscapedBytes(bytes)
    {
      assert bytes[index..][0] == bytes[index] && bytes[index..][1..] == bytes[index + 1..];
      Regrouped(result, EscapedByte(bytes[index]), EscapedBytes(bytes[index + 1..]));
      result := result + EscapedByte(bytes[index]);
    }
    assert bytes[|bytes|..] == "" && result + "" == result;
    Regrouped("(", EscapedBytes(bytes), ")");
    result := result + ")";
  }

  /** The byte that an escape sequence stands for (table 3 of ISO 32000-1), and its length after the backslash. */
  function ReadEscape(s: string): (r: Option<(char, nat)>)
    ensures r.Some? ==> 1 <= r.value.1 <= |s|
  {
    if s == "" then None
    else if s[0] == 'n' then Some(('\n', 1))
    else if s[0] == 'r' then Some(('\r', 1))
    else if s[0] == 't' then Some(('\t', 1))
    else if s[0] == 'b' then Some((8 as char, 1))
    else if s[0] == 'f' then Some((12 as char, 1))
    else if s[0] == '(' || s[0] == ')' || s[0] == '\\' then Some((s[0], 1))
    else if |s| >= 3 && (forall i :: 0 <= i < 3 ==> '0' <= s[i] <= '7') then
      Some((((s[0] as int - 48) * 64 + (s[1] as int - 48) * 8 + (s[2] as int - 48)) as char, 3))
    else None
  }

  /** Reading a literal string up to the parenthesis that closes it; what it holds and what follows it. Opening
      parentheses inside, which need not be escaped when balanced, are not used here and not read. */
  function ReadLiteral(s: string): (r: Option<(string, string)>)
    ensures r.Some? ==> |r.value.1| < |s|
    decreases |s|
  {
    if s == "" || s[0] == '(' then None
    else if s[0] == ')' then Some(("", s[1..]))
    else if s[0] == '\\' then
      match ReadEscape(s[1..])
      case None => None
      case Some((c, n)) => InFront(c, ReadLiteral(s[1 + n..]))
    else InFront(s[0], ReadLiteral(s[1..]))
  }

  function InFront(c: char, r: Option<(string, string)>): Option<(string, string)> {
    match r case None => None case Some(read) => Some(Follow([c], read))
  }

  lemma EscapeIsRead(c: char, rest: string)
    requires c as int < 256 && |EscapedByte(c)| > 1
    ensures EscapedByte(c)[0] == '\\'
    ensures ReadEscape(EscapedByte(c)[1..] + rest) == Some((c, |EscapedByte(c)| - 1))
  {
    var e := EscapedByte(c);
    var s := e[1..] + rest;
    assert s[0] == e[1];
    if |e| > 2 {
      assert s[1] == e[2] && s[2] == e[3];
    }
  }

  lemma PlainIsRead(c: char)
    requires c as int < 256 && |EscapedByte(c)| == 1
    ensures EscapedByte(c) == [c] && c != '\\' && c != '(' && c != ')'
  {
  }

  lemma ReadEscaped(c: char, rest: string)
    requires c as int < 256
    ensures ReadLiteral(EscapedByte(c) + rest) == InFront(c, ReadLiteral(rest))
  {
    hide EscapedByte, ReadEscape;
    var e := EscapedByte(c);
    var s := e + rest;
    EscapedIsNotEmpty(c);
    if |e| == 1 {
      PlainIsRead(c);
      assert s[0] == c && s[1..] == rest;
    } else {
      EscapeIsRead(c, rest);
      assert s[0] == e[0] && s[1..] == e[1..] + rest && s[|e|..] == rest;
    }
  }

  lemma EscapedIsNotEmpty(c: char)
    requires c as int < 256
    ensures EscapedByte(c) != ""
  {
  }

  /** A literal string ends where its own parenthesis is, and is read back as it was, whatever bytes it holds. */
  lemma {:induction false} LiteralRoundTrip(s: ByteString, rest: string)
    ensures ReadLiteral(EscapedBytes(s) + (")" + rest)) == Some((s, rest))
  {
    if s == "" {
      assert EscapedBytes(s) + (")" + rest) == ")" + rest;
    } else {
      hide EscapedByte, ReadLiteral;
      LiteralRoundTrip(s[1..], rest);
      ReadEscaped(s[0], EscapedBytes(s[1..]) + (")" + rest));
      Regrouped(EscapedByte(s[0]), EscapedBytes(s[1..]), ")" + rest);
      assert [s[0]] + s[1..] == s;
    }
  }

  // ---------------------------------------------------------------- values and instructions

  datatype Value =
    | Null
    | Boolean(b: bool)
    | Integer(n: int)
    | Real(number: PdfReal.Finite, lexeme: string)
    | Name(name: ByteString)
    | String(bytes: ByteString)
    | Array(items: seq<Value>)
    | Dictionary(entries: seq<Entry>)   // in key order
    | Raw(syntax: string)

  datatype Entry = Entry(key: ByteString, value: Value)

  function IntegerText(n: int): string { if n < 0 then "-" + ToText(-n) else ToText(n) }

  function NameText(name: ByteString): string { "/" + EscapedNameBytes(WithSolidus(name)[1..]) }

  /** PdfValue::toPdfSyntax. */
  function Syntax(v: Value): string
    decreases v
  {
    match v
    case Null => "null"
    case Boolean(b) => if b then "true" else "false"
    case Integer(n) => IntegerText(n)
    case Real(number, lexeme) => if lexeme == "" then PdfReal.Formatted(number) else lexeme
    case Name(name) => NameText(name)
    case String(bytes) => LiteralString(bytes)
    case Array(items) => "[" + (Joined(items) + "]")
    case Dictionary(entries) => "<<" + (EntriesSyntax(entries) + " >>")
    case Raw(syntax) => syntax
  }

  function Joined(items: seq<Value>): string
    decreases items
  {
    if items == [] then ""
    else if |items| == 1 then Syntax(items[0])
    else Joined(items[..|items| - 1]) + (" " + Syntax(items[|items| - 1]))
  }

  function EntriesSyntax(entries: seq<Entry>): string
    decreases entries
  {
    if entries == [] then ""
    else " " + (NameText(entries[0].key) + (" " + (Syntax(entries[0].value) + EntriesSyntax(entries[1..]))))
  }

  datatype Instruction = Instruction(operands: seq<Value>, operatorName: string, inlineImageData: string)
  {
    predicate IsInlineImageData() { inlineImageData != "" && operatorName == "" }
  }

  function Spaced(line: string, word: string): string { if line == "" then word else line + (" " + word) }

  function Operands(vs: seq<Value>): string {
    if vs == [] then "" else Spaced(Operands(vs[..|vs| - 1]), Syntax(vs[|vs| - 1]))
  }

  /** PdfInstruction::toPdfSyntax. */
  function InstructionSyntax(i: Instruction): string {
    if i.IsInlineImageData() then i.inlineImageData
    else (if i.operatorName == "" then Operands(i.operands) else Spaced(Operands(i.operands), i.operatorName)) + "\n"
  }

  method WriteInstruction(i: Instruction) returns (result: string)
    ensures result == InstructionSyntax(i)
  {
    hide Syntax;
    if i.IsInlineImageData() { return i.inlineImageData; }
    result := "";
    for k := 0 to |i.operands|
      invariant result == Operands(i.operands[..k])
    {
      ghost var upTo := i.operands[..k + 1];
      assert upTo[..|upTo| - 1] == i.operands[..k] && upTo[|upTo| - 1] == i.operands[k];
      assert Operands(upTo) == Spaced(Operands(i.operands[..k]), Syntax(i.operands[k]));
      if result != "" { result := result + " "; }
      result := result + Syntax(i.operands[k]);
    }
    assert i.operands[..|i.operands|] == i.operands;
    if i.operatorName != "" {
      if result != "" { result := result + " "; }
      result := result + i.operatorName;
    }
    result := result + "\n";
  }
}
