/** The grouping of a content stream's instructions into page elements, and writing the elements back. */
module PdfElements {
  import opened Wrappers
  import opened PdfContent
  import PdfOperators

  datatype Kind = Text | InlineImage | Path | Image | Form | Shading | MarkedContent | GraphicsState | Unknown

  datatype Element = Element(kind: Kind, id: nat, instructions: seq<Instruction>)

  /** The names under which images and forms are known. */
  datatype Resources = Resources(images: set<string>, forms: set<string>)

  predicate IsPathConstruction(op: string) { op in ["m", "l", "c", "v", "y", "h", "re"] }

  predicate IsPathTerminator(op: string) { op in ["S", "s", "f", "F", "f*", "B", "B*", "b", "b*", "n"] }

  predicate IsMarkedContent(op: string) { op in ["MP", "DP", "BMC", "BDC", "EMC"] }

  predicate IsGraphicsState(op: string) {
    op in ["q", "Q", "cm", "w", "J", "j", "M", "d", "ri", "i", "gs",
           "CS", "cs", "SC", "SCN", "sc", "scn", "G", "g", "RG", "rg", "K", "k"]
  }

  function NameOperand(i: Instruction): Option<string> {
    if i.operands == [] || !i.operands[0].Name? then None else Some(i.operands[0].name)
  }

  /** An image if the name is one, else a form if it is one. */
  function ResourceKind(name: Option<string>, known: Resources): Kind {
    if name.None? then Unknown
    else if name.value in known.images then Image
    else if name.value in known.forms then Form
    else Unknown
  }

  /** What ends a group that starts with this instruction; None if it stands alone. */
  datatype Ending = EndText | ImageData | PathEnd

  function EndingOf(op: string): Option<Ending> {
    if op == "BT" then Some(EndText)
    else if op == "BI" then Some(ImageData)
    else if IsPathConstruction(op) then Some(PathEnd)
    else None
  }

  predicate Ends(e: Ending, i: Instruction) {
    match e
    case EndText => i.operatorName == "ET"
    case ImageData => i.IsInlineImageData()
    case PathEnd => IsPathTerminator(i.operatorName)
  }

  function KindOfEnding(e: Ending): Kind {
    match e case EndText => Text case ImageData => InlineImage case PathEnd => Path
  }

  /** The length of a group: as far as the first ending after its start, or everything. */
  function GroupLength(ops: seq<Instruction>, e: Ending, from: nat := 1): (n: nat)
    requires 1 <= from <= |ops|
    ensures from <= n <= |ops|
    ensures forall i :: from <= i < n - 1 ==> !Ends(e, ops[i])
    ensures n == |ops| || (n > from && Ends(e, ops[n - 1]))
    decreases |ops| - from
  {
    if from == |ops| then from
    else if Ends(e, ops[from]) then from + 1
    else GroupLength(ops, e, from + 1)
  }

  /** q cm Do Q around a known image or form. */
  predicate IsPlacement(ops: seq<Instruction>, known: Resources) {
    && |ops| > 3
    && ops[0].operatorName == "q" && ops[1].operatorName == "cm" && ops[2].operatorName == "Do" && ops[3].operatorName == "Q"
    && ResourceKind(NameOperand(ops[2]), known) != Unknown
  }

  function SingleKind(i: Instruction, known: Resources): Kind {
    if i.operatorName == "Do" then ResourceKind(NameOperand(i), known)
    else if i.operatorName == "sh" then Shading
    else if IsMarkedContent(i.operatorName) then MarkedContent
    else if IsGraphicsState(i.operatorName) then GraphicsState
    else Unknown
  }

  /** The kind and the length of the first group. */
  function FirstGroup(ops: seq<Instruction>, known: Resources): (g: (Kind, nat))
    requires ops != []
    ensures 1 <= g.1 <= |ops|
  {
    match EndingOf(ops[0].operatorName)
    case Some(e) => (KindOfEnding(e), GroupLength(ops, e))
    case None =>
      if IsPlacement(ops, known) then (ResourceKind(NameOperand(ops[2]), known), 4)
      else (SingleKind(ops[0], known), 1)
  }

  function Classified(ops: seq<Instruction>, known: Resources, nextId: nat): seq<Element>
    decreases |ops|
  {
    if ops == [] then []
    else
      var (kind, n) := FirstGroup(ops, known);
      [Element(kind, nextId, ops[..n])] + Classified(ops[n..], known, nextId + 1)
  }

  // ---------------------------------------------------------------- classify

  /** The loops that look for the end of a group. */
  method FindEnd(instructions: seq<Instruction>, index: nat, e: Ending) returns (end: nat)
    requires index < |instructions|
    ensures end == index + GroupLength(instructions[index..], e)
  {
    var rest := instructions[index..];
    end := index + 1;
    while end < |instructions| && !Ends(e, instructions[end])
      invariant index < end <= |instructions|
      invariant GroupLength(rest, e, end - index) == GroupLength(rest, e)
    {
      assert rest[end - index] == instructions[end];
      end := end + 1;
    }
    if end < |instructions| {
      assert rest[end - index] == instructions[end];
      end := end + 1;
    }
  }

  /** One turn of the loop of classify: the kind of the next element and the end of its instructions. */
  method NextGroup(instructions: seq<Instruction>, index: nat, known: Resources) returns (kind: Kind, end: nat)
    requires index < |instructions|
    ensures (kind, end - index) == FirstGroup(instructions[index..], known)
  {
    hide GroupLength, ResourceKind, IsPathConstruction, IsMarkedContent, IsGraphicsState, NameOperand;
    ghost var rest := instructions[index..];
    var operatorName := instructions[index].operatorName;
    assert rest[0] == instructions[index];
    if operatorName == "BT" {
      end := FindEnd(instructions, index, EndText);
      return Text, end;
    }
    if operatorName == "BI" {
      end := FindEnd(instructions, index, ImageData);
      return InlineImage, end;
    }
    if IsPathConstruction(operatorName) {
      end := FindEnd(instructions, index, PathEnd);
      return Path, end;
    }
    if operatorName == "q" && index + 3 < |instructions|
       && instructions[index + 1].operatorName == "cm"
       && instructions[index + 2].operatorName == "Do"
       && instructions[index + 3].operatorName == "Q" {
      assert rest[1] == instructions[index + 1] && rest[2] == instructions[index + 2] && rest[3] == instructions[index + 3];
      kind := ResourceKind(NameOperand(instructions[index + 2]), known);
      if kind != Unknown { return kind, index + 4; }
    } else if index + 3 < |instructions| {
      assert rest[1] == instructions[index + 1] && rest[2] == instructions[index + 2] && rest[3] == instructions[index + 3];
    }
    if operatorName == "Do" { return ResourceKind(NameOperand(instructions[index]), known), index + 1; }
    if operatorName == "sh" { return Shading, index + 1; }
    if IsMarkedContent(operatorName) { return MarkedContent, index + 1; }
    if IsGraphicsState(operatorName) { return GraphicsState, index + 1; }
    return Unknown, index + 1;
  }

  lemma ClassifiedStep(ops: seq<Instruction>, index: nat, known: Resources, done: seq<Element>, id: nat)
    requires index < |ops|
    ensures var (kind, n) := FirstGroup(ops[index..], known);
            done + Classified(ops[index..], known, id)
            == (done + [Element(kind, id, ops[index..index + n])]) + Classified(ops[index + n..], known, id + 1)
  {
    hide FirstGroup;
    var (kind, n) := FirstGroup(ops[index..], known);
    assert ops[index..][..n] == ops[index..index + n] && ops[index..][n..] == ops[index + n..];
    Regrouped(done, [Element(kind, id, ops[index..index + n])], Classified(ops[index + n..], known, id + 1));
  }

  /** classify; `next` is the id counter that the original advances by reference. */
  method Classify(instructions: seq<Instruction>, known: Resources, nextId: nat) returns (result: seq<Element>, next: nat)
    ensures result == Classified(instructions, known, nextId)
    ensures next == nextId + |result|
  {
    hide FirstGroup;
    result, next := [], nextId;
    var index: nat := 0;
    assert instructions[0..] == instructions;
    assert [] + Classified(instructions, known, nextId) == Classified(instructions, known, nextId);
    while index < |instructions|
      invariant index <= |instructions| && next == nextId + |result|
      invariant result + Classified(instructions[index..], known, next) == Classified(instructions, known, nextId)
      decreases |instructions| - index
    {
      ClassifiedStep(instructions, index, known, result, next);
      var kind, end := NextGroup(instructions, index, known);
      result := result + [Element(kind, next, instructions[index..end])];
      next, index := next + 1, end;
    }
    assert instructions[index..] == [] && result + [] == result;
  }

  // ---------------------------------------------------------------- nothing is lost

  function AllInstructions(es: seq<Element>): seq<Instruction> {
    if es == [] then [] else es[0].instructions + AllInstructions(es[1..])
  }

  /** The elements hold the instructions in their order, each at least one, under consecutive ids. */
  lemma {:induction false} ClassifyLosesNothing(ops: seq<Instruction>, known: Resources, nextId: nat)
    ensures var es := Classified(ops, known, nextId);
            && AllInstructions(es) == ops
            && forall k :: 0 <= k < |es| ==> es[k].instructions != [] && es[k].id == nextId + k
    decreases |ops|
  {
    if ops != [] {
      hide FirstGroup;
      var (kind, n) := FirstGroup(ops, known);
      ClassifyLosesNothing(ops[n..], known, nextId + 1);
      var rest := Classified(ops[n..], known, nextId + 1);
      assert ([Element(kind, nextId, ops[..n])] + rest)[1..] == rest;
      Halves(ops, n);
    }
  }

  /** What the operator begins, if it begins an object of several instructions. */
  function KindBegun(op: string): Option<Kind> {
    if op == "BT" then Some(Text)
    else if op == "BI" then Some(InlineImage)
    else if PdfOperators.ConstructsPath(op) then Some(Path)
    else None
  }

  predicate IsLastOf(kind: Kind, i: Instruction) {
    match kind
    case Text => i.operatorName == "ET"
    case InlineImage => i.operatorName == "" && i.inlineImageData != ""
    case Path => PdfOperators.PaintsPath(i.operatorName)
    case _ => false
  }

  /** The XObject that a Do names: an image if there is one of the name, else a form. */
  function ExternalKind(call: Instruction, known: Resources): Kind {
    if call.operands == [] || !call.operands[0].Name? then Unknown
    else if call.operands[0].name in known.images then Image
    else if call.operands[0].name in known.forms then Form
    else Unknown
  }

  /** q cm Do Q around a known XObject. */
  predicate Places(ops: seq<Instruction>, known: Resources) {
    && |ops| > 3
    && ops[0].operatorName == "q" && ops[1].operatorName == "cm" && ops[2].operatorName == "Do" && ops[3].operatorName == "Q"
    && ExternalKind(ops[2], known) != Unknown
  }

  function KindAlone(i: Instruction, known: Resources): Kind {
    if i.operatorName == "Do" then ExternalKind(i, known)
    else if i.operatorName == "sh" then Shading
    else if PdfOperators.MarksContent(i.operatorName) then MarkedContent
    else if PdfOperators.SetsState(i.operatorName) then GraphicsState
    else Unknown
  }

  /** What an element is, when `after` are the instructions from its first one on: text, inline images and paths
      reach to their first last instruction, the four instructions around a known resource are one element, and
      everything else stands alone. */
  predicate IsOfKind(e: Element, after: seq<Instruction>, known: Resources)
    requires e.instructions != []
  {
    var ops := e.instructions;
    && ops <= after
    && match KindBegun(ops[0].operatorName)
       case Some(kind) =>
         && e.kind == kind
         && (forall i :: 1 <= i < |ops| - 1 ==> !IsLastOf(kind, ops[i]))
         && (ops == after || (|ops| > 1 && IsLastOf(kind, ops[|ops| - 1])))
       case None =>
         if Places(after, known) then |ops| == 4 && e.kind == ExternalKind(after[2], known)
         else |ops| == 1 && e.kind == KindAlone(ops[0], known)
  }

  /** The tables of the classifier are those of the standard. */
  lemma SameTables(op: string)
    ensures IsPathConstruction(op) == PdfOperators.ConstructsPath(op) && IsPathTerminator(op) == PdfOperators.PaintsPath(op)
    ensures IsMarkedContent(op) == PdfOperators.MarksContent(op)
  {
  }

  lemma SameSettings(op: string)
    ensures IsGraphicsState(op) == PdfOperators.SetsState(op)
  {
  }

  lemma SameGroups(i: Instruction, known: Resources)
    ensures EndingOf(i.operatorName).Some? == KindBegun(i.operatorName).Some?
    ensures var e := EndingOf(i.operatorName);
            e.Some? ==> KindBegun(i.operatorName) == Some(KindOfEnding(e.value))
    ensures ResourceKind(NameOperand(i), known) == ExternalKind(i, known)
    ensures SingleKind(i, known) == KindAlone(i, known)
  {
    hide IsPathConstruction, IsPathTerminator, IsMarkedContent, IsGraphicsState, PdfOperators.ConstructsPath,
         PdfOperators.PaintsPath, PdfOperators.MarksContent, PdfOperators.SetsState;
    SameTables(i.operatorName);
    SameSettings(i.operatorName);
  }

  lemma SamePlacements(ops: seq<Instruction>, known: Resources)
    ensures IsPlacement(ops, known) == Places(ops, known)
  {
  }

  lemma SameEnds(e: Ending, i: Instruction)
    ensures Ends(e, i) == IsLastOf(KindOfEnding(e), i)
  {
    hide IsPathTerminator, PdfOperators.PaintsPath;
    SameTables(i.operatorName);
  }

  /** Every element is of its kind. */
  lemma {:induction false} KindsAreRight(ops: seq<Instruction>, known: Resources, nextId: nat, k: nat)
    requires k < |Classified(ops, known, nextId)|
    ensures var es := Classified(ops, known, nextId);
            es[k].instructions != [] && IsOfKind(es[k], AllInstructions(es[k..]), known)
    decreases |ops|
  {
    hide FirstGroup, IsOfKind, AllInstructions;
    var (kind, n) := FirstGroup(ops, known);
    var es, rest := Classified(ops, known, nextId), Classified(ops[n..], known, nextId + 1);
    assert es == [Element(kind, nextId, ops[..n])] + rest;
    if k > 0 {
      KindsAreRight(ops[n..], known, nextId + 1, k - 1);
      assert es[k] == rest[k - 1] && es[k..] == rest[k - 1..];
    } else {
      FirstIsOfKind(ops, known, nextId);
      ClassifyLosesNothing(ops, known, nextId);
      assert es[0..] == es;
    }
  }

  lemma FirstIsOfKind(ops: seq<Instruction>, known: Resources, id: nat)
    requires ops != []
    ensures var (kind, n) := FirstGroup(ops, known);
            IsOfKind(Element(kind, id, ops[..n]), ops, known)
  {
    hide EndingOf, KindBegun, Ends, IsLastOf, IsPlacement, Places, SingleKind, KindAlone, ResourceKind, ExternalKind;
    var (kind, n) := FirstGroup(ops, known);
    var group := ops[..n];
    assert group[0] == ops[0];
    SameGroups(ops[0], known);
    SamePlacements(ops, known);
    if EndingOf(ops[0].operatorName).Some? {
      var e := EndingOf(ops[0].operatorName).value;
      forall i | 1 <= i < n ensures Ends(e, ops[i]) == IsLastOf(kind, group[i]) { SameEnds(e, ops[i]); }
      if n == |ops| { assert group == ops; }
    } else if IsPlacement(ops, known) {
      PlacementHasFour(ops, known);
      SameGroups(ops[2], known);
    }
  }

  lemma PlacementHasFour(ops: seq<Instruction>, known: Resources)
    requires IsPlacement(ops, known)
    ensures |ops| > 3
  {
  }

  /** There is no other way to cut the instructions into elements that are of their kinds: what satisfies the
      description is the classification. */
  lemma {:induction false} OnlyClassification(es: seq<Element>, known: Resources, nextId: nat)
    requires AllOfTheirKinds(es, known, nextId)
    ensures es == Classified(AllInstructions(es), known, nextId)
    decreases |es|
  {
    hide *;
    if es == [] {
      NothingClassified(known, nextId);
    } else {
      var e, rest, n := es[0], es[1..], |es[0].instructions|;
      var ops := e.instructions + AllInstructions(rest);
      FirstAndRest(es, known, nextId);
      OnlyClassification(rest, known, nextId + 1);
      GroupOfKind(e, ops, known);
      assert ops[..n] == e.instructions && ops[n..] == AllInstructions(rest);
      FirstClassified(ops, e, known);
      assert es == [e] + rest;
    }
  }

  lemma FirstClassified(ops: seq<Instruction>, e: Element, known: Resources)
    requires ops != [] && FirstGroup(ops, known) == (e.kind, |e.instructions|) && ops[..|e.instructions|] == e.instructions
    ensures Classified(ops, known, e.id) == [e] + Classified(ops[|e.instructions|..], known, e.id + 1)
  {
    hide FirstGroup;
    assert e == Element(e.kind, e.id, e.instructions);
  }

  lemma NothingClassified(known: Resources, nextId: nat)
    ensures AllInstructions([]) == [] && Classified([], known, nextId) == []
  {
  }

  /** Non-empty elements under consecutive ids, each of its kind where it stands. */
  ghost predicate AllOfTheirKinds(es: seq<Element>, known: Resources, nextId: nat) {
    && (forall k :: 0 <= k < |es| ==> es[k].instructions != [] && es[k].id == nextId + k)
    && (forall k :: 0 <= k < |es| ==> IsOfKind(es[k], AllInstructions(es[k..]), known))
  }

  lemma FirstAndRest(es: seq<Element>, known: Resources, nextId: nat)
    requires es != [] && AllOfTheirKinds(es, known, nextId)
    ensures es[0].instructions != [] && es[0].id == nextId && IsOfKind(es[0], AllInstructions(es), known)
    ensures AllOfTheirKinds(es[1..], known, nextId + 1)
    ensures AllInstructions(es) == es[0].instructions + AllInstructions(es[1..])
  {
    hide IsOfKind;
    var rest := es[1..];
    assert es[0..] == es;
    forall k | 0 <= k < |rest|
      ensures rest[k].instructions != [] && rest[k].id == nextId + 1 + k && IsOfKind(rest[k], AllInstructions(rest[k..]), known)
    {
      assert rest[k] == es[k + 1] && rest[k..] == es[k + 1..];
    }
  }

  lemma GroupOfKind(e: Element, ops: seq<Instruction>, known: Resources)
    requires e.instructions != [] && IsOfKind(e, ops, known)
    ensures FirstGroup(ops, known) == (e.kind, |e.instructions|)
  {
    hide EndingOf, KindBegun, Ends, IsLastOf, IsPlacement, Places, SingleKind, KindAlone, ResourceKind, ExternalKind, GroupLength;
    var n := |e.instructions|;
    assert ops[0] == e.instructions[0];
    SameGroups(ops[0], known);
    SamePlacements(ops, known);
    if EndingOf(ops[0].operatorName).Some? {
      var ending := EndingOf(ops[0].operatorName).value;
      forall i | 0 <= i < n ensures Ends(ending, ops[i]) == IsLastOf(e.kind, e.instructions[i]) {
        assert ops[i] == e.instructions[i];
        SameEnds(ending, ops[i]);
      }
      hide KindOfEnding;
      LengthOfGroup(ops, ending, n);
    } else if IsPlacement(ops, known) {
      PlacementHasFour(ops, known);
      SameGroups(ops[2], known);
    }
  }

  lemma LengthOfGroup(ops: seq<Instruction>, e: Ending, n: nat)
    requires 1 <= n <= |ops| && (forall i :: 1 <= i < n - 1 ==> !Ends(e, ops[i]))
    requires n == |ops| || (n > 1 && Ends(e, ops[n - 1]))
    ensures GroupLength(ops, e) == n
  {
    hide Ends;
  }

  // ---------------------------------------------------------------- writing elements

  /** Names that replace the resource of an element's Do instructions. */
  type Overrides = map<nat, ByteString>

  function Overridden(i: Instruction, id: nat, overrides: Overrides): Instruction {
    if i.operatorName != "Do" || id !in overrides then i
    else if i.operands == [] then i.(operands := [Name(overrides[id])])
    else i.(operands := i.operands[0 := Name(overrides[id])])
  }

  function SyntaxOf(ops: seq<Instruction>): string {
    if ops == [] then "" else InstructionSyntax(ops[0]) + SyntaxOf(ops[1..])
  }

  function OverriddenAll(ops: seq<Instruction>, id: nat, overrides: Overrides): (os: seq<Instruction>)
    ensures |os| == |ops| && forall k :: 0 <= k < |ops| ==> os[k] == Overridden(ops[k], id, overrides)
  {
    seq(|ops|, k requires 0 <= k < |ops| => Overridden(ops[k], id, overrides))
  }

  function Serialized(es: seq<Element>, overrides: Overrides): string {
    if es == [] then ""
    else SyntaxOf(OverriddenAll(es[0].instructions, es[0].id, overrides)) + Serialized(es[1..], overrides)
  }

  /** serializeElement. */
  method SerializeElement(e: Element, overrides: Overrides) returns (result: string)
    ensures result == SyntaxOf(OverriddenAll(e.instructions, e.id, overrides))
  {
    hide InstructionSyntax, Overridden;
    result := "";
    ghost var all := OverriddenAll(e.instructions, e.id, overrides);
    assert all[0..] == all && "" + SyntaxOf(all) == SyntaxOf(all);
    for k := 0 to |e.instructions|
      invariant result + SyntaxOf(all[k..]) == SyntaxOf(all)
    {
      assert all[k..][0] == all[k] && all[k..][1..] == all[k + 1..];
      Regrouped(result, InstructionSyntax(all[k]), SyntaxOf(all[k + 1..]));
      var syntax := WriteInstruction(Overridden(e.instructions[k], e.id, overrides));
      result := result + syntax;
    }
    assert all[|all|..] == [] && result + "" == result;
  }

  /** serializeElements. */
  method SerializeElements(es: seq<Element>, overrides: Overrides) returns (result: string)
    ensures result == Serialized(es, overrides)
  {
    hide SyntaxOf, OverriddenAll;
    result := "";
    assert es[0..] == es && "" + Serialized(es, overrides) == Serialized(es, overrides);
    for k := 0 to |es|
      invariant result + Serialized(es[k..], overrides) == Serialized(es, overrides)
    {
      assert es[k..][0] == es[k] && es[k..][1..] == es[k + 1..];
      var part := SerializeElement(es[k], overrides);
      Regrouped(result, part, Serialized(es[k + 1..], overrides));
      result := result + part;
    }
    assert es[|es|..] == [] && result + "" == result;
  }

  lemma {:induction false} SyntaxConcat(a: seq<Instruction>, b: seq<Instruction>)
    ensures SyntaxOf(a + b) == SyntaxOf(a) + SyntaxOf(b)
  {
    if a == [] {
      assert a + b == b;
    } else {
      hide InstructionSyntax;
      assert SyntaxOf(a) == InstructionSyntax(a[0]) + SyntaxOf(a[1..]);
      assert SyntaxOf(a + b) == InstructionSyntax(a[0]) + SyntaxOf(a[1..] + b) by {
        assert (a + b)[0] == a[0] && (a + b)[1..] == a[1..] + b;
      }
      hide SyntaxOf;
      SyntaxConcat(a[1..], b);
      Regrouped(InstructionSyntax(a[0]), SyntaxOf(a[1..]), SyntaxOf(b));
    }
  }

  lemma {:induction false} PlainSerialized(es: seq<Element>, overrides: Overrides)
    requires forall k :: 0 <= k < |es| ==> es[k].id !in overrides
    ensures Serialized(es, overrides) == SyntaxOf(AllInstructions(es))
  {
    if es != [] {
      hide SyntaxOf;
      PlainSerialized(es[1..], overrides);
      SyntaxConcat(es[0].instructions, AllInstructions(es[1..]));
      assert OverriddenAll(es[0].instructions, es[0].id, overrides) == es[0].instructions;
    } else {
      assert AllInstructions(es) == [];
    }
  }

  /** Classifying and writing back without overrides gives exactly the syntax of the original instructions. */
  lemma SerializeClassified(ops: seq<Instruction>, known: Resources, nextId: nat, overrides: Overrides)
    requires forall id :: id in overrides ==> id < nextId || id >= nextId + |Classified(ops, known, nextId)|
    ensures Serialized(Classified(ops, known, nextId), overrides) == SyntaxOf(ops)
  {
    ClassifyLosesNothing(ops, known, nextId);
    PlainSerialized(Classified(ops, known, nextId), overrides);
  }

  /** Serialising changes the name in the Do of an element that has an override, and nothing else. */
  predicate IsWrittenFor(i: Instruction, written: Instruction, name: Option<ByteString>) {
    if i.operatorName == "Do" && name.Some? then
      && written.operatorName == "Do" && written.inlineImageData == i.inlineImageData
      && |written.operands| == Max(1, |i.operands|) && written.operands[0] == Name(name.value)
      && forall k :: 1 <= k < |i.operands| ==> written.operands[k] == i.operands[k]
    else written == i
  }

  ghost predicate AreWrittenFor(es: seq<Element>, pieces: seq<seq<Instruction>>, overrides: Overrides) {
    && |pieces| == |es|
    && (forall k :: 0 <= k < |es| ==> |pieces[k]| == |es[k].instructions|)
    && forall k, r :: 0 <= k < |es| && 0 <= r < |pieces[k]| ==>
         IsWrittenFor(es[k].instructions[r], pieces[k][r], if es[k].id in overrides then Some(overrides[es[k].id]) else None)
  }

  function AllPieces(pieces: seq<seq<Instruction>>): seq<Instruction> {
    if pieces == [] then [] else pieces[0] + AllPieces(pieces[1..])
  }

  lemma PieceIsWritten(e: Element, overrides: Overrides)
    ensures var piece := OverriddenAll(e.instructions, e.id, overrides);
            forall r :: 0 <= r < |piece| ==>
              IsWrittenFor(e.instructions[r], piece[r], if e.id in overrides then Some(overrides[e.id]) else None)
  {
  }

  /** The elements are written instruction for instruction in their order, with the names of the overrides. */
  lemma {:induction false} SerializedWithOverrides(es: seq<Element>, overrides: Overrides) returns (pieces: seq<seq<Instruction>>)
    ensures AreWrittenFor(es, pieces, overrides) && Serialized(es, overrides) == SyntaxOf(AllPieces(pieces))
  {
    if es == [] {
      pieces := [];
    } else {
      hide SyntaxOf, IsWrittenFor, OverriddenAll;
      var first := OverriddenAll(es[0].instructions, es[0].id, overrides);
      PieceIsWritten(es[0], overrides);
      var rest := SerializedWithOverrides(es[1..], overrides);
      pieces := [first] + rest;
      assert pieces[1..] == rest;
      SyntaxConcat(first, AllPieces(rest));
    }
  }
}
