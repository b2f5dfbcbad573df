/** The objects that a page description consists of, as section 8.2 of ISO 32000-1 lists them, and that classifying a
    content stream finds them. */
module PdfObjects {
  import opened Wrappers
  import opened PdfContent
  import opened PdfOperators
  import opened PdfElements

  // ---------------------------------------------------------------- the objects of a page

  datatype PageObject =
    | PathObject(construction: seq<Instruction>, clipping: seq<Instruction>, painting: Instruction)
    | TextObject(begin: Instruction, content: seq<Instruction>, end: Instruction)
    | InlineImageObject(begin: Instruction, dictionary: Instruction, data: Instruction, end: Instruction)
    | ShadingObject(shading: Instruction)
    | ExternalObject(call: Instruction)
    | PlacedObject(save: Instruction, matrix: Instruction, call: Instruction, restore: Instruction)
    | MarkedContentOperator(marker: Instruction)
    | StateOperator(setting: Instruction)
    | OtherOperator(other: Instruction)

  /** Section 8.2 of ISO 32000-1. */
  predicate IsPageObject(o: PageObject, known: Resources) {
    match o
    case PathObject(construction, clipping, painting) =>
      && construction != []
      && (forall i :: 0 <= i < |construction| ==> ConstructsPath(construction[i].operatorName))
      && |clipping| <= 1 && (forall i :: 0 <= i < |clipping| ==> Clips(clipping[i].operatorName))
      && PaintsPath(painting.operatorName)
    case TextObject(begin, content, end) =>
      && begin.operatorName == "BT" && end.operatorName == "ET"
      && forall i :: 0 <= i < |content| ==> content[i].operatorName != "ET"
    case InlineImageObject(begin, dictionary, data, end) =>
      && begin.operatorName == "BI" && dictionary.operatorName == "ID"
      && data.operatorName == "" && data.inlineImageData != "" && end.operatorName == "EI"
    case ShadingObject(shading) => shading.operatorName == "sh"
    case ExternalObject(call) => call.operatorName == "Do"
    case PlacedObject(save, matrix, call, restore) =>
      && save.operatorName == "q" && matrix.operatorName == "cm" && call.operatorName == "Do" && restore.operatorName == "Q"
      && ExternalKind(call, known) != Unknown
    case MarkedContentOperator(marker) => MarksContent(marker.operatorName)
    case StateOperator(setting) => SetsState(setting.operatorName)
    case OtherOperator(other) => IsNeither(other.operatorName)
  }

  function Instructions(o: PageObject): (ops: seq<Instruction>)
    ensures ops != []
  {
    match o
    case PathObject(construction, clipping, painting) => construction + clipping + [painting]
    case TextObject(begin, content, end) => [begin] + content + [end]
    case InlineImageObject(begin, dictionary, data, end) => [begin, dictionary, data, end]
    case ShadingObject(shading) => [shading]
    case ExternalObject(call) => [call]
    case PlacedObject(save, matrix, call, restore) => [save, matrix, call, restore]
    case MarkedContentOperator(marker) => [marker]
    case StateOperator(setting) => [setting]
    case OtherOperator(other) => [other]
  }

  function StreamOf(objects: seq<PageObject>): seq<Instruction> {
    if objects == [] then [] else Instructions(objects[0]) + StreamOf(objects[1..])
  }

  /** A known XObject between q, cm and Q is taken as one object. */
  ghost predicate PlacementsAreTaken(objects: seq<PageObject>, known: Resources) {
    forall i :: 0 <= i < |objects| - 3 ==> !IsLoosePlacement(objects, i, known)
  }

  predicate IsLoosePlacement(objects: seq<PageObject>, i: nat, known: Resources)
    requires i + 3 < |objects|
  {
    && objects[i].StateOperator? && objects[i].setting.operatorName == "q"
    && objects[i + 1].StateOperator? && objects[i + 1].setting.operatorName == "cm"
    && objects[i + 2].ExternalObject? && ExternalKind(objects[i + 2].call, known) != Unknown
    && objects[i + 3].StateOperator? && objects[i + 3].setting.operatorName == "Q"
  }

  ghost predicate IsPage(objects: seq<PageObject>, known: Resources) {
    (forall i :: 0 <= i < |objects| ==> IsPageObject(objects[i], known)) && PlacementsAreTaken(objects, known)
  }

  // ---------------------------------------------------------------- the elements that they become

  function KindOf(o: PageObject, known: Resources): Kind {
    match o
    case PathObject(_, _, _) => Path
    case TextObject(_, _, _) => Text
    case InlineImageObject(_, _, _, _) => InlineImage
    case ShadingObject(_) => Shading
    case ExternalObject(call) => ExternalKind(call, known)
    case PlacedObject(_, _, call, _) => ExternalKind(call, known)
    case MarkedContentOperator(_) => MarkedContent
    case StateOperator(_) => GraphicsState
    case OtherOperator(_) => Unknown
  }

  /** One element for each object; the EI of an inline image stands apart. */
  function ElementsFor(o: PageObject, known: Resources, id: nat): (es: seq<Element>)
    ensures es != []
  {
    match o
    case InlineImageObject(begin, dictionary, data, end) =>
      [Element(InlineImage, id, [begin, dictionary, data]), Element(Unknown, id + 1, [end])]
    case _ => [Element(KindOf(o, known), id, Instructions(o))]
  }

  function ElementsOf(objects: seq<PageObject>, known: Resources, id: nat): seq<Element> {
    if objects == [] then []
    else
      var first := ElementsFor(objects[0], known, id);
      first + ElementsOf(objects[1..], known, id + |first|)
  }

  // ---------------------------------------------------------------- classification finds them

  lemma OneClassified(ops: seq<Instruction>, known: Resources, id: nat, kind: Kind, n: nat)
    requires ops != [] && FirstGroup(ops, known) == (kind, n)
    ensures Classified(ops, known, id) == [Element(kind, id, ops[..n])] + Classified(ops[n..], known, id + 1)
  {
    hide FirstGroup;
  }

  lemma PathFound(o: PageObject, rest: seq<Instruction>, known: Resources)
    requires o.PathObject? && IsPageObject(o, known)
    ensures FirstGroup(Instructions(o) + rest, known) == (Path, |Instructions(o)|)
  {
    var own := Instructions(o);
    var ops, n, k := own + rest, |own|, |o.construction|;
    assert ops[0] == o.construction[0];
    forall i | 1 <= i < n - 1 ensures !Ends(PathEnd, ops[i]) {
      assert ops[i] == if i < k then o.construction[i] else o.clipping[i - k];
    }
    assert ops[n - 1] == o.painting;
    LengthOfGroup(ops, PathEnd, n);
  }

  lemma TextFound(o: PageObject, rest: seq<Instruction>, known: Resources)
    requires o.TextObject? && IsPageObject(o, known)
    ensures FirstGroup(Instructions(o) + rest, known) == (Text, |Instructions(o)|)
  {
    var own := Instructions(o);
    var ops, n := own + rest, |own|;
    assert ops[0] == o.begin && ops[n - 1] == o.end;
    forall i | 1 <= i < n - 1 ensures !Ends(EndText, ops[i]) { assert ops[i] == o.content[i - 1]; }
    LengthOfGroup(ops, EndText, n);
  }

  lemma ImageFound(o: PageObject, rest: seq<Instruction>, known: Resources)
    requires o.InlineImageObject? && IsPageObject(o, known)
    ensures FirstGroup(Instructions(o) + rest, known) == (InlineImage, 3)
    ensures FirstGroup([o.end] + rest, known) == (Unknown, 1)
  {
    var ops := Instructions(o) + rest;
    assert ops[0] == o.begin && ops[1] == o.dictionary && ops[2] == o.data;
    LengthOfGroup(ops, ImageData, 3);
  }

  lemma PlacedFound(o: PageObject, rest: seq<Instruction>, known: Resources)
    requires o.PlacedObject? && IsPageObject(o, known)
    ensures FirstGroup(Instructions(o) + rest, known) == (KindOf(o, known), 4)
  {
    var ops := Instructions(o) + rest;
    assert ops[0] == o.save && ops[1] == o.matrix && ops[2] == o.call && ops[3] == o.restore;
  }

  lemma SettingsDrawNothing(op: string)
    requires SetsState(op)
    ensures op !in ["BT", "BI", "Do", "sh"] && !ConstructsPath(op)
    ensures !MarksContent(op)
  {
  }

  lemma SettingsAreState(op: string)
    requires SetsState(op)
    ensures IsGraphicsState(op)
  {
  }

  lemma StateStandsAlone(i: Instruction, known: Resources)
    requires SetsState(i.operatorName)
    ensures EndingOf(i.operatorName) == None && SingleKind(i, known) == GraphicsState
  {
    hide SetsState, IsGraphicsState;
    SettingsDrawNothing(i.operatorName);
    SettingsAreState(i.operatorName);
  }

  lemma MarkerStandsAlone(i: Instruction, known: Resources)
    requires IsPageObject(MarkedContentOperator(i), known)
    ensures EndingOf(i.operatorName) == None && SingleKind(i, known) == MarkedContent
  {
  }

  lemma OthersAreUnknown(op: string)
    requires IsNeither(op)
    ensures op !in ["BT", "BI", "Do", "sh"] && !ConstructsPath(op)
    ensures !MarksContent(op) && op !in ["q", "cm", "Q"]
  {
  }

  lemma OthersAreNoState(op: string)
    requires IsNeither(op)
    ensures !IsGraphicsState(op)
  {
  }

  lemma OtherStandsAlone(i: Instruction, known: Resources)
    requires IsPageObject(OtherOperator(i), known)
    ensures EndingOf(i.operatorName) == None && SingleKind(i, known) == Unknown
  {
    hide IsGraphicsState;
    OthersAreUnknown(i.operatorName);
    OthersAreNoState(i.operatorName);
  }

  lemma ShadingStandsAlone(i: Instruction, known: Resources)
    requires i.operatorName == "sh"
    ensures EndingOf(i.operatorName) == None && SingleKind(i, known) == Shading
  {
  }

  lemma CallStandsAlone(i: Instruction, known: Resources)
    requires i.operatorName == "Do"
    ensures EndingOf(i.operatorName) == None && SingleKind(i, known) == ExternalKind(i, known)
  {
  }

  predicate IsSingle(o: PageObject) {
    o.ShadingObject? || o.ExternalObject? || o.MarkedContentOperator? || o.StateOperator? || o.OtherOperator?
  }

  /** An operator that is an object by itself, unless a placement begins with it. */
  lemma SingleFound(o: PageObject, rest: seq<Instruction>, known: Resources)
    requires IsSingle(o) && IsPageObject(o, known) && !IsPlacement(Instructions(o) + rest, known)
    ensures FirstGroup(Instructions(o) + rest, known) == (KindOf(o, known), 1)
  {
    hide IsPlacement, EndingOf, SingleKind, ExternalKind;
    match o
    case ShadingObject(i) => ShadingStandsAlone(i, known);
    case ExternalObject(i) => CallStandsAlone(i, known);
    case MarkedContentOperator(i) => MarkerStandsAlone(i, known);
    case StateOperator(i) => StateStandsAlone(i, known);
    case OtherOperator(i) => OtherStandsAlone(i, known);
  }

  /** These operators begin no object but one of their own. */
  lemma FirstOperator(o: PageObject, known: Resources)
    requires IsPageObject(o, known)
    ensures var op := Instructions(o)[0].operatorName;
            && (op in ["q", "cm", "Q"] ==> o.StateOperator? || (o.PlacedObject? && op == "q"))
            && (op == "Do" ==> o.ExternalObject?)
  {
    hide SetsState, ExternalKind;
    match o
    case StateOperator(i) => SettingsDrawNothing(i.operatorName);
    case OtherOperator(i) => OthersAreUnknown(i.operatorName);
    case PathObject(construction, _, _) => assert Instructions(o)[0] == construction[0];
    case _ =>
  }

  lemma BeginsWith(objects: seq<PageObject>, known: Resources)
    requires objects != [] && IsPageObject(objects[0], known)
    ensures var op := StreamOf(objects)[0].operatorName;
            && (op == "cm" || op == "Q" ==> objects[0].StateOperator? && StreamOf(objects) == [objects[0].setting] + StreamOf(objects[1..]))
            && (op == "Do" ==> objects[0].ExternalObject? && StreamOf(objects) == [objects[0].call] + StreamOf(objects[1..]))
  {
    hide IsPageObject;
    FirstOperator(objects[0], known);
    assert StreamOf(objects)[0] == Instructions(objects[0])[0];
  }

  lemma PlacementIsLoose(objects: seq<PageObject>, known: Resources)
    requires objects != [] && objects[0].StateOperator?
    requires forall i :: 0 <= i < |objects| ==> IsPageObject(objects[i], known)
    requires IsPlacement(StreamOf(objects), known)
    ensures |objects| > 3 && IsLoosePlacement(objects, 0, known)
  {
    hide IsPageObject, StreamOf, ExternalKind, ResourceKind, NameOperand;
    StateBegins(objects);
    var a := objects[1..];
    NotEmpty(a);
    BeginsWith(a, known);
    var b := a[1..];
    NotEmpty(b);
    BeginsWith(b, known);
    var c := b[1..];
    NotEmpty(c);
    BeginsWith(c, known);
    assert objects[1] == a[0] && objects[2] == b[0] && objects[3] == c[0];
    SameGroups(objects[2].call, known);
  }

  lemma StateBegins(objects: seq<PageObject>)
    requires objects != [] && objects[0].StateOperator?
    ensures StreamOf(objects) == [objects[0].setting] + StreamOf(objects[1..])
  {
  }

  lemma NotEmpty(objects: seq<PageObject>)
    ensures StreamOf(objects) == [] <==> objects == []
  {
  }

  lemma SaveBegins(ops: seq<Instruction>, known: Resources)
    requires ops != [] && ops[0].operatorName != "q"
    ensures !IsPlacement(ops, known)
  {
  }

  lemma SingleIsFirst(objects: seq<PageObject>, known: Resources)
    requires objects != [] && IsSingle(objects[0]) && IsPage(objects, known)
    ensures FirstGroup(StreamOf(objects), known) == (KindOf(objects[0], known), 1)
  {
    hide IsPlacement, FirstGroup;
    var o := objects[0];
    if o.StateOperator? {
      if IsPlacement(StreamOf(objects), known) { PlacementIsLoose(objects, known); }
    } else {
      SaveBegins(StreamOf(objects), known);
    }
    SingleFound(o, StreamOf(objects[1..]), known);
  }

  lemma FirstFound(objects: seq<PageObject>, known: Resources)
    requires objects != [] && IsPage(objects, known) && !objects[0].InlineImageObject?
    ensures FirstGroup(StreamOf(objects), known) == (KindOf(objects[0], known), |Instructions(objects[0])|)
  {
    hide FirstGroup, IsPageObject, PlacementsAreTaken, ExternalKind;
    var o, rest := objects[0], StreamOf(objects[1..]);
    match o
    case PathObject(_, _, _) => PathFound(o, rest, known);
    case TextObject(_, _, _) => TextFound(o, rest, known);
    case PlacedObject(_, _, _, _) => PlacedFound(o, rest, known);
    case _ => SingleIsFirst(objects, known);
  }

  lemma ImageClassified(o: PageObject, rest: seq<Instruction>, known: Resources, id: nat)
    requires o.InlineImageObject? && IsPageObject(o, known)
    ensures Classified(Instructions(o) + rest, known, id) == ElementsFor(o, known, id) + Classified(rest, known, id + 2)
  {
    hide Classified, FirstGroup, IsPageObject;
    var ops, end := Instructions(o) + rest, [o.end] + rest;
    ImageFound(o, rest, known);
    assert ops[..3] == [o.begin, o.dictionary, o.data] && ops[3..] == end;
    OneClassified(ops, known, id, InlineImage, 3);
    assert end[..1] == [o.end] && end[1..] == rest;
    OneClassified(end, known, id + 1, Unknown, 1);
  }

  /** The first object becomes its elements, and the others are left. */
  lemma FirstObject(objects: seq<PageObject>, known: Resources, id: nat)
    requires objects != [] && IsPage(objects, known)
    ensures var first := ElementsFor(objects[0], known, id);
            Classified(StreamOf(objects), known, id) == first + Classified(StreamOf(objects[1..]), known, id + |first|)
  {
    hide Classified, FirstGroup, IsPageObject, PlacementsAreTaken, KindOf, Instructions;
    var o, rest := objects[0], StreamOf(objects[1..]);
    if o.InlineImageObject? {
      ImageClassified(o, rest, known, id);
    } else {
      var own := Instructions(o);
      assert (own + rest)[..|own|] == own && (own + rest)[|own|..] == rest;
      FirstFound(objects, known);
      OneClassified(own + rest, known, id, KindOf(o, known), |own|);
    }
  }

  lemma FewerObjects(objects: seq<PageObject>, known: Resources)
    requires objects != [] && IsPage(objects, known)
    ensures IsPage(objects[1..], known)
  {
    hide IsPageObject;
    var rest := objects[1..];
    forall i: nat | i + 3 < |rest| ensures !IsLoosePlacement(rest, i, known) {
      assert !IsLoosePlacement(objects, i + 1, known);
    }
  }

  /** A content stream that consists of such objects is classified object for object: one element for each, with its
      kind and its instructions, and one more for the EI behind an inline image. */
  lemma {:induction false} PageBecomesItsObjects(objects: seq<PageObject>, known: Resources, id: nat)
    requires IsPage(objects, known)
    ensures Classified(StreamOf(objects), known, id) == ElementsOf(objects, known, id)
    decreases |objects|
  {
    hide IsPage, ElementsFor, Classified;
    if objects == [] {
      NothingClassified(known, id);
    } else {
      hide StreamOf;
      FirstObject(objects, known, id);
      FewerObjects(objects, known);
      PageBecomesItsObjects(objects[1..], known, id + |ElementsFor(objects[0], known, id)|);
    }
  }
}
