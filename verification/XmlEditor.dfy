/** The source-preserving XML editor: splice, reparse, carry identities over, relink, commit. */
module XmlEditor {
  import opened Wrappers
  import opened Identity
  import opened XmlTree

  /** The fields of XmlTreeDocument, but for the authorship record. */
  datatype Doc = Doc(xml: string, nodes: seq<XmlNode>, rootId: Option<nat>, nextId: nat, revision: nat)

  const EMPTY_DOC := Doc("", [], None, 1, 0)

  /** XmlTreeDocument::fromXml. */
  function FromXml(parser: Parser, xml: string): Result<Doc, EditError> {
    match ParseNodes(parser, xml, false)
    case Err(error) => Err(error)
    case Ok(nodes) =>
      if |nodes| >= ID_MAX then Err(IdSpaceExhausted)
      else Ok(Doc(xml, nodes, FirstId(nodes), |nodes| + 1, 0))
  }

  // ---------------------------------------------------------------- relinking

  function ElementsOf(ns: seq<XmlNode>): (es: seq<Element>)
    ensures |es| == |ns|
    ensures forall i :: 0 <= i < |ns| ==> es[i] == Placed(ns[i].id, ns[i].name, ns[i].rawBegin, ns[i].rawEnd)
  {
    seq(|ns|, i requires 0 <= i < |ns| => Placed(ns[i].id, ns[i].name, ns[i].rawBegin, ns[i].rawEnd))
  }

  /** temporaryIndexes.find: the node with this temporary id, or the node count. */
  function IndexOfTemporary(ns: seq<XmlNode>, id: nat, from: nat := 0): (i: nat)
    requires from <= |ns|
    ensures from <= i <= |ns| && (i < |ns| ==> ns[i].id == id)
    ensures forall j :: from <= j < i ==> ns[j].id != id
    decreases |ns| - from
  {
    if from == |ns| || ns[from].id == id then from else IndexOfTemporary(ns, id, from + 1)
  }

  function RemapIds(ns: seq<XmlNode>, ids: seq<nat>, temporary: seq<nat>): Result<seq<nat>, EditError>
    requires |ids| == |ns|
  {
    if temporary == [] then Ok([])
    else
      var i := IndexOfTemporary(ns, temporary[0]);
      if i == |ns| then Err(RemapFailed)
      else
        match RemapIds(ns, ids, temporary[1..])
        case Err(error) => Err(error)
        case Ok(rest) => Ok([ids[i]] + rest)
  }

  /** Node `n` with its final id and final links. */
  function RemapNode(ns: seq<XmlNode>, ids: seq<nat>, n: XmlNode, id: nat): Result<XmlNode, EditError>
    requires |ids| == |ns|
  {
    var p := match n.parentId case None => 0 case Some(parent) => IndexOfTemporary(ns, parent);
    if n.parentId.Some? && p == |ns| then Err(RemapFailed)
    else
      match RemapIds(ns, ids, n.childIds)
      case Err(error) => Err(error)
      case Ok(children) =>
        var parentId := if n.parentId.None? then None else Some(ids[p]);
        Ok(n.(id := id, parentId := parentId, childIds := children))
  }

  function RemapFrom(ns: seq<XmlNode>, ids: seq<nat>, from: nat := 0): Result<seq<XmlNode>, EditError>
    requires |ids| == |ns| && from <= |ns|
    decreases |ns| - from
  {
    if from == |ns| then Ok([])
    else
      match RemapNode(ns, ids, ns[from], ids[from])
      case Err(error) => Err(error)
      case Ok(n) =>
        PrependOk([n], RemapFrom(ns, ids, from + 1))
  }

  predicate UniqueIds(ids: seq<nat>) {
    && (forall i :: 0 <= i < |ids| ==> ids[i] != 0)
    && (forall i, j :: 0 <= i < j < |ids| ==> ids[i] != ids[j])
  }

  // ---------------------------------------------------------------- replaceRange

  function Splice(xml: string, b: nat, e: nat, replacement: string): string
    requires b <= e <= |xml|
  {
    xml[..b] + replacement + xml[e..]
  }

  function FirstId(ns: seq<XmlNode>): Option<nat> { if ns == [] then None else Some(ns[0].id) }

  function ReplaceRange(parser: Parser, doc: Doc, b: nat, e: nat, replacement: string, bindings: seq<Binding>)
    : Result<Doc, EditError>
  {
    if b > e || e > |doc.xml| then Err(OutOfBounds)
    else if doc.revision >= ID_MAX then Err(RevisionExhausted)
    else
      var xml := Splice(doc.xml, b, e, replacement);
      match ParseNodes(parser, xml, true)
      case Err(error) => Err(error)
      case Ok(parsed) =>
        match Transfer(ElementsOf(parsed), ElementsOf(doc.nodes), Edit(b, e, |replacement|, bindings, None), doc.nextId)
        case Err(error) => Err(error)
        case Ok((ids, nextId)) =>
          match RemapFrom(parsed, ids)
          case Err(error) => Err(error)
          case Ok(nodes) =>
            if !UniqueIds(ids) then Err(DuplicateIds)
            else if doc.xml == xml then Ok(doc)
            else Ok(Doc(xml, nodes, FirstId(nodes), nextId, doc.revision + 1))
  }

  // ---------------------------------------------------------------- the operations

  predicate IsAsciiSpace(c: char) { c == ' ' || c == '\n' || c == '\r' || c == '\t' }

  function TrimAscii(s: string): string
    decreases |s|
  {
    if s != "" && IsAsciiSpace(s[0]) then TrimAscii(s[1..])
    else if s != "" && IsAsciiSpace(s[|s| - 1]) then TrimAscii(s[..|s| - 1])
    else s
  }

  /** serializeSingleNode: the fragment must be one bare element. */
  function SerializeSingleNode(parser: Parser, fragment: string): Result<string, EditError> {
    var trimmed := TrimAscii(fragment);
    if trimmed == "" then Err(BadFragment)
    else
      match ParseNodes(parser, trimmed, false)
      case Err(error) => Err(error)
      case Ok(nodes) =>
        if nodes == [] || nodes[0].rawBegin != 0 || nodes[0].rawEnd != |trimmed| then Err(BadFragment)
        else Ok(nodes[0].rawXml)
  }

  /** XmlTreeDocument::find: the index of the first node with this id, or the node count. */
  function FindNode(ns: seq<XmlNode>, id: nat, from: nat := 0): (i: nat)
    requires from <= |ns|
    ensures from <= i <= |ns| && (i < |ns| ==> ns[i].id == id)
    ensures forall j :: from <= j < i ==> ns[j].id != id
    decreases |ns| - from
  {
    if from == |ns| || ns[from].id == id then from else FindNode(ns, id, from + 1)
  }

  predicate EndsWithSlash(raw: string) { |raw| >= 3 && raw[|raw| - 2..] == "/>" }

  /** What `create` wants to be replaced, and by what. */
  datatype Plan = Plan(b: nat, e: nat, replacement: string, bindings: seq<Binding>)

  function Insertion(at: nat, serialized: string, id: nat): Plan {
    Plan(at, at, serialized, [Binding(id, at, at + |serialized|, true)])
  }

  /** A self-closing parent is opened up around its first child. */
  function OpenedParent(parent: XmlNode, serialized: string, id: nat): Plan
    requires EndsWithSlash(parent.rawXml)
  {
    var opening := parent.rawXml[..|parent.rawXml| - 2] + ">";
    var replacement := opening + serialized + "</" + parent.name + ">";
    var childBegin := parent.rawBegin + |opening|;
    Plan(parent.rawBegin, parent.rawEnd, replacement,
         [Binding(parent.id, parent.rawBegin, parent.rawBegin + |replacement|, false),
          Binding(id, childBegin, childBegin + |serialized|, true)])
  }

  function PlanCreate(parser: Parser, doc: Doc, fragment: string, parent: Option<nat>): Result<Plan, EditError> {
    match SerializeSingleNode(parser, fragment)
    case Err(error) => Err(error)
    case Ok(serialized) =>
      if doc.nextId == 0 || doc.nextId >= ID_MAX then Err(IdSpaceExhausted)
      else if parent.None? then
        if doc.rootId.Some? then Err(RootExists) else Ok(Insertion(|doc.xml|, serialized, doc.nextId))
      else
        var i := FindNode(doc.nodes, parent.value);
        if i == |doc.nodes| then Err(NotFound)
        else if !doc.nodes[i].selfClosing then Ok(Insertion(doc.nodes[i].valueEnd, serialized, doc.nextId))
        else if !EndsWithSlash(doc.nodes[i].rawXml) then Err(BadSelfClosingParent)
        else Ok(OpenedParent(doc.nodes[i], serialized, doc.nextId))
  }

  /** What an operation wants to be replaced; None when there is nothing to do. */
  datatype Op = Create(fragment: string, parent: Option<nat>) | Update(id: nat, fragment: string) | Remove(id: nat)

  function PlanOf(parser: Parser, doc: Doc, op: Op): Result<Option<Plan>, EditError> {
    match op
    case Create(fragment, parent) =>
      (match PlanCreate(parser, doc, fragment, parent)
       case Err(error) => Err(error)
       case Ok(plan) => Ok(Some(plan)))
    case Update(id, fragment) =>
      var i := FindNode(doc.nodes, id);
      if i == |doc.nodes| then Err(NotFound)
      else
        (match SerializeSingleNode(parser, fragment)
         case Err(error) => Err(error)
         case Ok(serialized) =>
           var n := doc.nodes[i];
           if serialized == n.rawXml then Ok(None)
           else Ok(Some(Plan(n.rawBegin, n.rawEnd, serialized,
                             [Binding(id, n.rawBegin, n.rawBegin + |serialized|, false)]))))
    case Remove(id) =>
      var i := FindNode(doc.nodes, id);
      if i == |doc.nodes| then Ok(None)
      else Ok(Some(Plan(doc.nodes[i].rawBegin, doc.nodes[i].rawEnd, "", [])))
  }

  /** The document after an operation, or what the operation throws. */
  function Applied(parser: Parser, doc: Doc, op: Op): Result<Doc, EditError> {
    match PlanOf(parser, doc, op)
    case Err(error) => Err(error)
    case Ok(None) => Ok(doc)
    case Ok(Some(plan)) => ReplaceRange(parser, doc, plan.b, plan.e, plan.replacement, plan.bindings)
  }

  function After(parser: Parser, doc: Doc, op: Op): Doc {
    match Applied(parser, doc, op) case Ok(next) => next case Err(_) => doc
  }

  // ---------------------------------------------------------------- the class

  class XmlTreeDocument {
    const parser: Parser
    var xml: string
    var nodes: seq<XmlNode>
    var rootId: Option<nat>
    var nextId: nat
    var revision: nat

    function View(): Doc
      reads this
    {
      Doc(xml, nodes, rootId, nextId, revision)
    }

    constructor (parser: Parser)
      ensures this.parser == parser && View() == EMPTY_DOC
    {
      this.parser := parser;
      xml, nodes, rootId, nextId, revision := "", [], None, 1, 0;
    }

    /** XmlTreeEditor::create returns the new id. */
    method Create(fragment: string, parent: Option<nat>) returns (r: Result<nat, EditError>)
      modifies this
      ensures match Applied(parser, old(View()), Op.Create(fragment, parent))
              case Ok(doc) => View() == doc && r == Ok(old(nextId))
              case Err(error) => View() == old(View()) && r == Err(error)
    {
      var createdId := nextId;
      var plan := PlanCreate(parser, View(), fragment, parent);
      if plan.Err? { return Err(plan.error); }
      var failed := ReplaceRangeInPlace(plan.value);
      return match failed case Some(error) => Err(error) case None => Ok(createdId);
    }

    method Update(id: nat, fragment: string) returns (failed: Option<EditError>)
      modifies this
      ensures match Applied(parser, old(View()), Op.Update(id, fragment))
              case Ok(doc) => View() == doc && failed == None
              case Err(error) => View() == old(View()) && failed == Some(error)
    {
      hide SerializeSingleNode, FindNode, ReplaceRange;
      var i := FindNode(nodes, id);
      if i == |nodes| { return Some(NotFound); }
      var serialized := SerializeSingleNode(parser, fragment);
      if serialized.Err? { return Some(serialized.error); }
      if serialized.value == nodes[i].rawXml { return None; }
      var begin, end := nodes[i].rawBegin, nodes[i].rawEnd;
      failed := ReplaceRangeInPlace(
        Plan(begin, end, serialized.value, [Binding(id, begin, begin + |serialized.value|, false)]));
    }

    /** The result is false when there is no such node. */
    method Remove(id: nat) returns (r: Result<bool, EditError>)
      modifies this
      ensures match Applied(parser, old(View()), Op.Remove(id))
              case Ok(doc) => View() == doc && r == Ok(exists n :: n in old(nodes) && n.id == id)
              case Err(error) => View() == old(View()) && r == Err(error)
    {
      var i := FindNode(nodes, id);
      if i == |nodes| { return Ok(false); }
      assert nodes[i] in nodes;
      var failed := ReplaceRangeInPlace(Plan(nodes[i].rawBegin, nodes[i].rawEnd, "", []));
      return match failed case Some(error) => Err(error) case None => Ok(true);
    }

    /** replaceRange: everything that can fail happens before the first field is written. */
    method ReplaceRangeInPlace(plan: Plan) returns (failed: Option<EditError>)
      modifies this
      ensures match ReplaceRange(parser, old(View()), plan.b, plan.e, plan.replacement, plan.bindings)
              case Ok(doc) => View() == doc && failed == None
              case Err(error) => View() == old(View()) && failed == Some(error)
    {
      hide ParseNodes, Transfer, RemapFrom;
      if plan.b > plan.e || plan.e > |xml| { return Some(OutOfBounds); }
      if revision >= ID_MAX { return Some(RevisionExhausted); }
      var nextXml := Splice(xml, plan.b, plan.e, plan.replacement);
      var parsed := ParseNodes(parser, nextXml, true);
      if parsed.Err? { return Some(parsed.error); }
      var edit := Edit(plan.b, plan.e, |plan.replacement|, plan.bindings, None);
      var transferred := TransferIds(ElementsOf(parsed.value), ElementsOf(nodes), edit, nextId);
      if transferred.Err? { return Some(transferred.error); }
      var ids := transferred.value.0;
      var nextNodes := Relink(parsed.value, ids);
      if nextNodes.Err? { return Some(nextNodes.error); }
      if !UniqueIds(ids) { return Some(DuplicateIds); }
      if xml == nextXml { return None; }
      xml, nodes := nextXml, nextNodes.value;
      rootId, nextId, revision := FirstId(nodes), transferred.value.1, revision + 1;
      return None;
    }

    /** The loop that turns temporary parent and child ids into final ones. */
    static method Relink(parsed: seq<XmlNode>, ids: seq<nat>) returns (r: Result<seq<XmlNode>, EditError>)
      requires |ids| == |parsed|
      ensures r == RemapFrom(parsed, ids)
    {
      hide RemapNode;
      var out: seq<XmlNode> := [];
      PrependOkNothing(RemapFrom(parsed, ids));
      for k := 0 to |parsed|
        invariant PrependOk(out, RemapFrom(parsed, ids, k)) == RemapFrom(parsed, ids)
      {
        var n := RemapNode(parsed, ids, parsed[k], ids[k]);
        if n.Err? { return Err(n.error); }
        PrependOkBoth(out, [n.value], RemapFrom(parsed, ids, k + 1));
        out := out + [n.value];
      }
      NothingAround(out);
      return Ok(out);
    }
  }
}
