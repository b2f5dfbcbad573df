/** What every XML edit keeps, and what holds over whole runs of edits. */
module XmlRuns {
  import opened Wrappers
  import opened Identity
  import opened XmlTree
  import opened XmlEditor

  // ---------------------------------------------------------------- the document invariant

  function IdList(ns: seq<XmlNode>): (ids: seq<nat>)
    ensures |ids| == |ns| && forall i :: 0 <= i < |ns| ==> ids[i] == ns[i].id
  {
    seq(|ns|, i requires 0 <= i < |ns| => ns[i].id)
  }

  /** `a` is the parsed node `p` under the final ids: same place, name and text, links translated. */
  ghost predicate IsRelabeled(a: XmlNode, p: XmlNode, id: nat, ids: seq<nat>) {
    && a.id == id
    && a.name == p.name && a.depth == p.depth && a.selfClosing == p.selfClosing
    && a.rawXml == p.rawXml && a.innerXml == p.innerXml
    && a.rawBegin == p.rawBegin && a.rawEnd == p.rawEnd
    && a.valueBegin == p.valueBegin && a.valueEnd == p.valueEnd
    && (if p.parentId.None? then a.parentId == None
        else 1 <= p.parentId.value <= |ids| && a.parentId == Some(ids[p.parentId.value - 1]))
    && |a.childIds| == |p.childIds|
    && (forall k :: 0 <= k < |p.childIds| ==>
          1 <= p.childIds[k] <= |ids| && a.childIds[k] == ids[p.childIds[k] - 1])
  }

  ghost predicate AreRelabeled(as_: seq<XmlNode>, ps: seq<XmlNode>, ids: seq<nat>) {
    |as_| == |ps| == |ids| && forall i :: 0 <= i < |ps| ==> IsRelabeled(as_[i], ps[i], ids[i], ids)
  }

  /** The nodes are what the source parses to, under ids that are different, non-zero and spent. */
  ghost predicate DocOk(parser: Parser, doc: Doc) {
    && ParseNodes(parser, doc.xml, true).Ok?
    && AreRelabeled(doc.nodes, ParseNodes(parser, doc.xml, true).value, IdList(doc.nodes))
    && IdsOk(IdList(doc.nodes), doc.nextId)
    && doc.rootId == FirstId(doc.nodes)
  }

  // ---------------------------------------------------------------- parsing

  /** The default-constructed document; the scan that precedes the parser finds no root in an empty text. */
  lemma EmptyIsOk(parser: Parser)
    requires parser("").NoRoot?
    ensures DocOk(parser, EMPTY_DOC)
  {
  }

  lemma ParsedIsSound(parser: Parser, xml: string, allowEmpty: bool)
    requires ParseNodes(parser, xml, allowEmpty).Ok?
    ensures var ns := ParseNodes(parser, xml, allowEmpty).value;
            Linked(ns, None, 0) && SlicesOf(ns, xml)
  {
    hide Flatten, ValidTag, ValidChildren;
    match parser(xml)
    case NoRoot =>
    case Rooted(bodyBegin, root) =>
      FlattenLinked(xml, bodyBegin, root, None, 0, 0);
      FlattenSlices(xml, bodyBegin, root, None, 0, 0);
  }

  /** The markup parser never reports content without an opening and a closing tag around it. */
  ghost predicate ReportsTags(parser: Parser) {
    forall xml: string :: parser(xml).Rooted? ==> HasTags(parser(xml).root)
  }

  lemma ParsedIsLaminar(parser: Parser, xml: string, allowEmpty: bool)
    requires ParseNodes(parser, xml, allowEmpty).Ok? && ReportsTags(parser)
    ensures Laminar(ParseNodes(parser, xml, allowEmpty).value)
  {
    hide Flatten, ValidTag, ValidChildren;
    match parser(xml)
    case NoRoot =>
    case Rooted(bodyBegin, root) =>
      FlattenLaminar(xml, bodyBegin, root, None, 0, 0);
  }

  // ---------------------------------------------------------------- relinking never fails

  lemma TemporaryIsFound(ns: seq<XmlNode>, id: nat)
    requires Linked(ns, None, 0) && 1 <= id <= |ns|
    ensures IndexOfTemporary(ns, id) == id - 1
  {
    assert ns[id - 1].id == id;
  }

  lemma {:induction false} RemapIdsSucceeds(ns: seq<XmlNode>, ids: seq<nat>, temporary: seq<nat>)
    requires |ids| == |ns| && Linked(ns, None, 0)
    requires forall k :: 0 <= k < |temporary| ==> 1 <= temporary[k] <= |ns|
    ensures RemapIds(ns, ids, temporary).Ok?
    ensures var out := RemapIds(ns, ids, temporary).value;
            |out| == |temporary| && forall k :: 0 <= k < |out| ==> out[k] == ids[temporary[k] - 1]
  {
    hide Linked;
    if temporary != [] {
      TemporaryIsFound(ns, temporary[0]);
      RemapIdsSucceeds(ns, ids, temporary[1..]);
    }
  }

  lemma RemapNodeSucceeds(ns: seq<XmlNode>, ids: seq<nat>, i: nat)
    requires |ids| == |ns| && Linked(ns, None, 0) && i < |ns|
    ensures RemapNode(ns, ids, ns[i], ids[i]).Ok?
    ensures IsRelabeled(RemapNode(ns, ids, ns[i], ids[i]).value, ns[i], ids[i], ids)
  {
    assert ParentRight(ns, i, None, 0);
    if ns[i].parentId.Some? { TemporaryIsFound(ns, ns[i].parentId.value); }
    forall k | 0 <= k < |ns[i].childIds| ensures 1 <= ns[i].childIds[k] <= |ns| {
      assert ns[i].childIds[k] in ns[i].childIds;
      assert ChildRight(ns, i, ns[i].childIds[k], 0);
    }
    RemapIdsSucceeds(ns, ids, ns[i].childIds);
  }

  lemma {:induction false} RemapSucceeds(ns: seq<XmlNode>, ids: seq<nat>, from: nat)
    requires |ids| == |ns| && Linked(ns, None, 0) && from <= |ns|
    ensures RemapFrom(ns, ids, from).Ok?
    ensures var out := RemapFrom(ns, ids, from).value;
            && |out| == |ns| - from
            && forall i :: from <= i < |ns| ==> IsRelabeled(out[i - from], ns[i], ids[i], ids)
    decreases |ns| - from
  {
    hide Linked, RemapNode, IsRelabeled;
    if from < |ns| {
      RemapNodeSucceeds(ns, ids, from);
      RemapSucceeds(ns, ids, from + 1);
    }
  }

  // ---------------------------------------------------------------- one committed edit

  /** A plan that `create`, `update` or `remove` may make. */
  ghost predicate PlanSound(doc: Doc, plan: Plan) {
    && plan.b <= plan.e <= |doc.xml|
    && doc.xml[plan.b..plan.e] != plan.replacement
    && BindingsSound(EditOf(plan), ElementsOf(doc.nodes), doc.nextId)
  }

  function EditOf(plan: Plan): Edit { Edit(plan.b, plan.e, |plan.replacement|, plan.bindings, None) }

  /** There is a node with this id, range and, if given, name. */
  ghost predicate NodeAt(doc: Doc, id: nat, begin: nat, end: nat, name: Option<string>) {
    exists n :: n in doc.nodes && n.id == id && Matches(Placed(id, n.name, n.rawBegin, n.rawEnd), begin, end, name)
  }

  /** What a committed edit does. */
  ghost predicate Edited(doc: Doc, next: Doc, plan: Plan)
    requires plan.b <= plan.e <= |doc.xml|
  {
    && next.xml == Splice(doc.xml, plan.b, plan.e, plan.replacement)
    && next.xml != doc.xml
    && next.revision == doc.revision + 1
    && doc.nextId <= next.nextId
    && (forall k :: 0 <= k < |plan.bindings| ==>
          NodeAt(next, plan.bindings[k].id, plan.bindings[k].begin, plan.bindings[k].end, None))
    && (forall n :: n in doc.nodes ==> IsCarried(n, next, plan))
    && (forall n :: n in next.nodes && n.id < doc.nextId ==> Survives(doc, plan, n.id))
  }

  /** `id` belongs to an old node that is bound or does not lie inside the edited range. */
  ghost predicate Survives(doc: Doc, plan: Plan, id: nat) {
    exists m :: m in doc.nodes && m.id == id
             && (id in BindingIds(plan.bindings) || !(plan.b <= m.rawBegin && m.rawEnd <= plan.e))
  }

  /** An old node either lies inside the edited range, or is there again, shifted. */
  ghost predicate IsCarried(n: XmlNode, next: Doc, plan: Plan)
    requires plan.b <= plan.e
  {
    match FateOf(Placed(n.id, n.name, n.rawBegin, n.rawEnd), plan.b, plan.e, |plan.replacement|)
    case Dropped => plan.b <= n.rawBegin && n.rawEnd <= plan.e
    case Crossing => false
    case Moved(begin, end) => NodeAt(next, n.id, begin, end, Some(n.name))
  }

  lemma IdAtIsNodeAt(
    next: Doc, parsed: seq<XmlNode>, ids: seq<nat>, id: nat, begin: nat, end: nat, name: Option<string>)
    requires AreRelabeled(next.nodes, parsed, ids) && IdAt(ElementsOf(parsed), ids, id, begin, end, name)
    ensures NodeAt(next, id, begin, end, name)
  {
    var i :| 0 <= i < |parsed| && ids[i] == id && Matches(ElementsOf(parsed)[i], begin, end, name);
    assert IsRelabeled(next.nodes[i], parsed[i], ids[i], ids);
    assert next.nodes[i] in next.nodes;
  }

  /** The next document is the parse of the spliced text under the transferred ids. */
  lemma ReplaceCommits(parser: Parser, doc: Doc, plan: Plan)
    requires PlanSound(doc, plan) && IdsOk(IdList(doc.nodes), doc.nextId)
    requires ReplaceRange(parser, doc, plan.b, plan.e, plan.replacement, plan.bindings).Ok?
    ensures var next := ReplaceRange(parser, doc, plan.b, plan.e, plan.replacement, plan.bindings).value;
            var xml := Splice(doc.xml, plan.b, plan.e, plan.replacement);
            && ParseNodes(parser, xml, true).Ok?
            && var parsed := ParseNodes(parser, xml, true).value;
            var transfer := Transfer(ElementsOf(parsed), ElementsOf(doc.nodes), EditOf(plan), doc.nextId);
            && transfer.Ok?
            && var (ids, nextId) := transfer.value;
            && next.xml == xml && xml != doc.xml && next.nextId == nextId && next.revision == doc.revision + 1
            && AreRelabeled(next.nodes, parsed, ids) && IdList(next.nodes) == ids
            && next.rootId == FirstId(next.nodes)
            && Transferred(ElementsOf(parsed), ElementsOf(doc.nodes), EditOf(plan), doc.nextId, ids, nextId)
  {
    hide ParseNodes, Transfer, RemapFrom, IsRelabeled, Linked, SlicesOf, BindingsSound, Transferred;
    var xml := Splice(doc.xml, plan.b, plan.e, plan.replacement);
    var parsed := ParseNodes(parser, xml, true).value;
    ParsedIsSound(parser, xml, true);
    var (ids, nextId) := Transfer(ElementsOf(parsed), ElementsOf(doc.nodes), EditOf(plan), doc.nextId).value;
    var next := ReplaceRange(parser, doc, plan.b, plan.e, plan.replacement, plan.bindings).value;
    var nodes := RemapFrom(parsed, ids).value;
    assert next == Doc(xml, nodes, FirstId(nodes), nextId, doc.revision + 1);
    hide ReplaceRange;
    RemapSucceeds(parsed, ids, 0);
    RelabeledIds(nodes, parsed, ids);
    assert IdsOf(ElementsOf(doc.nodes)) == IdList(doc.nodes);
    TransferIsSound(ElementsOf(parsed), ElementsOf(doc.nodes), EditOf(plan), doc.nextId);
  }

  lemma RelabeledIds(nodes: seq<XmlNode>, parsed: seq<XmlNode>, ids: seq<nat>)
    requires AreRelabeled(nodes, parsed, ids)
    ensures IdList(nodes) == ids
  {
    assert forall i :: 0 <= i < |ids| ==> IsRelabeled(nodes[i], parsed[i], ids[i], ids);
  }

  lemma KeptIdsSurvive(doc: Doc, plan: Plan, id: nat)
    requires BindingsSound(EditOf(plan), ElementsOf(doc.nodes), doc.nextId) && id < doc.nextId
    requires id in BindingIds(plan.bindings) + KeptIds(ElementsOf(doc.nodes), EditOf(plan))
    ensures Survives(doc, plan, id)
  {
    hide FateOf;
    var olds := ElementsOf(doc.nodes);
    if id in BindingIds(plan.bindings) {
      var o :| o in olds && o.id == id;
      var j :| 0 <= j < |olds| && olds[j] == o;
      assert doc.nodes[j] in doc.nodes;
    } else {
      var k :| 0 <= k < |olds| && IsKept(olds[k], EditOf(plan)) && olds[k].id == id;
      FateIsMovedOutside(olds[k], plan.b, plan.e, |plan.replacement|);
      assert doc.nodes[k] in doc.nodes;
    }
  }

  /** A committed edit with a sound plan keeps the document invariant and does what it should. */
  lemma ReplaceIsSound(parser: Parser, doc: Doc, plan: Plan)
    requires DocOk(parser, doc) && PlanSound(doc, plan)
    requires ReplaceRange(parser, doc, plan.b, plan.e, plan.replacement, plan.bindings).Ok?
    ensures var next := ReplaceRange(parser, doc, plan.b, plan.e, plan.replacement, plan.bindings).value;
            DocOk(parser, next) && Edited(doc, next, plan)
  {
    hide ParseNodes, Transfer, ReplaceRange, IsRelabeled, BindingsSound, IdAt, NodeAt, IsCarried;
    ReplaceCommits(parser, doc, plan);
    var next := ReplaceRange(parser, doc, plan.b, plan.e, plan.replacement, plan.bindings).value;
    var parsed := ParseNodes(parser, next.xml, true).value;
    var ids := IdList(next.nodes);
    forall k | 0 <= k < |plan.bindings|
      ensures NodeAt(next, plan.bindings[k].id, plan.bindings[k].begin, plan.bindings[k].end, None)
    {
      IdAtIsNodeAt(next, parsed, ids, plan.bindings[k].id, plan.bindings[k].begin, plan.bindings[k].end, None);
    }
    forall n | n in doc.nodes ensures IsCarried(n, next, plan) {
      NodeIsCarried(parser, doc, plan, n);
    }
    forall n | n in next.nodes && n.id < doc.nextId ensures Survives(doc, plan, n.id) {
      var i :| 0 <= i < |next.nodes| && next.nodes[i] == n;
      assert ids[i] == n.id;
      KeptIdsSurvive(doc, plan, n.id);
    }
  }

  lemma NodeIsCarried(parser: Parser, doc: Doc, plan: Plan, n: XmlNode)
    requires DocOk(parser, doc) && PlanSound(doc, plan) && n in doc.nodes
    requires ReplaceRange(parser, doc, plan.b, plan.e, plan.replacement, plan.bindings).Ok?
    ensures IsCarried(n, ReplaceRange(parser, doc, plan.b, plan.e, plan.replacement, plan.bindings).value, plan)
  {
    hide ParseNodes, BindAll, Preserve, FillFresh, ReplaceRange, IsRelabeled, BindingsSound, IdAt, NodeAt, FateOf;
    ReplaceCommits(parser, doc, plan);
    var next := ReplaceRange(parser, doc, plan.b, plan.e, plan.replacement, plan.bindings).value;
    var parsed := ParseNodes(parser, next.xml, true).value;
    var olds, edit := ElementsOf(doc.nodes), EditOf(plan);
    var i :| 0 <= i < |doc.nodes| && doc.nodes[i] == n;
    assert olds[i] == Placed(n.id, n.name, n.rawBegin, n.rawEnd);
    FateIsMovedOutside(olds[i], plan.b, plan.e, |plan.replacement|);
    var bound := BindAll(ElementsOf(parsed), seq(|parsed|, _ => None), plan.bindings, doc.nextId).value.0;
    PreserveMeetsNoCrossing(ElementsOf(parsed), bound, olds, edit);
    var fate := FateOf(olds[i], plan.b, plan.e, |plan.replacement|);
    if fate.Moved? {
      assert IsKept(olds[i], edit);
      IdAtIsNodeAt(next, parsed, IdList(next.nodes), n.id, fate.begin, fate.end, Some(n.name));
    }
  }

  // ---------------------------------------------------------------- the plans of the operations are sound

  lemma NodeSlice(parser: Parser, doc: Doc, i: nat)
    requires DocOk(parser, doc) && i < |doc.nodes|
    ensures var n := doc.nodes[i];
            n.rawEnd <= |doc.xml| && n.rawXml == doc.xml[n.rawBegin..n.rawEnd] && n.id < doc.nextId
  {
    hide ParseNodes, Linked;
    ParsedIsSound(parser, doc.xml, true);
    var parsed := ParseNodes(parser, doc.xml, true).value;
    assert IsRelabeled(doc.nodes[i], parsed[i], IdList(doc.nodes)[i], IdList(doc.nodes));
    assert IdList(doc.nodes)[i] == doc.nodes[i].id;
  }

  /** A serialised fragment is the whole trimmed fragment. */
  lemma SerializedIsWhole(parser: Parser, fragment: string)
    requires SerializeSingleNode(parser, fragment).Ok?
    ensures SerializeSingleNode(parser, fragment).value == TrimAscii(fragment) != ""
  {
    hide ParseNodes, Linked;
    ParsedIsSound(parser, TrimAscii(fragment), false);
    var trimmed := TrimAscii(fragment);
    assert trimmed[0..|trimmed|] == trimmed;
  }

  lemma PlanIsSound(parser: Parser, doc: Doc, op: Op, plan: Plan)
    requires DocOk(parser, doc) && PlanOf(parser, doc, op) == Ok(Some(plan))
    ensures PlanSound(doc, plan)
  {
    hide ParseNodes, AreRelabeled, SerializeSingleNode, IdsOk, FindNode;
    match op
    case Create(fragment, parent) =>
      SerializedIsWhole(parser, fragment);
      if parent.Some? {
        var i := FindNode(doc.nodes, parent.value);
        NodeSlice(parser, doc, i);
      }
    case Update(id, fragment) =>
      var i := FindNode(doc.nodes, id);
      NodeSlice(parser, doc, i);
      assert ElementsOf(doc.nodes)[i] in ElementsOf(doc.nodes);
    case Remove(id) =>
      NodeSlice(parser, doc, FindNode(doc.nodes, id));
  }

  // ---------------------------------------------------------------- one operation

  /** No id below the old counter appears that was not in use before. */
  ghost predicate RevivesNothing(doc: Doc, next: Doc) {
    && doc.nextId <= next.nextId
    && forall n :: n in next.nodes && n.id < doc.nextId ==> exists m :: m in doc.nodes && m.id == n.id
  }

  lemma SameDocRevivesNothing(doc: Doc)
    ensures RevivesNothing(doc, doc)
  {
  }

  /** An operation that succeeds either has nothing to do or commits exactly one change, as planned; the
      document invariant survives either way, and so does every spent id's absence. `create` always
      commits. */
  lemma OperationIsSound(parser: Parser, doc: Doc, op: Op)
    requires DocOk(parser, doc) && Applied(parser, doc, op).Ok?
    ensures var next := Applied(parser, doc, op).value;
            && DocOk(parser, next)
            && RevivesNothing(doc, next)
            && PlanOf(parser, doc, op).Ok?
            && (match PlanOf(parser, doc, op).value
                case None => next == doc && !op.Create?
                case Some(plan) => PlanSound(doc, plan) && Edited(doc, next, plan))
  {
    hide DocOk, PlanSound, ReplaceRange, Edited, RevivesNothing, PlanCreate, SerializeSingleNode, FindNode;
    SameDocRevivesNothing(doc);
    if PlanOf(parser, doc, op).value.Some? {
      var plan := PlanOf(parser, doc, op).value.value;
      PlanIsSound(parser, doc, op, plan);
      ReplaceIsSound(parser, doc, plan);
      SoundPlanRange(doc, plan);
      EditedRevivesNothing(doc, Applied(parser, doc, op).value, plan);
    }
  }

  lemma SoundPlanRange(doc: Doc, plan: Plan)
    requires PlanSound(doc, plan)
    ensures plan.b <= plan.e <= |doc.xml|
  {
  }

  lemma EditedRevivesNothing(doc: Doc, next: Doc, plan: Plan)
    requires plan.b <= plan.e <= |doc.xml| && Edited(doc, next, plan)
    ensures RevivesNothing(doc, next)
  {
  }

  /** The checks for inconsistent allocation, lost links and repeated ids never fire, and no edit is
      out of bounds. */
  lemma InternalChecksNeverFire(parser: Parser, doc: Doc, op: Op)
    requires DocOk(parser, doc) && Applied(parser, doc, op).Err?
    ensures Applied(parser, doc, op).error !in {OutOfBounds, AllocationInconsistent, RemapFailed, DuplicateIds}
  {
    hide PlanOf, DocOk, ReplaceRange;
    PlanErrors(parser, doc, op);
    if PlanOf(parser, doc, op).Ok? {
      var plan := PlanOf(parser, doc, op).value.value;
      PlanIsSound(parser, doc, op, plan);
      ReplaceErrors(parser, doc, plan);
    }
  }

  lemma PlanErrors(parser: Parser, doc: Doc, op: Op)
    ensures PlanOf(parser, doc, op).Err? ==>
              PlanOf(parser, doc, op).error
              in {ParseFailed, BadFragment, IdSpaceExhausted, RootExists, NotFound, BadSelfClosingParent}
  {
    hide Flatten, ValidTag, TrimAscii, FindNode;
  }

  lemma ReplaceErrors(parser: Parser, doc: Doc, plan: Plan)
    requires DocOk(parser, doc) && PlanSound(doc, plan)
    requires ReplaceRange(parser, doc, plan.b, plan.e, plan.replacement, plan.bindings).Err?
    ensures ReplaceRange(parser, doc, plan.b, plan.e, plan.replacement, plan.bindings).error
            !in {OutOfBounds, AllocationInconsistent, RemapFailed, DuplicateIds}
  {
    hide Flatten, ValidTag, BindAll, Preserve, FillFresh, RemapFrom, Linked, SlicesOf, FateOf, BindingIds, KeptIds, IdAt;
    var xml := Splice(doc.xml, plan.b, plan.e, plan.replacement);
    if ParseNodes(parser, xml, true).Ok? {
      var parsed := ParseNodes(parser, xml, true).value;
      var news, olds := ElementsOf(parsed), ElementsOf(doc.nodes);
      assert IdsOf(olds) == IdList(doc.nodes);
      TransferErrors(news, olds, EditOf(plan), doc.nextId);
      if Transfer(news, olds, EditOf(plan), doc.nextId).Ok? {
        TransferIsSound(news, olds, EditOf(plan), doc.nextId);
        ParsedIsSound(parser, xml, true);
        RemapSucceeds(parsed, Transfer(news, olds, EditOf(plan), doc.nextId).value.0, 0);
      }
    }
  }

  // ---------------------------------------------------------------- the text of kept nodes

  /** The text an old node must have after the edit: its own, or with the replacement spliced in. */
  function ExpectedRaw(n: XmlNode, plan: Plan): string
    requires n.rawEnd - n.rawBegin == |n.rawXml| && plan.b <= plan.e
  {
    if n.rawBegin < plan.b && plan.e < n.rawEnd
    then n.rawXml[..plan.b - n.rawBegin] + plan.replacement + n.rawXml[plan.e - n.rawBegin..]
    else n.rawXml
  }

  /** After any committed edit every node outside the edited range is present under the same id and name:
      a disjoint one with its text unchanged, one around the range with exactly the spliced text. */
  lemma EditPreservesIdentity(parser: Parser, doc: Doc, op: Op, plan: Plan, i: nat)
    requires DocOk(parser, doc) && Applied(parser, doc, op).Ok? && PlanOf(parser, doc, op) == Ok(Some(plan))
    requires i < |doc.nodes| && !(plan.b <= doc.nodes[i].rawBegin && doc.nodes[i].rawEnd <= plan.e)
    ensures var n, next := doc.nodes[i], Applied(parser, doc, op).value;
            && n.rawEnd - n.rawBegin == |n.rawXml| && plan.b <= plan.e
            && exists m :: m in next.nodes && m.id == n.id && m.name == n.name && m.rawXml == ExpectedRaw(n, plan)
  {
    hide DocOk, Applied, PlanOf, Splice, FateOf;
    OperationIsSound(parser, doc, op);
    var n, next := doc.nodes[i], Applied(parser, doc, op).value;
    var o := Placed(n.id, n.name, n.rawBegin, n.rawEnd);
    NodeSlice(parser, doc, i);
    assert IsCarried(n, next, plan);
    FateIsMovedOutside(o, plan.b, plan.e, |plan.replacement|);
    var fate := FateOf(o, plan.b, plan.e, |plan.replacement|);
    var m := TheNodeAt(next, n.id, fate.begin, fate.end, Some(n.name));
    var j :| 0 <= j < |next.nodes| && next.nodes[j] == m;
    NodeSlice(parser, next, j);
    MovedText(doc.xml, plan, n, fate);
  }

  lemma TheNodeAt(doc: Doc, id: nat, begin: nat, end: nat, name: Option<string>) returns (n: XmlNode)
    requires NodeAt(doc, id, begin, end, name)
    ensures n in doc.nodes && n.id == id && n.rawBegin == begin && n.rawEnd == end
    ensures name.Some? ==> n.name == name.value
  {
    n :| n in doc.nodes && n.id == id && Matches(Placed(id, n.name, n.rawBegin, n.rawEnd), begin, end, name);
  }

  lemma MovedText(xml: string, plan: Plan, n: XmlNode, fate: Fate)
    requires plan.b <= plan.e <= |xml| && n.rawEnd <= |xml| && n.rawXml == xml[n.rawBegin..n.rawEnd]
    requires fate == FateOf(Placed(n.id, n.name, n.rawBegin, n.rawEnd), plan.b, plan.e, |plan.replacement|)
    requires fate.Moved?
    ensures var next := Splice(xml, plan.b, plan.e, plan.replacement);
            fate.begin <= fate.end <= |next| && next[fate.begin..fate.end] == ExpectedRaw(n, plan)
  {
  }

  /** The node of `create` and the node of `update` are present afterwards with exactly the text they
      were given; a removed node is gone. */
  lemma NamedNodeIsPresent(parser: Parser, doc: Doc, op: Op, plan: Plan)
    requires DocOk(parser, doc) && Applied(parser, doc, op).Ok? && PlanOf(parser, doc, op) == Ok(Some(plan))
    ensures var next := Applied(parser, doc, op).value;
            match op
            case Create(fragment, _) => exists m :: m in next.nodes && m.id == doc.nextId && m.rawXml == TrimAscii(fragment)
            case Update(id, fragment) => exists m :: m in next.nodes && m.id == id && m.rawXml == TrimAscii(fragment)
            case Remove(id) => !exists m :: m in next.nodes && m.id == id
  {
    hide DocOk, Applied, FateOf, IsCarried, NodeAt, SerializeSingleNode, FindNode;
    OperationIsSound(parser, doc, op);
    var next := Applied(parser, doc, op).value;
    match op
    case Create(fragment, parent) =>
      SerializedIsWhole(parser, fragment);
      var k := |plan.bindings| - 1;
      var m := TheNodeAt(next, doc.nextId, plan.bindings[k].begin, plan.bindings[k].end, None);
      var j :| 0 <= j < |next.nodes| && next.nodes[j] == m;
      NodeSlice(parser, next, j);
      CreatedText(doc, parser, fragment, parent, plan);
    case Update(id, fragment) =>
      SerializedIsWhole(parser, fragment);
      var m := TheNodeAt(next, id, plan.bindings[0].begin, plan.bindings[0].end, None);
      var j :| 0 <= j < |next.nodes| && next.nodes[j] == m;
      NodeSlice(parser, next, j);
      ReplacementSlice(doc.xml, plan, 0, |plan.replacement|);
    case Remove(id) =>
      RemovedIsGone(parser, doc, id, plan, next);
  }

  lemma ReplacementSlice(xml: string, plan: Plan, from: nat, to: nat)
    requires plan.b <= plan.e <= |xml| && from <= to <= |plan.replacement|
    ensures Splice(xml, plan.b, plan.e, plan.replacement)[plan.b + from..plan.b + to] == plan.replacement[from..to]
  {
  }

  lemma CreatedText(doc: Doc, parser: Parser, fragment: string, parent: Option<nat>, plan: Plan)
    requires PlanCreate(parser, doc, fragment, parent) == Ok(plan) && plan.b <= plan.e <= |doc.xml|
    ensures var last := plan.bindings[|plan.bindings| - 1];
            && last.begin <= last.end <= |Splice(doc.xml, plan.b, plan.e, plan.replacement)|
            && Splice(doc.xml, plan.b, plan.e, plan.replacement)[last.begin..last.end]
               == SerializeSingleNode(parser, fragment).value
  {
    hide SerializeSingleNode, FindNode;
    var last, serialized := plan.bindings[|plan.bindings| - 1], SerializeSingleNode(parser, fragment).value;
    if |plan.bindings| == 2 {
      var opening := plan.replacement[..last.begin - plan.b];
      assert plan.replacement[last.begin - plan.b..last.end - plan.b] == serialized;
    }
    ReplacementSlice(doc.xml, plan, last.begin - plan.b, last.end - plan.b);
  }

  lemma RemovedIsGone(parser: Parser, doc: Doc, id: nat, plan: Plan, next: Doc)
    requires DocOk(parser, doc) && PlanOf(parser, doc, Op.Remove(id)) == Ok(Some(plan))
    requires plan.b <= plan.e <= |doc.xml| && Edited(doc, next, plan)
    ensures forall m :: m in next.nodes ==> m.id != id
  {
    hide ParseNodes, AreRelabeled, IsCarried, NodeAt;
    var ids, i := IdList(doc.nodes), FindNode(doc.nodes, id);
    forall j | 0 <= j < |doc.nodes| && doc.nodes[j].id == id ensures j == i {
      assert ids[j] == ids[i];
    }
    assert !Survives(doc, plan, id);
  }

  // ---------------------------------------------------------------- no crossing

  /** With tags around all content, the edited range of `update` and `remove` nests with every node, and
      `create` edits a single position: no edit ever fails for crossing a node. */
  lemma NoEditCrosses(parser: Parser, doc: Doc, op: Op)
    requires DocOk(parser, doc) && ReportsTags(parser)
    ensures Applied(parser, doc, op) != Err(CrossesRange)
  {
    hide DocOk, ReplaceRange, PlanOf;
    PlanErrors(parser, doc, op);
    if PlanOf(parser, doc, op).Ok? && PlanOf(parser, doc, op).value.Some? {
      var plan := PlanOf(parser, doc, op).value.value;
      PlanIsSound(parser, doc, op, plan);
      forall o | o in ElementsOf(doc.nodes) ensures !FateOf(o, plan.b, plan.e, |plan.replacement|).Crossing? {
        PlanCrossesNothing(parser, doc, op, plan, o);
      }
      ReplaceNeverCrosses(parser, doc, plan);
    }
  }

  lemma PlanCrossesNothing(parser: Parser, doc: Doc, op: Op, plan: Plan, o: Element)
    requires DocOk(parser, doc) && ReportsTags(parser) && PlanOf(parser, doc, op) == Ok(Some(plan))
    requires o in ElementsOf(doc.nodes) && plan.b <= plan.e
    ensures !FateOf(o, plan.b, plan.e, |plan.replacement|).Crossing?
  {
    hide ParseNodes, IdsOk, PlanOf, IsRelabeled;
    ParsedIsLaminar(parser, doc.xml, true);
    var parsed := ParseNodes(parser, doc.xml, true).value;
    var j :| 0 <= j < |doc.nodes| && ElementsOf(doc.nodes)[j] == o;
    if plan.b < plan.e {
      var i := EditedNode(parser, doc, op, plan);
      SamePlace(doc, parsed, i);
      SamePlace(doc, parsed, j);
      assert i < j ==> Apart(parsed[i], parsed[j]);
      assert j < i ==> Apart(parsed[j], parsed[i]);
    }
  }

  /** The node whose whole range a plan replaces. */
  lemma EditedNode(parser: Parser, doc: Doc, op: Op, plan: Plan) returns (i: nat)
    requires PlanOf(parser, doc, op) == Ok(Some(plan)) && plan.b < plan.e
    ensures i < |doc.nodes| && plan.b == doc.nodes[i].rawBegin && plan.e == doc.nodes[i].rawEnd
  {
    hide SerializeSingleNode, FindNode;
    match op
    case Create(fragment, parent) => i := FindNode(doc.nodes, parent.value);
    case Update(id, fragment) => i := FindNode(doc.nodes, id);
    case Remove(id) => i := FindNode(doc.nodes, id);
  }

  lemma SamePlace(doc: Doc, parsed: seq<XmlNode>, i: nat)
    requires AreRelabeled(doc.nodes, parsed, IdList(doc.nodes)) && i < |doc.nodes|
    ensures doc.nodes[i].rawBegin == parsed[i].rawBegin && doc.nodes[i].rawEnd == parsed[i].rawEnd
  {
    assert IsRelabeled(doc.nodes[i], parsed[i], IdList(doc.nodes)[i], IdList(doc.nodes));
  }

  lemma ReplaceNeverCrosses(parser: Parser, doc: Doc, plan: Plan)
    requires PlanSound(doc, plan)
    requires forall o :: o in ElementsOf(doc.nodes) ==> !FateOf(o, plan.b, plan.e, |plan.replacement|).Crossing?
    ensures ReplaceRange(parser, doc, plan.b, plan.e, plan.replacement, plan.bindings) != Err(CrossesRange)
  {
    hide Flatten, ValidTag, BindAll, Preserve, FillFresh, Linked, FateOf, BindingsSound, RemapFrom;
    var xml := Splice(doc.xml, plan.b, plan.e, plan.replacement);
    if ParseNodes(parser, xml, true).Ok? {
      var parsed := ParseNodes(parser, xml, true).value;
      var news, olds := ElementsOf(parsed), ElementsOf(doc.nodes);
      TransferNeverCrosses(news, olds, EditOf(plan), doc.nextId);
      if Transfer(news, olds, EditOf(plan), doc.nextId).Ok? {
        ParsedIsSound(parser, xml, true);
        RemapSucceeds(parsed, Transfer(news, olds, EditOf(plan), doc.nextId).value.0, 0);
      }
    }
  }

  // ---------------------------------------------------------------- whole runs

  function RunOps(parser: Parser, doc: Doc, ops: seq<Op>): Doc
    decreases |ops|
  {
    if ops == [] then doc else RunOps(parser, After(parser, doc, ops[0]), ops[1..])
  }

  /** How many operations of a run commit a change. */
  function Commits(parser: Parser, doc: Doc, ops: seq<Op>): nat
    decreases |ops|
  {
    if ops == [] then 0
    else (if After(parser, doc, ops[0]) == doc then 0 else 1) + Commits(parser, After(parser, doc, ops[0]), ops[1..])
  }

  lemma RevivesNothingIsTransitive(a: Doc, b: Doc, c: Doc)
    requires RevivesNothing(a, b) && RevivesNothing(b, c)
    ensures RevivesNothing(a, c)
  {
    forall n | n in c.nodes && n.id < a.nextId ensures exists m :: m in a.nodes && m.id == n.id {
      var m :| m in b.nodes && m.id == n.id;
    }
  }

  lemma AfterIsSound(parser: Parser, doc: Doc, op: Op)
    requires DocOk(parser, doc)
    ensures var next := After(parser, doc, op);
            && DocOk(parser, next) && RevivesNothing(doc, next)
            && next.revision == doc.revision + (if next == doc then 0 else 1)
            && (next == doc <==> next.xml == doc.xml)
  {
    hide DocOk, RevivesNothing, PlanSound, Applied, PlanOf, Survives, NodeAt;
    SameDocRevivesNothing(doc);
    if Applied(parser, doc, op).Ok? { OperationIsSound(parser, doc, op); }
  }

  /** Over any run of operations, failed ones included: ids stay different, non-zero and below the
      counter, the counter never falls, an id that is gone never comes back, and the revision counts
      exactly the committed changes. */
  lemma {:induction false} EveryRunKeepsIds(parser: Parser, doc: Doc, ops: seq<Op>)
    requires DocOk(parser, doc)
    ensures var last := RunOps(parser, doc, ops);
            && DocOk(parser, last) && RevivesNothing(doc, last)
            && last.revision == doc.revision + Commits(parser, doc, ops)
    decreases |ops|
  {
    hide DocOk, RevivesNothing, After;
    if ops == [] {
      SameDocRevivesNothing(doc);
    } else {
      var next := After(parser, doc, ops[0]);
      AfterIsSound(parser, doc, ops[0]);
      EveryRunKeepsIds(parser, next, ops[1..]);
      RevivesNothingIsTransitive(doc, next, RunOps(parser, next, ops[1..]));
    }
  }

  /** A document can be made of exactly the texts with one valid root element and ids to spare; its ids count from one in
      document order, and it starts with all of this. */
  lemma FromXmlIsOk(parser: Parser, xml: string)
    ensures FromXml(parser, xml).Ok?
            <==> match parser(xml)
                 case Rooted(bodyBegin, root) => root.rawBegin == 0 && ValidTag(root, |xml| - bodyBegin) && Size(root) < ID_MAX
                 case _ => false
    ensures FromXml(parser, xml).Ok? ==>
              var doc := FromXml(parser, xml).value;
              && DocOk(parser, doc) && doc.xml == xml && doc.revision == 0 && doc.nextId == |doc.nodes| + 1
              && forall i :: 0 <= i < |doc.nodes| ==> doc.nodes[i].id == i + 1
  {
    hide Flatten, ValidTag;
    if FromXml(parser, xml).Ok? {
      var doc := FromXml(parser, xml).value;
      ParsedIsSound(parser, xml, false);
      var ids := IdList(doc.nodes);
      forall i | 0 <= i < |doc.nodes| ensures IsRelabeled(doc.nodes[i], doc.nodes[i], ids[i], ids) {
        var n := doc.nodes[i];
        assert ParentRight(doc.nodes, i, None, 0);
        forall k | 0 <= k < |n.childIds| ensures 1 <= n.childIds[k] <= |ids| && n.childIds[k] == ids[n.childIds[k] - 1] {
          assert n.childIds[k] in n.childIds && ChildRight(doc.nodes, i, n.childIds[k], 0);
        }
      }
    }
  }

  ghost predicate Has(doc: Doc, id: nat) { exists n :: n in doc.nodes && n.id == id }

  /** An id that was in use and then vanished is never in use again, whatever follows. */
  lemma VanishedNeverReturns(parser: Parser, doc: Doc, first: seq<Op>, second: seq<Op>, id: nat)
    requires DocOk(parser, doc) && Has(doc, id)
    requires !Has(RunOps(parser, doc, first), id)
    ensures !Has(RunOps(parser, RunOps(parser, doc, first), second), id)
  {
    hide RunOps, AreRelabeled, ParseNodes;
    EveryRunKeepsIds(parser, doc, first);
    EveryRunKeepsIds(parser, RunOps(parser, doc, first), second);
    var n :| n in doc.nodes && n.id == id;
    var i :| 0 <= i < |doc.nodes| && doc.nodes[i] == n;
    assert IdList(doc.nodes)[i] == id;
  }
}
