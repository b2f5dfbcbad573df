/** Exactly when an XML edit succeeds. */
module XmlOutcomes {
  import opened Wrappers
  import opened Identity
  import opened IdentityMatch
  import opened XmlTree
  import opened XmlEditor
  import opened XmlRuns
  import opened XmlPlacement

  /** The trimmed fragment is one element from its first character to its last. */
  predicate IsOneElement(parser: Parser, fragment: string) {
    var text := TrimAscii(fragment);
    && text != ""
    && match parser(text)
       case Rooted(bodyBegin, root) =>
         bodyBegin == 0 && root.rawBegin == 0 && root.rawEnd == |text| && ValidTag(root, |text|)
       case _ => false
  }

  lemma SerializesOneElement(parser: Parser, fragment: string)
    ensures SerializeSingleNode(parser, fragment).Ok? <==> IsOneElement(parser, fragment)
  {
    hide TrimAscii, ValidTag, ValidChildren;
  }

  /** The text with the replacement parses, and the parse has an element for every binding and for every element outside
      the edit, at its new place; there are ids for all other elements. */
  ghost predicate CanBeCommitted(parser: Parser, doc: Doc, plan: Plan) {
    && plan.b <= plan.e <= |doc.xml| && doc.revision < ID_MAX
    && ParseNodes(parser, Splice(doc.xml, plan.b, plan.e, plan.replacement), true).Ok?
    && var parsed := ParseNodes(parser, Splice(doc.xml, plan.b, plan.e, plan.replacement), true).value;
       var news, olds, edit := ElementsOf(parsed), ElementsOf(doc.nodes), EditOf(plan);
    && BindingsStand(news, plan.bindings) && KeptStand(news, olds, edit)
    && AreLeft(doc.nextId, Allocations(plan.bindings))
    && AreLeft(doc.nextId + Allocations(plan.bindings), |news| - |plan.bindings| - KeptCount(olds, edit))
  }

  lemma PlacesAreDistinct(parser: Parser, doc: Doc)
    requires DocOk(parser, doc) && ReportsTags(parser)
    ensures DistinctPlaces(ElementsOf(doc.nodes))
  {
    hide ParseNodes, IdsOk, IsRelabeled;
    ParsedIsLaminar(parser, doc.xml, true);
    var parsed, es := ParseNodes(parser, doc.xml, true).value, ElementsOf(doc.nodes);
    forall j, k | 0 <= j < k < |es| ensures es[j].begin != es[k].begin || es[j].end != es[k].end {
      SamePlace(doc, parsed, j);
      SamePlace(doc, parsed, k);
      assert Apart(parsed[j], parsed[k]);
    }
  }

  lemma ReplaceSucceeds(parser: Parser, doc: Doc, plan: Plan)
    requires DocOk(parser, doc) && ReportsTags(parser) && PlanSound(doc, plan)
    requires BindsInside(EditOf(plan)) && AllocatesNext(plan.bindings, doc.nextId)
    requires NothingCrosses(ElementsOf(doc.nodes), EditOf(plan))
    ensures ReplaceRange(parser, doc, plan.b, plan.e, plan.replacement, plan.bindings).Ok? <==> CanBeCommitted(parser, doc, plan)
  {
    hide ParseNodes, Transfer, RemapFrom, BindsInside, AllocatesNext, NothingCrosses, BindingsStand, KeptStand, Allocations,
         KeptCount, AreRelabeled, Linked, SlicesOf, BindingsSound, Transferred, DistinctPlaces;
    PlacesAreDistinct(parser, doc);
    var xml := Splice(doc.xml, plan.b, plan.e, plan.replacement);
    if ParseNodes(parser, xml, true).Ok? {
      var parsed := ParseNodes(parser, xml, true).value;
      var news, olds := ElementsOf(parsed), ElementsOf(doc.nodes);
      TransferSucceeds(news, olds, EditOf(plan), doc.nextId);
      if Transfer(news, olds, EditOf(plan), doc.nextId).Ok? {
        var (ids, nextId) := Transfer(news, olds, EditOf(plan), doc.nextId).value;
        assert IdsOf(olds) == IdList(doc.nodes);
        TransferIsSound(news, olds, EditOf(plan), doc.nextId);
        TransferredAreUnique(news, olds, EditOf(plan), doc.nextId, ids, nextId);
        ParsedIsSound(parser, xml, true);
        RemapSucceeds(parsed, ids, 0);
      }
    }
  }

  lemma TransferredAreUnique(news: seq<Element>, olds: seq<Element>, edit: Edit, nextId: nat, ids: seq<nat>, next: nat)
    requires |ids| == |news| && edit.b <= edit.e && Transferred(news, olds, edit, nextId, ids, next)
    ensures UniqueIds(ids)
  {
    hide IdAt;
  }

  /** Plans never cross an element and bind inside the new text. */
  lemma PlanFitsTransfer(parser: Parser, doc: Doc, op: Op, plan: Plan)
    requires DocOk(parser, doc) && ReportsTags(parser) && PlanOf(parser, doc, op) == Ok(Some(plan))
    ensures plan.b <= plan.e
    ensures BindsInside(EditOf(plan)) && AllocatesNext(plan.bindings, doc.nextId) && NothingCrosses(ElementsOf(doc.nodes), EditOf(plan))
  {
    hide DocOk, PlanOf, PlanSound, FateOf, PlanCreate;
    PlanIsSound(parser, doc, op, plan);
    SoundPlanRange(doc, plan);
    forall k | 0 <= k < |doc.nodes| ensures !FateOf(ElementsOf(doc.nodes)[k], plan.b, plan.e, |plan.replacement|).Crossing? {
      assert ElementsOf(doc.nodes)[k] in ElementsOf(doc.nodes);
      PlanCrossesNothing(parser, doc, op, plan, ElementsOf(doc.nodes)[k]);
    }
    PlanBindsInside(parser, doc, op, plan);
  }

  lemma PlanBindsInside(parser: Parser, doc: Doc, op: Op, plan: Plan)
    requires PlanOf(parser, doc, op) == Ok(Some(plan)) && plan.b <= plan.e
    ensures BindsInside(EditOf(plan)) && AllocatesNext(plan.bindings, doc.nextId)
  {
    hide SerializeSingleNode, FindNode, TrimAscii;
    match op
    case Create(fragment, parent) => SerializedIsWhole(parser, fragment);
    case Update(id, fragment) => SerializedIsWhole(parser, fragment);
    case Remove(id) =>
  }

  /** What an operation on element `i`, or on the whole document, replaces. */
  ghost predicate IsPlanFor(parser: Parser, doc: Doc, op: Op, plan: Plan) {
    match op
    case Create(fragment, parent) =>
      && IsOneElement(parser, fragment) && 0 < doc.nextId < ID_MAX
      && (match parent
          case None =>
            var at, child := |doc.xml|, TrimAscii(fragment);
            doc.nodes == [] && plan == Plan(at, at, child, [Binding(doc.nextId, at, at + |child|, true)])
          case Some(id) =>
            exists n :: n in doc.nodes && n.id == id && InsertsOnly(doc, n, TrimAscii(fragment), plan))
    case Update(id, fragment) =>
      && IsOneElement(parser, fragment)
      && var text := TrimAscii(fragment);
         exists n :: n in doc.nodes && n.id == id && text != n.rawXml
                     && plan == Plan(n.rawBegin, n.rawEnd, text, [Binding(id, n.rawBegin, n.rawBegin + |text|, false)])
    case Remove(id) => exists n :: n in doc.nodes && n.id == id && plan == Plan(n.rawBegin, n.rawEnd, "", [])
  }

  /** There is nothing to do: the element has the text already, or there is none to remove. */
  ghost predicate HasNothingToDo(parser: Parser, doc: Doc, op: Op) {
    match op
    case Create(_, _) => false
    case Update(id, fragment) =>
      IsOneElement(parser, fragment) && exists n :: n in doc.nodes && n.id == id && TrimAscii(fragment) == n.rawXml
    case Remove(id) => !Has(doc, id)
  }

  lemma FindsIt(parser: Parser, doc: Doc, id: nat)
    requires DocOk(parser, doc)
    ensures var i := FindNode(doc.nodes, id);
            if i < |doc.nodes| then doc.nodes[i] in doc.nodes && forall n :: n in doc.nodes && n.id == id ==> n == doc.nodes[i]
            else !Has(doc, id)
  {
    hide ParseNodes, AreRelabeled;
    var i, ids := FindNode(doc.nodes, id), IdList(doc.nodes);
    forall n | n in doc.nodes && n.id == id ensures i < |doc.nodes| && n == doc.nodes[i] {
      var j :| 0 <= j < |doc.nodes| && doc.nodes[j] == n;
      assert ids[j] == id && (i < |doc.nodes| ==> ids[i] == id);
    }
  }

  /** The bindings of an insertion are no more than it needs. */
  ghost predicate InsertsOnly(doc: Doc, n: XmlNode, child: string, plan: Plan) {
    InsertsInto(doc, n, child, plan) && |plan.bindings| == if n.selfClosing then 2 else 1
  }

  lemma OpeningIs(parser: Parser, doc: Doc, i: nat, child: string, plan: Plan)
    requires DocOk(parser, doc) && i < |doc.nodes| && doc.nodes[i].selfClosing
    ensures InsertsOnly(doc, doc.nodes[i], child, plan)
            <==> EndsWithSlash(doc.nodes[i].rawXml) && plan == OpenedParent(doc.nodes[i], child, doc.nextId)
  {
    hide DocOk;
    NodeTexts(parser, doc, i);
    var n := doc.nodes[i];
    if EndsWithSlash(n.rawXml) {
      var made := OpenedParent(n, child, doc.nextId);
      assert made.replacement == Head(n) + child + Tail(n);
      if InsertsOnly(doc, n, child, plan) { SameTwo(plan.bindings, made.bindings); }
    }
  }

  lemma SameTwo(a: seq<Binding>, b: seq<Binding>)
    requires |a| == |b| == 2 && a[0] == b[0] && a[1] == b[1]
    ensures a == b
  {
  }

  lemma InsertionIs(parser: Parser, doc: Doc, i: nat, child: string, plan: Plan)
    requires DocOk(parser, doc) && i < |doc.nodes| && !doc.nodes[i].selfClosing
    ensures InsertsOnly(doc, doc.nodes[i], child, plan) <==> plan == Insertion(doc.nodes[i].valueEnd, child, doc.nextId)
  {
    hide DocOk, Tail;
    NodeTexts(parser, doc, i);
    HeadAndTail(parser, doc, i);
    assert InsertsOnly(doc, doc.nodes[i], child, plan) ==> plan.bindings == [plan.bindings[0]];
  }

  lemma PlanIs(parser: Parser, doc: Doc, op: Op, plan: Plan)
    requires DocOk(parser, doc)
    ensures PlanOf(parser, doc, op) == Ok(None) <==> HasNothingToDo(parser, doc, op)
    ensures PlanOf(parser, doc, op) == Ok(Some(plan)) <==> IsPlanFor(parser, doc, op, plan)
  {
    hide SerializeSingleNode, FindNode, TrimAscii, IsOneElement, DocOk, PlanCreate;
    match op
    case Create(fragment, parent) =>
      CreatePlanIs(parser, doc, fragment, parent, plan);
    case Update(id, fragment) =>
      FindsIt(parser, doc, id);
      SerializesOneElement(parser, fragment);
      if SerializeSingleNode(parser, fragment).Ok? { SerializedIsWhole(parser, fragment); }
    case Remove(id) =>
      FindsIt(parser, doc, id);
  }

  lemma CreatePlanIs(parser: Parser, doc: Doc, fragment: string, parent: Option<nat>, plan: Plan)
    requires DocOk(parser, doc)
    ensures PlanCreate(parser, doc, fragment, parent) == Ok(plan) <==> IsPlanFor(parser, doc, Op.Create(fragment, parent), plan)
  {
    hide SerializeSingleNode, FindNode, TrimAscii, IsOneElement, InsertsOnly, EndsWithSlash, OpenedParent;
    SerializesOneElement(parser, fragment);
    if SerializeSingleNode(parser, fragment).Ok? { SerializedIsWhole(parser, fragment); }
    RootOrNone(parser, doc);
    hide DocOk;
    if parent.Some? {
      FindsIt(parser, doc, parent.value);
      var i := FindNode(doc.nodes, parent.value);
      if i < |doc.nodes| && doc.nodes[i].selfClosing {
        OpeningIs(parser, doc, i, TrimAscii(fragment), plan);
      } else if i < |doc.nodes| {
        InsertionIs(parser, doc, i, TrimAscii(fragment), plan);
      }
    }
  }

  lemma RootOrNone(parser: Parser, doc: Doc)
    requires DocOk(parser, doc)
    ensures doc.rootId.None? <==> doc.nodes == []
  {
    hide ParseNodes, AreRelabeled, IdsOk;
  }

  /** With tags around all content, an operation succeeds exactly when there is nothing to do or the edit that it stands
      for can be committed. */
  lemma SucceedsExactlyIf(parser: Parser, doc: Doc, op: Op)
    requires DocOk(parser, doc) && ReportsTags(parser)
    ensures Applied(parser, doc, op).Ok?
            <==> HasNothingToDo(parser, doc, op) || exists plan :: IsPlanFor(parser, doc, op, plan) && CanBeCommitted(parser, doc, plan)
  {
    hide DocOk, PlanOf, ReplaceRange, IsPlanFor, HasNothingToDo, CanBeCommitted, PlanSound, BindsInside, AllocatesNext, NothingCrosses;
    forall plan ensures PlanOf(parser, doc, op) == Ok(Some(plan)) <==> IsPlanFor(parser, doc, op, plan) { PlanIs(parser, doc, op, plan); }
    PlanIs(parser, doc, op, Plan(0, 0, "", []));
    if PlanOf(parser, doc, op).Ok? && PlanOf(parser, doc, op).value.Some? {
      var plan := PlanOf(parser, doc, op).value.value;
      PlanIsSound(parser, doc, op, plan);
      PlanFitsTransfer(parser, doc, op, plan);
      ReplaceSucceeds(parser, doc, plan);
    }
  }
}
