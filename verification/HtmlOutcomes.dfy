/** Exactly when an HTML edit succeeds. Blocks may cross here, but no two of them have the same range. */
module HtmlOutcomes {
  import opened Wrappers
  import opened Identity
  import opened IdentityMatch
  import opened HtmlHierarchy
  import opened HtmlEditor
  import opened HtmlPlacement
  import XmlEditor

  lemma SerializesOneBlock(parser: HtmlParser, fragment: string, text: string)
    ensures SerializeSingleBlock(parser, fragment) == Ok(text) <==> IsOneBlock(parser, fragment, text)
  {
    hide ParentOf, XmlEditor.TrimAscii, RootIndexes, IsContained;
    if SerializeSingleBlock(parser, fragment).Ok? { SerializedIsOneBlock(parser, fragment); }
    if IsOneBlock(parser, fragment, text) {
      var trimmed := XmlEditor.TrimAscii(fragment);
      var bs := parser.track(trimmed).value;
      var t :| IsTopBlock(bs, t) && bs[t].rawBegin == 0 && bs[t].rawEnd == |trimmed| && bs[t].html == text;
      OnlyTop(bs, t);
    }
  }

  lemma OnlyTop(bs: seq<Block>, t: int)
    requires IsTopBlock(bs, t)
    ensures RootIndexes(bs, |bs|) == [t]
  {
    hide ParentOf, IsContained, RootIndexes;
    var top := RootIndexes(bs, |bs|);
    forall j | 0 <= j < |bs| ensures j in top <==> j == t {
      RootIsNotContained(bs, j);
      ListedAre(bs, t, j);
    }
    OnlyElement(top, t);
  }

  lemma OnlyElement(js: seq<nat>, t: nat)
    requires (forall a, b :: 0 <= a < b < |js| ==> js[a] < js[b]) && forall j :: j in js <==> j == t
    ensures js == [t]
  {
    assert t in js && js[0] in js && js[|js| - 1] in js;
  }

  /** The text with the replacement parses, no block crosses the edit, and the parse has a block for the new text and
      for every block outside the edit, at its new place; there are ids for all other blocks. */
  ghost predicate CanBeCommitted(parser: HtmlParser, doc: Doc, plan: Plan) {
    && plan.b <= plan.e <= |doc.html| && doc.revision < ID_MAX
    && ParseBlocks(parser, XmlEditor.Splice(doc.html, plan.b, plan.e, plan.replacement)).Ok?
    && var parsed := ParseBlocks(parser, XmlEditor.Splice(doc.html, plan.b, plan.e, plan.replacement)).value;
       var news, olds := ElementsOf(parsed), ElementsOf(doc.blocks);
       var edit := EditOf(plan.b, plan.e, |plan.replacement|, plan.root);
    && BindingsStand(news, edit.bindings) && KeptStand(news, olds, edit) && NothingCrosses(olds, edit)
    && AreLeft(doc.nextId, Allocations(edit.bindings))
    && AreLeft(doc.nextId + Allocations(edit.bindings), |news| - |edit.bindings| - KeptCount(olds, edit))
  }

  lemma ReplaceSucceeds(parser: HtmlParser, doc: Doc, plan: Plan)
    requires DocOk(doc) && DistinctPlaces(ElementsOf(doc.blocks))
    requires plan.root.Some? ==> plan.replacement != "" && (plan.root.value.isNew ==> plan.root.value.id == doc.nextId)
    ensures ReplaceRange(parser, doc, plan.b, plan.e, plan.replacement, plan.root).Ok? <==> CanBeCommitted(parser, doc, plan)
  {
    hide ParseBlocks, Transfer, BindingsStand, KeptStand, NothingCrosses, Allocations, KeptCount, Hierarchy, Roots, DistinctPlaces;
    if plan.b <= plan.e <= |doc.html| && ParseBlocks(parser, XmlEditor.Splice(doc.html, plan.b, plan.e, plan.replacement)).Ok? {
      var parsed := ParseBlocks(parser, XmlEditor.Splice(doc.html, plan.b, plan.e, plan.replacement)).value;
      TransferSucceeds(ElementsOf(parsed), ElementsOf(doc.blocks), EditOf(plan.b, plan.e, |plan.replacement|, plan.root), doc.nextId);
    }
  }

  lemma FindsIt(doc: Doc, id: nat)
    requires DocOk(doc)
    ensures var i := FindBlock(doc.blocks, id);
            if i < |doc.blocks| then doc.blocks[i] in doc.blocks && forall b :: b in doc.blocks && b.id == id ==> b == doc.blocks[i]
            else !Has(doc, id)
  {
    hide Hierarchy, Roots, IdsOk;
    var i := FindBlock(doc.blocks, id);
    forall b | b in doc.blocks && b.id == id ensures i < |doc.blocks| && b == doc.blocks[i] {
      var j :| 0 <= j < |doc.blocks| && doc.blocks[j] == b;
      if i < |doc.blocks| { SameIndex(doc.blocks, doc.nextId, i, j); }
    }
  }

  lemma SameIndex(bs: seq<Block>, nextId: nat, i: nat, j: nat)
    requires IdsOk(BlockIds(bs), nextId) && i < |bs| && j < |bs| && bs[i].id == bs[j].id
    ensures i == j
  {
    assert BlockIds(bs)[i] == BlockIds(bs)[j];
  }

  /** What an operation replaces. */
  ghost predicate IsPlanFor(parser: HtmlParser, doc: Doc, op: Op, plan: Plan) {
    match op
    case Create(fragment, parent) =>
      && IsOneBlock(parser, fragment, plan.replacement) && IsInsertionPoint(doc, parent, plan.b) && plan.e == plan.b
      && 0 < doc.nextId < ID_MAX && plan.root == Some(NewRoot(doc.nextId, true))
    case Update(id, fragment) =>
      && IsOneBlock(parser, fragment, plan.replacement) && plan.root == Some(NewRoot(id, false))
      && exists b :: b in doc.blocks && b.id == id && plan.replacement != b.html && plan.b == b.rawBegin && plan.e == b.rawEnd
    case Remove(id) =>
      && plan.replacement == "" && plan.root == None
      && (exists b :: b in doc.blocks && b.id == id && plan.b == b.rawBegin && plan.e == b.rawEnd)
      && plan.b <= |doc.html| && ParseBlocks(parser, doc.html[..plan.b] + doc.html[Min(plan.e, |doc.html|)..]).Ok?
  }

  /** There is nothing to do: the block has the text already, or there is none to remove. */
  ghost predicate HasNothingToDo(parser: HtmlParser, doc: Doc, op: Op) {
    match op
    case Create(_, _) => false
    case Update(id, fragment) => exists b :: b in doc.blocks && b.id == id && IsOneBlock(parser, fragment, b.html)
    case Remove(id) => !Has(doc, id)
  }

  lemma PlanIs(parser: HtmlParser, doc: Doc, op: Op, plan: Plan)
    requires DocOk(doc)
    ensures PlanOf(parser, doc, op) == Ok(None) <==> HasNothingToDo(parser, doc, op)
    ensures PlanOf(parser, doc, op) == Ok(Some(plan)) <==> IsPlanFor(parser, doc, op, plan)
  {
    hide SerializeSingleBlock, FindBlock, IsOneBlock, ParseBlocks, DocOk;
    forall fragment, text ensures SerializeSingleBlock(parser, fragment) == Ok(text) <==> IsOneBlock(parser, fragment, text) {
      SerializesOneBlock(parser, fragment, text);
    }
    match op
    case Create(fragment, parent) => if parent.Some? { FindsIt(doc, parent.value); }
    case Update(id, fragment) => FindsIt(doc, id);
    case Remove(id) => FindsIt(doc, id);
  }

  /** An operation succeeds exactly when there is nothing to do or the edit that it stands for can be committed, if no two
      blocks have the same range and the tracker gives no empty text for a block. */
  lemma SucceedsExactlyIf(parser: HtmlParser, doc: Doc, op: Op)
    requires DocOk(doc) && DistinctPlaces(ElementsOf(doc.blocks))
    requires forall fragment :: !IsOneBlock(parser, fragment, "")
    ensures Applied(parser, doc, op).Ok?
            <==> HasNothingToDo(parser, doc, op) || exists plan :: IsPlanFor(parser, doc, op, plan) && CanBeCommitted(parser, doc, plan)
  {
    hide DocOk, PlanOf, ReplaceRange, HasNothingToDo, CanBeCommitted, IsOneBlock, DistinctPlaces;
    forall plan ensures PlanOf(parser, doc, op) == Ok(Some(plan)) <==> IsPlanFor(parser, doc, op, plan) { PlanIs(parser, doc, op, plan); }
    PlanIs(parser, doc, op, Plan(0, 0, "", None));
    if PlanOf(parser, doc, op).Ok? && PlanOf(parser, doc, op).value.Some? {
      ReplaceSucceeds(parser, doc, PlanOf(parser, doc, op).value.value);
    }
  }
}
