/** Where the HTML block editor puts things: the texts after each operation, and the places of the blocks that were
    there before. */
module HtmlPlacement {
  import opened Wrappers
  import opened Identity
  import opened HtmlHierarchy
  import opened HtmlEditor
  import XmlEditor

  /** The trimmed fragment is one block for the tracker: the only one that no other one contains, from its beginning to
      its end. `text` is that block's own text. */
  ghost predicate IsOneBlock(parser: HtmlParser, fragment: string, text: string) {
    var trimmed := XmlEditor.TrimAscii(fragment);
    && trimmed != "" && parser.track(trimmed).Some?
    && var bs := parser.track(trimmed).value;
       exists t :: IsTopBlock(bs, t) && bs[t].rawBegin == 0 && bs[t].rawEnd == |trimmed| && bs[t].html == text
  }

  /** The only block that no other one contains. */
  ghost predicate IsTopBlock(bs: seq<Block>, t: int) {
    0 <= t < |bs| && forall j :: 0 <= j < |bs| ==> (j == t <==> !IsContained(bs, j))
  }

  ghost predicate IsContained(bs: seq<Block>, j: nat)
    requires j < |bs|
  {
    exists k :: 0 <= k < |bs| && IsWider(bs[k], bs[j])
  }

  lemma SerializedIsOneBlock(parser: HtmlParser, fragment: string)
    requires SerializeSingleBlock(parser, fragment).Ok?
    ensures IsOneBlock(parser, fragment, SerializeSingleBlock(parser, fragment).value)
  {
    hide ParentOf, IsContained, RootIndexes;
    var bs := parser.track(XmlEditor.TrimAscii(fragment)).value;
    var top := RootIndexes(bs, |bs|);
    forall j | 0 <= j < |bs| ensures j == top[0] <==> !IsContained(bs, j) {
      RootIsNotContained(bs, j);
      ListedAre(bs, j, j);
    }
  }

  lemma RootIsNotContained(bs: seq<Block>, j: nat)
    requires j < |bs|
    ensures ParentOf(bs, j).None? <==> !IsContained(bs, j)
  {
    hide ParentOf;
    ParentIsMinimalContainer(bs, j);
  }

  /** Where `create` inserts: at the end of the text, or where the content of the parent ends. */
  ghost predicate IsInsertionPoint(doc: Doc, parent: Option<nat>, at: nat) {
    match parent
    case None => at == |doc.html|
    case Some(id) => exists p :: p in doc.blocks && p.id == id && p.valueEnd == at
  }

  /** Where a block of before is after an insertion: in front of it, behind it, or around it. */
  ghost predicate StandsRight(b: Block, at: nat, size: nat, m: Block) {
    && m.id == b.id && m.tagName == b.tagName
    && (if b.rawEnd <= at then m.rawBegin == b.rawBegin && m.rawEnd == b.rawEnd
        else if at <= b.rawBegin then m.rawBegin == b.rawBegin + size && m.rawEnd == b.rawEnd + size
        else m.rawBegin == b.rawBegin < at && m.rawEnd == b.rawEnd + size > at + size)
  }

  lemma BlockAfter(doc: Doc, next: Doc, plan: Plan, b: Block) returns (m: Block)
    requires plan.b == plan.e <= |doc.html| && Edited(doc, next, plan) && b in doc.blocks
    ensures m in next.blocks && StandsRight(b, plan.b, |plan.replacement|, m)
  {
    hide Survives;
    assert IsCarried(b, next, plan);
    var fate := FateOf(Placed(b.id, b.tagName, b.rawBegin, b.rawEnd), plan.b, plan.e, |plan.replacement|);
    assert BlockAt(next, b.id, fate.begin, fate.end, Some(b.tagName));
    m :| m in next.blocks && m.id == b.id
         && Matches(Placed(b.id, m.tagName, m.rawBegin, m.rawEnd), fate.begin, fate.end, Some(b.tagName));
  }

  /** `create` puts the block into the text at the end of its parent's content; the parent, if it has an end tag, and
      whatever else was around that place is around the new block, and every other block keeps its side of it. */
  lemma CreatedIsPlaced(parser: HtmlParser, doc: Doc, fragment: string, parent: Option<nat>) returns (at: nat, text: string)
    requires DocOk(doc) && Applied(parser, doc, Op.Create(fragment, parent)).Ok?
    ensures var next := Applied(parser, doc, Op.Create(fragment, parent)).value;
            && IsInsertionPoint(doc, parent, at) && at <= |doc.html| && IsOneBlock(parser, fragment, text)
            && next.html == doc.html[..at] + text + doc.html[at..]
            && (next != doc ==>
                  && (exists c :: c in next.blocks && c.id == doc.nextId && c.rawBegin == at && c.rawEnd == at + |text|)
                  && (forall b :: b in doc.blocks ==> exists m :: m in next.blocks && StandsRight(b, at, |text|, m)))
  {
    hide DocOk, Edited, ReplaceRange, SerializeSingleBlock, FindBlock, RevivesNothing, StandsRight, IsOneBlock;
    var op := Op.Create(fragment, parent);
    var next := Applied(parser, doc, op).value;
    var plan := PlanOf(parser, doc, op).value.value;
    at, text := plan.b, plan.replacement;
    SerializedIsOneBlock(parser, fragment);
    OperationIsSound(parser, doc, op);
    InBounds(parser, doc, plan);
    if parent.Some? { assert doc.blocks[FindBlock(doc.blocks, parent.value)] in doc.blocks; }
    if next != doc {
      Created(doc, next, plan);
      forall b | b in doc.blocks ensures exists m :: m in next.blocks && StandsRight(b, at, |text|, m) {
        var m := BlockAfter(doc, next, plan, b);
      }
    }
  }

  lemma Created(doc: Doc, next: Doc, plan: Plan)
    requires plan.b <= plan.e <= |doc.html| && Edited(doc, next, plan) && plan.root.Some?
    ensures exists c :: c in next.blocks && c.id == plan.root.value.id && c.rawBegin == plan.b && c.rawEnd == plan.b + |plan.replacement|
  {
  }

  /** Whether or not anything changed, the text is the spliced one. */
  lemma InBounds(parser: HtmlParser, doc: Doc, plan: Plan)
    requires ReplaceRange(parser, doc, plan.b, plan.e, plan.replacement, plan.root).Ok?
    ensures plan.b <= plan.e <= |doc.html|
    ensures ReplaceRange(parser, doc, plan.b, plan.e, plan.replacement, plan.root).value.html
         == doc.html[..plan.b] + plan.replacement + doc.html[plan.e..]
  {
    hide ParseBlocks, Transfer, Hierarchy, Roots;
  }

  /** The text after `update` and `remove`. */
  lemma OtherTexts(parser: HtmlParser, doc: Doc, op: Op)
    requires DocOk(doc) && Applied(parser, doc, op).Ok? && !op.Create?
    ensures var next := Applied(parser, doc, op).value;
            match op
            case Create(_, _) => true
            case Update(id, fragment) =>
              exists b, text :: b in doc.blocks && b.id == id && IsOneBlock(parser, fragment, text)
                && (if text == b.html then next == doc
                    else b.rawEnd <= |doc.html| && next.html == doc.html[..b.rawBegin] + text + doc.html[b.rawEnd..])
            case Remove(id) =>
              if !Has(doc, id) then next == doc
              else exists b :: b in doc.blocks && b.id == id && b.rawEnd <= |doc.html|
                               && next.html == doc.html[..b.rawBegin] + doc.html[b.rawEnd..]
  {
    hide DocOk, Edited, ReplaceRange, SerializeSingleBlock, FindBlock, ParseBlocks, IsOneBlock;
    if PlanOf(parser, doc, op).value.Some? { InBounds(parser, doc, PlanOf(parser, doc, op).value.value); }
    match op {
    case Update(id, fragment) =>
      SerializedIsOneBlock(parser, fragment);
      assert doc.blocks[FindBlock(doc.blocks, id)] in doc.blocks;
    case Remove(id) =>
      var i := FindBlock(doc.blocks, id);
      if i < |doc.blocks| {
        assert doc.blocks[i] in doc.blocks;
        if doc.blocks[i].rawEnd <= |doc.html| { NothingAround(doc.html[..doc.blocks[i].rawBegin]); }
      }
    case Create(_, _) =>
    }
  }
}
