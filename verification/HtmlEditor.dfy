/** The source-preserving HTML block editor, and what its runs keep. Nothing is assumed of the block
    tracker but that its ranges are not empty. */
module HtmlEditor {
  import opened Wrappers
  import opened Identity
  import opened HtmlHierarchy
  import XmlEditor

  /** The library's block tracker, and the scan that finds a text without any block. */
  datatype HtmlParser = HtmlParser(isBlank: string -> bool, track: string -> Option<seq<Block>>)

  /** The fields of HtmlBlockDocument, but for the authorship record. */
  datatype Doc = Doc(html: string, blocks: seq<Block>, rootIds: seq<nat>, nextId: nat, revision: nat)

  const EMPTY_DOC := Doc("", [], [], 1, 0)

  function ParseBlocks(parser: HtmlParser, html: string): Result<seq<Block>, EditError> {
    if parser.isBlank(html) then Ok([])
    else match parser.track(html) case None => Err(ParseFailed) case Some(bs) => Ok(bs)
  }

  function ElementsOf(bs: seq<Block>): (es: seq<Element>)
    ensures |es| == |bs|
    ensures forall i :: 0 <= i < |bs| ==> es[i] == Placed(bs[i].id, bs[i].tagName, bs[i].rawBegin, bs[i].rawEnd)
  {
    seq(|bs|, i requires 0 <= i < |bs| => Placed(bs[i].id, bs[i].tagName, bs[i].rawBegin, bs[i].rawEnd))
  }

  function BlockIds(bs: seq<Block>): (ids: seq<nat>)
    ensures |ids| == |bs| && forall i :: 0 <= i < |bs| ==> ids[i] == bs[i].id
  {
    seq(|bs|, i requires 0 <= i < |bs| => bs[i].id)
  }

  function Renumbered(bs: seq<Block>, ids: seq<nat>): (out: seq<Block>)
    requires |ids| == |bs|
    ensures |out| == |bs|
    ensures forall i :: 0 <= i < |bs| ==> out[i] == bs[i].(id := ids[i], sourceIndex := i)
  {
    seq(|bs|, i requires 0 <= i < |bs| => bs[i].(id := ids[i], sourceIndex := i))
  }

  // ---------------------------------------------------------------- fromHtml

  function MaxId(bs: seq<Block>): (m: nat)
    ensures forall i :: 0 <= i < |bs| ==> bs[i].id <= m
  {
    if bs == [] then 0 else Max(bs[0].id, MaxId(bs[1..]))
  }

  function FromHtml(parser: HtmlParser, html: string): Result<Doc, EditError> {
    match ParseBlocks(parser, html)
    case Err(error) => Err(error)
    case Ok(bs) =>
      if MaxId(bs) >= ID_MAX then Err(IdSpaceExhausted)
      else Ok(Doc(html, Hierarchy(bs), Roots(bs), MaxId(bs) + 1, 0))
  }

  // ---------------------------------------------------------------- replaceRange

  /** The replaced text's root, when there is one: its id, and whether the id is new. */
  datatype NewRoot = NewRoot(id: nat, isNew: bool)

  function EditOf(b: nat, e: nat, size: nat, root: Option<NewRoot>): Edit {
    match root
    case None => Edit(b, e, size, [], None)
    case Some(r) => Edit(b, e, size, [Binding(r.id, b, b + size, r.isNew)], if r.isNew then None else Some(r.id))
  }

  function ReplaceRange(parser: HtmlParser, doc: Doc, b: nat, e: nat, replacement: string, root: Option<NewRoot>)
    : Result<Doc, EditError>
  {
    if b > e || e > |doc.html| then Err(OutOfBounds)
    else if doc.revision >= ID_MAX then Err(RevisionExhausted)
    else
      var html := XmlEditor.Splice(doc.html, b, e, replacement);
      match ParseBlocks(parser, html)
      case Err(error) => Err(error)
      case Ok(parsed) =>
        match Transfer(ElementsOf(parsed), ElementsOf(doc.blocks), EditOf(b, e, |replacement|, root), doc.nextId)
        case Err(error) => Err(error)
        case Ok((ids, nextId)) =>
          var next := Renumbered(parsed, ids);
          if doc.html == html then Ok(doc)
          else Ok(Doc(html, Hierarchy(next), Roots(next), nextId, doc.revision + 1))
  }

  // ---------------------------------------------------------------- the operations

  /** serializeSingleBlock: one block that no other contains, spanning the whole trimmed fragment. */
  function SerializeSingleBlock(parser: HtmlParser, fragment: string): Result<string, EditError> {
    var trimmed := XmlEditor.TrimAscii(fragment);
    if trimmed == "" then Err(BadFragment)
    else
      match parser.track(trimmed)
      case None => Err(ParseFailed)
      case Some(bs) =>
        var top := RootIndexes(bs, |bs|);
        if |top| != 1 || bs[top[0]].rawBegin != 0 || bs[top[0]].rawEnd != |trimmed| then Err(BadFragment)
        else Ok(bs[top[0]].html)
  }

  function FindBlock(bs: seq<Block>, id: nat, from: nat := 0): (i: nat)
    requires from <= |bs|
    ensures from <= i <= |bs| && (i < |bs| ==> bs[i].id == id)
    ensures forall j :: from <= j < i ==> bs[j].id != id
    decreases |bs| - from
  {
    if from == |bs| || bs[from].id == id then from else FindBlock(bs, id, from + 1)
  }

  datatype Op = Create(fragment: string, parent: Option<nat>) | Update(id: nat, fragment: string) | Remove(id: nat)

  datatype Plan = Plan(b: nat, e: nat, replacement: string, root: Option<NewRoot>)

  /** `create` inserts at the end of the text, or where the parent's value ends. */
  function PlanCreate(parser: HtmlParser, doc: Doc, fragment: string, parent: Option<nat>): Result<Plan, EditError> {
    match SerializeSingleBlock(parser, fragment)
    case Err(error) => Err(error)
    case Ok(serialized) =>
      var i := if parent.None? then 0 else FindBlock(doc.blocks, parent.value);
      if parent.Some? && i == |doc.blocks| then Err(NotFound)
      else if doc.nextId == 0 || doc.nextId >= ID_MAX then Err(IdSpaceExhausted)
      else
        var at := if parent.None? then |doc.html| else doc.blocks[i].valueEnd;
        Ok(Plan(at, at, serialized, Some(NewRoot(doc.nextId, true))))
  }

  /** `remove` tries the shortened text first; std::string::erase clamps the length. */
  function PlanRemove(parser: HtmlParser, doc: Doc, block: Block): Result<Plan, EditError> {
    if block.rawBegin > |doc.html| then Err(OutOfBounds)
    else
      match ParseBlocks(parser, doc.html[..block.rawBegin] + doc.html[Min(block.rawEnd, |doc.html|)..])
      case Err(error) => Err(error)
      case Ok(_) => Ok(Plan(block.rawBegin, block.rawEnd, "", None))
  }

  function PlanOf(parser: HtmlParser, doc: Doc, op: Op): Result<Option<Plan>, EditError> {
    match op
    case Create(fragment, parent) =>
      (match PlanCreate(parser, doc, fragment, parent)
       case Err(error) => Err(error)
       case Ok(plan) => Ok(Some(plan)))
    case Update(id, fragment) =>
      var i := FindBlock(doc.blocks, id);
      if i == |doc.blocks| then Err(NotFound)
      else
        (match SerializeSingleBlock(parser, fragment)
         case Err(error) => Err(error)
         case Ok(serialized) =>
           if serialized == doc.blocks[i].html then Ok(None)
           else Ok(Some(Plan(doc.blocks[i].rawBegin, doc.blocks[i].rawEnd, serialized, Some(NewRoot(id, false))))))
    case Remove(id) =>
      var i := FindBlock(doc.blocks, id);
      if i == |doc.blocks| then Ok(None)
      else
        (match PlanRemove(parser, doc, doc.blocks[i])
         case Err(error) => Err(error)
         case Ok(plan) => Ok(Some(plan)))
  }

  /** The document after an operation, or what the operation throws. */
  function Applied(parser: HtmlParser, doc: Doc, op: Op): Result<Doc, EditError> {
    match PlanOf(parser, doc, op)
    case Err(error) => Err(error)
    case Ok(None) => Ok(doc)
    case Ok(Some(plan)) => ReplaceRange(parser, doc, plan.b, plan.e, plan.replacement, plan.root)
  }

  function After(parser: HtmlParser, doc: Doc, op: Op): Doc {
    match Applied(parser, doc, op) case Ok(next) => next case Err(_) => doc
  }

  // ---------------------------------------------------------------- the class

  class HtmlBlockDocument {
    const parser: HtmlParser
    var html: string
    var blocks: seq<Block>
    var rootIds: seq<nat>
    var nextId: nat
    var revision: nat

    function View(): Doc
      reads this
    {
      Doc(html, blocks, rootIds, nextId, revision)
    }

    constructor (parser: HtmlParser)
      ensures this.parser == parser && View() == EMPTY_DOC
    {
      this.parser := parser;
      html, blocks, rootIds, nextId, revision := "", [], [], 1, 0;
    }

    /** HtmlBlockEditor::create returns the new id. */
    method Create(fragment: string, parent: Option<nat>) returns (r: Result<nat, EditError>)
      modifies this
      ensures match Applied(parser, old(View()), Op.Create(fragment, parent))
              case Ok(doc) => View() == doc && r == Ok(old(nextId))
              case Err(error) => View() == old(View()) && r == Err(error)
    {
      hide SerializeSingleBlock, FindBlock, ReplaceRange;
      var createdId := nextId;
      var serialized := TopLevelBlock(fragment);
      if serialized.Err? { return Err(serialized.error); }
      var insertion := |html|;
      if parent.Some? {
        var i := FindBlock(blocks, parent.value);
        if i == |blocks| { return Err(NotFound); }
        insertion := blocks[i].valueEnd;
      }
      if nextId == 0 || nextId >= ID_MAX { return Err(IdSpaceExhausted); }
      var failed := ReplaceRangeInPlace(insertion, insertion, serialized.value, Some(NewRoot(createdId, true)));
      return match failed case Some(error) => Err(error) case None => Ok(createdId);
    }

    method Update(id: nat, fragment: string) returns (failed: Option<EditError>)
      modifies this
      ensures match Applied(parser, old(View()), Op.Update(id, fragment))
              case Ok(doc) => View() == doc && failed == None
              case Err(error) => View() == old(View()) && failed == Some(error)
    {
      hide SerializeSingleBlock, FindBlock, ReplaceRange;
      var i := FindBlock(blocks, id);
      if i == |blocks| { return Some(NotFound); }
      var serialized := TopLevelBlock(fragment);
      if serialized.Err? { return Some(serialized.error); }
      if serialized.value == blocks[i].html { return None; }
      failed := ReplaceRangeInPlace(blocks[i].rawBegin, blocks[i].rawEnd, serialized.value, Some(NewRoot(id, false)));
    }

    /** The result is false when there is no such block. */
    method Remove(id: nat) returns (r: Result<bool, EditError>)
      modifies this
      ensures match Applied(parser, old(View()), Op.Remove(id))
              case Ok(doc) => View() == doc && r == Ok(exists b :: b in old(blocks) && b.id == id)
              case Err(error) => View() == old(View()) && r == Err(error)
    {
      hide ReplaceRange, ParseBlocks;
      var i := FindBlock(blocks, id);
      if i == |blocks| { return Ok(false); }
      assert blocks[i] in blocks;
      var plan := PlanRemove(parser, View(), blocks[i]);
      if plan.Err? { return Err(plan.error); }
      var failed := ReplaceRangeInPlace(blocks[i].rawBegin, blocks[i].rawEnd, "", None);
      return match failed case Some(error) => Err(error) case None => Ok(true);
    }

    /** The inner loop of serializeSingleBlock. */
    static method HasContainer(bs: seq<Block>, candidateIndex: nat) returns (contained: bool)
      requires candidateIndex < |bs|
      ensures contained == ParentOf(bs, candidateIndex).Some?
    {
      for otherIndex := 0 to |bs|
        invariant forall j :: 0 <= j < otherIndex ==> !StrictlyContains(bs[j], bs[candidateIndex])
      {
        if candidateIndex != otherIndex && StrictlyContains(bs[otherIndex], bs[candidateIndex]) { return true; }
      }
      return false;
    }

    /** The top-level search of serializeSingleBlock. */
    method TopLevelBlock(fragment: string) returns (r: Result<string, EditError>)
      ensures r == SerializeSingleBlock(parser, fragment)
    {
      var trimmed := XmlEditor.TrimAscii(fragment);
      if trimmed == "" { return Err(BadFragment); }
      var tracked := parser.track(trimmed);
      if tracked.None? { return Err(ParseFailed); }
      var bs := tracked.value;
      var top: seq<nat> := [];
      for candidateIndex := 0 to |bs|
        invariant top == RootIndexes(bs, candidateIndex)
      {
        var contained := HasContainer(bs, candidateIndex);
        if !contained { top := top + [candidateIndex]; }
      }
      if |top| != 1 || bs[top[0]].rawBegin != 0 || bs[top[0]].rawEnd != |trimmed| { return Err(BadFragment); }
      return Ok(bs[top[0]].html);
    }

    /** replaceRange: everything that can fail happens before the first field is written. */
    method ReplaceRangeInPlace(b: nat, e: nat, replacement: string, root: Option<NewRoot>) returns (failed: Option<EditError>)
      modifies this
      ensures match ReplaceRange(parser, old(View()), b, e, replacement, root)
              case Ok(doc) => View() == doc && failed == None
              case Err(error) => View() == old(View()) && failed == Some(error)
    {
      hide ParseBlocks, Transfer, Hierarchy, Roots;
      if b > e || e > |html| { return Some(OutOfBounds); }
      if revision >= ID_MAX { return Some(RevisionExhausted); }
      var nextHtml := XmlEditor.Splice(html, b, e, replacement);
      var parsed := ParseBlocks(parser, nextHtml);
      if parsed.Err? { return Some(parsed.error); }
      var edit := EditOf(b, e, |replacement|, root);
      var transferred := TransferIds(ElementsOf(parsed.value), ElementsOf(blocks), edit, nextId);
      if transferred.Err? { return Some(transferred.error); }
      var numbered := Renumbered(parsed.value, transferred.value.0);
      var nextBlocks := new Block[|numbered|](i requires 0 <= i < |numbered| => numbered[i]);
      assert nextBlocks[..] == numbered;
      var nextRootIds := RebuildHierarchy(nextBlocks);
      if html == nextHtml { return None; }
      html, blocks, rootIds := nextHtml, nextBlocks[..], nextRootIds;
      nextId, revision := transferred.value.1, revision + 1;
      return None;
    }
  }

  // ---------------------------------------------------------------- the document invariant

  /** Ids are different, non-zero and spent; every link is the one that the ranges dictate. */
  ghost predicate DocOk(doc: Doc) {
    && IdsOk(BlockIds(doc.blocks), doc.nextId)
    && Hierarchy(doc.blocks) == doc.blocks
    && Roots(doc.blocks) == doc.rootIds
  }

  /** The default-constructed document. */
  lemma EmptyIsOk()
    ensures DocOk(EMPTY_DOC)
  {
    assert Hierarchy([]) == [];
  }

  lemma {:induction false} MaxIdIsTaken(bs: seq<Block>)
    ensures if bs == [] then MaxId(bs) == 0 else exists i :: 0 <= i < |bs| && bs[i].id == MaxId(bs)
  {
    if bs != [] {
      var rest := bs[1..];
      MaxIdIsTaken(rest);
      if bs[0].id < MaxId(rest) {
        var i :| 0 <= i < |rest| && rest[i].id == MaxId(rest);
        assert bs[i + 1].id == MaxId(bs);
      } else {
        assert bs[0].id == MaxId(bs);
      }
    }
  }

  /** A document can be made of exactly the texts that parse into blocks with ids to spare. The blocks keep their ids, the
      next id is the one after the greatest, and with different, non-zero ids it starts with the invariant. */
  lemma FromHtmlIsOk(parser: HtmlParser, html: string)
    ensures FromHtml(parser, html).Ok?
            <==> && ParseBlocks(parser, html).Ok?
                 && forall i :: 0 <= i < |ParseBlocks(parser, html).value| ==> ParseBlocks(parser, html).value[i].id < ID_MAX
    ensures FromHtml(parser, html).Ok? ==>
              var doc, bs := FromHtml(parser, html).value, ParseBlocks(parser, html).value;
              && doc.html == html && doc.revision == 0 && |doc.blocks| == |bs|
              && (forall i :: 0 <= i < |bs| ==> doc.blocks[i].id == bs[i].id < doc.nextId)
              && (if bs == [] then doc.nextId == 1 else exists i :: 0 <= i < |bs| && bs[i].id + 1 == doc.nextId)
              && (DistinctIds(bs) && (forall i :: 0 <= i < |bs| ==> bs[i].id > 0) ==> DocOk(doc))
  {
    hide MaxId, Hierarchy, Roots, LinkedUpTo, RootIndexes, DistinctIds, ParseBlocks, DocOk;
    if ParseBlocks(parser, html).Ok? {
      var bs := ParseBlocks(parser, html).value;
      MaxIdIsTaken(bs);
      KeepsIds(bs);
      if FromHtml(parser, html).Ok? && DistinctIds(bs) && forall i :: 0 <= i < |bs| ==> bs[i].id > 0 {
        FreshIsOk(html, bs, MaxId(bs) + 1);
      }
    }
  }

  lemma KeepsIds(bs: seq<Block>)
    ensures |Hierarchy(bs)| == |bs| && forall i :: 0 <= i < |bs| ==> Hierarchy(bs)[i].id == bs[i].id
  {
    hide Depth, ParentOf, ChildIndexes, IdsAt;
  }

  lemma FreshIsOk(html: string, bs: seq<Block>, nextId: nat)
    requires DistinctIds(bs) && forall i :: 0 <= i < |bs| ==> 0 < bs[i].id < nextId
    requires nextId >= 1
    ensures DocOk(Doc(html, Hierarchy(bs), Roots(bs), nextId, 0))
  {
    hide Hierarchy, Roots;
    KeepsIds(bs);
    RebuildIsIdempotent(bs);
  }

  // ---------------------------------------------------------------- one operation

  ghost predicate Has(doc: Doc, id: nat) { exists b :: b in doc.blocks && b.id == id }

  ghost predicate RevivesNothing(doc: Doc, next: Doc) {
    doc.nextId <= next.nextId && forall id: nat :: id < doc.nextId && Has(next, id) ==> Has(doc, id)
  }

  /** There is a block with this id and tag at this range. */
  ghost predicate BlockAt(doc: Doc, id: nat, begin: nat, end: nat, tagName: Option<string>) {
    exists b :: b in doc.blocks && b.id == id && Matches(Placed(id, b.tagName, b.rawBegin, b.rawEnd), begin, end, tagName)
  }

  /** An old block lies inside the edited range, or is the replaced root, or is there again, shifted. */
  ghost predicate IsCarried(b: Block, next: Doc, plan: Plan)
    requires plan.b <= plan.e
  {
    match FateOf(Placed(b.id, b.tagName, b.rawBegin, b.rawEnd), plan.b, plan.e, |plan.replacement|)
    case Dropped => plan.b <= b.rawBegin && b.rawEnd <= plan.e
    case Crossing => false
    case Moved(begin, end) => BlockAt(next, b.id, begin, end, Some(b.tagName))
  }

  /** What a committed edit does to identities. */
  ghost predicate Edited(doc: Doc, next: Doc, plan: Plan)
    requires plan.b <= plan.e <= |doc.html|
  {
    && next.html == XmlEditor.Splice(doc.html, plan.b, plan.e, plan.replacement)
    && next.revision == doc.revision + 1
    && (plan.root.Some? ==> BlockAt(next, plan.root.value.id, plan.b, plan.b + |plan.replacement|, None))
    && (forall b :: b in doc.blocks ==> IsCarried(b, next, plan))
    && (forall b :: b in next.blocks && b.id < doc.nextId ==> Survives(doc, plan, b.id))
  }

  /** `id` belongs to an old block that is the replaced root or does not lie inside the edited range. */
  ghost predicate Survives(doc: Doc, plan: Plan, id: nat) {
    exists b :: b in doc.blocks && b.id == id
             && ((plan.root.Some? && plan.root.value.id == id) || !(plan.b <= b.rawBegin && b.rawEnd <= plan.e))
  }

  ghost predicate PlanSound(doc: Doc, plan: Plan) {
    && BindingsSound(EditOf(plan.b, plan.e, |plan.replacement|, plan.root), ElementsOf(doc.blocks), doc.nextId)
    && (plan.root.Some? ==> forall b :: b in doc.blocks && b.id == plan.root.value.id ==>
          b.rawBegin == plan.b && b.rawEnd == plan.e)
  }

  lemma InsertionIsSound(doc: Doc, at: nat, replacement: string)
    requires IdsOk(BlockIds(doc.blocks), doc.nextId)
    ensures PlanSound(doc, Plan(at, at, replacement, Some(NewRoot(doc.nextId, true))))
  {
    forall b | b in doc.blocks ensures b.id < doc.nextId {
      var j :| 0 <= j < |doc.blocks| && doc.blocks[j] == b;
    }
  }

  lemma ReplacementIsSound(doc: Doc, i: nat, replacement: string)
    requires IdsOk(BlockIds(doc.blocks), doc.nextId) && i < |doc.blocks|
    ensures PlanSound(doc, Plan(doc.blocks[i].rawBegin, doc.blocks[i].rawEnd, replacement, Some(NewRoot(doc.blocks[i].id, false))))
  {
    var plan := Plan(doc.blocks[i].rawBegin, doc.blocks[i].rawEnd, replacement, Some(NewRoot(doc.blocks[i].id, false)));
    assert ElementsOf(doc.blocks)[i] in ElementsOf(doc.blocks);
    assert EditOf(plan.b, plan.e, |replacement|, plan.root).bindings[0].id == doc.blocks[i].id;
    forall b | b in doc.blocks && b.id == doc.blocks[i].id ensures b == doc.blocks[i] {
      var j :| 0 <= j < |doc.blocks| && doc.blocks[j] == b;
    }
  }

  lemma PlanIsSound(parser: HtmlParser, doc: Doc, op: Op, plan: Plan)
    requires DocOk(doc) && PlanOf(parser, doc, op) == Ok(Some(plan))
    ensures PlanSound(doc, plan)
  {
    hide Hierarchy, Roots, ParseBlocks, SerializeSingleBlock, FindBlock, PlanSound, IdsOk;
    match op
    case Create(fragment, parent) => InsertionIsSound(doc, plan.b, plan.replacement);
    case Update(id, fragment) => ReplacementIsSound(doc, FindBlock(doc.blocks, id), plan.replacement);
    case Remove(id) => RemovalIsSound(doc, plan);
  }

  lemma RemovalIsSound(doc: Doc, plan: Plan)
    requires plan.b <= plan.e && plan.root.None?
    ensures PlanSound(doc, plan)
  {
  }

  /** The next blocks are those of the spliced text under the transferred ids, links rebuilt. */
  lemma ReplaceCommits(parser: HtmlParser, doc: Doc, plan: Plan)
    requires DocOk(doc) && PlanSound(doc, plan)
    requires ReplaceRange(parser, doc, plan.b, plan.e, plan.replacement, plan.root).Ok?
    requires ReplaceRange(parser, doc, plan.b, plan.e, plan.replacement, plan.root).value != doc
    ensures var next := ReplaceRange(parser, doc, plan.b, plan.e, plan.replacement, plan.root).value;
            && next.html == XmlEditor.Splice(doc.html, plan.b, plan.e, plan.replacement) != doc.html
            && next.revision == doc.revision + 1
            && ParseBlocks(parser, next.html).Ok?
            && var parsed := ParseBlocks(parser, next.html).value;
            var edit := EditOf(plan.b, plan.e, |plan.replacement|, plan.root);
            && Transfer(ElementsOf(parsed), ElementsOf(doc.blocks), edit, doc.nextId) == Ok((BlockIds(next.blocks), next.nextId))
            && |parsed| == |next.blocks|
            && (forall i :: 0 <= i < |parsed| ==>
                  && next.blocks[i].tagName == parsed[i].tagName
                  && next.blocks[i].rawBegin == parsed[i].rawBegin && next.blocks[i].rawEnd == parsed[i].rawEnd)
            && Transferred(ElementsOf(parsed), ElementsOf(doc.blocks), edit, doc.nextId, BlockIds(next.blocks), next.nextId)
            && DocOk(next)
  {
    hide ParseBlocks, Transfer, BindingsSound, Transferred, ParentOf, Depth, ChildIndexes, Roots;
    var html := XmlEditor.Splice(doc.html, plan.b, plan.e, plan.replacement);
    var parsed := ParseBlocks(parser, html).value;
    var edit := EditOf(plan.b, plan.e, |plan.replacement|, plan.root);
    assert IdsOf(ElementsOf(doc.blocks)) == BlockIds(doc.blocks);
    TransferIsSound(ElementsOf(parsed), ElementsOf(doc.blocks), edit, doc.nextId);
    var (ids, nextId) := Transfer(ElementsOf(parsed), ElementsOf(doc.blocks), edit, doc.nextId).value;
    var next := ReplaceRange(parser, doc, plan.b, plan.e, plan.replacement, plan.root).value;
    assert BlockIds(next.blocks) == ids;
    RebuildIsIdempotent(Renumbered(parsed, ids));
    TransferredIdsOk(ElementsOf(parsed), ElementsOf(doc.blocks), edit, doc.nextId, ids, nextId);
  }

  lemma TransferredIdsOk(news: seq<Element>, olds: seq<Element>, edit: Edit, nextId: nat, ids: seq<nat>, next: nat)
    requires edit.b <= edit.e && |ids| == |news| && Transferred(news, olds, edit, nextId, ids, next)
    ensures IdsOk(ids, next)
  {
  }

  lemma IdAtIsBlockAt(next: Doc, parsed: seq<Block>, id: nat, begin: nat, end: nat, tagName: Option<string>)
    requires |parsed| == |next.blocks|
    requires forall i :: 0 <= i < |parsed| ==>
               && next.blocks[i].tagName == parsed[i].tagName
               && next.blocks[i].rawBegin == parsed[i].rawBegin && next.blocks[i].rawEnd == parsed[i].rawEnd
    requires IdAt(ElementsOf(parsed), BlockIds(next.blocks), id, begin, end, tagName)
    ensures BlockAt(next, id, begin, end, tagName)
  {
    var i :| 0 <= i < |parsed| && BlockIds(next.blocks)[i] == id && Matches(ElementsOf(parsed)[i], begin, end, tagName);
    assert next.blocks[i] in next.blocks;
  }

  lemma BlockIsCarried(parser: HtmlParser, doc: Doc, plan: Plan, b: Block)
    requires DocOk(doc) && PlanSound(doc, plan) && b in doc.blocks && plan.b <= plan.e
    requires ReplaceRange(parser, doc, plan.b, plan.e, plan.replacement, plan.root).Ok?
    requires ReplaceRange(parser, doc, plan.b, plan.e, plan.replacement, plan.root).value != doc
    ensures IsCarried(b, ReplaceRange(parser, doc, plan.b, plan.e, plan.replacement, plan.root).value, plan)
  {
    hide ParseBlocks, BindAll, Preserve, FillFresh, ReplaceRange, BindingsSound, IdAt, BlockAt, FateOf, DocOk;
    ReplaceCommits(parser, doc, plan);
    var next := ReplaceRange(parser, doc, plan.b, plan.e, plan.replacement, plan.root).value;
    var parsed := ParseBlocks(parser, next.html).value;
    var olds, edit := ElementsOf(doc.blocks), EditOf(plan.b, plan.e, |plan.replacement|, plan.root);
    var i :| 0 <= i < |doc.blocks| && doc.blocks[i] == b;
    assert olds[i] == Placed(b.id, b.tagName, b.rawBegin, b.rawEnd);
    FateIsMovedOutside(olds[i], plan.b, plan.e, |plan.replacement|);
    var bound := BindAll(ElementsOf(parsed), seq(|parsed|, _ => None), edit.bindings, doc.nextId).value.0;
    PreserveMeetsNoCrossing(ElementsOf(parsed), bound, olds, edit);
    var fate := FateOf(olds[i], plan.b, plan.e, |plan.replacement|);
    if fate.Moved? {
      assert IsKept(olds[i], edit);
      IdAtIsBlockAt(next, parsed, b.id, fate.begin, fate.end, Some(b.tagName));
    }
  }

  /** An operation that succeeds either changes nothing or commits exactly one change: every block
      outside the edit is there again under its id and tag, the given root is where its text is, no id from
      inside the edited range but the root's is left, ids stay sound, links are rebuilt from the ranges, and no spent id comes back. Crossing ranges are allowed. */
  lemma OperationIsSound(parser: HtmlParser, doc: Doc, op: Op)
    requires DocOk(doc) && Applied(parser, doc, op).Ok?
    ensures var next := Applied(parser, doc, op).value;
            && DocOk(next) && RevivesNothing(doc, next)
            && (next != doc ==>
                  && PlanOf(parser, doc, op).Ok? && PlanOf(parser, doc, op).value.Some?
                  && var plan := PlanOf(parser, doc, op).value.value;
                  plan.b <= plan.e <= |doc.html| && Edited(doc, next, plan))
  {
    hide DocOk, PlanSound, PlanOf, ParseBlocks, Transfer, IsCarried, BlockAt, Transferred, Hierarchy, Roots;
    var next := Applied(parser, doc, op).value;
    if next != doc {
      var plan := PlanOf(parser, doc, op).value.value;
      PlanIsSound(parser, doc, op, plan);
      ReplaceCommits(parser, doc, plan);
      forall b | b in doc.blocks ensures IsCarried(b, next, plan) { BlockIsCarried(parser, doc, plan, b); }
      RootIsBound(parser, doc, plan, next);
      ReplaceRevivesNothing(parser, doc, plan, next);
      OnlySurvivorsStay(parser, doc, plan, next);
    }
  }

  lemma OnlySurvivorsStay(parser: HtmlParser, doc: Doc, plan: Plan, next: Doc)
    requires DocOk(doc) && PlanSound(doc, plan) && next != doc && plan.b <= plan.e
    requires ReplaceRange(parser, doc, plan.b, plan.e, plan.replacement, plan.root) == Ok(next)
    ensures forall b :: b in next.blocks && b.id < doc.nextId ==> Survives(doc, plan, b.id)
  {
    hide ParseBlocks, Transfer, ReplaceRange, IdAt, DocOk, FateOf, BindingsSound, Survives;
    ReplaceCommits(parser, doc, plan);
    forall b | b in next.blocks && b.id < doc.nextId ensures Survives(doc, plan, b.id) {
      var i :| 0 <= i < |next.blocks| && next.blocks[i] == b;
      assert BlockIds(next.blocks)[i] == b.id;
      KeptIdsSurvive(doc, plan, b.id);
    }
  }

  lemma KeptIdsSurvive(doc: Doc, plan: Plan, id: nat)
    requires PlanSound(doc, plan) && plan.b <= plan.e && id < doc.nextId
    requires var edit := EditOf(plan.b, plan.e, |plan.replacement|, plan.root);
             id in BindingIds(edit.bindings) + KeptIds(ElementsOf(doc.blocks), edit)
    ensures Survives(doc, plan, id)
  {
    hide FateOf;
    var olds, edit := ElementsOf(doc.blocks), EditOf(plan.b, plan.e, |plan.replacement|, plan.root);
    if id in BindingIds(edit.bindings) {
      var o :| o in olds && o.id == id;
      var j :| 0 <= j < |olds| && olds[j] == o;
      assert doc.blocks[j] in doc.blocks;
    } else {
      var k :| 0 <= k < |olds| && IsKept(olds[k], edit) && olds[k].id == id;
      FateIsMovedOutside(olds[k], plan.b, plan.e, |plan.replacement|);
      assert doc.blocks[k] in doc.blocks;
    }
  }

  /** After `create` and `update` have changed the text, the named block is where the serialised fragment now stands;
      `remove` of a block always commits, and the block is gone. */
  lemma NamedBlockIsPresent(parser: HtmlParser, doc: Doc, op: Op, plan: Plan)
    requires DocOk(doc) && Applied(parser, doc, op).Ok? && PlanOf(parser, doc, op) == Ok(Some(plan))
    ensures var next := Applied(parser, doc, op).value;
            match op
            case Create(fragment, _) => next != doc ==> StandsAt(next, doc.nextId, plan.b, SerializeSingleBlock(parser, fragment))
            case Update(id, fragment) => next != doc ==> StandsAt(next, id, plan.b, SerializeSingleBlock(parser, fragment))
            case Remove(id) => next != doc && !Has(next, id)
  {
    hide DocOk, FateOf, IsCarried, BlockAt, SerializeSingleBlock, FindBlock, ReplaceRange;
    OperationIsSound(parser, doc, op);
    var next := Applied(parser, doc, op).value;
    match op
    case Create(fragment, parent) =>
      if next != doc { SplicedIn(doc.html, plan.b, plan.e, plan.replacement); }
    case Update(id, fragment) =>
      if next != doc { SplicedIn(doc.html, plan.b, plan.e, plan.replacement); }
    case Remove(id) =>
      RemovalCommits(parser, doc, plan);
      RemovedIsGone(parser, doc, id, plan, next);
  }

  /** The block `id` begins at `at` and spans exactly the given text. */
  ghost predicate StandsAt(doc: Doc, id: nat, at: nat, text: Result<string, EditError>) {
    && text.Ok? && at + |text.value| <= |doc.html| && doc.html[at..at + |text.value|] == text.value
    && BlockAt(doc, id, at, at + |text.value|, None)
  }

  lemma SplicedIn(html: string, b: nat, e: nat, replacement: string)
    requires b <= e <= |html|
    ensures var next := XmlEditor.Splice(html, b, e, replacement);
            b + |replacement| <= |next| && next[b..b + |replacement|] == replacement
  {
  }

  lemma RemovalCommits(parser: HtmlParser, doc: Doc, plan: Plan)
    requires plan.b < plan.e && plan.replacement == ""
    requires ReplaceRange(parser, doc, plan.b, plan.e, plan.replacement, plan.root).Ok?
    ensures ReplaceRange(parser, doc, plan.b, plan.e, plan.replacement, plan.root).value != doc
  {
    hide ParseBlocks, Transfer, Hierarchy, Roots;
    assert |XmlEditor.Splice(doc.html, plan.b, plan.e, "")| < |doc.html|;
  }

  lemma RemovedIsGone(parser: HtmlParser, doc: Doc, id: nat, plan: Plan, next: Doc)
    requires DocOk(doc) && PlanOf(parser, doc, Op.Remove(id)) == Ok(Some(plan))
    requires plan.b <= plan.e <= |doc.html| && Edited(doc, next, plan)
    ensures !Has(next, id)
  {
    hide ParseBlocks, IsCarried, BlockAt, Hierarchy, Roots, Survives, IdsOk, FindBlock;
    ReplacedDoesNotSurvive(doc, FindBlock(doc.blocks, id), plan);
  }

  lemma ReplacedDoesNotSurvive(doc: Doc, i: nat, plan: Plan)
    requires IdsOk(BlockIds(doc.blocks), doc.nextId) && i < |doc.blocks| && plan.root.None?
    requires plan.b == doc.blocks[i].rawBegin && plan.e == doc.blocks[i].rawEnd
    ensures doc.blocks[i].id < doc.nextId && !Survives(doc, plan, doc.blocks[i].id)
  {
    var ids := BlockIds(doc.blocks);
    assert ids[i] == doc.blocks[i].id;
    forall b | b in doc.blocks && b.id == doc.blocks[i].id ensures b == doc.blocks[i] {
      var j :| 0 <= j < |doc.blocks| && doc.blocks[j] == b;
      assert ids[j] == ids[i];
    }
  }

  lemma RootIsBound(parser: HtmlParser, doc: Doc, plan: Plan, next: Doc)
    requires DocOk(doc) && PlanSound(doc, plan) && next != doc
    requires ReplaceRange(parser, doc, plan.b, plan.e, plan.replacement, plan.root) == Ok(next)
    ensures plan.root.Some? ==> BlockAt(next, plan.root.value.id, plan.b, plan.b + |plan.replacement|, None)
  {
    hide ParseBlocks, Transfer, ReplaceRange, BindingsSound, IdAt, BlockAt, DocOk, FateOf;
    ReplaceCommits(parser, doc, plan);
    if plan.root.Some? {
      var edit := EditOf(plan.b, plan.e, |plan.replacement|, plan.root);
      assert edit.bindings[0].id == plan.root.value.id;
      IdAtIsBlockAt(next, ParseBlocks(parser, next.html).value, plan.root.value.id, plan.b, plan.b + |plan.replacement|, None);
    }
  }

  lemma ReplaceRevivesNothing(parser: HtmlParser, doc: Doc, plan: Plan, next: Doc)
    requires DocOk(doc) && PlanSound(doc, plan) && next != doc
    requires ReplaceRange(parser, doc, plan.b, plan.e, plan.replacement, plan.root) == Ok(next)
    ensures RevivesNothing(doc, next)
  {
    hide ParseBlocks, Transfer, ReplaceRange, IdAt, DocOk, FateOf;
    ReplaceCommits(parser, doc, plan);
    var olds, edit := ElementsOf(doc.blocks), EditOf(plan.b, plan.e, |plan.replacement|, plan.root);
    forall id: nat | id < doc.nextId && Has(next, id) ensures Has(doc, id) {
      var b :| b in next.blocks && b.id == id;
      var i :| 0 <= i < |next.blocks| && next.blocks[i] == b;
      assert BlockIds(next.blocks)[i] == id;
    }
  }

  /** No operation ever fails for an inconsistent allocation. */
  lemma AllocationIsConsistent(parser: HtmlParser, doc: Doc, op: Op)
    requires DocOk(doc)
    ensures Applied(parser, doc, op) != Err(AllocationInconsistent)
  {
    hide DocOk, PlanSound, Transfer, XmlEditor.TrimAscii, FindBlock, ParentOf, RootIndexes;
    if PlanOf(parser, doc, op).Ok? && PlanOf(parser, doc, op).value.Some? {
      var plan := PlanOf(parser, doc, op).value.value;
      PlanIsSound(parser, doc, op, plan);
      ReplaceAllocates(parser, doc, plan);
    }
  }

  lemma ReplaceAllocates(parser: HtmlParser, doc: Doc, plan: Plan)
    requires PlanSound(doc, plan)
    ensures ReplaceRange(parser, doc, plan.b, plan.e, plan.replacement, plan.root) != Err(AllocationInconsistent)
  {
    hide Transfer, Hierarchy, Roots, BindingsSound;
    var html := if plan.b <= plan.e <= |doc.html| then XmlEditor.Splice(doc.html, plan.b, plan.e, plan.replacement) else "";
    if ParseBlocks(parser, html).Ok? {
      TransferErrors(ElementsOf(ParseBlocks(parser, html).value), ElementsOf(doc.blocks),
        EditOf(plan.b, plan.e, |plan.replacement|, plan.root), doc.nextId);
    }
  }

  // ---------------------------------------------------------------- whole runs

  function RunOps(parser: HtmlParser, doc: Doc, ops: seq<Op>): Doc
    decreases |ops|
  {
    if ops == [] then doc else RunOps(parser, After(parser, doc, ops[0]), ops[1..])
  }

  /** How many operations of a run commit a change. */
  function Commits(parser: HtmlParser, doc: Doc, ops: seq<Op>): nat
    decreases |ops|
  {
    if ops == [] then 0
    else (if After(parser, doc, ops[0]) == doc then 0 else 1) + Commits(parser, After(parser, doc, ops[0]), ops[1..])
  }

  lemma AfterIsSound(parser: HtmlParser, doc: Doc, op: Op)
    requires DocOk(doc)
    ensures var next := After(parser, doc, op);
            && DocOk(next) && RevivesNothing(doc, next)
            && next.revision == doc.revision + (if next == doc then 0 else 1)
  {
    hide DocOk, Applied, PlanOf, BlockAt, IsCarried;
    if Applied(parser, doc, op).Ok? { OperationIsSound(parser, doc, op); }
  }

  /** Over any run, failed operations included: ids stay different, non-zero and below the counter, links
      stay those of the ranges, a vanished id never returns, and the revision counts the changes. */
  lemma {:induction false} EveryRunKeepsIds(parser: HtmlParser, doc: Doc, ops: seq<Op>)
    requires DocOk(doc)
    ensures var last := RunOps(parser, doc, ops);
            && DocOk(last) && RevivesNothing(doc, last)
            && last.revision == doc.revision + Commits(parser, doc, ops)
    decreases |ops|
  {
    hide DocOk, Has, After;
    if ops != [] {
      AfterIsSound(parser, doc, ops[0]);
      EveryRunKeepsIds(parser, After(parser, doc, ops[0]), ops[1..]);
    }
  }

  /** An id that was in use and then vanished is never in use again, whatever follows. */
  lemma VanishedNeverReturns(parser: HtmlParser, doc: Doc, first: seq<Op>, second: seq<Op>, id: nat)
    requires DocOk(doc) && Has(doc, id)
    requires !Has(RunOps(parser, doc, first), id)
    ensures !Has(RunOps(parser, RunOps(parser, doc, first), second), id)
  {
    hide RunOps, Hierarchy, Roots;
    EveryRunKeepsIds(parser, doc, first);
    EveryRunKeepsIds(parser, RunOps(parser, doc, first), second);
    var b :| b in doc.blocks && b.id == id;
    var i :| 0 <= i < |doc.blocks| && doc.blocks[i] == b;
  }
}
