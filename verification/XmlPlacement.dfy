/** Where the XML editor puts things: the texts after each operation, and where a created element ends up among the
    elements that were there before. */
module XmlPlacement {
  import opened Wrappers
  import opened Identity
  import opened XmlTree
  import opened XmlEditor
  import opened XmlRuns

  // ---------------------------------------------------------------- the text of the document

  lemma FoundAt(parser: Parser, doc: Doc, i: nat)
    requires DocOk(parser, doc) && i < |doc.nodes|
    ensures FindNode(doc.nodes, doc.nodes[i].id) == i
    ensures forall j :: 0 <= j < |doc.nodes| && doc.nodes[j].id == doc.nodes[i].id ==> j == i
  {
    hide ParseNodes, AreRelabeled;
    var ids := IdList(doc.nodes);
    assert ids[i] == doc.nodes[i].id;
    assert forall j :: 0 <= j < |doc.nodes| ==> ids[j] == doc.nodes[j].id;
  }

  /** Where a node's element begins and ends, what is between its tags, and that these are its texts. */
  lemma NodeTexts(parser: Parser, doc: Doc, i: nat)
    requires DocOk(parser, doc) && i < |doc.nodes|
    ensures var n := doc.nodes[i];
            && n.rawEnd <= |doc.xml| && n.rawXml == doc.xml[n.rawBegin..n.rawEnd]
            && n.innerXml == doc.xml[n.valueBegin..n.valueEnd]
            && (n.selfClosing <==> n.valueBegin == n.rawEnd)
            && n.id < doc.nextId
  {
    hide ParseNodes, Linked;
    ParsedIsSound(parser, doc.xml, true);
    var parsed := ParseNodes(parser, doc.xml, true).value;
    assert IsRelabeled(doc.nodes[i], parsed[i], IdList(doc.nodes)[i], IdList(doc.nodes));
    assert IdList(doc.nodes)[i] == doc.nodes[i].id;
  }

  /** Tags around the content, unless the element is self-closing. */
  predicate HasItsTags(n: XmlNode) { n.selfClosing || (n.rawBegin < n.valueBegin && n.valueEnd < n.rawEnd) }

  predicate HasRawText(n: XmlNode) { |n.rawXml| == n.rawEnd - n.rawBegin && (n.selfClosing ==> |n.rawXml| >= 3) }

  /** What comes before a new child: the opening tag and all content so far. A self-closing tag is opened. */
  function Head(n: XmlNode): string
    requires HasRawText(n)
  {
    if n.selfClosing then n.rawXml[..|n.rawXml| - 2] + ">" else n.rawXml[..n.valueBegin - n.rawBegin] + n.innerXml
  }

  /** What comes after it: the end tag, which a self-closing element gets. */
  function Tail(n: XmlNode): string
    requires HasRawText(n)
  {
    if n.selfClosing then "</" + n.name + ">" else n.rawXml[n.valueEnd - n.rawBegin..]
  }

  /** The content of an element that is not self-closing stands between its tags. */
  lemma HeadAndTail(parser: Parser, doc: Doc, i: nat)
    requires DocOk(parser, doc) && i < |doc.nodes| && !doc.nodes[i].selfClosing
    ensures var n := doc.nodes[i];
            && HasRawText(n) && n.rawXml == Head(n) + Tail(n) && n.rawEnd <= |doc.xml|
            && Head(n) == doc.xml[n.rawBegin..n.valueEnd] && Tail(n) == doc.xml[n.valueEnd..n.rawEnd]
  {
    hide DocOk;
    NodeTexts(parser, doc, i);
    var n := doc.nodes[i];
    assert doc.xml[n.rawBegin..n.rawEnd][..n.valueBegin - n.rawBegin] == doc.xml[n.rawBegin..n.valueBegin];
    assert doc.xml[n.rawBegin..n.valueBegin] + doc.xml[n.valueBegin..n.valueEnd] == doc.xml[n.rawBegin..n.valueEnd];
  }

  /** The edit that puts a child into an element. */
  ghost predicate InsertsInto(doc: Doc, n: XmlNode, child: string, plan: Plan) {
    && HasRawText(n) && (n.selfClosing ==> n.rawXml[|n.rawXml| - 2..] == "/>")
    && plan.b == (if n.selfClosing then n.rawBegin else n.valueEnd)
    && plan.e == (if n.selfClosing then n.rawEnd else n.valueEnd)
    && plan.e <= |doc.xml|
    && plan.replacement == (if n.selfClosing then Head(n) + child + Tail(n) else child)
    && plan.bindings != []
    && (n.selfClosing ==> plan.bindings[0] == Binding(n.id, n.rawBegin, n.rawBegin + |plan.replacement|, false))
    && var at := n.rawBegin + |Head(n)|; plan.bindings[|plan.bindings| - 1] == Binding(doc.nextId, at, at + |child|, true)
  }

  lemma CreatePlan(parser: Parser, doc: Doc, fragment: string, i: nat) returns (plan: Plan)
    requires DocOk(parser, doc) && i < |doc.nodes|
    requires Applied(parser, doc, Op.Create(fragment, Some(doc.nodes[i].id))).Ok?
    ensures var next := Applied(parser, doc, Op.Create(fragment, Some(doc.nodes[i].id))).value;
            && plan.b <= plan.e <= |doc.xml| && Edited(doc, next, plan) && DocOk(parser, next)
            && InsertsInto(doc, doc.nodes[i], TrimAscii(fragment), plan)
  {
    hide DocOk, ReplaceRange, Edited, PlanSound, RevivesNothing, SerializeSingleNode, FindNode, TrimAscii;
    var op := Op.Create(fragment, Some(doc.nodes[i].id));
    plan := PlanOf(parser, doc, op).value.value;
    OperationIsSound(parser, doc, op);
    SoundPlanRange(doc, plan);
    FoundAt(parser, doc, i);
    NodeTexts(parser, doc, i);
    SerializedIsWhole(parser, fragment);
    if !doc.nodes[i].selfClosing { HeadAndTail(parser, doc, i); }
  }

  lemma Spliced(doc: Doc, next: Doc, plan: Plan)
    requires plan.b <= plan.e <= |doc.xml| && Edited(doc, next, plan)
    ensures next.xml == doc.xml[..plan.b] + plan.replacement + doc.xml[plan.e..]
  {
  }

  /** The text after `create` under an element. */
  lemma CreatedUnderText(parser: Parser, doc: Doc, fragment: string, i: nat)
    requires DocOk(parser, doc) && i < |doc.nodes|
    requires Applied(parser, doc, Op.Create(fragment, Some(doc.nodes[i].id))).Ok?
    ensures var n, next := doc.nodes[i], Applied(parser, doc, Op.Create(fragment, Some(doc.nodes[i].id))).value;
            && HasRawText(n) && n.rawEnd <= |doc.xml|
            && (n.selfClosing ==> n.rawXml[|n.rawXml| - 2..] == "/>")
            && next.xml == doc.xml[..n.rawBegin] + (Head(n) + TrimAscii(fragment) + Tail(n)) + doc.xml[n.rawEnd..]
  {
    hide DocOk, Applied, Edited, TrimAscii, Head, Tail;
    var n, next := doc.nodes[i], Applied(parser, doc, Op.Create(fragment, Some(doc.nodes[i].id))).value;
    var plan := CreatePlan(parser, doc, fragment, i);
    Spliced(doc, next, plan);
    NodeTexts(parser, doc, i);
    if !n.selfClosing {
      HeadAndTail(parser, doc, i);
      SplitAround(doc.xml, n.rawBegin, n.valueEnd, n.rawEnd, TrimAscii(fragment));
    }
  }

  lemma SplitAround(xml: string, a: nat, b: nat, c: nat, child: string)
    requires a <= b <= c <= |xml|
    ensures xml[..b] + child + xml[b..] == xml[..a] + (xml[a..b] + child + xml[b..c]) + xml[c..]
  {
    assert xml[..b] == xml[..a] + xml[a..b] && xml[b..] == xml[b..c] + xml[c..];
  }

  /** The text after `create` without a parent, `update` and `remove`. */
  lemma OtherTexts(parser: Parser, doc: Doc, op: Op)
    requires DocOk(parser, doc) && Applied(parser, doc, op).Ok?
    ensures var next := Applied(parser, doc, op).value;
            match op
            case Create(fragment, parent) => parent.None? ==> doc.rootId.None? && next.xml == doc.xml + TrimAscii(fragment)
            case Update(id, fragment) =>
              exists n :: n in doc.nodes && n.id == id && n.rawEnd <= |doc.xml|
                          && next.xml == doc.xml[..n.rawBegin] + TrimAscii(fragment) + doc.xml[n.rawEnd..]
            case Remove(id) =>
              if !Has(doc, id) then next == doc
              else exists n :: n in doc.nodes && n.id == id && n.rawEnd <= |doc.xml|
                               && next.xml == doc.xml[..n.rawBegin] + doc.xml[n.rawEnd..]
  {
    hide DocOk, ReplaceRange, Edited, PlanSound, RevivesNothing, SerializeSingleNode, FindNode, TrimAscii;
    OperationIsSound(parser, doc, op);
    var next := Applied(parser, doc, op).value;
    if PlanOf(parser, doc, op).value.Some? {
      var plan := PlanOf(parser, doc, op).value.value;
      SoundPlanRange(doc, plan);
      Spliced(doc, next, plan);
    }
    match op {
    case Create(fragment, parent) =>
      SerializedIsWhole(parser, fragment);
      assert doc.xml[..|doc.xml|] == doc.xml && doc.xml[|doc.xml|..] == [];
    case Update(id, fragment) =>
      var i := FindNode(doc.nodes, id);
      SerializedIsWhole(parser, fragment);
      NodeTexts(parser, doc, i);
      assert doc.nodes[i] in doc.nodes;
      UnchangedText(doc.xml, doc.nodes[i].rawBegin, doc.nodes[i].rawEnd);
    case Remove(id) =>
      var i := FindNode(doc.nodes, id);
      if i < |doc.nodes| {
        assert doc.nodes[i] in doc.nodes;
        NodeTexts(parser, doc, i);
        NothingAround(doc.xml[..doc.nodes[i].rawBegin]);
      }
    }
  }

  lemma UnchangedText(xml: string, a: nat, b: nat)
    requires a <= b <= |xml|
    ensures xml[..a] + xml[a..b] + xml[b..] == xml
  {
  }

  predicate IsBlank(c: char) { c in [' ', '\t', '\n', '\r'] }

  /** Trimming takes away all blanks at both ends and nothing else. */
  lemma {:induction false} TrimmedIs(s: string) returns (b: nat, e: nat)
    ensures b <= e <= |s| && TrimAscii(s) == s[b..e]
    ensures forall k :: 0 <= k < b || e <= k < |s| ==> IsBlank(s[k])
    ensures b < e ==> !IsBlank(s[b]) && !IsBlank(s[e - 1])
    decreases |s|
  {
    b, e := 0, |s|;
    TrimStep(s);
    hide TrimAscii, IsBlank;
    if s != "" && IsBlank(s[0]) {
      b, e := TrimmedIs(s[1..]);
      WithoutFirst(s, b, e);
      b, e := b + 1, e + 1;
    } else if s != "" && IsBlank(s[|s| - 1]) {
      b, e := TrimmedIs(s[..|s| - 1]);
      WithoutLast(s, b, e);
    }
  }

  lemma WithoutFirst(s: string, b: nat, e: nat)
    requires s != "" && b <= e < |s|
    ensures s[1..][b..e] == s[b + 1..e + 1] && forall k :: 0 < k < |s| ==> s[k] == s[1..][k - 1]
  {
  }

  lemma WithoutLast(s: string, b: nat, e: nat)
    requires s != "" && b <= e < |s|
    ensures s[..|s| - 1][b..e] == s[b..e] && forall k :: 0 <= k < |s| - 1 ==> s[k] == s[..|s| - 1][k]
  {
  }

  lemma TrimStep(s: string)
    ensures if s != "" && IsBlank(s[0]) then TrimAscii(s) == TrimAscii(s[1..])
            else if s != "" && IsBlank(s[|s| - 1]) then TrimAscii(s) == TrimAscii(s[..|s| - 1])
            else TrimAscii(s) == s
  {
    if s != "" {
      BlankIsSpace(s[0]);
      BlankIsSpace(s[|s| - 1]);
    }
    hide IsBlank, XmlEditor.IsAsciiSpace;
  }

  lemma BlankIsSpace(c: char)
    ensures IsBlank(c) == XmlEditor.IsAsciiSpace(c)
  {
  }

  // ---------------------------------------------------------------- the place among the other elements

  /** `n` lies between the tags of `k`, or is `k`. */
  predicate Encloses(k: XmlNode, n: XmlNode) { k.rawBegin <= n.rawBegin && n.rawEnd <= k.rawEnd }

  /** Where another element of before is, seen from the created element: around it, if it was around the parent; before
      it, if it ended before the parent's content did; else behind it. */
  ghost predicate StandsRight(k: XmlNode, n: XmlNode, m: XmlNode, created: XmlNode) {
    && m.id == k.id && m.name == k.name
    && (if Encloses(k, n) then m.rawBegin < created.rawBegin && created.rawEnd < m.rawEnd
        else if k.rawEnd <= n.valueEnd then m.rawEnd <= created.rawBegin
        else created.rawEnd <= m.rawBegin)
  }

  /** The parent with its new child: same id and place, and the text with the child behind all former content. An
      element that had an end tag keeps its name, too; that of an opened one is up to the parser. */
  ghost predicate HasGrown(n: XmlNode, child: string, m: XmlNode, created: XmlNode)
    requires HasRawText(n)
  {
    && m.id == n.id && (!n.selfClosing ==> m.name == n.name)
    && m.rawBegin == n.rawBegin && m.rawXml == Head(n) + child + Tail(n)
    && created.rawXml == child
    && created.rawBegin == m.rawBegin + |Head(n)| && created.rawEnd + |Tail(n)| == m.rawEnd
  }

  lemma NodeOfId(parser: Parser, next: Doc, id: nat, begin: nat, end: nat, name: Option<string>) returns (m: XmlNode)
    requires DocOk(parser, next) && NodeAt(next, id, begin, end, name)
    ensures m in next.nodes && m.id == id && m.rawBegin == begin && m.rawEnd == end && (name.Some? ==> m.name == name.value)
    ensures begin < end <= |next.xml| && m.rawXml == next.xml[begin..end]
  {
    hide DocOk;
    m := TheNodeAt(next, id, begin, end, name);
    var j :| 0 <= j < |next.nodes| && next.nodes[j] == m;
    NodeTexts(parser, next, j);
  }

  lemma CreatedNode(parser: Parser, doc: Doc, next: Doc, plan: Plan, n: XmlNode, child: string) returns (created: XmlNode)
    requires DocOk(parser, next) && plan.b <= plan.e <= |doc.xml| && Edited(doc, next, plan)
    requires InsertsInto(doc, n, child, plan)
    ensures created in next.nodes && created.id == doc.nextId
    ensures created.rawBegin == n.rawBegin + |Head(n)| && created.rawEnd == created.rawBegin + |child| <= |next.xml|
    ensures created.rawXml == next.xml[created.rawBegin..created.rawEnd]
  {
    hide DocOk, NodeAt, IsCarried, Survives, Head, Tail;
    var last := plan.bindings[|plan.bindings| - 1];
    created := NodeOfId(parser, next, last.id, last.begin, last.end, None);
  }

  lemma ParentAfter(parser: Parser, doc: Doc, next: Doc, plan: Plan, i: nat, child: string) returns (m: XmlNode)
    requires DocOk(parser, doc) && i < |doc.nodes| && HasItsTags(doc.nodes[i])
    requires DocOk(parser, next) && plan.b <= plan.e <= |doc.xml| && Edited(doc, next, plan)
    requires InsertsInto(doc, doc.nodes[i], child, plan)
    ensures var n := doc.nodes[i];
            && m in next.nodes && m.id == n.id && (!n.selfClosing ==> m.name == n.name)
            && m.rawBegin == n.rawBegin && m.rawEnd == n.rawBegin + |Head(n) + child + Tail(n)| <= |next.xml|
            && m.rawXml == next.xml[m.rawBegin..m.rawEnd]
  {
    hide DocOk, NodeAt, Edited, Head, Tail;
    var n := doc.nodes[i];
    if n.selfClosing {
      IsBound(doc, next, plan, 0);
      m := NodeOfId(parser, next, n.id, n.rawBegin, n.rawBegin + |plan.replacement|, None);
    } else {
      HeadAndTail(parser, doc, i);
      AroundIsCarried(doc, next, plan, n);
      m := NodeOfId(parser, next, n.id, n.rawBegin, n.rawEnd + |child|, Some(n.name));
    }
  }

  lemma IsBound(doc: Doc, next: Doc, plan: Plan, k: nat)
    requires plan.b <= plan.e <= |doc.xml| && Edited(doc, next, plan) && k < |plan.bindings|
    ensures NodeAt(next, plan.bindings[k].id, plan.bindings[k].begin, plan.bindings[k].end, None)
  {
    hide NodeAt, IsCarried, Survives;
  }

  lemma AroundIsCarried(doc: Doc, next: Doc, plan: Plan, n: XmlNode)
    requires plan.b <= plan.e <= |doc.xml| && Edited(doc, next, plan)
    requires n in doc.nodes && n.rawBegin < plan.b && plan.e < n.rawEnd
    ensures NodeAt(next, n.id, n.rawBegin, n.rawEnd - (plan.e - plan.b) + |plan.replacement|, Some(n.name))
  {
    hide NodeAt, Survives;
    assert IsCarried(n, next, plan);
  }

  /** The places of an element of before and of the parent. */
  lemma OtherPlace(parser: Parser, doc: Doc, i: nat, j: nat)
    requires DocOk(parser, doc) && ReportsTags(parser) && i < |doc.nodes| && j < |doc.nodes| && i != j
    ensures var n, k := doc.nodes[i], doc.nodes[j];
            if Encloses(k, n) then k.rawBegin < n.rawBegin && n.rawEnd < k.rawEnd
            else k.rawEnd <= n.rawBegin || n.rawEnd <= k.rawBegin || (n.valueBegin <= k.rawBegin && k.rawEnd <= n.valueEnd)
  {
    hide ParseNodes, IdsOk;
    ParsedIsLaminar(parser, doc.xml, true);
    var parsed := ParseNodes(parser, doc.xml, true).value;
    assert IsRelabeled(doc.nodes[i], parsed[i], IdList(doc.nodes)[i], IdList(doc.nodes));
    assert IsRelabeled(doc.nodes[j], parsed[j], IdList(doc.nodes)[j], IdList(doc.nodes));
    assert i < j ==> Apart(parsed[i], parsed[j]);
    assert j < i ==> Apart(parsed[j], parsed[i]);
  }

  lemma OtherAfter(parser: Parser, doc: Doc, next: Doc, plan: Plan, i: nat, j: nat, child: string, created: XmlNode)
    returns (m: XmlNode)
    requires DocOk(parser, doc) && ReportsTags(parser) && i < |doc.nodes| && j < |doc.nodes| && i != j
    requires HasItsTags(doc.nodes[i])
    requires DocOk(parser, next) && plan.b <= plan.e <= |doc.xml| && Edited(doc, next, plan)
    requires InsertsInto(doc, doc.nodes[i], child, plan)
    requires created.rawBegin == doc.nodes[i].rawBegin + |Head(doc.nodes[i])|
    requires created.rawEnd == created.rawBegin + |child|
    ensures m in next.nodes && StandsRight(doc.nodes[j], doc.nodes[i], m, created)
  {
    hide DocOk, NodeAt, Survives;
    var n, k := doc.nodes[i], doc.nodes[j];
    NodeTexts(parser, doc, i);
    if !n.selfClosing { HeadAndTail(parser, doc, i); }
    OtherPlace(parser, doc, i, j);
    assert IsCarried(k, next, plan);
    var fate := FateOf(Placed(k.id, k.name, k.rawBegin, k.rawEnd), plan.b, plan.e, |plan.replacement|);
    assert fate.Moved?;
    m := NodeOfId(parser, next, k.id, fate.begin, fate.end, Some(k.name));
  }

  /** With tags around all content, `create` under an element puts the new one into it, behind all its former content,
      and leaves every other element on its side. */
  lemma CreatedIsPlaced(parser: Parser, doc: Doc, fragment: string, i: nat) returns (m: XmlNode, created: XmlNode)
    requires DocOk(parser, doc) && ReportsTags(parser) && i < |doc.nodes| && HasItsTags(doc.nodes[i])
    requires Applied(parser, doc, Op.Create(fragment, Some(doc.nodes[i].id))).Ok?
    ensures var n, next := doc.nodes[i], Applied(parser, doc, Op.Create(fragment, Some(doc.nodes[i].id))).value;
            && m in next.nodes && created in next.nodes && created.id == doc.nextId
            && HasRawText(n) && HasGrown(n, TrimAscii(fragment), m, created)
            && forall k :: k in doc.nodes && k.id != n.id ==> exists k' :: k' in next.nodes && StandsRight(k, n, k', created)
  {
    hide DocOk, Applied, Edited, TrimAscii, Head, Tail, StandsRight, InsertsInto;
    var n, child, next := doc.nodes[i], TrimAscii(fragment), Applied(parser, doc, Op.Create(fragment, Some(doc.nodes[i].id))).value;
    var plan := CreatePlan(parser, doc, fragment, i);
    CreatedUnderText(parser, doc, fragment, i);
    created := CreatedNode(parser, doc, next, plan, n, child);
    m := ParentAfter(parser, doc, next, plan, i, child);
    InTheMiddle(doc.xml[..n.rawBegin], Head(n), child, Tail(n), doc.xml[n.rawEnd..]);
    forall k | k in doc.nodes && k.id != n.id ensures exists k' :: k' in next.nodes && StandsRight(k, n, k', created) {
      var j :| 0 <= j < |doc.nodes| && doc.nodes[j] == k;
      var k' := OtherAfter(parser, doc, next, plan, i, j, child, created);
    }
  }

  lemma InTheMiddle(front: string, head: string, child: string, tail: string, back: string)
    ensures var text := front + (head + child + tail) + back;
            && text[|front|..|front| + |head + child + tail|] == head + child + tail
            && text[|front| + |head|..|front| + |head| + |child|] == child
  {
  }
}
