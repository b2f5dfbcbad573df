/** Source-preserving XML trees: what `parseNodes` makes of the markup parser's answer. */
module XmlTree {
  import opened Wrappers
  import opened Identity

  /** The markup parser's tree; positions count from the start of the document body. */
  datatype Tag = Tag(
    name: string,
    rawBegin: nat,
    valueBegin: nat,
    valueEnd: nat,
    rawEnd: nat,
    children: seq<Tag>)

  /** What the prolog scan and the markup parser say about a text: it is rejected, it has no root
      element, or it has exactly one, starting at `bodyBegin`. */
  datatype Outcome = Rejected | NoRoot | Rooted(bodyBegin: nat, root: Tag)

  type Parser = string -> Outcome

  datatype Node = Node(
    id: nat,
    parentId: Option<nat>,
    depth: nat,
    name: string,
    innerXml: string,
    rawXml: string,
    childIds: seq<nat>,
    selfClosing: bool,
    rawBegin: nat,
    valueBegin: nat,
    valueEnd: nat,
    rawEnd: nat)

  /** A node whose ranges validateNodeHierarchy has accepted. */
  type XmlNode = n: Node
    | n.rawBegin <= n.valueBegin <= n.valueEnd <= n.rawEnd && n.rawBegin < n.rawEnd
    witness Node(1, None, 0, "", "", "", [], false, 0, 0, 0, 1)

  // ---------------------------------------------------------------- validateNodeHierarchy

  predicate ValidTag(t: Tag, sourceSize: int)
    decreases t
  {
    && t.rawBegin < t.rawEnd <= sourceSize
    && t.rawBegin <= t.valueBegin <= t.valueEnd <= t.rawEnd
    && ValidChildren(t.children, t.valueBegin, t.valueEnd, sourceSize)
  }

  /** Siblings lie in the parent's value range, one after the other. */
  predicate ValidChildren(ts: seq<Tag>, previousEnd: nat, valueEnd: nat, sourceSize: int)
    decreases ts
  {
    ts == []
    || (&& previousEnd <= ts[0].rawBegin && ts[0].rawEnd <= valueEnd
        && ValidTag(ts[0], sourceSize)
        && ValidChildren(ts[1..], ts[0].rawEnd, valueEnd, sourceSize))
  }

  /** The tags around content are not empty: an element with children has an opening and a closing tag. */
  predicate HasTags(t: Tag)
    decreases t
  {
    && (t.children != [] ==> t.rawBegin < t.valueBegin && t.valueEnd < t.rawEnd)
    && forall c :: c in t.children ==> HasTags(c)
  }

  // ---------------------------------------------------------------- appendNode

  /** The number of nodes of a tree. */
  function Size(t: Tag): (n: nat)
    ensures n >= 1
    decreases t
  {
    1 + SizeAll(t.children)
  }

  function SizeAll(ts: seq<Tag>): nat
    decreases ts
  {
    if ts == [] then 0 else Size(ts[0]) + SizeAll(ts[1..])
  }

  /** The ids that consecutive siblings get when `base` nodes exist already. */
  function ChildIds(ts: seq<Tag>, base: nat): seq<nat>
    decreases ts
  {
    if ts == [] then [] else [base + 1] + ChildIds(ts[1..], base + Size(ts[0]))
  }

  /** The node of the tag itself. */
  function NodeOf(xml: string, bodyBegin: nat, t: Tag, parent: Option<nat>, depth: nat, base: nat): XmlNode
    requires ValidTag(t, |xml| - bodyBegin)
  {
    var rawBegin, valueBegin := bodyBegin + t.rawBegin, bodyBegin + t.valueBegin;
    var valueEnd, rawEnd := bodyBegin + t.valueEnd, bodyBegin + t.rawEnd;
    Node(base + 1, parent, depth, t.name, xml[valueBegin..valueEnd], xml[rawBegin..rawEnd],
         ChildIds(t.children, base + 1), t.valueBegin == t.rawEnd && t.valueEnd == t.rawEnd,
         rawBegin, valueBegin, valueEnd, rawEnd)
  }

  /** The nodes of a tree in preorder, numbered from base + 1. */
  function Flatten(xml: string, bodyBegin: nat, t: Tag, parent: Option<nat>, depth: nat, base: nat): (ns: seq<XmlNode>)
    requires ValidTag(t, |xml| - bodyBegin)
    ensures |ns| == Size(t) && ns[0] == NodeOf(xml, bodyBegin, t, parent, depth, base)
    decreases t
  {
    [NodeOf(xml, bodyBegin, t, parent, depth, base)]
    + FlattenAll(xml, bodyBegin, t.children, Some(base + 1), depth + 1, base + 1, t.valueBegin, t.valueEnd)
  }

  function FlattenAll(
    xml: string, bodyBegin: nat, ts: seq<Tag>, parent: Option<nat>, depth: nat, base: nat,
    ghost previousEnd: nat, ghost valueEnd: nat)
    : (ns: seq<XmlNode>)
    requires ValidChildren(ts, previousEnd, valueEnd, |xml| - bodyBegin)
    ensures |ns| == SizeAll(ts)
    decreases ts
  {
    if ts == [] then []
    else
      Flatten(xml, bodyBegin, ts[0], parent, depth, base)
      + FlattenAll(xml, bodyBegin, ts[1..], parent, depth, base + Size(ts[0]), ts[0].rawEnd, valueEnd)
  }

  /** appendNode: one node, then its children, all pushed to the same vector. */
  method AppendNode(
    xml: string, bodyBegin: nat, t: Tag, parent: Option<nat>, depth: nat, nodes: seq<XmlNode>)
    returns (out: seq<XmlNode>)
    requires ValidTag(t, |xml| - bodyBegin)
    ensures out == nodes + Flatten(xml, bodyBegin, t, parent, depth, |nodes|)
    decreases t
  {
    hide ChildIds;
    var index := |nodes|;
    var node := NodeOf(xml, bodyBegin, t, parent, depth, index);
    out := nodes + [node.(childIds := [])];
    var childIds;
    out, childIds := AppendChildren(xml, bodyBegin, t.children, index + 1, depth + 1, out, t.valueBegin, t.valueEnd);
    out := out[index := out[index].(childIds := childIds)];
  }

  /** The loop of appendNode over the children, and the child ids it collects. */
  method AppendChildren(
    xml: string, bodyBegin: nat, ts: seq<Tag>, parentId: nat, depth: nat, nodes: seq<XmlNode>,
    ghost begin: nat, ghost valueEnd: nat)
    returns (out: seq<XmlNode>, childIds: seq<nat>)
    requires ValidChildren(ts, begin, valueEnd, |xml| - bodyBegin)
    ensures out == nodes + FlattenAll(xml, bodyBegin, ts, Some(parentId), depth, |nodes|, begin, valueEnd)
    ensures childIds == ChildIds(ts, |nodes|)
    decreases ts
  {
    hide Flatten, ValidTag, ValidChildren, Size, ChildIds, FlattenAll;
    NoMoreChildren(xml, bodyBegin, ts, Some(parentId), depth, |nodes|, begin, valueEnd);
    assert ts[0..] == ts;
    NothingAround(ChildIds(ts, |nodes|));
    out, childIds := nodes, [];
    ghost var previousEnd := begin;
    for k := 0 to |ts|
      invariant ValidChildren(ts[k..], previousEnd, valueEnd, |xml| - bodyBegin)
      invariant childIds + ChildIds(ts[k..], |out|) == ChildIds(ts, |nodes|)
      invariant out + FlattenAll(xml, bodyBegin, ts[k..], Some(parentId), depth, |out|, previousEnd, valueEnd)
             == nodes + FlattenAll(xml, bodyBegin, ts, Some(parentId), depth, |nodes|, begin, valueEnd)
    {
      OneMoreChild(xml, bodyBegin, ts, k, Some(parentId), depth, out, childIds, previousEnd, valueEnd);
      childIds := childIds + [|out| + 1];
      out := AppendNode(xml, bodyBegin, ts[k], Some(parentId), depth, out);
      previousEnd := ts[k].rawEnd;
    }
    NoMoreChildren(xml, bodyBegin, ts, Some(parentId), depth, |out|, previousEnd, valueEnd);
    NothingAround(out);
    NothingAround(childIds);
  }

  /** What one child contributes, and what is left after it. */
  lemma OneMoreChild(
    xml: string, bodyBegin: nat, ts: seq<Tag>, k: nat, parent: Option<nat>, depth: nat, out: seq<XmlNode>,
    childIds: seq<nat>, previousEnd: nat, valueEnd: nat)
    requires k < |ts| && ValidChildren(ts[k..], previousEnd, valueEnd, |xml| - bodyBegin)
    ensures ValidTag(ts[k], |xml| - bodyBegin) && ValidChildren(ts[k + 1..], ts[k].rawEnd, valueEnd, |xml| - bodyBegin)
    ensures var next := out + Flatten(xml, bodyBegin, ts[k], parent, depth, |out|);
            && out + FlattenAll(xml, bodyBegin, ts[k..], parent, depth, |out|, previousEnd, valueEnd)
               == next + FlattenAll(xml, bodyBegin, ts[k + 1..], parent, depth, |next|, ts[k].rawEnd, valueEnd)
            && childIds + ChildIds(ts[k..], |out|) == (childIds + [|out| + 1]) + ChildIds(ts[k + 1..], |next|)
  {
    hide Flatten, ValidTag, Size;
    assert ts[k..][0] == ts[k] && ts[k..][1..] == ts[k + 1..];
    var first := Flatten(xml, bodyBegin, ts[k], parent, depth, |out|);
    Regrouped(out, first, FlattenAll(xml, bodyBegin, ts[k + 1..], parent, depth, |out + first|, ts[k].rawEnd, valueEnd));
    Regrouped(childIds, [|out| + 1], ChildIds(ts[k + 1..], |out| + Size(ts[k])));
  }

  lemma NoMoreChildren(
    xml: string, bodyBegin: nat, ts: seq<Tag>, parent: Option<nat>, depth: nat, base: nat, previousEnd: nat, valueEnd: nat)
    ensures ValidChildren(ts[|ts|..], previousEnd, valueEnd, |xml| - bodyBegin) ==>
              FlattenAll(xml, bodyBegin, ts[|ts|..], parent, depth, base, previousEnd, valueEnd) == []
    ensures ChildIds(ts[|ts|..], base) == []
  {
  }

  /** parseNodes. */
  function ParseNodes(parser: Parser, xml: string, allowEmpty: bool): Result<seq<XmlNode>, EditError> {
    match parser(xml)
    case Rejected => Err(ParseFailed)
    case NoRoot => if allowEmpty then Ok([]) else Err(ParseFailed)
    case Rooted(bodyBegin, root) =>
      if root.rawBegin != 0 || !ValidTag(root, |xml| - bodyBegin) then Err(ParseFailed)
      else Ok(Flatten(xml, bodyBegin, root, None, 0, 0))
  }

  // ---------------------------------------------------------------- what holds of parsed nodes

  /** Ids count up; every link stays inside the list and is mutual. */
  ghost predicate Linked(ns: seq<XmlNode>, parent: Option<nat>, base: nat) {
    && (forall i :: 0 <= i < |ns| ==> ns[i].id == base + 1 + i)
    && (forall i :: 0 <= i < |ns| ==> ParentRight(ns, i, parent, base))
    && (forall i, c :: 0 <= i < |ns| && c in ns[i].childIds ==> ChildRight(ns, i, c, base))
  }

  /** Node `i` is a root of the list, or its parent is an earlier node that lists it. */
  ghost predicate ParentRight(ns: seq<XmlNode>, i: nat, parent: Option<nat>, base: nat)
    requires i < |ns|
  {
    ns[i].parentId == parent
    || (&& ns[i].parentId.Some? && base < ns[i].parentId.value <= base + i
        && ns[i].id in ns[ns[i].parentId.value - base - 1].childIds)
  }

  /** Child `c` of node `i` is a later node that names it as its parent. */
  ghost predicate ChildRight(ns: seq<XmlNode>, i: nat, c: nat, base: nat)
    requires i < |ns|
  {
    base + i + 1 < c <= base + |ns| && ns[c - base - 1].parentId == Some(ns[i].id)
  }

  /** Of two nodes the later one starts after the earlier one, or lies in its content, between its tags. */
  ghost predicate Apart(a: XmlNode, b: XmlNode) {
    || a.rawEnd <= b.rawBegin
    || (a.rawBegin < a.valueBegin <= b.rawBegin && b.rawEnd <= a.valueEnd < a.rawEnd)
  }

  ghost predicate Laminar(ns: seq<XmlNode>) {
    forall i, j :: 0 <= i < j < |ns| ==> Apart(ns[i], ns[j])
  }

  /** Every node's texts are its slices of the source, and a self-closing one is all tag. */
  ghost predicate SlicesOf(ns: seq<XmlNode>, xml: string) {
    forall i :: 0 <= i < |ns| ==>
      && ns[i].rawEnd <= |xml|
      && ns[i].rawXml == xml[ns[i].rawBegin..ns[i].rawEnd]
      && ns[i].innerXml == xml[ns[i].valueBegin..ns[i].valueEnd]
      && (ns[i].selfClosing <==> ns[i].valueBegin == ns[i].rawEnd)
  }

  ghost predicate Within(ns: seq<XmlNode>, begin: nat, end: nat) {
    forall i :: 0 <= i < |ns| ==> begin <= ns[i].rawBegin && ns[i].rawEnd <= end
  }

  lemma {:induction false} FlattenSlices(xml: string, bodyBegin: nat, t: Tag, parent: Option<nat>, depth: nat, base: nat)
    requires ValidTag(t, |xml| - bodyBegin)
    ensures SlicesOf(Flatten(xml, bodyBegin, t, parent, depth, base), xml)
    ensures Within(Flatten(xml, bodyBegin, t, parent, depth, base), bodyBegin + t.rawBegin, bodyBegin + t.rawEnd)
    decreases t
  {
    var node := NodeOf(xml, bodyBegin, t, parent, depth, base);
    var rest := FlattenAll(xml, bodyBegin, t.children, Some(base + 1), depth + 1, base + 1, t.valueBegin, t.valueEnd);
    FlattenAllSlices(xml, bodyBegin, t.children, Some(base + 1), depth + 1, base + 1, t.valueBegin, t.valueEnd);
    SlicesJoin([node], rest, xml, bodyBegin + t.rawBegin, bodyBegin + t.rawEnd);
  }

  lemma SlicesJoin(a: seq<XmlNode>, b: seq<XmlNode>, xml: string, begin: nat, end: nat)
    requires SlicesOf(a, xml) && SlicesOf(b, xml) && Within(a, begin, end) && Within(b, begin, end)
    ensures SlicesOf(a + b, xml) && Within(a + b, begin, end)
  {
  }

  lemma {:induction false} FlattenAllSlices(
    xml: string, bodyBegin: nat, ts: seq<Tag>, parent: Option<nat>, depth: nat, base: nat, previousEnd: nat, valueEnd: nat)
    requires ValidChildren(ts, previousEnd, valueEnd, |xml| - bodyBegin)
    ensures SlicesOf(FlattenAll(xml, bodyBegin, ts, parent, depth, base, previousEnd, valueEnd), xml)
    ensures Within(FlattenAll(xml, bodyBegin, ts, parent, depth, base, previousEnd, valueEnd),
                   bodyBegin + previousEnd, bodyBegin + valueEnd)
    decreases ts
  {
    if ts != [] {
      FlattenSlices(xml, bodyBegin, ts[0], parent, depth, base);
      FlattenAllSlices(xml, bodyBegin, ts[1..], parent, depth, base + Size(ts[0]), ts[0].rawEnd, valueEnd);
      SlicesJoin(Flatten(xml, bodyBegin, ts[0], parent, depth, base),
                 FlattenAll(xml, bodyBegin, ts[1..], parent, depth, base + Size(ts[0]), ts[0].rawEnd, valueEnd),
                 xml, bodyBegin + previousEnd, bodyBegin + valueEnd);
    }
  }

  lemma {:induction false} FlattenLaminar(xml: string, bodyBegin: nat, t: Tag, parent: Option<nat>, depth: nat, base: nat)
    requires ValidTag(t, |xml| - bodyBegin) && HasTags(t)
    ensures Laminar(Flatten(xml, bodyBegin, t, parent, depth, base))
    decreases t
  {
    FlattenAllSlices(xml, bodyBegin, t.children, Some(base + 1), depth + 1, base + 1, t.valueBegin, t.valueEnd);
    FlattenAllLaminar(xml, bodyBegin, t.children, Some(base + 1), depth + 1, base + 1, t.valueBegin, t.valueEnd);
    var ns := Flatten(xml, bodyBegin, t, parent, depth, base);
    var rest := FlattenAll(xml, bodyBegin, t.children, Some(base + 1), depth + 1, base + 1, t.valueBegin, t.valueEnd);
    assert ns[1..] == rest;
    forall i, j | 0 <= i < j < |ns| ensures Apart(ns[i], ns[j]) {
      assert ns[j] == rest[j - 1];
      if i > 0 { assert ns[i] == rest[i - 1]; }
    }
  }

  lemma {:induction false} FlattenAllLaminar(
    xml: string, bodyBegin: nat, ts: seq<Tag>, parent: Option<nat>, depth: nat, base: nat, previousEnd: nat, valueEnd: nat)
    requires ValidChildren(ts, previousEnd, valueEnd, |xml| - bodyBegin) && forall t :: t in ts ==> HasTags(t)
    ensures Laminar(FlattenAll(xml, bodyBegin, ts, parent, depth, base, previousEnd, valueEnd))
    decreases ts
  {
    if ts != [] {
      var first := Flatten(xml, bodyBegin, ts[0], parent, depth, base);
      var rest := FlattenAll(xml, bodyBegin, ts[1..], parent, depth, base + Size(ts[0]), ts[0].rawEnd, valueEnd);
      FlattenLaminar(xml, bodyBegin, ts[0], parent, depth, base);
      FlattenSlices(xml, bodyBegin, ts[0], parent, depth, base);
      FlattenAllLaminar(xml, bodyBegin, ts[1..], parent, depth, base + Size(ts[0]), ts[0].rawEnd, valueEnd);
      FlattenAllSlices(xml, bodyBegin, ts[1..], parent, depth, base + Size(ts[0]), ts[0].rawEnd, valueEnd);
      LaminarConcat(first, rest, bodyBegin + ts[0].rawEnd);
    }
  }

  lemma LaminarConcat(a: seq<XmlNode>, b: seq<XmlNode>, at: nat)
    requires Laminar(a) && Laminar(b)
    requires forall i :: 0 <= i < |a| ==> a[i].rawEnd <= at
    requires forall i :: 0 <= i < |b| ==> at <= b[i].rawBegin
    ensures Laminar(a + b)
  {
  }

  // ---------------------------------------------------------------- links

  /** The roots of a forest are exactly the nodes with the listed ids. */
  ghost predicate RootsListed(ns: seq<XmlNode>, rootIds: seq<nat>, parent: Option<nat>, base: nat) {
    && (forall c :: c in rootIds ==> IsRoot(ns, c, parent, base))
    && (forall i :: 0 <= i < |ns| && ns[i].parentId == parent ==> ns[i].id in rootIds)
  }

  /** The node with id `c` hangs directly under `parent`. */
  ghost predicate IsRoot(ns: seq<XmlNode>, c: nat, parent: Option<nat>, base: nat) {
    base < c <= base + |ns| && ns[c - base - 1].parentId == parent
  }

  lemma {:induction false} FlattenLinked(
    xml: string, bodyBegin: nat, t: Tag, parent: Option<nat>, depth: nat, base: nat)
    requires ValidTag(t, |xml| - bodyBegin) && (parent.Some? ==> parent.value <= base)
    ensures var ns := Flatten(xml, bodyBegin, t, parent, depth, base);
            Linked(ns, parent, base) && RootsListed(ns, [base + 1], parent, base)
    decreases t
  {
    hide FlattenAll, NodeOf, Linked, RootsListed;
    var rest := FlattenAll(xml, bodyBegin, t.children, Some(base + 1), depth + 1, base + 1, t.valueBegin, t.valueEnd);
    FlattenAllLinked(xml, bodyBegin, t.children, Some(base + 1), depth + 1, base + 1, t.valueBegin, t.valueEnd);
    NodeLinks(xml, bodyBegin, t, parent, depth, base);
    var root := NodeOf(xml, bodyBegin, t, parent, depth, base);
    ConsLinked(root, rest, parent, base);
  }

  lemma NodeLinks(xml: string, bodyBegin: nat, t: Tag, parent: Option<nat>, depth: nat, base: nat)
    requires ValidTag(t, |xml| - bodyBegin)
    ensures var n := NodeOf(xml, bodyBegin, t, parent, depth, base);
            n.id == base + 1 && n.parentId == parent && n.childIds == ChildIds(t.children, base + 1)
  {
  }

  lemma ConsLinked(root: XmlNode, rest: seq<XmlNode>, parent: Option<nat>, base: nat)
    requires root.id == base + 1 && root.parentId == parent && (parent.Some? ==> parent.value <= base)
    requires Linked(rest, Some(base + 1), base + 1) && RootsListed(rest, root.childIds, Some(base + 1), base + 1)
    ensures Linked([root] + rest, parent, base) && RootsListed([root] + rest, [base + 1], parent, base)
  {
    hide ParentRight, ChildRight, Linked;
    ConsParents(root, rest, parent, base);
    ConsChildren(root, rest, base);
    LinkedParts([root] + rest, parent, base);
  }

  lemma LinkedParts(ns: seq<XmlNode>, parent: Option<nat>, base: nat)
    requires forall i :: 0 <= i < |ns| ==> ns[i].id == base + 1 + i
    requires forall i :: 0 <= i < |ns| ==> ParentRight(ns, i, parent, base)
    requires forall i, c :: 0 <= i < |ns| && c in ns[i].childIds ==> ChildRight(ns, i, c, base)
    ensures Linked(ns, parent, base)
  {
    hide ParentRight, ChildRight;
  }

  lemma ConsParents(root: XmlNode, rest: seq<XmlNode>, parent: Option<nat>, base: nat)
    requires root.id == base + 1 && root.parentId == parent && (parent.Some? ==> parent.value <= base)
    requires Linked(rest, Some(base + 1), base + 1) && RootsListed(rest, root.childIds, Some(base + 1), base + 1)
    ensures var ns := [root] + rest;
            forall i :: 0 <= i < |ns| ==>
              ns[i].id == base + 1 + i && ParentRight(ns, i, parent, base) && (i > 0 ==> ns[i].parentId != parent)
  {
    hide ParentRight, ChildRight, IsRoot;
    var ns := [root] + rest;
    forall i | 0 <= i < |ns|
      ensures ns[i].id == base + 1 + i && ParentRight(ns, i, parent, base) && (i > 0 ==> ns[i].parentId != parent)
    {
      if i == 0 { FirstParentRight(ns, parent, base); } else { ConsParentRight(root, rest, i - 1, parent, base); }
    }
  }

  lemma ConsChildren(root: XmlNode, rest: seq<XmlNode>, base: nat)
    requires root.id == base + 1
    requires Linked(rest, Some(base + 1), base + 1) && RootsListed(rest, root.childIds, Some(base + 1), base + 1)
    ensures var ns := [root] + rest;
            forall i, c :: 0 <= i < |ns| && c in ns[i].childIds ==> ChildRight(ns, i, c, base)
  {
    hide ParentRight, ChildRight, IsRoot;
    var ns := [root] + rest;
    forall i, c | 0 <= i < |ns| && c in ns[i].childIds ensures ChildRight(ns, i, c, base) {
      if i == 0 { RootChildRight(root, rest, c, base); } else { ChildRightShifted([root], rest, i - 1, c, base); }
    }
  }

  lemma FirstParentRight(ns: seq<XmlNode>, parent: Option<nat>, base: nat)
    requires ns != [] && ns[0].parentId == parent
    ensures ParentRight(ns, 0, parent, base)
  {
  }

  lemma ConsParentRight(root: XmlNode, rest: seq<XmlNode>, i: nat, parent: Option<nat>, base: nat)
    requires root.id == base + 1 && i < |rest| && (parent.Some? ==> parent.value <= base)
    requires ParentRight(rest, i, Some(base + 1), base + 1)
    requires rest[i].parentId == Some(base + 1) ==> rest[i].id in root.childIds
    ensures ParentRight([root] + rest, i + 1, parent, base) && rest[i].parentId != parent
  {
    var ns := [root] + rest;
    assert ns[0] == root && ns[i + 1] == rest[i];
    if rest[i].parentId != Some(base + 1) {
      var k := rest[i].parentId.value - base - 2;
      assert ns[k + 1] == rest[k];
    }
  }

  lemma RootChildRight(root: XmlNode, rest: seq<XmlNode>, c: nat, base: nat)
    requires root.id == base + 1 && IsRoot(rest, c, Some(base + 1), base + 1)
    ensures ChildRight([root] + rest, 0, c, base)
  {
    assert ([root] + rest)[c - base - 1] == rest[c - base - 2];
  }

  lemma ChildRightShifted(a: seq<XmlNode>, b: seq<XmlNode>, i: nat, c: nat, base: nat)
    requires i < |b| && ChildRight(b, i, c, base + |a|)
    ensures ChildRight(a + b, |a| + i, c, base)
  {
  }

  lemma ChildRightStays(a: seq<XmlNode>, b: seq<XmlNode>, i: nat, c: nat, base: nat)
    requires i < |a| && ChildRight(a, i, c, base)
    ensures ChildRight(a + b, i, c, base)
  {
  }

  lemma ParentRightShifted(a: seq<XmlNode>, b: seq<XmlNode>, i: nat, parent: Option<nat>, base: nat)
    requires i < |b| && ParentRight(b, i, parent, base + |a|)
    ensures ParentRight(a + b, |a| + i, parent, base)
  {
  }

  lemma ParentRightStays(a: seq<XmlNode>, b: seq<XmlNode>, i: nat, parent: Option<nat>, base: nat)
    requires i < |a| && ParentRight(a, i, parent, base)
    ensures ParentRight(a + b, i, parent, base)
  {
  }

  lemma {:induction false} FlattenAllLinked(
    xml: string, bodyBegin: nat, ts: seq<Tag>, parent: Option<nat>, depth: nat, base: nat, previousEnd: nat, valueEnd: nat)
    requires ValidChildren(ts, previousEnd, valueEnd, |xml| - bodyBegin) && (parent.Some? ==> parent.value <= base)
    ensures var ns := FlattenAll(xml, bodyBegin, ts, parent, depth, base, previousEnd, valueEnd);
            Linked(ns, parent, base) && RootsListed(ns, ChildIds(ts, base), parent, base)
    decreases ts
  {
    hide Flatten, ValidTag, IsRoot;
    if ts != [] {
      hide Linked, RootsListed;
      var first := Flatten(xml, bodyBegin, ts[0], parent, depth, base);
      var rest := FlattenAll(xml, bodyBegin, ts[1..], parent, depth, base + Size(ts[0]), ts[0].rawEnd, valueEnd);
      FlattenLinked(xml, bodyBegin, ts[0], parent, depth, base);
      FlattenAllLinked(xml, bodyBegin, ts[1..], parent, depth, base + Size(ts[0]), ts[0].rawEnd, valueEnd);
      ConcatLinked(first, rest, [base + 1], ChildIds(ts[1..], base + Size(ts[0])), parent, base);
    }
  }

  lemma ConcatLinked(
    a: seq<XmlNode>, b: seq<XmlNode>, aRoots: seq<nat>, bRoots: seq<nat>, parent: Option<nat>, base: nat)
    requires Linked(a, parent, base) && RootsListed(a, aRoots, parent, base)
    requires Linked(b, parent, base + |a|) && RootsListed(b, bRoots, parent, base + |a|)
    ensures Linked(a + b, parent, base) && RootsListed(a + b, aRoots + bRoots, parent, base)
  {
    hide ParentRight, ChildRight, RootsListed;
    var ns := a + b;
    forall i | 0 <= i < |ns| ensures ns[i].id == base + 1 + i && ParentRight(ns, i, parent, base) {
      if i < |a| {
        assert ns[i] == a[i];
        ParentRightStays(a, b, i, parent, base);
      } else {
        assert ns[i] == b[i - |a|];
        ParentRightShifted(a, b, i - |a|, parent, base);
      }
    }
    forall i, c | 0 <= i < |ns| && c in ns[i].childIds ensures ChildRight(ns, i, c, base) {
      if i < |a| {
        assert ns[i] == a[i];
        ChildRightStays(a, b, i, c, base);
      } else {
        assert ns[i] == b[i - |a|];
        ChildRightShifted(a, b, i - |a|, c, base);
      }
    }
    ConcatRootIds(a, b, aRoots, bRoots, parent, base);
    ConcatRootNodes(a, b, aRoots, bRoots, parent, base);
  }

  lemma ConcatRootIds(
    a: seq<XmlNode>, b: seq<XmlNode>, aRoots: seq<nat>, bRoots: seq<nat>, parent: Option<nat>, base: nat)
    requires RootsListed(a, aRoots, parent, base) && RootsListed(b, bRoots, parent, base + |a|)
    ensures forall c :: c in aRoots + bRoots ==> IsRoot(a + b, c, parent, base)
  {
    forall c | c in aRoots + bRoots ensures IsRoot(a + b, c, parent, base) {
      if c in aRoots {
        assert IsRoot(a, c, parent, base);
        assert (a + b)[c - base - 1] == a[c - base - 1];
      } else {
        assert IsRoot(b, c, parent, base + |a|);
        assert (a + b)[c - base - 1] == b[c - base - |a| - 1];
      }
    }
  }

  lemma ConcatRootNodes(
    a: seq<XmlNode>, b: seq<XmlNode>, aRoots: seq<nat>, bRoots: seq<nat>, parent: Option<nat>, base: nat)
    requires RootsListed(a, aRoots, parent, base) && RootsListed(b, bRoots, parent, base + |a|)
    requires forall c :: c in aRoots + bRoots ==> IsRoot(a + b, c, parent, base)
    ensures RootsListed(a + b, aRoots + bRoots, parent, base)
  {
    hide IsRoot;
    forall i | 0 <= i < |a + b| && (a + b)[i].parentId == parent ensures (a + b)[i].id in aRoots + bRoots {
      if i < |a| { assert a[i].id in aRoots; } else { assert b[i - |a|].id in bRoots; }
    }
  }
}
