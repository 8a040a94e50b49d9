/**
 * The parent `Process` of Documentor/Program.cs leaves behind when exactly
 * one of its original children is a placeholder to resolve: no attributes,
 * then the elements before the placeholder, the referenced member's
 * elements and the elements after the placeholder, each original child
 * resolved in turn and every non-element child dropped.
 */
module SingleSplice {
  import opened Wrappers
  import opened XmlTree
  import opened Correspondence
  import opened Duplicates
  import opened Resolver
  import opened ResolverProperties

  /** `ResolveElement` applied to each node of a list. */
  ghost function ResolveAll(ns: seq<Node>, index: map<string, Node>): (r: seq<Node>)
    ensures |r| == |ns| && forall k :: 0 <= k < |ns| ==> r[k] == ResolveElement(ns[k], index)
  {
    seq(|ns|, k requires 0 <= k < |ns| => ResolveElement(ns[k], index))
  }

  /** No element of the list corresponds to a later element, so duplicate
      removal has nothing to remove. */
  ghost predicate NoCorrespondingPair(ns: seq<Node>)
  {
    forall a, b :: 0 <= a < b < |ns| && ns[a].Element? && ns[b].Element? ==> !Corresponds(ns[a], ns[b])
  }

  lemma NoPairNoDedup(s: seq<Slot>)
    requires NoCorrespondingPair(Nodes(s))
    ensures Dedup(s) == s
  {
    forall i | 0 <= i < |s| ensures !Dominated(s, i) {
      forall j | i < j < |s| && s[i].node.Element? && s[j].node.Element?
        ensures !Corresponds(s[i].node, s[j].node)
      {
        assert Nodes(s)[i] == s[i].node && Nodes(s)[j] == s[j].node;
      }
    }
    DedupUnchangedIff(s);
  }

  /** Where the elements stand depends only on which nodes are elements. */
  lemma {:induction false} ElementPositionsSameKinds(a: seq<Node>, b: seq<Node>)
    requires |a| == |b| && forall k :: 0 <= k < |a| ==> a[k].Element? == b[k].Element?
    ensures ElementPositions(a) == ElementPositions(b)
  {
    if |a| > 0 {
      ElementPositionsSameKinds(a[1..], b[1..]);
    }
  }

  /** Resolving keeps elements elements and leaves every other node alone, so
      the elements of the resolved list are the resolved elements. */
  lemma ElementsResolveAll(ns: seq<Node>, index: map<string, Node>)
    ensures Elements(ResolveAll(ns, index)) == ResolveAll(Elements(ns), index)
  {
    var rs := ResolveAll(ns, index);
    ElementPositionsSameKinds(rs, ns);
    ElementPositionsAligned(rs);
    ElementPositionsAligned(ns);
  }

  /** The new children of a splice, as nodes: the elements before the
      placeholder, the member's element children, the elements after it. */
  lemma SpliceChildrenNodes(slots: seq<Slot>, p: nat, reference: Node)
    requires p < |slots| && reference.Element?
    ensures Nodes(SpliceChildren(slots, p, reference)) ==
      Elements(Nodes(slots[..p])) + Elements(reference.kids) + Elements(Nodes(slots[p + 1..]))
  {
    var xs, cs, ys := ElementSlots(slots[..p]), CopiedSlots(reference), ElementSlots(slots[p + 1..]);
    var before := ElementSlotsSelects(slots[..p]);
    var after := ElementSlotsSelects(slots[p + 1..]);
    NodesConcat(xs, cs);
    NodesConcat(xs + cs, ys);
  }

  /** A child once the walk has resolved, in place, the original children
      strictly between `p` and `i`. */
  ghost function Refresh(x: Slot, e: Node, index: map<string, Node>, p: nat, i: nat): Slot
    requires e.Element? && i <= |e.kids|
  {
    if x.origin.Original? && p < x.origin.index < i then Slot(ResolveElement(e.kids[x.origin.index], index), x.origin)
    else x
  }

  ghost function Refreshed(slots: seq<Slot>, e: Node, index: map<string, Node>, p: nat, i: nat): (r: seq<Slot>)
    requires e.Element? && i <= |e.kids|
    ensures |r| == |slots| && forall t :: 0 <= t < |slots| ==> r[t] == Refresh(slots[t], e, index, p, i)
  {
    seq(|slots|, t requires 0 <= t < |slots| => Refresh(slots[t], e, index, p, i))
  }

  /** The children right after the splice at original child `p`: elements
      only, originals in order, and each original after `p` still the
      original child. */
  ghost predicate AfterSplice(e: Node, p: nat, s: seq<Slot>)
    requires e.Element?
  {
    OriginsIncreasing(s) &&
    forall t :: 0 <= t < |s| ==>
      s[t].node.Element? &&
      (s[t].origin.Original? && p < s[t].origin.index ==>
        s[t].origin.index < |e.kids| && s[t].node == e.kids[s[t].origin.index])
  }

  /** Original child `i - 1` is no longer among the children: resolving it
      changes nothing. */
  lemma RefreshDetached(s0: seq<Slot>, e: Node, index: map<string, Node>, p: nat, i: nat)
    requires e.Element? && 0 < i <= |e.kids|
    requires Original(i - 1) !in OriginsOf(Refreshed(s0, e, index, p, i - 1))
    ensures Refreshed(s0, e, index, p, i) == Refreshed(s0, e, index, p, i - 1)
  {
    var T, T' := Refreshed(s0, e, index, p, i - 1), Refreshed(s0, e, index, p, i);
    forall t | 0 <= t < |s0| ensures T'[t] == T[t] {
      assert T[t] in T;
    }
  }

  /** Original child `i - 1`, after `p`, stands at `q`: resolving it replaces
      that child and no other. */
  lemma RefreshAttached(s0: seq<Slot>, e: Node, index: map<string, Node>, p: nat, i: nat, q: nat)
    requires e.Element? && p + 1 < i <= |e.kids| && AfterSplice(e, p, s0)
    requires q < |s0| && s0[q].origin == Original(i - 1)
    ensures s0[q].node == e.kids[i - 1]
    ensures Refreshed(s0, e, index, p, i) ==
      Refreshed(s0, e, index, p, i - 1)[q := Slot(ResolveElement(e.kids[i - 1], index), Original(i - 1))]
  {
    var T, T' := Refreshed(s0, e, index, p, i - 1), Refreshed(s0, e, index, p, i);
    forall t | 0 <= t < |s0| && t != q ensures T'[t] == T[t] {
      if t < q {
        assert s0[t].origin != Original(i - 1);
      } else {
        assert s0[t].origin != Original(i - 1);
      }
    }
  }

  /** What holds after the walk's step at the placeholder `p`: the spliced
      children are `s0`, and no later original child is a placeholder to
      resolve. */
  ghost predicate SplicedAt(e: Node, index: map<string, Node>, p: nat, s0: seq<Slot>)
  {
    e.Element? && p < |e.kids| && AfterSplice(e, p, s0) &&
    (forall k :: p < k < |e.kids| ==> ReferenceOf(e.kids[k], index).None?) &&
    PassAfter(e, index, p + 1) == Pass([], s0)
  }

  /** After the splice, the walk's step at original child `i - 1` resolves
      that child where it now stands, if it is still attached. */
  lemma RefreshStep(e: Node, index: map<string, Node>, p: nat, i: nat, s0: seq<Slot>)
    requires SplicedAt(e, index, p, s0) && p + 1 < i <= |e.kids|
    requires PassAfter(e, index, i - 1) == Pass([], Refreshed(s0, e, index, p, i - 1))
    ensures PassAfter(e, index, i) == Pass([], Refreshed(s0, e, index, p, i))
  {
    assert ReferenceOf(e.kids[i - 1], index).None?;
    var T := Refreshed(s0, e, index, p, i - 1);
    match Locate(T, i - 1)
    case None =>
      RefreshDetached(s0, e, index, p, i);
    case Some(q) =>
      RefreshAttached(s0, e, index, p, i, q);
  }

  lemma RefreshedAtStart(s0: seq<Slot>, e: Node, index: map<string, Node>, p: nat)
    requires e.Element? && p < |e.kids|
    ensures Refreshed(s0, e, index, p, p + 1) == s0
  {
    var r := Refreshed(s0, e, index, p, p + 1);
    forall t | 0 <= t < |s0| ensures r[t] == s0[t] {
    }
  }

  /** The walk over the original children after `p` resolves each of them
      where it now stands. */
  lemma {:induction false} AfterSpliceWalk(e: Node, index: map<string, Node>, p: nat, i: nat, s0: seq<Slot>)
    requires SplicedAt(e, index, p, s0) && p < i <= |e.kids|
    decreases i
    ensures PassAfter(e, index, i) == Pass([], Refreshed(s0, e, index, p, i))
  {
    if i == p + 1 {
      RefreshedAtStart(s0, e, index, p);
    } else {
      AfterSpliceWalk(e, index, p, i - 1, s0);
      RefreshStep(e, index, p, i, s0);
    }
  }

  /** Every child holds an original from before `p`. */
  ghost predicate BeforeOnly(s: seq<Slot>, p: nat)
  {
    forall t :: 0 <= t < |s| ==> s[t].origin.Original? && s[t].origin.index < p
  }

  /** Every child is a copy. */
  ghost predicate CopiesOnly(s: seq<Slot>)
  {
    forall t :: 0 <= t < |s| ==> s[t].origin == Copied
  }

  /** Every child is an original from after `p`, still the original child. */
  ghost predicate AfterOnly(e: Node, s: seq<Slot>, p: nat)
    requires e.Element?
  {
    forall t :: 0 <= t < |s| ==>
      s[t].origin.Original? && p < s[t].origin.index < |e.kids| && s[t].node == e.kids[s[t].origin.index]
  }

  /** The three stretches of a splice at `p` over children that are still
      the originals in order, with those from `p` on untouched. */
  lemma SpliceSegments(U: seq<Slot>, e: Node, p: nat, m: Node)
    returns (xs: seq<Slot>, cs: seq<Slot>, ys: seq<Slot>)
    requires e.Element? && p < |e.kids| && |U| == |e.kids|
    requires forall k :: 0 <= k < |U| ==> U[k].origin == Original(k) && (p <= k ==> U[k].node == e.kids[k])
    ensures SpliceChildren(U, p, m) == xs + cs + ys
    ensures OriginsIncreasing(xs + cs + ys)
    ensures forall x :: x in xs + cs + ys ==> x.node.Element?
    ensures BeforeOnly(xs, p) && CopiesOnly(cs) && AfterOnly(e, ys, p)
    ensures Nodes(xs) == Elements(Nodes(U[..p]))
    ensures m.Element? ==> Nodes(cs) == Elements(m.kids)
    ensures Nodes(ys) == Elements(e.kids[p + 1..])
  {
    xs, cs, ys := ElementSlots(U[..p]), CopiedSlots(m), ElementSlots(U[p + 1..]);
    SpliceIncreasing(U, p, m);
    SpliceChildrenElements(U, p, m);
    BeforeSegment(U, p);
    AfterSegment(U, e, p);
  }

  lemma BeforeSegment(U: seq<Slot>, p: nat)
    requires p <= |U|
    requires forall k :: 0 <= k < |U| ==> U[k].origin == Original(k)
    ensures BeforeOnly(ElementSlots(U[..p]), p)
    ensures Nodes(ElementSlots(U[..p])) == Elements(Nodes(U[..p]))
  {
    var xs := ElementSlots(U[..p]);
    var K := ElementSlotsSelects(U[..p]);
    forall t | 0 <= t < |xs| ensures xs[t].origin.Original? && xs[t].origin.index < p {
      assert xs[t] == U[K[t]];
    }
  }

  lemma AfterSegment(U: seq<Slot>, e: Node, p: nat)
    requires e.Element? && p < |U| == |e.kids|
    requires forall k :: 0 <= k < |U| ==> U[k].origin == Original(k) && (p <= k ==> U[k].node == e.kids[k])
    ensures AfterOnly(e, ElementSlots(U[p + 1..]), p)
    ensures Nodes(ElementSlots(U[p + 1..])) == Elements(e.kids[p + 1..])
  {
    var after := U[p + 1..];
    var ys := ElementSlots(after);
    var L := ElementSlotsSelects(after);
    forall t | 0 <= t < |ys|
      ensures ys[t].origin.Original? && p < ys[t].origin.index < |e.kids| && ys[t].node == e.kids[ys[t].origin.index]
    {
      assert ys[t] == U[p + 1 + L[t]];
    }
    assert Nodes(after) == e.kids[p + 1..];
  }

  /** The walk's step at the one placeholder to resolve, at `p`: the children
      before it have been resolved in place, and the splice replaces them all. */
  lemma SpliceAtPlaceholder(e: Node, index: map<string, Node>, p: nat, m: Node)
    requires e.Element? && p < |e.kids|
    requires ReferenceOf(e.kids[p], index) == Some(m)
    requires NoneResolvable(e, index, p)
    ensures |PassAfter(e, index, p).slots| == |e.kids|
    ensures forall k :: 0 <= k < |e.kids| ==>
      PassAfter(e, index, p).slots[k].origin == Original(k) &&
      (p <= k ==> PassAfter(e, index, p).slots[k].node == e.kids[k])
    ensures Nodes(PassAfter(e, index, p).slots[..p]) == ResolveAll(e.kids[..p], index)
    ensures PassAfter(e, index, p + 1) == Pass([], Dedup(SpliceChildren(PassAfter(e, index, p).slots, p, m)))
  {
    PassAfterShape(e, index, p);
    var U := PassAfter(e, index, p).slots;
    assert U[p] in U;
    assert Locate(U, p) == Some(p);
    assert Nodes(U[..p]) == ResolveAll(e.kids[..p], index);
  }

  /** Once the splice at `p` is done, the parent ends with the spliced
      children, each original after `p` resolved where it stands. */
  lemma SplicedWalkEnd(e: Node, index: map<string, Node>, p: nat, s0: seq<Slot>)
    requires SplicedAt(e, index, p, s0)
    ensures ResolveElement(e, index) == Element(e.name, [], Nodes(Refreshed(s0, e, index, p, |e.kids|)))
  {
    AfterSpliceWalk(e, index, p, |e.kids|, s0);
  }

  lemma SplicedAfterSplice(e: Node, p: nat, xs: seq<Slot>, cs: seq<Slot>, ys: seq<Slot>)
    requires e.Element?
    requires OriginsIncreasing(xs + cs + ys) && forall x :: x in xs + cs + ys ==> x.node.Element?
    requires BeforeOnly(xs, p) && CopiesOnly(cs) && AfterOnly(e, ys, p)
    ensures AfterSplice(e, p, xs + cs + ys)
  {
    var s0 := xs + cs + ys;
    forall t | 0 <= t < |s0|
      ensures s0[t].origin.Original? && p < s0[t].origin.index ==>
        s0[t].origin.index < |e.kids| && s0[t].node == e.kids[s0[t].origin.index]
    {
      if t < |xs| {
        assert s0[t] == xs[t];
      } else if t < |xs| + |cs| {
        assert s0[t] == cs[t - |xs|];
      } else {
        assert s0[t] == ys[t - |xs| - |cs|];
      }
    }
    forall t | 0 <= t < |s0| ensures s0[t].node.Element? {
      assert s0[t] in s0;
    }
  }

  /** Resolving the originals after `p` changes only the last stretch. */
  lemma RefreshedSegments(e: Node, index: map<string, Node>, p: nat, xs: seq<Slot>, cs: seq<Slot>, ys: seq<Slot>)
    requires e.Element? && p < |e.kids|
    requires BeforeOnly(xs, p) && CopiesOnly(cs) && AfterOnly(e, ys, p)
    ensures Nodes(Refreshed(xs + cs + ys, e, index, p, |e.kids|)) ==
      Nodes(xs) + Nodes(cs) + ResolveAll(Nodes(ys), index)
  {
    var s := xs + cs + ys;
    var r := Refreshed(s, e, index, p, |e.kids|);
    forall t | 0 <= t < |s| ensures Nodes(r)[t] == (Nodes(xs) + Nodes(cs) + ResolveAll(Nodes(ys), index))[t] {
      if t < |xs| {
        assert s[t] == xs[t];
      } else if t < |xs| + |cs| {
        assert s[t] == cs[t - |xs|];
      } else {
        assert s[t] == ys[t - |xs| - |cs|];
      }
    }
  }

  /** No spliced element corresponds to a later one: duplicate removal keeps
      every spliced child. */
  lemma SpliceKeepsAll(xs: seq<Slot>, cs: seq<Slot>, ys: seq<Slot>, ns: seq<Node>)
    requires Nodes(xs) + Nodes(cs) + Nodes(ys) == ns && NoCorrespondingPair(ns)
    ensures Dedup(xs + cs + ys) == xs + cs + ys
  {
    NodesConcat(xs, cs);
    NodesConcat(xs + cs, ys);
    NoPairNoDedup(xs + cs + ys);
  }

  /** The children the parent ends with, as nodes. */
  lemma SpliceResultNodes(e: Node, index: map<string, Node>, p: nat, m: Node, xs: seq<Slot>, cs: seq<Slot>, ys: seq<Slot>)
    requires e.Element? && p < |e.kids| && m.Element?
    requires BeforeOnly(xs, p) && CopiesOnly(cs) && AfterOnly(e, ys, p)
    requires Nodes(xs) == Elements(ResolveAll(e.kids[..p], index))
    requires Nodes(cs) == Elements(m.kids)
    requires Nodes(ys) == Elements(e.kids[p + 1..])
    ensures Nodes(Refreshed(xs + cs + ys, e, index, p, |e.kids|)) ==
      Elements(ResolveAll(e.kids[..p], index)) + Elements(m.kids) + Elements(ResolveAll(e.kids[p + 1..], index))
  {
    RefreshedSegments(e, index, p, xs, cs, ys);
    ElementsResolveAll(e.kids[p + 1..], index);
  }

  /** A parent with exactly one original child to resolve, at `p`, whose new
      children hold no element that corresponds to a later one, ends with no
      attributes and with, in order: its children before `p`, each resolved,
      text dropped; the member's element children; its children after `p`,
      each resolved, text dropped. */
  lemma SingleSpliceResult(e: Node, index: map<string, Node>, p: nat, m: Node)
    requires e.Element? && p < |e.kids| && m.Element?
    requires ReferenceOf(e.kids[p], index) == Some(m)
    requires forall k :: 0 <= k < |e.kids| && k != p ==> ReferenceOf(e.kids[k], index).None?
    requires NoCorrespondingPair(Elements(ResolveAll(e.kids[..p], index)) + Elements(m.kids) + Elements(e.kids[p + 1..]))
    ensures ResolveElement(e, index) ==
      Element(e.name, [],
        Elements(ResolveAll(e.kids[..p], index)) + Elements(m.kids) + Elements(ResolveAll(e.kids[p + 1..], index)))
  {
    var U := PassAfter(e, index, p).slots;
    SpliceAtPlaceholder(e, index, p, m);
    var xs, cs, ys := SpliceSegments(U, e, p, m);
    SpliceKeepsAll(xs, cs, ys, Elements(ResolveAll(e.kids[..p], index)) + Elements(m.kids) + Elements(e.kids[p + 1..]));
    SplicedAfterSplice(e, p, xs, cs, ys);
    SplicedWalkEnd(e, index, p, xs + cs + ys);
    SpliceResultNodes(e, index, p, m, xs, cs, ys);
  }
}
