/**
 * `Process` of Documentor/Program.cs: every `inheritdoc` element whose
 * `cref` names an index entry is replaced, in its parent, by the element
 * children of the referenced member; the parent loses its attributes and its
 * non-element children, and duplicate removal runs over its new children.
 *
 * The walk over `DescendantsAndSelf()` visits the nodes of the tree as it
 * was before any change, in document order, and skips a node that is no
 * longer attached. A splice only rewrites the parent's child list, and
 * duplicate removal only removes, so that walk is the same as handling the
 * root, then each original child of an element in order, descending into a
 * child as soon as it is reached. That is what `PassAfter` and
 * `ProcessElement` do, one parent at a time.
 */
module Resolver {
  import opened Wrappers
  import opened XmlTree
  import opened Correspondence
  import opened Duplicates

  const InheritDocTag := "inheritdoc"
  const CrefAttribute := "cref"

  /** Why `Process` throws. `PlaceholderIsRoot`: the root is a placeholder to
      resolve, it has no parent, and `parent.RemoveAll()` throws.
      `DetachedPlaceholder`: the live `DescendantsAndSelf()` enumerator moves
      on from a placeholder that the splice has detached and climbs through
      its missing parent (only `LiveWalk.ProcessAsWritten` reports it). */
  datatype ResolveError = PlaceholderIsRoot | DetachedPlaceholder

  /** The referenced member, when `n` is an `inheritdoc` element whose `cref`
      is an index key. */
  function ReferenceOf(n: Node, index: map<string, Node>): Option<Node>
  {
    if n.Element? && n.name == InheritDocTag then
      match FindAttribute(n.attrs, CrefAttribute)
      case Some(cref) => if cref.value in index then Some(index[cref.value]) else None
      case None => None
    else None
  }

  /** A node is resolved exactly when it is an `inheritdoc` element with a
      `cref` attribute whose value is an index key, and the member found is
      the index entry for that value. */
  lemma ReferenceOfMeaning(n: Node, index: map<string, Node>)
    ensures ReferenceOf(n, index).Some? ==>
      n.Element? && n.name == InheritDocTag && ReferenceOf(n, index).value in index.Values &&
      exists a :: a in n.attrs && a.name == CrefAttribute && a.value in index && index[a.value] == ReferenceOf(n, index).value
    ensures !(n.Element? && n.name == InheritDocTag && CrefAttribute in AttributeNames(n.attrs)) ==> ReferenceOf(n, index).None?
    ensures (n.Element? && n.name == InheritDocTag && CrefAttribute in AttributeNames(n.attrs) &&
             forall a :: a in n.attrs && a.name == CrefAttribute ==> a.value in index) ==> ReferenceOf(n, index).Some?
  {
  }

  /** The children of an element before the walk: each is its own original. */
  function InitialSlots(kids: seq<Node>): (r: seq<Slot>)
    ensures |r| == |kids|
    ensures forall k :: 0 <= k < |r| ==> r[k] == Slot(kids[k], Original(k))
  {
    seq(|kids|, k requires 0 <= k < |kids| => Slot(kids[k], Original(k)))
  }

  /** The identities present in a child list. */
  ghost function OriginsOf(slots: seq<Slot>): set<Origin>
  {
    set x | x in slots :: x.origin
  }

  function LocateFrom(slots: seq<Slot>, i: nat, p: nat): (r: Option<nat>)
    requires p <= |slots|
    decreases |slots| - p
    ensures r.Some? ==> p <= r.value < |slots| && slots[r.value].origin == Original(i)
    ensures r.None? ==> forall q :: p <= q < |slots| ==> slots[q].origin != Original(i)
  {
    if p == |slots| then None
    else if slots[p].origin == Original(i) then Some(p)
    else LocateFrom(slots, i, p + 1)
  }

  /** Where the original child `i` now stands among the children, if it is
      still attached. */
  function Locate(slots: seq<Slot>, i: nat): (r: Option<nat>)
    ensures r.Some? ==> r.value < |slots| && slots[r.value].origin == Original(i)
    ensures r.None? <==> Original(i) !in OriginsOf(slots)
  {
    LocateFrom(slots, i, 0)
  }

  /** `ElementsBeforeSelf()` / `ElementsAfterSelf()`: the element children of a stretch. */
  function ElementSlots(slots: seq<Slot>): (r: seq<Slot>)
    ensures forall k :: 0 <= k < |r| ==> r[k].node.Element? && r[k] in slots
    ensures (forall k :: 0 <= k < |slots| ==> slots[k].node.Element?) ==> r == slots
  {
    if |slots| == 0 then []
    else
      var r := (if slots[0].node.Element? then [slots[0]] else []) + ElementSlots(slots[1..]);
      assert forall k :: 1 <= k < |slots| ==> slots[k] == slots[1..][k - 1];
      r
  }

  lemma {:induction false} ElementSlotsAligned(slots: seq<Slot>)
    ensures |ElementSlots(slots)| == |ElementPositions(Nodes(slots))|
    ensures forall t :: 0 <= t < |ElementSlots(slots)| ==>
      ElementPositions(Nodes(slots))[t] < |slots| && ElementSlots(slots)[t] == slots[ElementPositions(Nodes(slots))[t]]
  {
    if |slots| > 0 {
      var tail := slots[1..];
      ElementSlotsAligned(tail);
      assert Nodes(slots)[1..] == Nodes(tail);
      var K, K', h := ElementPositions(Nodes(slots)), ElementPositions(Nodes(tail)), if slots[0].node.Element? then 1 else 0;
      var r := ElementSlots(slots);
      assert r == (if slots[0].node.Element? then [slots[0]] else []) + ElementSlots(tail);
      forall t | 0 <= t < |r| ensures K[t] < |slots| && r[t] == slots[K[t]] {
        if h <= t {
          assert K[t] == K'[t - h] + 1 && r[t] == ElementSlots(tail)[t - h];
        }
      }
    }
  }

  /** `ElementsBeforeSelf()` / `ElementsAfterSelf()` keep exactly the element
      children of the stretch, in their order: the result is the children at
      the increasing positions `K`, a position is in `K` exactly when the
      child there is an element, and the nodes kept are `Elements` of the
      stretch's nodes. */
  lemma ElementSlotsSelects(slots: seq<Slot>) returns (K: seq<nat>)
    ensures |K| == |ElementSlots(slots)|
    ensures forall t :: 0 <= t < |K| ==> K[t] < |slots| && ElementSlots(slots)[t] == slots[K[t]]
    ensures forall t, u :: 0 <= t < u < |K| ==> K[t] < K[u]
    ensures forall k :: 0 <= k < |slots| ==> (k in K <==> slots[k].node.Element?)
    ensures Nodes(ElementSlots(slots)) == Elements(Nodes(slots))
  {
    var ns := Nodes(slots);
    K := ElementPositions(ns);
    ElementSlotsAligned(slots);
    ElementPositionsAligned(ns);
    ElementPositionsIncreasing(ns);
    ElementPositionsMembers(ns);
    assert forall t :: 0 <= t < |K| ==> Nodes(ElementSlots(slots))[t] == Elements(ns)[t];
  }

  /** `reference.Elements()`: the member's element children, added as copies. */
  function CopiedSlots(reference: Node): (r: seq<Slot>)
    ensures forall k :: 0 <= k < |r| ==> r[k].node.Element? && r[k].origin == Copied
    ensures reference.Element? ==> Nodes(r) == Elements(reference.kids)
  {
    if reference.Text? then []
    else
      var es := Elements(reference.kids);
      seq(|es|, k requires 0 <= k < |es| => Slot(es[k], Copied))
  }

  /** Lines 31-34: the elements before the placeholder at `p`, then the
      member's elements, then the elements after the placeholder. */
  function SpliceChildren(slots: seq<Slot>, p: nat, reference: Node): seq<Slot>
    requires p < |slots|
  {
    ElementSlots(slots[..p]) + CopiedSlots(reference) + ElementSlots(slots[p + 1..])
  }

  /** The state of one parent during the walk: its attributes and children. */
  datatype Pass = Pass(attrs: seq<Attribute>, slots: seq<Slot>)

  /** The parent `e` once the walk has handled its first `i` original children. */
  function PassAfter(e: Node, index: map<string, Node>, i: nat): Pass
    requires e.Element? && i <= |e.kids|
    decreases e, 0, i
  {
    if i == 0 then Pass(e.attrs, InitialSlots(e.kids))
    else
      var st := PassAfter(e, index, i - 1);
      var kid := e.kids[i - 1];
      match Locate(st.slots, i - 1)
      case None => st
      case Some(p) =>
        match ReferenceOf(kid, index)
        case Some(reference) => Pass([], Dedup(SpliceChildren(st.slots, p, reference)))
        case None =>
          if kid.Text? then st
          else Pass(st.attrs, st.slots[p := Slot(ResolveElement(kid, index), Original(i - 1))])
  }

  /** An element that is not itself resolved, after the walk over it. */
  function ResolveElement(e: Node, index: map<string, Node>): Node
    decreases e, 1, 0
  {
    if e.Text? then e
    else
      var st := PassAfter(e, index, |e.kids|);
      Element(e.name, st.attrs, Nodes(st.slots))
  }

  /** The whole of `Process` over one documentation root. */
  function Resolve(root: Node, index: map<string, Node>): Result<Node, ResolveError>
    requires root.Element?
  {
    if ReferenceOf(root, index).Some? then Failure(PlaceholderIsRoot)
    else Success(ResolveElement(root, index))
  }

  /** The loop of `Process` restricted to the original children of `e`, which
      descends into each child as the document-order walk does. */
  method ProcessElement(e: Node, index: map<string, Node>) returns (r: Node)
    decreases e
    ensures r == ResolveElement(e, index)
  {
    if e.Text? {
      return e;
    }
    var attrs := e.attrs;
    var slots := InitialSlots(e.kids);
    var i := 0;
    while i < |e.kids|
      invariant 0 <= i <= |e.kids|
      invariant Pass(attrs, slots) == PassAfter(e, index, i)
    {
      var kid := e.kids[i];
      var at := Locate(slots, i);
      if at.Some? {
        var reference := ReferenceOf(kid, index);
        if reference.Some? {
          var children := SpliceChildren(slots, at.value, reference.value);
          // lines 35-36: the parent loses its attributes and takes the new children
          attrs, slots := [], children;
          slots := RemoveDuplicates(slots);
          assert PassAfter(e, index, i + 1) == Pass([], Dedup(children));
        } else if kid.Element? {
          var resolved := ProcessElement(kid, index);
          slots := slots[at.value := Slot(resolved, Original(i))];
          assert PassAfter(e, index, i + 1) == Pass(attrs, slots);
        } else {
          assert PassAfter(e, index, i + 1) == Pass(attrs, slots);
        }
      } else {
        assert PassAfter(e, index, i + 1) == Pass(attrs, slots);
      }
      i := i + 1;
    }
    r := Element(e.name, attrs, Nodes(slots));
  }

  /** `Process` without the final `root.Save(path)`. */
  method Process(root: Node, index: map<string, Node>) returns (r: Result<Node, ResolveError>)
    requires root.Element?
    ensures r == Resolve(root, index)
    ensures r.Failure? <==> ReferenceOf(root, index).Some?
  {
    if ReferenceOf(root, index).Some? {
      return Failure(PlaceholderIsRoot);
    }
    var resolved := ProcessElement(root, index);
    r := Success(resolved);
  }
}
