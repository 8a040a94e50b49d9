/**
 * The part of LINQ to XML that the resolver reads: elements with a name,
 * attributes and child nodes, attribute lookup by name, the element children
 * of a node and the depth-first enumeration of an element and its descendants.
 * Names are plain strings (no XML namespaces).
 */
module XmlTree {
  import opened Wrappers

  datatype Attribute = Attribute(name: string, value: string)

  /** An element, or any other child node (text, comment, ...), which the
      resolver never inspects. */
  datatype Node =
    | Element(name: string, attrs: seq<Attribute>, kids: seq<Node>)
    | Text(value: string)

  /** The names of a list of attributes. */
  function AttributeNames(attrs: seq<Attribute>): set<string>
  {
    set a | a in attrs :: a.name
  }

  /** `XElement.Attribute(name)`: the attribute with that name, or None (C# null). */
  function FindAttribute(attrs: seq<Attribute>, name: string): (r: Option<Attribute>)
    ensures r.Some? <==> name in AttributeNames(attrs)
    ensures r.Some? ==> r.value in attrs && r.value.name == name
  {
    if |attrs| == 0 then None
    else if attrs[0].name == name then Some(attrs[0])
    else
      var r := FindAttribute(attrs[1..], name);
      assert AttributeNames(attrs) == {attrs[0].name} + AttributeNames(attrs[1..]);
      r
  }

  /** `Elements()`: the children that are elements, in order. */
  function Elements(kids: seq<Node>): (r: seq<Node>)
    ensures forall k :: 0 <= k < |r| ==> r[k].Element? && r[k] in kids
    ensures (forall k :: 0 <= k < |kids| ==> kids[k].Element?) ==> r == kids
  {
    if |kids| == 0 then []
    else
      var r := (if kids[0].Element? then [kids[0]] else []) + Elements(kids[1..]);
      assert forall k :: 1 <= k < |kids| ==> kids[k] == kids[1..][k - 1];
      r
  }

  /** Each position moved one place on. */
  function Shift(K: seq<nat>): (r: seq<nat>)
    ensures |r| == |K| && forall t :: 0 <= t < |K| ==> r[t] == K[t] + 1
  {
    seq(|K|, t requires 0 <= t < |K| => K[t] + 1)
  }

  /** The positions of the element children, in order. */
  function ElementPositions(kids: seq<Node>): seq<nat>
  {
    if |kids| == 0 then []
    else (if kids[0].Element? then [0] else []) + Shift(ElementPositions(kids[1..]))
  }

  lemma {:induction false} ElementPositionsAligned(kids: seq<Node>)
    ensures |ElementPositions(kids)| == |Elements(kids)|
    ensures forall t :: 0 <= t < |ElementPositions(kids)| ==>
      ElementPositions(kids)[t] < |kids| && Elements(kids)[t] == kids[ElementPositions(kids)[t]]
  {
    if |kids| > 0 {
      var tail := kids[1..];
      ElementPositionsAligned(tail);
      assert forall t :: 0 <= t < |ElementPositions(tail)| ==>
        tail[ElementPositions(tail)[t]] == kids[ElementPositions(tail)[t] + 1];
    }
  }

  lemma {:induction false} ElementPositionsIncreasing(kids: seq<Node>)
    ensures forall t, u :: 0 <= t < u < |ElementPositions(kids)| ==>
      ElementPositions(kids)[t] < ElementPositions(kids)[u]
  {
    if |kids| > 0 {
      ElementPositionsIncreasing(kids[1..]);
    }
  }

  lemma {:induction false} ElementPositionsMembers(kids: seq<Node>)
    ensures forall k :: 0 <= k < |kids| ==> (k in ElementPositions(kids) <==> kids[k].Element?)
  {
    if |kids| > 0 {
      var tail := kids[1..];
      var K', shifted := ElementPositions(tail), Shift(ElementPositions(tail));
      ElementPositionsMembers(tail);
      forall k | 0 <= k < |kids| ensures k in ElementPositions(kids) <==> kids[k].Element? {
        if k == 0 {
          assert 0 !in shifted;
        } else {
          assert kids[k] == tail[k - 1];
          if k in shifted {
            var t :| 0 <= t < |shifted| && shifted[t] == k;
            assert K'[t] == k - 1;
          }
          if k - 1 in K' {
            var t :| 0 <= t < |K'| && K'[t] == k - 1;
            assert shifted[t] == k;
          }
        }
      }
    }
  }

  /** `Elements()` keeps exactly the element children, in their order: the
      result is the children at the increasing positions `K`, and a position
      is in `K` exactly when the child there is an element. */
  lemma ElementsSelects(kids: seq<Node>) returns (K: seq<nat>)
    ensures |K| == |Elements(kids)|
    ensures forall t :: 0 <= t < |K| ==> K[t] < |kids| && Elements(kids)[t] == kids[K[t]]
    ensures forall t, u :: 0 <= t < u < |K| ==> K[t] < K[u]
    ensures forall k :: 0 <= k < |kids| ==> (k in K <==> kids[k].Element?)
  {
    K := ElementPositions(kids);
    ElementPositionsAligned(kids);
    ElementPositionsIncreasing(kids);
    ElementPositionsMembers(kids);
  }

  /** `DescendantsAndSelf()`: the element itself, then every element below it,
      depth-first in document order. Other nodes are not enumerated. */
  function DescendantsAndSelf(n: Node): (r: seq<Node>)
    decreases n, 1, 0
    ensures n.Element? <==> |r| > 0
    ensures n.Element? ==> r[0] == n
    ensures forall k :: 0 <= k < |r| ==> r[k].Element?
  {
    if n.Text? then [] else [n] + DescendantsFrom(n, 0)
  }

  /** The descendants of the kids of `parent` from index `i` on, in document order. */
  function DescendantsFrom(parent: Node, i: nat): (r: seq<Node>)
    requires parent.Element? && i <= |parent.kids|
    decreases parent, 0, |parent.kids| - i
    ensures forall k :: 0 <= k < |r| ==> r[k].Element?
  {
    if i == |parent.kids| then []
    else DescendantsAndSelf(parent.kids[i]) + DescendantsFrom(parent, i + 1)
  }

  lemma {:induction false} DescendantsFromContains(parent: Node, j: nat, i: nat)
    requires parent.Element? && j <= i < |parent.kids|
    decreases i - j
    ensures forall d :: d in DescendantsAndSelf(parent.kids[i]) ==> d in DescendantsFrom(parent, j)
  {
    if j < i {
      DescendantsFromContains(parent, j + 1, i);
    }
  }

  /** The descendants of a child are descendants of its parent. */
  lemma DescendantsOfKid(parent: Node, i: nat)
    requires parent.Element? && i < |parent.kids|
    ensures forall d :: d in DescendantsAndSelf(parent.kids[i]) ==> d in DescendantsAndSelf(parent)
  {
    DescendantsFromContains(parent, 0, i);
  }

  /** `roots.SelectMany(root => root.DescendantsAndSelf())`. */
  function AllDescendants(roots: seq<Node>): (r: seq<Node>)
    ensures forall k :: 0 <= k < |r| ==> r[k].Element?
  {
    if |roots| == 0 then [] else DescendantsAndSelf(roots[0]) + AllDescendants(roots[1..])
  }

  /** Where a child comes from, which stands in for the identity of the child
      object: its position among the parent's kids before the walk over the
      tree began, or a copy of a referenced member's child made by a splice. */
  datatype Origin = Original(index: nat) | Copied

  /** A child of the element being rewritten, together with its identity. */
  datatype Slot = Slot(node: Node, origin: Origin)

  /** The child nodes held by a list of slots. */
  function Nodes(slots: seq<Slot>): (r: seq<Node>)
    ensures |r| == |slots|
    ensures forall k :: 0 <= k < |r| ==> r[k] == slots[k].node
  {
    seq(|slots|, k requires 0 <= k < |slots| => slots[k].node)
  }
}
