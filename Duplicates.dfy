/**
 * `RemoveDuplicates` of Documentor/Program.cs: after a splice, a child is
 * dropped when one of its later element siblings corresponds to it, so the
 * last of a run of same-shaped elements wins.
 */
module Duplicates {
  import opened Wrappers
  import opened XmlTree
  import opened Correspondence

  /** The child at `i` is an element and some later element sibling corresponds to it. */
  predicate Dominated(s: seq<Slot>, i: nat)
    requires i < |s|
  {
    s[i].node.Element? &&
    exists j :: i < j < |s| && s[j].node.Element? && Corresponds(s[i].node, s[j].node)
  }

  /** The children from `from` on that are not dominated, in order. */
  function DedupFrom(s: seq<Slot>, from: nat): seq<Slot>
    requires from <= |s|
    decreases |s| - from
  {
    if from == |s| then []
    else (if Dominated(s, from) then [] else [s[from]]) + DedupFrom(s, from + 1)
  }

  /** The child list after duplicate removal. */
  function Dedup(s: seq<Slot>): seq<Slot>
  {
    DedupFrom(s, 0)
  }

  /** The positions, from `from` on, of the children that survive. */
  function KeptFrom(s: seq<Slot>, from: nat): seq<nat>
    requires from <= |s|
    decreases |s| - from
  {
    if from == |s| then []
    else (if Dominated(s, from) then [] else [from]) + KeptFrom(s, from + 1)
  }

  lemma {:induction false} KeptFromAligned(s: seq<Slot>, from: nat)
    requires from <= |s|
    decreases |s| - from
    ensures |DedupFrom(s, from)| == |KeptFrom(s, from)|
    ensures forall k :: 0 <= k < |KeptFrom(s, from)| ==>
      from <= KeptFrom(s, from)[k] < |s| && DedupFrom(s, from)[k] == s[KeptFrom(s, from)[k]]
  {
    if from < |s| {
      KeptFromAligned(s, from + 1);
    }
  }

  lemma {:induction false} KeptFromIncreasing(s: seq<Slot>, from: nat)
    requires from <= |s|
    decreases |s| - from
    ensures forall k :: 0 <= k < |KeptFrom(s, from)| ==> from <= KeptFrom(s, from)[k]
    ensures forall k, l :: 0 <= k < l < |KeptFrom(s, from)| ==> KeptFrom(s, from)[k] < KeptFrom(s, from)[l]
  {
    if from < |s| {
      KeptFromIncreasing(s, from + 1);
    }
  }

  lemma {:induction false} KeptFromMembers(s: seq<Slot>, from: nat)
    requires from <= |s|
    decreases |s| - from
    ensures forall i :: from <= i < |s| ==> (i in KeptFrom(s, from) <==> !Dominated(s, i))
  {
    if from < |s| {
      KeptFromMembers(s, from + 1);
      KeptFromIncreasing(s, from + 1);
    }
  }

  /** Duplicate removal only removes: the result is the subsequence of the
      children at the strictly increasing positions `K`, and a child is left
      out exactly when a later element sibling corresponds to it. */
  lemma DedupSelects(s: seq<Slot>) returns (K: seq<nat>)
    ensures |Dedup(s)| == |K|
    ensures forall k :: 0 <= k < |K| ==> K[k] < |s| && Dedup(s)[k] == s[K[k]]
    ensures forall k, l :: 0 <= k < l < |K| ==> K[k] < K[l]
    ensures forall i :: 0 <= i < |s| ==> (i in K <==> !Dominated(s, i))
  {
    KeptFromAligned(s, 0);
    KeptFromIncreasing(s, 0);
    KeptFromMembers(s, 0);
    K := KeptFrom(s, 0);
  }

  lemma {:induction false} DedupFromSubset(s: seq<Slot>, from: nat)
    requires from <= |s|
    decreases |s| - from
    ensures forall x :: x in DedupFrom(s, from) ==> x in s[from..]
  {
    if from < |s| {
      DedupFromSubset(s, from + 1);
    }
  }

  /** Every surviving child was a child before. */
  lemma DedupSubset(s: seq<Slot>)
    ensures forall x :: x in Dedup(s) ==> x in s
  {
    DedupFromSubset(s, 0);
  }

  lemma {:induction false} DedupFromKeepsLast(s: seq<Slot>, from: nat)
    requires from < |s|
    decreases |s| - from
    ensures |DedupFrom(s, from)| > 0 && DedupFrom(s, from)[|DedupFrom(s, from)| - 1] == s[|s| - 1]
  {
    var head := if Dominated(s, from) then [] else [s[from]];
    var rest := DedupFrom(s, from + 1);
    assert DedupFrom(s, from) == head + rest;
    if from + 1 < |s| {
      DedupFromKeepsLast(s, from + 1);
      assert (head + rest)[|head + rest| - 1] == rest[|rest| - 1];
    } else {
      assert rest == [];
      assert !Dominated(s, from);
      assert head + rest == [s[from]];
    }
  }

  /** The last child is never removed. */
  lemma DedupKeepsLast(s: seq<Slot>)
    requires |s| > 0
    ensures |Dedup(s)| > 0 && Dedup(s)[|Dedup(s)| - 1] == s[|s| - 1]
  {
    DedupFromKeepsLast(s, 0);
  }

  lemma {:induction false} DedupFromLength(s: seq<Slot>, from: nat)
    requires from <= |s|
    decreases |s| - from
    ensures |DedupFrom(s, from)| <= |s| - from
    ensures (exists i :: from <= i < |s| && Dominated(s, i)) ==> |DedupFrom(s, from)| < |s| - from
    ensures (forall i :: from <= i < |s| ==> !Dominated(s, i)) ==> DedupFrom(s, from) == s[from..]
  {
    if from < |s| {
      DedupFromLength(s, from + 1);
    }
  }

  /** The children are left exactly as they are if and only if no child
      corresponds to a later element sibling. */
  lemma DedupUnchangedIff(s: seq<Slot>)
    ensures Dedup(s) == s <==> forall i :: 0 <= i < |s| ==> !Dominated(s, i)
  {
    DedupFromLength(s, 0);
  }

  /** After duplicate removal no child corresponds to a later element sibling. */
  lemma DedupLeavesNoDuplicate(s: seq<Slot>)
    ensures forall i :: 0 <= i < |Dedup(s)| ==> !Dominated(Dedup(s), i)
  {
    var d := Dedup(s);
    var K := DedupSelects(s);
    forall i | 0 <= i < |d| ensures !Dominated(d, i) {
      assert K[i] in K;
      forall j | i < j < |d| ensures !(d[i].node.Element? && d[j].node.Element? && Corresponds(d[i].node, d[j].node)) {
        assert K[i] < K[j] < |s|;
      }
    }
  }

  /** Removing duplicates a second time changes nothing. */
  lemma DedupIdempotent(s: seq<Slot>)
    ensures Dedup(Dedup(s)) == Dedup(s)
  {
    DedupLeavesNoDuplicate(s);
    DedupUnchangedIff(Dedup(s));
  }

  /** Attribute values are not compared, so of two `param` elements with
      different `name` values only the second survives. */
  lemma ParamsCollapse(x: string, y: string, first: seq<Node>, second: seq<Node>)
    ensures var a := Slot(Element("param", [Attribute("name", x)], first), Original(0));
            var b := Slot(Element("param", [Attribute("name", y)], second), Original(1));
            Dedup([a, b]) == [b]
  {
    var a := Slot(Element("param", [Attribute("name", x)], first), Original(0));
    var b := Slot(Element("param", [Attribute("name", y)], second), Original(1));
    var s := [a, b];
    assert FindAttribute(b.node.attrs, "name").Some?;
    assert Corresponds(s[0].node, s[1].node);
    assert Dominated(s, 0);
    assert !Dominated(s, 1);
    assert DedupFrom(s, 1) == [b];
  }

  /** Dominance only looks at the child and the siblings after it. */
  lemma DominatedSuffix(r: seq<Slot>, i: nat, s: seq<Slot>, j: nat)
    requires i < |r| && j < |s| && r[i..] == s[j..]
    ensures Dominated(r, i) == Dominated(s, j)
  {
    assert r[i] == r[i..][0] == s[j..][0] == s[j];
    if Dominated(r, i) {
      var m :| i < m < |r| && r[m].node.Element? && Corresponds(r[i].node, r[m].node);
      assert r[m] == r[i..][m - i] == s[j + (m - i)];
    }
    if Dominated(s, j) {
      var m :| j < m < |s| && s[m].node.Element? && Corresponds(s[j].node, s[m].node);
      assert s[m] == s[j..][m - j] == r[i + (m - j)];
    }
  }

  /** The inner loop of `RemoveDuplicates`: whether an element sibling after
      the child at `i` corresponds to it. */
  method HasLaterCorrespondent(r: seq<Slot>, i: nat) returns (found: bool)
    requires i < |r|
    ensures found == Dominated(r, i)
  {
    if r[i].node.Text? {
      return false;
    }
    var k := i + 1;
    while k < |r|
      invariant i + 1 <= k <= |r|
      invariant forall m :: i < m < k ==> !(r[m].node.Element? && Corresponds(r[i].node, r[m].node))
    {
      if r[k].node.Element? && Corresponds(r[i].node, r[k].node) {
        return true;
      }
      k := k + 1;
    }
    return false;
  }

  /** Where the two lists stand after the child at `i` is removed or kept. */
  lemma SliceStep(r: seq<Slot>, i: nat, kids: seq<Slot>, j: nat)
    requires i < |r| && j < |kids| && r[i..] == kids[j..]
    ensures r[i] == kids[j] && r[i + 1..] == kids[j + 1..] && r[..i + 1] == r[..i] + [kids[j]]
    ensures (r[..i] + r[i + 1..])[i..] == kids[j + 1..] && (r[..i] + r[i + 1..])[..i] == r[..i]
  {
    assert r[i] == r[i..][0];
    assert r[i + 1..] == r[i..][1..];
  }

  /** One step of the outer loop: the child at `i`, which is child `j` of
      the original list, is removed exactly when it is dominated. */
  lemma DedupStep(r: seq<Slot>, i: nat, kids: seq<Slot>, j: nat)
    requires i < |r| && j < |kids| && r[i..] == kids[j..]
    requires r[..i] + DedupFrom(kids, j) == Dedup(kids)
    ensures Dominated(r, i) ==>
      var r' := r[..i] + r[i + 1..];
      r'[i..] == kids[j + 1..] && r'[..i] + DedupFrom(kids, j + 1) == Dedup(kids)
    ensures !Dominated(r, i) ==>
      r[i + 1..] == kids[j + 1..] && r[..i + 1] + DedupFrom(kids, j + 1) == Dedup(kids)
  {
    DominatedSuffix(r, i, kids, j);
    SliceStep(r, i, kids, j);
    var d, d' := Dedup(kids), DedupFrom(kids, j + 1);
    var prefix := r[..i];
    if Dominated(kids, j) {
      assert DedupFrom(kids, j) == d';
    } else {
      assert DedupFrom(kids, j) == [kids[j]] + d';
      assert prefix + ([kids[j]] + d') == (prefix + [kids[j]]) + d';
    }
  }

  /** The nested loops of `RemoveDuplicates`: every element child, front to
      back, is removed when some element after it corresponds to it. */
  method RemoveDuplicates(kids: seq<Slot>) returns (r: seq<Slot>)
    ensures r == Dedup(kids)
  {
    r := kids;
    var i := 0;
    ghost var j := 0;
    while i < |r|
      invariant 0 <= i <= |r| && 0 <= j <= |kids|
      invariant r[i..] == kids[j..]
      invariant r[..i] + DedupFrom(kids, j) == Dedup(kids)
      decreases |r| - i
    {
      var removed := HasLaterCorrespondent(r, i);
      DedupStep(r, i, kids, j);
      if removed {
        r := r[..i] + r[i + 1..];
      } else {
        i := i + 1;
      }
      j := j + 1;
    }
    assert j == |kids|;
  }

  /** The first dominated position from `from` on, if any. */
  function FirstDominated(s: seq<Slot>, from: nat): (r: Option<nat>)
    requires from <= |s|
    decreases |s| - from
    ensures r.Some? ==> from <= r.value < |s| && Dominated(s, r.value) &&
                        forall i :: from <= i < r.value ==> !Dominated(s, i)
    ensures r.None? ==> forall i :: from <= i < |s| ==> !Dominated(s, i)
  {
    if from == |s| then None
    else if Dominated(s, from) then Some(from)
    else FirstDominated(s, from + 1)
  }

  /** `RemoveDuplicates` as LINQ to XML runs it: `child.Remove()` detaches the
      child the `Elements()` enumerator stands on, which ends the outer loop,
      so at most the first dominated child is removed. */
  function RemoveFirstDuplicate(s: seq<Slot>): (r: seq<Slot>)
    ensures |r| == |s| || |r| == |s| - 1
    ensures r == s <==> forall i :: 0 <= i < |s| ==> !Dominated(s, i)
    ensures r != s ==>
      exists i :: 0 <= i < |s| && Dominated(s, i) &&
                  (forall j :: 0 <= j < i ==> !Dominated(s, j)) && r == s[..i] + s[i + 1..]
  {
    match FirstDominated(s, 0)
    case None => s
    case Some(i) => s[..i] + s[i + 1..]
  }

  /** With two pairs of duplicates the single removal leaves the second pair,
      where removing every earlier duplicate leaves none. */
  lemma FirstDuplicateOnlyLeavesDuplicate()
    ensures var x, y := Element("param", [Attribute("name", "x")], []), Element("returns", [], []);
            var s := [Slot(x, Original(0)), Slot(x, Original(1)), Slot(y, Original(2)), Slot(y, Original(3))];
            RemoveFirstDuplicate(s) == s[1..] && Dominated(RemoveFirstDuplicate(s), 1) &&
            Dedup(s) == [s[1], s[3]]
  {
    var x, y := Element("param", [Attribute("name", "x")], []), Element("returns", [], []);
    var s := [Slot(x, Original(0)), Slot(x, Original(1)), Slot(y, Original(2)), Slot(y, Original(3))];
    CorrespondsReflexive(x);
    CorrespondsReflexive(y);
    assert !Corresponds(y, x);
    assert Corresponds(s[0].node, s[1].node);
    assert Dominated(s, 0);
    assert Corresponds(s[2].node, s[3].node);
    assert Dominated(s, 2);
    assert !Dominated(s, 1);
    assert !Dominated(s, 3);
    assert DedupFrom(s, 4) == [];
    assert DedupFrom(s, 3) == [s[3]];
    assert DedupFrom(s, 2) == [s[3]];
    assert DedupFrom(s, 1) == [s[1], s[3]];
    assert Dedup(s) == [s[1], s[3]];
    assert FirstDominated(s, 0) == Some(0);
    var r := RemoveFirstDuplicate(s);
    assert r == s[1..];
    assert r[1] == s[2] && r[2] == s[3];
    assert Corresponds(r[1].node, r[2].node);
    assert Dominated(r, 1);
  }
}
