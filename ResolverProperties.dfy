/**
 * What `Process` of Documentor/Program.cs guarantees: a tree without
 * placeholders to resolve comes back unchanged, a parent whose child was
 * resolved loses its attributes and keeps only elements, a resolved
 * placeholder is no longer among its parent's children, and the walk always
 * finds the original child where it looks for it.
 */
module ResolverProperties {
  import opened Wrappers
  import opened XmlTree
  import opened Correspondence
  import opened Duplicates
  import opened Resolver

  /** No element of the tree is a placeholder to resolve. */
  ghost predicate Untouched(n: Node, index: map<string, Node>)
  {
    forall d :: d in DescendantsAndSelf(n) ==> ReferenceOf(d, index).None?
  }

  lemma LocateInitial(kids: seq<Node>, i: nat)
    requires i < |kids|
    ensures Locate(InitialSlots(kids), i) == Some(i)
  {
    assert InitialSlots(kids)[i] in InitialSlots(kids);
  }

  /** The children of an untouched element are untouched, and none is a
      placeholder to resolve. */
  lemma UntouchedKid(e: Node, index: map<string, Node>, k: nat)
    requires e.Element? && k < |e.kids| && Untouched(e, index)
    ensures Untouched(e.kids[k], index) && ReferenceOf(e.kids[k], index).None?
  {
    DescendantsOfKid(e, k);
    if e.kids[k].Element? {
      assert e.kids[k] in DescendantsAndSelf(e.kids[k]);
    }
  }

  /** A step of the walk that finds its child in place, not a placeholder to
      resolve, and resolving to itself, changes nothing. */
  lemma StepInPlace(e: Node, index: map<string, Node>, i: nat, slots: seq<Slot>)
    requires e.Element? && 0 < i <= |e.kids|
    requires PassAfter(e, index, i - 1) == Pass(e.attrs, slots)
    requires Locate(slots, i - 1) == Some(i - 1) && slots[i - 1].node == e.kids[i - 1]
    requires ReferenceOf(e.kids[i - 1], index).None?
    requires e.kids[i - 1].Element? ==> ResolveElement(e.kids[i - 1], index) == e.kids[i - 1]
    ensures PassAfter(e, index, i) == Pass(e.attrs, slots)
  {
    if e.kids[i - 1].Element? {
      assert slots[i - 1 := Slot(e.kids[i - 1], Original(i - 1))] == slots;
    }
  }

  lemma {:induction false} PassAfterUntouched(e: Node, index: map<string, Node>, i: nat)
    requires e.Element? && i <= |e.kids| && Untouched(e, index)
    decreases e, 0, i
    ensures PassAfter(e, index, i) == Pass(e.attrs, InitialSlots(e.kids))
  {
    if i > 0 {
      PassAfterUntouched(e, index, i - 1);
      UntouchedKid(e, index, i - 1);
      if e.kids[i - 1].Element? {
        ResolveElementUntouched(e.kids[i - 1], index);
      }
      UntouchedStep(e, index, i);
    }
  }

  /** A step of the walk over unchanged children changes nothing when the
      child it reaches is no placeholder to resolve and resolves to itself. */
  lemma UntouchedStep(e: Node, index: map<string, Node>, i: nat)
    requires e.Element? && 0 < i <= |e.kids| && ReferenceOf(e.kids[i - 1], index).None?
    requires PassAfter(e, index, i - 1) == Pass(e.attrs, InitialSlots(e.kids))
    requires e.kids[i - 1].Element? ==> ResolveElement(e.kids[i - 1], index) == e.kids[i - 1]
    ensures PassAfter(e, index, i) == Pass(e.attrs, InitialSlots(e.kids))
  {
    LocateInitial(e.kids, i - 1);
    StepInPlace(e, index, i, InitialSlots(e.kids));
  }

  lemma {:induction false} ResolveElementUntouched(e: Node, index: map<string, Node>)
    requires Untouched(e, index)
    decreases e, 1, 0
    ensures ResolveElement(e, index) == e
  {
    if e.Element? {
      PassAfterUntouched(e, index, |e.kids|);
      assert Nodes(InitialSlots(e.kids)) == e.kids;
    }
  }

  /** A tree in which no `inheritdoc` has a `cref` that is an index key is
      left exactly as it was, unresolved placeholders included. */
  lemma ResolveWithoutPlaceholders(root: Node, index: map<string, Node>)
    requires root.Element? && Untouched(root, index)
    ensures Resolve(root, index) == Success(root)
  {
    assert root in DescendantsAndSelf(root);
    ResolveElementUntouched(root, index);
  }

  /** Before any splice the children are the originals, in place, those the
      walk has passed already resolved. */
  ghost predicate Unspliced(e: Node, index: map<string, Node>, i: nat, st: Pass)
    requires e.Element? && i <= |e.kids|
  {
    st.attrs == e.attrs && |st.slots| == |e.kids| &&
    forall k :: 0 <= k < |e.kids| ==>
      st.slots[k] == Slot(if k < i then ResolveElement(e.kids[k], index) else e.kids[k], Original(k))
  }

  /** After a splice the parent has no attributes and only element children. */
  ghost predicate Spliced(st: Pass)
  {
    st.attrs == [] && forall x :: x in st.slots ==> x.node.Element?
  }

  lemma SpliceChildrenElements(slots: seq<Slot>, p: nat, reference: Node)
    requires p < |slots|
    ensures forall x :: x in SpliceChildren(slots, p, reference) ==> x.node.Element?
  {
    var xs, cs, ys := ElementSlots(slots[..p]), CopiedSlots(reference), ElementSlots(slots[p + 1..]);
    forall x: Slot | x in xs + cs + ys ensures x.node.Element? {
      if x in xs {
        var k :| 0 <= k < |xs| && xs[k] == x;
      } else if x in cs {
        var k :| 0 <= k < |cs| && cs[k] == x;
      } else {
        var k :| 0 <= k < |ys| && ys[k] == x;
      }
    }
  }

  lemma SpliceYieldsElements(slots: seq<Slot>, p: nat, reference: Node)
    requires p < |slots|
    ensures Spliced(Pass([], Dedup(SpliceChildren(slots, p, reference))))
  {
    SpliceChildrenElements(slots, p, reference);
    DedupSubset(SpliceChildren(slots, p, reference));
  }

  lemma UnsplicedStep(e: Node, index: map<string, Node>, i: nat)
    requires e.Element? && 0 < i <= |e.kids|
    requires Unspliced(e, index, i - 1, PassAfter(e, index, i - 1))
    requires ReferenceOf(e.kids[i - 1], index).None?
    ensures Unspliced(e, index, i, PassAfter(e, index, i))
  {
    var st := PassAfter(e, index, i - 1);
    assert st.slots[i - 1] in st.slots;
    assert Locate(st.slots, i - 1) == Some(i - 1);
  }

  lemma FirstSplice(e: Node, index: map<string, Node>, i: nat)
    requires e.Element? && 0 < i <= |e.kids|
    requires Unspliced(e, index, i - 1, PassAfter(e, index, i - 1))
    requires ReferenceOf(e.kids[i - 1], index).Some?
    ensures Spliced(PassAfter(e, index, i))
  {
    var st := PassAfter(e, index, i - 1);
    assert st.slots[i - 1] in st.slots;
    assert Locate(st.slots, i - 1) == Some(i - 1);
    SpliceYieldsElements(st.slots, i - 1, ReferenceOf(e.kids[i - 1], index).value);
  }

  lemma SplicedStep(e: Node, index: map<string, Node>, i: nat)
    requires e.Element? && 0 < i <= |e.kids|
    requires Spliced(PassAfter(e, index, i - 1))
    ensures Spliced(PassAfter(e, index, i))
  {
    var st := PassAfter(e, index, i - 1);
    var kid := e.kids[i - 1];
    match Locate(st.slots, i - 1)
    case None =>
    case Some(p) =>
      if ReferenceOf(kid, index).Some? {
        SpliceYieldsElements(st.slots, p, ReferenceOf(kid, index).value);
      } else if kid.Element? {
        var slots' := st.slots[p := Slot(ResolveElement(kid, index), Original(i - 1))];
        forall x | x in slots' ensures x.node.Element? {
          var q :| 0 <= q < |slots'| && slots'[q] == x;
          if q != p {
            assert st.slots[q] in st.slots;
          }
        }
      }
  }

  /** The first `i` original children hold no placeholder to resolve. */
  ghost predicate NoneResolvable(e: Node, index: map<string, Node>, i: nat)
    requires e.Element? && i <= |e.kids|
  {
    forall k :: 0 <= k < i ==> ReferenceOf(e.kids[k], index).None?
  }

  lemma {:induction false} PassAfterShape(e: Node, index: map<string, Node>, i: nat)
    requires e.Element? && i <= |e.kids|
    decreases i
    ensures NoneResolvable(e, index, i) ==> Unspliced(e, index, i, PassAfter(e, index, i))
    ensures !NoneResolvable(e, index, i) ==> Spliced(PassAfter(e, index, i))
  {
    if i > 0 {
      PassAfterShape(e, index, i - 1);
      if !NoneResolvable(e, index, i - 1) {
        SplicedStep(e, index, i);
        assert !NoneResolvable(e, index, i);
      } else if ReferenceOf(e.kids[i - 1], index).Some? {
        FirstSplice(e, index, i);
        assert !NoneResolvable(e, index, i);
      } else {
        UnsplicedStep(e, index, i);
        assert NoneResolvable(e, index, i);
      }
    }
  }

  /** A parent is rebuilt exactly when one of its original children is a
      placeholder to resolve: then it has lost its attributes and every
      child it keeps is an element; otherwise it keeps its attributes and
      each child, resolved in turn, stays where it was. */
  lemma ResolveElementParent(e: Node, index: map<string, Node>)
    requires e.Element?
    ensures var r := ResolveElement(e, index);
      ((exists k :: 0 <= k < |e.kids| && ReferenceOf(e.kids[k], index).Some?) ==>
        r.attrs == [] && forall k :: 0 <= k < |r.kids| ==> r.kids[k].Element?) &&
      ((forall k :: 0 <= k < |e.kids| ==> ReferenceOf(e.kids[k], index).None?) ==>
        r.attrs == e.attrs && |r.kids| == |e.kids| &&
        forall k :: 0 <= k < |e.kids| ==> r.kids[k] == ResolveElement(e.kids[k], index))
  {
    PassAfterShape(e, index, |e.kids|);
    var st := PassAfter(e, index, |e.kids|);
    if !NoneResolvable(e, index, |e.kids|) {
      forall k | 0 <= k < |st.slots| ensures st.slots[k].node.Element? {
        assert st.slots[k] in st.slots;
      }
    }
  }

  /** Original children keep their relative order among the children. */
  ghost predicate OriginsIncreasing(slots: seq<Slot>)
  {
    forall p, q :: 0 <= p < q < |slots| && slots[p].origin.Original? && slots[q].origin.Original? ==>
      slots[p].origin.index < slots[q].origin.index
  }

  lemma ElementSlotsIncreasing(slots: seq<Slot>)
    requires OriginsIncreasing(slots)
    ensures OriginsIncreasing(ElementSlots(slots))
  {
    var r := ElementSlots(slots);
    var K := ElementSlotsSelects(slots);
    forall a, b | 0 <= a < b < |r| && r[a].origin.Original? && r[b].origin.Original?
      ensures r[a].origin.index < r[b].origin.index
    {
      assert r[a] == slots[K[a]] && r[b] == slots[K[b]] && K[a] < K[b];
    }
  }

  /** Three stretches, the middle one of copies, with every original in the
      first below `n` and every original in the last above `n`. */
  lemma ConcatIncreasing(xs: seq<Slot>, cs: seq<Slot>, ys: seq<Slot>, n: nat)
    requires OriginsIncreasing(xs) && OriginsIncreasing(ys)
    requires forall c :: c in cs ==> c.origin == Copied
    requires forall x :: x in xs && x.origin.Original? ==> x.origin.index < n
    requires forall y :: y in ys && y.origin.Original? ==> n < y.origin.index
    ensures OriginsIncreasing(xs + cs + ys)
    ensures Original(n) !in OriginsOf(xs + cs + ys)
  {
    var s := xs + cs + ys;
    forall a | 0 <= a < |s|
      ensures a < |xs| ==> s[a] == xs[a]
      ensures |xs| <= a < |xs| + |cs| ==> s[a].origin == Copied
      ensures |xs| + |cs| <= a ==> s[a] == ys[a - |xs| - |cs|]
    {
      if |xs| <= a < |xs| + |cs| {
        assert s[a] == cs[a - |xs|];
      }
    }
    forall a, b | 0 <= a < b < |s| && s[a].origin.Original? && s[b].origin.Original?
      ensures s[a].origin.index < s[b].origin.index
    {
      if b < |xs| {
      } else if a < |xs| {
        assert s[a] in xs && s[b] in ys;
      }
    }
    forall x | x in s ensures x.origin != Original(n) {
      if x in xs {
      } else if x in cs {
      } else {
        assert x in ys;
      }
    }
  }

  /** Splicing at the original child `p` keeps the originals in order, drops
      `p` and brings in no other original. */
  lemma SpliceIncreasing(slots: seq<Slot>, p: nat, reference: Node)
    requires p < |slots| && OriginsIncreasing(slots) && slots[p].origin.Original?
    ensures OriginsIncreasing(SpliceChildren(slots, p, reference))
    ensures slots[p].origin !in OriginsOf(SpliceChildren(slots, p, reference))
    ensures forall x :: x in SpliceChildren(slots, p, reference) && x.origin.Original? ==> x in slots
  {
    var n := slots[p].origin.index;
    var before, after := slots[..p], slots[p + 1..];
    assert OriginsIncreasing(before) by {
      forall a, b | 0 <= a < b < |before| && before[a].origin.Original? && before[b].origin.Original?
        ensures before[a].origin.index < before[b].origin.index
      {
        assert before[a] == slots[a] && before[b] == slots[b];
      }
    }
    assert OriginsIncreasing(after) by {
      forall a, b | 0 <= a < b < |after| && after[a].origin.Original? && after[b].origin.Original?
        ensures after[a].origin.index < after[b].origin.index
      {
        assert after[a] == slots[a + p + 1] && after[b] == slots[b + p + 1];
      }
    }
    ElementSlotsIncreasing(before);
    ElementSlotsIncreasing(after);
    var xs, cs, ys := ElementSlots(before), CopiedSlots(reference), ElementSlots(after);
    forall x | x in xs && x.origin.Original? ensures x.origin.index < n && x in slots {
      assert x in before;
      var m :| 0 <= m < p && before[m] == x;
      assert slots[m] == x;
    }
    forall y | y in ys && y.origin.Original? ensures n < y.origin.index && y in slots {
      assert y in after;
      var m :| 0 <= m < |after| && after[m] == y;
      assert slots[m + p + 1] == y;
    }
    forall c | c in cs ensures c.origin == Copied {
      var m :| 0 <= m < |cs| && cs[m] == c;
    }
    ConcatIncreasing(xs, cs, ys, n);
    assert SpliceChildren(slots, p, reference) == xs + cs + ys;
  }

  lemma DedupIncreasing(s: seq<Slot>)
    requires OriginsIncreasing(s)
    ensures OriginsIncreasing(Dedup(s))
  {
    var K := DedupSelects(s);
  }

  /** The walk's view of the parent after its first `i` original children:
      originals in order, each untouched one still the original child. */
  ghost predicate Tracks(e: Node, i: nat, slots: seq<Slot>)
    requires e.Element?
  {
    OriginsIncreasing(slots) &&
    forall x :: x in slots && x.origin.Original? ==>
      x.origin.index < |e.kids| && (i <= x.origin.index ==> x.node == e.kids[x.origin.index])
  }

  /** Every placeholder to resolve among the first `i` original children is gone. */
  ghost predicate Gone(e: Node, index: map<string, Node>, i: nat, slots: seq<Slot>)
    requires e.Element? && i <= |e.kids|
  {
    forall k :: 0 <= k < i && ReferenceOf(e.kids[k], index).Some? ==> Original(k) !in OriginsOf(slots)
  }

  lemma SpliceKeepsTracks(e: Node, index: map<string, Node>, i: nat, slots: seq<Slot>, p: nat, reference: Node)
    requires e.Element? && 0 < i <= |e.kids| && p < |slots| && slots[p].origin == Original(i - 1)
    requires Tracks(e, i - 1, slots) && Gone(e, index, i - 1, slots)
    ensures Tracks(e, i, Dedup(SpliceChildren(slots, p, reference)))
    ensures Gone(e, index, i, Dedup(SpliceChildren(slots, p, reference)))
  {
    var s := SpliceChildren(slots, p, reference);
    SpliceIncreasing(slots, p, reference);
    DedupIncreasing(s);
    DedupSubset(s);
    forall x | x in Dedup(s) && x.origin.Original? ensures x in slots && x.origin != Original(i - 1) {
      assert x in s;
    }
  }

  lemma ReplaceKeepsTracks(e: Node, index: map<string, Node>, i: nat, slots: seq<Slot>, p: nat, y: Slot)
    requires e.Element? && 0 < i <= |e.kids| && p < |slots| && slots[p].origin == Original(i - 1)
    requires y.origin == Original(i - 1) && ReferenceOf(e.kids[i - 1], index).None?
    requires Tracks(e, i - 1, slots) && Gone(e, index, i - 1, slots)
    ensures Tracks(e, i, slots[p := y]) && Gone(e, index, i, slots[p := y])
  {
    var slots' := slots[p := y];
    assert OriginsIncreasing(slots') by {
      forall a, b | 0 <= a < b < |slots'| && slots'[a].origin.Original? && slots'[b].origin.Original?
        ensures slots'[a].origin.index < slots'[b].origin.index
      {
        assert slots'[a].origin == slots[a].origin && slots'[b].origin == slots[b].origin;
      }
    }
    forall x | x in slots' && x.origin.Original?
      ensures x.origin.index < |e.kids| && (i <= x.origin.index ==> x.node == e.kids[x.origin.index])
    {
      var q :| 0 <= q < |slots'| && slots'[q] == x;
      if q != p {
        assert slots[q] in slots;
      }
    }
    forall x | x in slots' ensures x.origin in OriginsOf(slots) {
      var q :| 0 <= q < |slots'| && slots'[q] == x;
      assert slots[q].origin == x.origin && slots[q] in slots;
    }
  }

  lemma TracksStep(e: Node, index: map<string, Node>, i: nat)
    requires e.Element? && 0 < i <= |e.kids|
    requires Tracks(e, i - 1, PassAfter(e, index, i - 1).slots)
    requires Gone(e, index, i - 1, PassAfter(e, index, i - 1).slots)
    ensures Tracks(e, i, PassAfter(e, index, i).slots)
    ensures Gone(e, index, i, PassAfter(e, index, i).slots)
  {
    var st := PassAfter(e, index, i - 1);
    var kid := e.kids[i - 1];
    match Locate(st.slots, i - 1)
    case None =>
    case Some(p) =>
      if ReferenceOf(kid, index).Some? {
        SpliceKeepsTracks(e, index, i, st.slots, p, ReferenceOf(kid, index).value);
      } else if kid.Element? {
        ReplaceKeepsTracks(e, index, i, st.slots, p, Slot(ResolveElement(kid, index), Original(i - 1)));
      }
  }

  lemma {:induction false} PassAfterTracks(e: Node, index: map<string, Node>, i: nat)
    requires e.Element? && i <= |e.kids|
    decreases i
    ensures Tracks(e, i, PassAfter(e, index, i).slots)
    ensures Gone(e, index, i, PassAfter(e, index, i).slots)
  {
    if i == 0 {
      var slots := InitialSlots(e.kids);
      forall x | x in slots && x.origin.Original?
        ensures x.origin.index < |e.kids| && x.node == e.kids[x.origin.index]
      {
        var q :| 0 <= q < |slots| && slots[q] == x;
      }
    } else {
      PassAfterTracks(e, index, i - 1);
      TracksStep(e, index, i);
    }
  }

  /** The child the walk finds for original position `i` is still the
      original child at `i`: nothing has changed it before the walk reaches it. */
  lemma LocatedIsOriginal(e: Node, index: map<string, Node>, i: nat)
    requires e.Element? && i < |e.kids|
    requires Locate(PassAfter(e, index, i).slots, i).Some?
    ensures PassAfter(e, index, i).slots[Locate(PassAfter(e, index, i).slots, i).value].node == e.kids[i]
  {
    PassAfterTracks(e, index, i);
    var slots := PassAfter(e, index, i).slots;
    assert slots[Locate(slots, i).value] in slots;
  }

  /** Once the walk is over, no placeholder that was resolved is still a
      child of its parent, and the original children that remain are in
      their original relative order. */
  lemma ResolvedPlaceholdersRemoved(e: Node, index: map<string, Node>)
    requires e.Element?
    ensures var slots := PassAfter(e, index, |e.kids|).slots;
      OriginsIncreasing(slots) &&
      forall k :: 0 <= k < |e.kids| && ReferenceOf(e.kids[k], index).Some? ==>
        Original(k) !in OriginsOf(slots)
  {
    PassAfterTracks(e, index, |e.kids|);
  }

  lemma NodesConcat(a: seq<Slot>, b: seq<Slot>)
    ensures Nodes(a + b) == Nodes(a) + Nodes(b)
  {
    assert forall k :: 0 <= k < |a + b| ==> Nodes(a + b)[k] == (Nodes(a) + Nodes(b))[k];
  }

  // The children of the splice example: A, the placeholder, B, and the
  // referenced member `M:X` with its children P and Q.
  const ExA := Element("summary", [], [])
  const ExPlaceholder := Element(InheritDocTag, [Attribute(CrefAttribute, "M:X")], [])
  const ExB := Element("returns", [], [])
  const ExP := Element("param", [Attribute("name", "x")], [])
  const ExQ := Element("remarks", [], [])
  const ExMember := Element("member", [Attribute("name", "M:X")], [ExP, ExQ])
  const ExParent := Element("member", [Attribute("name", "M:Y")], [ExA, ExPlaceholder, ExB])
  const ExSpliced := [Slot(ExA, Original(0)), Slot(ExP, Copied), Slot(ExQ, Copied), Slot(ExB, Original(2))]

  lemma ExampleFirstChild()
    ensures PassAfter(ExParent, map["M:X" := ExMember], 1) == Pass(ExParent.attrs, InitialSlots(ExParent.kids))
  {
    var index := map["M:X" := ExMember];
    var s0 := InitialSlots(ExParent.kids);
    assert Locate(s0, 0) == Some(0) by { assert s0[0] in s0; }
    assert ResolveElement(ExA, index) == ExA by {
      assert PassAfter(ExA, index, 0) == Pass([], []);
    }
    assert s0[0 := Slot(ExA, Original(0))] == s0;
  }

  lemma ExampleSplice()
    ensures PassAfter(ExParent, map["M:X" := ExMember], 2) == Pass([], ExSpliced)
  {
    var index := map["M:X" := ExMember];
    var s0 := InitialSlots(ExParent.kids);
    ExampleFirstChild();
    assert Locate(s0, 1) == Some(1) by { assert s0[1] in s0; }
    assert ReferenceOf(ExPlaceholder, index) == Some(ExMember);
    ExampleSpliceChildren();
    ExampleNoDuplicates();
  }

  /** The new children of the example parent, before duplicate removal. */
  lemma ExampleSpliceChildren()
    ensures SpliceChildren(InitialSlots(ExParent.kids), 1, ExMember) == ExSpliced
  {
    var s0 := InitialSlots(ExParent.kids);
    assert s0[..1] == [Slot(ExA, Original(0))];
    assert s0[2..] == [Slot(ExB, Original(2))];
    assert Elements(ExMember.kids) == [ExP, ExQ];
    assert CopiedSlots(ExMember) == [Slot(ExP, Copied), Slot(ExQ, Copied)];
  }

  /** The spliced children have four different names, so none is removed. */
  lemma ExampleNoDuplicates()
    ensures Dedup(ExSpliced) == ExSpliced
  {
    forall k | 0 <= k < 4 ensures !Dominated(ExSpliced, k) {
      assert forall j :: k < j < 4 ==> ExSpliced[j].node.name != ExSpliced[k].node.name;
    }
    DedupUnchangedIff(ExSpliced);
  }

  /** The last original child is found after the copies, and is a leaf that
      resolves to itself. */
  lemma ExampleLastChildInPlace()
    ensures Locate(ExSpliced, 2) == Some(3)
    ensures ResolveElement(ExB, map["M:X" := ExMember]) == ExB
    ensures ReferenceOf(ExB, map["M:X" := ExMember]).None?
    ensures ExSpliced[3 := Slot(ExB, Original(2))] == ExSpliced
  {
    var index := map["M:X" := ExMember];
    assert Locate(ExSpliced, 2) == Some(3) by { assert ExSpliced[3] in ExSpliced; }
    assert PassAfter(ExB, index, 0) == Pass([], []);
  }

  lemma ExampleLastChild()
    ensures PassAfter(ExParent, map["M:X" := ExMember], 3) == Pass([], ExSpliced)
  {
    ExampleSplice();
    ExampleLastChildInPlace();
    assert ExParent.kids[2] == ExB;
  }

  /** `[A, <inheritdoc cref="M:X"/>, B]`, with member `M:X` holding `[P, Q]`,
      becomes `[A, P, Q, B]`, and the parent loses its attributes. */
  lemma SpliceExample()
    ensures ResolveElement(ExParent, map["M:X" := ExMember]) == Element("member", [], [ExA, ExP, ExQ, ExB])
  {
    var index := map["M:X" := ExMember];
    ExampleLastChild();
    assert ResolveElement(ExParent, index) == Element("member", [], Nodes(ExSpliced));
    assert Nodes(ExSpliced) == [ExA, ExP, ExQ, ExB];
  }

  /** Resolving twice is not resolving once: a placeholder copied in from a
      member is not on the walk, so it is left for a second run to resolve. */
  lemma ResolveNotIdempotent()
    ensures
      var index := map[
        "M:A" := Element("member", [Attribute("name", "M:A")], [Element(InheritDocTag, [Attribute(CrefAttribute, "M:B")], [])]),
        "M:B" := Element("member", [Attribute("name", "M:B")], [Element("remarks", [], [])])];
      var root := Element("doc", [], [Element(InheritDocTag, [Attribute(CrefAttribute, "M:A")], [])]);
      Resolve(root, index) == Success(Element("doc", [], [Element(InheritDocTag, [Attribute(CrefAttribute, "M:B")], [])])) &&
      Resolve(Resolve(root, index).value, index) == Success(Element("doc", [], [Element("remarks", [], [])]))
  {
    var phA, phB := Element(InheritDocTag, [Attribute(CrefAttribute, "M:A")], []), Element(InheritDocTag, [Attribute(CrefAttribute, "M:B")], []);
    var remarks := Element("remarks", [], []);
    var mA, mB := Element("member", [Attribute("name", "M:A")], [phB]), Element("member", [Attribute("name", "M:B")], [remarks]);
    var index := map["M:A" := mA, "M:B" := mB];
    var root := Element("doc", [], [phA]);
    var once := Element("doc", [], [phB]);
    assert ReferenceOf(root, index).None?;
    assert ResolveElement(root, index) == once by {
      var s0 := InitialSlots(root.kids);
      assert Locate(s0, 0) == Some(0) by { assert s0[0] in s0; }
      assert ReferenceOf(phA, index) == Some(mA);
      assert SpliceChildren(s0, 0, mA) == [Slot(phB, Copied)] by {
        assert Elements(mA.kids) == [phB];
      }
      assert Dedup([Slot(phB, Copied)]) == [Slot(phB, Copied)] by {
        DedupUnchangedIff([Slot(phB, Copied)]);
      }
      assert PassAfter(root, index, 1) == Pass([], [Slot(phB, Copied)]);
    }
    assert ReferenceOf(once, index).None?;
    assert ResolveElement(once, index) == Element("doc", [], [remarks]) by {
      var s0 := InitialSlots(once.kids);
      assert Locate(s0, 0) == Some(0) by { assert s0[0] in s0; }
      assert ReferenceOf(phB, index) == Some(mB);
      assert SpliceChildren(s0, 0, mB) == [Slot(remarks, Copied)] by {
        assert Elements(mB.kids) == [remarks];
      }
      assert Dedup([Slot(remarks, Copied)]) == [Slot(remarks, Copied)] by {
        DedupUnchangedIff([Slot(remarks, Copied)]);
      }
      assert PassAfter(once, index, 1) == Pass([], [Slot(remarks, Copied)]);
    }
  }

  const SibSummary := Element("summary", [], [])
  const SibRemarks := Element("remarks", [], [])
  const SibReturns := Element("returns", [], [])
  const SibA := Element(InheritDocTag, [Attribute(CrefAttribute, "M:A")], [])
  const SibB := Element(InheritDocTag, [Attribute(CrefAttribute, "M:B")], [])
  const SibC := Element(InheritDocTag, [Attribute(CrefAttribute, "M:C")], [])
  const SibMemberA := Element("member", [Attribute("name", "M:A")], [SibSummary])
  const SibMemberC := Element("member", [Attribute("name", "M:C")], [SibReturns])
  const SibIndex := map[
    "M:A" := SibMemberA,
    "M:B" := Element("member", [Attribute("name", "M:B")], [SibRemarks]),
    "M:C" := SibMemberC]
  const SibParent := Element("doc", [], [SibA, SibB, SibC])
  const SibAfterFirst := [Slot(SibSummary, Copied), Slot(SibC, Original(2))]

  /** The first splice: the placeholder for `M:B` corresponds to the later one
      for `M:C` (same tag, same attribute names), so duplicate removal drops it. */
  lemma SiblingFirstSplice()
    ensures PassAfter(SibParent, SibIndex, 1) == Pass([], SibAfterFirst)
  {
    var s0 := InitialSlots(SibParent.kids);
    assert Locate(s0, 0) == Some(0) by { assert s0[0] in s0; }
    assert ReferenceOf(SibA, SibIndex) == Some(SibMemberA);
    var spliced := [Slot(SibSummary, Copied), Slot(SibB, Original(1)), Slot(SibC, Original(2))];
    assert SpliceChildren(s0, 0, SibMemberA) == spliced by {
      assert s0[1..] == [Slot(SibB, Original(1)), Slot(SibC, Original(2))];
      assert Elements(SibMemberA.kids) == [SibSummary];
    }
    assert Dedup(spliced) == SibAfterFirst by {
      assert Corresponds(SibB, SibC) by {
        CorrespondsMeaning(SibB, SibC);
        assert AttributeNames(SibB.attrs) == AttributeNames(SibC.attrs);
      }
      assert spliced[1].node == SibB && spliced[2].node == SibC;
      assert Dominated(spliced, 1);
      assert !Dominated(spliced, 0) by {
        assert forall j :: 0 < j < 3 ==> spliced[j].node.name != spliced[0].node.name;
      }
      assert DedupFrom(spliced, 2) == [spliced[2]] + DedupFrom(spliced, 3);
      assert DedupFrom(spliced, 1) == DedupFrom(spliced, 2);
    }
  }

  /** The placeholder for `M:B` is no longer attached, so the walk passes it by. */
  lemma SiblingMiddlePassed()
    ensures PassAfter(SibParent, SibIndex, 2) == Pass([], SibAfterFirst)
  {
    SiblingFirstSplice();
    assert Locate(SibAfterFirst, 1).None?;
  }

  /** The second splice, at the placeholder for `M:C`, keeps both children. */
  lemma SiblingSecondSpliceChildren()
    ensures Dedup(SpliceChildren(SibAfterFirst, 1, SibMemberC)) == [Slot(SibSummary, Copied), Slot(SibReturns, Copied)]
  {
    var spliced := [Slot(SibSummary, Copied), Slot(SibReturns, Copied)];
    assert SpliceChildren(SibAfterFirst, 1, SibMemberC) == spliced by {
      assert SibAfterFirst[..1] == [Slot(SibSummary, Copied)];
      assert SibAfterFirst[2..] == [];
      assert Elements(SibMemberC.kids) == [SibReturns];
    }
    assert !Dominated(spliced, 0);
    DedupUnchangedIff(spliced);
  }

  /** The placeholder for `M:C`, now second, is spliced last. */
  lemma SiblingLastSplice()
    ensures PassAfter(SibParent, SibIndex, 3) == Pass([], [Slot(SibSummary, Copied), Slot(SibReturns, Copied)])
  {
    SiblingMiddlePassed();
    SiblingSecondSpliceChildren();
    assert Locate(SibAfterFirst, 2) == Some(1) by { assert SibAfterFirst[1] in SibAfterFirst; }
    assert SibParent.kids[2] == SibC && ReferenceOf(SibC, SibIndex) == Some(SibMemberC);
  }

  /** Sibling placeholders shadow one another: of `[inheritdoc(M:A),
      inheritdoc(M:B), inheritdoc(M:C)]` the first splice leaves the middle
      placeholder as a duplicate of the last, so `M:B`'s children never
      appear. */
  lemma SiblingPlaceholderLost()
    ensures Resolve(SibParent, SibIndex) == Success(Element("doc", [], [SibSummary, SibReturns]))
  {
    SiblingLastSplice();
    assert Nodes([Slot(SibSummary, Copied), Slot(SibReturns, Copied)]) == [SibSummary, SibReturns];
  }

  const LocalParam := Element("param", [Attribute("name", "x")], [Text("local")])
  const InheritedParam := Element("param", [Attribute("name", "x")], [Text("inherited")])
  const ParamPlaceholder := Element(InheritDocTag, [Attribute(CrefAttribute, "M:X")], [])
  const ParamMember := Element("member", [Attribute("name", "M:X")], [InheritedParam])
  const ParamParent := Element("member", [Attribute("name", "M:Y")], [LocalParam, ParamPlaceholder])

  /** The local `param` is passed by the walk unchanged. */
  lemma LocalParamKept()
    ensures PassAfter(ParamParent, map["M:X" := ParamMember], 1) == Pass(ParamParent.attrs, InitialSlots(ParamParent.kids))
  {
    var index := map["M:X" := ParamMember];
    var s0 := InitialSlots(ParamParent.kids);
    assert Locate(s0, 0) == Some(0) by { assert s0[0] in s0; }
    assert ResolveElement(LocalParam, index) == LocalParam by {
      var t0 := InitialSlots(LocalParam.kids);
      assert Locate(t0, 0) == Some(0) by { assert t0[0] in t0; }
      assert PassAfter(LocalParam, index, 1) == Pass(LocalParam.attrs, t0);
    }
    assert s0[0 := Slot(LocalParam, Original(0))] == s0;
  }

  /** The splice at the placeholder: the local `param` corresponds to the
      inherited one after it, so duplicate removal drops it. */
  lemma InheritedParamSplice()
    ensures Dedup(SpliceChildren(InitialSlots(ParamParent.kids), 1, ParamMember)) == [Slot(InheritedParam, Copied)]
  {
    var s0 := InitialSlots(ParamParent.kids);
    var spliced := [Slot(LocalParam, Original(0)), Slot(InheritedParam, Copied)];
    assert SpliceChildren(s0, 1, ParamMember) == spliced by {
      assert s0[..1] == [Slot(LocalParam, Original(0))];
      assert s0[2..] == [];
      assert Elements(ParamMember.kids) == [InheritedParam];
    }
    assert Corresponds(LocalParam, InheritedParam) by {
      CorrespondsMeaning(LocalParam, InheritedParam);
      assert AttributeNames(LocalParam.attrs) == AttributeNames(InheritedParam.attrs);
    }
    assert spliced[0].node == LocalParam && spliced[1].node == InheritedParam;
    assert Dominated(spliced, 0);
    assert DedupFrom(spliced, 1) == [spliced[1]] + DedupFrom(spliced, 2);
  }

  lemma InheritedParamWalk()
    ensures PassAfter(ParamParent, map["M:X" := ParamMember], 2) == Pass([], [Slot(InheritedParam, Copied)])
  {
    var index := map["M:X" := ParamMember];
    var s0 := InitialSlots(ParamParent.kids);
    LocalParamKept();
    InheritedParamSplice();
    assert Locate(s0, 1) == Some(1) by { assert s0[1] in s0; }
    assert ParamParent.kids[1] == ParamPlaceholder && ReferenceOf(ParamPlaceholder, index) == Some(ParamMember);
  }

  /** A new child that corresponds to a later one is dropped even when it
      was there before the splice: a local `param` gives way to the
      inherited `param` of the same kind, whatever their contents. */
  lemma InheritedParamWins()
    ensures Resolve(ParamParent, map["M:X" := ParamMember]) == Success(Element("member", [], [InheritedParam]))
  {
    var index := map["M:X" := ParamMember];
    InheritedParamWalk();
    assert ReferenceOf(ParamParent, index).None?;
    assert |ParamParent.kids| == 2;
    assert Nodes([Slot(InheritedParam, Copied)]) == [InheritedParam];
  }
}
