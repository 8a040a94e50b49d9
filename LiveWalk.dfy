/**
 * `Process` of Documentor/Program.cs as LINQ to XML runs it. The loop
 * enumerates `root.DescendantsAndSelf()` lazily. Up to the first placeholder
 * to resolve nothing changes, so the enumeration is that of the tree as given.
 * At that placeholder the splice runs: `parent.RemoveAll()` detaches the
 * placeholder, and the next step of the enumerator climbs from it through its
 * missing parent, which throws. A placeholder at the root has no parent, and
 * `parent.RemoveAll()` throws at once. The rest of the model uses the walk
 * that goes on past the splice instead (`Resolver.Process`).
 */
module LiveWalk {
  import opened Wrappers
  import opened XmlTree
  import opened Resolver
  import opened ResolverProperties

  /** The position, from `from` on, of the first node of `ds` to resolve. */
  function FirstToResolve(ds: seq<Node>, index: map<string, Node>, from: nat): (r: Option<nat>)
    requires from <= |ds|
    decreases |ds| - from
    ensures r.Some? ==>
      from <= r.value < |ds| && ReferenceOf(ds[r.value], index).Some? &&
      forall j :: from <= j < r.value ==> ReferenceOf(ds[j], index).None?
    ensures r.None? ==> forall j :: from <= j < |ds| ==> ReferenceOf(ds[j], index).None?
  {
    if from == |ds| then None
    else if ReferenceOf(ds[from], index).Some? then Some(from)
    else FirstToResolve(ds, index, from + 1)
  }

  /** The outcome of `Process` as written, by where the enumeration meets the
      first placeholder to resolve. */
  function AsWrittenOutcome(root: Node, index: map<string, Node>): Result<Node, ResolveError>
  {
    match FirstToResolve(DescendantsAndSelf(root), index, 0)
    case None => Success(root)
    case Some(k) => if k == 0 then Failure(PlaceholderIsRoot) else Failure(DetachedPlaceholder)
  }

  /** The loop of line 26 as LINQ to XML runs it: it goes through the
      descendants in document order until the first placeholder to resolve,
      and fails there; a tree without one is saved unchanged. */
  method ProcessAsWritten(root: Node, index: map<string, Node>) returns (r: Result<Node, ResolveError>)
    requires root.Element?
    ensures r == AsWrittenOutcome(root, index)
    ensures r.Success? <==> Untouched(root, index)
    ensures r.Success? ==> r.value == root
    ensures r == Failure(PlaceholderIsRoot) <==> ReferenceOf(root, index).Some?
    ensures r.Failure? && ReferenceOf(root, index).None? ==> r.error == DetachedPlaceholder
  {
    var ds := DescendantsAndSelf(root);
    var k := 0;
    while k < |ds|
      invariant k <= |ds|
      invariant forall j :: 0 <= j < k ==> ReferenceOf(ds[j], index).None?
    {
      if ReferenceOf(ds[k], index).Some? {
        assert FirstToResolve(ds, index, 0) == Some(k);
        if k == 0 {
          // The root has no parent: `parent.RemoveAll()` throws.
          return Failure(PlaceholderIsRoot);
        }
        // The splice runs and detaches `ds[k]`; the enumerator's next step throws.
        return Failure(DetachedPlaceholder);
      }
      k := k + 1;
    }
    return Success(root);
  }

  /** Where the code as written gets through, it agrees with the walk that
      goes on past each splice; both fail on a root that is a placeholder. */
  lemma ProcessAsWrittenAgrees(root: Node, index: map<string, Node>)
    requires root.Element?
    ensures AsWrittenOutcome(root, index).Success? ==> AsWrittenOutcome(root, index) == Resolve(root, index)
    ensures AsWrittenOutcome(root, index) == Failure(PlaceholderIsRoot) <==> Resolve(root, index).Failure?
  {
    var ds := DescendantsAndSelf(root);
    var first := FirstToResolve(ds, index, 0);
    if first.None? {
      forall d | d in ds ensures ReferenceOf(d, index).None? {
        var j :| 0 <= j < |ds| && ds[j] == d;
      }
      ResolveWithoutPlaceholders(root, index);
    }
  }

  /** `[A, inheritdoc(M:X), B]` with member `M:X` holding `[P, Q]`: the code
      as written throws after the splice, so nothing is saved, while the
      walk that goes on yields `[A, P, Q, B]`. */
  lemma ProcessAsWrittenDropsSplice()
    ensures AsWrittenOutcome(ExParent, map["M:X" := ExMember]) == Failure(DetachedPlaceholder)
    ensures Resolve(ExParent, map["M:X" := ExMember]) == Success(Element("member", [], [ExA, ExP, ExQ, ExB]))
  {
    var index := map["M:X" := ExMember];
    var ds := DescendantsAndSelf(ExParent);
    assert ds[0] == ExParent;
    assert ReferenceOf(ExParent, index).None?;
    assert ExParent.kids[1] == ExPlaceholder && ExPlaceholder in DescendantsAndSelf(ExPlaceholder);
    DescendantsOfKid(ExParent, 1);
    assert ReferenceOf(ExPlaceholder, index).Some?;
    assert FirstToResolve(ds, index, 0).Some?;
    SpliceExample();
  }
}
