/**
 * `Main` of Documentor/Program.cs, without file discovery, loading and
 * saving: one index over the documentation roots and then the reference
 * roots, then `Process` on each documentation root in turn. An exception
 * ends the run, so the roots saved are those handled before it.
 */
module Program {
  import opened Wrappers
  import opened XmlTree
  import opened MemberIndex
  import opened Resolver

  datatype RunError =
    | IndexFailed(indexError: IndexError)
    | ResolveFailed(document: nat, resolveError: ResolveError)

  /** `saved` holds, in order, the rewritten roots that `root.Save(path)`
      would write before the run ends; `error` is what ended it early. */
  method Run(documents: seq<Node>, references: seq<Node>) returns (saved: seq<Node>, error: Option<RunError>)
    requires forall k :: 0 <= k < |documents| ==> documents[k].Element?
    ensures BuildIndex(documents, references).Failure? ==>
      saved == [] && error == Some(IndexFailed(BuildIndex(documents, references).error))
    ensures BuildIndex(documents, references).Success? ==>
      var index := BuildIndex(documents, references).value;
      |saved| <= |documents| &&
      (forall k :: 0 <= k < |saved| ==> Resolve(documents[k], index) == Success(saved[k])) &&
      (error.None? <==> |saved| == |documents|) &&
      (error.Some? ==>
        error == Some(ResolveFailed(|saved|, PlaceholderIsRoot)) &&
        Resolve(documents[|saved|], index).Failure?)
  {
    var built := BuildIndex(documents, references);
    if built.Failure? {
      return [], Some(IndexFailed(built.error));
    }
    var index := built.value;
    saved, error := [], None;
    var i := 0;
    while i < |documents|
      invariant 0 <= i <= |documents| && |saved| == i
      invariant forall k :: 0 <= k < i ==> Resolve(documents[k], index) == Success(saved[k])
    {
      var r := Process(documents[i], index);
      if r.Failure? {
        return saved, Some(ResolveFailed(i, r.error));
      }
      saved := saved + [r.value];
      i := i + 1;
    }
  }
}
