# Documentor: resolving `<inheritdoc>` in XML documentation

Documentor rewrites the XML documentation files that the C# compiler produces.
It replaces `<inheritdoc cref="..."/>` placeholders by copying in the
children of the `<member>` that the `cref` names. This project models the
logic of `Documentor/Program.cs` in Dafny and proves properties of the model:

- **Member index** (`MemberIndex`). Every `member` element of the
  documentation roots and then the reference roots is visited depth-first, in
  document order. The index maps each member's `name` to the member. As in
  `ToDictionary`, building the index fails on a member without `name` or on a
  name seen twice.
- **Correspondence** (`Correspondence`). Two elements correspond when they
  have the same name and every attribute *name* of the first is also on the
  second. Attribute values and children are never compared.
- **Splice** (`Resolver`). An `inheritdoc` whose `cref` is an index key is
  replaced in its parent. The new children are the parent's element children
  before the placeholder, then the member's element children, then the
  parent's element children after it. The parent loses its attributes and its
  non-element children, and duplicate removal runs.
- **Duplicate removal** (`Duplicates`). A child is dropped when a later
  element sibling corresponds to it.
- **The run** (`Program`). One index is built, then each documentation root is
  processed in turn. An exception ends the run.

XML trees are values: `Node = Element(name, attrs, kids) | Text(value)`.
`Text` stands for every non-element node, such as text or a comment. The walk
needs to know which children are the same objects. A `Slot` records this: it
pairs a child with its origin, either its original position among the
parent's children or `Copied` for a child copied from a member.

The model's walk over `DescendantsAndSelf()` (line 26) follows the evident
intent (see below for the code as written): it visits the tree as it was
before any change, in document order, and skips a node that is no longer
attached; so it resolves every placeholder still attached when the walk
reaches it. A splice only rewrites one parent's child list, and duplicate
removal only removes children. So the walk is modelled one parent at a time:
`ProcessElement` goes through the parent's original children in order and
descends into each child as soon as it reaches it. The function `PassAfter`
gives the parent's state after its first `i` original children, and
`ProcessElement` is proved equal to that function.

In three places the model follows the code where a more forgiving rule would
be easy to assume:

- A duplicate or missing member `name` makes building the index fail. A later
  member with the same name does not replace an earlier one, and members with
  a blank name are not filtered out.
- A root that is itself a placeholder to resolve has no parent. Line 35 then
  throws, so `Resolve` returns `Failure(PlaceholderIsRoot)`; the root is not
  left unchanged.
- Duplicate removal after a splice also applies to placeholders that are still
  waiting (see `SiblingPlaceholderLost` below).

In two places the code as written changes a tree while a live LINQ to XML
enumeration walks it, and the enumeration then stops early. There the model
follows the evident intent, models the code as written beside it, and records
the difference under "## Findings":

- The walk of line 26. Once the first splice has detached the placeholder,
  the `DescendantsAndSelf()` enumerator climbs from it through its missing
  parent and throws. `LiveWalk.ProcessAsWritten` models that; `Resolver`
  goes on and resolves every placeholder still attached when the walk
  reaches it.
- The duplicate loop of line 46. Removing a child ends the enumeration of
  `parent.Elements()`, so at most one child goes.
  `Duplicates.RemoveFirstDuplicate` models that; `Duplicates.Dedup` removes
  every child that has a later corresponding sibling.

Four consequences of the code are worth knowing:

- Resolution is not idempotent (`ResolverProperties.ResolveNotIdempotent`).
  A placeholder copied in from a member is not on the walk, so a second run
  resolves it.
- Attribute values are never compared (`Duplicates.ParamsCollapse`). Two
  `param` elements with different `name` values correspond, so after a splice
  only the last `param` of a parent survives.
- Sibling placeholders shadow one another
  (`ResolverProperties.SiblingPlaceholderLost`). Two `inheritdoc` elements
  with a `cref` correspond whatever the `cref` values are. So in
  `[inheritdoc(M:A), inheritdoc(M:B), inheritdoc(M:C)]` the first splice
  removes the waiting `inheritdoc(M:B)` as a duplicate of `inheritdoc(M:C)`,
  and `M:B`'s children never appear.
- An inherited child replaces a local one of the same kind
  (`ResolverProperties.InheritedParamWins`). Duplicate removal after a splice
  keeps the later of two corresponding children, so in
  `[param(name=x) "local", inheritdoc(M:X)]`, with `M:X` holding
  `[param(name=x) "inherited"]`, only the inherited `param` remains.

## Model

| member | source | states |
|---|---|---|
| XmlTree.FindAttribute | Documentor/Program.cs:71 | `Attribute(name)` finds an attribute exactly when one of that name is present, and the one it finds has that name |
| XmlTree.Elements | Documentor/Program.cs:32 | `Elements()` returns only element children, each of them a child of the node, and every child when all of them are elements |
| XmlTree.ElementsSelects | Documentor/Program.cs:32 | `Elements()` is the children at strictly increasing positions, in document order, and takes a child exactly when it is an element, so every element child is kept |
| XmlTree.DescendantsAndSelf | Documentor/Program.cs:18 | the enumeration yields only elements, starts with the element itself, and is empty for a non-element |
| Correspondence.CorrespondsMeaning | Documentor/Program.cs:65-79 | `Corresponds(a, b)` holds exactly when the names are equal and every attribute name of `a` is an attribute name of `b`, that is, when `AttributeCorresponds` finds each of `a`'s attributes on `b` |
| Correspondence.CorrespondsReflexive | Documentor/Program.cs:67 | every element corresponds to itself, which is all the identity short-circuits at lines 67 and 76 add |
| Correspondence.CorrespondsTransitive | Documentor/Program.cs:65-79 | correspondence is transitive |
| Correspondence.CorrespondsIgnoresValuesAndContent | Documentor/Program.cs:69-78 | changing attribute values or children never changes correspondence |
| Correspondence.CorrespondsNotSymmetric | Documentor/Program.cs:71 | an element without attributes corresponds to one with attributes, but not the other way round |
| MemberIndex.NameOf | Documentor/Program.cs:20 | a node has a `name` value exactly when it is an element with a `name` attribute, and the value is that attribute's |
| MemberIndex.FilterMembers | Documentor/Program.cs:19 | the selection holds exactly the visited elements named `member` |
| MemberIndex.FilterMembersSelects | Documentor/Program.cs:19 | `.Where` keeps every occurrence of a `member` element once and in order: the result is the visited nodes at strictly increasing positions, and a position is kept exactly when its node is an element named `member` |
| MemberIndex.ToDictionarySucceeds | Documentor/Program.cs:20 | the `ToDictionary` fold succeeds exactly when every member has a `name` and no two members share one, and then it maps each member's name to that member and holds no other key |
| MemberIndex.ToDictionaryErrors | Documentor/Program.cs:20 | a `MissingName(p)` failure points at a member without `name`; a `DuplicateName(k)` failure means two members are named `k` |
| MemberIndex.BuildIndexFailsIff | Documentor/Program.cs:17-20 | building the index fails exactly when some member lacks `name` or two members share a name, so no entry is ever overwritten |
| MemberIndex.BuildIndexEntries | Documentor/Program.cs:17-20 | each entry maps `k` to a `member` element from the documentation or reference roots whose `name` is `k` |
| MemberIndex.BuildIndexComplete | Documentor/Program.cs:17-20 | every `member` element of every documentation or reference root is the entry for its name |
| Duplicates.HasLaterCorrespondent | Documentor/Program.cs:48-54 | the inner loop finds a later element sibling that the child corresponds to exactly when the child is dominated |
| Duplicates.RemoveDuplicates | Documentor/Program.cs:44-57 | the nested loops compute `Dedup`: each element child, front to back, is removed when a later element sibling corresponds to it |
| Duplicates.DedupSelects | Documentor/Program.cs:44-57 | duplicate removal only removes: the result is the children at strictly increasing positions, and a child is left out exactly when a later element sibling corresponds to it |
| Duplicates.DedupSubset | Documentor/Program.cs:52 | every surviving child was a child before |
| Duplicates.DedupKeepsLast | Documentor/Program.cs:48 | the last child is never removed |
| Duplicates.DedupUnchangedIff | Documentor/Program.cs:46-55 | the children are unchanged exactly when no child corresponds to a later element sibling |
| Duplicates.DedupLeavesNoDuplicate | Documentor/Program.cs:44-57 | afterwards no child corresponds to a later element sibling |
| Duplicates.DedupIdempotent | Documentor/Program.cs:44-57 | removing duplicates again changes nothing |
| Duplicates.ParamsCollapse | Documentor/Program.cs:50 | of two `param` elements with any `name` values and any children, only the second survives |
| Duplicates.FirstDominated | Documentor/Program.cs:46-53 | finds the first child from a given position that has a later corresponding element sibling, or reports that none has one |
| Duplicates.RemoveFirstDuplicate | Documentor/Program.cs:46-53 | the loop as LINQ to XML runs it removes nothing exactly when no child is dominated, and otherwise removes exactly the first dominated child and keeps the rest in order |
| Duplicates.FirstDuplicateOnlyLeavesDuplicate | Documentor/Program.cs:46-53 | with children `[x, x, y, y]` the single removal leaves a duplicate pair, while `Dedup` leaves `[x, y]` |
| Resolver.InitialSlots | Documentor/Program.cs:26 | before the walk each child is its own original, in place |
| Resolver.Locate | Documentor/Program.cs:26 | finds original child `i` among the current children exactly when it is still attached |
| Resolver.ReferenceOfMeaning | Documentor/Program.cs:28 | a node is resolved exactly when it is an `inheritdoc` element with a `cref` attribute whose value is an index key, and the member found is the index entry for that value |
| Resolver.ElementSlots | Documentor/Program.cs:31-33 | `ElementsBeforeSelf()` / `ElementsAfterSelf()` keep only element children, taken from the given stretch, and every child when all of them are elements |
| Resolver.ElementSlotsSelects | Documentor/Program.cs:31-33 | the stretch's children kept are at strictly increasing positions and are exactly its element children, so as nodes they are `Elements()` of the stretch |
| Resolver.CopiedSlots | Documentor/Program.cs:32 | the member's element children, in order, added as copies |
| Resolver.ProcessElement | Documentor/Program.cs:24-40 | the walk over an element's original children computes `ResolveElement`, step by step the state `PassAfter` gives |
| Resolver.Process | Documentor/Program.cs:24-40 | `Process` computes `Resolve`, and fails exactly when the root is itself a placeholder to resolve |
| ResolverProperties.ResolveWithoutPlaceholders | Documentor/Program.cs:26-28 | a tree in which no `inheritdoc` has a `cref` that is an index key comes back unchanged |
| ResolverProperties.ResolveElementParent | Documentor/Program.cs:28-36 | a parent with a placeholder child to resolve ends with no attributes and only element children; a parent without one keeps its attributes and has each child resolved in place |
| ResolverProperties.LocatedIsOriginal | Documentor/Program.cs:26-28 | the child the walk finds for original position `i` is still the original child at `i` |
| ResolverProperties.ResolvedPlaceholdersRemoved | Documentor/Program.cs:31-36 | afterwards no resolved placeholder is among its parent's children, and the surviving original children keep their relative order |
| SingleSplice.SpliceChildrenNodes | Documentor/Program.cs:31-34 | for any mix of children, the new children, as nodes, are the elements before the placeholder, then the member's element children, then the elements after it |
| SingleSplice.SingleSpliceResult | Documentor/Program.cs:24-37 | a parent whose only placeholder to resolve is at `p`, and whose new children hold no duplicate, ends with no attributes and with its elements before `p` resolved, then the member's element children, then its elements after `p` resolved; text children are dropped |
| ResolverProperties.SpliceExample | Documentor/Program.cs:31-37 | `[A, inheritdoc(M:X), B]` with member `M:X` holding `[P, Q]` becomes `[A, P, Q, B]` and the parent loses its attributes |
| ResolverProperties.ResolveNotIdempotent | Documentor/Program.cs:26-36 | a placeholder copied from a member is not resolved by the run that copies it, so a second run changes the tree again |
| ResolverProperties.InheritedParamWins | Documentor/Program.cs:31-37 | a local `param` followed by a placeholder for a member holding a `param` with the same attribute names ends as that inherited `param` alone |
| ResolverProperties.SiblingPlaceholderLost | Documentor/Program.cs:26-37 | of three sibling placeholders for `M:A`, `M:B` and `M:C`, only the children of `M:A` and `M:C` end up in the parent |
| LiveWalk.FirstToResolve | Documentor/Program.cs:26-28 | the position of the first node of the enumeration that is a placeholder to resolve, with none before it, or none when no node is one |
| LiveWalk.ProcessAsWritten | Documentor/Program.cs:26-36 | the loop, run over the unchanged enumeration, succeeds exactly when no node of the tree is a placeholder to resolve, and then returns the root unchanged; it fails with `PlaceholderIsRoot` exactly when the root is one, and with `DetachedPlaceholder` when the first one is below the root |
| LiveWalk.ProcessAsWrittenAgrees | Documentor/Program.cs:24-40 | where the code as written gets through it agrees with `Resolve`, and both fail exactly when the root is a placeholder |
| LiveWalk.ProcessAsWrittenDropsSplice | Documentor/Program.cs:26-36 | on `[A, inheritdoc(M:X), B]` the code as written fails at the placeholder, while `Resolve` gives `[A, P, Q, B]` |
| Program.Run | Documentor/Program.cs:12-21 | an index failure saves nothing; otherwise the saved roots are the resolved documents in order, and the run stops at the first root that is itself a placeholder |

## Findings

| source | as written | input that shows it | evidently intended | confidence | as-written member | corrected member |
|---|---|---|---|---|---|---|
| Documentor/Program.cs:46-53 | `child.Remove()` detaches the child that the live `parent.Elements()` enumerator is on, so the outer loop ends after the first removal | children `[param x, param x, returns, returns]`: only the first `param` is removed and the two `returns` stay | every child with a later corresponding sibling is removed, so no duplicates remain | medium: depends on the documented LINQ to XML behaviour of removing while enumerating; not executed | Duplicates.FirstDuplicateOnlyLeavesDuplicate | Duplicates.DedupLeavesNoDuplicate |
| Documentor/Program.cs:26-36 | `parent.RemoveAll()` detaches the placeholder that the live `DescendantsAndSelf()` enumerator is on; its next step climbs from the placeholder through its now missing parent and throws `NullReferenceException` | `<member><summary/><inheritdoc cref="M:X"/><returns/></member>` with member `M:X` holding `<param name="x"/><remarks/>`: the run throws and the file is not saved | the walk goes on past the splice and the file is saved; a parent with a single placeholder gets its resolved elements before it, the member's element children, then its resolved elements after it, when no new child corresponds to a later one; otherwise duplicate removal then drops the earlier ones (`ResolverProperties.InheritedParamWins`) | medium: depends on how LINQ to XML enumerates descendants; not executed | LiveWalk.ProcessAsWrittenDropsSplice | SingleSplice.SingleSpliceResult |

The rest of the model uses the corrected definitions: `Resolver` calls
`Dedup`, and `Program.Run` calls `Resolver.Process`.

## Left out

- File discovery, loading and parsing (lines 14-16) and `root.Save(path)` (line 41) are file-system I/O and XML parsing. `Program.Run` takes the parsed roots and returns the saved ones.
- `Override` (lines 59-63) is never called.
- XML namespaces: element and attribute names are plain strings.
- Resolver.PassAfter: the walk visits the tree as it was before any change, skips detached nodes and resolves every placeholder still attached when it reaches it. A walk over a plain snapshot of the descendants would not skip them, and would throw at line 35 on a detached placeholder such as `inheritdoc(M:B)` above, whose parent is null. As written, line 26 throws `NullReferenceException` after the first splice, because the live `DescendantsAndSelf()` enumerator climbs from the detached placeholder through its missing parent. `LiveWalk.ProcessAsWritten` states that outcome (second finding).
- LiveWalk.ProcessAsWritten: stops with a failure at the first placeholder to resolve. The `NullReferenceException` that follows the splice at lines 35-36 comes from how the LINQ to XML enumerator steps from a detached node; that enumerator is not modelled, and neither is the splice it interrupts, whose result is never saved.
- Resolver.Process: computes the intended walk above, not the exception of the code as written.
- Duplicates.RemoveDuplicates: removes every child that has a later corresponding sibling. As written, line 52 ends the enumeration of line 46 after the first removal. `Duplicates.RemoveFirstDuplicate` states that outcome (first finding).
- Program.Run: processes every document with the intended walk. As written, the run ends with an exception at the first documentation root that holds a placeholder to resolve.
- Aliasing between the index and the trees: the index holds member values frozen when it was built. In the source, entries are the live `member` elements of the documentation roots, so a splice copies a member's children as they are at that moment, possibly already rewritten by earlier processing.
- Object identity and cloning on `Add`: children are values, and the `Slot` origin records only what the walk needs.
- Concurrency: the code has none.
