/**
 * The member index built in `Main` of Documentor/Program.cs: every element
 * named `member` in the documentation roots and then the reference roots,
 * depth-first in document order, keyed by its `name` attribute with
 * `ToDictionary`, which throws on a missing `name` (null `.Value`) and on a
 * name seen twice.
 */
module MemberIndex {
  import opened Wrappers
  import opened XmlTree

  const MemberTag := "member"
  const NameAttribute := "name"

  datatype IndexError =
    | MissingName(position: nat)   // the member at this position has no `name`
    | DuplicateName(name: string)  // a second member with this name was met

  /** The value of an element's `name` attribute, if it has one. */
  function NameOf(n: Node): (r: Option<string>)
    ensures r.Some? <==> n.Element? && NameAttribute in AttributeNames(n.attrs)
    ensures r.Some? ==> Attribute(NameAttribute, r.value) in n.attrs
  {
    if n.Text? then None
    else match FindAttribute(n.attrs, NameAttribute)
      case None => None
      case Some(a) => Some(a.value)
  }

  /** `.Where(node => node.Name == "member")`. */
  function FilterMembers(ns: seq<Node>): (r: seq<Node>)
    ensures forall x :: x in r <==> x in ns && x.Element? && x.name == MemberTag
  {
    if |ns| == 0 then []
    else (if ns[0].Element? && ns[0].name == MemberTag then [ns[0]] else []) + FilterMembers(ns[1..])
  }

  predicate IsMember(n: Node)
  {
    n.Element? && n.name == MemberTag
  }

  /** The positions of the member elements, in order. */
  function MemberPositions(ns: seq<Node>): seq<nat>
  {
    if |ns| == 0 then []
    else (if IsMember(ns[0]) then [0] else []) + Shift(MemberPositions(ns[1..]))
  }

  lemma {:induction false} MemberPositionsAligned(ns: seq<Node>)
    ensures |MemberPositions(ns)| == |FilterMembers(ns)|
    ensures forall t :: 0 <= t < |MemberPositions(ns)| ==>
      MemberPositions(ns)[t] < |ns| && FilterMembers(ns)[t] == ns[MemberPositions(ns)[t]]
  {
    if |ns| > 0 {
      var tail := ns[1..];
      MemberPositionsAligned(tail);
      assert forall t :: 0 <= t < |MemberPositions(tail)| ==>
        tail[MemberPositions(tail)[t]] == ns[MemberPositions(tail)[t] + 1];
    }
  }

  lemma {:induction false} MemberPositionsIncreasing(ns: seq<Node>)
    ensures forall t, u :: 0 <= t < u < |MemberPositions(ns)| ==>
      MemberPositions(ns)[t] < MemberPositions(ns)[u]
  {
    if |ns| > 0 {
      MemberPositionsIncreasing(ns[1..]);
    }
  }

  lemma {:induction false} MemberPositionsMembers(ns: seq<Node>)
    ensures forall k :: 0 <= k < |ns| ==> (k in MemberPositions(ns) <==> IsMember(ns[k]))
  {
    if |ns| > 0 {
      var tail := ns[1..];
      var K', shifted := MemberPositions(tail), Shift(MemberPositions(tail));
      MemberPositionsMembers(tail);
      forall k | 0 <= k < |ns| ensures k in MemberPositions(ns) <==> IsMember(ns[k]) {
        if k == 0 {
          assert 0 !in shifted;
        } else {
          assert ns[k] == tail[k - 1];
          if k in shifted {
            var t :| 0 <= t < |shifted| && shifted[t] == k;
            assert K'[t] == k - 1;
          }
          if k - 1 in K' {
            var t :| 0 <= t < |K'| && K'[t] == k - 1;
            assert shifted[t] == k;
          }
        }
      }
    }
  }

  /** `.Where` keeps every member element, each occurrence once and in order:
      the result is the nodes at the increasing positions `K`, and a position
      is in `K` exactly when the node there is an element named `member`. */
  lemma FilterMembersSelects(ns: seq<Node>) returns (K: seq<nat>)
    ensures |K| == |FilterMembers(ns)|
    ensures forall t :: 0 <= t < |K| ==> K[t] < |ns| && FilterMembers(ns)[t] == ns[K[t]]
    ensures forall t, u :: 0 <= t < u < |K| ==> K[t] < K[u]
    ensures forall k :: 0 <= k < |ns| ==> (k in K <==> ns[k].Element? && ns[k].name == MemberTag)
  {
    K := MemberPositions(ns);
    MemberPositionsAligned(ns);
    MemberPositionsIncreasing(ns);
    MemberPositionsMembers(ns);
  }

  /** The member elements of the roots, in the order the index meets them. */
  function Members(roots: seq<Node>): seq<Node>
  {
    FilterMembers(AllDescendants(roots))
  }

  /** `.ToDictionary(node => node.Attribute("name").Value, ...)` from position
      `i` on, `acc` holding the entries of the members before `i`. */
  function ToDictionary(ms: seq<Node>, i: nat, acc: map<string, Node>): Result<map<string, Node>, IndexError>
    requires i <= |ms|
    decreases |ms| - i
  {
    if i == |ms| then Success(acc)
    else match NameOf(ms[i])
      case None => Failure(MissingName(i))
      case Some(k) =>
        if k in acc then Failure(DuplicateName(k)) else ToDictionary(ms, i + 1, acc[k := ms[i]])
  }

  /** The index over the documentation roots followed by the reference roots. */
  function BuildIndex(documents: seq<Node>, references: seq<Node>): Result<map<string, Node>, IndexError>
  {
    ToDictionary(Members(documents + references), 0, map[])
  }

  /** The first `n` members all have a name. */
  ghost predicate Named(ms: seq<Node>, n: nat)
    requires n <= |ms|
  {
    forall j :: 0 <= j < n ==> NameOf(ms[j]).Some?
  }

  /** No two of the first `n` members share a name. */
  ghost predicate Unique(ms: seq<Node>, n: nat)
    requires n <= |ms|
  {
    forall j, l :: 0 <= j < l < n ==> NameOf(ms[j]) != NameOf(ms[l])
  }

  /** `m` maps the name of each of the first `n` members to that member, and nothing else. */
  ghost predicate Indexes(ms: seq<Node>, n: nat, m: map<string, Node>)
    requires n <= |ms|
  {
    (forall j :: 0 <= j < n ==> NameOf(ms[j]).Some? && NameOf(ms[j]).value in m && m[NameOf(ms[j]).value] == ms[j]) &&
    (forall k :: k in m ==> exists j :: 0 <= j < n && NameOf(ms[j]) == Some(k))
  }

  lemma ExtendUnique(ms: seq<Node>, i: nat, acc: map<string, Node>)
    requires i < |ms| && NameOf(ms[i]).Some? && NameOf(ms[i]).value !in acc
    requires Unique(ms, i) && Indexes(ms, i, acc)
    ensures Unique(ms, i + 1)
  {
    forall j, l | 0 <= j < l < i + 1 ensures NameOf(ms[j]) != NameOf(ms[l]) {
      if l == i {
        assert NameOf(ms[j]).value in acc;
      }
    }
  }

  lemma ExtendKeys(ms: seq<Node>, i: nat, acc: map<string, Node>)
    requires i < |ms| && NameOf(ms[i]).Some?
    requires Indexes(ms, i, acc)
    ensures forall k :: k in acc[NameOf(ms[i]).value := ms[i]] ==> exists j :: 0 <= j < i + 1 && NameOf(ms[j]) == Some(k)
  {
    var k := NameOf(ms[i]).value;
    forall k' | k' in acc[k := ms[i]] ensures exists j :: 0 <= j < i + 1 && NameOf(ms[j]) == Some(k') {
      if k' != k {
        assert k' in acc;
        var j :| 0 <= j < i && NameOf(ms[j]) == Some(k');
      } else {
        assert NameOf(ms[i]) == Some(k');
      }
    }
  }

  /** Adding a member whose name is new keeps the accumulated map exact. */
  lemma ExtendIndexes(ms: seq<Node>, i: nat, acc: map<string, Node>)
    requires i < |ms| && NameOf(ms[i]).Some? && NameOf(ms[i]).value !in acc
    requires Named(ms, i) && Unique(ms, i) && Indexes(ms, i, acc)
    ensures Named(ms, i + 1) && Unique(ms, i + 1) && Indexes(ms, i + 1, acc[NameOf(ms[i]).value := ms[i]])
  {
    var k := NameOf(ms[i]).value;
    var acc' := acc[k := ms[i]];
    ExtendUnique(ms, i, acc);
    ExtendKeys(ms, i, acc);
    assert forall j :: 0 <= j < i + 1 ==>
      NameOf(ms[j]).Some? && NameOf(ms[j]).value in acc' && acc'[NameOf(ms[j]).value] == ms[j];
  }

  lemma {:induction false} ToDictionarySucceeds(ms: seq<Node>, i: nat, acc: map<string, Node>)
    requires i <= |ms|
    requires Named(ms, i) && Unique(ms, i) && Indexes(ms, i, acc)
    decreases |ms| - i
    ensures ToDictionary(ms, i, acc).Success? <==> Named(ms, |ms|) && Unique(ms, |ms|)
    ensures ToDictionary(ms, i, acc).Success? ==> Indexes(ms, |ms|, ToDictionary(ms, i, acc).value)
  {
    if i == |ms| {
      assert ToDictionary(ms, i, acc) == Success(acc);
    } else if NameOf(ms[i]).None? {
      assert ToDictionary(ms, i, acc) == Failure(MissingName(i));
      assert !Named(ms, |ms|);
    } else {
      var k := NameOf(ms[i]).value;
      if k in acc {
        assert ToDictionary(ms, i, acc) == Failure(DuplicateName(k));
        var j :| 0 <= j < i && NameOf(ms[j]) == Some(k);
        assert NameOf(ms[j]) == NameOf(ms[i]);
        assert !Unique(ms, |ms|);
      } else {
        assert ToDictionary(ms, i, acc) == ToDictionary(ms, i + 1, acc[k := ms[i]]);
        ExtendIndexes(ms, i, acc);
        ToDictionarySucceeds(ms, i + 1, acc[k := ms[i]]);
      }
    }
  }

  /** A failure of `ToDictionary` over `ms` names a real culprit: a member
      without `name`, or a name that two members share. */
  ghost predicate Culprit(ms: seq<Node>, e: IndexError)
  {
    (e.MissingName? ==> e.position < |ms| && NameOf(ms[e.position]).None?) &&
    (e.DuplicateName? ==> exists j, l :: 0 <= j < l < |ms| && NameOf(ms[j]) == NameOf(ms[l]) == Some(e.name))
  }

  lemma {:induction false} ToDictionaryErrors(ms: seq<Node>, i: nat, acc: map<string, Node>)
    requires i <= |ms|
    requires Named(ms, i) && Unique(ms, i) && Indexes(ms, i, acc)
    requires ToDictionary(ms, i, acc).Failure?
    decreases |ms| - i
    ensures Culprit(ms, ToDictionary(ms, i, acc).error)
  {
    assert i < |ms|;
    if NameOf(ms[i]).None? {
      assert ToDictionary(ms, i, acc) == Failure(MissingName(i));
    } else {
      var k := NameOf(ms[i]).value;
      if k in acc {
        assert ToDictionary(ms, i, acc) == Failure(DuplicateName(k));
        var j :| 0 <= j < i && NameOf(ms[j]) == Some(k);
        assert NameOf(ms[j]) == NameOf(ms[i]) == Some(k);
      } else {
        var acc' := acc[k := ms[i]];
        assert ToDictionary(ms, i, acc) == ToDictionary(ms, i + 1, acc');
        ExtendIndexes(ms, i, acc);
        ToDictionaryErrors(ms, i + 1, acc');
      }
    }
  }

  /** Building the index fails exactly when some member has no `name`, or two
      members share one: no entry is ever silently overwritten. */
  lemma BuildIndexFailsIff(documents: seq<Node>, references: seq<Node>)
    ensures var ms := Members(documents + references);
      BuildIndex(documents, references).Failure? <==>
        (exists j :: 0 <= j < |ms| && NameOf(ms[j]).None?) ||
        (exists j, l :: 0 <= j < l < |ms| && NameOf(ms[j]) == NameOf(ms[l]))
  {
    ToDictionarySucceeds(Members(documents + references), 0, map[]);
  }

  /** Every index entry maps a name to a member element of the documentation
      or reference roots whose `name` is that name. */
  lemma BuildIndexEntries(documents: seq<Node>, references: seq<Node>)
    requires BuildIndex(documents, references).Success?
    ensures var m := BuildIndex(documents, references).value;
      forall k :: k in m ==> m[k].Element? && m[k].name == MemberTag && NameOf(m[k]) == Some(k) &&
                             m[k] in AllDescendants(documents + references)
  {
    var ms := Members(documents + references);
    var m := BuildIndex(documents, references).value;
    ToDictionarySucceeds(ms, 0, map[]);
    assert Indexes(ms, |ms|, m);
    forall k | k in m
      ensures m[k].Element? && m[k].name == MemberTag && NameOf(m[k]) == Some(k) &&
              m[k] in AllDescendants(documents + references)
    {
      var j :| 0 <= j < |ms| && NameOf(ms[j]) == Some(k);
      assert m[k] == ms[j];
      assert ms[j] in ms;
    }
  }

  /** Every member element of every documentation or reference root is the
      index entry for its name. */
  lemma BuildIndexComplete(documents: seq<Node>, references: seq<Node>)
    requires BuildIndex(documents, references).Success?
    ensures var m := BuildIndex(documents, references).value;
      forall e :: e in AllDescendants(documents + references) && e.Element? && e.name == MemberTag ==>
                  NameOf(e).Some? && NameOf(e).value in m && m[NameOf(e).value] == e
  {
    var ms := Members(documents + references);
    var m := BuildIndex(documents, references).value;
    ToDictionarySucceeds(ms, 0, map[]);
    assert Indexes(ms, |ms|, m);
    forall e | e in AllDescendants(documents + references) && e.Element? && e.name == MemberTag
      ensures NameOf(e).Some? && NameOf(e).value in m && m[NameOf(e).value] == e
    {
      assert e in ms;
      var j :| 0 <= j < |ms| && ms[j] == e;
    }
  }
}
