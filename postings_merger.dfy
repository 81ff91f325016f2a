/**
 * Merging of two posting lists that are sorted by document id: the AND
 * (intersection) and OR (union) generators, each run to completion.
 */
module PostingsMerger {
  import opened Postings

  /** The postings of `ps`, in order, whose document id lies in `ids`. */
  function KeepIds(ps: seq<Posting>, ids: set<nat>): (r: seq<Posting>)
    ensures |r| <= |ps|
    ensures forall k :: 0 <= k < |r| ==> r[k].documentId in ids
  {
    if ps == [] then []
    else
      var last := ps[|ps| - 1];
      KeepIds(ps[..|ps| - 1], ids) + (if last.documentId in ids then [last] else [])
  }

  /** Postings past position `i` whose ids are not kept add nothing. */
  lemma {:induction false} KeepIdsIgnoresTail(ps: seq<Posting>, ids: set<nat>, i: nat)
    requires i <= |ps|
    requires forall l :: i <= l < |ps| ==> ps[l].documentId !in ids
    ensures KeepIds(ps, ids) == KeepIds(ps[..i], ids)
  {
    if i < |ps| {
      var n := |ps| - 1;
      assert ps[..n][..i] == ps[..i];
      KeepIdsIgnoresTail(ps[..n], ids, i);
    } else {
      assert ps[..i] == ps;
    }
  }

  /** Filtering keeps exactly the ids it is asked to keep. */
  lemma {:induction false} KeepIdsIds(ps: seq<Posting>, ids: set<nat>)
    ensures Ids(KeepIds(ps, ids)) == Ids(ps) * ids
  {
    if ps != [] {
      var n := |ps| - 1;
      var r := KeepIds(ps[..n], ids);
      KeepIdsIds(ps[..n], ids);
      if ps[n].documentId in ids {
        IdsAppend(r, ps[n]);
      } else {
        assert KeepIds(ps, ids) == r;
        assert Ids(ps) == Ids(ps[..n]) + {ps[n].documentId};
      }
    }
  }

  /** Filtering keeps a sorted list sorted. */
  lemma {:induction false} KeepIdsSorted(ps: seq<Posting>, ids: set<nat>)
    requires StrictlyIncreasing(ps)
    ensures StrictlyIncreasing(KeepIds(ps, ids))
  {
    if ps != [] {
      var n := |ps| - 1;
      var r := KeepIds(ps[..n], ids);
      KeepIdsSorted(ps[..n], ids);
      if ps[n].documentId in ids {
        if r != [] {
          var x := r[|r| - 1].documentId;
          KeepIdsIds(ps[..n], ids);
          IdsAt(r, |r| - 1);
          IdsMember(ps[..n], x);
          var m :| 0 <= m < n && ps[..n][m].documentId == x;
          assert ps[m] == ps[..n][m];
        }
        AppendIncreasing(r, ps[n]);
        assert KeepIds(ps, ids) == r + [ps[n]];
      } else {
        assert KeepIds(ps, ids) == r + [];
      }
    }
  }

  /** Filtering only ever keeps postings of the list it filters. */
  lemma {:induction false} KeepIdsFrom(ps: seq<Posting>, ids: set<nat>)
    ensures forall k :: 0 <= k < |KeepIds(ps, ids)| ==> KeepIds(ps, ids)[k] in ps
  {
    if ps != [] {
      var n := |ps| - 1;
      var r := KeepIds(ps[..n], ids);
      KeepIdsFrom(ps[..n], ids);
      forall k | 0 <= k < |r| ensures r[k] in ps {
        var m :| 0 <= m < n && ps[..n][m] == r[k];
        assert ps[m] == r[k];
      }
    }
  }

  /** Filtering one posting more appends it exactly when its id is kept. */
  lemma KeepIdsSnoc(ps: seq<Posting>, ids: set<nat>, i: nat)
    requires i < |ps|
    ensures KeepIds(ps[..i + 1], ids) == KeepIds(ps[..i], ids) + (if ps[i].documentId in ids then [ps[i]] else [])
  {
    assert ps[..i + 1][..i] == ps[..i];
  }

  /** An id strictly between two neighbours of a sorted list is not in it. */
  lemma AbsentBetween(ps: seq<Posting>, j: nat, d: nat)
    requires StrictlyIncreasing(ps) && j < |ps| && d < ps[j].documentId
    requires 0 < j ==> ps[j - 1].documentId < d
    ensures d !in Ids(ps)
  {
    forall k | 0 <= k < |ps|
      ensures ps[k].documentId != d
    {
      if k < j - 1 {
        assert ps[k].documentId < ps[j - 1].documentId;
      } else if j < k {
        assert ps[j].documentId < ps[k].documentId;
      }
    }
    NotInIds(ps, d);
  }

  /** Once `p2` is used up below `p1[i]`, no id from `p1[i]` on is in `p2`. */
  lemma TailAbsent(p1: seq<Posting>, p2: seq<Posting>, i: nat)
    requires StrictlyIncreasing(p1) && StrictlyIncreasing(p2) && i < |p1|
    requires p2 != [] ==> p2[|p2| - 1].documentId < p1[i].documentId
    ensures forall l :: i <= l < |p1| ==> p1[l].documentId !in Ids(p2)
  {
    forall l | i <= l < |p1|
      ensures p1[l].documentId !in Ids(p2)
    {
      forall k | 0 <= k < |p2|
        ensures p2[k].documentId != p1[l].documentId
      {
        if k < |p2| - 1 {
          assert p2[k].documentId < p2[|p2| - 1].documentId;
        }
        if i < l {
          assert p1[i].documentId < p1[l].documentId;
        }
      }
      NotInIds(p2, p1[l].documentId);
    }
  }

  /** A list holds no id that differs from all of its postings' ids. */
  lemma NotInIds(ps: seq<Posting>, d: nat)
    requires forall k :: 0 <= k < |ps| ==> ps[k].documentId != d
    ensures d !in Ids(ps)
  {
    IdsMember(ps, d);
  }

  /**
   * The AND of two posting lists sorted by document id: the postings of
   * `p1` whose id also occurs in `p2`. Stops as soon as either list is
   * exhausted.
   */
  method Intersection(p1: seq<Posting>, p2: seq<Posting>) returns (r: seq<Posting>)
    requires StrictlyIncreasing(p1) && StrictlyIncreasing(p2)
    ensures r == KeepIds(p1, Ids(p2))
    ensures StrictlyIncreasing(r)
    ensures Ids(r) == Ids(p1) * Ids(p2)
    ensures forall k :: 0 <= k < |r| ==> r[k] in p1
    ensures |r| <= |p1| && |r| <= |p2|
  {
    var i, j := 0, 0;
    r := [];
    while i < |p1| && j < |p2|
      invariant 0 <= i <= |p1| && 0 <= j <= |p2|
      invariant r == KeepIds(p1[..i], Ids(p2))
      invariant 0 < j && i < |p1| ==> p2[j - 1].documentId < p1[i].documentId
    {
      KeepIdsSnoc(p1, Ids(p2), i);
      if p1[i].documentId == p2[j].documentId {
        IdsAt(p2, j);
        r := r + [p1[i]];
        if i + 1 < |p1| {
          assert p1[i].documentId < p1[i + 1].documentId;
        }
        i, j := i + 1, j + 1;
      } else if p1[i].documentId < p2[j].documentId {
        AbsentBetween(p2, j, p1[i].documentId);
        i := i + 1;
      } else {
        j := j + 1;
      }
    }
    if i < |p1| {
      TailAbsent(p1, p2, i);
    }
    KeepIdsIgnoresTail(p1, Ids(p2), i);
    IntersectionOfSorted(p1, p2);
  }

  /**
   * The postings of `p1` whose ids occur in `p2` are sorted, carry exactly
   * the common ids, come from `p1` and are no more than either list holds.
   */
  lemma IntersectionOfSorted(p1: seq<Posting>, p2: seq<Posting>)
    requires StrictlyIncreasing(p1) && StrictlyIncreasing(p2)
    ensures var r := KeepIds(p1, Ids(p2));
      && StrictlyIncreasing(r)
      && Ids(r) == Ids(p1) * Ids(p2)
      && (forall k :: 0 <= k < |r| ==> r[k] in p1)
      && |r| <= |p1| && |r| <= |p2|
  {
    var r := KeepIds(p1, Ids(p2));
    KeepIdsSorted(p1, Ids(p2));
    KeepIdsIds(p1, Ids(p2));
    KeepIdsFrom(p1, Ids(p2));
    IdsCardinality(r);
    IdsCardinality(p2);
    SubsetCardinality(Ids(r), Ids(p2));
  }

  /**
   * A union posting is the one `p1` holds for its id, or the one `p2`
   * holds when `p1` does not mention that id.
   */
  predicate FromEither(x: Posting, p1: seq<Posting>, p2: seq<Posting>) {
    if x.documentId in Ids(p1) then x == PostingFor(p1, x.documentId)
    else x.documentId in Ids(p2) && x == PostingFor(p2, x.documentId)
  }

  /** Every posting of `r` satisfies `FromEither`, stated by recursion on `r`. */
  predicate TakenFrom(r: seq<Posting>, p1: seq<Posting>, p2: seq<Posting>) {
    r == [] || (TakenFrom(r[..|r| - 1], p1, p2) && FromEither(r[|r| - 1], p1, p2))
  }

  lemma {:induction false} TakenFromAll(r: seq<Posting>, p1: seq<Posting>, p2: seq<Posting>)
    requires TakenFrom(r, p1, p2)
    ensures forall k :: 0 <= k < |r| ==> FromEither(r[k], p1, p2)
  {
    if r != [] {
      var n := |r| - 1;
      TakenFromAll(r[..n], p1, p2);
      assert forall k :: 0 <= k < n ==> r[..n][k] == r[k];
    }
  }

  /** Ids in the consumed prefix of `ps` all lie below `bound` when `r` covers that prefix. */
  lemma PrefixBelow(r: seq<Posting>, ps: seq<Posting>, i: nat, bound: nat)
    requires i <= |ps| && Ids(ps[..i]) <= Ids(r)
    requires forall k :: 0 <= k < |r| ==> r[k].documentId < bound
    ensures forall k :: 0 <= k < i ==> ps[k].documentId < bound
  {
    forall k | 0 <= k < i ensures ps[k].documentId < bound {
      assert ps[..i][k] == ps[k];
      IdsAt(ps[..i], k);
      IdsMember(r, ps[k].documentId);
      var m :| 0 <= m < |r| && r[m].documentId == ps[k].documentId;
    }
  }

  /**
   * The state of the OR merge after consuming `p1[..i]` and `p2[..j]`:
   * `r` is sorted, holds exactly the consumed ids, and the next posting of
   * either list lies above the last one emitted.
   */
  ghost predicate UnionState(r: seq<Posting>, p1: seq<Posting>, p2: seq<Posting>, i: nat, j: nat) {
    && i <= |p1| && j <= |p2|
    && StrictlyIncreasing(r) && TakenFrom(r, p1, p2)
    && Ids(r) == Ids(p1[..i]) + Ids(p2[..j])
    && (r != [] && i < |p1| ==> r[|r| - 1].documentId < p1[i].documentId)
    && (r != [] && j < |p2| ==> r[|r| - 1].documentId < p2[j].documentId)
  }

  /** Emitting the head of `p1` when it is not above the head of `p2`. */
  lemma EmitFirst(r: seq<Posting>, p1: seq<Posting>, p2: seq<Posting>, i: nat, j: nat)
    requires StrictlyIncreasing(p1) && StrictlyIncreasing(p2)
    requires UnionState(r, p1, p2, i, j) && i < |p1|
    requires j < |p2| ==> p1[i].documentId <= p2[j].documentId
    ensures j < |p2| && p1[i].documentId == p2[j].documentId ==>
              UnionState(r + [p1[i]], p1, p2, i + 1, j + 1)
    ensures !(j < |p2| && p1[i].documentId == p2[j].documentId) ==>
              UnionState(r + [p1[i]], p1, p2, i + 1, j)
  {
    var x := p1[i];
    var r' := r + [x];
    EmitFirstCommon(r, p1, p2, i, j);
    if j < |p2| && x.documentId == p2[j].documentId {
      IdsPrefix(p2, j);
      assert Ids(r') == Ids(p1[..i + 1]) + Ids(p2[..j + 1]);
      assert j + 1 < |p2| ==> p2[j].documentId < p2[j + 1].documentId;
    }
  }

  /** The parts of `EmitFirst` that do not depend on whether the heads are equal. */
  lemma EmitFirstCommon(r: seq<Posting>, p1: seq<Posting>, p2: seq<Posting>, i: nat, j: nat)
    requires StrictlyIncreasing(p1) && StrictlyIncreasing(p2)
    requires UnionState(r, p1, p2, i, j) && i < |p1|
    ensures StrictlyIncreasing(r + [p1[i]]) && TakenFrom(r + [p1[i]], p1, p2)
    ensures Ids(r + [p1[i]]) == Ids(p1[..i + 1]) + Ids(p2[..j])
    ensures i + 1 < |p1| ==> p1[i].documentId < p1[i + 1].documentId
  {
    var x := p1[i];
    var r' := r + [x];
    IdsPrefix(p1, i);
    IdsAppend(r, x);
    PostingForAt(p1, i);
    AppendIncreasing(r, x);
    assert r'[..|r'| - 1] == r;
    assert FromEither(x, p1, p2);
  }

  /** Emitting the head of `p2` when it is below the head of `p1`, or `p1` is exhausted. */
  lemma EmitSecond(r: seq<Posting>, p1: seq<Posting>, p2: seq<Posting>, i: nat, j: nat)
    requires StrictlyIncreasing(p1) && StrictlyIncreasing(p2)
    requires UnionState(r, p1, p2, i, j) && j < |p2|
    requires i < |p1| ==> p2[j].documentId < p1[i].documentId
    ensures UnionState(r + [p2[j]], p1, p2, i, j + 1)
  {
    var x := p2[j];
    var r' := r + [x];
    IdsPrefix(p2, j);
    IdsAppend(r, x);
    PostingForAt(p2, j);
    AppendIncreasing(r, x);
    assert r'[..|r'| - 1] == r;
    PrefixBelow(r, p1, i, x.documentId);
    SkippedId(p1, i, x.documentId);
    assert FromEither(x, p1, p2);
    assert j + 1 < |p2| ==> x.documentId < p2[j + 1].documentId;
  }

  /** An id below the consumed prefix and below the next posting is not in a sorted list. */
  lemma SkippedId(ps: seq<Posting>, i: nat, d: nat)
    requires StrictlyIncreasing(ps) && i <= |ps|
    requires forall k :: 0 <= k < i ==> ps[k].documentId < d
    requires i < |ps| ==> d < ps[i].documentId
    ensures d !in Ids(ps)
  {
    NotInIds(ps, d);
  }

  /**
   * The OR of two posting lists sorted by document id: every id of either
   * list exactly once, in increasing order; on a shared id the posting of
   * `p1` is kept. Once one list is exhausted the tail of the other follows.
   */
  method Union(p1: seq<Posting>, p2: seq<Posting>) returns (r: seq<Posting>)
    requires StrictlyIncreasing(p1) && StrictlyIncreasing(p2)
    ensures StrictlyIncreasing(r)
    ensures Ids(r) == Ids(p1) + Ids(p2)
    ensures forall k :: 0 <= k < |r| ==> FromEither(r[k], p1, p2)
    ensures |r| == |p1| + |p2| - |Ids(p1) * Ids(p2)|
  {
    var i, j;
    r, i, j := MergeHeads(p1, p2);
    while i < |p1|
      invariant UnionState(r, p1, p2, i, j) && (i < |p1| ==> j == |p2|)
    {
      EmitFirst(r, p1, p2, i, j);
      r := r + [p1[i]];
      i := i + 1;
    }
    while j < |p2|
      invariant UnionState(r, p1, p2, i, j) && i == |p1|
    {
      EmitSecond(r, p1, p2, i, j);
      r := r + [p2[j]];
      j := j + 1;
    }
    UnionDone(r, p1, p2);
  }

  /** The first loop of the OR merge: runs while both lists have postings left. */
  method MergeHeads(p1: seq<Posting>, p2: seq<Posting>) returns (r: seq<Posting>, i: nat, j: nat)
    requires StrictlyIncreasing(p1) && StrictlyIncreasing(p2)
    ensures UnionState(r, p1, p2, i, j) && (i == |p1| || j == |p2|)
  {
    i, j := 0, 0;
    r := [];
    while i < |p1| && j < |p2|
      invariant UnionState(r, p1, p2, i, j)
    {
      if p1[i].documentId == p2[j].documentId {
        EmitFirst(r, p1, p2, i, j);
        r := r + [p1[i]];
        i, j := i + 1, j + 1;
      } else if p1[i].documentId < p2[j].documentId {
        EmitFirst(r, p1, p2, i, j);
        r := r + [p1[i]];
        i := i + 1;
      } else {
        EmitSecond(r, p1, p2, i, j);
        r := r + [p2[j]];
        j := j + 1;
      }
    }
  }

  /** A finished OR merge has one posting per id of either list. */
  lemma UnionDone(r: seq<Posting>, p1: seq<Posting>, p2: seq<Posting>)
    requires StrictlyIncreasing(p1) && StrictlyIncreasing(p2)
    requires UnionState(r, p1, p2, |p1|, |p2|)
    ensures Ids(r) == Ids(p1) + Ids(p2)
    ensures forall k :: 0 <= k < |r| ==> FromEither(r[k], p1, p2)
    ensures |r| == |p1| + |p2| - |Ids(p1) * Ids(p2)|
  {
    TakenFromAll(r, p1, p2);
    assert p1[..|p1|] == p1 && p2[..|p2|] == p2;
    IdsCardinality(r);
    IdsCardinality(p1);
    IdsCardinality(p2);
  }

  lemma SubsetCardinality(a: set<nat>, b: set<nat>)
    requires a <= b
    ensures |a| <= |b|
  {
    assert b == a + (b - a);
  }
}
