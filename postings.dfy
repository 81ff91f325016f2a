/** Postings and posting lists, shared by the merger and the search engine. */
module Postings {

  /** The per-(term, document) fact an inverted index hands out. */
  datatype Posting = Posting(documentId: nat, termFrequency: int)

  /** Posting lists are sorted by document id with no id repeated. */
  predicate StrictlyIncreasing(ps: seq<Posting>) {
    forall i, j :: 0 <= i < j < |ps| ==> ps[i].documentId < ps[j].documentId
  }

  /** The document ids that occur in a posting list. */
  function Ids(ps: seq<Posting>): set<nat> {
    if ps == [] then {} else Ids(ps[..|ps| - 1]) + {ps[|ps| - 1].documentId}
  }

  /** An id belongs to `Ids(ps)` exactly when some posting of `ps` carries it. */
  lemma {:induction false} IdsMember(ps: seq<Posting>, d: nat)
    ensures d in Ids(ps) <==> exists k :: 0 <= k < |ps| && ps[k].documentId == d
  {
    if ps != [] {
      var n := |ps| - 1;
      IdsMember(ps[..n], d);
      if d in Ids(ps[..n]) {
        var k :| 0 <= k < n && ps[..n][k].documentId == d;
        assert ps[k].documentId == d;
      }
      if exists k :: 0 <= k < |ps| && ps[k].documentId == d {
        var k :| 0 <= k < |ps| && ps[k].documentId == d;
        if k < n { assert ps[..n][k].documentId == d; }
      }
    }
  }

  /** The id of the posting at position `k` belongs to `Ids(ps)`. */
  lemma IdsAt(ps: seq<Posting>, k: nat)
    requires k < |ps|
    ensures ps[k].documentId in Ids(ps)
  {
    IdsMember(ps, ps[k].documentId);
  }

  lemma IdsPrefix(ps: seq<Posting>, i: nat)
    requires i < |ps|
    ensures Ids(ps[..i + 1]) == Ids(ps[..i]) + {ps[i].documentId}
  {
    assert ps[..i + 1][..i] == ps[..i];
  }

  lemma IdsAppend(a: seq<Posting>, x: Posting)
    ensures Ids(a + [x]) == Ids(a) + {x.documentId}
  {
    assert (a + [x])[..|a|] == a;
  }

  lemma {:induction false} IdsConcat(a: seq<Posting>, b: seq<Posting>)
    ensures Ids(a + b) == Ids(a) + Ids(b)
  {
    if b != [] {
      var n := |b| - 1;
      IdsConcat(a, b[..n]);
      assert (a + b)[..|a| + n] == a + b[..n];
    } else {
      assert a + b == a;
    }
  }

  /** Appending a posting above the last one keeps a list strictly increasing. */
  lemma AppendIncreasing(r: seq<Posting>, x: Posting)
    requires StrictlyIncreasing(r)
    requires r != [] ==> r[|r| - 1].documentId < x.documentId
    ensures StrictlyIncreasing(r + [x])
  {
  }

  /** The posting of `ps` that carries document id `d` (the last such one). */
  function PostingFor(ps: seq<Posting>, d: nat): (p: Posting)
    requires d in Ids(ps)
    ensures p.documentId == d
  {
    var n := |ps| - 1;
    if ps[n].documentId == d then ps[n] else PostingFor(ps[..n], d)
  }

  /** In a sorted list, the posting for an id is the one at that id's position. */
  lemma {:induction false} PostingForAt(ps: seq<Posting>, k: nat)
    requires StrictlyIncreasing(ps) && k < |ps|
    ensures ps[k].documentId in Ids(ps) && PostingFor(ps, ps[k].documentId) == ps[k]
  {
    IdsAt(ps, k);
    var n := |ps| - 1;
    if k < n {
      assert ps[..n][k] == ps[k];
      PostingForAt(ps[..n], k);
    }
  }

  /** A strictly increasing list has exactly as many distinct ids as postings. */
  lemma {:induction false} IdsCardinality(ps: seq<Posting>)
    requires StrictlyIncreasing(ps)
    ensures |Ids(ps)| == |ps|
  {
    if ps != [] {
      var n := |ps| - 1;
      IdsCardinality(ps[..n]);
      IdsMember(ps[..n], ps[n].documentId);
    }
  }
}
