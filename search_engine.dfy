/**
 * N-out-of-M ranked retrieval by document-at-a-time traversal of the posting
 * lists of the unique query terms.
 *
 * The inverted index is a function from terms to posting lists, the ranker a
 * function from a document and the `update` calls it received to the score
 * its `evaluate` returns, and the sieve is represented by the log of `sift`
 * calls it receives (which K of them win is the sieve's business).
 */
module SimpleSearchEngine {
  import opened Wrappers
  import opened Postings

  type Term = string

  /** The options the evaluation reads; `None` is a missing key. */
  datatype Options = Options(matchThreshold: Option<real>, hitCount: Option<int>)

  /** A call the engine makes on the ranker. */
  datatype RankerCall =
    | ResetCall(documentId: nat)
    | UpdateCall(term: Term, multiplicity: nat, posting: Posting)
    | EvaluateCall

  /** A call `sieve.sift(score, document_id)`. */
  datatype Sift = Sift(score: real, documentId: nat)

  // ---------------------------------------------------------------------
  // Unique query terms: `Counter(query_terms).items()`
  // ---------------------------------------------------------------------

  /** Counts one more occurrence of `t`: bumps its entry or appends a new one. */
  function Bump(u: seq<(Term, nat)>, t: Term): seq<(Term, nat)>
  {
    if u == [] then [(t, 1)]
    else if u[0].0 == t then [(t, u[0].1 + 1)] + u[1..]
    else [u[0]] + Bump(u[1..], t)
  }

  /** The (term, multiplicity) pairs, in order of first appearance. */
  function UniqueTerms(ts: seq<Term>): seq<(Term, nat)>
  {
    if ts == [] then [] else Bump(UniqueTerms(ts[..|ts| - 1]), ts[|ts| - 1])
  }

  /** The count the pairs attribute to `t`. */
  function Multiplicity(u: seq<(Term, nat)>, t: Term): nat
  {
    if u == [] then 0 else (if u[0].0 == t then u[0].1 else 0) + Multiplicity(u[1..], t)
  }

  predicate DistinctTerms(u: seq<(Term, nat)>)
  {
    forall i, j :: 0 <= i < j < |u| ==> u[i].0 != u[j].0
  }

  predicate PositiveCounts(u: seq<(Term, nat)>)
  {
    forall i :: 0 <= i < |u| ==> 1 <= u[i].1
  }

  lemma BumpCounts(u: seq<(Term, nat)>, t: Term)
    requires DistinctTerms(u) && PositiveCounts(u)
    ensures DistinctTerms(Bump(u, t)) && PositiveCounts(Bump(u, t))
    ensures forall s :: Multiplicity(Bump(u, t), s) == Multiplicity(u, s) + (if s == t then 1 else 0)
    ensures forall s :: s != t && Multiplicity(u, s) == 0 ==> Multiplicity(Bump(u, t), s) == 0
  {
    BumpMultiplicity(u, t);
    BumpPositive(u, t);
    BumpDistinct(u, t);
  }

  /** Bumping keeps every count positive. */
  lemma {:induction false} BumpPositive(u: seq<(Term, nat)>, t: Term)
    requires PositiveCounts(u)
    ensures PositiveCounts(Bump(u, t))
  {
    if u != [] && u[0].0 != t {
      BumpPositive(u[1..], t);
      var r := Bump(u, t);
      assert r[1..] == Bump(u[1..], t);
    } else if u != [] {
      var r := Bump(u, t);
      assert r[1..] == u[1..];
    }
  }

  /** Bumping keeps the terms distinct: a new term is appended only when it is absent. */
  lemma {:induction false} BumpDistinct(u: seq<(Term, nat)>, t: Term)
    requires DistinctTerms(u) && PositiveCounts(u)
    ensures DistinctTerms(Bump(u, t))
  {
    if u != [] && u[0].0 != t {
      var w := Bump(u[1..], t);
      BumpDistinct(u[1..], t);
      BumpPositive(u[1..], t);
      BumpMultiplicity(u[1..], t);
      NotCountedIfAbsent(u, 0);
      forall i | 0 <= i < |w|
        ensures w[i].0 != u[0].0
      {
        KeyCounted(w, i);
      }
      ConsDistinct(u[0], w);
    } else if u != [] {
      ConsDistinct((t, u[0].1 + 1), u[1..]);
    }
  }

  /** A pair whose term is not among distinct pairs can go in front of them. */
  lemma ConsDistinct(x: (Term, nat), w: seq<(Term, nat)>)
    requires DistinctTerms(w) && forall i :: 0 <= i < |w| ==> w[i].0 != x.0
    ensures DistinctTerms([x] + w)
  {
    var r := [x] + w;
    forall i, j | 0 <= i < j < |r|
      ensures r[i].0 != r[j].0
    {
      assert r[j] == w[j - 1];
      if i > 0 {
        assert r[i] == w[i - 1];
      }
    }
  }

  /** Bumping `t` adds one to its count and leaves every other count alone. */
  lemma {:induction false} BumpMultiplicity(u: seq<(Term, nat)>, t: Term)
    ensures forall s :: Multiplicity(Bump(u, t), s) == Multiplicity(u, s) + (if s == t then 1 else 0)
  {
    if u != [] && u[0].0 != t {
      BumpMultiplicity(u[1..], t);
      var r := Bump(u, t);
      assert r[1..] == Bump(u[1..], t);
    } else if u != [] {
      var r := Bump(u, t);
      assert r[1..] == u[1..];
    }
  }

  /** A key of distinct pairs is not counted again further on. */
  lemma {:induction false} NotCountedIfAbsent(u: seq<(Term, nat)>, i: nat)
    requires DistinctTerms(u) && PositiveCounts(u) && i < |u|
    ensures Multiplicity(u[i + 1..], u[i].0) == 0
  {
    var w := u[i + 1..];
    AbsentKey(w, u[i].0);
  }

  lemma {:induction false} AbsentKey(w: seq<(Term, nat)>, t: Term)
    requires forall k :: 0 <= k < |w| ==> w[k].0 != t
    ensures Multiplicity(w, t) == 0
  {
    if w != [] {
      AbsentKey(w[1..], t);
    }
  }

  /** A key of pairs with positive counts is counted. */
  lemma {:induction false} KeyCounted(u: seq<(Term, nat)>, i: nat)
    requires PositiveCounts(u) && i < |u|
    ensures Multiplicity(u, u[i].0) >= u[i].1
  {
    if i > 0 {
      KeyCounted(u[1..], i - 1);
    }
  }

  /**
   * The pairs are exactly Python's `Counter`: each term once, with a positive
   * multiplicity equal to its number of occurrences in the query.
   */
  lemma {:induction false} UniqueTermsCounter(ts: seq<Term>)
    ensures DistinctTerms(UniqueTerms(ts)) && PositiveCounts(UniqueTerms(ts))
    ensures forall t :: Multiplicity(UniqueTerms(ts), t) == multiset(ts)[t]
  {
    if ts != [] {
      var n := |ts| - 1;
      UniqueTermsCounter(ts[..n]);
      BumpCounts(UniqueTerms(ts[..n]), ts[n]);
      assert ts == ts[..n] + [ts[n]];
      assert multiset(ts) == multiset(ts[..n]) + multiset{ts[n]};
    }
  }

  /** In distinct pairs, a term's multiplicity is the count of its own entry. */
  lemma {:induction false} MultiplicityAt(u: seq<(Term, nat)>, i: nat)
    requires DistinctTerms(u) && i < |u|
    ensures Multiplicity(u, u[i].0) == u[i].1
  {
    if i == 0 {
      AbsentKey(u[1..], u[0].0);
    } else {
      MultiplicityAt(u[1..], i - 1);
    }
  }

  /** Each pair carries its term's number of occurrences in the query. */
  lemma UniqueTermsMultiplicity(ts: seq<Term>, i: nat)
    requires i < |UniqueTerms(ts)|
    ensures UniqueTerms(ts)[i].1 == multiset(ts)[UniqueTerms(ts)[i].0] >= 1
  {
    UniqueTermsCounter(ts);
    MultiplicityAt(UniqueTerms(ts), i);
  }

  // ---------------------------------------------------------------------
  // Options
  // ---------------------------------------------------------------------

  /** `max(0.0, min(1.0, t))`. */
  function ClampThreshold(t: real): (r: real)
    ensures 0.0 <= r <= 1.0
    ensures 0.0 <= t <= 1.0 ==> r == t
    ensures t < 0.0 ==> r == 0.0
    ensures 1.0 < t ==> r == 1.0
  {
    if t < 0.0 then 0.0 else if 1.0 < t then 1.0 else t
  }

  /** The match threshold in use; 0.5 when the option is missing. */
  function MatchThreshold(options: Options): real
  {
    ClampThreshold(options.matchThreshold.GetOr(0.5))
  }

  /** Python's `int(x)` on a float: truncation toward zero. */
  function Truncate(x: real): (r: int)
    ensures 0.0 <= x ==> r as real <= x < r as real + 1.0
    ensures x < 0.0 ==> r as real - 1.0 < x <= r as real
  {
    if 0.0 <= x then x.Floor else -((-x).Floor)
  }

  /** N, the number of the M unique query terms a document must contain. */
  function RequiredMinimum(m: nat, threshold: real): (r: nat)
    ensures 1 <= r
    ensures 1 <= m ==> r <= m
  {
    var n := Truncate(threshold * m as real);
    if n < 1 || m < 1 then 1 else if m < n then m else n
  }

  /** A threshold of 1.0 asks for every query term (AND). */
  lemma RequiredAll(m: nat)
    requires 1 <= m
    ensures RequiredMinimum(m, 1.0) == m
  {
  }

  /** A threshold that makes N below 2 asks for any one term (OR). */
  lemma RequiredAny(m: nat, threshold: real)
    requires 0.0 <= threshold && threshold * m as real < 2.0
    ensures RequiredMinimum(m, threshold) == 1
  {
  }

  /** A higher threshold never asks for fewer terms. */
  lemma RequiredMonotone(m: nat, t1: real, t2: real)
    requires 0.0 <= t1 <= t2
    ensures RequiredMinimum(m, t1) <= RequiredMinimum(m, t2)
  {
    var x, y := t1 * m as real, t2 * m as real;
    assert y - x == (t2 - t1) * m as real;
    assert x <= y;
  }

  /** "to be or not to be" has four unique terms, two of them twice. */
  lemma UniqueTermsExample()
    ensures UniqueTerms(["to", "be", "or", "not", "to", "be"])
      == [("to", 2), ("be", 2), ("or", 1), ("not", 1)]
  {
    var q: seq<Term> := ["to", "be", "or", "not", "to", "be"];
    var u5: seq<(Term, nat)> := [("to", 2), ("be", 1), ("or", 1), ("not", 1)];
    DistinctWordsExample();
    assert "to"[0] != "be"[0];
    assert q[..5][..4] == q[..4] == ["to", "be", "or", "not"];
    assert UniqueTerms(q[..5]) == u5;
    assert Bump(u5[1..], "be") == [("be", 2), ("or", 1), ("not", 1)];
    assert q[..5] == q[..|q| - 1];
  }

  /** Four distinct words are each counted once, in order. */
  lemma DistinctWordsExample()
    ensures UniqueTerms(["to", "be", "or", "not"])
      == [("to", 1), ("be", 1), ("or", 1), ("not", 1)]
  {
    var q: seq<Term> := ["to", "be", "or", "not"];
    var u2: seq<(Term, nat)> := [("to", 1), ("be", 1)];
    var u3: seq<(Term, nat)> := [("to", 1), ("be", 1), ("or", 1)];
    assert q[..1] == ["to"] && q[..1][..0] == [];
    assert "to"[0] != "be"[0] && "to"[0] != "or"[0] && "to"[0] != "not"[0];
    assert "be"[0] != "or"[0] && "be"[0] != "not"[0] && "or"[0] != "not"[0];
    assert UniqueTerms(q[..1]) == [("to", 1)];
    assert [("to", 1)][1..] == [] && u2[1..] == [("be", 1)] && u2[1..][1..] == [];
    assert q[..2][..1] == q[..1];
    assert UniqueTerms(q[..2]) == u2;
    assert Bump(u2[1..], "or") == [("be", 1), ("or", 1)];
    assert q[..3][..2] == q[..2];
    assert UniqueTerms(q[..3]) == u3;
    assert u3[1..][1..] == [("or", 1)] && u3[1..][1..][1..] == [];
    assert Bump(u3[1..][1..], "not") == [("or", 1), ("not", 1)];
    assert Bump(u3[1..], "not") == [("be", 1), ("or", 1), ("not", 1)];
    assert q[..3] == q[..|q| - 1];
  }

  /** The default threshold on the four unique terms of "to be or not to be" asks for two. */
  lemma DefaultThresholdExample()
    ensures RequiredMinimum(|UniqueTerms(["to", "be", "or", "not", "to", "be"])|,
                            MatchThreshold(Options(None, None))) == 2
  {
    UniqueTermsExample();
  }

  /** The sieve capacity: the `hit_count` option (default 10) clamped to 1..100. */
  function SieveCapacity(hitCount: Option<int>): (r: nat)
    ensures 1 <= r <= 100
    ensures 1 <= hitCount.GetOr(10) <= 100 ==> r == hitCount.GetOr(10)
  {
    var k := hitCount.GetOr(10);
    if k < 1 then 1 else if 100 < k then 100 else k
  }

  // ---------------------------------------------------------------------
  // What the evaluation computes
  // ---------------------------------------------------------------------

  /** A strictly increasing sequence of indices or document ids. */
  predicate Ascending(s: seq<nat>)
  {
    forall a, b :: 0 <= a < b < |s| ==> s[a] < s[b]
  }

  /** `[inverted_index[term] for (term, _) in unique_query_terms]`. */
  function PostingLists(u: seq<(Term, nat)>, index: Term -> seq<Posting>): (lists: seq<seq<Posting>>)
    ensures |lists| == |u|
    ensures forall i :: 0 <= i < |u| ==> lists[i] == index(u[i].0)
  {
    seq(|u|, i requires 0 <= i < |u| => index(u[i].0))
  }

  /** The indices, ascending, of those of the first `n` lists that contain document `d`. */
  function ContainingUpTo(lists: seq<seq<Posting>>, d: nat, n: nat): (r: seq<nat>)
    requires n <= |lists|
    ensures |r| <= n
    ensures forall k :: 0 <= k < |r| ==> r[k] < n && d in Ids(lists[r[k]])
  {
    if n == 0 then []
    else ContainingUpTo(lists, d, n - 1) + (if d in Ids(lists[n - 1]) then [n - 1] else [])
  }

  /** The indices, ascending, of the lists that contain document `d`. */
  function Containing(lists: seq<seq<Posting>>, d: nat): (r: seq<nat>)
    ensures forall k :: 0 <= k < |r| ==> r[k] < |lists| && d in Ids(lists[r[k]])
  {
    ContainingUpTo(lists, d, |lists|)
  }

  lemma {:induction false} ContainingAscending(lists: seq<seq<Posting>>, d: nat, n: nat)
    requires n <= |lists|
    ensures Ascending(ContainingUpTo(lists, d, n))
  {
    if n > 0 {
      ContainingAscending(lists, d, n - 1);
    }
  }

  lemma {:induction false} ContainingMembers(lists: seq<seq<Posting>>, d: nat, n: nat)
    requires n <= |lists|
    ensures Ascending(ContainingUpTo(lists, d, n))
    ensures forall i: nat :: i in ContainingUpTo(lists, d, n) <==> i < n && d in Ids(lists[i])
  {
    if n > 0 {
      ContainingMembers(lists, d, n - 1);
    }
  }

  lemma {:induction false} ContainingCount(lists: seq<seq<Posting>>, d: nat, n: nat)
    requires n <= |lists|
    ensures |ContainingUpTo(lists, d, n)| == n <==> forall i :: 0 <= i < n ==> d in Ids(lists[i])
    ensures 1 <= |ContainingUpTo(lists, d, n)| <==> exists i :: 0 <= i < n && d in Ids(lists[i])
  {
    if n > 0 {
      ContainingCount(lists, d, n - 1);
    }
  }

  /** The documents below `b` that are in at least `req` of the lists, ascending. */
  function Qualifying(lists: seq<seq<Posting>>, req: nat, b: nat): (r: seq<nat>)
    ensures forall k :: 0 <= k < |r| ==> r[k] < b
  {
    if b == 0 then []
    else Qualifying(lists, req, b - 1) + (if req <= |Containing(lists, b - 1)| then [b - 1] else [])
  }

  /** Extending the range by documents that do not qualify adds nothing. */
  lemma {:induction false} QualifyingStable(lists: seq<seq<Posting>>, req: nat, m: nat, n: nat)
    requires m <= n
    requires forall e: nat :: m <= e < n ==> |Containing(lists, e)| < req
    ensures Qualifying(lists, req, n) == Qualifying(lists, req, m)
  {
    if m < n {
      QualifyingStable(lists, req, m, n - 1);
    }
  }

  lemma {:induction false} QualifyingMembers(lists: seq<seq<Posting>>, req: nat, b: nat)
    ensures Ascending(Qualifying(lists, req, b))
    ensures forall d: nat :: d in Qualifying(lists, req, b) <==> d < b && req <= |Containing(lists, d)|
  {
    if b > 0 {
      QualifyingMembers(lists, req, b - 1);
    }
  }

  /** One more than the largest document id of a list (0 for an empty list). */
  function ListBound(ps: seq<Posting>): nat
  {
    if ps == [] then 0
    else
      var b := ListBound(ps[..|ps| - 1]);
      if b <= ps[|ps| - 1].documentId then ps[|ps| - 1].documentId + 1 else b
  }

  /** One more than the largest document id of all lists. */
  function IdBound(lists: seq<seq<Posting>>): nat
  {
    if lists == [] then 0
    else
      var b := IdBound(lists[..|lists| - 1]);
      var c := ListBound(lists[|lists| - 1]);
      if b < c then c else b
  }

  lemma {:induction false} ListBoundAbove(ps: seq<Posting>, k: nat)
    requires k < |ps|
    ensures ps[k].documentId < ListBound(ps)
  {
    if k < |ps| - 1 {
      ListBoundAbove(ps[..|ps| - 1], k);
    }
  }

  /** Every document id of every list lies below `IdBound`. */
  lemma {:induction false} IdBoundAbove(lists: seq<seq<Posting>>, i: nat, k: nat)
    requires i < |lists| && k < |lists[i]|
    ensures lists[i][k].documentId < IdBound(lists)
  {
    if i < |lists| - 1 {
      IdBoundAbove(lists[..|lists| - 1], i, k);
    } else {
      ListBoundAbove(lists[i], k);
    }
  }

  /** The ranker updates for document `d`, one per list in `frontier`, in that order. */
  function Updates(u: seq<(Term, nat)>, lists: seq<seq<Posting>>, d: nat, frontier: seq<nat>): seq<RankerCall>
    requires |u| == |lists|
    requires forall k :: 0 <= k < |frontier| ==> frontier[k] < |lists| && d in Ids(lists[frontier[k]])
  {
    if frontier == [] then []
    else
      var i := frontier[|frontier| - 1];
      Updates(u, lists, d, frontier[..|frontier| - 1]) + [UpdateCall(u[i].0, u[i].1, PostingFor(lists[i], d))]
  }

  /** The calls that rank document `d`: reset, one update per list containing it, evaluate. */
  function DocumentCalls(u: seq<(Term, nat)>, lists: seq<seq<Posting>>, d: nat): seq<RankerCall>
    requires |u| == |lists|
  {
    [ResetCall(d)] + Updates(u, lists, d, Containing(lists, d)) + [EvaluateCall]
  }

  /** The sift of document `d`: the score the ranker gives it after its updates. */
  function SiftOf(u: seq<(Term, nat)>, lists: seq<seq<Posting>>, rank: (nat, seq<RankerCall>) -> real, d: nat): Sift
    requires |u| == |lists|
  {
    Sift(rank(d, Updates(u, lists, d, Containing(lists, d))), d)
  }

  /**
   * The documents the evaluation sifts are, in ascending order and each once,
   * exactly those in at least `req` of the lists.
   */
  lemma QualifyingSpec(lists: seq<seq<Posting>>, req: nat, d: nat)
    requires 1 <= req
    ensures Ascending(Qualifying(lists, req, IdBound(lists)))
    ensures d in Qualifying(lists, req, IdBound(lists)) <==> req <= |Containing(lists, d)|
  {
    QualifyingMembers(lists, req, IdBound(lists));
    if IdBound(lists) <= d {
      forall i | 0 <= i < |lists|
        ensures d !in Ids(lists[i])
      {
        if d in Ids(lists[i]) {
          IdsMember(lists[i], d);
          var k :| 0 <= k < |lists[i]| && lists[i][k].documentId == d;
          IdBoundAbove(lists, i, k);
        }
      }
      ContainingCount(lists, d, |lists|);
    }
  }

  /** `Containing` lists exactly the indices of the lists that contain `d`. */
  lemma ContainingSpec(lists: seq<seq<Posting>>, d: nat, i: nat)
    ensures i in Containing(lists, d) <==> i < |lists| && d in Ids(lists[i])
    ensures Ascending(Containing(lists, d))
  {
    ContainingMembers(lists, d, |lists|);
  }

  /** With N == M (threshold 1.0), a document qualifies iff every list contains it. */
  lemma AndQuery(lists: seq<seq<Posting>>, d: nat)
    requires 1 <= |lists|
    ensures d in Qualifying(lists, |lists|, IdBound(lists)) <==> forall i :: 0 <= i < |lists| ==> d in Ids(lists[i])
  {
    QualifyingSpec(lists, |lists|, d);
    ContainingCount(lists, d, |lists|);
  }

  /** With N == 1, a document qualifies iff some list contains it. */
  lemma OrQuery(lists: seq<seq<Posting>>, d: nat)
    ensures d in Qualifying(lists, 1, IdBound(lists)) <==> exists i :: 0 <= i < |lists| && d in Ids(lists[i])
  {
    QualifyingSpec(lists, 1, d);
    ContainingCount(lists, d, |lists|);
  }

  /** An empty query matches nothing. */
  lemma EmptyQuery(req: nat)
    requires 1 <= req
    ensures Qualifying([], req, IdBound([])) == []
  {
  }

  // ---------------------------------------------------------------------
  // Document-at-a-time traversal
  // ---------------------------------------------------------------------

  /** The posting at the cursor of list `i`. */
  function Current(lists: seq<seq<Posting>>, cur: seq<nat>, i: nat): Posting
    requires Live(lists, cur, i)
  {
    lists[i][cur[i]]
  }

  /** The list `i` is not exhausted (its cursor is not `None`). */
  predicate Live(lists: seq<seq<Posting>>, cur: seq<nat>, i: nat)
  {
    i < |lists| && i < |cur| && cur[i] < |lists[i]|
  }

  /** The cursor of list `i` is at document `d`. */
  predicate AtDocument(lists: seq<seq<Posting>>, cur: seq<nat>, d: nat, i: nat)
  {
    Live(lists, cur, i) && lists[i][cur[i]].documentId == d
  }

  /** `[i for i in range(n) if all_cursors[i]]`. */
  function RemainingUpTo(lists: seq<seq<Posting>>, cur: seq<nat>, n: nat): (r: seq<nat>)
    requires n <= |lists|
    ensures |r| <= n
    ensures forall k :: 0 <= k < |r| ==> r[k] < n && Live(lists, cur, r[k])
  {
    if n == 0 then []
    else RemainingUpTo(lists, cur, n - 1) + (if Live(lists, cur, n - 1) then [n - 1] else [])
  }

  /** The lists not yet exhausted. */
  function Remaining(lists: seq<seq<Posting>>, cur: seq<nat>): (r: seq<nat>)
    ensures forall k :: 0 <= k < |r| ==> Live(lists, cur, r[k])
  {
    RemainingUpTo(lists, cur, |lists|)
  }

  lemma {:induction false} RemainingMembers(lists: seq<seq<Posting>>, cur: seq<nat>, n: nat, i: nat)
    requires n <= |lists| && i < n && Live(lists, cur, i)
    ensures i in RemainingUpTo(lists, cur, n)
  {
    if i < n - 1 {
      RemainingMembers(lists, cur, n - 1, i);
    }
  }

  /** `[i for i in s if all_cursors[i].document_id == d]`. */
  function FrontierOf(lists: seq<seq<Posting>>, cur: seq<nat>, d: nat, s: seq<nat>): (r: seq<nat>)
    ensures |r| <= |s|
    ensures forall k :: 0 <= k < |r| ==> AtDocument(lists, cur, d, r[k])
  {
    if s == [] then []
    else
      FrontierOf(lists, cur, d, s[..|s| - 1])
        + (if AtDocument(lists, cur, d, s[|s| - 1]) then [s[|s| - 1]] else [])
  }

  /** `min([all_cursors[i].document_id for i in remaining])`. */
  function Lowest(lists: seq<seq<Posting>>, cur: seq<nat>, remaining: seq<nat>): (d: nat)
    requires remaining != []
    requires forall k :: 0 <= k < |remaining| ==> Live(lists, cur, remaining[k])
    ensures exists k :: 0 <= k < |remaining| && d == Current(lists, cur, remaining[k]).documentId
    ensures forall k :: 0 <= k < |remaining| ==> d <= Current(lists, cur, remaining[k]).documentId
  {
    var last := Current(lists, cur, remaining[|remaining| - 1]).documentId;
    if |remaining| == 1 then last
    else
      var d := Lowest(lists, cur, remaining[..|remaining| - 1]);
      if last < d then last else d
  }

  /**
   * The cursors are consistent with having handled every document below `b`:
   * what lies behind a cursor is below `b`, what it points to is not.
   */
  ghost predicate Traversal(lists: seq<seq<Posting>>, cur: seq<nat>, b: nat)
  {
    && |cur| == |lists|
    && (forall i :: 0 <= i < |lists| ==> cur[i] <= |lists[i]|)
    && (forall i :: 0 <= i < |lists| && 0 < cur[i] ==> lists[i][cur[i] - 1].documentId < b)
    && (forall i :: 0 <= i < |lists| && cur[i] < |lists[i]| ==> b <= lists[i][cur[i]].documentId)
  }

  /** The cursor of list `j` is consistent with having handled every document below `b`. */
  ghost predicate HandledAt(lists: seq<seq<Posting>>, cur: seq<nat>, b: nat, j: nat)
    requires j < |lists| && j < |cur|
  {
    && cur[j] <= |lists[j]|
    && (0 < cur[j] ==> lists[j][cur[j] - 1].documentId < b)
    && (cur[j] < |lists[j]| ==> b <= lists[j][cur[j]].documentId)
  }

  /** `Traversal` list by list, from list `i` on. */
  ghost predicate HandledFrom(lists: seq<seq<Posting>>, cur: seq<nat>, b: nat, i: nat)
    requires |cur| == |lists|
    decreases |lists| - i
  {
    i >= |lists| || (HandledAt(lists, cur, b, i) && HandledFrom(lists, cur, b, i + 1))
  }

  /** `Traversal` in a form the loop can carry without unfolding its quantifiers. */
  ghost predicate Handled(lists: seq<seq<Posting>>, cur: seq<nat>, b: nat)
  {
    |cur| == |lists| && HandledFrom(lists, cur, b, 0)
  }

  lemma {:induction false} HandledFromAll(lists: seq<seq<Posting>>, cur: seq<nat>, b: nat, i: nat)
    requires |cur| == |lists| && i <= |lists|
    ensures HandledFrom(lists, cur, b, i) <==> forall j :: i <= j < |lists| ==> HandledAt(lists, cur, b, j)
    decreases |lists| - i
  {
    if i < |lists| {
      HandledFromAll(lists, cur, b, i + 1);
    }
  }

  lemma HandledIsTraversal(lists: seq<seq<Posting>>, cur: seq<nat>, b: nat)
    ensures Handled(lists, cur, b) <==> Traversal(lists, cur, b)
  {
    if |cur| == |lists| {
      HandledFromAll(lists, cur, b, 0);
      if Handled(lists, cur, b) {
        forall i | 0 <= i < |lists|
          ensures cur[i] <= |lists[i]|
          ensures 0 < cur[i] ==> lists[i][cur[i] - 1].documentId < b
          ensures cur[i] < |lists[i]| ==> b <= lists[i][cur[i]].documentId
        {
          assert HandledAt(lists, cur, b, i);
        }
      }
      if Traversal(lists, cur, b) {
        forall i | 0 <= i < |lists|
          ensures HandledAt(lists, cur, b, i)
        {
        }
      }
    }
  }

  ghost predicate AllSorted(lists: seq<seq<Posting>>)
  {
    forall i :: 0 <= i < |lists| ==> StrictlyIncreasing(lists[i])
  }

  /** A document at or beyond `b` in list `i` is at or beyond its cursor. */
  lemma Ahead(lists: seq<seq<Posting>>, cur: seq<nat>, b: nat, i: nat, e: nat)
    requires Traversal(lists, cur, b) && AllSorted(lists)
    requires i < |lists| && b <= e && e in Ids(lists[i])
    ensures cur[i] < |lists[i]| && lists[i][cur[i]].documentId <= e
  {
    IdsMember(lists[i], e);
    var k :| 0 <= k < |lists[i]| && lists[i][k].documentId == e;
    if k < cur[i] {
      assert false;
    } else if cur[i] < k {
      assert lists[i][cur[i]].documentId < lists[i][k].documentId;
    }
  }

  /** The lowest current document is at or below every live cursor. */
  lemma LowestBelowLive(lists: seq<seq<Posting>>, cur: seq<nat>, d: nat)
    requires Remaining(lists, cur) != []
    requires d == Lowest(lists, cur, Remaining(lists, cur))
    ensures forall i :: Live(lists, cur, i) ==> d <= Current(lists, cur, i).documentId
  {
    forall i | Live(lists, cur, i)
      ensures d <= Current(lists, cur, i).documentId
    {
      RemainingMembers(lists, cur, |lists|, i);
    }
  }

  /** Filtering the remaining lists by `AtDocument` selects the lists that contain `d`. */
  lemma {:induction false} FrontierOfRemaining(lists: seq<seq<Posting>>, cur: seq<nat>, d: nat, n: nat)
    requires n <= |lists|
    requires forall i :: 0 <= i < n ==> (AtDocument(lists, cur, d, i) <==> d in Ids(lists[i]))
    ensures FrontierOf(lists, cur, d, RemainingUpTo(lists, cur, n)) == ContainingUpTo(lists, d, n)
  {
    if n > 0 {
      FrontierOfRemaining(lists, cur, d, n - 1);
      var s := RemainingUpTo(lists, cur, n);
      var s0 := RemainingUpTo(lists, cur, n - 1);
      var here := d in Ids(lists[n - 1]);
      assert AtDocument(lists, cur, d, n - 1) <==> here;
      assert ContainingUpTo(lists, d, n) == ContainingUpTo(lists, d, n - 1) + (if here then [n - 1] else []);
      if Live(lists, cur, n - 1) {
        assert s == s0 + [n - 1];
        assert s[..|s| - 1] == s0;
        assert FrontierOf(lists, cur, d, s) == FrontierOf(lists, cur, d, s0) + (if here then [n - 1] else []);
      } else {
        assert s == s0 && !here;
      }
    }
  }

  /** At the lowest document, a list contains it exactly when its cursor is at it. */
  lemma AtLowest(lists: seq<seq<Posting>>, cur: seq<nat>, b: nat, d: nat, i: nat)
    requires Traversal(lists, cur, b) && AllSorted(lists)
    requires forall j :: Live(lists, cur, j) ==> d <= Current(lists, cur, j).documentId
    requires b <= d && i < |lists|
    ensures AtDocument(lists, cur, d, i) <==> d in Ids(lists[i])
  {
    if d in Ids(lists[i]) {
      Ahead(lists, cur, b, i, d);
      assert Live(lists, cur, i);
      assert d <= Current(lists, cur, i).documentId;
    }
    if AtDocument(lists, cur, d, i) {
      IdsAt(lists[i], cur[i]);
    }
  }

  /** No list contains a document strictly between `b` and the lowest current one. */
  lemma Between(lists: seq<seq<Posting>>, cur: seq<nat>, b: nat, d: nat, e: nat)
    requires Traversal(lists, cur, b) && AllSorted(lists)
    requires forall j :: Live(lists, cur, j) ==> d <= Current(lists, cur, j).documentId
    requires b <= e < d
    ensures Containing(lists, e) == []
  {
    forall i | 0 <= i < |lists|
      ensures e !in Ids(lists[i])
    {
      if e in Ids(lists[i]) {
        Ahead(lists, cur, b, i, e);
        assert Live(lists, cur, i);
      }
    }
    ContainingCount(lists, e, |lists|);
  }

  /** The frontier of the lowest document is the set of lists containing it, and nothing lies between. */
  lemma FrontierIsContaining(lists: seq<seq<Posting>>, cur: seq<nat>, b: nat, d: nat)
    requires Traversal(lists, cur, b) && AllSorted(lists)
    requires Remaining(lists, cur) != [] && d == Lowest(lists, cur, Remaining(lists, cur)) && b <= d
    ensures FrontierOf(lists, cur, d, Remaining(lists, cur)) == Containing(lists, d)
    ensures forall e: nat :: b <= e < d ==> Containing(lists, e) == []
    ensures d < IdBound(lists)
  {
    LowestBelowLive(lists, cur, d);
    forall i | 0 <= i < |lists|
      ensures AtDocument(lists, cur, d, i) <==> d in Ids(lists[i])
    {
      AtLowest(lists, cur, b, d, i);
    }
    FrontierOfRemaining(lists, cur, d, |lists|);
    forall e: nat | b <= e < d
      ensures Containing(lists, e) == []
    {
      Between(lists, cur, b, d, e);
    }
    var i := Remaining(lists, cur)[0];
    IdBoundAbove(lists, i, cur[i]);
  }

  /** Advancing the frontier's cursors moves the traversal past `d`. */
  lemma AdvanceTraversal(lists: seq<seq<Posting>>, cur: seq<nat>, b: nat, d: nat)
    requires Traversal(lists, cur, b) && AllSorted(lists)
    requires Remaining(lists, cur) != [] && d == Lowest(lists, cur, Remaining(lists, cur)) && b <= d
    ensures Traversal(lists, Advanced(cur, Containing(lists, d)), d + 1)
  {
    var next := Advanced(cur, Containing(lists, d));
    ContainingMembers(lists, d, |lists|);
    LowestBelowLive(lists, cur, d);
    forall j | 0 <= j < |lists|
      ensures next[j] <= |lists[j]|
      ensures 0 < next[j] ==> lists[j][next[j] - 1].documentId < d + 1
      ensures next[j] < |lists[j]| ==> d + 1 <= lists[j][next[j]].documentId
    {
      AdvancedAt(lists, cur, b, d, j, next[j]);
    }
  }

  /** The cursor of list `j`, moved on exactly when the list contains `d`, has handled every document up to `d`. */
  lemma AdvancedAt(lists: seq<seq<Posting>>, cur: seq<nat>, b: nat, d: nat, j: nat, n: nat)
    requires Traversal(lists, cur, b) && AllSorted(lists) && b <= d && j < |lists|
    requires forall i :: Live(lists, cur, i) ==> d <= Current(lists, cur, i).documentId
    requires n == cur[j] + (if d in Ids(lists[j]) then 1 else 0)
    ensures n <= |lists[j]|
    ensures 0 < n ==> lists[j][n - 1].documentId < d + 1
    ensures n < |lists[j]| ==> d + 1 <= lists[j][n].documentId
  {
    AtLowest(lists, cur, b, d, j);
    if AtDocument(lists, cur, d, j) {
      assert n == cur[j] + 1;
      if n < |lists[j]| {
        assert lists[j][cur[j]].documentId < lists[j][n].documentId;
      }
    } else {
      assert n == cur[j];
      if Live(lists, cur, j) {
        assert d <= Current(lists, cur, j).documentId;
      }
    }
  }

  /** After the loop: no document at or beyond `b` can still qualify. */
  lemma Finish(lists: seq<seq<Posting>>, req: nat, cur: seq<nat>, b: nat)
    requires Traversal(lists, cur, b) && AllSorted(lists)
    requires b <= IdBound(lists)
    requires |Remaining(lists, cur)| < req
    ensures Qualifying(lists, req, IdBound(lists)) == Qualifying(lists, req, b)
  {
    forall e: nat | b <= e < IdBound(lists)
      ensures |Containing(lists, e)| < req
    {
      forall i | 0 <= i < |lists| && e in Ids(lists[i])
        ensures Live(lists, cur, i)
      {
        Ahead(lists, cur, b, i, e);
      }
      ContainingWithinRemaining(lists, cur, e, |lists|);
    }
    QualifyingStable(lists, req, b, IdBound(lists));
  }

  /** A document only in live lists is in no more lists than remain. */
  lemma {:induction false} ContainingWithinRemaining(lists: seq<seq<Posting>>, cur: seq<nat>, e: nat, n: nat)
    requires n <= |lists|
    requires forall i :: 0 <= i < n && e in Ids(lists[i]) ==> Live(lists, cur, i)
    ensures |ContainingUpTo(lists, e, n)| <= |RemainingUpTo(lists, cur, n)|
  {
    if n > 0 {
      ContainingWithinRemaining(lists, cur, e, n - 1);
    }
  }

  /** `for i in frontier: ranker.update(...)`, bracketed by reset and evaluate. */
  method RankDocument(u: seq<(Term, nat)>, lists: seq<seq<Posting>>, cur: seq<nat>, d: nat,
                      frontier: seq<nat>, rank: (nat, seq<RankerCall>) -> real)
    returns (calls: seq<RankerCall>, score: real)
    requires |u| == |lists| && AllSorted(lists)
    requires forall k :: 0 <= k < |frontier| ==> AtDocument(lists, cur, d, frontier[k])
    ensures forall k :: 0 <= k < |frontier| ==> frontier[k] < |lists| && d in Ids(lists[frontier[k]])
    ensures calls == [ResetCall(d)] + Updates(u, lists, d, frontier) + [EvaluateCall]
    ensures score == rank(d, Updates(u, lists, d, frontier))
  {
    forall k | 0 <= k < |frontier|
      ensures frontier[k] < |lists| && d in Ids(lists[frontier[k]])
    {
      IdsAt(lists[frontier[k]], cur[frontier[k]]);
    }
    var updates := [];
    for k := 0 to |frontier|
      invariant updates == Updates(u, lists, d, frontier[..k])
    {
      var i := frontier[k];
      PostingForAt(lists[i], cur[i]);
      assert frontier[..k + 1][..k] == frontier[..k];
      updates := updates + [UpdateCall(u[i].0, u[i].1, lists[i][cur[i]])];
    }
    assert frontier[..|frontier|] == frontier;
    score := rank(d, updates);
    calls := [ResetCall(d)] + updates + [EvaluateCall];
  }

  /** The cursors after moving those of the lists in `frontier` one posting along. */
  function Advanced(cur: seq<nat>, frontier: seq<nat>): (next: seq<nat>)
    ensures |next| == |cur|
    ensures forall i :: 0 <= i < |cur| ==> next[i] == cur[i] + (if i in frontier then 1 else 0)
  {
    seq(|cur|, i requires 0 <= i < |cur| => cur[i] + (if i in frontier then 1 else 0))
  }

  /** `for i in frontier: all_cursors[i] = next(posting_lists[i], None)`. */
  method Advance(cursors: array<nat>, frontier: seq<nat>)
    requires Ascending(frontier)
    requires forall k :: 0 <= k < |frontier| ==> frontier[k] < cursors.Length
    modifies cursors
    ensures cursors[..] == Advanced(old(cursors[..]), frontier)
  {
    for k := 0 to |frontier|
      invariant forall i :: 0 <= i < cursors.Length ==>
        cursors[i] == old(cursors[i]) + (if i in frontier[..k] then 1 else 0)
    {
      assert forall i :: i in frontier[..k + 1] <==> i in frontier[..k] || i == frontier[k];
      assert frontier[k] !in frontier[..k];
      cursors[frontier[k]] := cursors[frontier[k]] + 1;
    }
    assert frontier[..|frontier|] == frontier;
  }

  /**
   * `SimpleSearchEngine.evaluate`: sifts every document that contains at least N
   * of the M unique query terms, in ascending document order, with the score the
   * ranker gives it after one update per query term it contains. `calls[k]` is
   * the run of ranker calls made for the `k`-th sifted document.
   */
  method Evaluate(queryTerms: seq<Term>, options: Options, index: Term -> seq<Posting>,
                  rank: (nat, seq<RankerCall>) -> real)
    returns (sifts: seq<Sift>, calls: seq<seq<RankerCall>>, capacity: nat)
    requires forall t :: StrictlyIncreasing(index(t))
    ensures capacity == SieveCapacity(options.hitCount)
    ensures
      var u := UniqueTerms(queryTerms);
      var lists := PostingLists(u, index);
      var docs := Qualifying(lists, RequiredMinimum(|u|, MatchThreshold(options)), IdBound(lists));
      && |sifts| == |docs| && |calls| == |docs|
      && forall k :: 0 <= k < |docs| ==>
           sifts[k] == SiftOf(u, lists, rank, docs[k]) && calls[k] == DocumentCalls(u, lists, docs[k])
  {
    var u := UniqueTerms(queryTerms);
    var lists := PostingLists(u, index);
    var req := RequiredMinimum(|u|, MatchThreshold(options));
    capacity := SieveCapacity(options.hitCount);
    sifts, calls := Traverse(u, lists, req, rank);
  }

  /** The sifts and ranker calls are those of the documents `docs`, one each, in order. */
  ghost predicate Ranked(u: seq<(Term, nat)>, lists: seq<seq<Posting>>, rank: (nat, seq<RankerCall>) -> real,
                         docs: seq<nat>, sifts: seq<Sift>, calls: seq<seq<RankerCall>>)
  {
    && |u| == |lists| && |sifts| == |docs| && |calls| == |docs|
    && forall k :: 0 <= k < |docs| ==>
         sifts[k] == SiftOf(u, lists, rank, docs[k]) && calls[k] == DocumentCalls(u, lists, docs[k])
  }

  /** One turn of the loop extends the sifts and calls by those of `d` exactly when `d` qualifies. */
  lemma RankedStep(u: seq<(Term, nat)>, lists: seq<seq<Posting>>, rank: (nat, seq<RankerCall>) -> real,
                   req: nat, b: nat, d: nat, docs: seq<nat>, sifts: seq<Sift>, calls: seq<seq<RankerCall>>,
                   sift: seq<Sift>, documentCalls: seq<seq<RankerCall>>)
    requires |u| == |lists| && docs == Qualifying(lists, req, b) && b <= d
    requires Ranked(u, lists, rank, docs, sifts, calls)
    requires req <= |Containing(lists, d)| ==>
      && Qualifying(lists, req, d + 1) == Qualifying(lists, req, b) + [d]
      && sift == [SiftOf(u, lists, rank, d)]
      && documentCalls == [DocumentCalls(u, lists, d)]
    requires req > |Containing(lists, d)| ==>
      && Qualifying(lists, req, d + 1) == Qualifying(lists, req, b)
      && sift == [] && documentCalls == []
    ensures Ranked(u, lists, rank, Qualifying(lists, req, d + 1), sifts + sift, calls + documentCalls)
  {
    if req > |Containing(lists, d)| {
      assert sifts + sift == sifts && calls + documentCalls == calls;
    }
  }

  /**
   * The document-at-a-time loop of `evaluate`: walks the sorted posting lists
   * once, lowest document first, and ranks and sifts each document found in
   * at least `req` of them.
   */
  method Traverse(u: seq<(Term, nat)>, lists: seq<seq<Posting>>, req: nat, rank: (nat, seq<RankerCall>) -> real)
    returns (sifts: seq<Sift>, calls: seq<seq<RankerCall>>)
    requires |u| == |lists| && AllSorted(lists) && 1 <= req
    ensures var docs := Qualifying(lists, req, IdBound(lists));
      && |sifts| == |docs| && |calls| == |docs|
      && forall k :: 0 <= k < |docs| ==>
           sifts[k] == SiftOf(u, lists, rank, docs[k]) && calls[k] == DocumentCalls(u, lists, docs[k])
  {
    var cursors := new nat[|lists|](i => 0);
    HandledIsTraversal(lists, cursors[..], 0);
    var remaining := Remaining(lists, cursors[..]);
    sifts, calls := [], [];
    ghost var b: nat := 0;
    ghost var docs: seq<nat> := [];
    while req <= |remaining|
      invariant cursors.Length == |lists|
      invariant Handled(lists, cursors[..], b) && b <= IdBound(lists)
      invariant remaining == Remaining(lists, cursors[..])
      invariant docs == Qualifying(lists, req, b)
      invariant Ranked(u, lists, rank, docs, sifts, calls)
      decreases IdBound(lists) - b
    {
      var documentCalls, sift, d := Visit(u, lists, req, rank, cursors, remaining, b);
      RankedStep(u, lists, rank, req, b, d, docs, sifts, calls, sift, documentCalls);
      calls := calls + documentCalls;
      sifts := sifts + sift;
      docs := Qualifying(lists, req, d + 1);
      remaining := Remaining(lists, cursors[..]);
      b := d + 1;
    }
    HandledIsTraversal(lists, cursors[..], b);
    Finish(lists, req, cursors[..], b);
  }

  /**
   * One turn of the loop: the lowest current document `d`, its frontier, the
   * ranking and sift when the frontier is large enough, and the advance of
   * the frontier's cursors.
   */
  method Visit(u: seq<(Term, nat)>, lists: seq<seq<Posting>>, req: nat, rank: (nat, seq<RankerCall>) -> real,
               cursors: array<nat>, remaining: seq<nat>, ghost b: nat)
    returns (documentCalls: seq<seq<RankerCall>>, sift: seq<Sift>, d: nat)
    requires |u| == |lists| && AllSorted(lists) && 1 <= req
    requires cursors.Length == |lists| && Handled(lists, cursors[..], b)
    requires remaining == Remaining(lists, cursors[..]) && req <= |remaining|
    modifies cursors
    ensures b <= d < IdBound(lists)
    ensures Handled(lists, cursors[..], d + 1)
    ensures req <= |Containing(lists, d)| ==>
      && Qualifying(lists, req, d + 1) == Qualifying(lists, req, b) + [d]
      && sift == [SiftOf(u, lists, rank, d)]
      && documentCalls == [DocumentCalls(u, lists, d)]
    ensures req > |Containing(lists, d)| ==>
      && Qualifying(lists, req, d + 1) == Qualifying(lists, req, b)
      && sift == [] && documentCalls == []
  {
    var cur := cursors[..];
    HandledIsTraversal(lists, cur, b);
    d := Lowest(lists, cur, remaining);
    var frontier := FrontierOf(lists, cur, d, remaining);
    FrontierIsContaining(lists, cur, b, d);
    ContainingAscending(lists, d, |lists|);
    QualifyingStep(lists, req, cur, b, d);
    if req <= |frontier| {
      var calls, score := RankDocument(u, lists, cur, d, frontier, rank);
      assert calls == DocumentCalls(u, lists, d);
      assert Sift(score, d) == SiftOf(u, lists, rank, d);
      documentCalls, sift := [calls], [Sift(score, d)];
    } else {
      documentCalls, sift := [], [];
      assert Qualifying(lists, req, b) + [] == Qualifying(lists, req, b);
    }
    Advance(cursors, frontier);
    AdvanceTraversal(lists, cur, b, d);
    HandledIsTraversal(lists, cursors[..], d + 1);
  }

  /** One turn of the loop extends the qualifying documents by `d` at most. */
  lemma QualifyingStep(lists: seq<seq<Posting>>, req: nat, cur: seq<nat>, b: nat, d: nat)
    requires 1 <= req
    requires Traversal(lists, cur, b) && AllSorted(lists)
    requires Remaining(lists, cur) != [] && d == Lowest(lists, cur, Remaining(lists, cur)) && b <= d
    ensures Qualifying(lists, req, d + 1)
      == Qualifying(lists, req, b) + (if req <= |Containing(lists, d)| then [d] else [])
  {
    FrontierIsContaining(lists, cur, b, d);
    QualifyingStable(lists, req, b, d);
  }

}
