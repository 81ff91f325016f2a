/**
 * The Python matcher of the science-fair project, as functions of the whole
 * heap of `State` objects: building an NFA from a postfix expression and
 * running it over a line. A state object is an index into the heap; an edge
 * `(label, state)` carries the character it reads, `ε` for none.
 *
 * Each function here mirrors one Python function step by step; the heap
 * methods in `ThompsonPy` are proved to compute exactly these functions,
 * and the lemmas below state what the Python code promises about them.
 */
module ThompsonPySpec {
  import opened Wrappers

  /** The label of an edge that reads nothing. */
  const Epsilon: char := 'ε'

  /** An out-edge: the character it reads and the state it leads to. */
  datatype Edge = Edge(letter: char, target: nat)

  /** A `State` object: its accept flag, the list it was last added to, where its match began, and two edges. */
  datatype PyState = PyState(accept: bool, lastList: int, start: int, outa: Option<Edge>, outb: Option<Edge>)

  /** An `NFA` object: its initial and accepting states. */
  datatype Nfa = Nfa(initial: nat, accepting: nat)

  /** The heap and a Python list of states after `add` or `step`. */
  datatype Lists = Lists(store: seq<PyState>, list: seq<nat>)

  /** A match: the tuple `(start, end)`. */
  datatype Span = Span(start: int, end: int)

  /** The heap after `match`, the matches it returns, and the last list id it used. */
  datatype Run = Run(store: seq<PyState>, matches: seq<Span>, listId: int)

  /** A fresh `State(accept)`: not on any list, start 0, no edges. */
  function NewState(accept: bool): PyState {
    PyState(accept, 0, 0, None, None)
  }

  predicate EdgeBelow(e: Option<Edge>, n: int) {
    e.Some? ==> e.value.target < n
  }

  /** Every edge leads to a state of the heap. */
  predicate Closed(st: seq<PyState>) {
    forall x :: 0 <= x < |st| ==> EdgeBelow(st[x].outa, |st|) && EdgeBelow(st[x].outb, |st|)
  }

  /** Two heaps with the same states, flags and edges; only `last_list` and `start` may differ. */
  ghost predicate SameShape(a: seq<PyState>, b: seq<PyState>) {
    && |a| == |b|
    && forall x :: 0 <= x < |a| ==> a[x].accept == b[x].accept && a[x].outa == b[x].outa && a[x].outb == b[x].outb
  }

  /** The states not last added to list `id`. */
  ghost function Unmarked(st: seq<PyState>, id: int): set<nat> {
    set x: nat | x < |st| && st[x].lastList != id
  }

  /** State `x` marked as added to list `id`, with its match beginning at `start`. */
  function Mark(st: seq<PyState>, x: nat, id: int, start: int): (r: seq<PyState>)
    requires x < |st|
    ensures |r| == |st| && r[x].lastList == id
    ensures Unmarked(r, id) == Unmarked(st, id) - {x}
  {
    st[x := st[x].(lastList := id, start := start)]
  }

  /**
   * `add`: unless the state is already on list `id`, marks it, records
   * `start`, appends it, and adds what its `ε`-edges lead to.
   */
  function Add(st: seq<PyState>, l: seq<nat>, x: nat, start: int, id: int): (r: Lists)
    requires Closed(st) && x < |st|
    ensures SameShape(st, r.store) && Closed(r.store)
    ensures Unmarked(r.store, id) <= Unmarked(st, id)
    ensures InHeap(st, l) ==> InHeap(r.store, r.list)
    decreases Unmarked(st, id), 0
  {
    if st[x].lastList == id then Lists(st, l)
    else
      var st1 := Mark(st, x, id, start);
      var r1 := AddIfLabelMatch(st1, l + [x], st1[x].outa, Epsilon, start, id);
      AddIfLabelMatch(r1.store, r1.list, r1.store[x].outb, Epsilon, start, id)
  }

  /** `add_if_label_match`: adds the target of `out` if `out` reads `c`. */
  function AddIfLabelMatch(st: seq<PyState>, l: seq<nat>, out: Option<Edge>, c: char, start: int, id: int): (r: Lists)
    requires Closed(st) && EdgeBelow(out, |st|)
    ensures SameShape(st, r.store) && Closed(r.store)
    ensures Unmarked(r.store, id) <= Unmarked(st, id)
    ensures InHeap(st, l) ==> InHeap(r.store, r.list)
    decreases Unmarked(st, id), 1
  {
    if out.Some? && out.value.letter == c then Add(st, l, out.value.target, start, id) else Lists(st, l)
  }

  /** Every index of `l` is a state of the heap. */
  predicate InHeap(st: seq<PyState>, l: seq<nat>) {
    forall k :: 0 <= k < |l| ==> l[k] < |st|
  }

  /**
   * `step`: for each state of `states` in turn, adds what its edges reading
   * `c` lead to, with the state's `start` as it is at that moment.
   */
  function Step(st: seq<PyState>, c: char, states: seq<nat>, nl: seq<nat>, id: int): (r: Lists)
    requires Closed(st) && InHeap(st, states)
    ensures SameShape(st, r.store) && Closed(r.store)
    ensures InHeap(st, nl) ==> InHeap(r.store, r.list)
    decreases |states|
  {
    if states == [] then Lists(st, nl)
    else
      var x := states[0];
      var r1 := AddIfLabelMatch(st, nl, st[x].outa, c, st[x].start, id);
      var r2 := AddIfLabelMatch(r1.store, r1.list, r1.store[x].outb, c, r1.store[x].start, id);
      Step(r2.store, c, states[1..], r2.list, id)
  }

  /** Both states of `nfa` are in the heap. */
  predicate NfaIn(st: seq<PyState>, nfa: Nfa) {
    nfa.initial < |st| && nfa.accepting < |st|
  }

  /**
   * One pass of `match`'s loop at position `i`, and the rest of the loop:
   * the list id advances; a character outside the expression's alphabet
   * clears the states; otherwise the initial state (starting at `i`) joins
   * the current states, the step is taken, and a reached accepting state
   * yields a match and clears the states.
   */
  function MatchLoop(st: seq<PyState>, s: string, nfa: Nfa, charSet: set<char>, i: nat, id: int,
                     states: seq<nat>, matches: seq<Span>): (r: Run)
    requires Closed(st) && NfaIn(st, nfa) && i <= |s| && InHeap(st, states)
    ensures SameShape(st, r.store)
    decreases |s| - i
  {
    if i == |s| then Run(st, matches, id)
    else
      var id' := id + 1;
      if s[i] !in charSet then MatchLoop(st, s, nfa, charSet, i + 1, id', [], matches)
      else
        var r2 := Advance(st, nfa, s[i], i, id', states);
        if nfa.accepting in r2.list then
          MatchLoop(r2.store, s, nfa, charSet, i + 1, id', [], matches + [Span(r2.store[nfa.accepting].start, i + 1)])
        else
          MatchLoop(r2.store, s, nfa, charSet, i + 1, id', r2.list, matches)
  }

  /**
   * The body of `match`'s loop at position `i` with list id `id`: the initial
   * state is stamped with start `i` and added, with its closure, to the
   * current states, then the list steps over character `c`.
   */
  function Advance(st: seq<PyState>, nfa: Nfa, c: char, i: int, id: int, states: seq<nat>): (r: Lists)
    requires Closed(st) && NfaIn(st, nfa) && InHeap(st, states)
    ensures SameShape(st, r.store) && Closed(r.store) && InHeap(r.store, r.list)
  {
    var st1 := st[nfa.initial := st[nfa.initial].(start := i)];
    var r1 := Add(st1, states, nfa.initial, i, id);
    Step(r1.store, c, r1.list, [], id)
  }

  /** `match` as written: the list id restarts at 0 on every call. */
  function Match(st: seq<PyState>, s: string, nfa: Nfa, charSet: set<char>): Run
    requires Closed(st) && NfaIn(st, nfa)
  {
    MatchLoop(st, s, nfa, charSet, 0, 0, [], [])
  }

  /** `match` with the list id carried over from the previous call, as the marks on the states are. */
  function MatchContinuing(st: seq<PyState>, s: string, nfa: Nfa, charSet: set<char>, listId: int): Run
    requires Closed(st) && NfaIn(st, nfa)
  {
    MatchLoop(st, s, nfa, charSet, 0, listId, [], [])
  }

  /** The alphabet of the expression: every character but the three operators. */
  function CharSet(regexp: string): (r: set<char>)
    ensures forall c :: c in r <==> c in regexp && c != '|' && c != '.' && c != '*'
  {
    set c | c in regexp && c != '|' && c != '.' && c != '*'
  }

  // What `add` and `step` do to the heap and the lists.

  /**
   * From `a` to `b` only states not on list `id` changed, each now on it
   * with a start between `lo` and `hi`.
   */
  ghost predicate Marks(a: seq<PyState>, b: seq<PyState>, id: int, lo: int, hi: int) {
    && |a| == |b|
    && forall x :: 0 <= x < |a| ==>
         || b[x] == a[x]
         || (a[x].lastList != id && b[x] == a[x].(lastList := id, start := b[x].start) && lo <= b[x].start <= hi)
  }

  /**
   * `l'` is `l` followed by distinct states that were not on list `id` in
   * `a` and are in `b`, and every state that joined the list is among them.
   */
  ghost predicate Appends(a: seq<PyState>, b: seq<PyState>, l: seq<nat>, l': seq<nat>, id: int) {
    && |a| == |b|
    && |l| <= |l'| && l'[..|l|] == l
    && (forall k :: |l| <= k < |l'| ==> l'[k] < |a| && a[l'[k]].lastList != id && b[l'[k]].lastList == id)
    && (forall j, k :: |l| <= j < k < |l'| ==> l'[j] != l'[k])
    && (forall x :: 0 <= x < |a| && a[x].lastList != id && b[x].lastList == id ==> x in l'[|l|..])
  }

  /** `e` is an `ε`-edge to `y`. */
  predicate EpsTo(e: Option<Edge>, y: nat) {
    e.Some? && e.value.letter == Epsilon && e.value.target == y
  }

  /** Every `ε`-edge of state `x` leads to a state on list `id`. */
  ghost predicate EpsSuccessorsOn(st: seq<PyState>, x: nat, id: int)
    requires x < |st| && Closed(st)
  {
    && (st[x].outa.Some? && st[x].outa.value.letter == Epsilon ==> st[st[x].outa.value.target].lastList == id)
    && (st[x].outb.Some? && st[x].outb.value.letter == Epsilon ==> st[st[x].outb.value.target].lastList == id)
  }

  /** Every state that joined list `id` between `a` and `b` has its `ε`-successors on it too. */
  ghost predicate ClosedNew(a: seq<PyState>, b: seq<PyState>, id: int)
    requires Closed(b) && |a| == |b|
  {
    forall x :: 0 <= x < |a| && a[x].lastList != id && b[x].lastList == id ==> EpsSuccessorsOn(b, x, id)
  }

  lemma MarksTrans(a: seq<PyState>, b: seq<PyState>, c: seq<PyState>, id: int, lo: int, hi: int)
    requires Marks(a, b, id, lo, hi) && Marks(b, c, id, lo, hi)
    ensures Marks(a, c, id, lo, hi)
  {
  }

  lemma MarksWiden(a: seq<PyState>, b: seq<PyState>, id: int, lo: int, hi: int, lo': int, hi': int)
    requires Marks(a, b, id, lo, hi) && lo' <= lo && hi <= hi'
    ensures Marks(a, b, id, lo', hi')
  {
  }

  /** From `a` to `b` only states not on list `id` changed, each now on it, with any start. */
  ghost predicate MarksAny(a: seq<PyState>, b: seq<PyState>, id: int) {
    && |a| == |b|
    && forall x :: 0 <= x < |a| ==>
         b[x] == a[x] || (a[x].lastList != id && b[x] == a[x].(lastList := id, start := b[x].start))
  }

  lemma MarksIsAny(a: seq<PyState>, b: seq<PyState>, id: int, lo: int, hi: int)
    requires Marks(a, b, id, lo, hi)
    ensures MarksAny(a, b, id)
  {
  }

  lemma MarksAnyTrans(a: seq<PyState>, b: seq<PyState>, c: seq<PyState>, id: int)
    requires MarksAny(a, b, id) && MarksAny(b, c, id)
    ensures MarksAny(a, c, id)
  {
  }

  lemma AppendsTrans(a: seq<PyState>, b: seq<PyState>, c: seq<PyState>, l0: seq<nat>, l1: seq<nat>, l2: seq<nat>,
                     id: int)
    requires MarksAny(a, b, id) && MarksAny(b, c, id)
    requires Appends(a, b, l0, l1, id) && Appends(b, c, l1, l2, id)
    ensures Appends(a, c, l0, l2, id)
  {
    assert l2[..|l1|][..|l0|] == l2[..|l0|];
    forall k | |l0| <= k < |l2|
      ensures l2[k] < |a| && a[l2[k]].lastList != id && c[l2[k]].lastList == id
    {
      if k < |l1| {
        assert l2[k] == l1[k];
      }
    }
    forall j, k | |l0| <= j < k < |l2|
      ensures l2[j] != l2[k]
    {
      if j < |l1| && k >= |l1| {
        assert l2[j] == l1[j];
      } else if k < |l1| {
        assert l2[j] == l1[j] && l2[k] == l1[k];
      }
    }
    forall x | 0 <= x < |a| && a[x].lastList != id && c[x].lastList == id
      ensures x in l2[|l0|..]
    {
      if b[x].lastList == id {
        var k :| 0 <= k < |l1[|l0|..]| && l1[|l0|..][k] == x;
        assert l2[|l0| + k] == x;
      } else {
        var k :| 0 <= k < |l2[|l1|..]| && l2[|l1|..][k] == x;
        assert l2[|l1| + k] == x;
      }
    }
  }

  lemma ClosedNewTrans(a: seq<PyState>, b: seq<PyState>, c: seq<PyState>, id: int, lo: int, hi: int)
    requires Closed(b) && Closed(c) && |a| == |b|
    requires SameShape(b, c) && Marks(b, c, id, lo, hi)
    requires ClosedNew(a, b, id) && ClosedNew(b, c, id)
    ensures ClosedNew(a, c, id)
  {
    forall x | 0 <= x < |a| && a[x].lastList != id && c[x].lastList == id
      ensures EpsSuccessorsOn(c, x, id)
    {
      if b[x].lastList == id {
        assert EpsSuccessorsOn(b, x, id);
      }
    }
  }

  /** Marking `x` first does not change which states joined the list, once `x`'s successors are on it. */
  lemma ClosedNewMarked(st: seq<PyState>, st1: seq<PyState>, b: seq<PyState>, x: nat, id: int)
    requires Closed(b) && |st| == |st1| == |b| && x < |st|
    requires forall y :: 0 <= y < |st| && y != x ==> st1[y].lastList == st[y].lastList
    requires ClosedNew(st1, b, id) && EpsSuccessorsOn(b, x, id)
    ensures ClosedNew(st, b, id)
  {
  }

  /** The two edges followed by `add`, put together. */
  lemma AddComposed(st: seq<PyState>, l: seq<nat>, x: nat, start: int, id: int, r1: Lists, r2: Lists)
    requires Closed(st) && x < |st| && st[x].lastList != id
    requires Closed(r1.store) && Closed(r2.store)
    requires SameShape(Mark(st, x, id, start), r1.store) && SameShape(r1.store, r2.store)
    requires Marks(Mark(st, x, id, start), r1.store, id, start, start) && Marks(r1.store, r2.store, id, start, start)
    requires Appends(Mark(st, x, id, start), r1.store, l + [x], r1.list, id)
    requires Appends(r1.store, r2.store, r1.list, r2.list, id)
    requires ClosedNew(Mark(st, x, id, start), r1.store, id) && ClosedNew(r1.store, r2.store, id)
    requires st[x].outa.Some? && st[x].outa.value.letter == Epsilon ==> r1.store[st[x].outa.value.target].lastList == id
    requires st[x].outb.Some? && st[x].outb.value.letter == Epsilon ==> r2.store[st[x].outb.value.target].lastList == id
    ensures Marks(st, r2.store, id, start, start) && Appends(st, r2.store, l, r2.list, id)
    ensures r2.store[x].lastList == id && ClosedNew(st, r2.store, id)
  {
    var st1 := Mark(st, x, id, start);
    assert Appends(st, st1, l, l + [x], id);
    MarksTrans(st, st1, r1.store, id, start, start);
    MarksTrans(st, r1.store, r2.store, id, start, start);
    MarksIsAny(st, st1, id, start, start);
    MarksIsAny(st1, r1.store, id, start, start);
    MarksIsAny(r1.store, r2.store, id, start, start);
    MarksIsAny(st, r1.store, id, start, start);
    AppendsTrans(st, st1, r1.store, l, l + [x], r1.list, id);
    AppendsTrans(st, r1.store, r2.store, l, r1.list, r2.list, id);
    ClosedNewTrans(st1, r1.store, r2.store, id, start, start);
    ClosedNewMarked(st, st1, r2.store, x, id);
  }

  /**
   * `add` puts a state on list `id` at most once: it marks, with this
   * `start`, only states not yet on the list, appends each of them exactly
   * once, leaves the state it was given on the list, and closes over
   * `ε`-edges: every state it adds has its `ε`-successors on the list.
   */
  lemma {:induction false} AddFacts(st: seq<PyState>, l: seq<nat>, x: nat, start: int, id: int)
    requires Closed(st) && x < |st|
    ensures var r := Add(st, l, x, start, id);
              && Marks(st, r.store, id, start, start) && Appends(st, r.store, l, r.list, id)
              && r.store[x].lastList == id && ClosedNew(st, r.store, id)
    decreases Unmarked(st, id), 0
  {
    if st[x].lastList != id {
      var st1 := Mark(st, x, id, start);
      var r1 := AddIfLabelMatch(st1, l + [x], st1[x].outa, Epsilon, start, id);
      var r2 := AddIfLabelMatch(r1.store, r1.list, r1.store[x].outb, Epsilon, start, id);
      assert Add(st, l, x, start, id) == r2;
      FollowFacts(st1, l + [x], st1[x].outa, Epsilon, start, id);
      FollowFacts(r1.store, r1.list, r1.store[x].outb, Epsilon, start, id);
      AddComposed(st, l, x, start, id, r1, r2);
    }
  }

  /** `add_if_label_match` does what `add` does when the edge reads `c`, and nothing otherwise. */
  lemma {:induction false} FollowFacts(st: seq<PyState>, l: seq<nat>, out: Option<Edge>, c: char, start: int, id: int)
    requires Closed(st) && EdgeBelow(out, |st|)
    ensures var r := AddIfLabelMatch(st, l, out, c, start, id);
              && Marks(st, r.store, id, start, start) && Appends(st, r.store, l, r.list, id)
              && (out.Some? && out.value.letter == c ==> r.store[out.value.target].lastList == id)
              && ClosedNew(st, r.store, id)
    decreases Unmarked(st, id), 1
  {
    if out.Some? && out.value.letter == c {
      AddFacts(st, l, out.value.target, start, id);
    }
  }

  /** Every state of `l` is in the heap and its match began between `lo` and `hi`. */
  ghost predicate StartsIn(st: seq<PyState>, l: seq<nat>, lo: int, hi: int) {
    forall k :: 0 <= k < |l| ==> l[k] < |st| && lo <= st[l[k]].start <= hi
  }

  lemma MarksStarts(a: seq<PyState>, b: seq<PyState>, l: seq<nat>, id: int, lo: int, hi: int)
    requires Marks(a, b, id, lo, hi) && StartsIn(a, l, lo, hi)
    ensures StartsIn(b, l, lo, hi)
  {
  }

  lemma AppendsStarts(a: seq<PyState>, b: seq<PyState>, l: seq<nat>, l': seq<nat>, id: int, lo: int, hi: int)
    requires Marks(a, b, id, lo, hi) && Appends(a, b, l, l', id) && StartsIn(a, l, lo, hi)
    ensures StartsIn(b, l', lo, hi)
  {
    forall k | 0 <= k < |l'|
      ensures l'[k] < |b| && lo <= b[l'[k]].start <= hi
    {
      if k < |l| {
        assert l'[k] == l[k];
      }
    }
  }

  /**
   * `step` only adds, to the new list, states not yet on list `id`, each
   * once, and every state that joins the list is appended.
   */
  lemma {:induction false} StepAppends(st: seq<PyState>, c: char, states: seq<nat>, nl: seq<nat>, id: int)
    requires Closed(st) && InHeap(st, states)
    ensures var r := Step(st, c, states, nl, id);
              MarksAny(st, r.store, id) && Appends(st, r.store, nl, r.list, id)
    decreases |states|
  {
    if states != [] {
      var x := states[0];
      var r1 := AddIfLabelMatch(st, nl, st[x].outa, c, st[x].start, id);
      var r2 := AddIfLabelMatch(r1.store, r1.list, r1.store[x].outb, c, r1.store[x].start, id);
      FollowFacts(st, nl, st[x].outa, c, st[x].start, id);
      FollowFacts(r1.store, r1.list, r1.store[x].outb, c, r1.store[x].start, id);
      StepAppends(r2.store, c, states[1..], r2.list, id);
      var r := Step(r2.store, c, states[1..], r2.list, id);
      MarksIsAny(st, r1.store, id, st[x].start, st[x].start);
      MarksIsAny(r1.store, r2.store, id, r1.store[x].start, r1.store[x].start);
      MarksAnyTrans(st, r1.store, r2.store, id);
      MarksAnyTrans(st, r2.store, r.store, id);
      AppendsTrans(st, r1.store, r2.store, nl, r1.list, r2.list, id);
      AppendsTrans(st, r2.store, r.store, nl, r2.list, r.list, id);
    }
  }

  /** `step` records, on the states it adds, only starts of the states it steps from. */
  lemma {:induction false} StepStarts(st: seq<PyState>, c: char, states: seq<nat>, nl: seq<nat>, id: int, lo: int, hi: int)
    requires Closed(st) && InHeap(st, states) && StartsIn(st, states, lo, hi)
    ensures Marks(st, Step(st, c, states, nl, id).store, id, lo, hi)
    decreases |states|
  {
    if states != [] {
      var x := states[0];
      var r1 := AddIfLabelMatch(st, nl, st[x].outa, c, st[x].start, id);
      var r2 := AddIfLabelMatch(r1.store, r1.list, r1.store[x].outb, c, r1.store[x].start, id);
      FollowFacts(st, nl, st[x].outa, c, st[x].start, id);
      MarksWiden(st, r1.store, id, st[x].start, st[x].start, lo, hi);
      MarksStarts(st, r1.store, states, id, lo, hi);
      FollowFacts(r1.store, r1.list, r1.store[x].outb, c, r1.store[x].start, id);
      MarksWiden(r1.store, r2.store, id, r1.store[x].start, r1.store[x].start, lo, hi);
      MarksStarts(r1.store, r2.store, states, id, lo, hi);
      assert StartsIn(r2.store, states[1..], lo, hi);
      StepStarts(r2.store, c, states[1..], r2.list, id, lo, hi);
      MarksTrans(st, r1.store, r2.store, id, lo, hi);
      MarksTrans(st, r2.store, Step(r2.store, c, states[1..], r2.list, id).store, id, lo, hi);
    }
  }

  /**
   * The matches are in order and do not overlap: each starts at or after
   * the end of the one before, before its own end, and ends within the line.
   */
  ghost predicate SpansOk(m: seq<Span>, bound: int) {
    && (forall k :: 0 <= k < |m| ==> 0 <= m[k].start < m[k].end <= bound)
    && (forall k :: 0 < k < |m| ==> m[k - 1].end <= m[k].start)
  }

  /** The states `match` keeps after position `i` began matching between `lo` and `i`. */
  lemma AdvanceStarts(st: seq<PyState>, nfa: Nfa, c: char, i: int, id: int, states: seq<nat>, lo: int)
    requires Closed(st) && NfaIn(st, nfa) && InHeap(st, states)
    requires lo <= i && StartsIn(st, states, lo, i)
    ensures var r := Advance(st, nfa, c, i, id, states); StartsIn(r.store, r.list, lo, i)
  {
    var st1 := st[nfa.initial := st[nfa.initial].(start := i)];
    assert StartsIn(st1, states, lo, i);
    var r1 := Add(st1, states, nfa.initial, i, id);
    AddFacts(st1, states, nfa.initial, i, id);
    MarksWiden(st1, r1.store, id, i, i, lo, i);
    AppendsStarts(st1, r1.store, states, r1.list, id, lo, i);
    var r2 := Step(r1.store, c, r1.list, [], id);
    StepAppends(r1.store, c, r1.list, [], id);
    StepStarts(r1.store, c, r1.list, [], id, lo, i);
    AppendsStarts(r1.store, r2.store, [], r2.list, id, lo, i);
  }

  lemma {:induction false} MatchLoopSpans(st: seq<PyState>, s: string, nfa: Nfa, charSet: set<char>, i: nat, id: int,
                                          states: seq<nat>, matches: seq<Span>, lo: int)
    requires Closed(st) && NfaIn(st, nfa) && i <= |s| && InHeap(st, states)
    requires SpansOk(matches, lo) && 0 <= lo <= i && StartsIn(st, states, lo, i)
    ensures SpansOk(MatchLoop(st, s, nfa, charSet, i, id, states, matches).matches, |s|)
    decreases |s| - i, 1
  {
    if i < |s| {
      if s[i] !in charSet {
        MatchLoopSkip(st, s, nfa, charSet, i, id, states, matches);
        MatchLoopSpans(st, s, nfa, charSet, i + 1, id + 1, [], matches, lo);
      } else {
        MatchLoopSpansRead(st, s, nfa, charSet, i, id, states, matches, lo);
      }
    }
  }

  /** The step of `MatchLoopSpans` at a character of the alphabet. */
  lemma {:induction false} MatchLoopSpansRead(st: seq<PyState>, s: string, nfa: Nfa, charSet: set<char>, i: nat, id: int,
                                              states: seq<nat>, matches: seq<Span>, lo: int)
    requires Closed(st) && NfaIn(st, nfa) && i < |s| && InHeap(st, states) && s[i] in charSet
    requires SpansOk(matches, lo) && 0 <= lo <= i && StartsIn(st, states, lo, i)
    ensures SpansOk(MatchLoop(st, s, nfa, charSet, i, id, states, matches).matches, |s|)
    decreases |s| - i, 0
  {
    var r2 := Advance(st, nfa, s[i], i, id + 1, states);
    MatchLoopNext(st, s, nfa, charSet, i, id, states, matches);
    AdvanceStarts(st, nfa, s[i], i, id + 1, states, lo);
    if nfa.accepting in r2.list {
      var m := matches + [Span(r2.store[nfa.accepting].start, i + 1)];
      SpanAppended(r2.store, r2.list, nfa.accepting, matches, lo, i);
      MatchLoopSpans(r2.store, s, nfa, charSet, i + 1, id + 1, [], m, i + 1);
    } else {
      MatchLoopSpans(r2.store, s, nfa, charSet, i + 1, id + 1, r2.list, matches, lo);
    }
  }

  /** A match reported at position `i` by a state whose match began at `lo` or later keeps the pairs in order. */
  lemma SpanAppended(st: seq<PyState>, l: seq<nat>, x: nat, matches: seq<Span>, lo: int, i: int)
    requires 0 <= lo && StartsIn(st, l, lo, i) && x in l && SpansOk(matches, lo)
    ensures x < |st| && SpansOk(matches + [Span(st[x].start, i + 1)], i + 1)
  {
    var k :| 0 <= k < |l| && l[k] == x;
    var m := matches + [Span(st[x].start, i + 1)];
    forall j | 0 <= j < |m|
      ensures 0 <= m[j].start < m[j].end <= i + 1
    {
      if j < |matches| {
        assert m[j] == matches[j];
      }
    }
    forall j | 0 < j < |m|
      ensures m[j - 1].end <= m[j].start
    {
      assert m[j - 1] == matches[j - 1];
      if j < |matches| {
        assert m[j] == matches[j];
      }
    }
  }

  /**
   * The pairs `match` returns: each has start < end <= the line's length,
   * ends strictly increase, and no match starts before the previous one ended.
   */
  lemma MatchSpans(st: seq<PyState>, s: string, nfa: Nfa, charSet: set<char>, listId: int)
    requires Closed(st) && NfaIn(st, nfa)
    ensures var m := MatchContinuing(st, s, nfa, charSet, listId).matches;
              && SpansOk(m, |s|)
              && forall k :: 0 < k < |m| ==> m[k - 1].end < m[k].end
    ensures SpansOk(Match(st, s, nfa, charSet).matches, |s|)
  {
    MatchLoopSpans(st, s, nfa, charSet, 0, listId, [], [], 0);
    MatchLoopSpans(st, s, nfa, charSet, 0, 0, [], [], 0);
  }

  /** No state is on list `id` or on a later one. */
  ghost predicate MarksBelow(st: seq<PyState>, id: int) {
    forall x :: 0 <= x < |st| ==> st[x].lastList < id
  }

  /** Every state on list `id` has its `ε`-successors on it too. */
  ghost predicate ListClosed(st: seq<PyState>, id: int)
    requires Closed(st)
  {
    forall x :: 0 <= x < |st| && st[x].lastList == id ==> EpsSuccessorsOn(st, x, id)
  }

  /** A walk along `ε`-edges through the states of `p`. */
  ghost predicate EpsPath(st: seq<PyState>, p: seq<nat>) {
    && |p| >= 1
    && (forall k :: 0 <= k < |p| ==> p[k] < |st|)
    && (forall k :: 0 <= k < |p| - 1 ==> EpsTo(st[p[k]].outa, p[k + 1]) || EpsTo(st[p[k]].outb, p[k + 1]))
  }

  /** The accepting state is reached from the initial one by `ε`-edges alone (as in `a*`). */
  ghost predicate AcceptsEmpty(st: seq<PyState>, nfa: Nfa, p: seq<nat>) {
    EpsPath(st, p) && p[0] == nfa.initial && p[|p| - 1] == nfa.accepting
  }

  /** On a list closed under `ε`-edges, a walk that starts on the list stays on it. */
  lemma {:induction false} PathMarked(st: seq<PyState>, p: seq<nat>, id: int, k: nat)
    requires Closed(st) && ListClosed(st, id) && EpsPath(st, p) && st[p[0]].lastList == id && k < |p|
    ensures st[p[k]].lastList == id
  {
    if k > 0 {
      PathMarked(st, p, id, k - 1);
    }
  }

  /** One pass of the loop only puts states on the list of its own id. */
  lemma AdvanceMarks(st: seq<PyState>, nfa: Nfa, c: char, i: int, id: int, states: seq<nat>)
    requires Closed(st) && NfaIn(st, nfa) && InHeap(st, states) && MarksBelow(st, id + 1)
    ensures MarksBelow(Advance(st, nfa, c, i, id, states).store, id + 1)
  {
    var st1 := st[nfa.initial := st[nfa.initial].(start := i)];
    var r1 := Add(st1, states, nfa.initial, i, id);
    AddFacts(st1, states, nfa.initial, i, id);
    StepAppends(r1.store, c, r1.list, [], id);
  }

  /**
   * When every mark is older than `id`, the accepting state can never be
   * stepped into at this pass if it is `ε`-reachable from the initial state:
   * re-seeding the initial state already put it on list `id`, and `add`
   * skips states already on the list.
   */
  lemma AdvanceSkipsAccepting(st: seq<PyState>, nfa: Nfa, c: char, i: int, id: int, states: seq<nat>, p: seq<nat>)
    requires Closed(st) && NfaIn(st, nfa) && InHeap(st, states) && MarksBelow(st, id) && AcceptsEmpty(st, nfa, p)
    ensures nfa.accepting !in Advance(st, nfa, c, i, id, states).list
  {
    var st1 := st[nfa.initial := st[nfa.initial].(start := i)];
    var r1 := Add(st1, states, nfa.initial, i, id);
    AddFacts(st1, states, nfa.initial, i, id);
    assert ListClosed(r1.store, id) by {
      forall x | 0 <= x < |r1.store| && r1.store[x].lastList == id
        ensures EpsSuccessorsOn(r1.store, x, id)
      {
        assert st1[x].lastList < id;
      }
    }
    assert EpsPath(r1.store, p);
    PathMarked(r1.store, p, id, |p| - 1);
    var r2 := Step(r1.store, c, r1.list, [], id);
    StepAppends(r1.store, c, r1.list, [], id);
  }

  lemma {:induction false} MatchLoopEmpty(st: seq<PyState>, s: string, nfa: Nfa, charSet: set<char>, i: nat, id: int,
                                          states: seq<nat>, matches: seq<Span>, p: seq<nat>)
    requires Closed(st) && NfaIn(st, nfa) && i <= |s| && InHeap(st, states)
    requires MarksBelow(st, id + 1) && AcceptsEmpty(st, nfa, p)
    ensures MatchLoop(st, s, nfa, charSet, i, id, states, matches).matches == matches
    decreases |s| - i
  {
    if i < |s| {
      if s[i] !in charSet {
        MatchLoopEmpty(st, s, nfa, charSet, i + 1, id + 1, [], matches, p);
      } else {
        var r2 := Advance(st, nfa, s[i], i, id + 1, states);
        AdvanceSkipsAccepting(st, nfa, s[i], i, id + 1, states, p);
        AdvanceMarks(st, nfa, s[i], i, id + 1, states);
        assert AcceptsEmpty(r2.store, nfa, p);
        MatchLoopEmpty(r2.store, s, nfa, charSet, i + 1, id + 1, r2.list, matches, p);
      }
    }
  }

  /**
   * An expression whose accepting state is `ε`-reachable from its initial
   * state (a top-level `a*`, say) never reports a match, on any line, as
   * long as no state is marked with a list id the run has yet to use: the
   * closure of the re-seeded initial state and the step share the list id.
   */
  lemma NullableNeverMatches(st: seq<PyState>, s: string, nfa: Nfa, charSet: set<char>, listId: int, p: seq<nat>)
    requires Closed(st) && NfaIn(st, nfa) && MarksBelow(st, listId + 1) && AcceptsEmpty(st, nfa, p)
    ensures MatchContinuing(st, s, nfa, charSet, listId).matches == []
  {
    MatchLoopEmpty(st, s, nfa, charSet, 0, listId, [], [], p);
  }

  lemma MatchLoopNext(st: seq<PyState>, s: string, nfa: Nfa, charSet: set<char>, i: nat, id: int,
                      states: seq<nat>, matches: seq<Span>)
    requires Closed(st) && NfaIn(st, nfa) && i < |s| && InHeap(st, states) && s[i] in charSet
    ensures var r2 := Advance(st, nfa, s[i], i, id + 1, states);
              MatchLoop(st, s, nfa, charSet, i, id, states, matches)
              == if nfa.accepting in r2.list
                 then MatchLoop(r2.store, s, nfa, charSet, i + 1, id + 1, [], matches + [Span(r2.store[nfa.accepting].start, i + 1)])
                 else MatchLoop(r2.store, s, nfa, charSet, i + 1, id + 1, r2.list, matches)
  {
  }

  lemma MatchLoopSkip(st: seq<PyState>, s: string, nfa: Nfa, charSet: set<char>, i: nat, id: int,
                      states: seq<nat>, matches: seq<Span>)
    requires Closed(st) && NfaIn(st, nfa) && i < |s| && InHeap(st, states) && s[i] !in charSet
    ensures MatchLoop(st, s, nfa, charSet, i, id, states, matches)
            == MatchLoop(st, s, nfa, charSet, i + 1, id + 1, [], matches)
  {
  }

  lemma {:induction false} MatchLoopFresh(st: seq<PyState>, s: string, nfa: Nfa, charSet: set<char>, i: nat, id: int,
                                          states: seq<nat>, matches: seq<Span>)
    requires Closed(st) && NfaIn(st, nfa) && i <= |s| && InHeap(st, states) && MarksBelow(st, id + 1)
    ensures MatchLoop(st, s, nfa, charSet, i, id, states, matches).listId == id + (|s| - i)
    ensures MarksBelow(MatchLoop(st, s, nfa, charSet, i, id, states, matches).store, id + (|s| - i) + 1)
    decreases |s| - i, 1
  {
    if i < |s| {
      if s[i] !in charSet {
        assert MarksBelow(st, id + 2);
        MatchLoopFresh(st, s, nfa, charSet, i + 1, id + 1, [], matches);
      } else {
        AdvanceFresh(st, s, nfa, charSet, i, id, states, matches);
      }
    }
  }

  lemma {:induction false} AdvanceFresh(st: seq<PyState>, s: string, nfa: Nfa, charSet: set<char>, i: nat, id: int,
                                        states: seq<nat>, matches: seq<Span>)
    requires Closed(st) && NfaIn(st, nfa) && i < |s| && InHeap(st, states) && MarksBelow(st, id + 1)
    requires s[i] in charSet
    ensures MatchLoop(st, s, nfa, charSet, i, id, states, matches).listId == id + (|s| - i)
    ensures MarksBelow(MatchLoop(st, s, nfa, charSet, i, id, states, matches).store, id + (|s| - i) + 1)
    decreases |s| - i, 0
  {
    var r2 := Advance(st, nfa, s[i], i, id + 1, states);
    AdvanceMarks(st, nfa, s[i], i, id + 1, states);
    var states', matches' := r2.list, matches;
    if nfa.accepting in r2.list {
      states', matches' := [], matches + [Span(r2.store[nfa.accepting].start, i + 1)];
    }
    MatchLoopNext(st, s, nfa, charSet, i, id, states, matches);
    MatchLoopFresh(r2.store, s, nfa, charSet, i + 1, id + 1, states', matches');
  }

  /**
   * With the list id carried from line to line, a call leaves every mark at
   * or below the id it returns, one more per character, so the next call
   * starts again with no stale mark.
   */
  lemma ContinuingStaysFresh(st: seq<PyState>, s: string, nfa: Nfa, charSet: set<char>, listId: int)
    requires Closed(st) && NfaIn(st, nfa) && MarksBelow(st, listId + 1)
    ensures MatchContinuing(st, s, nfa, charSet, listId).listId == listId + |s|
    ensures MarksBelow(MatchContinuing(st, s, nfa, charSet, listId).store, listId + |s| + 1)
  {
    MatchLoopFresh(st, s, nfa, charSet, 0, listId, [], []);
  }

  /**
   * A one-state-plus-accept NFA for "a", matched against the line "a" twice
   * with the same states: the first call finds the match, the second, whose
   * list id restarts at 0 while the states still carry the first call's
   * marks, finds nothing; carrying the list id over finds it again.
   */
  lemma StaleMarksExample()
    ensures
      var st0 := [PyState(false, 0, 0, Some(Edge('a', 1)), None), NewState(true)];
      var nfa := Nfa(0, 1);
      var first := Match(st0, "a", nfa, {'a'});
      && first.matches == [Span(0, 1)]
      && Match(first.store, "a", nfa, {'a'}).matches == []
      && MatchContinuing(first.store, "a", nfa, {'a'}, first.listId).matches == [Span(0, 1)]
  {
    var st0 := [PyState(false, 0, 0, Some(Edge('a', 1)), None), NewState(true)];
    var nfa := Nfa(0, 1);
    var stA := [PyState(false, 1, 0, Some(Edge('a', 1)), None), NewState(true)];
    var stB := [PyState(false, 1, 0, Some(Edge('a', 1)), None), PyState(true, 1, 0, None, None)];
    assert st0[0 := st0[0].(start := 0)] == st0;
    assert Add(st0, [], 0, 0, 1) == Lists(stA, [0]);
    assert Add(stA, [], 1, 0, 1) == Lists(stB, [1]);
    assert Step(stA, 'a', [0], [], 1) == Lists(stB, [1]);
    assert Match(st0, "a", nfa, {'a'}) == Run(stB, [Span(0, 1)], 1);
    assert stB[0 := stB[0].(start := 0)] == stB;
    assert Add(stB, [], 0, 0, 1) == Lists(stB, []);
    assert Step(stB, 'a', [], [], 1) == Lists(stB, []);
    assert Match(stB, "a", nfa, {'a'}) == Run(stB, [], 1);
    var stC := [PyState(false, 2, 0, Some(Edge('a', 1)), None), PyState(true, 1, 0, None, None)];
    var stD := [PyState(false, 2, 0, Some(Edge('a', 1)), None), PyState(true, 2, 0, None, None)];
    assert Add(stB, [], 0, 0, 2) == Lists(stC, [0]);
    assert Add(stC, [], 1, 0, 2) == Lists(stD, [1]);
    assert Step(stC, 'a', [0], [], 2) == Lists(stD, [1]);
    assert MatchContinuing(stB, "a", nfa, {'a'}, 1) == Run(stD, [Span(0, 1)], 2);
  }
}
