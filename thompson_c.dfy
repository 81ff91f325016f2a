/**
 * Thompson's construction and simulation in the C matcher: `post2nfa`
 * builds an NFA from a postfix expression on a stack of fragments whose
 * dangling arrows are patched later, and `match` runs the NFA over a line,
 * keeping the list of current states and reporting a slice whenever the
 * matching state is reached.
 *
 * The heap of `State` structs is a sequence of states; a pointer to a state
 * is its index, and index 0 is the static `matchstate`. A `Ptrlist` of
 * dangling arrows is a sequence of holes, each naming a state and one of its
 * two arrows.
 */
module ThompsonC {
  import opened Wrappers
  import opened RegexPostfix

  /** What a state does: read one character, split two ways, or accept. */
  datatype Label = Char(c: char) | Split | Match

  /** One of the two out-arrows of a state. */
  datatype Slot = Out | Out1

  /** A dangling arrow: the slot of a state that is still to be patched. */
  datatype Hole = Hole(state: nat, slot: Slot)

  /** A `State` struct: its label, its arrows (`None` is NULL), and the two simulation fields. */
  datatype State = State(c: Label, out: Option<nat>, out1: Option<nat>, lastlist: int, start: int)

  /** A partially built NFA: its start state and its dangling arrows. */
  datatype Frag = Frag(start: nat, out: seq<Hole>)

  /**
   * What `post2nfa` ends in: a start state, NULL, or undefined behaviour
   * from popping the empty fragment stack or pushing onto a full one.
   */
  datatype BuildResult = Built(start: nat) | Null | StackUnderflow | StackOverflow

  /** A matched substring: positions `start` up to, not including, `end`. */
  datatype Slice = Slice(start: int, end: int)

  /** The capacity of `post2nfa`'s fragment stack. */
  const StackSize: int := 1000

  /** The index of the static `matchstate`. */
  const MatchState: nat := 0

  function Arrow(s: State, slot: Slot): Option<nat> {
    match slot
    case Out => s.out
    case Out1 => s.out1
  }

  /** Both arrows of `s` lead to states below `n`. */
  predicate ArrowsBelow(s: State, n: int) {
    (s.out.Some? ==> s.out.value < n) && (s.out1.Some? ==> s.out1.value < n)
  }

  /** The arrows a finished state needs: a character state its `out`, a split state both. */
  predicate Required(s: State, slot: Slot) {
    s.c.Split? || (s.c.Char? && slot == Out)
  }

  /** A state with every arrow it needs. */
  predicate Complete(s: State) {
    forall slot :: Required(s, slot) ==> Arrow(s, slot).Some?
  }

  /** State `i` after `patch(l, target)`: each of its slots listed in `l` now leads to `target`. */
  function Patched(s: State, i: nat, l: seq<Hole>, target: nat): State {
    s.(out := if Hole(i, Out) in l then Some(target) else s.out,
       out1 := if Hole(i, Out1) in l then Some(target) else s.out1)
  }

  /** The dangling arrows of all fragments on the stack. */
  function AllHoles(stack: seq<Frag>): seq<Hole> {
    if stack == [] then [] else AllHoles(stack[..|stack| - 1]) + stack[|stack| - 1].out
  }

  lemma AllHolesPush(stack: seq<Frag>, f: Frag)
    ensures AllHoles(stack + [f]) == AllHoles(stack) + f.out
  {
    assert (stack + [f])[..|stack|] == stack;
  }

  /** The label of the state `post2nfa` allocates for a postfix character other than `.`. */
  function LabelOf(c: char): Label {
    if c == '|' || c == '?' || c == '*' || c == '+' then Split else Char(c)
  }

  /** The characters of `p` other than `.`, one per state `post2nfa` allocates. */
  function NonDots(p: string): (r: string)
    ensures |r| <= |p|
  {
    if p == [] then []
    else NonDots(p[..|p| - 1]) + (if p[|p| - 1] == '.' then [] else [p[|p| - 1]])
  }

  /** The height of the fragment stack, or how it failed. */
  datatype StackRun = Height(h: nat) | Underflow | Overflow

  /** One postfix character on a stack of height `h`. */
  function StackStep(h: nat, c: char): StackRun {
    if c == '.' || c == '|' then (if h >= 2 then Height(h - 1) else Underflow)
    else if c == '?' || c == '*' || c == '+' then (if h >= 1 then Height(h) else Underflow)
    else if h < StackSize then Height(h + 1) else Overflow
  }

  /** The fragment stack after reading `p`. */
  function StackAfter(p: string): StackRun {
    if p == [] then Height(0)
    else match StackAfter(p[..|p| - 1])
      case Height(h) => StackStep(h, p[|p| - 1])
      case failed => failed
  }

  lemma StackSnoc(p: string, i: nat)
    requires i < |p|
    ensures StackAfter(p[..i + 1]) == match StackAfter(p[..i])
                                       case Height(h) => StackStep(h, p[i])
                                       case failed => failed
  {
    assert p[..i + 1][..i] == p[..i];
  }

  lemma {:induction false} StackFailurePersists(p: string, i: nat)
    requires i <= |p| && !StackAfter(p[..i]).Height?
    ensures StackAfter(p) == StackAfter(p[..i])
    decreases |p| - i
  {
    if i < |p| {
      StackSnoc(p, i);
      StackFailurePersists(p, i + 1);
    } else {
      assert p[..i] == p;
    }
  }

  lemma NonDotsSnoc(p: string, i: nat)
    requires i < |p|
    ensures NonDots(p[..i + 1]) == NonDots(p[..i]) + (if p[i] == '.' then [] else [p[i]])
  {
    assert p[..i + 1][..i] == p[..i];
  }

  /**
   * How the outcome of `post2nfa` follows from the stack heights: one
   * fragment left is success, more is NULL, and a pop from the empty stack
   * (in the loop or at the end) or a push onto the full one is undefined.
   */
  predicate Reports(r: BuildResult, run: StackRun) {
    && (r.Built? <==> run == Height(1))
    && (r == Null <==> run.Height? && run.h >= 2)
    && (r == StackUnderflow <==> run == Underflow || run == Height(0))
    && (r == StackOverflow <==> run == Overflow)
  }

  /** No fragment stack runs short on a well-formed postfix expression. */
  lemma {:induction false} WellFormedNeverUnderflows(p: string)
    ensures Depth(p).Some? ==> StackAfter(p) != Underflow
    ensures StackAfter(p).Height? ==> Depth(p) == Some(StackAfter(p).h)
  {
    if p != [] {
      var front := p[..|p| - 1];
      WellFormedNeverUnderflows(front);
      assert DepthFrom(Some(0), p) == match DepthFrom(Some(0), front)
                                      case None => None
                                      case Some(h) => DepthStep(h, p[|p| - 1]);
    }
  }

  /** A well-formed postfix expression leaves exactly one fragment, unless the stack overflows. */
  lemma WellFormedBuilds(p: string)
    requires WellFormed(p)
    ensures StackAfter(p) == Height(1) || StackAfter(p) == Overflow
  {
    WellFormedNeverUnderflows(p);
  }

  /**
   * The conversion as written turns `a|` into `a|`, on which the fragment
   * stack runs short: `post2nfa` pops a fragment that is not there.
   */
  lemma TrailingAlternationUnderflows()
    ensures Postfix("a|") == Some("a|")
    ensures StackAfter("a|") == Underflow
  {
    TrailingAlternationExample();
    assert "a|"[..1] == "a" && "a"[..0] == [];
    assert StackAfter("a") == Height(1);
  }

  /** Distinct indices below `n` number at most `n`. */
  lemma DistinctBound(l: seq<nat>, n: nat)
    requires forall k :: 0 <= k < |l| ==> l[k] < n
    requires forall j, k :: 0 <= j < k < |l| ==> l[j] != l[k]
    ensures |l| <= n
  {
    var elems := set k | 0 <= k < |l| :: l[k];
    assert elems <= Below(n);
    DistinctCardinality(l);
    SubsetSize(elems, Below(n));
  }

  lemma {:induction false} DistinctCardinality(l: seq<nat>)
    requires forall j, k :: 0 <= j < k < |l| ==> l[j] != l[k]
    ensures |set k | 0 <= k < |l| :: l[k]| == |l|
  {
    if l != [] {
      var front := l[..|l| - 1];
      DistinctCardinality(front);
      assert (set k | 0 <= k < |l| :: l[k]) == (set k | 0 <= k < |front| :: front[k]) + {l[|l| - 1]};
      assert l[|l| - 1] !in (set k | 0 <= k < |front| :: front[k]);
    }
  }

  lemma SubsetSize<T>(a: set<T>, b: set<T>)
    requires a <= b
    ensures |a| <= |b|
  {
    assert b == a + (b - a);
  }

  /**
   * The whole state changes only by marking states that were not marked with
   * `id`: their `lastlist` becomes `id` and their `start` becomes `start`.
   */
  ghost predicate Marking(before: seq<State>, after: seq<State>, id: int, start: int) {
    && |after| == |before|
    && forall x :: 0 <= x < |before| ==>
         || after[x] == before[x]
         || (before[x].lastlist != id && after[x] == before[x].(lastlist := id, start := start))
  }

  /**
   * `l'` is `l` followed by distinct states, each unmarked before and marked
   * after, none of them a split state; and every non-split state marked in
   * between is among them.
   */
  ghost predicate Added(before: seq<State>, after: seq<State>, l: seq<nat>, l': seq<nat>, id: int) {
    && |before| == |after|
    && |l| <= |l'| && l'[..|l|] == l
    && (forall k :: |l| <= k < |l'| ==>
          && l'[k] < |after| && before[l'[k]].lastlist != id
          && after[l'[k]].lastlist == id && !after[l'[k]].c.Split?)
    && (forall j, k :: |l| <= j < k < |l'| ==> l'[j] != l'[k])
    && (forall x :: 0 <= x < |after| && before[x].lastlist != id && after[x].lastlist == id && !after[x].c.Split?
           ==> x in l'[|l|..])
  }

  lemma MarkingTrans(a: seq<State>, b: seq<State>, c: seq<State>, id: int, start: int)
    requires Marking(a, b, id, start) && Marking(b, c, id, start)
    ensures Marking(a, c, id, start)
  {
  }

  lemma AddedTrans(a: seq<State>, b: seq<State>, c: seq<State>, l0: seq<nat>, l1: seq<nat>, l2: seq<nat>,
                   id: int, start: int)
    requires Marking(a, b, id, start) && Marking(b, c, id, start)
    requires Added(a, b, l0, l1, id) && Added(b, c, l1, l2, id)
    ensures Added(a, c, l0, l2, id)
  {
    assert l2[..|l1|][..|l0|] == l2[..|l0|];
    forall k | |l0| <= k < |l2|
      ensures l2[k] < |c| && a[l2[k]].lastlist != id && c[l2[k]].lastlist == id && !c[l2[k]].c.Split?
    {
      if k < |l1| {
        assert l2[k] == l1[k];
      }
    }
    forall j, k | |l0| <= j < k < |l2|
      ensures l2[j] != l2[k]
    {
      if j < |l1| && k >= |l1| {
        assert l2[j] == l1[j];
      } else if k < |l1| {
        assert l2[j] == l1[j] && l2[k] == l1[k];
      }
    }
    forall x | 0 <= x < |c| && a[x].lastlist != id && c[x].lastlist == id && !c[x].c.Split?
      ensures x in l2[|l0|..]
    {
      if b[x].lastlist == id {
        var k :| 0 <= k < |l1[|l0|..]| && l1[|l0|..][k] == x;
        assert l2[|l0| + k] == x;
      } else {
        var k :| 0 <= k < |l2[|l1|..]| && l2[|l1|..][k] == x;
        assert l2[|l1| + k] == x;
      }
    }
  }

  /** Every fragment on the stack starts, and has its dangling arrows, among the states from `base` on. */
  ghost predicate Rooted(states: seq<State>, base: nat, stack: seq<Frag>) {
    forall k :: 0 <= k < |stack| ==>
      && base <= stack[k].start < |states|
      && forall h :: h in stack[k].out ==> base <= h.state < |states|
  }

  /** Pushing a fragment rooted in a grown heap keeps the stack rooted. */
  lemma RootedPush(before: seq<State>, after: seq<State>, base: nat, stack: seq<Frag>, f: Frag)
    requires |before| <= |after| && Rooted(before, base, stack)
    requires base <= f.start < |after| && forall h :: h in f.out ==> base <= h.state < |after|
    ensures Rooted(after, base, stack + [f])
  {
    forall k | 0 <= k < |stack| + 1
      ensures base <= (stack + [f])[k].start < |after|
      ensures forall h :: h in (stack + [f])[k].out ==> base <= h.state < |after|
    {
      if k < |stack| {
        assert (stack + [f])[k] == stack[k];
      }
    }
  }

  /** Every arrow still missing from a state at `base` or above is listed in `holes`. */
  ghost predicate Dangling(states: seq<State>, base: nat, holes: seq<Hole>) {
    forall x, slot :: base <= x < |states| && Required(states[x], slot) && Arrow(states[x], slot).None?
                      ==> Hole(x, slot) in holes
  }

  /** Patching the holes `l` leaves only the other holes missing. */
  lemma PatchDangling(before: seq<State>, after: seq<State>, base: nat, front: seq<Hole>, l: seq<Hole>,
                      back: seq<Hole>, target: nat)
    requires |after| == |before|
    requires forall x :: 0 <= x < |before| ==> after[x] == Patched(before[x], x, l, target)
    requires Dangling(before, base, front + l + back)
    ensures Dangling(after, base, front + back)
  {
    forall x, slot | base <= x < |after| && Required(after[x], slot) && Arrow(after[x], slot).None?
      ensures Hole(x, slot) in front + back
    {
      assert Hole(x, slot) !in l;
      assert Required(before[x], slot) && Arrow(before[x], slot).None?;
      assert Hole(x, slot) in front + l + back;
    }
  }

  /** A new state whose missing arrows are listed in `extra`. */
  lemma DanglingGrow(before: seq<State>, s: State, base: nat, holes: seq<Hole>, extra: seq<Hole>)
    requires base <= |before| && Dangling(before, base, holes)
    requires forall slot :: Required(s, slot) && Arrow(s, slot).None? ==> Hole(|before|, slot) in extra
    ensures Dangling(before + [s], base, holes + extra)
  {
    var after := before + [s];
    forall x, slot | base <= x < |after| && Required(after[x], slot) && Arrow(after[x], slot).None?
      ensures Hole(x, slot) in holes + extra
    {
      if x < |before| {
        assert after[x] == before[x];
      }
    }
  }

  /** The states from `base` on are exactly one per character of `cs`, labelled after it. */
  ghost predicate Labelled(states: seq<State>, base: nat, cs: string) {
    && |states| == base + |cs|
    && forall k :: 0 <= k < |cs| ==> states[base + k].c == LabelOf(cs[k])
  }

  /** One more postfix character keeps the labels in step. */
  lemma LabelledGrown(before: seq<State>, after: seq<State>, base: nat, cs: string, c: char)
    requires Labelled(before, base, cs)
    requires |after| == |before| + (if c == '.' then 0 else 1)
    requires forall x :: 0 <= x < |before| ==> after[x].c == before[x].c
    requires c != '.' ==> after[|before|].c == LabelOf(c)
    ensures Labelled(after, base, cs + (if c == '.' then [] else [c]))
  {
  }

  /** One more postfix character that the stack takes keeps the heights and the labels in step. */
  lemma FragmentsNext(p: string, i: nat, h: nat, h': nat, before: seq<State>, after: seq<State>, base: nat)
    requires i < |p| && StackAfter(p[..i]) == Height(h) && StackStep(h, p[i]) == Height(h')
    requires Labelled(before, base, NonDots(p[..i]))
    requires |after| == |before| + (if p[i] == '.' then 0 else 1)
    requires forall x :: 0 <= x < |before| ==> after[x].c == before[x].c
    requires p[i] != '.' ==> after[|before|].c == LabelOf(p[i])
    ensures StackAfter(p[..i + 1]) == Height(h')
    ensures Labelled(after, base, NonDots(p[..i + 1]))
  {
    StackSnoc(p, i);
    NonDotsSnoc(p, i);
    LabelledGrown(before, after, base, NonDots(p[..i]), p[i]);
  }

  /** With no arrow missing, every state from `base` on is complete. */
  lemma DanglingNoneComplete(states: seq<State>, base: nat)
    requires Dangling(states, base, [])
    ensures forall x :: base <= x < |states| ==> Complete(states[x])
  {
  }

  /** The indices below `n`. */
  ghost function Below(n: nat): (r: set<nat>)
    ensures forall x: nat :: x in r <==> x < n
    ensures |r| == n
  {
    if n == 0 then {} else Below(n - 1) + {n - 1}
  }

  /** The states not marked with `id`. */
  ghost function Unmarked(states: seq<State>, id: int): set<nat> {
    set x: nat | x < |states| && states[x].lastlist != id
  }

  /** Labels and arrows agree: only the simulation fields may differ. */
  ghost predicate SameShape(a: seq<State>, b: seq<State>) {
    && |a| == |b|
    && forall x :: 0 <= x < |a| ==> a[x].c == b[x].c && a[x].out == b[x].out && a[x].out1 == b[x].out1
  }

  /**
   * `l` is a state list of generation `id`: distinct states, none of them a
   * split state, and exactly the non-split states marked with `id`.
   */
  ghost predicate ListInv(states: seq<State>, l: seq<nat>, id: int) {
    && (forall k :: 0 <= k < |l| ==> l[k] < |states| && states[l[k]].lastlist == id && !states[l[k]].c.Split?)
    && (forall j, k :: 0 <= j < k < |l| ==> l[j] != l[k])
    && (forall x :: 0 <= x < |states| && states[x].lastlist == id && !states[x].c.Split? ==> x in l)
  }

  /** Every state in `l` started matching at position `j` or before. */
  ghost predicate StartsAtMost(states: seq<State>, l: seq<nat>, j: int) {
    forall k :: 0 <= k < |l| ==> l[k] < |states| && 0 <= states[l[k]].start <= j
  }

  /** The states added with a start no later than `j` keep a list's starts at or before `j`. */
  lemma AddedStarts(a: seq<State>, b: seq<State>, l: seq<nat>, l': seq<nat>, id: int, start: int, j: int)
    requires Marking(a, b, id, start) && Added(a, b, l, l', id) && StartsAtMost(a, l, j) && 0 <= start <= j
    ensures StartsAtMost(b, l', j)
  {
    forall k | 0 <= k < |l'|
      ensures l'[k] < |b| && 0 <= b[l'[k]].start <= j
    {
      if k < |l| {
        assert l'[k] == l[k];
      }
    }
  }

  lemma MarkingKeepsShape(a: seq<State>, b: seq<State>, id: int, start: int)
    requires Marking(a, b, id, start)
    ensures SameShape(a, b) && Keeps(a, b, id)
    ensures Unmarked(b, id) <= Unmarked(a, id)
  {
  }

  /** Adding states keeps a list of the same generation what it was. */
  lemma AddedListInv(a: seq<State>, b: seq<State>, l: seq<nat>, l': seq<nat>, id: int, start: int)
    requires ListInv(a, l, id) && Marking(a, b, id, start) && Added(a, b, l, l', id)
    ensures ListInv(b, l', id)
  {
    forall k | 0 <= k < |l'|
      ensures l'[k] < |b| && b[l'[k]].lastlist == id && !b[l'[k]].c.Split?
    {
      if k < |l| {
        assert l'[k] == l[k];
      }
    }
    forall i, k | 0 <= i < k < |l'|
      ensures l'[i] != l'[k]
    {
      if k < |l| {
        assert l'[i] == l[i] && l'[k] == l[k];
      } else if i < |l| {
        assert l'[i] == l[i];
      }
    }
    forall x | 0 <= x < |b| && b[x].lastlist == id && !b[x].c.Split?
      ensures x in l'
    {
      if a[x].lastlist == id {
        var k :| 0 <= k < |l| && l[k] == x;
        assert l'[k] == x;
      } else {
        var k :| 0 <= k < |l'[|l|..]| && l'[|l|..][k] == x;
        assert l'[|l| + k] == x;
      }
    }
  }

  /** Marking with a start no later than `j` keeps every list's starts at or before `j`. */
  lemma MarkingStarts(a: seq<State>, b: seq<State>, l: seq<nat>, id: int, start: int, j: int)
    requires Marking(a, b, id, start) && StartsAtMost(a, l, j) && 0 <= start <= j
    ensures StartsAtMost(b, l, j)
  {
  }

  /** The state `o` points at, if any. */
  function Targets(o: Option<nat>): set<nat> {
    if o.Some? then {o.value} else {}
  }

  /** `x` is the target of one of the unlabelled arrows of the split state `s`. */
  predicate EpsArrow(s: State, x: nat) {
    s.c.Split? && (s.out == Some(x) || s.out1 == Some(x))
  }

  /** `p` is a walk along unlabelled arrows: each state on it but the last is a split state pointing at the next. */
  ghost predicate EpsPath(states: seq<State>, p: seq<nat>) {
    && |p| > 0
    && (forall k :: 0 <= k < |p| ==> p[k] < |states|)
    && (forall k :: 0 < k < |p| ==> EpsArrow(states[p[k - 1]], p[k]))
  }

  /** Some walk from a state of `src` ends at `x` and keeps to states of `allowed`. */
  ghost predicate LeadsFrom(states: seq<State>, src: set<nat>, x: nat, allowed: set<nat>) {
    exists p :: EpsPath(states, p) && p[0] in src && p[|p| - 1] == x && forall k :: 0 <= k < |p| ==> p[k] in allowed
  }

  /** The ε-closure of `src`: every state a walk along unlabelled arrows from `src` reaches. */
  ghost function Closure(states: seq<State>, src: set<nat>): set<nat> {
    set x: nat | x < |states| && LeadsFrom(states, src, x, Below(|states|))
  }

  /** The targets of the states of `from` that read `c`. */
  ghost function Succ(states: seq<State>, from: set<nat>, c: char): set<nat> {
    set x | x in from && x < |states| && states[x].c == Char(c) && states[x].out.Some? :: states[x].out.value
  }

  /** The states a list holds. */
  ghost function Elems(l: seq<nat>): set<nat> {
    set x | x in l
  }

  /** The states marked with generation `id`. */
  ghost function Marks(states: seq<State>, id: int): set<nat> {
    set x: nat | x < |states| && states[x].lastlist == id
  }

  /**
   * One character of `match`: `start` joins the current states `cur`, and
   * the next states are the closure of the targets reading `c`.
   */
  ghost function StepSet(states: seq<State>, cur: set<nat>, start: nat, c: char): set<nat> {
    Closure(states, Succ(states, Closure(states, cur + {start}), c))
  }

  /** The states the NFA from `start` is in after the first `i` characters of `s`. */
  ghost function Active(states: seq<State>, start: nat, s: string, i: nat): set<nat>
    requires i <= |s|
  {
    if i == 0 then Closure(states, {start})
    else StepSet(states, Active(states, start, s, i - 1), start, s[i - 1])
  }

  /** The positions `1..n` after which the NFA is in the matching state, in increasing order. */
  ghost function MatchEnds(states: seq<State>, start: nat, s: string, n: nat): seq<int>
    requires n <= |s|
  {
    if n == 0 then []
    else MatchEnds(states, start, s, n - 1) + (if MatchState in Active(states, start, s, n) then [n] else [])
  }

  /** The length of a C string held in `s`: the index of its first NUL, or `|s|`. */
  function LineEnd(s: string): (n: nat)
    ensures n <= |s| && '\0' !in s[..n]
    ensures forall k :: 0 <= k < n ==> s[k] != '\0'
    ensures n < |s| ==> s[n] == '\0'
  {
    if s == [] || s[0] == '\0' then 0
    else
      var m := LineEnd(s[1..]);
      assert s[..1 + m] == [s[0]] + s[1..][..m];
      1 + m
  }

  /** When `o` points at a state, that state is marked with `id`. */
  ghost predicate MarkedOpt(states: seq<State>, o: Option<nat>, id: int) {
    o.Some? ==> o.value < |states| && states[o.value].lastlist == id
  }

  /** Every marked split state has the targets of both its arrows marked. */
  ghost predicate Closed(states: seq<State>, id: int) {
    forall x :: 0 <= x < |states| && states[x].lastlist == id && states[x].c.Split? ==>
      MarkedOpt(states, states[x].out, id) && MarkedOpt(states, states[x].out1, id)
  }

  /** Marks of generation `id` are never removed. */
  ghost predicate Keeps(a: seq<State>, b: seq<State>, id: int) {
    && |a| == |b|
    && forall x :: 0 <= x < |a| && a[x].lastlist == id ==> b[x].lastlist == id
  }

  /**
   * Marking from `src` went as `addstate` goes: the states of `src` end up
   * marked, every newly marked state is reached from `src` through states
   * unmarked before, and every newly marked split state has the targets of
   * both its arrows marked.
   */
  ghost predicate Spread(before: seq<State>, after: seq<State>, src: set<nat>, id: int) {
    && |before| == |after|
    && (forall y :: y in src ==> y < |after| && after[y].lastlist == id)
    && (forall x :: 0 <= x < |after| && before[x].lastlist != id && after[x].lastlist == id ==>
          LeadsFrom(before, src, x, Unmarked(before, id)))
    && SpreadClosed(before, after, id)
  }

  /** Every split state newly marked with `id` has the targets of both its arrows marked. */
  ghost predicate SpreadClosed(before: seq<State>, after: seq<State>, id: int) {
    && |before| == |after|
    && forall x :: 0 <= x < |after| && before[x].lastlist != id && after[x].lastlist == id && after[x].c.Split? ==>
         MarkedOpt(after, after[x].out, id) && MarkedOpt(after, after[x].out1, id)
  }

  /** Walks depend only on labels and arrows, and stay walks from more sources through more states. */
  lemma LeadsMono(a: seq<State>, b: seq<State>, src: set<nat>, src': set<nat>, x: nat, allowed: set<nat>, allowed': set<nat>)
    requires SameShape(a, b) && src <= src' && allowed <= allowed' && LeadsFrom(a, src, x, allowed)
    ensures LeadsFrom(b, src', x, allowed')
  {
    var p :| EpsPath(a, p) && p[0] in src && p[|p| - 1] == x && forall k :: 0 <= k < |p| ==> p[k] in allowed;
    forall k | 0 < k < |p|
      ensures EpsArrow(b[p[k - 1]], p[k])
    {
      assert EpsArrow(a[p[k - 1]], p[k]);
    }
    assert EpsPath(b, p);
  }

  /** A walk from the targets of the split state `x` extends to a walk from `x`. */
  lemma LeadsPrepend(states: seq<State>, x: nat, src: set<nat>, y: nat, allowed: set<nat>)
    requires x < |states| && x in allowed && LeadsFrom(states, src, y, allowed)
    requires forall z :: z in src ==> EpsArrow(states[x], z)
    ensures LeadsFrom(states, {x}, y, allowed)
  {
    var p :| EpsPath(states, p) && p[0] in src && p[|p| - 1] == y && forall k :: 0 <= k < |p| ==> p[k] in allowed;
    var q := [x] + p;
    forall k | 0 < k < |q|
      ensures EpsArrow(states[q[k - 1]], q[k])
    {
      if k > 1 {
        assert q[k - 1] == p[k - 2] && q[k] == p[k - 1];
      }
    }
    assert EpsPath(states, q) && q[|q| - 1] == y;
  }

  /** A walk that one more arrow extends. */
  lemma LeadsAppend(states: seq<State>, src: set<nat>, x: nat, y: nat, allowed: set<nat>)
    requires LeadsFrom(states, src, x, allowed) && x < |states| && y < |states| && EpsArrow(states[x], y) && y in allowed
    ensures LeadsFrom(states, src, y, allowed)
  {
    var p :| EpsPath(states, p) && p[0] in src && p[|p| - 1] == x && forall k :: 0 <= k < |p| ==> p[k] in allowed;
    var q := p + [y];
    forall k | 0 < k < |q|
      ensures EpsArrow(states[q[k - 1]], q[k])
    {
      if k < |p| {
        assert q[k - 1] == p[k - 1] && q[k] == p[k];
      }
    }
    assert EpsPath(states, q) && q[0] == p[0];
  }

  /** The one-state walk. */
  lemma LeadsHere(states: seq<State>, src: set<nat>, x: nat, allowed: set<nat>)
    requires x < |states| && x in src && x in allowed
    ensures LeadsFrom(states, src, x, allowed)
  {
    assert EpsPath(states, [x]);
  }

  /** Marking nothing new spreads from marked sources. */
  lemma SpreadNone(states: seq<State>, src: set<nat>, id: int)
    requires forall y :: y in src ==> y < |states| && states[y].lastlist == id
    ensures Spread(states, states, src, id)
  {
  }

  /** Marking one state that is not a split state spreads from that state. */
  lemma SpreadOne(before: seq<State>, after: seq<State>, x: nat, id: int, start: int)
    requires x < |before| && before[x].lastlist != id && !before[x].c.Split?
    requires after == before[x := before[x].(lastlist := id, start := start)]
    ensures Spread(before, after, {x}, id)
  {
    LeadsHere(before, {x}, x, Unmarked(before, id));
  }

  /** Two markings in a row spread from both their sources. */
  lemma SpreadTrans(a: seq<State>, b: seq<State>, c: seq<State>, src1: set<nat>, src2: set<nat>, id: int)
    requires SameShape(a, b) && SameShape(b, c) && Keeps(a, b, id) && Keeps(b, c, id)
    requires Spread(a, b, src1, id) && Spread(b, c, src2, id)
    ensures Spread(a, c, src1 + src2, id)
  {
    assert Unmarked(b, id) <= Unmarked(a, id);
    forall x | 0 <= x < |c| && a[x].lastlist != id && c[x].lastlist == id
      ensures LeadsFrom(a, src1 + src2, x, Unmarked(a, id))
    {
      if b[x].lastlist == id {
        LeadsMono(a, a, src1, src1 + src2, x, Unmarked(a, id), Unmarked(a, id));
      } else {
        LeadsMono(b, a, src2, src1 + src2, x, Unmarked(b, id), Unmarked(a, id));
      }
    }
    forall x | 0 <= x < |c| && a[x].lastlist != id && c[x].lastlist == id && c[x].c.Split?
      ensures MarkedOpt(c, c[x].out, id) && MarkedOpt(c, c[x].out1, id)
    {
      if b[x].lastlist == id {
        assert MarkedOpt(b, b[x].out, id) && MarkedOpt(b, b[x].out1, id);
      }
    }
  }

  /**
   * Marking the split state `x`, then spreading from the targets of its
   * arrows, spreads from `x`.
   */
  lemma SpreadSplit(b0: seq<State>, b1: seq<State>, b3: seq<State>, x: nat, id: int, start: int)
    requires x < |b0| && b0[x].lastlist != id && b0[x].c.Split?
    requires b1 == b0[x := b0[x].(lastlist := id, start := start)]
    requires SameShape(b1, b3) && Keeps(b1, b3, id)
    requires Spread(b1, b3, Targets(b0[x].out) + Targets(b0[x].out1), id)
    ensures Spread(b0, b3, {x}, id)
  {
    var src := Targets(b0[x].out) + Targets(b0[x].out1);
    assert b3[x].lastlist == id;
    assert MarkedOpt(b3, b3[x].out, id) && MarkedOpt(b3, b3[x].out1, id) by {
      assert b3[x].out == b0[x].out && b3[x].out1 == b0[x].out1;
    }
    forall y | 0 <= y < |b3| && b0[y].lastlist != id && b3[y].lastlist == id && y != x
      ensures LeadsFrom(b0, {x}, y, Unmarked(b0, id))
    {
      SplitWalk(b0, b1, src, x, y, id, start);
    }
    LeadsHere(b0, {x}, x, Unmarked(b0, id));
  }

  /** A walk from the targets of `x` through states unmarked once `x` is marked. */
  lemma SplitWalk(b0: seq<State>, b1: seq<State>, src: set<nat>, x: nat, y: nat, id: int, start: int)
    requires x < |b0| && b0[x].lastlist != id && b0[x].c.Split?
    requires b1 == b0[x := b0[x].(lastlist := id, start := start)]
    requires src == Targets(b0[x].out) + Targets(b0[x].out1)
    requires LeadsFrom(b1, src, y, Unmarked(b1, id))
    ensures LeadsFrom(b0, {x}, y, Unmarked(b0, id))
  {
    assert SameShape(b1, b0);
    assert x in Unmarked(b0, id) && Unmarked(b1, id) <= Unmarked(b0, id);
    LeadsMono(b1, b0, src, src, y, Unmarked(b1, id), Unmarked(b0, id));
    LeadsPrepend(b0, x, src, y, Unmarked(b0, id));
  }

  /** Along a walk through states unmarked before a spread, every state ends up marked. */
  lemma {:induction false} WalkMarked(before: seq<State>, after: seq<State>, id: int, p: seq<nat>, k: nat)
    requires SpreadClosed(before, after, id) && SameShape(before, after)
    requires EpsPath(before, p) && after[p[0]].lastlist == id
    requires forall i :: 0 <= i < |p| ==> before[p[i]].lastlist != id
    requires k < |p|
    ensures after[p[k]].lastlist == id
    decreases k
  {
    if k > 0 {
      WalkMarked(before, after, id, p, k - 1);
      assert EpsArrow(before[p[k - 1]], p[k]);
      assert MarkedOpt(after, after[p[k - 1]].out, id) && MarkedOpt(after, after[p[k - 1]].out1, id);
    }
  }

  /**
   * After a spread from `src`, the marked states are exactly those marked
   * before and those a walk from `src` through unmarked states reaches.
   */
  lemma SpreadMarks(before: seq<State>, after: seq<State>, src: set<nat>, id: int)
    requires Spread(before, after, src, id) && SameShape(before, after) && Keeps(before, after, id)
    ensures forall x :: 0 <= x < |after| ==>
              (after[x].lastlist == id <==> before[x].lastlist == id || LeadsFrom(before, src, x, Unmarked(before, id)))
  {
    forall x | 0 <= x < |after| && LeadsFrom(before, src, x, Unmarked(before, id))
      ensures after[x].lastlist == id
    {
      var p :| EpsPath(before, p) && p[0] in src && p[|p| - 1] == x && forall k :: 0 <= k < |p| ==> p[k] in Unmarked(before, id);
      assert forall i :: 0 <= i < |p| ==> before[p[i]].lastlist != id;
      WalkMarked(before, after, id, p, |p| - 1);
    }
  }

  /** A spread over a fresh generation marks exactly the closure of its sources. */
  lemma FreshSpread(before: seq<State>, after: seq<State>, src: set<nat>, id: int)
    requires Spread(before, after, src, id) && SameShape(before, after) && Keeps(before, after, id)
    requires forall x :: 0 <= x < |before| ==> before[x].lastlist != id
    ensures Marks(after, id) == Closure(after, src)
  {
    SpreadMarks(before, after, src, id);
    forall x: nat | x < |after|
      ensures x in Marks(after, id) <==> x in Closure(after, src)
    {
      FreshPoint(before, after, src, id, x);
    }
  }

  /** One state of `FreshSpread`: walks through unmarked states are all walks. */
  lemma FreshPoint(before: seq<State>, after: seq<State>, src: set<nat>, id: int, x: nat)
    requires SameShape(before, after) && x < |after|
    requires forall y :: 0 <= y < |before| ==> before[y].lastlist != id
    requires after[x].lastlist == id <==> before[x].lastlist == id || LeadsFrom(before, src, x, Unmarked(before, id))
    ensures after[x].lastlist == id <==> LeadsFrom(after, src, x, Below(|after|))
  {
    assert Below(|after|) <= Unmarked(before, id) <= Below(|after|);
    if after[x].lastlist == id {
      LeadsMono(before, after, src, src, x, Unmarked(before, id), Below(|after|));
    }
    if LeadsFrom(after, src, x, Below(|after|)) {
      LeadsMono(after, before, src, src, x, Below(|after|), Unmarked(before, id));
    }
  }

  /** An ε-closure is closed: a split state in it has the targets of its arrows in it. */
  lemma ClosureClosed(states: seq<State>, src: set<nat>, id: int)
    requires Marks(states, id) == Closure(states, src)
    requires forall x :: 0 <= x < |states| ==> ArrowsBelow(states[x], |states|)
    ensures Closed(states, id)
  {
    forall x: nat, y: nat | x < |states| && states[x].lastlist == id && y < |states| && EpsArrow(states[x], y)
      ensures states[y].lastlist == id
    {
      assert x in Marks(states, id);
      LeadsAppend(states, src, x, y, Below(|states|));
      assert y in Closure(states, src);
    }
  }

  /** Closures depend only on labels and arrows. */
  lemma ClosureShape(a: seq<State>, b: seq<State>, src: set<nat>)
    requires SameShape(a, b)
    ensures Closure(a, src) == Closure(b, src)
  {
    forall x: nat | x < |a|
      ensures x in Closure(a, src) <==> x in Closure(b, src)
    {
      if LeadsFrom(a, src, x, Below(|a|)) {
        LeadsMono(a, b, src, src, x, Below(|a|), Below(|b|));
      }
      if LeadsFrom(b, src, x, Below(|b|)) {
        LeadsMono(b, a, src, src, x, Below(|b|), Below(|a|));
      }
    }
  }

  /** Successors on `c` depend only on the character states among the sources, and on labels and arrows. */
  lemma SuccAgree(a: seq<State>, b: seq<State>, from: set<nat>, from': set<nat>, c: char)
    requires SameShape(a, b)
    requires forall x :: 0 <= x < |a| && a[x].c.Char? ==> (x in from <==> x in from')
    ensures Succ(a, from, c) == Succ(b, from', c)
  {
    forall z | z in Succ(a, from, c)
      ensures z in Succ(b, from', c)
    {
      var x :| x in from && x < |a| && a[x].c == Char(c) && a[x].out.Some? && a[x].out.value == z;
      assert x in from' && b[x] .c == Char(c) && b[x].out == a[x].out;
    }
    forall z | z in Succ(b, from', c)
      ensures z in Succ(a, from, c)
    {
      var x :| x in from' && x < |b| && b[x].c == Char(c) && b[x].out.Some? && b[x].out.value == z;
      assert x in from && a[x].c == Char(c) && b[x].out == a[x].out;
    }
  }

  /** One more source state adds its target when it reads `c`. */
  lemma SuccAdd(states: seq<State>, from: set<nat>, y: nat, c: char)
    requires y < |states|
    ensures Succ(states, from + {y}, c) == Succ(states, from, c) + (if states[y].c == Char(c) then Targets(states[y].out) else {})
  {
    var extra := if states[y].c == Char(c) then Targets(states[y].out) else {};
    forall z | z in Succ(states, from + {y}, c)
      ensures z in Succ(states, from, c) + extra
    {
      var x :| x in from + {y} && x < |states| && states[x].c == Char(c) && states[x].out.Some? && states[x].out.value == z;
      if x != y {
        assert x in from;
      }
    }
    forall z | z in Succ(states, from, c) + extra
      ensures z in Succ(states, from + {y}, c)
    {
      if z in Succ(states, from, c) {
        var x :| x in from && x < |states| && states[x].c == Char(c) && states[x].out.Some? && states[x].out.value == z;
        assert x in from + {y};
      } else {
        assert y in from + {y} && states[y].out.value == z;
      }
    }
  }

  /** The successors of the first `i + 1` states of `l` are those of the first `i` and of `l[i]`. */
  lemma SuccSnoc(states: seq<State>, l: seq<nat>, i: nat, c: char)
    requires i < |l| && l[i] < |states|
    ensures Succ(states, Elems(l[..i + 1]), c)
         == Succ(states, Elems(l[..i]), c) + (if states[l[i]].c == Char(c) then Targets(states[l[i]].out) else {})
  {
    assert l[..i + 1] == l[..i] + [l[i]];
    assert Elems(l[..i + 1]) == Elems(l[..i]) + {l[i]};
    SuccAdd(states, Elems(l[..i]), l[i], c);
  }

  /** `StepSet` depends only on labels and arrows. */
  lemma StepSetShape(a: seq<State>, b: seq<State>, cur: set<nat>, start: nat, c: char)
    requires SameShape(a, b)
    ensures StepSet(a, cur, start, c) == StepSet(b, cur, start, c)
  {
    ClosureShape(a, b, cur + {start});
    var from := Closure(a, cur + {start});
    SuccAgree(a, b, from, from, c);
    ClosureShape(a, b, Succ(a, from, c));
  }

  /** The states `match` is in form a closed generation. */
  lemma ActiveClosed(s0: seq<State>, states: seq<State>, start: nat, s: string, i: nat, id: int)
    requires SameShape(s0, states) && i <= |s| && Marks(states, id) == Active(s0, start, s, i)
    requires forall x :: 0 <= x < |states| ==> ArrowsBelow(states[x], |states|)
    ensures Closed(states, id)
  {
    var src := if i == 0 then {start} else Succ(s0, Closure(s0, Active(s0, start, s, i - 1) + {start}), s[i - 1]);
    assert Active(s0, start, s, i) == Closure(s0, src);
    ClosureShape(s0, states, src);
    ClosureClosed(states, src, id);
  }

  /**
   * Along a walk from the marked states of a closed generation or from
   * `start`, every state is marked or reached from `start` through
   * unmarked states.
   */
  lemma {:induction false} AbsorbWalk(before: seq<State>, id: int, start: nat, p: seq<nat>, k: nat)
    requires Closed(before, id) && EpsPath(before, p) && p[0] in Marks(before, id) + {start} && k < |p|
    ensures p[k] in Marks(before, id) || LeadsFrom(before, {start}, p[k], Unmarked(before, id))
    decreases k
  {
    if k == 0 {
      if p[0] !in Marks(before, id) {
        LeadsHere(before, {start}, start, Unmarked(before, id));
      }
    } else {
      AbsorbWalk(before, id, start, p, k - 1);
      assert EpsArrow(before[p[k - 1]], p[k]);
      if p[k - 1] in Marks(before, id) {
        assert MarkedOpt(before, before[p[k - 1]].out, id) && MarkedOpt(before, before[p[k - 1]].out1, id);
      } else if p[k] !in Marks(before, id) {
        LeadsAppend(before, {start}, p[k - 1], p[k], Unmarked(before, id));
      }
    }
  }

  /**
   * Spreading from `start` over a closed generation marks the closure of
   * the generation's states and `start`.
   */
  lemma Absorb(before: seq<State>, after: seq<State>, start: nat, id: int)
    requires Closed(before, id) && SameShape(before, after) && start < |before|
    requires forall x :: 0 <= x < |after| ==>
               (after[x].lastlist == id <==> before[x].lastlist == id || LeadsFrom(before, {start}, x, Unmarked(before, id)))
    ensures forall x: nat :: x < |after| ==> (after[x].lastlist == id <==> x in Closure(before, Marks(before, id) + {start}))
  {
    var src := Marks(before, id) + {start};
    forall x: nat | x < |after|
      ensures after[x].lastlist == id <==> x in Closure(before, src)
    {
      if before[x].lastlist == id {
        assert x in Marks(before, id);
        LeadsHere(before, src, x, Below(|before|));
      } else if LeadsFrom(before, {start}, x, Unmarked(before, id)) {
        LeadsMono(before, before, {start}, src, x, Unmarked(before, id), Below(|before|));
      }
      if x in Closure(before, src) {
        var p :| EpsPath(before, p) && p[0] in src && p[|p| - 1] == x && forall k :: 0 <= k < |p| ==> p[k] in Below(|before|);
        AbsorbWalk(before, id, start, p, |p| - 1);
      }
    }
  }

  /** Marking one state that is not a split state and appending it. */
  lemma OneAdded(b0: seq<State>, b1: seq<State>, l: seq<nat>, x: nat, id: int, start: int)
    requires x < |b0| && b0[x].lastlist != id && !b0[x].c.Split?
    requires b1 == b0[x := b0[x].(lastlist := id, start := start)]
    ensures Marking(b0, b1, id, start) && Added(b0, b1, l, l + [x], id) && Spread(b0, b1, {x}, id)
  {
    AddedOne(b0, b1, l, x, id, start);
    SpreadOne(b0, b1, x, id, start);
  }

  /** The list part of `OneAdded`. */
  lemma AddedOne(b0: seq<State>, b1: seq<State>, l: seq<nat>, x: nat, id: int, start: int)
    requires x < |b0| && b0[x].lastlist != id && !b0[x].c.Split?
    requires b1 == b0[x := b0[x].(lastlist := id, start := start)]
    ensures Marking(b0, b1, id, start) && Added(b0, b1, l, l + [x], id)
  {
    assert (l + [x])[..|l|] == l && (l + [x])[|l|..] == [x];
  }

  /** Marking a split state, then adding from the targets of both its arrows. */
  lemma SplitAdded(b0: seq<State>, b1: seq<State>, b2: seq<State>, b3: seq<State>,
                   l: seq<nat>, l1: seq<nat>, l2: seq<nat>, x: nat, id: int, start: int)
    requires x < |b0| && b0[x].lastlist != id && b0[x].c.Split?
    requires b1 == b0[x := b0[x].(lastlist := id, start := start)]
    requires Marking(b1, b2, id, start) && Added(b1, b2, l, l1, id) && Spread(b1, b2, Targets(b0[x].out), id)
    requires Marking(b2, b3, id, start) && Added(b2, b3, l1, l2, id) && Spread(b2, b3, Targets(b0[x].out1), id)
    ensures Marking(b0, b3, id, start) && Added(b0, b3, l, l2, id) && Spread(b0, b3, {x}, id)
  {
    assert Added(b0, b1, l, l, id);
    MarkingKeepsShape(b1, b2, id, start);
    MarkingKeepsShape(b2, b3, id, start);
    AddedTrans(b0, b1, b2, l, l, l1, id, start);
    MarkingTrans(b0, b1, b2, id, start);
    MarkingTrans(b0, b2, b3, id, start);
    AddedTrans(b0, b2, b3, l, l1, l2, id, start);
    SpreadTrans(b1, b2, b3, Targets(b0[x].out), Targets(b0[x].out1), id);
    MarkingTrans(b1, b2, b3, id, start);
    MarkingKeepsShape(b1, b3, id, start);
    SpreadSplit(b0, b1, b3, x, id, start);
  }

  /** One turn of the loop of `step` keeps the spread from the successors followed so far. */
  lemma FollowSpread(s0: seq<State>, prev: seq<State>, cur: seq<State>, l: seq<nat>, i: nat, c: char, id: int)
    requires i < |l| && l[i] < |s0|
    requires SameShape(s0, prev) && Keeps(s0, prev, id) && Spread(s0, prev, Succ(s0, Elems(l[..i]), c), id)
    requires SameShape(prev, cur) && Keeps(prev, cur, id)
    requires prev[l[i]].c != Char(c) ==> cur == prev
    requires prev[l[i]].c == Char(c) ==> Spread(prev, cur, Targets(prev[l[i]].out), id)
    ensures SameShape(s0, cur) && Keeps(s0, cur, id) && Spread(s0, cur, Succ(s0, Elems(l[..i + 1]), c), id)
  {
    SuccSnoc(s0, l, i, c);
    if prev[l[i]].c == Char(c) {
      SpreadTrans(s0, prev, cur, Succ(s0, Elems(l[..i]), c), Targets(prev[l[i]].out), id);
    }
  }

  /**
   * What `step` computes when the current generation is closed: the
   * current list is the character states of the closure of the generation
   * and `start`, and the next generation is `StepSet` of it.
   */
  lemma StepClosed(before: seq<State>, mid: seq<State>, after: seq<State>, l: seq<nat>, start: nat, c: char, id: int, id': int)
    requires Closed(before, id) && start < |before|
    requires Spread(before, mid, {start}, id) && SameShape(before, mid) && Keeps(before, mid, id)
    requires ListInv(mid, l, id) && SameShape(mid, after)
    requires Marks(after, id') == Closure(after, Succ(after, Elems(l), c))
    ensures forall x: nat :: x < |after| && !after[x].c.Split? ==>
              (x in l <==> x in Closure(before, Marks(before, id) + {start}))
    ensures Marks(after, id') == StepSet(before, Marks(before, id), start, c)
  {
    var cur := Closure(before, Marks(before, id) + {start});
    SpreadMarks(before, mid, {start}, id);
    Absorb(before, mid, start, id);
    SuccAgree(after, before, Elems(l), cur, c);
    ClosureShape(after, before, Succ(before, cur, c));
  }

  /** The target of a listed state reading `c` is in the next generation. */
  lemma SuccInClosure(states: seq<State>, l: seq<nat>, x: nat, c: char)
    requires x in l && x < |states| && states[x].c == Char(c) && states[x].out.Some? && states[x].out.value < |states|
    ensures states[x].out.value in Closure(states, Succ(states, Elems(l), c))
  {
    assert states[x].out.value in Succ(states, Elems(l), c);
    LeadsHere(states, Succ(states, Elems(l), c), states[x].out.value, Below(|states|));
  }

  /** One character of `match` takes the generation from `Active` at `i` to `Active` at `i + 1`. */
  lemma MatchStep(s0: seq<State>, prev: seq<State>, cur: seq<State>, start: nat, s: string, i: nat, id: int, id': int)
    requires i < |s| && SameShape(s0, prev) && Marks(prev, id) == Active(s0, start, s, i)
    requires forall x :: 0 <= x < |prev| ==> ArrowsBelow(prev[x], |prev|)
    requires Closed(prev, id) ==> Marks(cur, id') == StepSet(prev, Marks(prev, id), start, s[i])
    ensures Marks(cur, id') == Active(s0, start, s, i + 1)
  {
    ActiveClosed(s0, prev, start, s, i, id);
    StepSetShape(prev, s0, Active(s0, start, s, i), start, s[i]);
  }

  /**
   * The slices end, in increasing order, exactly at `ends`, each starting
   * before it ends and ending at or before `i`.
   */
  ghost predicate SlicesEnd(slices: seq<Slice>, ends: seq<int>, i: int) {
    && |slices| == |ends|
    && (forall k :: 0 <= k < |slices| ==> slices[k].end == ends[k] && 0 <= slices[k].start < slices[k].end <= i)
    && (forall k :: 0 < k < |slices| ==> slices[k - 1].end < slices[k].end)
  }

  /** Appending a slice ending at `i + 1`, or none, keeps the slices in order. */
  lemma SlicesNext(slices: seq<Slice>, slices': seq<Slice>, ends: seq<int>, i: int, hit: bool)
    requires SlicesEnd(slices, ends, i)
    requires !hit ==> slices' == slices
    requires hit ==> && |slices'| == |slices| + 1 && slices'[..|slices|] == slices
                     && slices'[|slices|].end == i + 1 && 0 <= slices'[|slices|].start <= i
    ensures SlicesEnd(slices', ends + (if hit then [i + 1] else []), i + 1)
  {
    if hit {
      forall k | 0 <= k < |slices|
        ensures slices'[k] == slices[k]
      {
        assert slices'[..|slices|][k] == slices'[k];
      }
    }
  }

  class Machine {
    /** Every state allocated so far; index 0 is `matchstate`. */
    var states: seq<State>
    /** The number of states `state()` has allocated. */
    var nstate: int
    /** The generation of the state list being built. */
    var listid: int

    ghost predicate Valid()
      reads this
    {
      && nstate >= 0 && |states| == nstate + 1
      && states[MatchState].c == Label.Match
      && listid >= 0
      && forall x :: 0 <= x < |states| ==>
           && ArrowsBelow(states[x], |states|)
           && 0 <= states[x].lastlist <= listid
           && states[x].start >= 0
    }

    /** The program's initial state: only `matchstate`, nothing allocated, `listid` 0. */
    constructor()
      ensures Valid()
      ensures states == [State(Label.Match, None, None, 0, 0)] && nstate == 0 && listid == 0
    {
      states := [State(Label.Match, None, None, 0, 0)];
      nstate := 0;
      listid := 0;
    }

    /** `state(c, out, out1)`: allocates one more state, unmarked and with start 0. */
    method NewState(c: Label, out: Option<nat>, out1: Option<nat>) returns (s: nat)
      requires Valid() && ArrowsBelow(State(c, out, out1, 0, 0), |states|)
      modifies this
      ensures Valid()
      ensures states == old(states) + [State(c, out, out1, 0, 0)] && s == |old(states)|
      ensures nstate == old(nstate) + 1 && listid == old(listid)
    {
      nstate := nstate + 1;
      states := states + [State(c, out, out1, 0, 0)];
      s := |states| - 1;
    }

    /** `patch(l, target)`: every dangling arrow in `l` now leads to `target`. */
    method Patch(l: seq<Hole>, target: nat)
      requires Valid() && target < |states|
      requires forall h :: h in l ==> h.state < |states|
      modifies this
      ensures Valid() && nstate == old(nstate) && listid == old(listid)
      ensures |states| == |old(states)|
      ensures forall x :: 0 <= x < |states| ==> states[x] == Patched(old(states)[x], x, l, target)
    {
      var k := 0;
      while k < |l|
        invariant 0 <= k <= |l|
        invariant Valid() && nstate == old(nstate) && listid == old(listid)
        invariant |states| == |old(states)|
        invariant forall x :: 0 <= x < |states| ==> states[x] == Patched(old(states)[x], x, l[..k], target)
      {
        var h := l[k];
        var s := states[h.state];
        states := states[h.state := if h.slot == Out then s.(out := Some(target)) else s.(out1 := Some(target))];
        assert l[..k + 1] == l[..k] + [h];
        k := k + 1;
      }
      assert l[..k] == l;
    }

    /**
     * The fragments on the stack are built from states at `base` or above,
     * and every arrow such a state still needs is dangling in some fragment.
     */
    ghost predicate FragInv(stack: seq<Frag>, base: nat)
      reads this
    {
      base <= |states| && Rooted(states, base, stack) && Dangling(states, base, AllHoles(stack))
    }

    /** The effect of one `post2nfa` case on states below `base` and on labels. */
    twostate predicate Grown(base: nat, added: Option<Label>)
      reads this
    {
      && nstate == old(nstate) + (if added.Some? then 1 else 0)
      && listid == old(listid)
      && |states| == |old(states)| + (if added.Some? then 1 else 0)
      && base <= |old(states)|
      && (forall x :: 0 <= x < base ==> states[x] == old(states)[x])
      && (forall x :: 0 <= x < |old(states)| ==> states[x].c == old(states)[x].c)
      && (added.Some? ==> states[|old(states)|].c == added.value)
    }

    /** `.`: the first fragment's dangling arrows are patched to the second's start. */
    method Catenate(stack: seq<Frag>, ghost base: nat) returns (stack': seq<Frag>)
      requires Valid() && |stack| >= 2 && FragInv(stack, base)
      modifies this
      ensures Valid() && FragInv(stack', base) && Grown(base, None)
      ensures |stack'| == |stack| - 1
    {
      var e2 := stack[|stack| - 1];
      var e1 := stack[|stack| - 2];
      var rest := stack[..|stack| - 2];
      assert stack == rest + [e1] + [e2];
      AllHolesPush(rest + [e1], e2);
      AllHolesPush(rest, e1);
      ghost var before := states;
      Patch(e1.out, e2.start);
      PatchDangling(before, states, base, AllHoles(rest), e1.out, e2.out, e2.start);
      stack' := rest + [Frag(e1.start, e2.out)];
      AllHolesPush(rest, Frag(e1.start, e2.out));
    }

    /** `|`: a split state leads to both fragments, whose dangling arrows are joined. */
    method Alternate(stack: seq<Frag>, ghost base: nat) returns (stack': seq<Frag>)
      requires Valid() && |stack| >= 2 && FragInv(stack, base)
      modifies this
      ensures Valid() && FragInv(stack', base) && Grown(base, Some(Split))
      ensures |stack'| == |stack| - 1
    {
      var e2 := stack[|stack| - 1];
      var e1 := stack[|stack| - 2];
      var rest := stack[..|stack| - 2];
      assert stack == rest + [e1] + [e2];
      AllHolesPush(rest + [e1], e2);
      AllHolesPush(rest, e1);
      ghost var before := states;
      var s := NewState(Split, Some(e1.start), Some(e2.start));
      DanglingGrow(before, states[s], base, AllHoles(stack), []);
      stack' := rest + [Frag(s, e1.out + e2.out)];
      AllHolesPush(rest, Frag(s, e1.out + e2.out));
    }

    /** `?`: a split state leads to the fragment or, through a new dangling arrow, past it. */
    method ZeroOrOne(stack: seq<Frag>, ghost base: nat) returns (stack': seq<Frag>)
      requires Valid() && |stack| >= 1 && FragInv(stack, base)
      modifies this
      ensures Valid() && FragInv(stack', base) && Grown(base, Some(Split))
      ensures |stack'| == |stack|
    {
      var e := stack[|stack| - 1];
      var rest := stack[..|stack| - 1];
      assert stack == rest + [e];
      AllHolesPush(rest, e);
      ghost var before := states;
      var s := NewState(Split, Some(e.start), None);
      DanglingGrow(before, states[s], base, AllHoles(stack), [Hole(s, Out1)]);
      stack' := rest + [Frag(s, e.out + [Hole(s, Out1)])];
      AllHolesPush(rest, Frag(s, e.out + [Hole(s, Out1)]));
    }

    /** `*`: the fragment loops back to a split state, which is the new start. */
    method ZeroOrMore(stack: seq<Frag>, ghost base: nat) returns (stack': seq<Frag>)
      requires Valid() && |stack| >= 1 && FragInv(stack, base)
      modifies this
      ensures Valid() && FragInv(stack', base) && Grown(base, Some(Split))
      ensures |stack'| == |stack|
    {
      var e := stack[|stack| - 1];
      var rest := stack[..|stack| - 1];
      assert stack == rest + [e];
      AllHolesPush(rest, e);
      ghost var before := states;
      var s := NewState(Split, Some(e.start), None);
      DanglingGrow(before, states[s], base, AllHoles(stack), [Hole(s, Out1)]);
      ghost var grown := states;
      Patch(e.out, s);
      PatchDangling(grown, states, base, AllHoles(rest), e.out, [Hole(s, Out1)], s);
      stack' := rest + [Frag(s, [Hole(s, Out1)])];
      AllHolesPush(rest, Frag(s, [Hole(s, Out1)]));
    }

    /** `+`: the fragment loops back through a split state, but keeps its own start. */
    method OneOrMore(stack: seq<Frag>, ghost base: nat) returns (stack': seq<Frag>)
      requires Valid() && |stack| >= 1 && FragInv(stack, base)
      modifies this
      ensures Valid() && FragInv(stack', base) && Grown(base, Some(Split))
      ensures |stack'| == |stack|
    {
      var e := stack[|stack| - 1];
      var rest := stack[..|stack| - 1];
      assert stack == rest + [e];
      AllHolesPush(rest, e);
      ghost var before := states;
      var s := NewState(Split, Some(e.start), None);
      DanglingGrow(before, states[s], base, AllHoles(stack), [Hole(s, Out1)]);
      ghost var grown := states;
      Patch(e.out, s);
      PatchDangling(grown, states, base, AllHoles(rest), e.out, [Hole(s, Out1)], s);
      stack' := rest + [Frag(e.start, [Hole(s, Out1)])];
      AllHolesPush(rest, Frag(e.start, [Hole(s, Out1)]));
    }

    /** Any other character: a state reading it, with a dangling `out`. */
    method Literal(stack: seq<Frag>, c: char, ghost base: nat) returns (stack': seq<Frag>)
      requires Valid() && FragInv(stack, base)
      modifies this
      ensures Valid() && FragInv(stack', base) && Grown(base, Some(Char(c)))
      ensures |stack'| == |stack| + 1
    {
      ghost var before := states;
      var s := NewState(Char(c), None, None);
      DanglingGrow(before, states[s], base, AllHoles(stack), [Hole(s, Out)]);
      stack' := stack + [Frag(s, [Hole(s, Out)])];
      AllHolesPush(stack, Frag(s, [Hole(s, Out)]));
      RootedPush(before, states, base, stack, Frag(s, [Hole(s, Out)]));
      assert forall x :: 0 <= x < |before| ==> states[x] == before[x];
      assert states[|before|].c == Char(c);
    }

    /**
     * One character of the postfix expression: the case of `post2nfa`'s
     * switch for `c`, or failure when the stack has too few fragments for it
     * or no room for a new one.
     */
    method Consume(stack: seq<Frag>, c: char, ghost base: nat) returns (ok: bool, stack': seq<Frag>)
      requires Valid() && FragInv(stack, base) && |stack| <= StackSize
      modifies this
      ensures ok <==> StackStep(|stack|, c).Height?
      ensures ok ==> StackStep(|stack|, c) == Height(|stack'|)
      ensures ok ==> Valid() && FragInv(stack', base) && Grown(base, if c == '.' then None else Some(LabelOf(c)))
      ensures !ok ==> Valid() && states == old(states) && listid == old(listid)
    {
      stack' := stack;
      ok := StackStep(|stack|, c).Height?;
      if !ok {
        return;
      }
      if c == '.' {
        stack' := Catenate(stack, base);
      } else if c == '|' {
        stack' := Alternate(stack, base);
      } else if c == '?' {
        stack' := ZeroOrOne(stack, base);
      } else if c == '*' {
        stack' := ZeroOrMore(stack, base);
      } else if c == '+' {
        stack' := OneOrMore(stack, base);
      } else {
        stack' := Literal(stack, c, base);
      }
    }

    /** Character `i` of the loop: the stack after `p[..i + 1]`, or how it failed. */
    method Feed(p: string, i: nat, stack: seq<Frag>, ghost base: nat) returns (ok: bool, stack': seq<Frag>)
      requires i < |p| && Valid() && base <= |states| && FragInv(stack, base) && |stack| <= StackSize
      requires StackAfter(p[..i]) == Height(|stack|) && Labelled(states, base, NonDots(p[..i]))
      modifies this
      ensures Valid() && listid == old(listid) && base <= |states|
      ensures forall x :: 0 <= x < base ==> states[x] == old(states)[x]
      ensures ok ==> FragInv(stack', base) && StackAfter(p[..i + 1]) == Height(|stack'|) && |stack'| <= StackSize
      ensures ok ==> Labelled(states, base, NonDots(p[..i + 1]))
      ensures !ok ==> StackAfter(p[..i + 1])
                      == if p[i] == '.' || p[i] == '|' || p[i] == '?' || p[i] == '*' || p[i] == '+' then Underflow else Overflow
    {
      ghost var before := states;
      StackSnoc(p, i);
      ok, stack' := Consume(stack, p[i], base);
      if ok {
        FragmentsNext(p, i, |stack|, |stack'|, before, states, base);
      }
    }

    /**
     * `post2nfa`: builds the NFA of a postfix expression. NULL in, NULL out.
     * Otherwise the outcome follows the fragment stack's heights; each
     * character but `.` allocates one state with the matching label, the
     * states that existed before are untouched, and on success every new
     * state has all the arrows it needs.
     */
    method Post2Nfa(postfix: Option<string>) returns (r: BuildResult)
      requires Valid()
      modifies this
      ensures Valid() && listid == old(listid)
      ensures |old(states)| <= |states| && forall x :: 0 <= x < |old(states)| ==> states[x] == old(states)[x]
      ensures postfix.None? ==> r == Null && states == old(states)
      ensures postfix.Some? ==> Reports(r, StackAfter(postfix.value))
      ensures postfix.Some? && (r.Built? || r == Null) ==> Labelled(states, |old(states)|, NonDots(postfix.value))
      ensures r.Built? ==> |old(states)| <= r.start < |states|
      ensures r.Built? ==> forall x :: |old(states)| <= x < |states| ==> Complete(states[x])
    {
      if postfix.None? {
        return Null;
      }
      ghost var base := |states|;
      var failure, stack := Fragments(postfix.value, base);
      if failure.Some? {
        return failure.value;
      }
      r := Finish(stack, base);
    }

    /**
     * The loop of `post2nfa`: the fragment stack after the whole expression,
     * or the undefined behaviour that cuts it short.
     */
    method Fragments(p: string, ghost base: nat) returns (failure: Option<BuildResult>, stack: seq<Frag>)
      requires Valid() && base == |states|
      modifies this
      ensures Valid() && listid == old(listid) && |old(states)| <= |states|
      ensures forall x :: 0 <= x < base ==> states[x] == old(states)[x]
      ensures failure.None? ==> StackAfter(p) == Height(|stack|)
      ensures failure.None? ==> FragInv(stack, base) && Labelled(states, base, NonDots(p))
      ensures failure.Some? ==> || (failure.value == StackUnderflow && StackAfter(p) == Underflow)
                                || (failure.value == StackOverflow && StackAfter(p) == Overflow)
    {
      stack := [];
      var i := 0;
      while i < |p|
        invariant 0 <= i <= |p|
        invariant Valid() && listid == old(listid) && base <= |states|
        invariant FragInv(stack, base)
        invariant forall x :: 0 <= x < base ==> states[x] == old(states)[x]
        invariant StackAfter(p[..i]) == Height(|stack|) && |stack| <= StackSize
        invariant Labelled(states, base, NonDots(p[..i]))
      {
        var c := p[i];
        var ok;
        ok, stack := Feed(p, i, stack, base);
        if !ok {
          StackFailurePersists(p, i + 1);
          failure := Some(if c == '.' || c == '|' || c == '?' || c == '*' || c == '+' then StackUnderflow else StackOverflow);
          return;
        }
        i := i + 1;
      }
      assert p[..i] == p;
      failure := None;
    }

    /**
     * The end of `post2nfa`: the last fragment is popped; if it was the only
     * one, its dangling arrows are patched to `matchstate` and its start is
     * the NFA's.
     */
    method Finish(stack: seq<Frag>, ghost base: nat) returns (r: BuildResult)
      requires Valid() && FragInv(stack, base)
      modifies this
      ensures Valid() && Grown(base, None)
      ensures Reports(r, Height(|stack|))
      ensures r.Built? ==> base <= r.start < |states|
      ensures r.Built? ==> forall x :: base <= x < |states| ==> Complete(states[x])
      ensures r.Built? ==> forall h :: h in stack[0].out ==> h.state < |states| && Arrow(states[h.state], h.slot) == Some(MatchState)
      ensures r.Built? ==> forall x :: 0 <= x < |states| ==> states[x] == Patched(old(states)[x], x, stack[0].out, MatchState)
    {
      var stack := stack;
      if |stack| == 0 {
        return StackUnderflow;
      }
      var e := stack[|stack| - 1];
      stack := stack[..|stack| - 1];
      if |stack| != 0 {
        return Null;
      }
      AllHolesPush([], e);
      assert AllHoles([e]) == [] + e.out + [];
      ghost var before := states;
      Patch(e.out, MatchState);
      PatchDangling(before, states, base, [], e.out, [], MatchState);
      DanglingNoneComplete(states, base);
      return Built(e.start);
    }

    /**
     * The start of `main` with the corrected conversion: the expression is
     * turned into postfix and its NFA is built; NULL from the conversion is
     * `Null`. Without literal dots in the expression the stack never runs
     * short, and a converted expression always builds unless the stack
     * overflows.
     */
    method Compile(re: string) returns (r: BuildResult)
      requires Valid()
      modifies this
      ensures Valid() && listid == old(listid)
      ensures PostfixChecked(re).None? ==> r == Null
      ensures PostfixChecked(re).Some? ==> Reports(r, StackAfter(PostfixChecked(re).value))
      ensures '.' !in re && PostfixChecked(re).Some? ==> r.Built? || r == StackOverflow
    {
      var post := Re2PostChecked(re);
      r := Post2Nfa(post);
      if '.' !in re && post.Some? {
        CheckedWellFormed(re);
        WellFormedBuilds(post.value);
      }
    }

    /**
     * `addstate(l, s, start)`: unless `s` is NULL or already on a list of
     * this generation, marks it and records `start`; a split state is not
     * stored but both its arrows are followed, any other state is appended.
     * What gets marked is a spread from `s`: with `SpreadMarks`, exactly the
     * states a walk along split arrows from `s` reaches through states not
     * yet marked.
     */
    method AddState(l: seq<nat>, s: Option<nat>, start: int) returns (l': seq<nat>)
      requires Valid() && start >= 0
      requires s.Some? ==> s.value < |states|
      modifies this
      ensures Valid() && nstate == old(nstate) && listid == old(listid)
      ensures Marking(old(states), states, listid, start)
      ensures Added(old(states), states, l, l', listid)
      ensures Spread(old(states), states, Targets(s), listid)
      ensures s.None? || old(states)[s.value].lastlist == listid ==> l' == l && states == old(states)
      decreases Unmarked(states, listid)
    {
      if s.None? || states[s.value].lastlist == listid {
        SpreadNone(states, Targets(s), listid);
        return l;
      }
      var x := s.value;
      states := states[x := states[x].(lastlist := listid, start := start)];
      ghost var marked := states;
      assert forall y :: 0 <= y < |states| ==> states[y] == old(states)[y] || y == x;
      assert Valid();
      assert x in Unmarked(old(states), listid) - Unmarked(marked, listid);
      assert Unmarked(marked, listid) <= Unmarked(old(states), listid);
      if states[x].c == Split {
        var l1 := AddState(l, states[x].out, start);
        ghost var mid := states;
        MarkingKeepsShape(marked, mid, listid, start);
        l' := AddState(l1, states[x].out1, start);
        SplitAdded(old(states), marked, mid, states, l, l1, l', x, listid, start);
      } else {
        l' := l + [x];
        OneAdded(old(states), states, l, x, listid, start);
      }
    }

    /** `startlist`: a new generation holding the closure of `start`, all with start 0. */
    method StartList(start: nat) returns (l: seq<nat>)
      requires Valid() && start < |states|
      modifies this
      ensures Valid() && nstate == old(nstate) && listid == old(listid) + 1
      ensures SameShape(old(states), states)
      ensures ListInv(states, l, listid) && StartsAtMost(states, l, 0)
      ensures Marks(states, listid) == Closure(states, {start})
    {
      listid := listid + 1;
      ghost var before := states;
      assert ListInv(before, [], listid);
      l := AddState([], Some(start), 0);
      MarkingKeepsShape(before, states, listid, 0);
      AddedListInv(before, states, [], l, listid, 0);
      FreshSpread(before, states, {start}, listid);
    }

    /**
     * `step`: `start` is added to the current list (its states begin at
     * `j`), a new generation begins, and the next list gets, with their
     * recorded starts, the closure of the targets of the current states
     * that read `c`. When the current generation is closed, as `match`
     * keeps it, the current list becomes the character states of the
     * closure of the generation and `start`, and the new generation is
     * `StepSet` of the old one.
     */
    method Step(clist: seq<nat>, start: nat, c: char, j: int) returns (clist': seq<nat>, nlist: seq<nat>)
      requires Valid() && start < |states| && j >= 0
      requires ListInv(states, clist, listid) && StartsAtMost(states, clist, j)
      modifies this
      ensures Valid() && nstate == old(nstate) && listid == old(listid) + 1
      ensures SameShape(old(states), states)
      ensures |clist| <= |clist'| && clist'[..|clist|] == clist
      ensures !old(states)[start].c.Split? ==> start in clist'
      ensures ListInv(states, nlist, listid) && StartsAtMost(states, nlist, j)
      ensures |clist'| <= nstate + 1 && |nlist| <= nstate + 1
      ensures forall k :: 0 <= k < |clist'| ==> clist'[k] < |states|
      ensures Marks(states, listid) == Closure(states, Succ(states, Elems(clist'), c))
      ensures Closed(old(states), old(listid)) ==>
                forall x: nat :: x < |states| && !states[x].c.Split? ==>
                  (x in clist' <==> x in Closure(old(states), old(Marks(states, listid)) + {start}))
      ensures Closed(old(states), old(listid)) ==>
                Marks(states, listid) == StepSet(old(states), old(Marks(states, listid)), start, c)
    {
      ghost var before := states;
      clist' := AddStart(clist, start, j);
      ghost var mid := states;
      ghost var closed := Closed(before, listid);
      listid := listid + 1;
      nlist := NextList(clist', c, j);
      DistinctBound(nlist, |states|);
      if closed {
        StepClosed(before, mid, states, clist', start, c, old(listid), listid);
      }
    }

    /** The first line of `step`: `addstate(clist, start, j)`. */
    method AddStart(clist: seq<nat>, start: nat, j: int) returns (clist': seq<nat>)
      requires Valid() && start < |states| && j >= 0
      requires ListInv(states, clist, listid) && StartsAtMost(states, clist, j)
      modifies this
      ensures Valid() && nstate == old(nstate) && listid == old(listid)
      ensures SameShape(old(states), states) && Keeps(old(states), states, listid)
      ensures Spread(old(states), states, {start}, listid)
      ensures |clist| <= |clist'| && clist'[..|clist|] == clist
      ensures !old(states)[start].c.Split? ==> start in clist'
      ensures ListInv(states, clist', listid) && StartsAtMost(states, clist', j)
      ensures |clist'| <= nstate + 1
    {
      ghost var before := states;
      clist' := AddState(clist, Some(start), j);
      MarkingKeepsShape(before, states, listid, j);
      AddedListInv(before, states, clist, clist', listid, j);
      MarkingStarts(before, states, clist, listid, j, j);
      DistinctBound(clist', |states|);
    }

    /** The loop of `step`: follows, from every state of `l` that reads `c`, its arrow into a new generation. */
    method NextList(l: seq<nat>, c: char, j: int) returns (nlist: seq<nat>)
      requires Valid() && j >= 0
      requires StartsAtMost(states, l, j)
      requires forall x :: 0 <= x < |states| ==> states[x].lastlist != listid
      modifies this
      ensures Valid() && nstate == old(nstate) && listid == old(listid)
      ensures SameShape(old(states), states)
      ensures ListInv(states, nlist, listid) && StartsAtMost(states, nlist, j)
      ensures forall k :: 0 <= k < |l| ==> l[k] < |states|
      ensures Marks(states, listid) == Closure(states, Succ(states, Elems(l), c))
    {
      nlist := [];
      var i := 0;
      assert ListInv(states, nlist, listid);
      SpreadNone(states, {}, listid);
      assert Elems(l[..0]) == {};
      while i < |l|
        invariant 0 <= i <= |l|
        invariant Valid() && nstate == old(nstate) && listid == old(listid)
        invariant SameShape(old(states), states) && Keeps(old(states), states, listid)
        invariant ListInv(states, nlist, listid) && StartsAtMost(states, nlist, j)
        invariant StartsAtMost(states, l, j)
        invariant Spread(old(states), states, Succ(old(states), Elems(l[..i]), c), listid)
      {
        ghost var prev := states;
        nlist := Follow(l[i], c, j, nlist, l);
        FollowSpread(old(states), prev, states, l, i, c, listid);
        i := i + 1;
      }
      assert l[..i] == l;
      FreshSpread(old(states), states, Succ(old(states), Elems(l), c), listid);
      SuccAgree(old(states), states, Elems(l), Elems(l), c);
    }

    /**
     * One state `s` of the current list: when it reads `c`, the closure of
     * its arrow's target joins the next generation; otherwise nothing
     * changes.
     */
    method Follow(s: nat, c: char, j: int, nlist: seq<nat>, ghost l: seq<nat>) returns (nlist': seq<nat>)
      requires Valid() && j >= 0 && s < |states| && 0 <= states[s].start <= j
      requires ListInv(states, nlist, listid) && StartsAtMost(states, nlist, j) && StartsAtMost(states, l, j)
      modifies this
      ensures Valid() && nstate == old(nstate) && listid == old(listid)
      ensures SameShape(old(states), states) && Keeps(old(states), states, listid)
      ensures ListInv(states, nlist', listid) && StartsAtMost(states, nlist', j) && StartsAtMost(states, l, j)
      ensures old(states)[s].c != Char(c) ==> states == old(states) && nlist' == nlist
      ensures old(states)[s].c == Char(c) ==> Spread(old(states), states, Targets(old(states)[s].out), listid)
    {
      nlist' := nlist;
      if states[s].c == Char(c) {
        ghost var prev := states;
        var from := states[s].start;
        nlist' := AddState(nlist, states[s].out, from);
        MarkingKeepsShape(prev, states, listid, from);
        AddedListInv(prev, states, nlist, nlist', listid, from);
        AddedStarts(prev, states, nlist, nlist', listid, from, j);
        MarkingStarts(prev, states, l, listid, from, j);
      }
    }

    /**
     * One turn of the loop of `match`: `step` on the character at `i`, and
     * a slice ending just past it when `matchstate` is in the new
     * generation.
     */
    method MatchAt(clist: seq<nat>, start: nat, s: string, i: nat, ghost s0: seq<State>, slices: seq<Slice>)
      returns (clist': seq<nat>, slices': seq<Slice>)
      requires Valid() && start < |states| && i < |s| && SameShape(s0, states)
      requires ListInv(states, clist, listid) && StartsAtMost(states, clist, i)
      requires Marks(states, listid) == Active(s0, start, s, i)
      modifies this
      ensures Valid() && nstate == old(nstate) && SameShape(s0, states)
      ensures ListInv(states, clist', listid) && StartsAtMost(states, clist', i + 1)
      ensures Marks(states, listid) == Active(s0, start, s, i + 1)
      ensures MatchState !in Active(s0, start, s, i + 1) ==> slices' == slices
      ensures MatchState in Active(s0, start, s, i + 1) ==>
                && |slices'| == |slices| + 1 && slices'[..|slices|] == slices
                && slices'[|slices|].end == i + 1 && 0 <= slices'[|slices|].start <= i
    {
      ghost var prev := states;
      var current, next := Step(clist, start, s[i], i);
      MatchStep(s0, prev, states, start, s, i, listid - 1, listid);
      clist' := next;
      slices' := slices;
      if states[MatchState].lastlist == listid {
        assert MatchState in clist';
        slices' := slices + [Slice(states[MatchState].start, i + 1)];
      }
      assert MatchState in Marks(states, listid) <==> states[MatchState].lastlist == listid;
      assert forall k :: 0 <= k < |clist'| ==> 0 <= states[clist'[k]].start <= i + 1;
    }

    /**
     * `match`: runs the NFA from `start` over the line up to its first NUL,
     * a new attempt beginning at every position. After each character that
     * leaves `matchstate` in the current generation, the slice from the
     * recorded start of that match to just past the character is appended
     * (the `addslice` walk to the end of the linked list is a sequence
     * append). The slices end exactly at the positions `MatchEnds` names,
     * and may overlap.
     */
    method Match(start: nat, s: string) returns (slices: seq<Slice>)
      requires Valid() && start < |states|
      modifies this
      ensures Valid() && nstate == old(nstate) && SameShape(old(states), states)
      ensures SlicesEnd(slices, MatchEnds(old(states), start, s, LineEnd(s)), LineEnd(s))
    {
      var clist := StartList(start);
      ClosureShape(old(states), states, {start});
      slices := [];
      var i := 0;
      while i < |s| && s[i] != '\0'
        invariant 0 <= i <= LineEnd(s)
        invariant Valid() && nstate == old(nstate) && SameShape(old(states), states)
        invariant ListInv(states, clist, listid) && StartsAtMost(states, clist, i)
        invariant Marks(states, listid) == Active(old(states), start, s, i)
        invariant SlicesEnd(slices, MatchEnds(old(states), start, s, i), i)
      {
        assert i < LineEnd(s);
        ghost var before := slices;
        clist, slices := MatchAt(clist, start, s, i, old(states), slices);
        SlicesNext(before, slices, MatchEnds(old(states), start, s, i), i, MatchState in Active(old(states), start, s, i + 1));
        i := i + 1;
      }
      assert i == LineEnd(s);
    }
  }

  /**
   * `main` gives each state list `nstate` slots, but a list can hold
   * `nstate + 1` states, `matchstate` not being counted in `nstate`. The
   * NFA of `a` (one state reading `a` into `matchstate`) over the line `aa`:
   * after the first character the list holds `matchstate`, and the second
   * `step` adds the start state to it, two states in a list of one slot.
   */
  method OverfullList() returns (slots: int, needed: int)
    ensures slots == 1 && needed == 2
  {
    var m := new Machine();
    var a := m.NewState(Char('a'), Some(MatchState), None);
    slots := m.nstate;
    var clist := m.StartList(a);
    var first, next := m.Step(clist, a, 'a', 0);
    SuccInClosure(m.states, first, a, 'a');
    assert MatchState in Marks(m.states, m.listid);
    assert MatchState in next;
    var second, after := m.Step(next, a, 'a', 1);
    assert MatchState in second[..|next|];
    assert a in second && a != MatchState;
    var ia :| 0 <= ia < |second| && second[ia] == a;
    var im :| 0 <= im < |next| && second[..|next|][im] == MatchState;
    assert second[im] == MatchState && ia != im;
    needed := |second|;
  }
}
