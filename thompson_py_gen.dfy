/**
 * Building the Python matcher's NFA from a postfix expression, as functions
 * of the heap of states: the four `generate_nfa_*` constructions and the
 * stack loop of `generate_nfa`. New states are appended to the heap; the
 * constructions rewire the accepting states of the NFAs they combine.
 */
module ThompsonPyGen {
  import opened Wrappers
  import opened ThompsonPySpec

  /** The heap after a construction and the `NFA` object it returns. */
  datatype Built = Built(store: seq<PyState>, nfa: Nfa)

  /** An accepting state with no edges, as every construction leaves its own. */
  predicate Final(s: PyState) {
    s.accept && s.outa == None && s.outb == None
  }

  /** Every NFA of the stack has both its states in the heap. */
  predicate StackIn(st: seq<PyState>, stack: seq<Nfa>) {
    forall k :: 0 <= k < |stack| ==> NfaIn(st, stack[k])
  }

  /** The non-accepting initial state `(c, accepting)` and the accepting state of `generate_nfa_char`. */
  function CharNfa(st: seq<PyState>, c: char): (r: Built)
    requires Closed(st)
    ensures |r.store| == |st| + 2 && r.store[..|st|] == st && r.nfa == Nfa(|st|, |st| + 1)
    ensures Closed(r.store) && NfaIn(r.store, r.nfa)
    ensures r.store[|st|].outa == Some(Edge(c, |st| + 1)) && r.store[|st|].outb == None
    ensures forall x :: |st| <= x < |r.store| ==> (r.store[x].accept <==> x == r.nfa.accepting)
    ensures Final(r.store[r.nfa.accepting])
    ensures MarksBelow(st, 1) ==> MarksBelow(r.store, 1)
  {
    var initial := NewState(false).(outa := Some(Edge(c, |st| + 1)));
    Built(st + [initial, NewState(true)], Nfa(|st|, |st| + 1))
  }

  /**
   * `generate_nfa_split`: a new initial state with `ε`-edges to both
   * initial states, both accepting states rewired by `ε` to a new accepting
   * state and no longer accepting, in the order the Python code writes them.
   */
  function SplitNfa(st: seq<PyState>, a: Nfa, b: Nfa): (r: Built)
    requires Closed(st) && NfaIn(st, a) && NfaIn(st, b)
    ensures |r.store| == |st| + 2 && r.nfa == Nfa(|st|, |st| + 1)
    ensures Closed(r.store) && NfaIn(r.store, r.nfa)
    ensures MarksBelow(st, 1) ==> MarksBelow(r.store, 1)
  {
    var n := |st|;
    var initial := NewState(false).(outa := Some(Edge(Epsilon, a.initial)), outb := Some(Edge(Epsilon, b.initial)));
    var st1 := st + [initial, NewState(true)];
    var st2 := st1[a.accepting := st1[a.accepting].(outa := Some(Edge(Epsilon, n + 1)))];
    var st3 := st2[b.accepting := st2[b.accepting].(outa := Some(Edge(Epsilon, n + 1)))];
    var st4 := st3[a.accepting := st3[a.accepting].(accept := false)];
    var st5 := st4[b.accepting := st4[b.accepting].(accept := false)];
    Built(st5, Nfa(n, n + 1))
  }

  /** `generate_nfa_concat`: `a`'s accepting state leads by `ε` to `b`'s initial state and stops accepting. */
  function ConcatNfa(st: seq<PyState>, a: Nfa, b: Nfa): (r: Built)
    requires Closed(st) && NfaIn(st, a) && NfaIn(st, b)
    ensures |r.store| == |st| && r.nfa == Nfa(a.initial, b.accepting)
    ensures Closed(r.store) && NfaIn(r.store, r.nfa)
    ensures MarksBelow(st, 1) ==> MarksBelow(r.store, 1)
  {
    var st1 := st[a.accepting := st[a.accepting].(outa := Some(Edge(Epsilon, b.initial)))];
    var st2 := st1[a.accepting := st1[a.accepting].(accept := false)];
    Built(st2, Nfa(a.initial, b.accepting))
  }

  /**
   * `generate_nfa_star`: a new initial state leading by `ε` into `a` and to
   * a new accepting state; `a`'s accepting state loops back to `a`'s
   * initial state and leads on to the new accepting state.
   */
  function StarNfa(st: seq<PyState>, a: Nfa): (r: Built)
    requires Closed(st) && NfaIn(st, a)
    ensures |r.store| == |st| + 2 && r.nfa == Nfa(|st|, |st| + 1)
    ensures Closed(r.store) && NfaIn(r.store, r.nfa)
    ensures MarksBelow(st, 1) ==> MarksBelow(r.store, 1)
  {
    var n := |st|;
    var initial := NewState(false).(outa := Some(Edge(Epsilon, a.initial)), outb := Some(Edge(Epsilon, n + 1)));
    var st1 := st + [initial, NewState(true)];
    var st2 := st1[a.accepting := st1[a.accepting].(outa := Some(Edge(Epsilon, a.initial)))];
    var st3 := st2[a.accepting := st2[a.accepting].(outb := Some(Edge(Epsilon, n + 1)))];
    var st4 := st3[a.accepting := st3[a.accepting].(accept := false)];
    Built(st4, Nfa(n, n + 1))
  }

  /** The stack after one character of the expression, from the top of the stack down. */
  function Apply(st: seq<PyState>, c: char, stack: seq<Nfa>): (r: Option<(Built, seq<Nfa>)>)
    requires Closed(st) && StackIn(st, stack)
  {
    if c == '|' || c == '.' then
      if |stack| < 2 then None
      else
        var b := stack[|stack| - 1];
        var a := stack[|stack| - 2];
        var g := if c == '|' then SplitNfa(st, a, b) else ConcatNfa(st, a, b);
        Some((g, stack[..|stack| - 2]))
    else if c == '*' then
      if |stack| < 1 then None
      else
        var g := StarNfa(st, stack[|stack| - 1]);
        Some((g, stack[..|stack| - 1]))
    else
      Some((CharNfa(st, c), stack))
  }

  /**
   * The loop of `generate_nfa` over `p` with the heap `st` and the stack
   * `stack`, and the final `stack.pop()`; `None` is the `IndexError` a pop
   * of the empty stack raises.
   */
  function GenFrom(st: seq<PyState>, p: string, stack: seq<Nfa>): (r: Option<Built>)
    requires Closed(st) && StackIn(st, stack)
    ensures r.Some? ==> Closed(r.value.store) && NfaIn(r.value.store, r.value.nfa) && |st| <= |r.value.store|
    ensures r.Some? && MarksBelow(st, 1) ==> MarksBelow(r.value.store, 1)
    decreases |p|
  {
    if p == [] then
      if stack == [] then None else Some(Built(st, stack[|stack| - 1]))
    else
      var step := Apply(st, p[0], stack);
      if step.None? then None
      else
        var (g, rest) := step.value;
        GenFrom(g.store, p[1..], rest + [g.nfa])
  }

  /** `generate_nfa`: the NFA of a postfix expression, built from no states at all. */
  function GenerateNfa(p: string): Option<Built> {
    GenFrom([], p, [])
  }

  /** The stack height after one character, or `None` where a pop finds the stack empty. */
  function HeightStep(h: nat, c: char): Option<nat> {
    if c == '|' || c == '.' then (if h < 2 then None else Some(h - 1))
    else if c == '*' then (if h < 1 then None else Some(h))
    else Some(h + 1)
  }

  /** The stack height after `p`, or `None` where a pop finds the stack empty. */
  function Height(h: nat, p: string): Option<nat>
    decreases |p|
  {
    if p == [] then Some(h)
    else
      var h' := HeightStep(h, p[0]);
      if h'.None? then None else Height(h'.value, p[1..])
  }

  lemma ApplyHeight(st: seq<PyState>, c: char, stack: seq<Nfa>)
    requires Closed(st) && StackIn(st, stack)
    ensures Apply(st, c, stack).Some? <==> HeightStep(|stack|, c).Some?
    ensures Apply(st, c, stack).Some? ==> |Apply(st, c, stack).value.1| + 1 == HeightStep(|stack|, c).value
  {
  }

  /** The characters of `p` that make two states: all but `.`. */
  function Symbols(p: string): (r: nat)
    ensures r <= |p|
  {
    if p == [] then 0 else (if p[0] == '.' then 0 else 1) + Symbols(p[1..])
  }

  /** `generate_nfa` raises no `IndexError` exactly when no pop finds the stack empty. */
  lemma {:induction false} GenSucceeds(st: seq<PyState>, p: string, stack: seq<Nfa>)
    requires Closed(st) && StackIn(st, stack)
    ensures GenFrom(st, p, stack).Some? <==> Height(|stack|, p).Some? && Height(|stack|, p).value >= 1
    decreases |p|
  {
    if p != [] {
      var step := Apply(st, p[0], stack);
      if step.Some? {
        var (g, rest) := step.value;
        assert StackIn(g.store, rest + [g.nfa]);
        GenSucceeds(g.store, p[1..], rest + [g.nfa]);
      }
      ApplyHeight(st, p[0], stack);
    }
  }

  /** Two new states for every symbol, `|` and `*`, and none for `.`. */
  lemma {:induction false} GenSize(st: seq<PyState>, p: string, stack: seq<Nfa>)
    requires Closed(st) && StackIn(st, stack)
    ensures GenFrom(st, p, stack).Some? ==> |GenFrom(st, p, stack).value.store| == |st| + 2 * Symbols(p)
    decreases |p|
  {
    if p != [] {
      var step := Apply(st, p[0], stack);
      if step.Some? {
        var (g, rest) := step.value;
        assert StackIn(g.store, rest + [g.nfa]);
        GenSize(g.store, p[1..], rest + [g.nfa]);
      }
    }
  }

  /** The accepting states of the NFAs on the stack, bottom first. */
  function Acceptings(stack: seq<Nfa>): (r: seq<nat>)
    ensures |r| == |stack| && forall k :: 0 <= k < |stack| ==> r[k] == stack[k].accepting
  {
    seq(|stack|, k requires 0 <= k < |stack| => stack[k].accepting)
  }

  /**
   * The stack of partial NFAs over the states from `base` on: each NFA's
   * accepting state is its own, final, and among the states from `base` on
   * exactly those are accepting.
   */
  ghost predicate Fragments(st: seq<PyState>, stack: seq<Nfa>, base: nat) {
    && base <= |st| && Closed(st) && StackIn(st, stack)
    && (forall k :: 0 <= k < |stack| ==> base <= stack[k].accepting && Final(st[stack[k].accepting]))
    && DistinctAccepting(stack)
    && FlagsMatch(st, stack, base)
  }

  lemma AcceptingsAppend(s: seq<Nfa>, t: seq<Nfa>)
    ensures Acceptings(s + t) == Acceptings(s) + Acceptings(t)
  {
  }

  /** The accept flags of the states from `base` on mark exactly the accepting states of `stack`. */
  ghost predicate FlagsMatch(st: seq<PyState>, stack: seq<Nfa>, base: nat) {
    forall x :: base <= x < |st| ==> (st[x].accept <==> x in Acceptings(stack))
  }

  /** Nothing but the flags and the stack's accepting states are needed for the whole invariant. */
  lemma FragmentsIntro(st: seq<PyState>, stack: seq<Nfa>, base: nat)
    requires base <= |st| && Closed(st) && StackIn(st, stack)
    requires forall k :: 0 <= k < |stack| ==> base <= stack[k].accepting && Final(st[stack[k].accepting])
    requires DistinctAccepting(stack)
    requires FlagsMatch(st, stack, base)
    ensures Fragments(st, stack, base)
  {
  }

  lemma CharKeeps(st: seq<PyState>, c: char, stack: seq<Nfa>, base: nat)
    requires Fragments(st, stack, base)
    ensures var g := CharNfa(st, c); Fragments(g.store, stack + [g.nfa], base)
  {
    var g := CharNfa(st, c);
    var stack' := stack + [g.nfa];
    AcceptingsAppend(stack, [g.nfa]);
    assert Acceptings(stack') == Acceptings(stack) + [|st| + 1];
    forall x | base <= x < |g.store|
      ensures g.store[x].accept <==> x in Acceptings(stack')
    {
      if x < |st| {
        assert g.store[x] == st[x];
      }
    }
  }

  /**
   * The wiring of `generate_nfa_split` on two NFAs with distinct accepting
   * states: the new initial state leads by `ε` to both initial states, both
   * old accepting states lead by `ε` to the new accepting state and stop
   * accepting, and no other state changes.
   */
  lemma SplitShape(st: seq<PyState>, a: Nfa, b: Nfa)
    requires Closed(st) && NfaIn(st, a) && NfaIn(st, b) && a.accepting != b.accepting
    ensures var g := SplitNfa(st, a, b); var n := |st|;
              && (forall x :: 0 <= x < n && x != a.accepting && x != b.accepting ==> g.store[x] == st[x])
              && g.store[a.accepting] == st[a.accepting].(outa := Some(Edge(Epsilon, n + 1)), accept := false)
              && g.store[b.accepting] == st[b.accepting].(outa := Some(Edge(Epsilon, n + 1)), accept := false)
              && g.store[n] == PyState(false, 0, 0, Some(Edge(Epsilon, a.initial)), Some(Edge(Epsilon, b.initial)))
              && g.store[n + 1] == NewState(true)
  {
  }

  /** The wiring of `generate_nfa_concat`: only `a`'s accepting state changes, to lead by `ε` to `b`. */
  lemma ConcatShape(st: seq<PyState>, a: Nfa, b: Nfa)
    requires Closed(st) && NfaIn(st, a) && NfaIn(st, b)
    ensures var g := ConcatNfa(st, a, b);
              && (forall x :: 0 <= x < |st| && x != a.accepting ==> g.store[x] == st[x])
              && g.store[a.accepting] == st[a.accepting].(outa := Some(Edge(Epsilon, b.initial)), accept := false)
  {
  }

  /**
   * The wiring of `generate_nfa_star`: the new initial state leads by `ε`
   * into `a` and to the new accepting state; `a`'s accepting state leads by
   * `ε` back to `a`'s initial state and on to the new accepting state.
   */
  lemma StarShape(st: seq<PyState>, a: Nfa)
    requires Closed(st) && NfaIn(st, a)
    ensures var g := StarNfa(st, a); var n := |st|;
              && (forall x :: 0 <= x < n && x != a.accepting ==> g.store[x] == st[x])
              && g.store[a.accepting]
                 == st[a.accepting].(outa := Some(Edge(Epsilon, a.initial)), outb := Some(Edge(Epsilon, n + 1)), accept := false)
              && g.store[n] == PyState(false, 0, 0, Some(Edge(Epsilon, a.initial)), Some(Edge(Epsilon, n + 1)))
              && g.store[n + 1] == NewState(true)
  {
  }

  /** No two NFAs of the stack share their accepting state. */
  ghost predicate DistinctAccepting(stack: seq<Nfa>) {
    forall j, k :: 0 <= j < k < |stack| ==> stack[j].accepting != stack[k].accepting
  }

  /** The NFAs left below the replaced ones keep accepting states apart from the rest and from `y`. */
  lemma ReplaceBelow(stack: seq<Nfa>, low: seq<Nfa>, y: nat, n: nat)
    requires DistinctAccepting(stack) && |low| < |stack| && low == stack[..|low|]
    requires forall k :: 0 <= k < |stack| ==> stack[k].accepting < n
    requires y in Acceptings(stack[|low|..]) || n <= y
    ensures Acceptings(stack) == Acceptings(low) + Acceptings(stack[|low|..])
    ensures y !in Acceptings(low)
    ensures forall k :: 0 <= k < |low| ==> low[k].accepting !in Acceptings(stack[|low|..])
  {
    var top := stack[|low|..];
    assert stack == low + top;
    AcceptingsAppend(low, top);
  }

  /** The NFAs below keep final accepting states, and no two share one. */
  lemma ReplaceLow(st: seq<PyState>, stack: seq<Nfa>, low: seq<Nfa>, st': seq<PyState>, nfa: Nfa, base: nat)
    requires |low| < |stack| && low == stack[..|low|] && DistinctAccepting(stack) && |st| <= |st'|
    requires forall k :: 0 <= k < |stack| ==> base <= stack[k].accepting < |st| && Final(st[stack[k].accepting])
    requires forall k :: 0 <= k < |low| ==> low[k].accepting !in Acceptings(stack[|low|..])
    requires forall x :: 0 <= x < |st| && x !in Acceptings(stack[|low|..]) ==> st'[x] == st[x]
    requires nfa.accepting !in Acceptings(low) && base <= nfa.accepting < |st'| && Final(st'[nfa.accepting])
    ensures forall k :: 0 <= k < |low| + 1 ==> base <= (low + [nfa])[k].accepting && Final(st'[(low + [nfa])[k].accepting])
    ensures DistinctAccepting(low + [nfa])
  {
    var stack' := low + [nfa];
    forall k | 0 <= k < |low|
      ensures base <= stack'[k].accepting && Final(st'[stack'[k].accepting])
    {
      assert low[k] == stack[k];
    }
    forall j, k | 0 <= j < k < |stack'|
      ensures stack'[j].accepting != stack'[k].accepting
    {
      assert stack'[j] == stack[j];
      if k < |low| {
        assert stack'[k] == stack[k];
      } else {
        assert Acceptings(low)[j] == stack'[j].accepting;
      }
    }
  }

  lemma ReplaceFlags(st: seq<PyState>, stack: seq<Nfa>, low: seq<Nfa>, st': seq<PyState>, y: nat, base: nat)
    requires FlagsMatch(st, stack, base) && |low| < |stack| && |st| <= |st'| && low == stack[..|low|]
    requires forall k :: 0 <= k < |stack| ==> stack[k].accepting < |st|
    requires Acceptings(stack) == Acceptings(low) + Acceptings(stack[|low|..]) && y !in Acceptings(low)
    requires y in Acceptings(stack[|low|..]) || |st| <= y
    requires forall k :: 0 <= k < |low| ==> low[k].accepting !in Acceptings(stack[|low|..])
    requires forall x :: 0 <= x < |st| && x !in Acceptings(stack[|low|..]) ==> st'[x] == st[x]
    requires forall k :: |low| <= k < |stack| && stack[k].accepting != y ==> !st'[stack[k].accepting].accept
    requires base <= y < |st'| && st'[y].accept
    requires forall x :: |st| <= x < |st'| && x != y ==> !st'[x].accept
    ensures forall x :: base <= x < |st'| ==> (st'[x].accept <==> x in Acceptings(low) + [y])
  {
    var top := stack[|low|..];
    forall x | base <= x < |st'|
      ensures st'[x].accept <==> x in Acceptings(low) + [y]
    {
      if x < |st| && x !in Acceptings(top) {
        assert st'[x] == st[x];
      } else if x < |st| {
        var k :| 0 <= k < |top| && Acceptings(top)[k] == x;
        assert stack[|low| + k].accepting == x;
        assert x !in Acceptings(low) by {
          forall j | 0 <= j < |low|
            ensures Acceptings(low)[j] != x
          {
            assert low[j].accepting !in Acceptings(top);
          }
        }
      } else {
        assert x !in Acceptings(low) by {
          forall k | 0 <= k < |low|
            ensures Acceptings(low)[k] != x
          {
            assert low[k] == stack[k];
          }
        }
      }
    }
  }

  /**
   * The invariant after replacing the top `|stack| - |low|` NFAs by `nfa`
   * in a heap `st'` where only their accepting states changed, each but
   * `nfa`'s own to stop accepting, and where the states from `|st|` on are
   * new, the accepting one of them being `nfa`'s own and final.
   */
  lemma Replace(st: seq<PyState>, stack: seq<Nfa>, low: seq<Nfa>, st': seq<PyState>, nfa: Nfa, base: nat)
    requires Fragments(st, stack, base) && |low| < |stack| && low == stack[..|low|]
    requires |st| <= |st'| && Closed(st') && NfaIn(st', nfa) && StackIn(st', low)
    requires forall x :: 0 <= x < |st| && x !in Acceptings(stack[|low|..]) ==> st'[x] == st[x]
    requires forall k :: |low| <= k < |stack| && stack[k].accepting != nfa.accepting ==> !st'[stack[k].accepting].accept
    requires base <= nfa.accepting && Final(st'[nfa.accepting])
    requires nfa.accepting in Acceptings(stack[|low|..]) || |st| <= nfa.accepting
    requires forall x :: |st| <= x < |st'| && x != nfa.accepting ==> !st'[x].accept
    ensures Fragments(st', low + [nfa], base)
  {
    var stack' := low + [nfa];
    ReplaceBelow(stack, low, nfa.accepting, |st|);
    ReplaceFlags(st, stack, low, st', nfa.accepting, base);
    AcceptingsAppend(low, [nfa]);
    assert Acceptings(stack') == Acceptings(low) + [nfa.accepting];
    ReplaceLow(st, stack, low, st', nfa, base);
    FragmentsIntro(st', stack', base);
  }

  /** `generate_nfa_split` leaves one accepting state where its two operands had one each. */
  lemma SplitKeeps(st: seq<PyState>, stack: seq<Nfa>, base: nat)
    requires Fragments(st, stack, base) && |stack| >= 2
    ensures var g := SplitNfa(st, stack[|stack| - 2], stack[|stack| - 1]);
              Fragments(g.store, stack[..|stack| - 2] + [g.nfa], base)
  {
    var a, b := stack[|stack| - 2], stack[|stack| - 1];
    var g := SplitNfa(st, a, b);
    SplitShape(st, a, b);
    assert Acceptings(stack[|stack| - 2..]) == [a.accepting, b.accepting];
    Replace(st, stack, stack[..|stack| - 2], g.store, g.nfa, base);
  }

  /** `generate_nfa_concat` leaves `b`'s accepting state the only accepting one of the two operands. */
  lemma ConcatKeeps(st: seq<PyState>, stack: seq<Nfa>, base: nat)
    requires Fragments(st, stack, base) && |stack| >= 2
    ensures var g := ConcatNfa(st, stack[|stack| - 2], stack[|stack| - 1]);
              Fragments(g.store, stack[..|stack| - 2] + [g.nfa], base)
  {
    var a, b := stack[|stack| - 2], stack[|stack| - 1];
    var g := ConcatNfa(st, a, b);
    ConcatShape(st, a, b);
    assert Acceptings(stack[|stack| - 2..]) == [a.accepting, b.accepting];
    Replace(st, stack, stack[..|stack| - 2], g.store, g.nfa, base);
  }

  /** `generate_nfa_star` moves the accepting state of its operand to a new one. */
  lemma StarKeeps(st: seq<PyState>, stack: seq<Nfa>, base: nat)
    requires Fragments(st, stack, base) && |stack| >= 1
    ensures var g := StarNfa(st, stack[|stack| - 1]);
              Fragments(g.store, stack[..|stack| - 1] + [g.nfa], base)
  {
    var a := stack[|stack| - 1];
    var g := StarNfa(st, a);
    StarShape(st, a);
    assert Acceptings(stack[|stack| - 1..]) == [a.accepting];
    Replace(st, stack, stack[..|stack| - 1], g.store, g.nfa, base);
  }

  lemma ApplyKeeps(st: seq<PyState>, c: char, stack: seq<Nfa>, base: nat)
    requires Fragments(st, stack, base) && Apply(st, c, stack).Some?
    ensures var (g, rest) := Apply(st, c, stack).value; Fragments(g.store, rest + [g.nfa], base)
  {
    if c == '|' {
      SplitKeeps(st, stack, base);
    } else if c == '.' {
      ConcatKeeps(st, stack, base);
    } else if c == '*' {
      StarKeeps(st, stack, base);
    } else {
      CharKeeps(st, c, stack, base);
    }
  }

  /**
   * When the expression leaves exactly one NFA on the stack, the NFA
   * `generate_nfa` returns has exactly one accepting state among the states
   * it made, its own, and that state has no edges.
   */
  lemma {:induction false} GenOneAccepting(st: seq<PyState>, p: string, stack: seq<Nfa>, base: nat)
    requires Fragments(st, stack, base) && Height(|stack|, p) == Some(1)
    ensures GenFrom(st, p, stack).Some?
    ensures var b := GenFrom(st, p, stack).value;
              && (forall x :: base <= x < |b.store| ==> (b.store[x].accept <==> x == b.nfa.accepting))
              && Final(b.store[b.nfa.accepting])
    decreases |p|
  {
    GenSucceeds(st, p, stack);
    if p == [] {
      assert Acceptings(stack) == [stack[0].accepting];
    } else {
      var (g, rest) := Apply(st, p[0], stack).value;
      ApplyKeeps(st, p[0], stack, base);
      ApplyHeight(st, p[0], stack);
      GenOneAccepting(g.store, p[1..], rest + [g.nfa], base);
    }
  }

  /** For a well-formed expression, `generate_nfa` makes exactly one accepting state. */
  lemma GenerateOneAccepting(p: string)
    requires Height(0, p) == Some(1)
    ensures GenerateNfa(p).Some?
    ensures var b := GenerateNfa(p).value;
              && |b.store| == 2 * Symbols(p)
              && (forall x :: 0 <= x < |b.store| ==> (b.store[x].accept <==> x == b.nfa.accepting))
              && Final(b.store[b.nfa.accepting])
  {
    GenOneAccepting([], p, [], 0);
    GenSize([], p, []);
  }
}
