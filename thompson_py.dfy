/**
 * The Python matcher as the program runs it: one heap of `State` objects
 * whose fields the constructions and the matching loop update in place.
 * Each method is proved to compute the function of `ThompsonPySpec` or
 * `ThompsonPyGen` that states what it does to the whole heap.
 */
module ThompsonPy {
  import opened Wrappers
  import opened ThompsonPySpec
  import opened ThompsonPyGen

  /** A line with at least one match: its 1-based number and the matches `match` returned for it. */
  datatype Hit = Hit(line: nat, spans: seq<Span>)

  class StateHeap {
    /** Every `State` object created so far, addressed by index. */
    var states: seq<PyState>

    ghost predicate Valid()
      reads this
    {
      Closed(states)
    }

    constructor()
      ensures Valid() && states == []
    {
      states := [];
    }

    /** `State(accept)`: a new object, not on any list, with start 0 and no edges. */
    method Allocate(accept: bool) returns (x: nat)
      requires Valid()
      modifies this
      ensures Valid() && states == old(states) + [ThompsonPySpec.NewState(accept)] && x == |old(states)|
    {
      states := states + [ThompsonPySpec.NewState(accept)];
      x := |states| - 1;
    }

    method GenerateChar(c: char) returns (nfa: Nfa)
      requires Valid()
      modifies this
      ensures Valid() && Built(states, nfa) == CharNfa(old(states), c)
    {
      var initial := Allocate(false);
      var accepting := Allocate(true);
      states := states[initial := states[initial].(outa := Some(Edge(c, accepting)))];
      nfa := Nfa(initial, accepting);
    }

    method GenerateSplit(a: Nfa, b: Nfa) returns (nfa: Nfa)
      requires Valid() && NfaIn(states, a) && NfaIn(states, b)
      modifies this
      ensures Valid() && Built(states, nfa) == SplitNfa(old(states), a, b)
    {
      var initial := Allocate(false);
      var accepting := Allocate(true);
      states := states[initial := states[initial].(outa := Some(Edge(Epsilon, a.initial)))];
      states := states[initial := states[initial].(outb := Some(Edge(Epsilon, b.initial)))];
      assert states == old(states) + [PyState(false, 0, 0, Some(Edge(Epsilon, a.initial)), Some(Edge(Epsilon, b.initial))),
                                      ThompsonPySpec.NewState(true)];
      states := states[a.accepting := states[a.accepting].(outa := Some(Edge(Epsilon, accepting)))];
      states := states[b.accepting := states[b.accepting].(outa := Some(Edge(Epsilon, accepting)))];
      states := states[a.accepting := states[a.accepting].(accept := false)];
      states := states[b.accepting := states[b.accepting].(accept := false)];
      nfa := Nfa(initial, accepting);
    }

    method GenerateConcat(a: Nfa, b: Nfa) returns (nfa: Nfa)
      requires Valid() && NfaIn(states, a) && NfaIn(states, b)
      modifies this
      ensures Valid() && Built(states, nfa) == ConcatNfa(old(states), a, b)
    {
      states := states[a.accepting := states[a.accepting].(outa := Some(Edge(Epsilon, b.initial)))];
      states := states[a.accepting := states[a.accepting].(accept := false)];
      nfa := Nfa(a.initial, b.accepting);
    }

    method GenerateStar(a: Nfa) returns (nfa: Nfa)
      requires Valid() && NfaIn(states, a)
      modifies this
      ensures Valid() && Built(states, nfa) == StarNfa(old(states), a)
    {
      var initial := Allocate(false);
      var accepting := Allocate(true);
      states := states[initial := states[initial].(outa := Some(Edge(Epsilon, a.initial)))];
      states := states[initial := states[initial].(outb := Some(Edge(Epsilon, accepting)))];
      assert states == old(states) + [PyState(false, 0, 0, Some(Edge(Epsilon, a.initial)), Some(Edge(Epsilon, accepting))),
                                      ThompsonPySpec.NewState(true)];
      states := states[a.accepting := states[a.accepting].(outa := Some(Edge(Epsilon, a.initial)))];
      states := states[a.accepting := states[a.accepting].(outb := Some(Edge(Epsilon, accepting)))];
      states := states[a.accepting := states[a.accepting].(accept := false)];
      nfa := Nfa(initial, accepting);
    }

    /**
     * `generate_nfa`: one stack of NFAs over the postfix expression; `None`
     * where a pop finds the stack empty and Python raises `IndexError`.
     */
    method GenerateNfa(regexp: string) returns (r: Option<Nfa>)
      requires Valid()
      modifies this
      ensures Valid()
      ensures r.Some? <==> GenFrom(old(states), regexp, []).Some?
      ensures r.Some? ==> Built(states, r.value) == GenFrom(old(states), regexp, []).value
      ensures r.Some? && MarksBelow(old(states), 1) ==> MarksBelow(states, 1)
    {
      var stack: seq<Nfa> := [];
      for i := 0 to |regexp|
        invariant Valid() && StackIn(states, stack)
        invariant GenFrom(states, regexp[i..], stack) == GenFrom(old(states), regexp, [])
      {
        assert regexp[i..][1..] == regexp[i + 1..];
        var ok, next := Push(regexp[i], stack);
        if !ok {
          return None;
        }
        stack := next;
      }
      if stack == [] {
        return None;
      }
      return Some(stack[|stack| - 1]);
    }

    /** One character of the loop: the pops, the new fragment and its push, or the pop of an empty stack. */
    method Push(c: char, stack: seq<Nfa>) returns (ok: bool, stack': seq<Nfa>)
      requires Valid() && StackIn(states, stack)
      modifies this
      ensures Valid()
      ensures ok <==> Apply(old(states), c, stack).Some?
      ensures ok ==> StackIn(states, stack')
      ensures ok ==> states == Apply(old(states), c, stack).value.0.store
      ensures ok ==> stack' == Apply(old(states), c, stack).value.1 + [Apply(old(states), c, stack).value.0.nfa]
      ensures !ok ==> states == old(states)
    {
      ghost var before := states;
      stack' := stack;
      ok := Apply(states, c, stack).Some?;
      if !ok {
        return;
      }
      if c == '|' || c == '.' {
        var b := stack[|stack| - 1];
        var a := stack[|stack| - 2];
        stack' := stack[..|stack| - 2];
        var n;
        if c == '|' {
          n := GenerateSplit(a, b);
        } else {
          n := GenerateConcat(a, b);
        }
        stack' := stack' + [n];
      } else if c == '*' {
        var a := stack[|stack| - 1];
        stack' := stack[..|stack| - 1];
        var n := GenerateStar(a);
        stack' := stack' + [n];
      } else {
        var n := GenerateChar(c);
        stack' := stack' + [n];
      }
      assert |before| <= |states|;
    }

    /** `add`: marks `x` and what its `ε`-edges lead to as on list `id`, appending each to `l`. */
    method Add(l: seq<nat>, x: nat, start: int, id: int) returns (l': seq<nat>)
      requires Valid() && x < |states|
      modifies this
      ensures Valid() && Lists(states, l') == ThompsonPySpec.Add(old(states), l, x, start, id)
      decreases Unmarked(states, id), 0
    {
      if states[x].lastList == id {
        return l;
      }
      states := Mark(states, x, id, start);
      l' := l + [x];
      l' := AddIfLabelMatch(l', states[x].outa, Epsilon, start, id);
      l' := AddIfLabelMatch(l', states[x].outb, Epsilon, start, id);
    }

    /** `add_if_label_match`: adds the target of `out` when `out` reads `c`. */
    method AddIfLabelMatch(l: seq<nat>, out: Option<Edge>, c: char, start: int, id: int) returns (l': seq<nat>)
      requires Valid() && EdgeBelow(out, |states|)
      modifies this
      ensures Valid() && Lists(states, l') == ThompsonPySpec.AddIfLabelMatch(old(states), l, out, c, start, id)
      decreases Unmarked(states, id), 1
    {
      if out.Some? && out.value.letter == c {
        l' := Add(l, out.value.target, start, id);
      } else {
        l' := l;
      }
    }

    /** `step`: follows, from each state of `l` in turn, the edges reading `c` into `newStates`. */
    method Step(c: char, l: seq<nat>, newStates: seq<nat>, id: int) returns (newStates': seq<nat>)
      requires Valid() && InHeap(states, l)
      modifies this
      ensures Valid() && Lists(states, newStates') == ThompsonPySpec.Step(old(states), c, l, newStates, id)
    {
      newStates' := newStates;
      for k := 0 to |l|
        invariant Valid() && |states| == |old(states)|
        invariant ThompsonPySpec.Step(states, c, l[k..], newStates', id) == ThompsonPySpec.Step(old(states), c, l, newStates, id)
      {
        assert l[k..][1..] == l[k + 1..];
        var x := l[k];
        newStates' := AddIfLabelMatch(newStates', states[x].outa, c, states[x].start, id);
        newStates' := AddIfLabelMatch(newStates', states[x].outb, c, states[x].start, id);
      }
    }

    /**
     * `match` with its list id starting from `listId` rather than from 0:
     * the pairs it returns and the last list id it used.
     */
    method MatchFrom(s: string, nfa: Nfa, charSet: set<char>, listId: int) returns (matches: seq<Span>, lastId: int)
      requires Valid() && NfaIn(states, nfa)
      modifies this
      ensures Valid() && Run(states, matches, lastId) == MatchContinuing(old(states), s, nfa, charSet, listId)
    {
      var id := listId;
      var current: seq<nat> := [];
      matches := [];
      for i := 0 to |s|
        invariant Valid() && NfaIn(states, nfa) && InHeap(states, current)
        invariant MatchLoop(states, s, nfa, charSet, i, id, current, matches)
                  == MatchContinuing(old(states), s, nfa, charSet, listId)
      {
        id := id + 1;
        if s[i] !in charSet {
          current := [];
        } else {
          states := states[nfa.initial := states[nfa.initial].(start := i)];
          current := Add(current, nfa.initial, i, id);
          current := Step(s[i], current, [], id);
          if nfa.accepting in current {
            matches := matches + [Span(states[nfa.accepting].start, i + 1)];
            current := [];
          }
        }
      }
      lastId := id;
    }

    /** `match` as written: the list id starts at 0 on every call. */
    method Match(s: string, nfa: Nfa, charSet: set<char>) returns (matches: seq<Span>)
      requires Valid() && NfaIn(states, nfa)
      modifies this
      ensures Valid()
      ensures var r := ThompsonPySpec.Match(old(states), s, nfa, charSet); states == r.store && matches == r.matches
    {
      var lastId;
      matches, lastId := MatchFrom(s, nfa, charSet, 0);
    }

    /**
     * `match(line, nfa, char_set)` for one input line: ordered pairs within
     * the line, none at all when the expression is nullable in the heap
     * `origin` this one has the shape of, and the marks still fresh.
     */
    method MatchLine(line: string, nfa: Nfa, charSet: set<char>, listId: int, ghost origin: seq<PyState>)
      returns (matches: seq<Span>, lastId: int)
      requires Valid() && NfaIn(states, nfa) && MarksBelow(states, listId + 1) && SameShape(origin, states)
      modifies this
      ensures Valid() && NfaIn(states, nfa) && MarksBelow(states, lastId + 1) && SameShape(origin, states)
      ensures SpansOk(matches, |line|)
      ensures forall p :: AcceptsEmpty(origin, nfa, p) ==> matches == []
    {
      MatchSpans(states, line, nfa, charSet, listId);
      ContinuingStaysFresh(states, line, nfa, charSet, listId);
      forall p | AcceptsEmpty(origin, nfa, p)
        ensures MatchContinuing(states, line, nfa, charSet, listId).matches == []
      {
        assert AcceptsEmpty(states, nfa, p);
        NullableNeverMatches(states, line, nfa, charSet, listId, p);
      }
      matches, lastId := MatchFrom(line, nfa, charSet, listId);
    }

    /**
     * The loop over the input lines, with the list id carried from one line
     * to the next: the numbered lines with a match, in order, each with its
     * ordered, non-overlapping matches. An expression whose accepting state
     * is `ε`-reachable from its initial state reports no line at all.
     */
    method MatchLines(lines: seq<string>, nfa: Nfa, charSet: set<char>, listId: int) returns (hits: seq<Hit>, lastId: int)
      requires Valid() && NfaIn(states, nfa) && MarksBelow(states, listId + 1)
      modifies this
      ensures Valid() && MarksBelow(states, lastId + 1) && SameShape(old(states), states)
      ensures forall k :: 0 <= k < |hits| ==>
                && 1 <= hits[k].line <= |lines| && hits[k].spans != []
                && SpansOk(hits[k].spans, |lines[hits[k].line - 1]|)
      ensures forall k :: 0 < k < |hits| ==> hits[k - 1].line < hits[k].line
      ensures forall p :: AcceptsEmpty(old(states), nfa, p) ==> hits == []
    {
      hits := [];
      lastId := listId;
      for n := 0 to |lines|
        invariant Valid() && NfaIn(states, nfa) && MarksBelow(states, lastId + 1) && SameShape(old(states), states)
        invariant Reported(hits, lines, n)
        invariant forall p :: AcceptsEmpty(old(states), nfa, p) ==> hits == []
      {
        var matches;
        matches, lastId := MatchLine(lines[n], nfa, charSet, lastId, old(states));
        ReportedNext(hits, lines, n, matches);
        if matches != [] {
          hits := hits + [Hit(n + 1, matches)];
        }
      }
    }
  }

  /** The hits are numbered lines among the first `n`, in increasing order, each with ordered pairs. */
  ghost predicate Reported(hits: seq<Hit>, lines: seq<string>, n: nat) {
    && n <= |lines|
    && (forall k :: 0 <= k < |hits| ==>
          && 1 <= hits[k].line <= n && hits[k].spans != []
          && SpansOk(hits[k].spans, |lines[hits[k].line - 1]|))
    && (forall k :: 0 < k < |hits| ==> hits[k - 1].line < hits[k].line)
  }

  /** One more line keeps the report in order, whether or not it matched. */
  lemma ReportedNext(hits: seq<Hit>, lines: seq<string>, n: nat, matches: seq<Span>)
    requires Reported(hits, lines, n) && n < |lines| && SpansOk(matches, |lines[n]|)
    ensures Reported(hits, lines, n + 1)
    ensures matches != [] ==> Reported(hits + [Hit(n + 1, matches)], lines, n + 1)
  {
    if matches != [] {
      var hits' := hits + [Hit(n + 1, matches)];
      forall k | 0 <= k < |hits'|
        ensures 1 <= hits'[k].line <= n + 1 && hits'[k].spans != []
        ensures SpansOk(hits'[k].spans, |lines[hits'[k].line - 1]|)
      {
        if k < |hits| {
          assert hits'[k] == hits[k];
        }
      }
    }
  }

  /**
   * The program: builds the NFA of `regexp` in a fresh heap, or fails where
   * `generate_nfa` raises `IndexError`, and matches every line with the
   * alphabet of `regexp`.
   */
  method Grep(regexp: string, lines: seq<string>) returns (r: Option<seq<Hit>>)
    ensures r.Some? <==> Height(0, regexp).Some? && Height(0, regexp).value >= 1
    ensures r.Some? ==>
              && (forall k :: 0 <= k < |r.value| ==>
                    && 1 <= r.value[k].line <= |lines| && r.value[k].spans != []
                    && SpansOk(r.value[k].spans, |lines[r.value[k].line - 1]|))
              && (forall k :: 0 < k < |r.value| ==> r.value[k - 1].line < r.value[k].line)
  {
    var heap := new StateHeap();
    GenSucceeds([], regexp, []);
    var nfa := heap.GenerateNfa(regexp);
    if nfa.None? {
      return None;
    }
    var hits, lastId := heap.MatchLines(lines, nfa.value, CharSet(regexp), 0);
    return Some(hits);
  }
}
