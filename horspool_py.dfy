/**
 * The Boyer-Moore-Horspool search of the science-fair project (Python):
 * a bad-character table keyed by the printable characters, and a search
 * that compares the pattern at `skip` and then advances `skip` by the
 * table entry of the text character under the pattern's last position.
 */
module HorspoolPy {
  import opened StringSearch
  import opened SimpleSearch

  /**
   * Python's `string.printable`: the 100 characters from space to tilde
   * (digits, letters, punctuation and the space) and the five whitespace
   * characters tab, line feed, vertical tab, form feed and carriage return.
   */
  predicate Printable(c: char) {
    '\t' <= c <= '\r' || ' ' <= c <= '~'
  }

  /** The keys of the table: the alphabet and every pattern character but the last. */
  predicate InTable(p: string, c: char) {
    Printable(c) || (|p| >= 1 && c in p[..|p| - 1])
  }

  /** The number of pattern positions the table enters: all but the last. */
  function Entered(p: string): nat {
    if |p| == 0 then 0 else |p| - 1
  }

  /**
   * The bad-character table: `|p|` for every character of the alphabet,
   * overwritten by `|p| - 1 - i` for each position `i` but the last, so that
   * the last such position of a character wins.
   */
  method Preprocess(p: string) returns (table: map<char, int>)
    ensures forall c :: c in table <==> InTable(p, c)
    ensures forall c :: c in table ==> table[c] == ShiftUpTo(p, c, Entered(p))
    ensures |p| >= 1 ==> forall c :: c in table ==> table[c] == Shift(p, c) && 1 <= table[c] <= |p|
    ensures |p| >= 1 ==> table == BadChars(p)
  {
    table := map c: char | Printable(c) :: |p|;
    var i := 0;
    while i < |p| - 1
      invariant 0 <= i <= Entered(p)
      invariant forall c :: c in table <==> Printable(c) || c in p[..i]
      invariant forall c :: c in table ==> table[c] == ShiftUpTo(p, c, i)
    {
      TableStep(p, table, i);
      table := table[p[i] := |p| - 1 - i];
      i := i + 1;
    }
    if |p| >= 1 {
      IsBadChars(p, table);
    }
  }

  /** A table with the keys and the entries of the finished table is that table. */
  lemma IsBadChars(p: string, table: map<char, int>)
    requires |p| >= 1
    requires forall c :: c in table <==> InTable(p, c)
    requires forall c :: c in table ==> table[c] == ShiftUpTo(p, c, |p| - 1)
    ensures table == BadChars(p)
  {
    BadCharsEntries(p);
    assert table.Keys == BadChars(p).Keys;
  }

  /** Entering position `i` keeps the table the bad-character table of the first `i + 1` positions. */
  lemma TableStep(p: string, table: map<char, int>, i: nat)
    requires i < |p| - 1
    requires forall c :: c in table <==> Printable(c) || c in p[..i]
    requires forall c :: c in table ==> table[c] == ShiftUpTo(p, c, i)
    ensures var table' := table[p[i] := |p| - 1 - i];
            && (forall c :: c in table' <==> Printable(c) || c in p[..i + 1])
            && (forall c :: c in table' ==> table'[c] == ShiftUpTo(p, c, i + 1))
  {
    forall c | c in table ensures ShiftUpTo(p, c, i + 1) == if c == p[i] then |p| - 1 - i else ShiftUpTo(p, c, i) {
      ShiftStep(p, c, i);
    }
    ShiftStep(p, p[i], i);
    assert p[..i + 1] == p[..i] + [p[i]];
  }

  /** At `s` the text character under the pattern's last position has no table entry. */
  predicate KeyMissing(p: string, t: string, s: nat) {
    |p| >= 1 && s + |p| <= |t| && !InTable(p, t[s + |p| - 1])
  }

  /** A text made of printable characters never misses the table. */
  lemma PrintableText(p: string, t: string, s: nat)
    requires forall k :: 0 <= k < |t| ==> Printable(t[k])
    ensures !KeyMissing(p, t, s)
  {
    if |p| >= 1 && s + |p| <= |t| {
      assert Printable(t[s + |p| - 1]);
    }
  }

  /** The finished table of a nonempty pattern: the bad-character shift of every key. */
  function BadChars(p: string): (table: map<char, int>)
    requires |p| >= 1
    ensures Positive(table)
  {
    map c: char | Printable(c) || c in p[..|p| - 1] :: Shift(p, c)
  }

  /** The finished table has an entry for exactly the characters `InTable` names, each its bad-character shift. */
  lemma BadCharsEntries(p: string)
    requires |p| >= 1
    ensures forall c :: c in BadChars(p) <==> InTable(p, c)
    ensures forall c :: c in BadChars(p) ==> BadChars(p)[c] == Shift(p, c)
  {
  }

  /** Every entry of the table moves `skip` forward. */
  predicate Positive(table: map<char, int>) {
    forall c :: c in table ==> table[c] >= 1
  }

  /** What one comparison at `s` yields: `s` itself if the pattern sits there, nothing otherwise. */
  function Hit(t: string, p: string, s: nat): seq<nat> {
    if MatchAt(t, p, s) then [s] else []
  }

  /** `xs` yielded ahead of whatever the rest of the generator produces. */
  function Prepend(xs: seq<nat>, r: SearchResult): (r': SearchResult)
    ensures r'.Yielded? == r.Yielded?
  {
    match r
    case Yielded(ys) => Yielded(xs + ys)
    case Raised(e, ys) => Raised(e, xs + ys)
  }

  /**
   * What the generator produces from `skip` on with the table `table`:
   * `skip` if the pattern sits there, then either the `KeyError` of a
   * character missing from the table, or the rest of the run from `skip`
   * advanced by that character's entry.
   */
  function Run(p: string, t: string, table: map<char, int>, skip: nat): SearchResult
    requires |p| >= 1 && Positive(table)
    decreases |t| - skip
  {
    if |t| - skip < |p| then Yielded([])
    else
      var here := Hit(t, p, skip);
      var c := t[skip + |p| - 1];
      if c !in table then Raised(KeyError, here)
      else Prepend(here, Run(p, t, table, skip + table[c]))
  }

  lemma PrependTwice(xs: seq<nat>, ys: seq<nat>, r: SearchResult)
    ensures Prepend(xs, Prepend(ys, r)) == Prepend(xs + ys, r)
  {
    match r
    case Yielded(zs) => assert xs + (ys + zs) == (xs + ys) + zs;
    case Raised(e, zs) => assert xs + (ys + zs) == (xs + ys) + zs;
  }

  /**
   * One turn of the run at `s`, behind the positions `found` already
   * yielded: `found'` adds `s` if the pattern sits there, and the run
   * raises there or goes on from `s` advanced by the table entry.
   */
  lemma RunTurn(p: string, t: string, table: map<char, int>, s: nat, found: seq<nat>, found': seq<nat>, n: nat)
    requires |p| >= 1 && Positive(table) && s + |p| <= |t|
    requires found' == found + Hit(t, p, s)
    ensures t[s + |p| - 1] !in table ==> Prepend(found, Run(p, t, table, s)) == Raised(KeyError, found')
    ensures t[s + |p| - 1] in table && n == s + table[t[s + |p| - 1]] ==>
              Prepend(found, Run(p, t, table, s)) == Prepend(found', Run(p, t, table, n))
  {
    var c := t[s + |p| - 1];
    if c in table && n == s + table[c] {
      RunSteps(p, t, table, s, n);
      PrependTwice(found, Hit(t, p, s), Run(p, t, table, n));
    }
  }

  /**
   * Where the run from `skip` stops: at the first position whose character
   * is missing from the table, or at the first one too close to the end.
   */
  function Stop(p: string, t: string, table: map<char, int>, skip: nat): (n: nat)
    requires |p| >= 1 && Positive(table)
    ensures skip <= n
    decreases |t| - skip
  {
    if |t| - skip < |p| || t[skip + |p| - 1] !in table then skip
    else Stop(p, t, table, skip + table[t[skip + |p| - 1]])
  }

  /**
   * What `r` has to produce from `s` on: when it ends, the occurrences from
   * `s` on; when it raises, `KeyError` at `stop`, whose character is
   * missing, after the occurrences from `s` up to and including `stop`.
   */
  ghost predicate Completes(p: string, t: string, s: nat, r: SearchResult, stop: nat) {
    && (r.Yielded? ==> OccurrencesBelow(t, p, s) + r.indices == Occurrences(t, p))
    && (r.Raised? ==>
          && r.error == KeyError
          && KeyMissing(p, t, stop)
          && OccurrencesBelow(t, p, s) + r.yielded == OccurrencesBelow(t, p, stop + 1))
  }

  /**
   * From any `s`, the run with the bad-character table yields the occurrences
   * from `s` on when it ends; when it raises, it raises `KeyError` at
   * `Stop`, whose character is missing, having yielded the occurrences
   * from `s` up to and including that position.
   */
  lemma {:induction false} RunFrom(p: string, t: string, table: map<char, int>, s: nat)
    requires |p| >= 1 && table == BadChars(p)
    ensures Completes(p, t, s, Run(p, t, table, s), Stop(p, t, table, s))
    decreases |t| - s
  {
    if |t| - s >= |p| && t[s + |p| - 1] in table {
      var n := s + table[t[s + |p| - 1]];
      RunFrom(p, t, table, n);
      RunFromStep(p, t, table, s, n);
    } else {
      RunFromLast(p, t, table, s);
    }
  }

  /** Where the run ends or raises at once, it completes from there. */
  lemma RunFromLast(p: string, t: string, table: map<char, int>, s: nat)
    requires |p| >= 1 && table == BadChars(p)
    requires |t| - s < |p| || t[s + |p| - 1] !in table
    ensures Completes(p, t, s, Run(p, t, table, s), Stop(p, t, table, s))
  {
    if |t| - s < |p| {
      OccurrencesBelowSaturates(t, p, s);
      assert OccurrencesBelow(t, p, s) + [] == OccurrencesBelow(t, p, s);
    } else {
      TableSkip(p, t, table, s);
      BelowNext(t, p, s);
    }
  }

  /** A run that completes from the shifted position completes from `s`. */
  lemma RunFromStep(p: string, t: string, table: map<char, int>, s: nat, n: nat)
    requires |p| >= 1 && table == BadChars(p)
    requires s + |p| <= |t| && t[s + |p| - 1] in table && n == s + table[t[s + |p| - 1]]
    requires Completes(p, t, n, Run(p, t, table, n), Stop(p, t, table, n))
    ensures Completes(p, t, s, Run(p, t, table, s), Stop(p, t, table, s))
  {
    ShiftBelow(p, t, table, s, n);
    RunSteps(p, t, table, s, n);
    CompletesPrepend(p, t, s, n, Run(p, t, table, n), Stop(p, t, table, n), Run(p, t, table, s), Stop(p, t, table, s));
  }

  /**
   * At `s`, a character with an entry in the bad-character table moves
   * `skip` forward, not past the end of the text and past no occurrence;
   * a character without one is the missing key.
   */
  lemma TableSkip(p: string, t: string, table: map<char, int>, s: nat)
    requires |p| >= 1 && s + |p| <= |t| && table == BadChars(p)
    ensures t[s + |p| - 1] !in table <==> KeyMissing(p, t, s)
    ensures t[s + |p| - 1] in table ==>
              var n := s + table[t[s + |p| - 1]];
              s < n <= |t| && OccurrencesBelow(t, p, n) == OccurrencesBelow(t, p, s + 1)
  {
    BadCharsEntries(p);
    SkipStep(t, p, s);
  }

  /** With an entry for the character at `s`, the skip to `n` adds what the comparison at `s` finds. */
  lemma ShiftBelow(p: string, t: string, table: map<char, int>, s: nat, n: nat)
    requires |p| >= 1 && table == BadChars(p)
    requires s + |p| <= |t| && t[s + |p| - 1] in table && n == s + table[t[s + |p| - 1]]
    ensures OccurrencesBelow(t, p, n) == OccurrencesBelow(t, p, s) + Hit(t, p, s)
  {
    TableSkip(p, t, table, s);
    BelowNext(t, p, s);
  }

  /** The positions below `s + 1` are those below `s` and what the comparison at `s` finds. */
  lemma BelowNext(t: string, p: string, s: nat)
    ensures OccurrencesBelow(t, p, s + 1) == OccurrencesBelow(t, p, s) + Hit(t, p, s)
  {
  }

  /** With an entry for the character at `s`, the run and its stop go on as from the shifted position. */
  lemma RunSteps(p: string, t: string, table: map<char, int>, s: nat, n: nat)
    requires |p| >= 1 && Positive(table) && s + |p| <= |t| && t[s + |p| - 1] in table
    requires n == s + table[t[s + |p| - 1]]
    ensures Run(p, t, table, s) == Prepend(Hit(t, p, s), Run(p, t, table, n))
    ensures Stop(p, t, table, s) == Stop(p, t, table, n)
  {
  }

  /** The comparison of the first `|p|` characters from `s` finds exactly what `Hit` yields. */
  lemma Compared(t: string, p: string, s: nat, same: bool)
    requires |p| >= 1 && s + |p| <= |t|
    requires same <==> t[s..][..|p|] == p[..|p|]
    ensures (if same then [s] else []) == Hit(t, p, s)
  {
    assert t[s..][..|p|] == t[s..s + |p|];
    assert p[..|p|] == p;
  }

  /**
   * Yielding what the comparison at `s` finds ahead of a run `r` that
   * completes from `n` gives a run `r'` that completes from `s`.
   */
  lemma CompletesPrepend(p: string, t: string, s: nat, n: nat, r: SearchResult, stop: nat, r': SearchResult, stop': nat)
    requires Completes(p, t, n, r, stop)
    requires OccurrencesBelow(t, p, n) == OccurrencesBelow(t, p, s) + Hit(t, p, s)
    requires r' == Prepend(Hit(t, p, s), r) && stop' == stop
    ensures Completes(p, t, s, r', stop')
  {
    Regroup(OccurrencesBelow(t, p, s), Hit(t, p, s), OccurrencesBelow(t, p, n), r,
            Occurrences(t, p), OccurrencesBelow(t, p, stop + 1));
  }

  /**
   * Yielding `here` ahead of a run `r` that completes `mid` to `all` when
   * it ends, or to `upto` when it raises, completes `below` the same way,
   * where `mid` is `below` followed by `here`.
   */
  lemma Regroup(below: seq<nat>, here: seq<nat>, mid: seq<nat>, r: SearchResult, all: seq<nat>, upto: seq<nat>)
    requires mid == below + here
    requires r.Yielded? ==> mid + r.indices == all
    requires r.Raised? ==> mid + r.yielded == upto
    ensures Prepend(here, r).Yielded? ==> below + Prepend(here, r).indices == all
    ensures Prepend(here, r).Raised? ==> below + Prepend(here, r).yielded == upto
  {
    var ys := if r.Yielded? then r.indices else r.yielded;
    assert below + (here + ys) == (below + here) + ys;
  }

  /** On a text of printable characters the run with the finished table never raises. */
  lemma {:induction false} RunPrintable(p: string, t: string, table: map<char, int>, s: nat)
    requires |p| >= 1 && Positive(table)
    requires forall c :: Printable(c) ==> c in table
    requires forall k :: 0 <= k < |t| ==> Printable(t[k])
    ensures Run(p, t, table, s).Yielded?
    decreases |t| - s
  {
    if |t| - s >= |p| {
      assert Printable(t[s + |p| - 1]);
      RunPrintable(p, t, table, s + table[t[s + |p| - 1]]);
    }
  }

  /**
   * Every position at which `p` occurs in `t`, in increasing order, unless
   * the search raises. An empty pattern raises at the first comparison. A
   * lookup of a character outside the table raises `KeyError`, after the
   * positions up to that point have been yielded.
   */
  method Search(p: string, t: string) returns (r: SearchResult)
    ensures |p| == 0 <==> r == Raised(IndexError, [])
    ensures |p| >= 1 ==> r == Run(p, t, BadChars(p), 0)
    ensures r.Yielded? ==> r.indices == Occurrences(t, p)
    ensures r.Raised? && r.error == KeyError ==>
              exists s: nat :: KeyMissing(p, t, s) && r.yielded == OccurrencesBelow(t, p, s + 1)
  {
    var table := Preprocess(p);
    if |p| == 0 {
      return Raised(IndexError, []);
    }
    r := Scan(p, t, table);
  }

  /** The search loop proper, given the finished table of a nonempty pattern. */
  method Scan(p: string, t: string, table: map<char, int>) returns (r: SearchResult)
    requires |p| >= 1 && table == BadChars(p)
    ensures r == Run(p, t, table, 0)
    ensures r.Yielded? ==> r.indices == Occurrences(t, p)
    ensures r.Raised? ==> r.error == KeyError
    ensures r.Raised? ==>
              exists s: nat :: KeyMissing(p, t, s) && r.yielded == OccurrencesBelow(t, p, s + 1)
  {
    var skip := 0;
    var found: seq<nat> := [];
    while |t| - skip >= |p|
      invariant 0 <= skip <= |t|
      invariant found == OccurrencesBelow(t, p, skip)
      invariant Prepend(found, Run(p, t, table, skip)) == Run(p, t, table, 0)
      decreases |t| - skip
    {
      var found', missing, next := ScanAt(p, t, table, skip, found);
      RunTurn(p, t, table, skip, found, found', next);
      if missing {
        r := Raised(KeyError, found');
        RunFrom(p, t, table, 0);
        assert KeyMissing(p, t, Stop(p, t, table, 0));
        return;
      }
      skip := next;
      found := found';
    }
    assert found + [] == found;
    r := Yielded(found);
    RunFrom(p, t, table, 0);
  }

  /**
   * One turn of the loop at `skip`: the comparison, then the shift by the
   * table entry of the text character under the pattern's last position,
   * or the missing key that raises.
   */
  method ScanAt(p: string, t: string, table: map<char, int>, skip: nat, found: seq<nat>)
    returns (found': seq<nat>, missing: bool, next: nat)
    requires |p| >= 1 && skip + |p| <= |t| && found == OccurrencesBelow(t, p, skip)
    requires table == BadChars(p)
    ensures found' == found + Hit(t, p, skip)
    ensures found' == OccurrencesBelow(t, p, skip + 1)
    ensures missing <==> t[skip + |p| - 1] !in table
    ensures missing <==> KeyMissing(p, t, skip)
    ensures !missing ==> next == skip + table[t[skip + |p| - 1]]
    ensures !missing ==> skip < next <= |t| && found' == OccurrencesBelow(t, p, next)
  {
    var same := Same(t[skip..], p, |p|);
    Compared(t, p, skip, same);
    BelowNext(t, p, skip);
    found' := found + if same then [skip] else [];
    TableSkip(p, t, table, skip);
    var c := t[skip + |p| - 1];
    missing := c !in table;
    next := skip;
    if !missing {
      next := skip + table[c];
    }
  }
}
