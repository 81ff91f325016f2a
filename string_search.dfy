/**
 * What the substring searches compute: the ascending list of positions at
 * which a pattern occurs in a text, and the bad-character shift that the
 * Boyer-Moore-Horspool searches use to skip positions.
 */
module StringSearch {
  import opened Wrappers

  /** `p` occurs in `t` starting at position `i`. */
  predicate MatchAt<T(==)>(t: seq<T>, p: seq<T>, i: int) {
    0 <= i && i + |p| <= |t| && t[i..i + |p|] == p
  }

  /** The positions below `n` at which `p` occurs in `t`, in increasing order. */
  function OccurrencesBelow<T(==)>(t: seq<T>, p: seq<T>, n: nat): (r: seq<nat>)
    ensures forall k :: 0 <= k < |r| ==> r[k] < n
  {
    if n == 0 then []
    else OccurrencesBelow(t, p, n - 1) + (if MatchAt(t, p, n - 1) then [n - 1] else [])
  }

  /** Every position at which `p` occurs in `t`, in increasing order. */
  function Occurrences<T(==)>(t: seq<T>, p: seq<T>): seq<nat> {
    OccurrencesBelow(t, p, |t| + 1)
  }

  predicate Increasing(s: seq<nat>) {
    forall i, j :: 0 <= i < j < |s| ==> s[i] < s[j]
  }

  /** The positions below `n` are listed in strictly increasing order. */
  lemma {:induction false} OccurrencesBelowIncreasing<T>(t: seq<T>, p: seq<T>, n: nat)
    ensures Increasing(OccurrencesBelow(t, p, n))
  {
    if n > 0 {
      OccurrencesBelowIncreasing(t, p, n - 1);
    }
  }

  /** A position is listed exactly when it is below `n` and `p` occurs there. */
  lemma {:induction false} OccurrencesBelowMembers<T>(t: seq<T>, p: seq<T>, n: nat, i: int)
    ensures i in OccurrencesBelow(t, p, n) <==> i < n && MatchAt(t, p, i)
  {
    if n > 0 {
      OccurrencesBelowMembers(t, p, n - 1, i);
    }
  }

  /** No position past `|t| - |p|` can hold an occurrence, so the list stops growing there. */
  lemma {:induction false} OccurrencesBelowSaturates<T>(t: seq<T>, p: seq<T>, n: nat)
    requires n + |p| > |t|
    ensures OccurrencesBelow(t, p, n) == Occurrences(t, p)
    decreases if n <= |t| + 1 then |t| + 1 - n else n - |t| - 1
  {
    if n < |t| + 1 {
      OccurrencesBelowSaturates(t, p, n + 1);
    } else if n > |t| + 1 {
      OccurrencesBelowSaturates(t, p, n - 1);
    }
  }

  /** The positions listed are exactly the occurrences, in increasing order. */
  lemma OccurrencesSpec<T>(t: seq<T>, p: seq<T>)
    ensures Increasing(Occurrences(t, p))
    ensures forall i :: i in Occurrences(t, p) <==> MatchAt(t, p, i)
  {
    OccurrencesBelowIncreasing(t, p, |t| + 1);
    forall i | true
      ensures i in Occurrences(t, p) <==> MatchAt(t, p, i)
    {
      OccurrencesBelowMembers(t, p, |t| + 1, i);
    }
  }

  /** A pattern longer than the text occurs nowhere. */
  lemma TooLong<T>(t: seq<T>, p: seq<T>)
    requires |p| > |t|
    ensures Occurrences(t, p) == []
  {
    OccurrencesBelowSaturates(t, p, 0);
  }

  /** Extending the range by positions that hold no occurrence adds nothing. */
  lemma {:induction false} NoneBetween<T>(t: seq<T>, p: seq<T>, m: nat, n: nat)
    requires m <= n
    requires forall i :: m <= i < n ==> !MatchAt(t, p, i)
    ensures OccurrencesBelow(t, p, n) == OccurrencesBelow(t, p, m)
  {
    if m < n {
      NoneBetween(t, p, m, n - 1);
    }
  }

  /** A differing character rules out an occurrence at `i`, so the list does not grow. */
  lemma Skip<T>(t: seq<T>, p: seq<T>, i: nat, j: nat)
    requires j < |p| && i + j < |t| && t[i + j] != p[j]
    ensures OccurrencesBelow(t, p, i + 1) == OccurrencesBelow(t, p, i)
  {
    if i + |p| <= |t| {
      assert t[i..i + |p|][j] == t[i + j];
    }
  }

  /** An occurrence at `i` is appended to the list. */
  lemma Hit<T>(t: seq<T>, p: seq<T>, i: nat)
    requires MatchAt(t, p, i)
    ensures OccurrencesBelow(t, p, i + 1) == OccurrencesBelow(t, p, i) + [i]
  {
  }

  const ExampleText: string := "abababdwerdfgbbcabcabaaabc"

  /** The characters of the example text, one by one. */
  predicate SpelledOut(t: string) {
    && |t| == 26
    && t[0] == 'a' && t[1] == 'b' && t[2] == 'a' && t[3] == 'b' && t[4] == 'a' && t[5] == 'b' && t[6] == 'd'
    && t[7] == 'w' && t[8] == 'e' && t[9] == 'r' && t[10] == 'd' && t[11] == 'f' && t[12] == 'g' && t[13] == 'b'
    && t[14] == 'b' && t[15] == 'c' && t[16] == 'a' && t[17] == 'b' && t[18] == 'c' && t[19] == 'a' && t[20] == 'b'
    && t[21] == 'a' && t[22] == 'a' && t[23] == 'a' && t[24] == 'b' && t[25] == 'c'
  }

  lemma SearchExample0To8(t: string)
    requires SpelledOut(t)
    ensures OccurrencesBelow(t, "abc", 8) == OccurrencesBelow(t, "abc", 0) + []
  {
    var p := "abc";
    Skip(t, p, 0, 2);
    Skip(t, p, 1, 0);
    Skip(t, p, 2, 2);
    Skip(t, p, 3, 0);
    Skip(t, p, 4, 2);
    Skip(t, p, 5, 0);
    Skip(t, p, 6, 0);
    Skip(t, p, 7, 0);
  }

  lemma SearchExample8To16(t: string)
    requires SpelledOut(t)
    ensures OccurrencesBelow(t, "abc", 16) == OccurrencesBelow(t, "abc", 8) + []
  {
    var p := "abc";
    Skip(t, p, 8, 0);
    Skip(t, p, 9, 0);
    Skip(t, p, 10, 0);
    Skip(t, p, 11, 0);
    Skip(t, p, 12, 0);
    Skip(t, p, 13, 0);
    Skip(t, p, 14, 0);
    Skip(t, p, 15, 0);
  }

  lemma SearchExample16To20(t: string)
    requires SpelledOut(t)
    ensures OccurrencesBelow(t, "abc", 20) == OccurrencesBelow(t, "abc", 16) + [16]
  {
    var p := "abc";
    assert t[16..19] == p;
    Hit(t, p, 16);
    Skip(t, p, 17, 0);
    Skip(t, p, 18, 0);
    Skip(t, p, 19, 2);
  }

  lemma SearchExample20To24(t: string)
    requires SpelledOut(t)
    ensures OccurrencesBelow(t, "abc", 24) == OccurrencesBelow(t, "abc", 20) + [23]
  {
    var p := "abc";
    assert t[23..26] == p;
    Skip(t, p, 20, 0);
    Skip(t, p, 21, 1);
    Skip(t, p, 22, 1);
    Hit(t, p, 23);
  }

  /** "abc" occurs in "abababdwerdfgbbcabcabaaabc" at 16 and 23 only. */
  lemma SearchExample()
    ensures Occurrences(ExampleText, "abc") == [16, 23]
  {
    assert SpelledOut(ExampleText);
    SearchExample0To8(ExampleText);
    SearchExample8To16(ExampleText);
    SearchExample16To20(ExampleText);
    SearchExample20To24(ExampleText);
    assert OccurrencesBelow(ExampleText, "abc", 0) == [];
    OccurrencesBelowSaturates(ExampleText, "abc", 24);
  }

  // The bad-character table of the Horspool searches.

  /** The last position below `n` at which `c` occurs in `p`. */
  function LastBelow<T(==)>(p: seq<T>, c: T, n: nat): (r: Option<nat>)
    requires n <= |p|
    ensures r.Some? ==> r.value < n && p[r.value] == c
    ensures r.Some? ==> forall k :: r.value < k < n ==> p[k] != c
    ensures r.None? ==> forall k :: 0 <= k < n ==> p[k] != c
  {
    if n == 0 then None
    else if p[n - 1] == c then Some(n - 1)
    else LastBelow(p, c, n - 1)
  }

  /**
   * The table entry for `c` once the first `n` pattern positions are
   * entered: `|p| - 1 - k` for the last such position `k` holding `c`, and
   * `|p|` when there is none.
   */
  function ShiftUpTo<T(==)>(p: seq<T>, c: T, n: nat): int
    requires n <= |p|
  {
    match LastBelow(p, c, n)
    case Some(k) => |p| - 1 - k
    case None => |p|
  }

  /** The finished table: every position but the last is entered. */
  function Shift<T(==)>(p: seq<T>, c: T): (r: int)
    requires |p| >= 1
    ensures 1 <= r <= |p|
    ensures r == |p| <==> forall k :: 0 <= k < |p| - 1 ==> p[k] != c
  {
    ShiftUpTo(p, c, |p| - 1)
  }

  /**
   * Entering position `n` sets the entry of `p[n]` and keeps the others:
   * the step the table-building loops take.
   */
  lemma ShiftStep<T>(p: seq<T>, c: T, n: nat)
    requires n < |p|
    ensures ShiftUpTo(p, c, n + 1) == if c == p[n] then |p| - 1 - n else ShiftUpTo(p, c, n)
  {
  }

  /**
   * The shift never jumps over an occurrence: if the text character under
   * the pattern's last position at `s` is `c`, no position strictly between
   * `s` and `s + Shift(p, c)` holds an occurrence.
   */
  lemma ShiftIsSafe<T>(t: seq<T>, p: seq<T>, s: nat)
    requires |p| >= 1 && s + |p| <= |t|
    ensures forall i :: s < i < s + Shift(p, t[s + |p| - 1]) ==> !MatchAt(t, p, i)
  {
    var c := t[s + |p| - 1];
    forall i | s < i < s + Shift(p, c)
      ensures !MatchAt(t, p, i)
    {
      if i + |p| <= |t| {
        var k := s + |p| - 1 - i;
        assert 0 <= k < |p| - 1;
        assert p[k] != c by {
          match LastBelow(p, c, |p| - 1)
          case None =>
          case Some(last) => assert last < k;
        }
        assert t[i..i + |p|][k] == c;
      }
    }
  }

  /** One Horspool step: after examining `s`, the next `Shift` positions add at most `s`. */
  lemma SkipStep<T>(t: seq<T>, p: seq<T>, s: nat)
    requires |p| >= 1 && s + |p| <= |t|
    ensures OccurrencesBelow(t, p, s + Shift(p, t[s + |p| - 1])) == OccurrencesBelow(t, p, s + 1)
  {
    ShiftIsSafe(t, p, s);
    NoneBetween(t, p, s + 1, s + Shift(p, t[s + |p| - 1]));
  }
}
