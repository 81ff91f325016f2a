/**
 * The Boyer-Moore-Horspool and naive searches of the science-fair project
 * (C): both count the occurrences of a byte pattern in a byte string. The
 * bad-character table is a 256-entry array indexed by the byte value.
 */
module HorspoolC {
  import opened StringSearch

  const AlphabetLen: int := 256

  /** A byte as the table lookups see it, after the cast to `uint8_t`. */
  type Byte = b: int | 0 <= b < AlphabetLen

  /** `memcmp` over the first `l` bytes finds no difference. */
  predicate Same(a: seq<Byte>, b: seq<Byte>, l: nat)
    requires l <= |a| && l <= |b|
  {
    a[..l] == b[..l]
  }

  /** Two prefixes agree exactly when they agree byte by byte. */
  lemma SameBytewise(a: seq<Byte>, b: seq<Byte>, l: nat)
    requires l <= |a| && l <= |b|
    ensures Same(a, b, l) <==> forall k :: 0 <= k < l ==> a[k] == b[k]
  {
    if forall k :: 0 <= k < l ==> a[k] == b[k] {
      assert forall k :: 0 <= k < l ==> a[..l][k] == b[..l][k];
    } else {
      var k :| 0 <= k < l && a[k] != b[k];
      assert a[..l][k] != b[..l][k];
    }
  }

  /**
   * Fills the bad-character table: `patlen` for every byte, then
   * `patlen - 1 - i` for each position `i` but the last.
   */
  method Preprocess(badChars: array<int>, pat: seq<Byte>)
    requires badChars.Length == AlphabetLen && |pat| >= 1
    modifies badChars
    ensures forall b :: 0 <= b < AlphabetLen ==> badChars[b] == Shift(pat, b)
    ensures forall b :: 0 <= b < AlphabetLen ==> 1 <= badChars[b] <= |pat|
  {
    for i := 0 to AlphabetLen
      invariant forall b :: 0 <= b < i ==> badChars[b] == |pat|
    {
      badChars[i] := |pat|;
    }
    for i := 0 to |pat| - 1
      invariant forall b :: 0 <= b < AlphabetLen ==> badChars[b] == ShiftUpTo(pat, b, i)
    {
      forall b | 0 <= b < AlphabetLen
        ensures ShiftUpTo(pat, b, i + 1) == if b == pat[i] then |pat| - 1 - i else ShiftUpTo(pat, b, i)
      {
        ShiftStep(pat, b, i);
      }
      badChars[pat[i]] := |pat| - 1 - i;
    }
  }

  /**
   * The number of occurrences of `pat` in `s`, found by Horspool's skips.
   * The empty pattern is excluded: the table is filled before the check for
   * it, with a loop bound of `patlen - 1` that wraps around.
   */
  method Horspool(s: seq<Byte>, pat: seq<Byte>) returns (occurrences: int)
    requires |pat| >= 1
    ensures occurrences == |Occurrences(s, pat)|
  {
    occurrences := 0;
    var badChars := new int[AlphabetLen];
    Preprocess(badChars, pat);
    var skip := 0;
    ghost var found: seq<nat> := [];
    while |s| - skip >= |pat|
      invariant 0 <= skip <= |s|
      invariant found == OccurrencesBelow(s, pat, skip) && occurrences == |found|
      invariant forall b :: 0 <= b < AlphabetLen ==> badChars[b] == Shift(pat, b)
      decreases |s| - skip
    {
      assert s[skip..][..|pat|] == s[skip..skip + |pat|];
      if Same(s[skip..], pat, |pat|) {
        occurrences := occurrences + 1;
        found := found + [skip];
      }
      var c := s[skip + |pat| - 1];
      assert 1 <= badChars[c] == Shift(pat, c);
      SkipStep(s, pat, skip);
      skip := skip + badChars[c];
    }
    OccurrencesBelowSaturates(s, pat, skip);
  }

  /** The number of occurrences of `pat` in `s`, trying every start; 0 for the empty pattern. */
  method Naive(s: seq<Byte>, pat: seq<Byte>) returns (occurrences: int)
    ensures |pat| == 0 ==> occurrences == 0
    ensures |pat| >= 1 ==> occurrences == |Occurrences(s, pat)|
  {
    occurrences := 0;
    if |pat| == 0 {
      return 0;
    }
    var i := 0;
    while |s| - i >= |pat|
      invariant 0 <= i <= |s| - |pat| + 1 || i == 0
      invariant occurrences == |OccurrencesBelow(s, pat, i)|
    {
      if Same(s[i..], pat, |pat|) {
        occurrences := occurrences + 1;
      }
      assert s[i..][..|pat|] == s[i..i + |pat|];
      i := i + 1;
    }
    OccurrencesBelowSaturates(s, pat, i);
  }
}
