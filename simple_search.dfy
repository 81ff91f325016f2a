/**
 * The naive substring search of the science-fair project (Python): try
 * every start position and compare the pattern right to left.
 */
module SimpleSearch {
  import opened StringSearch

  /** The exceptions the Python searches can raise. */
  datatype PyError = IndexError | KeyError

  /**
   * What a search generator produces: the positions it yields, in order,
   * and, when it raises, the exception that ends the iteration.
   */
  datatype SearchResult =
    | Yielded(indices: seq<nat>)
    | Raised(error: PyError, yielded: seq<nat>)

  /**
   * Whether the first `l` characters of `a` and `b` agree, compared from
   * position `l - 1` down to 0. The same function appears in both Python
   * search files.
   */
  method Same(a: string, b: string, l: int) returns (r: bool)
    requires 1 <= l <= |a| && l <= |b|
    ensures r <==> a[..l] == b[..l]
  {
    var i := l - 1;
    while a[i] == b[i]
      invariant 0 <= i < l
      invariant forall k :: i < k < l ==> a[k] == b[k]
      decreases i
    {
      if i == 0 {
        assert a[..l] == b[..l] by {
          forall k | 0 <= k < l ensures a[..l][k] == b[..l][k] { }
        }
        return true;
      }
      i := i - 1;
    }
    assert a[..l][i] != b[..l][i];
    return false;
  }

  /**
   * Every position at which `p` occurs in `t`, in increasing order. An empty
   * pattern makes the first comparison index past the end of the pattern,
   * which raises before anything is yielded.
   */
  method Search(p: string, t: string) returns (r: SearchResult)
    ensures |p| == 0 ==> r == Raised(IndexError, [])
    ensures |p| >= 1 ==> r == Yielded(Occurrences(t, p))
  {
    if |p| == 0 {
      return Raised(IndexError, []);
    }
    var found: seq<nat> := [];
    var i := 0;
    while i < |t| - |p| + 1
      invariant 0 <= i && (i <= |t| - |p| + 1 || i == 0)
      invariant found == OccurrencesBelow(t, p, i)
    {
      var same := Same(t[i..], p, |p|);
      assert t[i..][..|p|] == t[i..i + |p|];
      if same {
        found := found + [i];
      }
      i := i + 1;
    }
    OccurrencesBelowSaturates(t, p, i);
    return Yielded(found);
  }
}
