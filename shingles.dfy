/**
 * The shingle generator: splits a buffer into overlapping character ranges
 * of a fixed width ("mouse" with width 3 gives "mou", "ous", "use").
 */
module Shingles {
  import opened Wrappers

  /** A shingle width the constructor accepts. */
  type Width = w: int | w > 0 witness 1

  datatype ShingleGenerator = ShingleGenerator(width: Width)

  /** The constructor: a width that is not positive fails its assertion. */
  function NewShingleGenerator(width: int): (r: Option<ShingleGenerator>)
    ensures r.Some? <==> width > 0
    ensures r.Some? ==> r.value.width == width
  {
    if width > 0 then Some(ShingleGenerator(width)) else None
  }

  /**
   * The (start, end) ranges of the shingles of `buffer`: none for an empty
   * buffer, the whole buffer when it is no longer than the width, and
   * otherwise one range of `width` characters at every start position.
   */
  function Ranges(g: ShingleGenerator, buffer: string): (r: seq<(nat, nat)>)
    ensures forall k :: 0 <= k < |r| ==> r[k].0 < r[k].1 <= |buffer|
  {
    if buffer == [] then []
    else if |buffer| <= g.width then [(0, |buffer|)]
    else seq(|buffer| - g.width + 1, (i: nat) => (i, i + g.width))
  }

  function Min(a: int, b: int): int { if a <= b then a else b }

  /** The shingles themselves: the buffer cut at every range. */
  function Shingles(g: ShingleGenerator, buffer: string): (r: seq<string>)
    ensures |r| == |Ranges(g, buffer)|
    ensures forall k :: 0 <= k < |r| ==> |r[k]| == Min(g.width, |buffer|)
  {
    var rs := Ranges(g, buffer);
    RangesShape(g, buffer);
    seq(|rs|, (k: int) requires 0 <= k < |rs| => buffer[rs[k].0..rs[k].1])
  }

  /** An empty buffer has no shingles, and a nonempty one has at least one. */
  lemma RangesEmpty(g: ShingleGenerator, buffer: string)
    ensures Ranges(g, buffer) == [] <==> buffer == []
  {
  }

  /** A nonempty buffer no longer than the width is a single, shorter shingle. */
  lemma RangesShort(g: ShingleGenerator, buffer: string)
    requires 0 < |buffer| <= g.width
    ensures Ranges(g, buffer) == [(0, |buffer|)]
  {
  }

  /** A longer buffer has `|buffer| - width + 1` shingles of full width, one at each start. */
  lemma RangesLong(g: ShingleGenerator, buffer: string)
    requires |buffer| > g.width
    ensures |Ranges(g, buffer)| == |buffer| - g.width + 1
    ensures forall k :: 0 <= k < |Ranges(g, buffer)| ==> Ranges(g, buffer)[k] == (k, k + g.width)
  {
  }

  /**
   * Every range lies inside the buffer and is `min(width, |buffer|)` long;
   * consecutive ranges start one character apart.
   */
  lemma RangesShape(g: ShingleGenerator, buffer: string)
    ensures forall k :: 0 <= k < |Ranges(g, buffer)| ==>
              Ranges(g, buffer)[k].1 - Ranges(g, buffer)[k].0 == Min(g.width, |buffer|)
    ensures forall k :: 0 < k < |Ranges(g, buffer)| ==>
              Ranges(g, buffer)[k].0 == Ranges(g, buffer)[k - 1].0 + 1
  {
  }

  /** Together the shingles cover every character of the buffer. */
  lemma RangesCover(g: ShingleGenerator, buffer: string, j: nat)
    requires j < |buffer|
    ensures exists k :: 0 <= k < |Ranges(g, buffer)| &&
              Ranges(g, buffer)[k].0 <= j < Ranges(g, buffer)[k].1
  {
    var rs := Ranges(g, buffer);
    if |buffer| <= g.width {
      assert rs[0].0 <= j < rs[0].1;
    } else if j < |rs| {
      assert rs[j].0 <= j < rs[j].1;
    } else {
      assert rs[|rs| - 1].0 <= j < rs[|rs| - 1].1;
    }
  }

  /** The 3-shingles of "mouse" are "mou", "ous" and "use". */
  lemma MouseExample()
    ensures Ranges(ShingleGenerator(3), "mouse") == [(0, 3), (1, 4), (2, 5)]
    ensures Shingles(ShingleGenerator(3), "mouse") == ["mou", "ous", "use"]
  {
    var rs := Ranges(ShingleGenerator(3), "mouse");
    assert rs == [(0, 3), (1, 4), (2, 5)];
    assert "mouse"[0..3] == "mou" && "mouse"[1..4] == "ous" && "mouse"[2..5] == "use";
  }
}
