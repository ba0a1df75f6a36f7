/**
 * How the parallel blur cuts the rows of an image of height h among t workers:
 * each strip is stripHeight = h / t rows (C++ truncating division), strip i
 * starts at row i * stripHeight, and every strip but the last ends where the
 * next one starts; the last one runs to h, so it also takes the h % t rows that
 * do not divide evenly.
 */
module Strips {
  import opened Pixels

  /** The rows per strip: h / t, truncated as C++ does. */
  function StripHeight(h: nat, t: int): int
    requires t != 0
  {
    CDiv(h, t)
  }

  /** The first row of strip i. */
  function StripStart(h: nat, t: int, i: int): int
    requires t != 0
  {
    i * StripHeight(h, t)
  }

  /** One past the last row of strip i: h for the last strip, the next strip's start otherwise. */
  function StripEnd(h: nat, t: int, i: int): int
    requires t != 0
  {
    if i == t - 1 then h else (i + 1) * StripHeight(h, t)
  }

  /** Row r belongs to strip i. */
  predicate InStrip(h: nat, t: int, i: int, r: int)
    requires t != 0
  {
    StripStart(h, t, i) <= r < StripEnd(h, t, i)
  }

  /** With t >= 1 workers the strip height is the floor of h / t. */
  lemma StripHeightFloor(h: nat, t: int)
    requires t >= 1
    ensures StripHeight(h, t) == h / t
    ensures 0 <= StripHeight(h, t) && t * StripHeight(h, t) <= h < t * StripHeight(h, t) + t
  {
  }

  lemma MulLe(a: int, b: int, s: nat)
    requires a <= b
    ensures a * s <= b * s
  {
  }

  /** Every strip lies inside the image and is never of negative length. */
  lemma StripBounds(h: nat, t: int, i: int)
    requires t >= 1 && 0 <= i < t
    ensures 0 <= StripStart(h, t, i) <= StripEnd(h, t, i) <= h
  {
    var s := StripHeight(h, t);
    StripHeightFloor(h, t);
    MulLe(0, i, s);
    MulLe(i, i + 1, s);
    MulLe(i + 1, t, s);
    assert t * s == s * t;
  }

  /** The strips tile [0, h): the first starts at 0, the last ends at h, and each of the others
      ends where the next one starts. */
  lemma StripsTile(h: nat, t: int)
    requires t >= 1
    ensures StripStart(h, t, 0) == 0 && StripEnd(h, t, t - 1) == h
    ensures forall i :: 0 <= i < t - 1 ==> StripEnd(h, t, i) == StripStart(h, t, i + 1)
  {
  }

  /** An earlier strip ends no later than a later one starts. */
  lemma StripsOrdered(h: nat, t: int, i: int, j: int)
    requires t >= 1 && 0 <= i < j < t
    ensures StripEnd(h, t, i) <= StripStart(h, t, j)
  {
    var s := StripHeight(h, t);
    StripHeightFloor(h, t);
    MulLe(i + 1, j, s);
  }

  /** No row belongs to two strips. */
  lemma StripsDisjoint(h: nat, t: int, i: int, j: int, r: int)
    requires t >= 1 && 0 <= i < t && 0 <= j < t && i != j
    ensures !(InStrip(h, t, i, r) && InStrip(h, t, j, r))
  {
    if i < j {
      StripsOrdered(h, t, i, j);
    } else {
      StripsOrdered(h, t, j, i);
    }
  }

  lemma FloorQuotient(r: nat, s: int)
    requires s > 0
    ensures 0 <= r / s && (r / s) * s <= r < (r / s) * s + s
  {
  }

  lemma MulNext(q: int, s: int)
    ensures (q + 1) * s == q * s + s
  {
  }

  /** Row r lies in strip r / stripHeight when that is not the last strip. */
  lemma InQuotientStrip(h: nat, t: int, r: int)
    requires t >= 1 && 0 <= r < h && h / t > 0 && r / (h / t) < t - 1
    ensures 0 <= r / (h / t) && InStrip(h, t, r / (h / t), r)
  {
    StripHeightFloor(h, t);
    var s := h / t;
    var q := r / s;
    FloorQuotient(r, s);
    MulNext(q, s);
    assert StripStart(h, t, q) == q * s && StripEnd(h, t, q) == (q + 1) * s;
  }

  /** Row r lies in the last strip when stripHeight is 0 or r / stripHeight reaches t - 1. */
  lemma InLastStrip(h: nat, t: int, r: int)
    requires t >= 1 && 0 <= r < h && (h / t == 0 || r / (h / t) >= t - 1)
    ensures InStrip(h, t, t - 1, r)
  {
    StripHeightFloor(h, t);
    var s := h / t;
    if s == 0 {
      assert StripStart(h, t, t - 1) == 0;
    } else {
      var q := r / s;
      MulLe(t - 1, q, s);
      assert s * q <= r;
      assert StripStart(h, t, t - 1) == (t - 1) * s;
    }
  }

  /** The strip that row r belongs to: every row of the image belongs to one. */
  function Owner(h: nat, t: int, r: int): (i: int)
    requires t >= 1 && 0 <= r < h
    ensures 0 <= i < t && InStrip(h, t, i, r)
  {
    var s := h / t;
    if s > 0 && r / s < t - 1 then
      InQuotientStrip(h, t, r);
      r / s
    else
      InLastStrip(h, t, r);
      t - 1
  }

  /** Every row of the image is in exactly one strip. */
  lemma StripsCover(h: nat, t: int, r: int)
    requires t >= 1 && 0 <= r < h
    ensures exists i :: 0 <= i < t && InStrip(h, t, i, r)
    ensures forall i, j :: 0 <= i < t && 0 <= j < t && InStrip(h, t, i, r) && InStrip(h, t, j, r) ==> i == j
  {
    var o := Owner(h, t, r);
    forall i, j | 0 <= i < t && 0 <= j < t && InStrip(h, t, i, r) && InStrip(h, t, j, r)
      ensures i == j
    {
      if i != j {
        StripsDisjoint(h, t, i, j, r);
      }
    }
  }

  /** The last strip holds the h % t rows left over on top of its stripHeight rows. */
  lemma LastStripRemainder(h: nat, t: int)
    requires t >= 1
    ensures StripEnd(h, t, t - 1) - StripStart(h, t, t - 1) == StripHeight(h, t) + h % t
  {
    var s := StripHeight(h, t);
    StripHeightFloor(h, t);
    assert (t - 1) * s == t * s - s;
  }

  /** With more workers than rows, the strip height is 0: every strip but the last is empty and
      the last one is the whole image. */
  lemma MoreWorkersThanRows(h: nat, t: int, i: int)
    requires t > h && 0 <= i < t - 1
    ensures StripHeight(h, t) == 0
    ensures StripStart(h, t, i) == StripEnd(h, t, i) == 0
    ensures StripStart(h, t, t - 1) == 0 && StripEnd(h, t, t - 1) == h
  {
    StripHeightFloor(h, t);
  }
}
