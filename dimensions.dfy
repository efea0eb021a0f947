/**
  The target-dimension rule of `resize_and_save`: an image whose edges both
  fit within `MaxEdge` keeps its size (it is only re-encoded); otherwise the
  longer edge becomes `MaxEdge` (a square counts as landscape) and the other
  edge is scaled by the same factor and truncated to an integer.

  The source computes the short edge as `int(h * MAX_EDGE / w)`, a float
  division followed by truncation. Here it is the floor division of
  naturals, which agrees with the float computation whenever
  `edge * MaxEdge < 2^53`, i.e. for every image size a decoder can produce.
*/
module Dimensions {

  /** Longest edge, in pixels, that a derivative may have (`MAX_EDGE`). */
  const MaxEdge: nat := 1920

  /** Width and height of an image, in pixels. */
  datatype Size = Size(width: nat, height: nat)

  /** Both edges are within the limit, so no geometric resize happens. */
  predicate Fits(s: Size) {
    s.width <= MaxEdge && s.height <= MaxEdge
  }

  function Swap(s: Size): Size {
    Size(s.height, s.width)
  }

  /** `x` is the integer part of the quotient `num / den`. */
  ghost predicate IsFloorOf(x: nat, num: nat, den: nat) {
    x * den <= num < (x + 1) * den
  }

  /**
    The rule of lines 40-46 of `compress_gallery_images.py`, stated without
    division: sizes that fit are kept; otherwise the
    longer edge (ties: the width) is `MaxEdge` and the other edge is the
    truncated proportional value.
  */
  ghost predicate ObeysRule(s: Size, r: Size) {
    if Fits(s) then
      r == s
    else if s.width >= s.height then
      r.width == MaxEdge && IsFloorOf(r.height, s.height * MaxEdge, s.width)
    else
      r.height == MaxEdge && IsFloorOf(r.width, s.width * MaxEdge, s.height)
  }

  /** The size a derivative of an image of size `s` is given. */
  function TargetSize(s: Size): (r: Size)
    ensures Fits(r)
    ensures r.width <= s.width && r.height <= s.height
    ensures s.width >= s.height ==> r.width >= r.height
    ensures s.width <= s.height ==> r.width <= r.height
  {
    if Fits(s) then
      s
    else if s.width >= s.height then
      ScaledShortEdge(s.height, s.width);
      Size(MaxEdge, s.height * MaxEdge / s.width)
    else
      ScaledShortEdge(s.width, s.height);
      Size(s.width * MaxEdge / s.height, MaxEdge)
  }

  /** Floor division gives the integer part of the quotient. */
  lemma FloorDivision(num: nat, den: nat)
    requires den > 0
    ensures IsFloorOf(num / den, num, den)
  {
    var q, m := num / den, num % den;
    assert num == q * den + m && 0 <= m < den;
    assert (q + 1) * den == q * den + den;
  }

  /** Any two integer parts of the same quotient are equal. */
  lemma FloorUnique(x: nat, y: nat, num: nat, den: nat)
    requires IsFloorOf(x, num, den) && IsFloorOf(y, num, den)
    ensures x == y
  {
    if x < y {
      MultiplyMonotone(x + 1, y, den);
    } else if y < x {
      MultiplyMonotone(y + 1, x, den);
    }
  }

  lemma MultiplyMonotone(a: nat, b: nat, c: nat)
    requires a <= b
    ensures a * c <= b * c
  {
    assert b * c == a * c + (b - a) * c;
  }

  /**
    Scaling the shorter edge by `MaxEdge / long`, where the long edge is
    over the limit, never enlarges it and never takes it past `MaxEdge`.
  */
  lemma ScaledShortEdge(short: nat, long: nat)
    requires short <= long && MaxEdge < long
    ensures short * MaxEdge / long <= short
    ensures short * MaxEdge / long <= MaxEdge
  {
    var q := short * MaxEdge / long;
    FloorDivision(short * MaxEdge, long);
    assert q * long <= short * MaxEdge;
    MultiplyMonotone(MaxEdge, long, short);
    assert short * MaxEdge <= short * long < (short + 1) * long;
    MultiplyCancel(q, short, long);
    MultiplyMonotone(short, long, MaxEdge);
    assert short * MaxEdge <= long * MaxEdge < (MaxEdge + 1) * long;
    MultiplyCancel(q, MaxEdge, long);
  }

  lemma MultiplyCancel(a: nat, b: nat, c: nat)
    requires c > 0 && a * c < (b + 1) * c
    ensures a <= b
  {
    if a > b {
      MultiplyMonotone(b + 1, a, c);
    }
  }

  /** The computed size satisfies the documented rule. */
  lemma TargetSizeObeysRule(s: Size)
    ensures ObeysRule(s, TargetSize(s))
  {
    if !Fits(s) {
      if s.width >= s.height {
        FloorDivision(s.height * MaxEdge, s.width);
      } else {
        FloorDivision(s.width * MaxEdge, s.height);
      }
    }
  }

  /** The documented rule leaves no freedom: the computed size is the only one obeying it. */
  lemma RuleDeterminesSize(s: Size, r: Size)
    requires ObeysRule(s, r)
    ensures r == TargetSize(s)
  {
    TargetSizeObeysRule(s);
    var t := TargetSize(s);
    if !Fits(s) {
      if s.width >= s.height {
        FloorUnique(r.height, t.height, s.height * MaxEdge, s.width);
      } else {
        FloorUnique(r.width, t.width, s.width * MaxEdge, s.height);
      }
    }
  }

  /** An image over the limit has its longer edge brought exactly to `MaxEdge`. */
  lemma LongerEdgeBecomesMax(s: Size)
    requires !Fits(s)
    ensures s.width >= s.height ==> TargetSize(s).width == MaxEdge
    ensures s.width < s.height ==> TargetSize(s).height == MaxEdge
  {
  }

  /** Applying the rule to a derivative's size changes nothing. */
  lemma TargetSizeIdempotent(s: Size)
    ensures TargetSize(TargetSize(s)) == TargetSize(s)
  {
  }

  /** Turning the image by a quarter turn turns its target size the same way. */
  lemma TargetSizeCommutesWithSwap(s: Size)
    ensures TargetSize(Swap(s)) == Swap(TargetSize(s))
  {
  }

  /** A square over the limit becomes exactly `MaxEdge` by `MaxEdge`. */
  lemma SquareBecomesMaxSquare(n: nat)
    requires n > MaxEdge
    ensures TargetSize(Size(n, n)) == Size(MaxEdge, MaxEdge)
  {
    FloorDivision(n * MaxEdge, n);
    FloorUnique(MaxEdge, n * MaxEdge / n, n * MaxEdge, n);
  }

  /** The portrait originals named in the script's documentation (3168 x 4752) become 1280 x 1920. */
  lemma PortraitOriginal()
    ensures TargetSize(Size(3168, 4752)) == Size(1280, 1920)
  {
  }

  /** A small image (800 x 600) keeps its size. */
  lemma SmallImageKeepsSize()
    ensures TargetSize(Size(800, 600)) == Size(800, 600)
  {
  }

  /** Nothing keeps the short edge positive: a 10000 x 1 strip gets height 0. */
  lemma ExtremeStripCollapses()
    ensures TargetSize(Size(10000, 1)) == Size(MaxEdge, 0)
  {
  }
}
