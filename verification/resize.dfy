/** The target size each image is resized to before mapping: the longer side
    becomes 128 and the shorter side is scaled by integer division, which for
    the non-negative sizes of a decoded image rounds down. */
module Resize {
  import opened Arith

  /** The length of the longer side after resizing. */
  const Side: nat := 128

  datatype Size = Size(width: nat, height: nat)

  /** The computed size, or the integer division by zero that a 0x0 image
      reaches in the else branch (w <= h), a run-time panic. */
  datatype SizeResult = Resized(size: Size) | DivideByZero

  /** The new size for an image whose bounds end at (w, h). */
  function TargetSize(w: nat, h: nat): (r: SizeResult)
    ensures r.DivideByZero? <==> w == 0 && h == 0
    ensures w > h ==>
      (r.Resized? && r.size.width == Side && r.size.height * w <= Side * h < (r.size.height + 1) * w)
    ensures w <= h && h > 0 ==>
      (r.Resized? && r.size.height == Side && r.size.width * h <= Side * w < (r.size.width + 1) * h)
  {
    if w > h then
      var q := Side * h / w;
      FloorBounds(Side * h, w);
      Resized(Size(Side, q))
    else if h == 0 then DivideByZero
    else
      var q := Side * w / h;
      FloorBounds(Side * w, h);
      Resized(Size(q, Side))
  }

  /** Integer division of non-negative numbers rounds down. */
  lemma FloorBounds(a: nat, b: nat)
    requires b > 0
    ensures (a / b) * b <= a < (a / b + 1) * b
  {
  }

  /** The quotient q with q*b <= a < (q+1)*b is determined: if the scaled
      side were any other number it would fail the floor bounds. */
  lemma FloorUnique(a: int, b: int, q: int, q': int)
    requires b > 0
    requires q * b <= a < (q + 1) * b
    requires q' * b <= a < (q' + 1) * b
    ensures q == q'
  {
  }

  /** Cancelling a positive factor from both sides of an inequality, which
      for a strict inequality gains one. */
  lemma MulCancel(x: int, y: int, b: int)
    requires b > 0
    ensures x * b <= y * b ==> x <= y
    ensures x * b < y * b ==> x + 1 <= y
  {
    assert (y - x) * b == y * b - x * b;
  }

  /** Neither side exceeds 128 and the longer side is exactly 128; a square
      image becomes 128x128. */
  lemma TargetSizeFitsSide(w: nat, h: nat)
    requires w > 0 || h > 0
    ensures TargetSize(w, h).Resized?
    ensures TargetSize(w, h).size.width <= Side && TargetSize(w, h).size.height <= Side
    ensures TargetSize(w, h).size.width == Side || TargetSize(w, h).size.height == Side
    ensures w == h ==> TargetSize(w, h) == Resized(Size(Side, Side))
  {
    var s := TargetSize(w, h).size;
    if w > h {
      MulMonotone(h, w, Side);
      ShorterSideBelow(s.height, w, h);
    } else {
      MulMonotone(w, h, Side);
      ShorterSideBelow(s.width, h, w);
      if w == h {
        assert s.width * h <= Side * h < (s.width + 1) * h;
        FloorUnique(Side * h, h, s.width, Side);
      }
    }
  }

  /** A quotient that satisfies the floor bounds for a shorter side stays
      below 128 when the shorter side is strictly shorter. */
  lemma ShorterSideBelow(q: nat, longer: nat, shorter: nat)
    requires longer > 0 && shorter <= longer
    requires q * longer <= Side * shorter
    ensures q <= Side
    ensures shorter < longer ==> q < Side
  {
    MulMonotone(shorter, longer, Side);
    if shorter < longer {
      MulMonotone(shorter + 1, longer, Side);
      assert Side * shorter < Side * longer;
    }
    MulCancel(q, Side, longer);
  }

  /** The resized image keeps the orientation of the original: landscape stays
      landscape, portrait stays portrait, square stays square. */
  lemma TargetSizeKeepsOrientation(w: nat, h: nat)
    requires w > 0 || h > 0
    ensures TargetSize(w, h).Resized?
    ensures TargetSize(w, h).size.width > TargetSize(w, h).size.height <==> w > h
    ensures TargetSize(w, h).size.width == TargetSize(w, h).size.height <==> w == h
  {
    var s := TargetSize(w, h).size;
    TargetSizeFitsSide(w, h);
    if w > h {
      ShorterSideBelow(s.height, w, h);
    } else if w < h {
      ShorterSideBelow(s.width, h, w);
    }
  }
}
