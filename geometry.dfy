/** Rectangle arithmetic of the face and object stages.

    Vision reports a bounding box normalized to [0,1] with its origin at the
    bottom-left corner; the crops are taken in pixel coordinates with the origin
    at the top-left corner.  CGFloat is modelled as `real`: every map here is
    affine, so exact arithmetic is what the formulas of the program say.

    A CGRect may have a negative width or height; the CGRect operations the
    program uses (`width`, `height`, `insetBy`, `intersection`) first
    standardize it.  The null rectangle that `insetBy` and `intersection` can
    return is `None`. */
module Geometry {
  import opened Wrappers

  /** A box as Vision reports it: fractions of the image size, y upward. */
  datatype NormBox = NormBox(x: real, y: real, width: real, height: real)

  /** A CGRect in pixel units, y downward. */
  datatype Rect = Rect(x: real, y: real, width: real, height: real)

  /** The enlargement of a face box before cropping: 125% of each side. */
  const EnlargementFactor: real := 1.25

  function Abs(v: real): real { if v < 0.0 then -v else v }
  function Min(a: real, b: real): real { if a <= b then a else b }
  function Max(a: real, b: real): real { if a <= b then b else a }

  predicate IsStandard(r: Rect) { r.width >= 0.0 && r.height >= 0.0 }

  /** CGRect.standardized: the same point set, with a non-negative size. */
  function Standardized(r: Rect): (s: Rect)
    ensures IsStandard(s)
    ensures s.x == Min(r.x, r.x + r.width) && s.x + s.width == Max(r.x, r.x + r.width)
    ensures s.y == Min(r.y, r.y + r.height) && s.y + s.height == Max(r.y, r.y + r.height)
  {
    Rect(if r.width < 0.0 then r.x + r.width else r.x,
         if r.height < 0.0 then r.y + r.height else r.y,
         Abs(r.width), Abs(r.height))
  }

  /** The point (px, py) lies in the closed rectangle r. */
  predicate InRect(r: Rect, px: real, py: real)
  {
    var s := Standardized(r);
    s.x <= px <= s.x + s.width && s.y <= py <= s.y + s.height
  }

  /** `inner` is a standard rectangle lying inside `outer`. */
  predicate Contains(outer: Rect, inner: Rect)
  {
    IsStandard(inner) &&
    outer.x <= inner.x && inner.x + inner.width <= outer.x + outer.width &&
    outer.y <= inner.y && inner.y + inner.height <= outer.y + outer.height
  }

  function CenterX(r: Rect): real { r.x + r.width / 2.0 }
  function CenterY(r: Rect): real { r.y + r.height / 2.0 }

  /** The image rectangle [0,W] x [0,H]. */
  function ImageRect(width: nat, height: nat): Rect
  {
    Rect(0.0, 0.0, width as real, height as real)
  }

  /** CGRect.insetBy(dx:dy:): move every side of the standardized rectangle
      inward by dx (resp. dy); the null rectangle when a side would become
      negative. */
  function InsetBy(r: Rect, dx: real, dy: real): (e: Option<Rect>)
    ensures e.Some? <==> Abs(r.width) >= 2.0 * dx && Abs(r.height) >= 2.0 * dy
    ensures e.Some? ==> IsStandard(e.value)
  {
    var s := Standardized(r);
    var w := s.width - 2.0 * dx;
    var h := s.height - 2.0 * dy;
    if w < 0.0 || h < 0.0 then None else Some(Rect(s.x + dx, s.y + dy, w, h))
  }

  /** CGRect.intersection(_:): the common part of both standardized
      rectangles, or the null rectangle when their closed spans are disjoint
      (rectangles that only touch give a rectangle of zero size). */
  function Intersection(a: Rect, b: Rect): (c: Option<Rect>)
    ensures c.Some? ==> Contains(Standardized(a), c.value) && Contains(Standardized(b), c.value)
  {
    var s, t := Standardized(a), Standardized(b);
    var x1, x2 := Max(s.x, t.x), Min(s.x + s.width, t.x + t.width);
    var y1, y2 := Max(s.y, t.y), Min(s.y + s.height, t.y + t.height);
    if x1 > x2 || y1 > y2 then None else Some(Rect(x1, y1, x2 - x1, y2 - y1))
  }

  /** The vertical flip and scaling shared by the face and object stages.
      The size is read through the `width` and `height` getters of the
      normalized box, which standardize it, so the rectangle is standard:
      its top-left corner is the flipped top edge of the box and its bottom
      edge is the flipped bottom edge `y` of the box. */
  function PixelRect(b: NormBox, width: nat, height: nat): (r: Rect)
    ensures IsStandard(r)
    ensures r.x == b.x * width as real && r.width == Abs(b.width) * width as real
    ensures r.height == Abs(b.height) * height as real
    ensures r.y + r.height == (1.0 - b.y) * height as real
  {
    var W, H := width as real, height as real;
    assert (1.0 - b.y - Abs(b.height)) * H + Abs(b.height) * H == (1.0 - b.y) * H;
    Rect(b.x * W, (1.0 - b.y - Abs(b.height)) * H, Abs(b.width) * W, Abs(b.height) * H)
  }

  /** The rectangle the face stage crops: the face rectangle enlarged about its
      centre by EnlargementFactor, then cut to the image.  None is the null
      rectangle, from which no crop can be taken. */
  function FaceCropRect(b: NormBox, width: nat, height: nat): (c: Option<Rect>)
    ensures c.Some? ==> Contains(ImageRect(width, height), c.value)
  {
    var face := PixelRect(b, width, height);
    var expanded := InsetBy(face, -Abs(face.width) * (EnlargementFactor - 1.0) / 2.0,
                                  -Abs(face.height) * (EnlargementFactor - 1.0) / 2.0);
    match expanded
    case None => None
    case Some(e) => Intersection(e, ImageRect(width, height))
  }

  /** The rectangle the object stage crops: the flipped rectangle, unclamped. */
  function ObjectCropRect(b: NormBox, width: nat, height: nat): Rect
  {
    PixelRect(b, width, height)
  }

  /** A box Vision reports well-formed: inside the unit square. */
  predicate InUnitSquare(b: NormBox)
  {
    0.0 <= b.x && 0.0 <= b.y && 0.0 <= b.width && 0.0 <= b.height &&
    b.x + b.width <= 1.0 && b.y + b.height <= 1.0
  }

  /** The inverse of the flip, used to show that the flip loses nothing. */
  function NormalizedOf(r: Rect, width: nat, height: nat): NormBox
    requires width > 0 && height > 0
  {
    NormBox(r.x / width as real,
            1.0 - r.y / height as real - r.height / height as real,
            r.width / width as real,
            r.height / height as real)
  }

  /** A well-formed box flips into a rectangle inside the image. */
  lemma FlipInsideImage(b: NormBox, width: nat, height: nat)
    requires InUnitSquare(b)
    ensures Contains(ImageRect(width, height), PixelRect(b, width, height))
  {
    var r, W, H := PixelRect(b, width, height), width as real, height as real;
    assert Abs(b.width) == b.width && Abs(b.height) == b.height;
    assert 0.0 <= b.x * W && 0.0 <= (1.0 - b.y - b.height) * H;
    assert r.x + r.width == (b.x + b.width) * W <= W;
    assert r.y + r.height == (1.0 - b.y) * H <= H;
  }

  /** The whole unit square flips to the whole image. */
  lemma FlipFullUnitBox(width: nat, height: nat)
    ensures PixelRect(NormBox(0.0, 0.0, 1.0, 1.0), width, height) == ImageRect(width, height)
  {
  }

  /** A box spanning the full height maps to y = 0 and the full pixel height. */
  lemma FlipFullHeight(b: NormBox, width: nat, height: nat)
    requires b.y == 0.0 && b.height == 1.0
    ensures PixelRect(b, width, height).y == 0.0
    ensures PixelRect(b, width, height).height == height as real
  {
  }

  /** For a non-empty image the flip loses only the sign of the size: the
      inverse gives back the box with its size made non-negative, and so the
      box itself when its size is non-negative. */
  lemma FlipRoundTrip(b: NormBox, width: nat, height: nat)
    requires width > 0 && height > 0
    ensures NormalizedOf(PixelRect(b, width, height), width, height) == NormBox(b.x, b.y, Abs(b.width), Abs(b.height))
    ensures b.width >= 0.0 && b.height >= 0.0 ==> NormalizedOf(PixelRect(b, width, height), width, height) == b
  {
  }

  /** A box and the same box with its size negated flip to the same
      rectangle. */
  lemma FlipIgnoresSizeSign(b: NormBox, width: nat, height: nat)
    ensures PixelRect(NormBox(b.x, b.y, -b.width, -b.height), width, height) == PixelRect(b, width, height)
  {
  }

  /** The face enlargement gives a rectangle of 125% of each side of the face
      rectangle, about the same centre. */
  lemma FaceEnlargement(r: Rect)
    ensures var e := InsetBy(r, -Abs(r.width) * (EnlargementFactor - 1.0) / 2.0,
                                -Abs(r.height) * (EnlargementFactor - 1.0) / 2.0);
            && e.Some?
            && e.value.width == EnlargementFactor * Standardized(r).width
            && e.value.height == EnlargementFactor * Standardized(r).height
            && CenterX(e.value) == CenterX(Standardized(r))
            && CenterY(e.value) == CenterY(Standardized(r))
  {
  }

  /** When the enlarged face rectangle already lies in the image, the cut to
      the image leaves it as it is. */
  lemma FaceCropUnclipped(b: NormBox, width: nat, height: nat)
    requires var f := PixelRect(b, width, height);
             var e := InsetBy(f, -Abs(f.width) * (EnlargementFactor - 1.0) / 2.0,
                                 -Abs(f.height) * (EnlargementFactor - 1.0) / 2.0);
             e.Some? && Contains(ImageRect(width, height), e.value)
    ensures var f := PixelRect(b, width, height);
            FaceCropRect(b, width, height) ==
              InsetBy(f, -Abs(f.width) * (EnlargementFactor - 1.0) / 2.0,
                         -Abs(f.height) * (EnlargementFactor - 1.0) / 2.0)
  {
  }

  /** A face at {0.4, 0.5, 0.2, 0.2} in a 500 x 400 image: the 100 x 80 face
      rectangle at (200, 120) becomes a 125 x 100 crop at (187.5, 110). */
  lemma FaceCropExample()
    ensures PixelRect(NormBox(0.4, 0.5, 0.2, 0.2), 500, 400) == Rect(200.0, 120.0, 100.0, 80.0)
    ensures FaceCropRect(NormBox(0.4, 0.5, 0.2, 0.2), 500, 400) == Some(Rect(187.5, 110.0, 125.0, 100.0))
  {
  }

  /** Intersection is the null rectangle exactly when no point lies in both
      rectangles. */
  lemma IntersectionNullIffDisjoint(a: Rect, b: Rect)
    ensures Intersection(a, b).None? <==> !exists px, py :: InRect(a, px, py) && InRect(b, px, py)
  {
    var c := Intersection(a, b);
    if c.Some? {
      assert InRect(a, c.value.x, c.value.y) && InRect(b, c.value.x, c.value.y);
    }
  }

  /** Intersection is the largest common part: every point in both rectangles
      is in it. */
  lemma IntersectionIsGreatest(a: Rect, b: Rect, px: real, py: real)
    requires InRect(a, px, py) && InRect(b, px, py)
    ensures Intersection(a, b).Some? && InRect(Intersection(a, b).value, px, py)
  {
  }
}
