/**
 * Integer vectors and the integer rectangle `Rect = GenericRect<Vec2i>`
 * (Math/Rect.h).
 *
 * A rectangle holds two inclusive corners, so its width is `max.x - min.x + 1`.
 * Vector arithmetic, `min`/`max` and `<=` on vectors are taken componentwise,
 * and vector division is C++ integer division, which truncates toward zero.
 * Coordinates are unbounded integers.
 */
module Geometry {
  import opened Arith

  datatype Vec2 = Vec2(x: int, y: int)

  datatype Rect = Rect(min: Vec2, max: Vec2)

  function Splat(v: int): Vec2 {
    Vec2(v, v)
  }

  function Add(a: Vec2, b: Vec2): Vec2 {
    Vec2(a.x + b.x, a.y + b.y)
  }

  function Sub(a: Vec2, b: Vec2): Vec2 {
    Vec2(a.x - b.x, a.y - b.y)
  }

  function Mul(a: Vec2, b: Vec2): Vec2 {
    Vec2(a.x * b.x, a.y * b.y)
  }

  /** Componentwise `<=`. */
  predicate Le(a: Vec2, b: Vec2) {
    a.x <= b.x && a.y <= b.y
  }

  function Max(a: Vec2, b: Vec2): Vec2 {
    Vec2(MaxInt(a.x, b.x), MaxInt(a.y, b.y))
  }

  function Min(a: Vec2, b: Vec2): Vec2 {
    Vec2(MinInt(a.x, b.x), MinInt(a.y, b.y))
  }

  /** C++ `int / int` for a positive divisor: the quotient truncated toward zero. */
  function TruncDiv(a: int, b: int): (q: int)
    requires b > 0
    ensures 0 <= a ==> 0 <= q * b <= a < q * b + b
    ensures a <= 0 ==> q * b - b < a <= q * b <= 0
  {
    if a >= 0 then a / b else -((-a) / b)
  }

  /** Truncating division undoes multiplication. */
  lemma TruncDivExact(k: int, b: int)
    requires b > 0
    ensures TruncDiv(k * b, b) == k
  {
    var q := TruncDiv(k * b, b);
    ZeroMultiple(k - q, b);
  }

  /** On a multiple of `b`, truncating division is exact. */
  lemma TruncDivOfMultiple(a: int, b: int)
    requires b > 0 && a % b == 0
    ensures TruncDiv(a, b) * b == a
  {
    TruncDivExact(a / b, b);
  }

  /** Division rounding toward negative infinity, for a positive divisor. */
  function FloorDiv(a: int, b: int): (q: int)
    requires b > 0
    ensures q * b <= a < q * b + b
  {
    a / b
  }

  /** Positive in both components: a usable divisor or tile size. */
  predicate Positive(v: Vec2) {
    v.x > 0 && v.y > 0
  }

  function DivVec(a: Vec2, b: Vec2): Vec2
    requires Positive(b)
  {
    Vec2(TruncDiv(a.x, b.x), TruncDiv(a.y, b.y))
  }

  function FloorDivVec(a: Vec2, b: Vec2): Vec2
    requires Positive(b)
  {
    Vec2(FloorDiv(a.x, b.x), FloorDiv(a.y, b.y))
  }

  function Width(r: Rect): int {
    r.max.x - r.min.x + 1
  }

  function Height(r: Rect): int {
    r.max.y - r.min.y + 1
  }

  function Size(r: Rect): Vec2 {
    Vec2(Width(r), Height(r))
  }

  function TopLeft(r: Rect): Vec2 {
    r.min
  }

  /** `Rect_WH(p, s)`: the rectangle at `p` of size `s`. */
  function RectWH(p: Vec2, s: Vec2): (r: Rect)
    ensures TopLeft(r) == p && Size(r) == s
  {
    Rect(p, Sub(Add(p, s), Splat(1)))
  }

  /** `move(p)`: translation by `p`; the size is kept and a point is inside the
      moved rectangle exactly when its preimage was inside the original. */
  function Move(r: Rect, p: Vec2): (m: Rect)
    ensures Size(m) == Size(r)
    ensures TopLeft(m) == Add(TopLeft(r), p)
    ensures forall q :: ContainsPoint(m, Add(q, p)) <==> ContainsPoint(r, q)
  {
    Rect(Add(r.min, p), Add(r.max, p))
  }

  /** `set_size(v)`: the top-left corner stays, the size becomes `v`. */
  function SetSize(r: Rect, v: Vec2): (m: Rect)
    ensures m.min == r.min && Size(m) == v
  {
    Rect(r.min, Sub(Add(r.min, v), Splat(1)))
  }

  /** `set_width(v)`: only the right edge moves. */
  function SetWidth(r: Rect, v: int): (m: Rect)
    ensures m.min == r.min && m.max.y == r.max.y
    ensures Width(m) == v && Height(m) == Height(r)
  {
    Rect(r.min, Vec2(r.min.x + v - 1, r.max.y))
  }

  /** `set_height(v)`: only the bottom edge moves. */
  function SetHeight(r: Rect, v: int): (m: Rect)
    ensures m.min == r.min && m.max.x == r.max.x
    ensures Height(m) == v && Width(m) == Width(r)
  {
    Rect(r.min, Vec2(r.max.x, r.min.y + v - 1))
  }

  /** `valid()`: the corners are ordered, which is to say the rectangle holds
      at least one point. */
  function IsValid(r: Rect): (b: bool)
    ensures b <==> exists p :: ContainsPoint(r, p)
  {
    assert Le(r.min, r.max) ==> ContainsPoint(r, r.min);
    Le(r.min, r.max)
  }

  /** `contains(r, p)`: `p` lies between the inclusive corners, so only a valid
      rectangle contains points. */
  function ContainsPoint(r: Rect, p: Vec2): (b: bool)
    ensures b ==> r.min.x <= r.max.x && r.min.y <= r.max.y
  {
    Le(r.min, p) && Le(p, r.max)
  }

  /** `Rect_Intersection`: the points lie in both rectangles exactly when they
      lie in the intersection. */
  function Intersection(r1: Rect, r2: Rect): (r: Rect)
    ensures forall p :: ContainsPoint(r, p) <==> ContainsPoint(r1, p) && ContainsPoint(r2, p)
  {
    Rect(Max(r1.min, r2.min), Min(r1.max, r2.max))
  }

  /** `intersects`: no axis separates the two rectangles. A shared point makes
      them intersect, and intersecting valid rectangles share the corner where
      their top-left corners meet. */
  function Intersects(r1: Rect, r2: Rect): (b: bool)
    ensures (exists p :: ContainsPoint(r1, p) && ContainsPoint(r2, p)) ==> b
    ensures b && Le(r1.min, r1.max) && Le(r2.min, r2.max) ==>
      ContainsPoint(r1, Max(r1.min, r2.min)) && ContainsPoint(r2, Max(r1.min, r2.min))
  {
    !(r1.max.x < r2.min.x || r1.max.y < r2.min.y || r1.min.x > r2.max.x || r1.min.y > r2.max.y)
  }

  /** `contains(r1, r2)`: clipping `r2` to `r1` leaves it unchanged; for a valid
      `r2` that means both its corners lie in `r1`. */
  function ContainsRect(r1: Rect, r2: Rect): (b: bool)
    ensures Le(r2.min, r2.max) ==> (b <==> ContainsPoint(r1, r2.min) && ContainsPoint(r1, r2.max))
  {
    Rect(Max(r1.min, r2.min), Min(r1.max, r2.max)) == r2
  }

  /** `Rect_Valid`: a valid rectangle is returned as is; any other has its two
      corners swapped. */
  function RectValid(r: Rect): (v: Rect)
    ensures IsValid(r) ==> v == r
    ensures !IsValid(r) ==> v.min == r.max && v.max == r.min
  {
    if !IsValid(r) then Rect(r.max, r.min) else r
  }

  /** `Rect_CenteredIn(size, r)`: a rectangle of the given size, offset from
      `r`'s corner by half the difference in size (rounded toward zero). */
  function CenteredIn(size: Vec2, r: Rect): (c: Rect)
    ensures Size(c) == size
  {
    var offset := DivVec(Sub(Size(r), size), Splat(2));
    RectWH(Add(TopLeft(r), offset), size)
  }

  lemma IntersectionCommutes(r1: Rect, r2: Rect)
    ensures Intersection(r1, r2) == Intersection(r2, r1)
  {
  }

  lemma IntersectionWithSelf(r: Rect)
    ensures Intersection(r, r) == r
  {
  }

  lemma IntersectsSymmetric(r1: Rect, r2: Rect)
    ensures Intersects(r1, r2) <==> Intersects(r2, r1)
  {
  }

  /** For valid rectangles, `intersects` holds exactly when the intersection is
      a valid (non-empty) rectangle. */
  lemma IntersectsIffIntersectionValid(r1: Rect, r2: Rect)
    requires IsValid(r1) && IsValid(r2)
    ensures Intersects(r1, r2) <==> IsValid(Intersection(r1, r2))
  {
  }

  /** `contains(r1, r2)` holds exactly when `r2`'s corners lie within `r1`'s
      bounds, so every rectangle contains itself and containment passes points on. */
  lemma ContainsRectCorners(r1: Rect, r2: Rect)
    ensures ContainsRect(r1, r2) <==> Le(r1.min, r2.min) && Le(r2.max, r1.max)
    ensures ContainsRect(r1, r1)
    ensures ContainsRect(r1, r2) ==> forall p :: ContainsPoint(r2, p) ==> ContainsPoint(r1, p)
  {
  }

  /** A `Rect_WH(0, vis)` window contains exactly the cells `0 <= p < vis`. */
  lemma ContainsInWindow(vis: Vec2, p: Vec2)
    ensures ContainsPoint(RectWH(Vec2(0, 0), vis), p) <==> 0 <= p.x < vis.x && 0 <= p.y < vis.y
  {
  }

  /** `Rect_Valid` produces a valid rectangle when the input was valid or inverted
      on both axes, and always keeps the same pair of corners. */
  lemma RectValidNormalizes(r: Rect)
    ensures (IsValid(r) || (r.max.x < r.min.x && r.max.y < r.min.y)) ==> IsValid(RectValid(r))
    ensures {RectValid(r).min, RectValid(r).max} == {r.min, r.max}
  {
  }

  /** A rectangle inverted on one axis only stays invalid after `Rect_Valid`,
      since the swap inverts the other axis. */
  lemma RectValidOneAxis()
    ensures var r := Rect(Vec2(1, 0), Vec2(0, 1));
      !IsValid(r) && !IsValid(RectValid(r))
  {
  }

  /** `Rect_CenteredIn` splits the spare room equally: on each axis the margins
      left and right (above and below) of the result add up to the difference
      in size and differ by at most one. */
  lemma CenteredInMargins(size: Vec2, r: Rect)
    ensures var c := CenteredIn(size, r);
      && (c.min.x - r.min.x) + (r.max.x - c.max.x) == Width(r) - size.x
      && -1 <= (r.max.x - c.max.x) - (c.min.x - r.min.x) <= 1
      && (c.min.y - r.min.y) + (r.max.y - c.max.y) == Height(r) - size.y
      && -1 <= (r.max.y - c.max.y) - (c.min.y - r.min.y) <= 1
  {
    var d := Sub(Size(r), size);
    var offset := DivVec(d, Splat(2));
    assert -1 <= d.x - 2 * offset.x <= 1;
    assert -1 <= d.y - 2 * offset.y <= 1;
  }

  /** A size that fits inside `r` is placed within it. */
  lemma CenteredInFits(size: Vec2, r: Rect)
    requires Le(size, Size(r))
    ensures ContainsRect(r, CenteredIn(size, r))
  {
    var c := CenteredIn(size, r);
    var d := Sub(Size(r), size);
    var offset := DivVec(d, Splat(2));
    assert 0 <= offset.x && 2 * offset.x <= d.x;
    assert 0 <= offset.y && 2 * offset.y <= d.y;
    ContainsRectCorners(r, c);
  }
}
