/**
 * The immutable point of `collinear/Point.java`: two Java `int` coordinates,
 * the natural order (`compareTo`) and the case structure of `slopeTo`.
 */
module Points {
  import opened Wrappers

  /** Java `int` arithmetic: the exact value wrapped into 32 bits. */
  function Wrap32(v: int): (r: int)
    ensures IsInt32(r)
    ensures (r - v) % 0x1_0000_0000 == 0
    ensures IsInt32(v) ==> r == v
  {
    (v + 0x8000_0000) % 0x1_0000_0000 - 0x8000_0000
  }

  datatype Point = Point(x: int, y: int)
  {
    /** Both coordinates fit a Java `int`, as the fields declared `int` do. */
    predicate Fits()
    {
      IsInt32(x) && IsInt32(y)
    }
  }

  /** The order the source intends: by `y` first, ties broken by `x`. */
  predicate Below(p: Point, q: Point)
  {
    p.y < q.y || (p.y == q.y && p.x < q.x)
  }

  /**
   * `p.compareTo(q)`: -1, 0 or 1, by `y` first and then by `x`; 0 exactly when
   * the points are equal.
   */
  function CompareTo(p: Point, q: Point): (r: int)
    ensures r == -1 || r == 0 || r == 1
    ensures r == 0 <==> p == q
    ensures r == -1 <==> Below(p, q)
    ensures r == 1 <==> Below(q, p)
  {
    if p.y < q.y then -1
    else if p.y > q.y then 1
    else if p.x < q.x then -1
    else if p.x > q.x then 1
    else 0
  }

  /** Swapping the arguments negates the result. */
  lemma CompareAntisymmetric(p: Point, q: Point)
    ensures CompareTo(p, q) == -CompareTo(q, p)
  {
  }

  /** `compareTo` is transitive on "less than", as `Comparable` demands. */
  lemma CompareTransitive(p: Point, q: Point, s: Point)
    requires CompareTo(p, q) < 0 && CompareTo(q, s) < 0
    ensures CompareTo(p, s) < 0
  {
  }

  /**
   * The result of `slopeTo`. The source returns a `double`; the three special
   * values become constructors, and a proper slope keeps the two `int`
   * differences whose quotient the source takes.
   */
  datatype Slope = NegInf | Zero | PosInf | Ratio(rise: int, run: int)

  /**
   * `p.slopeTo(q)`: negative infinity for the degenerate segment, positive zero
   * for a horizontal one, positive infinity for a vertical one (tested in this
   * order), and otherwise the quotient of the wrapped `int` differences
   * `q.y - p.y` and `q.x - p.x`.
   */
  function SlopeTo(p: Point, q: Point): (s: Slope)
    ensures s == NegInf <==> p == q
    ensures s == Zero <==> p != q && p.y == q.y
    ensures s == PosInf <==> p.y != q.y && p.x == q.x
    ensures s.Ratio? <==> p.x != q.x && p.y != q.y
    ensures s.Ratio? ==> s.rise == Wrap32(q.y - p.y) && s.run == Wrap32(q.x - p.x)
    ensures s.Ratio? && p.Fits() && q.Fits() ==> s.rise != 0 && s.run != 0
  {
    if CompareTo(p, q) == 0 then NegInf
    else if p.y == q.y then Zero
    else if p.x == q.x then PosInf
    else Ratio(Wrap32(q.y - p.y), Wrap32(q.x - p.x))
  }

  /**
   * The slope is symmetric in its kind: the special cases do not depend on the
   * order of the points, and a proper slope stays proper.
   */
  lemma SlopeSymmetric(p: Point, q: Point)
    ensures SlopeTo(p, q).Ratio? == SlopeTo(q, p).Ratio?
    ensures !SlopeTo(p, q).Ratio? ==> SlopeTo(p, q) == SlopeTo(q, p)
  {
  }
}
