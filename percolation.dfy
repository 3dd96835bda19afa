/**
 * The percolation grid of `percolation/Percolation.java`: an N-by-N grid of
 * sites addressed by 1-based `(y, x)` coordinates and stored row-major in two
 * flat boolean arrays, `sites` (open) and `fulls` (full). Opening a site makes
 * it full when it lies in the top row or touches a full site, and fullness is
 * then spread by a recursive flood fill through open sites.
 */
module Percolations {
  import opened Wrappers

  /**
   * `isValidCoords(y, x)`: both coordinates lie in `1..n`, so the site has
   * an index in `0 .. n*n - 1`.
   */
  function ValidCoords(n: int, y: int, x: int): (ok: bool)
    ensures ok ==> 0 <= Cell(n, y, x) < n * n
  {
    if x > 0 && x <= n && y > 0 && y <= n then
      MulMono(n, y - 1, n - 1);
      true
    else
      false
  }

  /** The 0-based array index of site `(y, x)`: `xyTo1D(y, x) - 1`. */
  function Cell(n: int, y: int, x: int): int
  {
    n * (y - 1) + x - 1
  }

  lemma MulMono(n: int, a: int, b: int)
    requires 0 <= n && 0 <= a <= b
    ensures 0 <= n * a <= n * b
  {
  }

  /** Distinct sites have distinct indices. */
  lemma CellInjective(n: int, y: int, x: int, y': int, x': int)
    requires ValidCoords(n, y, x) && ValidCoords(n, y', x')
    requires Cell(n, y, x) == Cell(n, y', x')
    ensures y == y' && x == x'
  {
    if y < y' {
      RowGap(n, y, y');
    } else if y' < y {
      RowGap(n, y', y);
    }
  }

  /** A later row starts at least a whole row further on. */
  lemma RowGap(n: int, y: int, y': int)
    requires 0 <= n && 1 <= y < y'
    ensures n * (y' - 1) >= n * (y - 1) + n
  {
    assert n * (y' - 1) == n * (y - 1) + n * (y' - y);
    MulMono(n, 1, y' - y);
  }

  /** The flag of site `(y, x)` in the flat array `s` (false off the grid). */
  predicate At(n: int, s: seq<bool>, y: int, x: int)
  {
    ValidCoords(n, y, x) && 0 <= Cell(n, y, x) < |s| && s[Cell(n, y, x)]
  }

  /** Each open orthogonal neighbour of `(y, x)` is full. */
  predicate FilledAround(n: int, open: seq<bool>, full: seq<bool>, y: int, x: int)
  {
    && (At(n, open, y - 1, x) ==> At(n, full, y - 1, x))
    && (At(n, open, y + 1, x) ==> At(n, full, y + 1, x))
    && (At(n, open, y, x - 1) ==> At(n, full, y, x - 1))
    && (At(n, open, y, x + 1) ==> At(n, full, y, x + 1))
  }

  /**
   * What a flood fill from `before` to `after` leaves behind: every site it
   * made full has all its open neighbours full.
   */
  ghost predicate Spread(n: int, open: seq<bool>, before: seq<bool>, after: seq<bool>)
  {
    forall y, x :: At(n, after, y, x) && !At(n, before, y, x) ==> FilledAround(n, open, after, y, x)
  }

  /** Fullness only grows. */
  ghost predicate Grows(before: seq<bool>, after: seq<bool>)
  {
    |before| == |after| && forall k :: 0 <= k < |before| && before[k] ==> after[k]
  }

  /** Two fills in a row spread as one. */
  lemma SpreadTrans(n: int, open: seq<bool>, a: seq<bool>, b: seq<bool>, c: seq<bool>)
    requires Spread(n, open, a, b) && Spread(n, open, b, c) && Grows(b, c)
    ensures Spread(n, open, a, c)
  {
    forall y, x | At(n, c, y, x) && !At(n, a, y, x)
      ensures FilledAround(n, open, c, y, x)
    {
      if At(n, b, y, x) {
        assert FilledAround(n, open, b, y, x);
      }
    }
  }

  /**
   * A fill that marks its start and then spreads from there, with every open
   * neighbour of the start full at the end, spreads from before the start was
   * marked.
   */
  lemma SpreadFromStart(n: int, open: seq<bool>, f0: seq<bool>, f1: seq<bool>, f: seq<bool>, y: int, x: int)
    requires ValidCoords(n, y, x) && 0 <= Cell(n, y, x) < |f0|
    requires f1 == f0[Cell(n, y, x) := true]
    requires Spread(n, open, f1, f) && FilledAround(n, open, f, y, x)
    ensures Spread(n, open, f0, f)
  {
    forall y', x' | At(n, f, y', x') && !At(n, f0, y', x')
      ensures FilledAround(n, open, f, y', x')
    {
      if y' != y || x' != x {
        if At(n, f1, y', x') {
          CellInjective(n, y, x, y', x');
        }
      }
    }
  }

  /**
   * Two sites are orthogonal neighbours.
   */
  predicate Adjacent(a: (int, int), b: (int, int))
  {
    (a.0 == b.0 && (a.1 == b.1 + 1 || a.1 + 1 == b.1)) ||
    (a.1 == b.1 && (a.0 == b.0 + 1 || a.0 + 1 == b.0))
  }

  /**
   * A walk from site to neighbouring site through open sites that were not
   * already full before the fill.
   */
  ghost predicate OpenWalk(n: int, open: seq<bool>, before: seq<bool>, p: seq<(int, int)>)
  {
    && (forall k :: 0 <= k < |p| ==> At(n, open, p[k].0, p[k].1) && !At(n, before, p[k].0, p[k].1))
    && (forall k :: 0 < k < |p| ==> Adjacent(p[k - 1], p[k]))
  }

  /**
   * What the fill reaches: when its start ends up full and it spreads, every
   * site at the end of an open walk from the start through sites that were
   * not already full is full.
   */
  lemma {:induction false} FillReaches(n: int, open: seq<bool>, before: seq<bool>, after: seq<bool>, p: seq<(int, int)>)
    requires |p| > 0 && OpenWalk(n, open, before, p)
    requires At(n, after, p[0].0, p[0].1) && Spread(n, open, before, after)
    ensures At(n, after, p[|p| - 1].0, p[|p| - 1].1)
  {
    if |p| > 1 {
      var q := p[..|p| - 1];
      assert OpenWalk(n, open, before, q);
      FillReaches(n, open, before, after, q);
      var a, b := p[|p| - 2], p[|p| - 1];
      assert FilledAround(n, open, after, a.0, a.1);
    }
  }

  /**
   * Site `(y', x')` is the end of an open walk from `(y, x)` through sites
   * that were not full before the fill.
   */
  ghost predicate WalkFrom(n: int, open: seq<bool>, before: seq<bool>, y: int, x: int, y': int, x': int)
  {
    exists p :: |p| > 0 && p[0] == (y, x) && p[|p| - 1] == (y', x') && OpenWalk(n, open, before, p)
  }

  /**
   * What a fill from `(y, x)` may reach: every site it made full ends an
   * open walk from `(y, x)` through sites that were not full before it.
   */
  ghost predicate Confined(n: int, open: seq<bool>, before: seq<bool>, after: seq<bool>, y: int, x: int)
  {
    forall y', x' :: At(n, after, y', x') && !At(n, before, y', x') ==> WalkFrom(n, open, before, y, x, y', x')
  }

  /** Marking an open site that was not full fills only that site, the end of a one-site walk. */
  lemma ConfinedStart(n: int, open: seq<bool>, f0: seq<bool>, f1: seq<bool>, y: int, x: int)
    requires At(n, open, y, x) && !At(n, f0, y, x) && 0 <= Cell(n, y, x) < |f0|
    requires f1 == f0[Cell(n, y, x) := true]
    ensures Confined(n, open, f0, f1, y, x)
  {
    forall y', x' | At(n, f1, y', x') && !At(n, f0, y', x')
      ensures WalkFrom(n, open, f0, y, x, y', x')
    {
      CellInjective(n, y, x, y', x');
      assert OpenWalk(n, open, f0, [(y, x)]);
    }
  }

  /**
   * A fill from `(y, x)` followed by one from its neighbour `(y2, x2)` is
   * still confined to walks from `(y, x)`: the neighbour's walks start one
   * step away and avoid everything full after the first fill.
   */
  lemma ConfinedExtend(n: int, open: seq<bool>, f0: seq<bool>, fa: seq<bool>, fb: seq<bool>,
                       y: int, x: int, y2: int, x2: int)
    requires Confined(n, open, f0, fa, y, x) && Confined(n, open, fa, fb, y2, x2) && Grows(f0, fa)
    requires At(n, open, y, x) && !At(n, f0, y, x) && Adjacent((y, x), (y2, x2))
    ensures Confined(n, open, f0, fb, y, x)
  {
    forall y', x' | At(n, fb, y', x') && !At(n, f0, y', x')
      ensures WalkFrom(n, open, f0, y, x, y', x')
    {
      if !At(n, fa, y', x') {
        var p :| |p| > 0 && p[0] == (y2, x2) && p[|p| - 1] == (y', x') && OpenWalk(n, open, fa, p);
        var q := [(y, x)] + p;
        forall k | 0 <= k < |q|
          ensures At(n, open, q[k].0, q[k].1) && !At(n, f0, q[k].0, q[k].1)
        {
          if k > 0 {
            assert q[k] == p[k - 1];
          }
        }
        assert OpenWalk(n, open, f0, q);
      }
    }
  }

  /**
   * A fill from a start that ends up full, that spreads and is confined,
   * makes full exactly the ends of the open walks from the start through
   * sites that were not full before.
   */
  lemma FillExact(n: int, open: seq<bool>, before: seq<bool>, after: seq<bool>, y: int, x: int)
    requires At(n, after, y, x) && Spread(n, open, before, after) && Confined(n, open, before, after, y, x)
    ensures forall y', x' :: At(n, after, y', x') && !At(n, before, y', x') <==>
      WalkFrom(n, open, before, y, x, y', x')
  {
    forall y', x' | WalkFrom(n, open, before, y, x, y', x')
      ensures At(n, after, y', x') && !At(n, before, y', x')
    {
      var p :| |p| > 0 && p[0] == (y, x) && p[|p| - 1] == (y', x') && OpenWalk(n, open, before, p);
      FillReaches(n, open, before, after, p);
    }
  }

  class Percolation {
    const size: int
    var sites: array<bool>
    var fulls: array<bool>

    /**
     * The arrays have one flag per site, are distinct, and every full site is
     * open.
     */
    ghost predicate Valid()
      reads this, sites, fulls
    {
      && size >= 1
      && sites.Length == size * size && fulls.Length == sites.Length
      && sites != fulls
      && forall k :: 0 <= k < fulls.Length && fulls[k] ==> sites[k]
    }

    /** The sites that are open and not yet full: what the flood fill can still reach. */
    ghost function Unfilled(): set<int>
      reads this, sites, fulls
    {
      set k | 0 <= k < sites.Length && k < fulls.Length && sites[k] && !fulls[k]
    }

    /** `new Percolation(N)` for `N >= 1`: every site blocked and not full. */
    constructor (n: int)
      requires n >= 1
      ensures Valid() && fresh(sites) && fresh(fulls) && size == n
      ensures forall k :: 0 <= k < sites.Length ==> !sites[k] && !fulls[k]
    {
      size := n;
      sites := new bool[n * n](_ => false);
      fulls := new bool[n * n](_ => false);
    }

    /**
     * `new Percolation(N)` with its argument check: `N < 1` throws
     * `IllegalArgumentException`; otherwise every site starts blocked and not full.
     */
    static method Create(n: int) returns (r: Result<Percolation>)
      ensures r.Err? <==> n < 1
      ensures r.Err? ==> r.error == IllegalArgument
      ensures r.Ok? ==> fresh(r.value) && fresh(r.value.sites) && fresh(r.value.fulls)
      ensures r.Ok? ==> r.value.Valid() && r.value.size == n
      ensures r.Ok? ==> forall k :: 0 <= k < r.value.sites.Length ==> !r.value.sites[k] && !r.value.fulls[k]
    {
      if n < 1 {
        r := Err(IllegalArgument);
      } else {
        var p := new Percolation(n);
        r := Ok(p);
      }
    }

    /**
     * `xyTo1D(y, x)`: the 1-based index `N*(y-1) + x` of a site, in `1 .. N*N`;
     * coordinates off the grid throw `IndexOutOfBoundsException`.
     */
    function XyTo1D(y: int, x: int): (r: Result<int>)
      requires size >= 1
      ensures r.Ok? <==> ValidCoords(size, y, x)
      ensures r.Err? ==> r.error == IndexOutOfBounds
      ensures r.Ok? ==> 1 <= r.value <= size * size && r.value == Cell(size, y, x) + 1
    {
      if !ValidCoords(size, y, x) then Err(IndexOutOfBounds)
      else
        Ok(size * (y - 1) + x)
    }

    /** `isOpen(y, x)`: the open flag of the site, or the exception of `xyTo1D`. */
    function IsOpen(y: int, x: int): (r: Result<bool>)
      reads this, sites, fulls
      requires Valid()
      ensures r.Ok? <==> ValidCoords(size, y, x)
      ensures r.Err? ==> r.error == IndexOutOfBounds
      ensures r.Ok? ==> r.value == At(size, sites[..], y, x)
    {
      match XyTo1D(y, x)
      case Err(e) => Err(e)
      case Ok(i) => Ok(sites[i - 1])
    }

    /** `isFull(y, x)`: the full flag of the site, or the exception of `xyTo1D`. */
    function IsFull(y: int, x: int): (r: Result<bool>)
      reads this, sites, fulls
      requires Valid()
      ensures r.Ok? <==> ValidCoords(size, y, x)
      ensures r.Err? ==> r.error == IndexOutOfBounds
      ensures r.Ok? ==> r.value == At(size, fulls[..], y, x)
      ensures r == Ok(true) ==> IsOpen(y, x) == Ok(true)
    {
      match XyTo1D(y, x)
      case Err(e) => Err(e)
      case Ok(i) => Ok(fulls[i - 1])
    }

    /**
     * `propagateFullness(y, x)`, called on an open site that is not full yet:
     * the site becomes full and the fill goes on up, down, left and right.
     * No site is emptied, only open sites are filled, and every site filled
     * has all its open neighbours full.
     */
    method PropagateFullness(y: int, x: int)
      requires Valid() && ValidCoords(size, y, x)
      requires At(size, sites[..], y, x) && !At(size, fulls[..], y, x)
      modifies fulls
      ensures Valid()
      ensures At(size, fulls[..], y, x)
      ensures Grows(old(fulls[..]), fulls[..])
      ensures Spread(size, sites[..], old(fulls[..]), fulls[..])
      ensures Confined(size, sites[..], old(fulls[..]), fulls[..], y, x)
      decreases Unfilled(), 0
    {
      var i := Cell(size, y, x);
      ghost var f0 := fulls[..];
      fulls[i] := true;
      ghost var f1 := fulls[..];
      assert Unfilled() < old(Unfilled()) by {
        assert i in old(Unfilled()) && i !in Unfilled();
      }
      ConfinedStart(size, sites[..], f0, f1, y, x);
      VisitAround(y, x, f0);
      SpreadFromStart(size, sites[..], f0, f1, fulls[..], y, x);
    }

    /**
     * The four guarded calls that end `propagateFullness`, upwards,
     * downwards, leftwards and rightwards from the site `(y, x)` it has just
     * filled, which was not full in `f0`. Afterwards every open neighbour is
     * full, and the fill since `f0` is still confined to walks from `(y, x)`.
     */
    method VisitAround(y: int, x: int, ghost f0: seq<bool>)
      requires Valid() && At(size, sites[..], y, x) && !At(size, f0, y, x)
      requires Grows(f0, fulls[..]) && Confined(size, sites[..], f0, fulls[..], y, x)
      modifies fulls
      ensures Valid()
      ensures Grows(old(fulls[..]), fulls[..])
      ensures Spread(size, sites[..], old(fulls[..]), fulls[..])
      ensures FilledAround(size, sites[..], fulls[..], y, x)
      ensures Confined(size, sites[..], f0, fulls[..], y, x)
      decreases Unfilled(), 3
    {
      ghost var f1 := fulls[..];
      VisitNext(y, x, y - 1, x, f0, f1);
      VisitNext(y, x, y + 1, x, f0, f1);
      VisitNext(y, x, y, x - 1, f0, f1);
      VisitNext(y, x, y, x + 1, f0, f1);
    }

    /**
     * One guarded call from the filled site `(y, x)` to its neighbour
     * `(y2, x2)`: the fill since `f1` still spreads, and the fill since `f0`
     * is still confined to walks from `(y, x)`.
     */
    method VisitNext(y: int, x: int, y2: int, x2: int, ghost f0: seq<bool>, ghost f1: seq<bool>)
      requires Valid() && At(size, sites[..], y, x) && !At(size, f0, y, x) && Adjacent((y, x), (y2, x2))
      requires Grows(f0, fulls[..]) && Confined(size, sites[..], f0, fulls[..], y, x)
      requires Grows(f1, fulls[..]) && Spread(size, sites[..], f1, fulls[..])
      modifies fulls
      ensures Valid()
      ensures Grows(old(fulls[..]), fulls[..]) && Grows(f0, fulls[..]) && Grows(f1, fulls[..])
      ensures Spread(size, sites[..], f1, fulls[..])
      ensures At(size, sites[..], y2, x2) ==> At(size, fulls[..], y2, x2)
      ensures Confined(size, sites[..], f0, fulls[..], y, x)
      decreases Unfilled(), 2
    {
      ghost var fa := fulls[..];
      Visit(y2, x2);
      SpreadTrans(size, sites[..], f1, fa, fulls[..]);
      ConfinedExtend(size, sites[..], f0, fa, fulls[..], y, x, y2, x2);
    }

    /**
     * One of the four guarded calls of `propagateFullness`: when `(y, x)` is
     * on the grid, open and not full, the fill continues there.
     */
    method Visit(y: int, x: int)
      requires Valid()
      modifies fulls
      ensures Valid()
      ensures Grows(old(fulls[..]), fulls[..])
      ensures Spread(size, sites[..], old(fulls[..]), fulls[..])
      ensures At(size, sites[..], y, x) ==> At(size, fulls[..], y, x)
      ensures Confined(size, sites[..], old(fulls[..]), fulls[..], y, x)
      decreases Unfilled(), 1
    {
      if ValidCoords(size, y, x) && IsOpen(y, x) == Ok(true) && IsFull(y, x) == Ok(false) {
        PropagateFullness(y, x);
      }
    }

    /**
     * The tests `open(y, x)` makes on a site it has just opened: the site is
     * full when it is in the top row, or when the site above, below, to the
     * left or to the right is on the grid, open and full. Nothing changes.
     */
    method TouchesFull(y: int, x: int) returns (full: bool)
      requires Valid()
      ensures full <==> StartsFull(size, sites[..], fulls[..], y, x)
    {
      full := false;
      // Row 1 touches the top of the grid.
      if y == 1 {
        full := true;
      }
      if ValidCoords(size, y - 1, x) && IsOpen(y - 1, x) == Ok(true) {
        if !full && IsFull(y - 1, x) == Ok(true) {
          full := true;
        }
      }
      if ValidCoords(size, y + 1, x) && IsOpen(y + 1, x) == Ok(true) {
        if !full && IsFull(y + 1, x) == Ok(true) {
          full := true;
        }
      }
      if ValidCoords(size, y, x - 1) && IsOpen(y, x - 1) == Ok(true) {
        if !full && IsFull(y, x - 1) == Ok(true) {
          full := true;
        }
      }
      if ValidCoords(size, y, x + 1) && IsOpen(y, x + 1) == Ok(true) {
        if !full && IsFull(y, x + 1) == Ok(true) {
          full := true;
        }
      }
    }

    /**
     * `open(y, x)`: off-grid coordinates throw `IndexOutOfBoundsException`; an
     * open site is left as it is. Otherwise the site opens, and it is full when
     * it is in the top row or an open neighbour (up, down, left, right) is
     * full; a full new site spreads its fullness. The union-find updates are
     * not modelled.
     */
    method Open(y: int, x: int) returns (s: Status)
      requires Valid()
      modifies sites, fulls
      ensures Valid()
      ensures !ValidCoords(size, y, x) ==>
        s == Failure(IndexOutOfBounds) && sites[..] == old(sites[..]) && fulls[..] == old(fulls[..])
      ensures ValidCoords(size, y, x) ==> s == Success && sites[..] == old(sites[..])[Cell(size, y, x) := true]
      ensures ValidCoords(size, y, x) && old(At(size, sites[..], y, x)) ==> fulls[..] == old(fulls[..])
      ensures ValidCoords(size, y, x) && !old(At(size, sites[..], y, x)) ==>
        && Grows(old(fulls[..]), fulls[..])
        && (At(size, fulls[..], y, x) <==> StartsFull(size, sites[..], old(fulls[..]), y, x))
        && (!StartsFull(size, sites[..], old(fulls[..]), y, x) ==> fulls[..] == old(fulls[..]))
        && Spread(size, sites[..], old(fulls[..]), fulls[..])
        && Confined(size, sites[..], old(fulls[..]), fulls[..], y, x)
    {
      var r := IsOpen(y, x);
      if r.Err? {
        s := Failure(r.error);
      } else if r.value {
        s := Success;
      } else {
        var i := Cell(size, y, x);
        // Open the site; whether it is full is decided next.
        sites[i] := true;
        var full := TouchesFull(y, x);
        if full {
          PropagateFullness(y, x);
        }
        s := Success;
      }
    }
  }

  /**
   * When a newly opened site `(y, x)` is full: it is in the top row, or one of
   * its open neighbours is full.
   */
  predicate StartsFull(n: int, open: seq<bool>, full: seq<bool>, y: int, x: int)
  {
    || y == 1
    || (At(n, open, y - 1, x) && At(n, full, y - 1, x))
    || (At(n, open, y + 1, x) && At(n, full, y + 1, x))
    || (At(n, open, y, x - 1) && At(n, full, y, x - 1))
    || (At(n, open, y, x + 1) && At(n, full, y, x + 1))
  }
}
