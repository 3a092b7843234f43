/**
 * The Lockgrid board: sixteen arrows in a 4x4 grid, stored row-major
 * (cell = 4 * row + column), each pointing Up, Right, Down or Left.
 * This module holds the pure queries the puzzle is built from and the
 * one in-place mutation, RotateValue.
 */
module Grid {

  /** The four arrow directions; their ordinals 0..3 follow declaration order. */
  datatype ArrowDir = Up | Right | Down | Left

  datatype Option<T> = None | Some(value: T)

  /** The integer value of a direction, as in `(int)dir`. */
  function Ord(d: ArrowDir): (n: int)
    ensures 0 <= n < 4
  {
    match d
    case Up => 0
    case Right => 1
    case Down => 2
    case Left => 3
  }

  /** The direction with ordinal `n`, as in `(ArrowDir)n` for n in 0..3. */
  function FromOrd(n: int): (d: ArrowDir)
    requires 0 <= n < 4
    ensures Ord(d) == n
  {
    if n == 0 then Up else if n == 1 then Right else if n == 2 then Down else Left
  }

  lemma OrdInjective(d: ArrowDir, e: ArrowDir)
    requires Ord(d) == Ord(e)
    ensures d == e
  {
  }

  /**
   * C#'s `a % 4` on int: division truncates toward zero, so a nonzero
   * remainder takes the sign of the dividend. It agrees with the
   * mathematical residue modulo 4.
   */
  function CsRem4(a: int): (r: int)
    ensures a >= 0 ==> 0 <= r < 4
    ensures a < 0 ==> -4 < r <= 0
    ensures r % 4 == a % 4
  {
    if a >= 0 then a % 4 else -((-a) % 4)
  }

  /**
   * The direction `amount` quarter turns clockwise from `d` (counter-clockwise
   * for a negative amount), computed as `((d + amount) % 4 + 4) % 4` with
   * C#'s remainder: the stored ordinal is the residue of d + amount modulo 4,
   * so it lies in 0..3 even when amount is negative.
   */
  function Rotated(d: ArrowDir, amount: int): (r: ArrowDir)
    ensures Ord(r) == (Ord(d) + amount) % 4
  {
    FromOrd(CsRem4(CsRem4(Ord(d) + amount) + 4))
  }

  /** A turn whose ordinal arithmetic lands on e lands on e. */
  lemma RotatedReaches(d: ArrowDir, amount: int, e: ArrowDir)
    requires (Ord(d) + amount) % 4 == Ord(e)
    ensures Rotated(d, amount) == e
  {
    OrdInjective(Rotated(d, amount), e);
  }

  /** Rotation is an action of the integers: turning by a and then b is turning by a + b. */
  lemma RotatedCompose(d: ArrowDir, a: int, b: int)
    ensures Rotated(Rotated(d, a), b) == Rotated(d, a + b)
  {
    ResidueShift(Ord(d) + a, b);
    OrdInjective(Rotated(Rotated(d, a), b), Rotated(d, a + b));
  }

  /** Reducing modulo 4 before adding b does not change the residue of the sum. */
  lemma ResidueShift(x: int, b: int)
    ensures (x % 4 + b) % 4 == (x + b) % 4
  {
    var q := x / 4;
    assert x + b == (x % 4 + b) + 4 * q;
  }

  /** A whole number of full turns leaves an arrow where it was. */
  lemma RotatedFullTurns(d: ArrowDir, k: int)
    ensures Rotated(d, 4 * k) == d
  {
    assert (Ord(d) + 4 * k) % 4 == Ord(d);
    OrdInjective(Rotated(d, 4 * k), d);
  }

  /** A turn by -1 exactly undoes a turn by +1, and the other way round. */
  lemma RotateUndo(d: ArrowDir)
    ensures Rotated(Rotated(d, 1), -1) == d
    ensures Rotated(Rotated(d, -1), 1) == d
  {
    RotatedCompose(d, 1, -1);
    RotatedCompose(d, -1, 1);
    RotatedFullTurns(d, 0);
  }

  /** Four single forward turns bring an arrow back to where it started. */
  lemma RotateFourTimes(d: ArrowDir)
    ensures Rotated(Rotated(Rotated(Rotated(d, 1), 1), 1), 1) == d
  {
    RotatedCompose(d, 1, 1);
    RotatedCompose(d, 2, 1);
    RotatedCompose(d, 3, 1);
    RotatedFullTurns(d, 1);
  }

  /** `grid[ix] = (ArrowDir)((((int)grid[ix] + amount) % 4 + 4) % 4)`: only cell ix changes. */
  method RotateValue(grid: array<ArrowDir>, ix: int, amount: int)
    requires 0 <= ix < grid.Length
    modifies grid
    ensures grid[..] == old(grid[..])[ix := Rotated(old(grid[ix]), amount)]
  {
    grid[ix] := Rotated(grid[ix], amount);
  }

  // ---------------------------------------------------------------------
  // Geometry of the 4x4 board

  function Row(p: int): int { p / 4 }

  function Col(p: int): int { p % 4 }

  predicate OnBoard(row: int, col: int) { 0 <= row < 4 && 0 <= col < 4 }

  /** Row step of a direction: Up is towards row 0. */
  function DRow(d: ArrowDir): int
  {
    match d
    case Up => -1
    case Down => 1
    case _ => 0
  }

  /** Column step of a direction: Left is towards column 0. */
  function DCol(d: ArrowDir): int
  {
    match d
    case Right => 1
    case Left => -1
    case _ => 0
  }

  function Dist(x: int, y: int): int { if x <= y then y - x else x - y }

  /** Two cells are orthogonal neighbours when they are one row or one column apart. */
  predicate Adjacent(a: int, b: int)
    requires 0 <= a < 16 && 0 <= b < 16
  {
    Dist(Row(a), Row(b)) + Dist(Col(a), Col(b)) == 1
  }

  /**
   * The cell an arrow at `pos` pointing `dir` points at, or -1 when it points
   * off the edge of the board. Never the cell itself.
   */
  function GetPointed(pos: int, dir: ArrowDir): (r: int)
    requires 0 <= pos < 16
    ensures r == -1 || (0 <= r < 16 && r != pos)
  {
    match dir
    case Up => if pos < 4 then -1 else pos - 4
    case Right => if pos % 4 == 3 then -1 else pos + 1
    case Down => if pos >= 12 then -1 else pos + 4
    case Left => if pos % 4 == 0 then -1 else pos - 1
  }

  /**
   * GetPointed is the step of one cell in the arrow's direction: -1 exactly
   * when that step leaves the board, and otherwise the cell one row and
   * column step away.
   */
  lemma PointedGeometry(pos: int, dir: ArrowDir)
    requires 0 <= pos < 16
    ensures var r := GetPointed(pos, dir);
      && (r == -1 <==> !OnBoard(Row(pos) + DRow(dir), Col(pos) + DCol(dir)))
      && (r != -1 ==> Row(r) == Row(pos) + DRow(dir) && Col(r) == Col(pos) + DCol(dir))
  {
  }

  /** -1 comes back exactly for Up on the top row, Right on the right column, Down on the bottom row and Left on the left column. */
  lemma PointsOffOnlyAtEdges(pos: int, dir: ArrowDir)
    requires 0 <= pos < 16
    ensures GetPointed(pos, dir) == -1 <==>
      (dir == Up && Row(pos) == 0) || (dir == Right && Col(pos) == 3) ||
      (dir == Down && Row(pos) == 3) || (dir == Left && Col(pos) == 0)
  {
  }

  /** A pointed-at cell is an orthogonal neighbour. */
  lemma PointedIsAdjacent(pos: int, dir: ArrowDir)
    requires 0 <= pos < 16 && GetPointed(pos, dir) != -1
    ensures Adjacent(pos, GetPointed(pos, dir))
  {
    PointedGeometry(pos, dir);
  }

  /** `Where(x => x != -1)`: keeps the entries that are not the off-board marker. */
  function DropMissing(xs: seq<int>): (r: seq<int>)
    ensures forall x :: x in r <==> x in xs && x != -1
    ensures |r| <= |xs|
  {
    if xs == [] then [] else (if xs[0] == -1 then [] else [xs[0]]) + DropMissing(xs[1..])
  }

  /** The filter works entry by entry, so it keeps the order of what it keeps. */
  lemma {:induction false} DropMissingAppend(a: seq<int>, b: seq<int>)
    ensures DropMissing(a + b) == DropMissing(a) + DropMissing(b)
    decreases |a|
  {
    if a == [] {
      assert a + b == b;
    } else {
      assert (a + b)[1..] == a[1..] + b;
      DropMissingAppend(a[1..], b);
    }
  }

  /**
   * `GetAdjacents`: the results of GetPointed for the four directions, in the
   * order Up, Right, Down, Left, with the off-board -1 results removed.
   */
  function GetAdjacents(pos: int): (r: seq<int>)
    requires 0 <= pos < 16
    ensures forall q :: q in r <==> q != -1 && exists d :: GetPointed(pos, d) == q
    ensures forall k :: 0 <= k < |r| ==> 0 <= r[k] < 16
    ensures r == DropMissing([GetPointed(pos, Up), GetPointed(pos, Right), GetPointed(pos, Down), GetPointed(pos, Left)])
  {
    var all := [GetPointed(pos, Up), GetPointed(pos, Right), GetPointed(pos, Down), GetPointed(pos, Left)];
    assert forall d :: GetPointed(pos, d) in all;
    var r := DropMissing(all);
    assert forall k :: 0 <= k < |r| ==> r[k] in r;
    r
  }

  /** Every neighbour of a cell is reached by one of the four directions. */
  lemma NeighbourHasDirection(pos: int, q: int)
    requires 0 <= pos < 16 && 0 <= q < 16 && Adjacent(pos, q)
    ensures exists d :: GetPointed(pos, d) == q
  {
    if Row(q) < Row(pos) {
      assert GetPointed(pos, Up) == q;
    } else if Row(q) > Row(pos) {
      assert GetPointed(pos, Down) == q;
    } else if Col(q) > Col(pos) {
      assert GetPointed(pos, Right) == q;
    } else {
      assert GetPointed(pos, Left) == q;
    }
  }

  /** The cells GetAdjacents returns are exactly the orthogonal neighbours on the board. */
  lemma AdjacentsAreNeighbours(pos: int, q: int)
    requires 0 <= pos < 16 && 0 <= q < 16
    ensures q in GetAdjacents(pos) <==> Adjacent(pos, q)
  {
    if Adjacent(pos, q) {
      NeighbourHasDirection(pos, q);
    }
    if q in GetAdjacents(pos) {
      var d :| GetPointed(pos, d) == q;
      PointedIsAdjacent(pos, d);
    }
  }

  /** Adjacency is symmetric: b is among a's neighbours iff a is among b's. */
  lemma AdjacencySymmetric(a: int, b: int)
    requires 0 <= a < 16 && 0 <= b < 16
    ensures b in GetAdjacents(a) <==> a in GetAdjacents(b)
  {
    AdjacentsAreNeighbours(a, b);
    AdjacentsAreNeighbours(b, a);
  }

  // ---------------------------------------------------------------------
  // Pointing and safety over a whole grid

  /** The arrow at cell p points at cell q. */
  predicate PointsAt(g: seq<ArrowDir>, p: int, q: int)
    requires |g| == 16 && 0 <= p < 16
  {
    GetPointed(p, g[p]) == q
  }

  /**
   * `IsSafe`: no neighbour of ix points at it. Equivalently, no cell of the
   * grid at all points at ix.
   */
  predicate IsSafe(ix: int, g: seq<ArrowDir>): (r: bool)
    requires 0 <= ix < 16 && |g| == 16
    ensures r <==> forall p :: 0 <= p < 16 ==> !PointsAt(g, p, ix)
  {
    var adj := GetAdjacents(ix);
    forall p | 0 <= p < 16 && PointsAt(g, p, ix)
      ensures p in adj
    {
      PointerIsNeighbour(ix, g, p);
    }
    !exists a :: a in adj && PointsAt(g, a, ix)
  }

  /** Whether a cell is safe does not depend on the cell's own direction. */
  lemma SafetyIgnoresOwnDirection(ix: int, g: seq<ArrowDir>, d: ArrowDir)
    requires 0 <= ix < 16 && |g| == 16
    ensures IsSafe(ix, g) <==> IsSafe(ix, g[ix := d])
  {
    var h := g[ix := d];
    forall p | 0 <= p < 16
      ensures PointsAt(g, p, ix) <==> PointsAt(h, p, ix)
    {
    }
  }

  /**
   * `xs.First(adj => GetPointed(adj, g[adj]) == ix)`: the first entry of xs
   * whose arrow points at ix; None where LINQ's First would throw.
   */
  function FirstPointing(xs: seq<int>, g: seq<ArrowDir>, ix: int): (r: Option<int>)
    requires |g| == 16
    requires forall k :: 0 <= k < |xs| ==> 0 <= xs[k] < 16
    ensures r.None? <==> forall k :: 0 <= k < |xs| ==> !PointsAt(g, xs[k], ix)
    ensures r.Some? ==> exists k :: 0 <= k < |xs| && xs[k] == r.value && PointsAt(g, r.value, ix) &&
                                   forall j :: 0 <= j < k ==> !PointsAt(g, xs[j], ix)
  {
    if xs == [] then None
    else if PointsAt(g, xs[0], ix) then Some(xs[0])
    else
      var rest := FirstPointing(xs[1..], g, ix);
      if rest.Some? then
        assert forall k :: 0 <= k < |xs| - 1 ==> xs[1..][k] == xs[k + 1];
        Some(rest.value)
      else None
  }

  /** Whatever points at ix is one of ix's neighbours. */
  lemma PointerIsNeighbour(ix: int, g: seq<ArrowDir>, p: int)
    requires 0 <= ix < 16 && |g| == 16 && 0 <= p < 16 && PointsAt(g, p, ix)
    ensures p in GetAdjacents(ix) && Adjacent(ix, p)
  {
    PointedIsAdjacent(p, g[p]);
    AdjacentsAreNeighbours(ix, p);
  }

  /** When a cell is unsafe, the lookup of a pointing neighbour succeeds and names a neighbour that points at it. */
  lemma UnsafeHasPointer(ix: int, g: seq<ArrowDir>)
    requires 0 <= ix < 16 && |g| == 16 && !IsSafe(ix, g)
    ensures FirstPointing(GetAdjacents(ix), g, ix).Some?
    ensures var p := FirstPointing(GetAdjacents(ix), g, ix).value;
      0 <= p < 16 && Adjacent(ix, p) && PointsAt(g, p, ix)
  {
    var adj := GetAdjacents(ix);
    var p :| 0 <= p < 16 && PointsAt(g, p, ix);
    PointerIsNeighbour(ix, g, p);
    var k :| 0 <= k < |adj| && adj[k] == p;
    var first := FirstPointing(adj, g, ix);
    var j :| 0 <= j < |adj| && adj[j] == first.value && PointsAt(g, first.value, ix);
    AdjacentsAreNeighbours(ix, first.value);
  }

  /** The lambda of `AnySelfPoints`: the arrow at pos points at a cell whose arrow points straight back at pos. */
  predicate PointedBack(g: seq<ArrowDir>, pos: int): (r: bool)
    requires |g| == 16 && 0 <= pos < 16
    ensures r <==> exists q :: 0 <= q < 16 && q != pos && PointsAt(g, pos, q) && PointsAt(g, q, pos)
  {
    var pointed := GetPointed(pos, g[pos]);
    assert pointed != -1 ==> PointsAt(g, pos, pointed);
    pointed != -1 && GetPointed(pointed, g[pointed]) == pos
  }

  /**
   * `AnySelfPoints`: some arrow points at a cell whose arrow points straight
   * back, i.e. two distinct cells point at each other.
   */
  predicate AnySelfPoints(g: seq<ArrowDir>): (r: bool)
    requires |g| == 16
    ensures r <==> exists p, q :: 0 <= p < 16 && 0 <= q < 16 && p != q && PointsAt(g, p, q) && PointsAt(g, q, p)
  {
    forall pos | 0 <= pos < 16 && PointedBack(g, pos)
      ensures exists p, q :: 0 <= p < 16 && 0 <= q < 16 && p != q && PointsAt(g, p, q) && PointsAt(g, q, p)
    {
      var q := GetPointed(pos, g[pos]);
      assert PointsAt(g, pos, q) && PointsAt(g, q, pos);
    }
    forall p, q | 0 <= p < 16 && 0 <= q < 16 && PointsAt(g, p, q) && PointsAt(g, q, p)
      ensures PointedBack(g, p)
    {
    }
    exists pos :: 0 <= pos < 16 && PointedBack(g, pos)
  }

  /** Cells 0 and 1 pointing Right and Left face each other, so such a grid has a mutual pair. */
  lemma FacingPairIsMutual(g: seq<ArrowDir>)
    requires |g| == 16 && g[0] == Right && g[1] == Left
    ensures AnySelfPoints(g)
  {
    assert PointsAt(g, 0, 1) && PointsAt(g, 1, 0);
  }
}
