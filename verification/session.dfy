/**
 * The solving session as values: what one press of an arrow and one reset
 * do to the displayed grid, the pressed flags, the last accepted press and
 * the solved flag. The Lockgrid class keeps its arrays in step with these
 * functions.
 */
module Session {
  import opened Grid

  /** What a press reports: HandleStrike, HandlePass, or the arrow's new direction for the display. */
  datatype Outcome =
    | Ignored                          // solved or resetting: nothing happens
    | RepeatStrike                     // the arrow of the last accepted press again
    | UnsafeStrike(pointer: int)       // the arrow is pointed at by the arrow at `pointer`
    | Turned(cell: int, dir: ArrowDir) // accepted; that arrow now points `dir`
    | Solved                           // accepted, and now every arrow has been pressed

  /** The fields dispGrid, pressed, prevPress (-1 for none) and moduleSolved. */
  datatype SessionState = SessionState(grid: seq<ArrowDir>, pressed: seq<bool>, prevPress: int, solved: bool)

  datatype PressStep = PressStep(next: SessionState, outcome: Outcome)

  predicate WellFormed(s: SessionState)
  {
    |s.grid| == 16 && |s.pressed| == 16 && -1 <= s.prevPress < 16
  }

  /** `pressed.All(x => x)`: no flag is still false. */
  predicate AllPressed(pressed: seq<bool>): (r: bool)
    ensures r <==> false !in pressed
  {
    forall i :: 0 <= i < |pressed| ==> pressed[i]
  }

  /**
   * What every reachable session keeps: it is solved only once every arrow
   * has been pressed, and the last accepted arrow is marked pressed.
   */
  predicate Consistent(s: SessionState)
  {
    && WellFormed(s)
    && (s.solved ==> AllPressed(s.pressed))
    && (s.prevPress != -1 ==> s.pressed[s.prevPress])
  }

  /** The session Start sets up: the generated grid on display, nothing pressed, no previous press. */
  function Initial(init: seq<ArrowDir>): (s: SessionState)
    requires |init| == 16
    ensures Consistent(s) && !s.solved && s.grid == init
    ensures forall i :: 0 <= i < 16 ==> !s.pressed[i]
  {
    SessionState(init, seq(16, _ => false), -1, false)
  }

  /**
   * `Press(ix)`. Ignored while solved or resetting; a strike, changing
   * nothing, when ix is the last accepted press or is pointed at by a
   * neighbour; otherwise the arrow turns one step clockwise, is marked
   * pressed and becomes the last press, and the module is solved once every
   * arrow is pressed. The strike report names a neighbour that points at ix:
   * that lookup never fails.
   */
  function Press(s: SessionState, ix: int, resetting: bool): (r: PressStep)
    requires WellFormed(s) && 0 <= ix < 16
    ensures WellFormed(r.next)
    ensures r.outcome.Ignored? <==> s.solved || resetting
    ensures r.outcome.RepeatStrike? <==> !s.solved && !resetting && ix == s.prevPress
    ensures r.outcome.UnsafeStrike? <==> !s.solved && !resetting && ix != s.prevPress && !IsSafe(ix, s.grid)
    ensures r.outcome.UnsafeStrike? ==>
      0 <= r.outcome.pointer < 16 && Adjacent(ix, r.outcome.pointer) && PointsAt(s.grid, r.outcome.pointer, ix)
    ensures r.outcome.Ignored? || r.outcome.RepeatStrike? || r.outcome.UnsafeStrike? ==> r.next == s
  {
    if s.solved || resetting then PressStep(s, Ignored)
    else if s.prevPress == ix then PressStep(s, RepeatStrike)
    else if IsSafe(ix, s.grid) then
      var pressed := s.pressed[ix := true];
      var grid := s.grid[ix := Rotated(s.grid[ix], 1)];
      var solved := AllPressed(pressed);
      PressStep(SessionState(grid, pressed, ix, solved), if solved then Solved else Turned(ix, grid[ix]))
    else
      UnsafeHasPointer(ix, s.grid);
      PressStep(s, UnsafeStrike(FirstPointing(GetAdjacents(ix), s.grid, ix).value))
  }

  /**
   * An accepted press turns exactly its own arrow one step clockwise, marks
   * exactly that arrow pressed, becomes the last press, and solves the module
   * exactly when all sixteen arrows are now pressed.
   */
  lemma AcceptedPress(s: SessionState, ix: int)
    requires WellFormed(s) && 0 <= ix < 16
    requires !s.solved && ix != s.prevPress && IsSafe(ix, s.grid)
    ensures var r := Press(s, ix, false);
      && r.next.pressed[ix]
      && Ord(r.next.grid[ix]) == (Ord(s.grid[ix]) + 1) % 4
      && (forall j :: 0 <= j < 16 && j != ix ==> r.next.grid[j] == s.grid[j] && r.next.pressed[j] == s.pressed[j])
      && r.next.prevPress == ix
      && (r.next.solved <==> forall j :: 0 <= j < 16 ==> r.next.pressed[j])
      && (r.outcome.Solved? <==> r.next.solved)
      && (r.outcome.Turned? ==> r.outcome.cell == ix && r.outcome.dir == r.next.grid[ix])
  {
  }

  /** Every press keeps the session consistent. */
  lemma PressKeepsConsistent(s: SessionState, ix: int, resetting: bool)
    requires Consistent(s) && 0 <= ix < 16
    ensures Consistent(Press(s, ix, resetting).next)
  {
  }

  /** No press ever clears a pressed flag. */
  lemma PressNeverUnpresses(s: SessionState, ix: int, resetting: bool)
    requires WellFormed(s) && 0 <= ix < 16
    ensures forall j :: 0 <= j < 16 && s.pressed[j] ==> Press(s, ix, resetting).next.pressed[j]
  {
  }

  /**
   * Pressing the same arrow twice in a row: if the first press is accepted
   * and does not solve the module, the second is a strike whatever the grid.
   */
  lemma PressTwiceIsStrike(s: SessionState, ix: int)
    requires WellFormed(s) && 0 <= ix < 16
    requires Press(s, ix, false).outcome.Turned?
    ensures Press(Press(s, ix, false).next, ix, false).outcome == RepeatStrike
  {
  }

  /**
   * One step of backward construction, replayed forwards: if cell c is safe
   * in grid g and its arrow is turned back one step, pressing c in that grid
   * is accepted and restores g exactly.
   */
  lemma UndoThenPress(s: SessionState, g: seq<ArrowDir>, c: int)
    requires WellFormed(s) && |g| == 16 && 0 <= c < 16
    requires IsSafe(c, g) && s.grid == g[c := Rotated(g[c], -1)]
    requires !s.solved && s.prevPress != c
    ensures var r := Press(s, c, false);
      (r.outcome.Turned? || r.outcome.Solved?) && r.next.grid == g && r.next.prevPress == c
  {
    var back := Rotated(g[c], -1);
    SafetyIgnoresOwnDirection(c, g, back);
    RotateUndo(g[c]);
    TurnBackRestores(g, c, back);
  }

  lemma TurnBackRestores(g: seq<ArrowDir>, c: int, back: ArrowDir)
    requires 0 <= c < |g| && Rotated(back, 1) == g[c]
    ensures var h := g[c := back]; h[c := Rotated(h[c], 1)] == g
  {
  }

  /**
   * The value Reset stores in `queues[i]`, `((int)to - (int)from + 4) % 4`
   * (the dividend is positive, so C#'s remainder and Dafny's agree): the
   * number of clockwise quarter turns, 0..3, that take `from` to `to`.
   */
  function ForwardSteps(from: ArrowDir, to: ArrowDir): (k: int)
    ensures 0 <= k < 4
  {
    (Ord(to) - Ord(from) + 4) % 4
  }

  /** Turning `from` clockwise ForwardSteps(from, to) times reaches `to`. */
  lemma ForwardStepsReach(from: ArrowDir, to: ArrowDir)
    ensures Rotated(from, ForwardSteps(from, to)) == to
  {
    ResidueStep(Ord(from), Ord(to), ForwardSteps(from, to));
    RotatedReaches(from, ForwardSteps(from, to), to);
  }

  lemma ResidueStep(a: int, b: int, j: int)
    requires 0 <= a < 4 && 0 <= b < 4 && 0 <= j < 4
    ensures (a + j) % 4 == b <==> j == (b - a + 4) % 4
  {
    if a <= b {
      assert (b - a + 4) % 4 == b - a;
    } else {
      assert (b - a + 4) % 4 == b - a + 4;
    }
  }

  /** ForwardSteps is the only count in 0..3 that takes `from` to `to`. */
  lemma ForwardStepsUnique(from: ArrowDir, to: ArrowDir, j: int)
    requires 0 <= j < 4 && Rotated(from, j) == to
    ensures j == ForwardSteps(from, to)
  {
    ResidueStep(Ord(from), Ord(to), j);
  }

  /**
   * The state part of `Reset`: nothing when solved; otherwise the initial
   * grid back on display, every pressed flag cleared and no previous press.
   */
  function Reset(s: SessionState, init: seq<ArrowDir>): (r: SessionState)
    requires WellFormed(s) && |init| == 16
    ensures WellFormed(r)
    ensures s.solved ==> r == s
    ensures !s.solved ==> r == Initial(init)
  {
    if s.solved then s
    else SessionState(init, seq(16, _ => false), -1, s.solved)
  }

  /** A single press on a fresh session cannot solve the module, so a reset after it restores the fresh session. */
  lemma PressThenResetRestores(init: seq<ArrowDir>, ix: int, resetting: bool)
    requires |init| == 16 && 0 <= ix < 16
    ensures !Press(Initial(init), ix, resetting).next.solved
    ensures Reset(Press(Initial(init), ix, resetting).next, init) == Initial(init)
  {
    var s := Initial(init);
    var j := if ix == 0 then 1 else 0;
    if !resetting && IsSafe(ix, s.grid) {
      AcceptedPress(s, ix);
      assert !Press(s, ix, resetting).next.pressed[j];
    }
  }

  /** Resetting twice in a row is the same as resetting once. */
  lemma ResetIdempotent(s: SessionState, init: seq<ArrowDir>)
    requires WellFormed(s) && |init| == 16
    ensures Reset(Reset(s, init), init) == Reset(s, init)
  {
  }

  /** Reset keeps the session consistent. */
  lemma ResetKeepsConsistent(s: SessionState, init: seq<ArrowDir>)
    requires Consistent(s) && |init| == 16
    ensures Consistent(Reset(s, init))
  {
  }
}
