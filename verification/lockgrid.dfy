/**
 * The Lockgrid module object: its sixteen-cell arrays and flags, updated in
 * place by Press, Reset and one pass of the puzzle generator. Each method is
 * proved against the value-level step functions of the Session and
 * Generation modules.
 */
module Lockgrid {
  import opened Grid
  import opened Session
  import opened Generation

  class Lockgrid {
    var pressed: array<bool>
    var initGrid: array<ArrowDir>
    var dispGrid: array<ArrowDir>
    var queues: array<int>
    var prevPress: int
    var resetting: bool
    var moduleSolved: bool

    /** Every array holds one entry per cell, the two grids are distinct arrays, and the session is consistent. */
    ghost predicate Valid()
      reads this, pressed, dispGrid
    {
      && pressed.Length == 16 && initGrid.Length == 16 && dispGrid.Length == 16 && queues.Length == 16
      && initGrid != dispGrid
      && Consistent(State())
    }

    /** The session the fields dispGrid, pressed, prevPress and moduleSolved hold. */
    ghost function State(): SessionState
      reads this, dispGrid, pressed
    {
      SessionState(dispGrid[..], pressed[..], prevPress, moduleSolved)
    }

    /**
     * The field initialisers followed by Start: the generated grid becomes
     * initGrid and a copy of it is put on display.
     */
    constructor (generated: seq<ArrowDir>)
      requires |generated| == 16
      ensures Valid() && !resetting
      ensures fresh(pressed) && fresh(initGrid) && fresh(dispGrid) && fresh(queues)
      ensures initGrid[..] == generated && State() == Initial(generated)
      ensures forall i :: 0 <= i < 16 ==> queues[i] == 0
    {
      pressed := new bool[16](_ => false);
      initGrid := new ArrowDir[16](i => if 0 <= i < 16 then generated[i] else Up);
      dispGrid := new ArrowDir[16](i => if 0 <= i < 16 then generated[i] else Up);
      queues := new int[16](_ => 0);
      prevPress := -1;
      resetting := false;
      moduleSolved := false;
      new;
      assert initGrid[..] == generated;
      assert dispGrid[..] == generated;
      assert pressed[..] == seq(16, _ => false);
    }

    /**
     * Pressing arrow ix: does to the fields exactly what Session.Press says,
     * returning the strike, pass or new direction in place of the calls to
     * HandleStrike and HandlePass. An accepted press also queues one more
     * quarter turn of the arrow's animation.
     */
    method Press(ix: int) returns (outcome: Outcome)
      requires Valid() && 0 <= ix < 16
      modifies this`prevPress, this`moduleSolved, pressed, dispGrid, queues
      ensures Valid()
      ensures State() == Session.Press(old(State()), ix, resetting).next
      ensures outcome == Session.Press(old(State()), ix, resetting).outcome
      ensures queues[..] == if outcome.Turned? || outcome.Solved? then old(queues[..])[ix := old(queues[ix]) + 1] else old(queues[..])
    {
      PressKeepsConsistent(State(), ix, resetting);
      if moduleSolved || resetting {
        return Ignored;
      }
      if prevPress == ix {
        outcome := RepeatStrike;
      } else if IsSafe(ix, dispGrid[..]) {
        pressed[ix] := true;
        RotateValue(dispGrid, ix, 1);
        prevPress := ix;
        queues[ix] := queues[ix] + 1;
        if AllPressed(pressed[..]) {
          moduleSolved := true;
          outcome := Solved;
        } else {
          outcome := Turned(ix, dispGrid[ix]);
        }
      } else {
        UnsafeHasPointer(ix, dispGrid[..]);
        var pointer := FirstPointing(GetAdjacents(ix), dispGrid[..], ix);
        outcome := UnsafeStrike(pointer.value);
      }
    }

    /**
     * The state part of Reset, taken as one atomic step: nothing when solved;
     * otherwise queues[i] gets the number of clockwise quarter turns from the
     * displayed arrow back to the initial one, the initial grid returns to
     * the display, every pressed flag is cleared and prevPress becomes -1.
     */
    method Reset()
      requires Valid()
      modifies this`prevPress, dispGrid, pressed, queues
      ensures Valid()
      ensures State() == Session.Reset(old(State()), initGrid[..])
      ensures old(moduleSolved) ==> queues[..] == old(queues[..])
      ensures !old(moduleSolved) ==>
        forall i :: 0 <= i < 16 ==> queues[i] == ForwardSteps(old(dispGrid[i]), initGrid[i])
    {
      if moduleSolved {
        return;
      }
      prevPress := -1;
      for i := 0 to 16
        modifies dispGrid, pressed, queues
        invariant forall k :: 0 <= k < i ==>
          dispGrid[k] == initGrid[k] && !pressed[k] && queues[k] == ForwardSteps(old(dispGrid[k]), initGrid[k])
        invariant forall k :: i <= k < 16 ==> dispGrid[k] == old(dispGrid[k])
      {
        queues[i] := ForwardSteps(dispGrid[i], initGrid[i]);
        dispGrid[i] := initGrid[i];
        pressed[i] := false;
      }
      assert dispGrid[..] == initGrid[..];
      assert pressed[..] == seq(16, _ => false);
    }

    /**
     * One pass of the GeneratePuzzle loop body as written. `draw` is the
     * sixteen directions drawn at random, `touched` the generator's local
     * flags (line 72), `presses` its record and `pick` the random index
     * PickRandom uses. initGrid becomes the draw, then, unless the pass
     * restarts, the taken cell is appended to the record and its arrow is
     * turned back one step. The flags are read and never written.
     */
    method GeneratePass(draw: seq<ArrowDir>, touched: array<bool>, presses: seq<int>, pick: nat)
      returns (result: PassResult, presses': seq<int>)
      requires Valid() && |draw| == 16 && touched.Length == 16
      modifies initGrid
      ensures var p := PassAsWritten(draw, touched[..], presses, pick);
        result == p.result && presses' == p.presses && initGrid[..] == p.grid
      ensures touched[..] == old(touched[..])
      ensures Valid() && State() == old(State())
    {
      LoadDraw(draw);
      result := Choose(draw, touched[..], pick);
      presses' := presses;
      if result.Took? {
        presses' := presses + [result.cell];
        RotateValue(initGrid, result.cell, -1);
      }
    }

    /**
     * The pass as evidently intended: as GeneratePass, but the taken cell's
     * flag is also set, so that the loop test of line 90 can fail. The flags
     * are the generator's own array, never the session's.
     */
    method GeneratePassTracking(draw: seq<ArrowDir>, touched: array<bool>, presses: seq<int>, pick: nat)
      returns (result: PassResult, presses': seq<int>)
      requires Valid() && |draw| == 16 && touched.Length == 16 && touched != pressed
      modifies initGrid, touched
      ensures var p := PassTracking(draw, old(touched[..]), presses, pick);
        result == p.result && presses' == p.presses && initGrid[..] == p.grid && touched[..] == p.flags
      ensures Valid() && State() == old(State())
    {
      result, presses' := GeneratePass(draw, touched, presses, pick);
      if result.Took? {
        touched[result.cell] := true;
      }
    }

    /** The draw loop at the head of a pass: each cell of initGrid gets its drawn direction. */
    method LoadDraw(draw: seq<ArrowDir>)
      requires initGrid.Length == 16 && |draw| == 16
      modifies initGrid
      ensures initGrid[..] == draw
    {
      for i := 0 to 16
        invariant forall k :: 0 <= k < i ==> initGrid[k] == draw[k]
      {
        initGrid[i] := draw[i];
      }
    }
  }
  /**
   * A new module, one press and a reset: whatever the press did, the reset
   * brings back the session the module started with, because a single press
   * cannot solve it.
   */
  method PressThenReset(generated: seq<ArrowDir>, ix: int) returns (lg: Lockgrid, outcome: Outcome)
    requires |generated| == 16 && 0 <= ix < 16
    ensures lg.Valid() && lg.initGrid[..] == generated
    ensures lg.State() == Initial(generated)
  {
    lg := new Lockgrid(generated);
    outcome := lg.Press(ix);
    PressThenResetRestores(generated, ix, false);
    lg.Reset();
  }
}
