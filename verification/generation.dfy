/**
 * The puzzle generator as values: the safe cells of a drawn grid, the cells
 * the random pick chooses among, one pass of the loop body (as written and
 * with the taken cell's flag set), runs of passes from the fresh start with
 * the restart and the do-while test, and the proofs that the loop as written
 * never exits while the corrected one exits exactly when every cell has been
 * recorded.
 */
module Generation {
  import opened Grid

  /** The cells below n that are safe in g, in increasing order. */
  function SafeBelow(g: seq<ArrowDir>, n: int): (r: seq<int>)
    requires |g| == 16 && 0 <= n <= 16
    ensures forall x :: x in r <==> 0 <= x < n && IsSafe(x, g)
    ensures forall i, j :: 0 <= i < j < |r| ==> r[i] < r[j]
    decreases n
  {
    if n == 0 then []
    else
      var below := SafeBelow(g, n - 1);
      var r := below + (if IsSafe(n - 1, g) then [n - 1] else []);
      assert forall i :: 0 <= i < |below| ==> below[i] in below;
      r
  }

  /** `Enumerable.Range(0, 16).Where(x => IsSafe(x, g))`: every safe cell, once each, in increasing order. */
  function SafeCells(g: seq<ArrowDir>): (r: seq<int>)
    requires |g| == 16
    ensures forall x :: x in r <==> 0 <= x < 16 && IsSafe(x, g)
    ensures forall i, j :: 0 <= i < j < |r| ==> r[i] < r[j]
  {
    SafeBelow(g, 16)
  }

  /** `safe.Where(x => !pressed[x])`: the entries of safe whose flag is still false. */
  function Untouched(safe: seq<int>, touched: seq<bool>): (r: seq<int>)
    requires |touched| == 16 && forall k :: 0 <= k < |safe| ==> 0 <= safe[k] < 16
    ensures forall x :: x in r <==> x in safe && !touched[x]
    ensures forall k :: 0 <= k < |r| ==> 0 <= r[k] < 16
  {
    if safe == [] then []
    else
      var rest := Untouched(safe[1..], touched);
      assert forall k :: 0 <= k < |safe| - 1 ==> safe[1..][k] == safe[k + 1];
      var r := (if touched[safe[0]] then [] else [safe[0]]) + rest;
      assert forall k :: 0 <= k < |r| ==> r[k] in r;
      r
  }

  /** No cell of g is safe: every arrow is pointed at by a neighbour, which is the `safe.Length == 0` test. */
  predicate NoSafeCell(g: seq<ArrowDir>): (r: bool)
    requires |g| == 16
    ensures r <==> forall x :: 0 <= x < 16 ==> !IsSafe(x, g)
  {
    var safe := SafeCells(g);
    assert safe != [] ==> safe[0] in safe;
    |safe| == 0
  }

  /** Some safe cell has not been taken yet. */
  predicate SomeSafeUntouched(g: seq<ArrowDir>, touched: seq<bool>)
    requires |g| == 16 && |touched| == 16
  {
    exists y :: 0 <= y < 16 && IsSafe(y, g) && !touched[y]
  }

  /**
   * The cells `PickRandom` chooses among: the safe cells not yet taken when
   * there are any, and otherwise every safe cell.
   */
  function Candidates(g: seq<ArrowDir>, touched: seq<bool>): (r: seq<int>)
    requires |g| == 16 && |touched| == 16
    ensures SomeSafeUntouched(g, touched) ==>
      forall x :: x in r <==> 0 <= x < 16 && IsSafe(x, g) && !touched[x]
    ensures !SomeSafeUntouched(g, touched) ==>
      forall x :: x in r <==> 0 <= x < 16 && IsSafe(x, g)
    ensures r == [] <==> NoSafeCell(g)
  {
    var safe := SafeCells(g);
    assert forall k :: 0 <= k < |safe| ==> safe[k] in safe;
    var untouched := Untouched(safe, touched);
    assert SomeSafeUntouched(g, touched) <==> untouched != [] by {
      if untouched != [] { assert untouched[0] in untouched; }
    }
    assert safe != [] ==> safe[0] in safe;
    if untouched != [] then untouched else safe
  }

  /** `pressed.Any(x => !x)`: the do-while goes round again while some flag is still false. */
  predicate LoopContinues(touched: seq<bool>): (r: bool)
    ensures r <==> false in touched
  {
    exists i :: 0 <= i < |touched| && !touched[i]
  }

  /** Every cell has been recorded at least once. */
  predicate Covered(presses: seq<int>)
  {
    forall c :: 0 <= c < 16 ==> c in presses
  }

  /** What one pass decides: start over, or the cell it took. */
  datatype PassResult = Restart | Took(cell: int)

  /**
   * Lines 77-86 on the drawn grid g: start over when two arrows point at
   * each other or when no cell is safe; otherwise `PickRandom` over the
   * candidates, the random index being `pick` reduced modulo their number.
   */
  function Choose(g: seq<ArrowDir>, touched: seq<bool>, pick: nat): (r: PassResult)
    requires |g| == 16 && |touched| == 16
    ensures r == Restart <==> AnySelfPoints(g) || NoSafeCell(g)
    ensures r.Took? ==> r.cell in Candidates(g, touched) && 0 <= r.cell < 16 && IsSafe(r.cell, g)
    ensures r.Took? && SomeSafeUntouched(g, touched) ==> !touched[r.cell]
  {
    if AnySelfPoints(g) then Restart
    else
      var candidates := Candidates(g, touched);
      if |candidates| == 0 then Restart
      else
        assert candidates[pick % |candidates|] in candidates;
        Took(candidates[pick % |candidates|])
  }

  /** The result of one pass: the decision, initGrid afterwards, the generator's flags and its record. */
  datatype Pass = Pass(result: PassResult, grid: seq<ArrowDir>, flags: seq<bool>, presses: seq<int>)

  /**
   * One pass of the loop body as written (lines 75-88): the grid is the
   * fresh draw, and a taken cell is appended to the record and turned back
   * one step. The flags are read but never written.
   */
  function PassAsWritten(draw: seq<ArrowDir>, flags: seq<bool>, presses: seq<int>, pick: nat): (p: Pass)
    requires |draw| == 16 && |flags| == 16
    ensures p.flags == flags && |p.grid| == 16
    ensures p.result == Choose(draw, flags, pick)
    ensures p.result == Restart ==> p.grid == draw && p.presses == presses
    ensures p.result.Took? ==>
      && p.presses == presses + [p.result.cell]
      && p.grid[p.result.cell] == Rotated(draw[p.result.cell], -1)
      && forall j :: 0 <= j < 16 && j != p.result.cell ==> p.grid[j] == draw[j]
  {
    var result := Choose(draw, flags, pick);
    if result == Restart then Pass(Restart, draw, flags, presses)
    else
      var c := result.cell;
      Pass(result, draw[c := Rotated(draw[c], -1)], flags, presses + [c])
  }

  /** The pass as evidently intended: as written, but the taken cell's flag is also set. */
  function PassTracking(draw: seq<ArrowDir>, flags: seq<bool>, presses: seq<int>, pick: nat): (p: Pass)
    requires |draw| == 16 && |flags| == 16
    ensures var q := PassAsWritten(draw, flags, presses, pick);
      && p.result == q.result && p.grid == q.grid && p.presses == q.presses
      && p.flags == if q.result.Took? then flags[q.result.cell := true] else flags
  {
    var p := PassAsWritten(draw, flags, presses, pick);
    if p.result.Took? then p.(flags := flags[p.result.cell := true]) else p
  }

  /** The generator between passes: its flags, its record, and whether the do-while has been left. */
  datatype GenState = GenState(flags: seq<bool>, presses: seq<int>, exited: bool)

  /** Lines 71-72, reached at the start and on every `goto Restart`: an empty record and sixteen false flags. */
  function Fresh(): (s: GenState)
    ensures |s.flags| == 16 && s.presses == [] && !s.exited
    ensures forall i :: 0 <= i < 16 ==> !s.flags[i]
  {
    GenState(seq(16, _ => false), [], false)
  }

  /**
   * One trip round the loop: a pass (as written, or tracking when `tracking`),
   * then either a restart from Fresh, or the loop test of line 90. Once the
   * loop has been left nothing changes.
   */
  function Step(s: GenState, draw: seq<ArrowDir>, pick: nat, tracking: bool): (r: GenState)
    requires |s.flags| == 16 && |draw| == 16
    ensures |r.flags| == 16
    ensures s.exited ==> r == s
    ensures !s.exited && Choose(draw, s.flags, pick) == Restart ==> r == Fresh()
    ensures !s.exited && Choose(draw, s.flags, pick).Took? ==>
      var c := Choose(draw, s.flags, pick).cell;
      && r.presses == s.presses + [c]
      && r.flags == (if tracking then s.flags[c := true] else s.flags)
      && r.exited == !LoopContinues(r.flags)
    ensures |r.presses| <= |s.presses| + 1
  {
    if s.exited then s
    else
      var p := if tracking then PassTracking(draw, s.flags, s.presses, pick)
               else PassAsWritten(draw, s.flags, s.presses, pick);
      if p.result == Restart then Fresh()
      else GenState(p.flags, p.presses, !LoopContinues(p.flags))
  }

  predicate DrawsWellFormed(draws: seq<seq<ArrowDir>>, picks: seq<nat>)
  {
    |picks| == |draws| && forall i :: 0 <= i < |draws| ==> |draws[i]| == 16
  }

  /** The generator after one pass per entry of draws (and of picks), starting from Fresh. */
  function Run(draws: seq<seq<ArrowDir>>, picks: seq<nat>, tracking: bool): (r: GenState)
    requires DrawsWellFormed(draws, picks)
    ensures |r.flags| == 16
    ensures draws == [] ==> r == Fresh()
    ensures |r.presses| <= |draws|
    decreases |draws|
  {
    if draws == [] then Fresh()
    else
      var n := |draws| - 1;
      Step(Run(draws[..n], picks[..n], tracking), draws[n], picks[n], tracking)
  }

  /**
   * As written, whatever is drawn and picked, the flags stay all false after
   * every pass, so the loop test of line 90 always holds and the loop is
   * never left.
   */
  lemma {:induction false} AsWrittenNeverExits(draws: seq<seq<ArrowDir>>, picks: seq<nat>)
    requires DrawsWellFormed(draws, picks)
    ensures var r := Run(draws, picks, false);
      r.flags == Fresh().flags && !r.exited && LoopContinues(r.flags)
  {
    if draws != [] {
      var n := |draws| - 1;
      AsWrittenNeverExits(draws[..n], picks[..n]);
    }
    assert !Fresh().flags[0];
  }

  /** A draw in which cell c is safe and no two arrows face each other: all Up, except that the arrow below c points sideways. */
  function FreeingDraw(c: int): (g: seq<ArrowDir>)
    ensures |g| == 16
  {
    var up := seq(16, _ => Up);
    if 0 <= c < 12 then up[c + 4 := if c % 4 < 3 then Right else Left] else up
  }

  lemma FreeingDrawFreesCell(c: int)
    requires 0 <= c < 16
    ensures !AnySelfPoints(FreeingDraw(c)) && IsSafe(c, FreeingDraw(c))
  {
    var g := FreeingDraw(c);
    forall p, q | 0 <= p < 16 && 0 <= q < 16 && PointsAt(g, p, q)
      ensures !PointsAt(g, q, p)
    {
      if g[p] == Up {
        assert q == p - 4 && g[q] != Down;
      } else {
        assert g[q] == Up && q != p + 4;
      }
    }
    forall p | 0 <= p < 16
      ensures !PointsAt(g, p, c)
    {
      if g[p] != Up {
        assert p == c + 4;
      }
    }
  }

  /** The draws 0, 1, ..., n - 1, one FreeingDraw per cell. */
  function CoverDraws(n: nat): (draws: seq<seq<ArrowDir>>)
    ensures |draws| == n && forall i :: 0 <= i < n ==> draws[i] == FreeingDraw(i)
  {
    seq(n, i => FreeingDraw(i))
  }

  /** Some pick makes Choose take cell c of FreeingDraw(c). */
  lemma ChooseFreedCell(c: int, flags: seq<bool>) returns (k: nat)
    requires 0 <= c < 16 && |flags| == 16 && !flags[c]
    ensures Choose(FreeingDraw(c), flags, k) == Took(c)
  {
    var g := FreeingDraw(c);
    FreeingDrawFreesCell(c);
    var candidates := Candidates(g, flags);
    assert c in candidates;
    k :| 0 <= k < |candidates| && candidates[k] == c;
    SmallRemainder(k, |candidates|);
  }

  /** From a state with all flags false, some pick makes the pass over FreeingDraw(c) record c. */
  lemma PickFreedCell(s: GenState, c: int) returns (k: nat)
    requires |s.flags| == 16 && s.flags == Fresh().flags && !s.exited && 0 <= c < 16
    ensures Step(s, FreeingDraw(c), k, false) == GenState(s.flags, s.presses + [c], false)
  {
    k := ChooseFreedCell(c, s.flags);
    assert !s.flags[0];
  }

  /** There are picks under which the as-written generator records cells 0, 1, ..., n - 1 in its first n passes. */
  lemma {:induction false} RecordsInOrder(n: nat) returns (picks: seq<nat>)
    requires n <= 16
    ensures DrawsWellFormed(CoverDraws(n), picks)
    ensures Run(CoverDraws(n), picks, false).presses == seq(n, i => i)
  {
    if n == 0 {
      return [];
    }
    var c := n - 1;
    var before := RecordsInOrder(c);
    AsWrittenNeverExits(CoverDraws(c), before);
    var k := PickFreedCell(Run(CoverDraws(c), before, false), c);
    picks := before + [k];
    CoverDrawsExtend(n);
    RunExtends(CoverDraws(c), before, FreeingDraw(c), k, false);
    CountingUp(n);
  }

  /** Running one more pass is one more Step. */
  lemma RunExtends(draws: seq<seq<ArrowDir>>, picks: seq<nat>, draw: seq<ArrowDir>, pick: nat, tracking: bool)
    requires DrawsWellFormed(draws, picks) && |draw| == 16
    ensures DrawsWellFormed(draws + [draw], picks + [pick])
    ensures Run(draws + [draw], picks + [pick], tracking) == Step(Run(draws, picks, tracking), draw, pick, tracking)
  {
    assert (draws + [draw])[..|draws|] == draws;
    assert (picks + [pick])[..|picks|] == picks;
  }

  lemma CoverDrawsExtend(n: nat)
    requires n > 0
    ensures CoverDraws(n) == CoverDraws(n - 1) + [FreeingDraw(n - 1)]
  {
    var a, b := CoverDraws(n), CoverDraws(n - 1) + [FreeingDraw(n - 1)];
    forall i | 0 <= i < n ensures a[i] == b[i] {
      if i < n - 1 { assert b[i] == CoverDraws(n - 1)[i]; }
    }
  }

  lemma SmallRemainder(k: int, m: int)
    requires 0 <= k < m
    ensures k % m == k
  {
  }

  lemma CountingUp(n: nat)
    requires n > 0
    ensures seq(n, i => i) == seq(n - 1, i => i) + [n - 1]
  {
  }

  /**
   * As written, a run can record every cell and still go round again: after
   * the sixteen passes over CoverDraws(16) with suitable picks, every cell is
   * in the record and the loop has not been left.
   */
  lemma AsWrittenCounterexample()
    ensures exists picks: seq<nat> ::
      (DrawsWellFormed(CoverDraws(16), picks) &&
       var r := Run(CoverDraws(16), picks, false);
       Covered(r.presses) && !r.exited && LoopContinues(r.flags))
  {
    var picks := RecordsInOrder(16);
    var r := Run(CoverDraws(16), picks, false);
    forall c | 0 <= c < 16 ensures c in r.presses {
      assert r.presses[c] == c;
    }
    AsWrittenNeverExits(CoverDraws(16), picks);
  }

  /** The intended meaning of the flags: flag c is set exactly when c has been recorded. */
  predicate TracksPresses(touched: seq<bool>, presses: seq<int>)
  {
    |touched| == 16 && forall c :: 0 <= c < 16 ==> (touched[c] <==> c in presses)
  }

  /** Setting the flag of each recorded cell keeps the flags tracking the record. */
  lemma MarkTakenTracks(touched: seq<bool>, presses: seq<int>, c: int)
    requires TracksPresses(touched, presses) && 0 <= c < 16
    ensures TracksPresses(touched[c := true], presses + [c])
  {
  }

  /** With the flags tracking the record, the loop goes round again exactly until every cell has been recorded. */
  lemma CorrectedLoopExit(touched: seq<bool>, presses: seq<int>)
    requires TracksPresses(touched, presses)
    ensures LoopContinues(touched) <==> !Covered(presses)
  {
  }

  /**
   * With tracking passes, the flags always track the record, and the loop
   * has been left exactly when every cell has been recorded.
   */
  lemma {:induction false} TrackingRunExitsWhenCovered(draws: seq<seq<ArrowDir>>, picks: seq<nat>)
    requires DrawsWellFormed(draws, picks)
    ensures var r := Run(draws, picks, true);
      TracksPresses(r.flags, r.presses) && (r.exited <==> Covered(r.presses))
  {
    assert !Covered(Fresh().presses) by { assert 0 !in Fresh().presses; }
    if draws != [] {
      var n := |draws| - 1;
      TrackingRunExitsWhenCovered(draws[..n], picks[..n]);
      var s := Run(draws[..n], picks[..n], true);
      if !s.exited {
        var p := PassTracking(draws[n], s.flags, s.presses, picks[n]);
        if p.result.Took? {
          MarkTakenTracks(s.flags, s.presses, p.result.cell);
          CorrectedLoopExit(p.flags, p.presses);
        }
      }
    }
  }
}
