# Lockgrid in Dafny

Lockgrid is a puzzle module made of a 4x4 grid of arrows. Cells are stored row-major, so cell = 4 * row + column. Each arrow points Up, Right, Down or Left.

- An arrow is *safe* when no orthogonal neighbour points at it.
- Pressing a safe arrow turns it one quarter turn clockwise and marks it pressed.
- Pressing the arrow pressed just before, or an unsafe arrow, is a strike.
- The module is solved once all sixteen arrows have been pressed.
- Reset puts the starting grid back on display and clears every mark.
- A generator makes the starting grid. On each pass it draws a fresh random grid, picks a safe cell, records it and turns that one cell back a step. The fresh draw throws away the previous pass's turn, so the grid is never built backwards from a solved one. As written the generator loop never ends (see Findings).

The project is split into four modules:

- `Grid` (`grid.dfy`) holds the pure board queries and the one in-place array update:
  - the arrow directions;
  - `GetPointed`, `GetAdjacents`, `IsSafe` and `AnySelfPoints`;
  - the LINQ `First` lookup behind the strike message;
  - `RotateValue`, with C#'s truncating `%` written out.
- `Session` (`session.dfy`) gives the solving session as values:
  - the displayed grid, the pressed flags, the last accepted press and the solved flag;
  - `Press` and the state part of `Reset` as step functions;
  - the lemmas about them.
- `Generation` (`generation.dfy`) holds the generator as values:
  - the safe cells and the cells the random pick chooses among;
  - one pass of the loop body, as written and with the taken cell's flag set;
  - runs of many passes from the start, with the `goto Restart` re-initialisation and the `do`/`while` test;
  - the proof that the as-written loop never exits and that the corrected one exits exactly when every cell is recorded.
- `Lockgrid` (`lockgrid.dfy`) is the module object as a class whose array fields its methods update in place:
  - `pressed`, `initGrid`, `dispGrid` and `queues` are arrays;
  - `prevPress`, `resetting` and `moduleSolved` are scalar fields;
  - `Press`, `Reset` and one generator pass are each proved to do exactly what the `Session` and `Generation` functions say.

External effects are handled as follows:

- `HandleStrike` and `HandlePass` become an `Outcome` value that `Press` returns.
- `Rnd.Range` draws become the `draw` parameter.
- `PickRandom` becomes the `pick` parameter: the chosen entry is the one at index `pick` modulo the number of candidates.

## Model

| member | source | states |
|---|---|---|
| Grid.Ord | Assets/LockgridScript.cs:12-18 | the integer value of a direction is its declaration position, 0..3 |
| Grid.FromOrd | Assets/LockgridScript.cs:155 | the cast back from 0..3 to a direction is the inverse of Ord |
| Grid.CsRem4 | Assets/LockgridScript.cs:155 | C#'s `% 4` takes the sign of the dividend, lies strictly between -4 and 4, and agrees with the residue modulo 4 |
| Grid.Rotated | Assets/LockgridScript.cs:155 | the stored direction's ordinal is the residue of ordinal + amount modulo 4, so it is in 0..3 even for a negative amount |
| Grid.RotatedCompose | Assets/LockgridScript.cs:153-156 | turning by a and then by b is turning by a + b |
| Grid.RotatedFullTurns | Assets/LockgridScript.cs:153-156 | a whole number of full turns leaves the arrow unchanged |
| Grid.RotateUndo | Assets/LockgridScript.cs:153-156 | +1 then -1 restores the arrow, and so does -1 then +1 |
| Grid.RotateFourTimes | Assets/LockgridScript.cs:153-156 | four single clockwise turns are the identity |
| Grid.RotateValue | Assets/LockgridScript.cs:153-156 | the array afterwards is the old array with only cell ix replaced by its rotation |
| Grid.GetPointed | Assets/LockgridScript.cs:164-174 | the result is -1 or a board cell other than pos |
| Grid.PointedGeometry | Assets/LockgridScript.cs:164-174 | the result is -1 exactly when one step in dir leaves the board, and otherwise the cell one row/column step away |
| Grid.PointsOffOnlyAtEdges | Assets/LockgridScript.cs:168-171 | -1 exactly for Up on the top row, Right on the right column, Down on the bottom row and Left on the left column |
| Grid.PointedIsAdjacent | Assets/LockgridScript.cs:164-174 | a pointed-at cell is an orthogonal neighbour |
| Grid.DropMissing | Assets/LockgridScript.cs:162 | the filter keeps exactly the entries that are not -1 |
| Grid.DropMissingAppend | Assets/LockgridScript.cs:162 | the filter distributes over concatenation, so it keeps the surviving entries in their original order |
| Grid.GetAdjacents | Assets/LockgridScript.cs:157-163 | the result is the GetPointed results for Up, Right, Down and Left, in that order, with the -1 entries dropped; all of them are board cells |
| Grid.NeighbourHasDirection | Assets/LockgridScript.cs:157-174 | every orthogonal neighbour is reached by some direction |
| Grid.AdjacentsAreNeighbours | Assets/LockgridScript.cs:157-174 | q is in GetAdjacents(pos) iff q is an orthogonal neighbour of pos |
| Grid.AdjacencySymmetric | Assets/LockgridScript.cs:157-174 | b is in GetAdjacents(a) iff a is in GetAdjacents(b) |
| Grid.IsSafe | Assets/LockgridScript.cs:130-133 | a cell is safe iff no cell of the grid points at it, and that agrees with the check over its neighbours only |
| Grid.SafetyIgnoresOwnDirection | Assets/LockgridScript.cs:130-133 | whether a cell is safe does not depend on its own arrow |
| Grid.FirstPointing | Assets/LockgridScript.cs:126 | the lookup fails iff no entry points at ix; otherwise it returns the first entry that does |
| Grid.UnsafeHasPointer | Assets/LockgridScript.cs:123-127 | on an unsafe cell the `First` lookup succeeds and names an adjacent cell that points at it, so it cannot throw |
| Grid.PointedBack | Assets/LockgridScript.cs:97-98 | the arrow at pos points at some other cell whose arrow points back at pos |
| Grid.AnySelfPoints | Assets/LockgridScript.cs:93-100 | true iff two distinct cells point at each other |
| Grid.FacingPairIsMutual | Assets/LockgridScript.cs:93-100 | a grid with cell 0 pointing Right and cell 1 pointing Left has a mutual pair |
| Session.AllPressed | Assets/LockgridScript.cs:120 | `pressed.All(x => x)` holds iff no flag is false |
| Session.Initial | Assets/LockgridScript.cs:57-64 | the session at start shows the generated grid, with nothing pressed, no previous press, not solved, and consistent |
| Session.Press | Assets/LockgridScript.cs:101-129 | the outcome is ignored iff solved or resetting, a repeat strike iff ix is the last press, and an unsafe strike iff ix is unsafe; the strike names an adjacent pointer; ignored presses and strikes change nothing |
| Session.AcceptedPress | Assets/LockgridScript.cs:110-122 | an accepted press sets pressed[ix], advances only arrow ix by one step mod 4, leaves every other arrow and flag alone, sets prevPress to ix, and solves iff all sixteen flags are now set |
| Session.PressKeepsConsistent | Assets/LockgridScript.cs:101-129 | every press keeps "solved only when all are pressed" and "the last press is marked pressed" |
| Session.PressNeverUnpresses | Assets/LockgridScript.cs:101-129 | no press clears a pressed flag |
| Session.PressTwiceIsStrike | Assets/LockgridScript.cs:105-115 | after an accepted, non-solving press of ix, pressing ix again is a strike whatever the grid |
| Session.UndoThenPress | Assets/LockgridScript.cs:88 | turning a safe cell back one step and then pressing it is accepted and restores the grid exactly |
| Session.ForwardSteps | Assets/LockgridScript.cs:143 | the queued count lies in 0..3 |
| Session.ForwardStepsReach | Assets/LockgridScript.cs:143 | turning the displayed arrow clockwise that many times reaches the initial arrow |
| Session.ForwardStepsUnique | Assets/LockgridScript.cs:143 | it is the only count in 0..3 that does |
| Session.Reset | Assets/LockgridScript.cs:134-151 | nothing changes when solved; otherwise the session is the initial one for initGrid |
| Session.PressThenResetRestores | Assets/LockgridScript.cs:101-151 | one press on a fresh session never solves the module, so a reset after it gives back the fresh session |
| Session.ResetIdempotent | Assets/LockgridScript.cs:134-151 | resetting twice equals resetting once |
| Session.ResetKeepsConsistent | Assets/LockgridScript.cs:134-151 | reset keeps the session consistent |
| Generation.SafeBelow | Assets/LockgridScript.cs:79 | the result holds exactly the safe cells below n, in strictly increasing order |
| Generation.SafeCells | Assets/LockgridScript.cs:79 | `safe` holds exactly the safe cells, each once, in increasing order |
| Generation.Untouched | Assets/LockgridScript.cs:80 | `safeAndUntouched` holds exactly the entries of `safe` whose flag is false |
| Generation.Candidates | Assets/LockgridScript.cs:82-86 | the pick is among the safe untouched cells when there are any, and otherwise among all safe cells; the set is empty iff no cell is safe |
| Generation.NoSafeCell | Assets/LockgridScript.cs:82 | `safe.Length == 0` holds iff no cell of the grid is safe |
| Generation.LoopContinues | Assets/LockgridScript.cs:90 | `pressed.Any(x => !x)` holds iff some flag is false |
| Generation.Choose | Assets/LockgridScript.cs:77-86 | restart iff the grid has a mutual pair or no safe cell; otherwise the taken cell is a safe candidate, and it is untouched whenever some safe cell is untouched |
| Generation.PassAsWritten | Assets/LockgridScript.cs:75-88 | the decision is Choose's on the fresh draw; a restart leaves the draw and the record; a take appends the cell and turns only that cell back one step; the flags are never changed |
| Generation.PassTracking | Assets/LockgridScript.cs:75-88 | the same decision, grid and record as the as-written pass, and the taken cell's flag set (the evidently intended line 87) |
| Generation.Fresh | Assets/LockgridScript.cs:71-72 | the state at the start and after `goto Restart`: empty record, sixteen false flags, loop not left |
| Generation.Step | Assets/LockgridScript.cs:70-90 | once the loop has been left nothing changes; a restarting pass goes back to Fresh (`goto Restart`); a taking pass appends the cell, sets its flag only when tracking, and leaves the loop iff the line 90 test fails; at most one cell is recorded |
| Generation.Run | Assets/LockgridScript.cs:70-90 | no passes leave the generator at Fresh, and a run records at most one cell per pass |
| Generation.RunExtends | Assets/LockgridScript.cs:73-90 | a run one pass longer is one more Step of the shorter run |
| Generation.AsWrittenNeverExits | Assets/LockgridScript.cs:70-90 | for any draws and picks, every run of as-written passes from the line 72 allocation still has all flags false, has not left the loop, and the line 90 test holds |
| Generation.FreeingDrawFreesCell | Assets/LockgridScript.cs:77-79 | for every cell there is a draw with no mutual pair in which that cell is safe |
| Generation.RecordsInOrder | Assets/LockgridScript.cs:70-88 | some picks make the as-written generator record cells 0, 1, ..., n - 1 in its first n passes |
| Generation.AsWrittenCounterexample | Assets/LockgridScript.cs:70-90 | some run of sixteen as-written passes records every cell and still has not left the loop |
| Generation.MarkTakenTracks | Assets/LockgridScript.cs:87 | setting the flag of the recorded cell keeps flag c set exactly when c is recorded |
| Generation.CorrectedLoopExit | Assets/LockgridScript.cs:90 | with tracking flags, the loop goes round again iff some cell has not yet been recorded |
| Generation.TrackingRunExitsWhenCovered | Assets/LockgridScript.cs:70-90 | with the flag-setting pass, every run keeps the flags tracking the record, and has left the loop iff every cell has been recorded |
| Lockgrid.Lockgrid.constructor | Assets/LockgridScript.cs:32-64 | the four arrays are newly allocated, initGrid is the generated grid, and the session is Session.Initial of it, with empty queues |
| Lockgrid.Lockgrid.Press | Assets/LockgridScript.cs:101-129 | the fields change exactly as Session.Press says, the outcome is its outcome, and an accepted press adds one to queues[ix] |
| Lockgrid.Lockgrid.Reset | Assets/LockgridScript.cs:134-151 | the fields change exactly as Session.Reset says, and queues[i] becomes the ForwardSteps count from the old displayed arrow to the initial one |
| Lockgrid.PressThenReset | Assets/LockgridScript.cs:57-151 | a newly built module, pressed once and then reset, holds the generated grid in initGrid and shows the initial session again |
| Lockgrid.Lockgrid.LoadDraw | Assets/LockgridScript.cs:75-76 | initGrid holds the drawn directions |
| Lockgrid.Lockgrid.GeneratePass | Assets/LockgridScript.cs:73-88 | initGrid, the decision and the record end as PassAsWritten says for the flag array's contents; the flag array and the displayed session are left unchanged |
| Lockgrid.Lockgrid.GeneratePassTracking | Assets/LockgridScript.cs:73-88 | initGrid, the decision, the record and the flag array end as PassTracking says; the displayed session is left unchanged |

## Left out

- Rendering and animation are not modelled: transforms, materials, ring colours, `GetVector`, the `RotateArrow` coroutine and its interpolation. Because of that, `animating` and the draining of `queues` are not modelled either. `queues` is only written, at the increment in `Press` and the assignment in `Reset`.
- The `WaitUntil` suspensions in `Reset` are left out. Reset is one atomic step. The `resetting` window it opens is a field that `Press` reads, and `Reset` leaves it unchanged.
- `Awake` wiring, `moduleIdCounter`, `Log`, `Ut.LogIntegerGrid`, the `coords` table and the Twitch command stubs are left out. They are host bookkeeping and text output.
- `UnityEngine.Random` and `PickRandom` are not modelled. Each pass's drawn directions and random index are parameters; a run takes one sequence of each.
- `GeneratePuzzle` is modelled as `Generation.Run` over a finite sequence of passes, since as written it never returns. On `Restart` a single pass leaves the record and the flags alone; `Generation.Step` then starts again from `Generation.Fresh`, as the `goto Restart` does. `Lockgrid.Lockgrid` has the pass as methods but no method for the whole loop.
- The final `presses.Reverse()` into `generationPresses` (line 91) is not modelled. Neither is any claim that the recorded presses solve the grid. The grid is redrawn on every pass (lines 75-76, kept as written), so no backward-construction guarantee holds for the code. `Session.UndoThenPress` proves the single step such a guarantee would rest on.
- Lockgrid.Lockgrid.constructor takes the generated grid as its argument instead of running the generator, which as written never returns. `Start` copies that grid onto the display.
- The flag array passed to `Lockgrid.Lockgrid.GeneratePassTracking` must be distinct from the session's `pressed`, as line 72's fresh local is; both generator methods also require `Valid()`, which keeps `initGrid` apart from `dispGrid`.
- GetPointed's `default` branch, which throws for an out-of-range enum value, cannot be reached: the direction is a four-constructor datatype.
- The mutual-pair check runs on each fresh draw, before that pass's backward turn. The grid left after the last pass is never checked, and no property of it is claimed.

## Findings

| source | as written | input that shows it | evidently intended | confidence | as-written member | corrected member |
|---|---|---|---|---|---|---|
| Assets/LockgridScript.cs:72-90 | the local `bool[] pressed` hides the field and is never written, so `pressed.Any(x => !x)` always holds and the `do`/`while` never exits | sixteen passes over `Generation.CoverDraws(16)`, recording cells 0, 1, ..., 15: every cell is recorded and the loop still continues | set the flag of each taken cell (`pressed[taken] = true` after line 87), so the loop ends once every cell has been recorded | high, not executed | Generation.AsWrittenCounterexample | Generation.TrackingRunExitsWhenCovered |

The as-written pass is `Generation.PassAsWritten`, and in place on arrays `Lockgrid.Lockgrid.GeneratePass`. `Generation.AsWrittenNeverExits` proves that every as-written run keeps the flags all false. The corrected pass is `Generation.PassTracking`, and in place `Lockgrid.Lockgrid.GeneratePassTracking`. `Generation.TrackingRunExitsWhenCovered` proves that corrected runs leave the loop exactly when every cell has been recorded.
