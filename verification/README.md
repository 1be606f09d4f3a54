# Race-track board game engine: a verified Dafny model

This project models the rules engine of a two-player, four-pawn race-track game
(a Ludo/Parchís variant) that is written in C in `engine.c`. The board is a ring
of `totalCells` cells. Each cell has a safety flag and a `[2][4]` occupancy table
whose entries are FALSE, TRUE or WIN. The first player's pawns are `a`–`d` and
start on cell 0. The second player's pawns are `w`–`z` and start on the midpoint
`totalCells/2`. A pawn moves by a die amount. It wins when it completes its lap
back to its own home. On the way it sends every adversary pawn that is TRUE on a
cell it passes back to that pawn's home.

The model replaces the linked list with an immutable `seq<Cell>`. Every engine
routine becomes a pure function on that sequence.

- `cells.dfy` (module `Cells`): the data model.
  - `Occupancy` has the values `Absent | OnTrack | Won`, for FALSE, TRUE and WIN.
  - `Cell` holds a safety flag and the two rows of the occupancy table.
  - The module defines both homes and the board invariant `Consistent`: every
    (player, slot) pair is non-FALSE in exactly one cell, and a WIN entry sits
    only on that player's home.
- `setup.dfy` (module `Setup`): `boardSetup`.
- `pawns.dfy` (module `Pawns`): `getPawnIndex`, the player-of-symbol test (`PlayerOfPawn`), and
  `validPawn`, which here takes the two symbol tables as parameters.
- `movement.dfy` (module `Movement`): `getPawnNodeIndex`, the final-destination
  computation, `pawnCompletesLapInCurrentPlay` and `movePawn`.
- `capture.dfy` (module `Capture`): `resetAdversaryPawn`, the `placesMoved`
  computation, the two capture loops of `makePlay`, and `makePlay` itself. The
  capture loops are written as a recursive fold over the scanned cell indices.
- `plays.dfy` (module `Plays`): what a whole play does to a consistent board.
- `queries.dfy` (module `Queries`): `checkGameWin` and `isPawnMovable`.

**Player numbering.** In the model, "row 0" is occupancy index 0. This is the
player the C code calls player 1: symbols a–d, home cell 0, selected by
`player1 == true` in `validPawn` and `isPawnMovable`. `checkGameWin` reports this
player as `1`. "Row 1" is occupancy index 1: symbols w–z, home `totalCells/2`.
`checkGameWin` reports it as `2`.

**Where the model follows the code rather than its comments:**
- The comment above the capture loops says safe cells are skipped. The loops never
  read the safety flag, and the model does the same: `MakePlay` captures on every
  scanned cell, safe or not.
- `movePawn` clears the source entry in every case, then writes WIN on the home
  after a lap or TRUE on the final destination otherwise. A lap therefore also
  clears the source.
- `isPawnMovable` and `checkGameWin` look only at the home cells.
  `MovableIffLocated` and `CheckGameWinMeansAllPawnsWon` prove that on a
  consistent board this is the same as "the pawn has not won" and "all four pawns
  have won".

## Model

| member | source | states |
|---|---|---|
| `Setup.BoardSetup` | engine.c:47-101 | The board has exactly `totalCells` cells. Cell 0 is safe, with row 0 all TRUE and row 1 all FALSE. Cell `totalCells/2` is safe and is its mirror image. Every other cell has all eight entries FALSE and the configured safety. |
| `Setup.SetupIsConsistent` | engine.c:47-101 | On a valid size, the fresh board satisfies the board invariant, and every pawn is TRUE on its own home and FALSE everywhere else. |
| `Pawns.PawnIndex` | engine.c:166-181 | Gives -1 exactly for characters outside a–d and w–z. Otherwise the result is a slot in 0..3 whose letter in `abcd` or `wxyz` is the pawn. |
| `Pawns.AddressOfSymbol` | engine.c:166-181 | The letter naming (row, slot) is a valid pawn and addresses back to that same row and slot. |
| `Pawns.SymbolOfAddress` | engine.c:196-200 | A valid pawn letter is the name of the row and slot it addresses. |
| `Pawns.ValidPawn` | engine.c:109-120 | True iff the pawn occurs at one of indices 1..4 of the symbol table that `player1` selects. |
| `Pawns.ValidPawnAgreesWithAddressing` | engine.c:109-120 | When the tables list the hard-coded letters, `player1 == true` accepts exactly the row-0 pawns (a–d) and `false` accepts exactly the row-1 pawns. |
| `Movement.PawnNodeIndex` | engine.c:189-214 | Returns -1 iff no cell holds the pawn as TRUE. Otherwise it returns the smallest index holding it as exactly TRUE, so a WIN pawn is never found. |
| `Movement.PawnNodeIndexAsWritten` | engine.c:189-214 | The lookup as the code writes it, stepping to the successor of every rejected cell including the last. The body is the definition; `Movement.AsWrittenLookupFaultsWhenAbsent` carries its contract. |
| `Movement.AsWrittenLookupFaultsWhenAbsent` | engine.c:205-213 | The walk as written returns the same index whenever the pawn is TRUE somewhere. It dereferences a null successor exactly when the lookup would answer -1. |
| `Movement.WonPawnLookupDereferencesNull` | engine.c:205-213 | On a consistent board, looking up a pawn that has won runs off the end of the list. |
| `Movement.FinalDestination` | engine.c:241-248 | The destination before the lap check: row 1 is clamped to its home when it starts before it and wrapped past the ring end otherwise. The body is the definition; `Movement.LapRule` carries its contract. |
| `Movement.CompletesLap` | engine.c:453-480 | Whether the move completes the pawn's lap, with the three conditions of `pawnCompletesLapInCurrentPlay`. The body is the definition; `Movement.LapRule` carries its contract. |
| `Movement.LapRule` | engine.c:453-480 | Row 0 completes a lap iff `src+amount >= totalCells`. Row 1 starting before its home has destination `min(src+amount, totalCells/2)` and completes iff `src+amount >= totalCells/2`, so landing exactly on home counts. Row 1 starting at or after its home completes iff `src+amount >= totalCells + totalCells/2` and otherwise lands on `(src+amount) % totalCells`. A move that does not complete a lap lands inside the ring. |
| `Movement.MovePawn` | engine.c:224-280 | Only the mover's (row, slot) entries change. The source entry is cleared. A lap writes WIN on the mover's own home. Any other move writes TRUE on the final destination. Safety flags and the cell count are kept. |
| `Movement.MovePreservesConsistency` | engine.c:224-280 | Moving a located pawn by a non-negative amount keeps the invariant. The pawn then sits in exactly one cell: WIN on its home after a lap, TRUE on the final destination otherwise. |
| `Capture.ResetAdversaryPawn` | engine.c:290-324 | The pawn's entry at the given cell is cleared and its entry at its home becomes TRUE. When the given cell is the home, the entry stays TRUE. Nothing else changes. |
| `Capture.PlacesMoved` | engine.c:366-397 | For a pawn on the ring and a non-negative amount, the traversal length lies in `[0, amount]` in every branch, including row 1's wrap. |
| `Capture.PlacesMovedIsDistanceTravelled` | engine.c:366-397 | The traversal length is the whole amount, or the distance to the pawn's home when the move completes its lap. For row 0 it is `min(amount, totalCells - src)`. For row 1 before its home it is `min(amount, totalCells/2 - src)`. |
| `Capture.ScannedCells` | engine.c:409-443 | The indices the two scan loops visit, in order. Every one lies inside the ring. The body is the definition; `Capture.ScannedCellsSpan` gives the exact span. |
| `Capture.ScannedCellsSpan` | engine.c:405-443 | The scanned cells, in order, are the cells after the source up to the landing cell. Row 0 stops at the end of the ring. Row 1 stops at its home when it starts before it. When row 1 wraps, the rest of the ring is followed by cells `0..min(dest - totalCells, totalCells/2)`. |
| `Capture.CaptureSlots` | engine.c:412-416 | Capturing one cell resets exactly those adversary slots that are TRUE there. The other player's row and the safety flags are kept. |
| `Capture.CaptureScan` | engine.c:405-443 | After the scan, the adversary's home entry becomes TRUE if the pawn was TRUE on some scanned cell, and is otherwise unchanged. Every other scanned cell loses its TRUE entries. WIN and FALSE entries elsewhere are kept, and so are the mover's row and the safety flags. |
| `Capture.MakePlay` | engine.c:332-444 | Safety flags and the cell count never change. The adversary's row is the capture of the original board along the cells the move scans. |
| `Capture.MakePlayMoverRow` | engine.c:363-364 | The mover's row after a play is exactly the row that moving the pawn produced; the capture does not touch it. |
| `Plays.CapturePreservesConsistency` | engine.c:405-443 | On a consistent board the capture keeps the invariant. A pawn TRUE on a scanned cell ends TRUE on its home and nowhere else. Every other adversary pawn keeps all its entries. |
| `Plays.MakePlayPreservesConsistency` | engine.c:332-444 | A play of a located pawn by a non-negative amount keeps the invariant and leaves the mover on its landing cell. Adversary pawns TRUE on scanned cells go home. All other adversary pawns are untouched. |
| `Plays.MakePlayKeepsMoverSiblings` | engine.c:363-364 | A play changes no entry of the mover's three other pawns. |
| `Plays.MakePlayKeepsWins` | engine.c:405-443 | WIN is terminal: after a play on a consistent board, every pawn that had won still holds WIN on its home and is nowhere else. |
| `Queries.CheckGameWin` | engine.c:128-159 | Returns 1 iff all four row-0 entries of cell 0 are WIN. Otherwise it returns 2 iff all four row-1 entries of the midpoint are WIN, and 0 in every other case. Row 0 takes priority. |
| `Queries.CheckGameWinMeansAllPawnsWon` | engine.c:128-159 | On a consistent board, the result is 1 iff every row-0 pawn has won. It is 2 iff some row-0 pawn has not won and every row-1 pawn has. |
| `Queries.IsPawnMovable` | engine.c:489-511 | A pawn is movable unless its entry on the home that the flag selects is WIN. The body is the definition; `Queries.MovableIffLocated` carries its contract. |
| `Queries.MovableIffLocated` | engine.c:489-511 | On a consistent board, with the flag that matches the pawn's own player, a pawn is movable iff it has not won. That holds iff the lookup finds it TRUE on some cell. |

## Left out

- Linked-list plumbing (`initializeCellsList`, `insertBoardCell`) and the allocation-failure return of `boardSetup`. The ring is a Dafny sequence, and running out of memory is not modelled.
- The symbol tables `SYMBOLS_J1` and `SYMBOLS_J2` and the TRUE/FALSE/WIN constants live in `engine.h` and `board.h`, which are not part of this model. `ValidPawn` takes the tables as parameters. WIN is assumed distinct from TRUE and FALSE.
- The capture passes the slot number straight to `ResetAdversaryPawn`, instead of turning it into a symbol through `adversarySymbols[symbol+1]` and back.
- Invalid pawn symbols would be used as array index -1 in C. They are excluded by the `IsPawnSymbol` precondition.
- `CheckGameWin` takes the ring length `|b|` for the separate `totalCells` argument of `checkGameWin`; callers are expected to pass the size the board was built with.
- `CheckGameWin` dereferences the successor of the midpoint cell. `IsPawnMovable` for the second player does so only when the pawn's entry on the midpoint is WIN; otherwise it answers true first. Both require `MidpointHasSuccessor`, that is `totalCells/2 + 1 < totalCells`, which stands for the game's minimum ring size of 4 and so also excludes a 2-cell ring on which the code would answer true for a pawn that has not won.
- `MakePlay` requires at least one cell, because the C code dereferences the list head.
- Plays of a pawn that the lookup does not find use the corrected lookup's -1, and the rest of `makePlay` is modelled as it would compute from there; as written, the lookup dereferences NULL before `makePlay` computes anything (see Findings). Plays with a negative amount are modelled as the code computes them. The invariant lemmas exclude them: on such plays the board invariant can fail. The game is expected to ask `IsPawnMovable` first, and dice are positive.
- C `int` overflow is not modelled. Cell indices and dice amounts are far below the 32-bit range.
- Reading the configuration, rolling dice, rendering, user input and the process lifecycle are outside this file.

## Findings

| source | as written | input that shows it | evidently intended | confidence | as-written member | corrected member |
|---|---|---|---|---|---|---|
| engine.c:205-213 | The loop steps with `currentNode = *currentNode.next` after rejecting each cell, including the last cell, whose `next` is NULL. So `return -1` is never reached: the lookup dereferences NULL instead (`Movement.WonPawnLookupDereferencesNull`). | Any board on which the pawn has no TRUE entry, for example a pawn holding WIN on its home after completing its lap. | Return -1 when no cell holds the pawn as TRUE. | high that the null successor is dereferenced; whether the game's callers reach it is not known; not executed | `Movement.PawnNodeIndexAsWritten` | `Movement.PawnNodeIndex` |
