/** Board construction: the ring of cells with both players' pawns at home. */
module Setup {
  import opened Cells

  /** Cell `index` of a fresh ring of `totalCells` cells. Cell 0 is tested
      first, so on a one-cell ring it is row 0's home only. */
  function SetupCell(index: int, totalCells: int, configuredSafe: bool): Cell {
    if index == 0 then Cell(true, AllPawns, NoPawns)
    else if index == totalCells / 2 then Cell(true, NoPawns, AllPawns)
    else Cell(configuredSafe, NoPawns, NoPawns)
  }

  /** Builds the ring; `safeCells[i]` is the configured safety of cell i. */
  function BoardSetup(totalCells: nat, safeCells: seq<bool>): (b: Board)
    requires totalCells <= |safeCells|
    ensures |b| == totalCells
    ensures totalCells > 0 ==> b[0].safe
    ensures totalCells > 0 ==> forall k: Slot :: b[0].At(0, k) == OnTrack && b[0].At(1, k) == Absent
    ensures totalCells / 2 > 0 ==> b[totalCells / 2].safe
    ensures totalCells / 2 > 0 ==>
      forall k: Slot :: b[totalCells / 2].At(1, k) == OnTrack && b[totalCells / 2].At(0, k) == Absent
    ensures forall i :: 0 < i < totalCells && i != totalCells / 2 ==>
      b[i].safe == safeCells[i] && forall p: Player, k: Slot :: b[i].At(p, k) == Absent
  {
    seq(totalCells, i requires 0 <= i < totalCells => SetupCell(i, totalCells, safeCells[i]))
  }

  /** A fresh board of a valid size satisfies the board invariant, with every
      pawn TRUE on its own home cell and nowhere else. */
  lemma SetupIsConsistent(totalCells: nat, safeCells: seq<bool>)
    requires ValidSize(totalCells) && totalCells <= |safeCells|
    ensures Consistent(BoardSetup(totalCells, safeCells))
    ensures forall p: Player, k: Slot ::
      var b := BoardSetup(totalCells, safeCells);
      PawnAt(b, p, k, Home(p, totalCells)) && b[Home(p, totalCells)].At(p, k) == OnTrack
  {
    var b := BoardSetup(totalCells, safeCells);
    forall p: Player, k: Slot
      ensures PawnAt(b, p, k, Home(p, totalCells)) && b[Home(p, totalCells)].At(p, k) == OnTrack
      ensures WonOnlyAtHome(b, p, k)
    {
    }
  }
}
