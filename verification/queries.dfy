/** Read-only queries: who has won, and whether a pawn may still move. */
module Queries {
  import opened Cells
  import opened Pawns
  import opened Movement

  /** The engine walks to the successor of the ring midpoint, so that node must exist. */
  predicate MidpointHasSuccessor(totalCells: int) {
    totalCells / 2 + 1 < totalCells
  }

  /** All four entries of player p in cell c are WIN. */
  predicate AllWon(c: Cell, p: Player) {
    c.At(p, 0) == Won && c.At(p, 1) == Won && c.At(p, 2) == Won && c.At(p, 3) == Won
  }

  /** The walk over cells `home`..midpoint of the win check, carrying the two
      flags: row 0's flag drops when cell 0 has a non-WIN entry of row 0, row
      1's when the midpoint has a non-WIN entry of row 1. */
  function WinScan(b: Board, home: nat, p1Won: bool, p2Won: bool): (r: (bool, bool))
    requires MidpointHasSuccessor(|b|)
    decreases |b| / 2 + 1 - home
    ensures r.0 <==> p1Won && (home > 0 || AllWon(b[0], 0))
    ensures r.1 <==> p2Won && (home > |b| / 2 || AllWon(b[|b| / 2], 1))
  {
    if home > |b| / 2 then (p1Won, p2Won)
    else
      WinScan(b, home + 1,
              p1Won && (home != 0 || AllWon(b[home], 0)),
              p2Won && (home != |b| / 2 || AllWon(b[home], 1)))
  }

  /** 1 when all of row 0's pawns are WIN on cell 0; otherwise 2 when all of
      row 1's pawns are WIN on the midpoint; otherwise 0. */
  function CheckGameWin(b: Board): (r: int)
    requires MidpointHasSuccessor(|b|)
    ensures r == 1 <==> AllWon(b[0], 0)
    ensures r == 2 <==> !AllWon(b[0], 0) && AllWon(b[|b| / 2], 1)
    ensures r == 0 <==> !AllWon(b[0], 0) && !AllWon(b[|b| / 2], 1)
  {
    var (p1Won, p2Won) := WinScan(b, 0, true, true);
    if p1Won then 1 else if p2Won then 2 else 0
  }

  /** On a consistent board the win check reports a player exactly when all
      four of that player's pawns have won, row 0 taking priority. */
  lemma CheckGameWinMeansAllPawnsWon(b: Board)
    requires Consistent(b)
    ensures CheckGameWin(b) == 1 <==> forall k: Slot :: HasWon(b, 0, k)
    ensures CheckGameWin(b) == 2 <==> (exists k: Slot :: !HasWon(b, 0, k)) && forall k: Slot :: HasWon(b, 1, k)
  {
    AllWonIffHasWon(b, 0);
    AllWonIffHasWon(b, 1);
  }

  /** On a consistent board, all four entries of p on its home are WIN iff
      each of p's pawns has won. */
  lemma AllWonIffHasWon(b: Board, p: Player)
    requires Consistent(b)
    ensures AllWon(b[Home(p, |b|)], p) <==> forall k: Slot :: HasWon(b, p, k)
  {
    forall k: Slot
      ensures HasWon(b, p, k) <==> b[Home(p, |b|)].At(p, k) == Won
    {
      var at := Where(b, p, k);
    }
    assert AllWon(b[Home(p, |b|)], p) <==> forall k: Slot :: b[Home(p, |b|)].At(p, k) == Won;
  }

  /** Whether a pawn can still be moved: it has not WIN on the home of the
      player `player1` names (row 0's home, cell 0, when true; the midpoint
      otherwise). The row is picked by the flag, not by the pawn letter. */
  function IsPawnMovable(pawn: char, b: Board, player1: bool): bool
    requires IsPawnSymbol(pawn)
    requires player1 ==> |b| >= 1
    requires !player1 ==> MidpointHasSuccessor(|b|)
  {
    if player1 then b[0].At(0, SlotOfPawn(pawn)) != Won
    else b[|b| / 2].At(1, SlotOfPawn(pawn)) != Won
  }

  /** On a consistent board, asking with the flag that matches the pawn's own
      player, a pawn is movable exactly when it has not won, which is exactly
      when the lookup finds it TRUE on some cell. */
  lemma MovableIffLocated(b: Board, pawn: char)
    requires Consistent(b) && IsPawnSymbol(pawn)
    ensures IsPawnMovable(pawn, b, PlayerOfPawn(pawn) == 0) <==> !HasWon(b, PlayerOfPawn(pawn), SlotOfPawn(pawn))
    ensures IsPawnMovable(pawn, b, PlayerOfPawn(pawn) == 0) <==> PawnNodeIndex(b, pawn) != -1
  {
    var p, k := PlayerOfPawn(pawn), SlotOfPawn(pawn);
    var at := Where(b, p, k);
    if b[at].At(p, k) == OnTrack {
      assert PawnNodeIndex(b, pawn) != -1;
    }
  }
}
