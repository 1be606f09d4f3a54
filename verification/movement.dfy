/** Movement: locating a pawn, the destination and lap rules, and moving it. */
module Movement {
  import opened Cells
  import opened Pawns

  /** First index at or after i whose entry (p, k) is exactly TRUE, or -1. */
  function LocateFrom(b: Board, p: Player, k: Slot, i: nat): (r: int)
    requires i <= |b|
    decreases |b| - i
    ensures r == -1 || i <= r < |b|
    ensures r == -1 <==> forall j :: i <= j < |b| ==> b[j].At(p, k) != OnTrack
    ensures r != -1 ==> b[r].At(p, k) == OnTrack && forall j :: i <= j < r ==> b[j].At(p, k) != OnTrack
  {
    if i == |b| then -1
    else if b[i].At(p, k) == OnTrack then i
    else LocateFrom(b, p, k, i + 1)
  }

  /** Cell index of a pawn: the smallest index whose entry is exactly TRUE,
      or -1 when there is none, so a pawn holding WIN is never found. */
  function PawnNodeIndex(b: Board, pawn: char): (r: int)
    requires IsPawnSymbol(pawn)
    ensures r == -1 || 0 <= r < |b|
    ensures r == -1 <==> forall j :: 0 <= j < |b| ==> b[j].At(PlayerOfPawn(pawn), SlotOfPawn(pawn)) != OnTrack
    ensures r != -1 ==> b[r].At(PlayerOfPawn(pawn), SlotOfPawn(pawn)) == OnTrack
    ensures r != -1 ==> forall j :: 0 <= j < r ==> b[j].At(PlayerOfPawn(pawn), SlotOfPawn(pawn)) != OnTrack
  {
    LocateFrom(b, PlayerOfPawn(pawn), SlotOfPawn(pawn), 0)
  }

  /** Outcome of the engine's own walk over the linked list. */
  datatype Walk = Found(index: int) | NullDereference

  /** The lookup as the engine writes it: the walk steps to the successor of
      every cell it rejects, including the last one, whose successor is null. */
  function WalkFrom(b: Board, p: Player, k: Slot, i: nat): Walk
    requires i < |b|
    decreases |b| - i
  {
    if b[i].At(p, k) == OnTrack then Found(i)
    else if i + 1 == |b| then NullDereference
    else WalkFrom(b, p, k, i + 1)
  }

  function PawnNodeIndexAsWritten(b: Board, pawn: char): Walk
    requires IsPawnSymbol(pawn)
  {
    if |b| == 0 then NullDereference
    else WalkFrom(b, PlayerOfPawn(pawn), SlotOfPawn(pawn), 0)
  }

  lemma {:induction false} WalkFromAgrees(b: Board, p: Player, k: Slot, i: nat)
    requires i < |b|
    ensures WalkFrom(b, p, k, i) == if LocateFrom(b, p, k, i) == -1 then NullDereference else Found(LocateFrom(b, p, k, i))
    decreases |b| - i
  {
    if b[i].At(p, k) != OnTrack && i + 1 < |b| {
      WalkFromAgrees(b, p, k, i + 1);
    }
  }

  /** The walk as written agrees with the lookup whenever the pawn is TRUE
      somewhere, and dereferences a null successor exactly when the lookup
      would answer -1. */
  lemma AsWrittenLookupFaultsWhenAbsent(b: Board, pawn: char)
    requires IsPawnSymbol(pawn)
    ensures PawnNodeIndex(b, pawn) == -1 ==> PawnNodeIndexAsWritten(b, pawn) == NullDereference
    ensures PawnNodeIndex(b, pawn) != -1 ==> PawnNodeIndexAsWritten(b, pawn) == Found(PawnNodeIndex(b, pawn))
  {
    if |b| > 0 {
      WalkFromAgrees(b, PlayerOfPawn(pawn), SlotOfPawn(pawn), 0);
    }
  }

  /** On a consistent board a pawn that has won is on no cell as TRUE, so the
      walk as written runs off the end of the list. */
  lemma WonPawnLookupDereferencesNull(b: Board, pawn: char)
    requires Consistent(b) && IsPawnSymbol(pawn)
    requires HasWon(b, PlayerOfPawn(pawn), SlotOfPawn(pawn))
    ensures PawnNodeIndexAsWritten(b, pawn) == NullDereference
    ensures PawnNodeIndex(b, pawn) == -1
  {
    var p, k := PlayerOfPawn(pawn), SlotOfPawn(pawn);
    var w :| 0 <= w < |b| && b[w].At(p, k) == Won;
    assert Where(b, p, k) == w;
    AsWrittenLookupFaultsWhenAbsent(b, pawn);
  }

  /** Destination cell before the lap check. Row 1, whose home is the ring
      midpoint, is clamped to its home when it starts before it, and wrapped
      to the ring start otherwise; row 0 keeps the raw destination. */
  function FinalDestination(p: Player, totalCells: int, src: int, dest: int): int {
    if p == 1 then
      if 0 <= src < totalCells / 2 then (if dest > totalCells / 2 then totalCells / 2 else dest)
      else (if dest >= totalCells then dest - totalCells else dest)
    else dest
  }

  /** Whether a move from src to dest (final destination fin) finishes the pawn's lap. */
  function CompletesLap(p: Player, totalCells: int, src: int, dest: int, fin: int): bool {
    || (p == 0 && dest >= totalCells)
    || (p == 1 && src < totalCells / 2 && src >= 0 && fin >= totalCells / 2)
    || (p == 1 && dest >= totalCells && fin >= totalCells / 2)
  }

  /** The lap rule in terms of the source cell and the die amount, for a pawn on the ring. */
  lemma LapRule(p: Player, totalCells: int, src: int, amount: int)
    requires ValidSize(totalCells) && 0 <= src < totalCells && amount >= 0
    ensures var fin := FinalDestination(p, totalCells, src, src + amount);
      var lap := CompletesLap(p, totalCells, src, src + amount, fin);
      && (p == 0 ==> (lap <==> src + amount >= totalCells))
      && (p == 1 && src < totalCells / 2 ==>
            fin == (if src + amount < totalCells / 2 then src + amount else totalCells / 2)
            && (lap <==> src + amount >= totalCells / 2))
      && (p == 1 && src >= totalCells / 2 ==>
            (lap <==> src + amount >= totalCells + totalCells / 2)
            && (!lap ==> fin == (src + amount) % totalCells))
      && (!lap ==> 0 <= fin < totalCells)
  {
    var half := totalCells / 2;
    assert 0 < half < totalCells;
    if p == 1 && src >= half {
      WrapRule(totalCells, half, src, src + amount);
    }
  }

  /** Row 1 starting at or after its home: a lap needs the ring end plus half a ring. */
  lemma WrapRule(totalCells: int, half: int, src: int, dest: int)
    requires 0 < half < totalCells && half == totalCells / 2
    requires half <= src < totalCells && src <= dest
    ensures var fin := FinalDestination(1, totalCells, src, dest);
      var lap := CompletesLap(1, totalCells, src, dest, fin);
      && (lap <==> dest >= totalCells + half)
      && (!lap ==> fin == dest % totalCells && 0 <= fin < totalCells)
  {
    if dest >= totalCells + half {
    } else if dest >= totalCells {
      assert dest < 2 * totalCells;
      WrapIsModulo(dest, totalCells);
    } else {
      assert dest % totalCells == dest;
    }
  }

  lemma WrapIsModulo(x: int, n: int)
    requires 0 < n <= x < 2 * n
    ensures x % n == x - n
  {
    assert x == n + (x - n) && 0 <= x - n < n;
  }

  /** Moves pawn `k` of the player owning symbol `pawn` from cell src towards
      dest: its entry at src is cleared first; then a lap writes WIN on the
      player's home, and any other move writes TRUE at the final destination. */
  function MovePawn(b: Board, pawn: char, k: Slot, src: int, dest: int): (r: Board)
    ensures SameLayout(b, r)
    ensures SameRow(b, r, Adversary(PlayerOfPawn(pawn)))
    ensures forall i, s: Slot :: 0 <= i < |b| && s != k ==>
      r[i].At(PlayerOfPawn(pawn), s) == b[i].At(PlayerOfPawn(pawn), s)
    ensures var p := PlayerOfPawn(pawn);
      var fin := FinalDestination(p, |b|, src, dest);
      var lap := CompletesLap(p, |b|, src, dest, fin);
      forall i :: 0 <= i < |b| ==>
        r[i].At(p, k) == (if lap && i == Home(p, |b|) then Won
                          else if !lap && i == fin then OnTrack
                          else if i == src then Absent
                          else b[i].At(p, k))
  {
    var p := PlayerOfPawn(pawn);
    var fin := FinalDestination(p, |b|, src, dest);
    var cleared := SetEntry(b, src, p, k, Absent);
    if CompletesLap(p, |b|, src, dest, fin) then SetEntry(cleared, Home(p, |b|), p, k, Won)
    else SetEntry(cleared, fin, p, k, OnTrack)
  }

  /** The board after moving `pawn` by `amount` from the cell where the
      lookup finds it. */
  function MoveBy(b: Board, pawn: char, amount: int): Board
    requires IsPawnSymbol(pawn)
  {
    MovePawn(b, pawn, SlotOfPawn(pawn), PawnNodeIndex(b, pawn), PawnNodeIndex(b, pawn) + amount)
  }

  /** The cell a move of `amount` leaves the pawn on: its home after a lap,
      the final destination otherwise. */
  function LandingCell(p: Player, totalCells: int, src: int, amount: int): int {
    var fin := FinalDestination(p, totalCells, src, src + amount);
    if CompletesLap(p, totalCells, src, src + amount, fin) then Home(p, totalCells) else fin
  }

  /** The entry the pawn holds there: WIN after a lap, TRUE otherwise. */
  function LandingEntry(p: Player, totalCells: int, src: int, amount: int): Occupancy {
    var fin := FinalDestination(p, totalCells, src, src + amount);
    if CompletesLap(p, totalCells, src, src + amount, fin) then Won else OnTrack
  }

  /** Moving a located pawn forward keeps the board consistent: the pawn is
      afterwards in exactly one cell, its landing cell, and no other pawn moves. */
  lemma MovePreservesConsistency(b: Board, pawn: char, amount: int)
    requires Consistent(b) && IsPawnSymbol(pawn) && amount >= 0
    requires PawnNodeIndex(b, pawn) != -1
    ensures Consistent(MoveBy(b, pawn, amount))
    ensures PawnAt(MoveBy(b, pawn, amount), PlayerOfPawn(pawn), SlotOfPawn(pawn),
                   LandingCell(PlayerOfPawn(pawn), |b|, PawnNodeIndex(b, pawn), amount))
    ensures MoveBy(b, pawn, amount)[LandingCell(PlayerOfPawn(pawn), |b|, PawnNodeIndex(b, pawn), amount)]
              .At(PlayerOfPawn(pawn), SlotOfPawn(pawn)) == LandingEntry(PlayerOfPawn(pawn), |b|, PawnNodeIndex(b, pawn), amount)
  {
    var p, k := PlayerOfPawn(pawn), SlotOfPawn(pawn);
    var n := |b|;
    var src := PawnNodeIndex(b, pawn);
    var r := MoveBy(b, pawn, amount);
    var at := LandingCell(p, n, src, amount);
    LapRule(p, n, src, amount);
    assert Where(b, p, k) == src;
    assert PawnAt(r, p, k, at);
    assert Placed(r, p, k);
    OtherPawnsStayPlaced(b, r, p, k);
  }

  /** A board that differs from a consistent one only in entry (p, k) keeps
      every other pawn where it was. */
  lemma OtherPawnsStayPlaced(b: Board, r: Board, p: Player, k: Slot)
    requires Consistent(b) && |r| == |b| && SameRow(b, r, Adversary(p))
    requires forall i, s: Slot :: 0 <= i < |b| && s != k ==> r[i].At(p, s) == b[i].At(p, s)
    ensures forall q: Player, s: Slot :: q != p || s != k ==> Placed(r, q, s)
  {
    forall q: Player, s: Slot | q != p || s != k
      ensures Placed(r, q, s)
    {
      assert PawnAt(r, q, s, Where(b, q, s));
    }
  }
}
