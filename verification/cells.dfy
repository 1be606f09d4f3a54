/** Data model of the race track: cells, their per-pawn occupancy tables,
    the two home cells and the global consistency invariant of a board. */
module Cells {

  /** One entry of a cell's occupancy table: FALSE, TRUE and WIN in the engine. */
  datatype Occupancy = Absent | OnTrack | Won

  /** Row of the occupancy table. Row 0 belongs to the player whose pawns are
      a-d and whose home is cell 0; row 1 to the player whose pawns are w-z. */
  type Player = p: int | 0 <= p < 2

  /** Pawn slot inside a player's row. */
  type Slot = k: int | 0 <= k < 4

  /** One player's four entries in a cell. */
  type Row = r: seq<Occupancy> | |r| == 4 witness [Absent, Absent, Absent, Absent]

  const NoPawns: Row := [Absent, Absent, Absent, Absent]
  const AllPawns: Row := [OnTrack, OnTrack, OnTrack, OnTrack]

  /** A track cell: its safety flag and its `[2][4]` occupancy table. */
  datatype Cell = Cell(safe: bool, row0: Row, row1: Row) {

    function At(p: Player, k: Slot): Occupancy {
      if p == 0 then row0[k] else row1[k]
    }

    /** The cell with entry (p, k) replaced by v and everything else kept. */
    function With(p: Player, k: Slot, v: Occupancy): (c: Cell)
      ensures c.safe == safe
      ensures c.At(p, k) == v
      ensures forall q: Player, s: Slot :: (q != p || s != k) ==> c.At(q, s) == At(q, s)
    {
      if p == 0 then this.(row0 := row0[k := v]) else this.(row1 := row1[k := v])
    }
  }

  /** The ring of cells, index 0 first; the engine keeps it as a linked list. */
  type Board = seq<Cell>

  /** Home cell of a player: cell 0 for row 0, the ring midpoint for row 1. */
  function Home(p: Player, totalCells: int): int {
    if p == 0 then 0 else totalCells / 2
  }

  function Adversary(p: Player): (q: Player)
    ensures q != p
  {
    1 - p
  }

  /** Board sizes the game is played on: an even ring of at least four cells. */
  predicate ValidSize(totalCells: int) {
    totalCells >= 4 && totalCells % 2 == 0
  }

  /** Writes v into entry (p, k) of cell i; an index off the ring writes nothing,
      as a walk over the list never meets such a node. */
  function SetEntry(b: Board, i: int, p: Player, k: Slot, v: Occupancy): (r: Board)
    ensures |r| == |b|
    ensures forall j :: 0 <= j < |r| ==> r[j].safe == b[j].safe
    ensures forall j, q: Player, s: Slot :: 0 <= j < |r| && (j != i || q != p || s != k) ==>
      r[j].At(q, s) == b[j].At(q, s)
    ensures 0 <= i < |b| ==> r[i].At(p, k) == v
  {
    if 0 <= i < |b| then b[i := b[i].With(p, k, v)] else b
  }

  /** Both boards have the same cells with the same safety flags. */
  ghost predicate SameLayout(b: Board, r: Board) {
    |r| == |b| && forall i :: 0 <= i < |b| ==> r[i].safe == b[i].safe
  }

  /** Every entry of player q is the same on both boards. */
  ghost predicate SameRow(b: Board, r: Board, q: Player)
    requires |r| == |b|
  {
    forall i, s: Slot :: 0 <= i < |b| ==> r[i].At(q, s) == b[i].At(q, s)
  }

  lemma SameLayoutTransitive(a: Board, b: Board, c: Board)
    requires SameLayout(a, b) && SameLayout(b, c)
    ensures SameLayout(a, c)
  {
  }

  lemma SameRowTransitive(a: Board, b: Board, c: Board, q: Player)
    requires |a| == |b| == |c| && SameRow(a, b, q) && SameRow(b, c, q)
    ensures SameRow(a, c, q)
  {
  }

  /** Pawn (p, k) is at cell i: its entry there is TRUE or WIN and FALSE everywhere else. */
  ghost predicate PawnAt(b: Board, p: Player, k: Slot, i: int) {
    && 0 <= i < |b|
    && b[i].At(p, k) != Absent
    && forall j :: 0 <= j < |b| && j != i ==> b[j].At(p, k) == Absent
  }

  /** A WIN entry of pawn (p, k) sits only on p's home cell. */
  ghost predicate WonOnlyAtHome(b: Board, p: Player, k: Slot) {
    forall i :: 0 <= i < |b| && b[i].At(p, k) == Won ==> i == Home(p, |b|)
  }

  /** Pawn (p, k) holds a WIN entry somewhere on the board. */
  ghost predicate HasWon(b: Board, p: Player, k: Slot) {
    exists i :: 0 <= i < |b| && b[i].At(p, k) == Won
  }

  /** Pawn (p, k) is in exactly one cell, holding WIN there only if it is its home. */
  ghost predicate Placed(b: Board, p: Player, k: Slot) {
    (exists i :: PawnAt(b, p, k, i)) && WonOnlyAtHome(b, p, k)
  }

  /** The board invariant the engine keeps: a valid ring on which every pawn is
      non-FALSE in exactly one cell, and WIN only on its own home. */
  ghost predicate Consistent(b: Board) {
    ValidSize(|b|) && forall p: Player, k: Slot :: Placed(b, p, k)
  }

  /** The cell a pawn of a consistent board is in. */
  ghost function Where(b: Board, p: Player, k: Slot): (i: int)
    requires Consistent(b)
    ensures PawnAt(b, p, k, i) && WonOnlyAtHome(b, p, k)
  {
    assert Placed(b, p, k);
    var i :| PawnAt(b, p, k, i); i
  }
}
