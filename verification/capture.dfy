/** Capture: how far a move travels, which cells it passes, and sending every
    adversary pawn found on those cells back to its home. */
module Capture {
  import opened Cells
  import opened Pawns
  import opened Movement

  function Min(a: int, b: int): int {
    if a <= b then a else b
  }

  /** The cell indices lo, lo + 1, ..., hi - 1, in increasing order. */
  function Interval(lo: int, hi: int): (r: seq<int>)
    decreases hi - lo
    ensures |r| == if lo < hi then hi - lo else 0
    ensures forall j :: 0 <= j < |r| ==> r[j] == lo + j
  {
    if lo >= hi then [] else [lo] + Interval(lo + 1, hi)
  }

  /** Sends pawn (p, k) standing on cell `at` home: its entry at `at` is
      cleared, then TRUE is written on p's home cell. */
  function ResetAdversaryPawn(b: Board, p: Player, k: Slot, at: int): (r: Board)
    ensures SameLayout(b, r)
    ensures SameRow(b, r, Adversary(p))
    ensures forall i, s: Slot :: 0 <= i < |b| && s != k ==> r[i].At(p, s) == b[i].At(p, s)
    ensures forall i :: 0 <= i < |b| ==>
      r[i].At(p, k) == (if i == Home(p, |b|) then OnTrack else if i == at then Absent else b[i].At(p, k))
  {
    SetEntry(SetEntry(b, at, p, k, Absent), Home(p, |b|), p, k, OnTrack)
  }

  /** Number of cells a move is counted as traversing, as the engine computes it
      from the pre-move cell `src` and the die `amount`. */
  function PlacesMoved(p: Player, totalCells: int, src: int, amount: int): (r: int)
    ensures 0 <= src < totalCells && amount >= 0 ==> 0 <= r <= amount
  {
    if p == 0 then
      (if src + amount >= totalCells then totalCells - src else amount)
    else if 0 <= src < totalCells / 2 then
      (if src + amount >= totalCells / 2 then totalCells / 2 - src else amount)
    else if src + amount >= totalCells then
      (totalCells - src) +
      (if amount - (totalCells - src) >= totalCells / 2 then totalCells / 2 else amount - (totalCells - src))
    else amount
  }

  /** Steps along the ring from cell src to p's home. */
  function DistanceHome(p: Player, totalCells: int, src: int): int {
    if p == 0 then totalCells - src
    else if src < totalCells / 2 then totalCells / 2 - src
    else totalCells - src + totalCells / 2
  }

  /** The traversal length is the distance the pawn really travels: the whole
      amount, or the distance to its home when the move completes its lap. */
  lemma PlacesMovedIsDistanceTravelled(p: Player, totalCells: int, src: int, amount: int)
    requires ValidSize(totalCells) && 0 <= src < totalCells && amount >= 0
    ensures var lap := CompletesLap(p, totalCells, src, src + amount, FinalDestination(p, totalCells, src, src + amount));
      PlacesMoved(p, totalCells, src, amount) == if lap then DistanceHome(p, totalCells, src) else amount
    ensures p == 0 ==> PlacesMoved(p, totalCells, src, amount) == Min(amount, totalCells - src)
    ensures p == 1 && src < totalCells / 2 ==> PlacesMoved(p, totalCells, src, amount) == Min(amount, totalCells / 2 - src)
  {
    LapRule(p, totalCells, src, amount);
  }

  /** Indices visited by the first capture loop from index i: it walks to the
      end of the ring while budget remains, spending one unit per index after
      src. Also returns the budget left over. */
  function FirstPass(totalCells: int, src: int, budget: int, i: int): (r: (seq<int>, int))
    requires 0 <= i
    decreases totalCells - i
    ensures forall c :: c in r.0 ==> i <= c < totalCells && src < c
  {
    if i >= totalCells || budget <= 0 then ([], budget)
    else if i > src then
      var rest := FirstPass(totalCells, src, budget - 1, i + 1);
      ([i] + rest.0, rest.1)
    else FirstPass(totalCells, src, budget, i + 1)
  }

  /** Indices visited by the second capture loop from index i: up to row 1's
      home inclusive while budget remains. */
  function SecondPass(totalCells: int, budget: int, i: int): (r: seq<int>)
    requires 0 <= i
    decreases totalCells / 2 + 1 - i
    ensures forall c :: c in r ==> i <= c <= totalCells / 2
  {
    if i > totalCells / 2 || budget <= 0 then []
    else [i] + SecondPass(totalCells, budget - 1, i + 1)
  }

  /** Cells scanned for captures, in scan order: the first pass, then, for
      row 1 only and only if budget is left, the second pass from cell 0. */
  function ScannedCells(p: Player, totalCells: int, src: int, placesMoved: int): (r: seq<int>)
    requires totalCells >= 1
    ensures forall c :: c in r ==> 0 <= c < totalCells
  {
    var first := FirstPass(totalCells, src, placesMoved, 0);
    first.0 + (if first.1 > 0 && p == 1 then SecondPass(totalCells, first.1, 0) else [])
  }

  lemma {:induction false} FirstPassSpan(totalCells: int, src: int, budget: int, i: int)
    requires 0 <= i
    decreases totalCells - i
    ensures var lo := if i > src + 1 then i else src + 1;
      var count := Min(budget, totalCells - lo);
      FirstPass(totalCells, src, budget, i) ==
        if budget <= 0 || lo >= totalCells then ([], budget) else (Interval(lo, lo + count), budget - count)
  {
    if i >= totalCells || budget <= 0 {
    } else if i > src {
      FirstPassSpan(totalCells, src, budget - 1, i + 1);
    } else {
      FirstPassSpan(totalCells, src, budget, i + 1);
    }
  }

  lemma {:induction false} SecondPassSpan(totalCells: int, budget: int, i: int)
    requires 0 <= i
    decreases totalCells / 2 + 1 - i
    ensures SecondPass(totalCells, budget, i) ==
      if budget <= 0 || i > totalCells / 2 then [] else Interval(i, i + Min(budget, totalCells / 2 + 1 - i))
  {
    if i > totalCells / 2 || budget <= 0 {
    } else {
      SecondPassSpan(totalCells, budget - 1, i + 1);
    }
  }

  /** The cells a move scans are exactly those it passes after leaving src, up
      to where it stops: the destination, the end of the ring for row 0, row
      1's home when it starts before it, and for row 1 wrapping past the end,
      the rest of the ring followed by cells 0 up to the destination or home. */
  lemma ScannedCellsSpan(p: Player, totalCells: int, src: int, amount: int)
    requires ValidSize(totalCells) && 0 <= src < totalCells && amount >= 0
    ensures ScannedCells(p, totalCells, src, PlacesMoved(p, totalCells, src, amount)) ==
      if p == 0 then Interval(src + 1, Min(src + amount + 1, totalCells))
      else if src < totalCells / 2 then Interval(src + 1, Min(src + amount, totalCells / 2) + 1)
      else if src + amount < totalCells then Interval(src + 1, src + amount + 1)
      else Interval(src + 1, totalCells) + Interval(0, Min(src + amount - totalCells, totalCells / 2) + 1)
  {
    if p == 0 {
      ScanRowZero(totalCells, src, amount);
    } else if src < totalCells / 2 {
      ScanBeforeHome(totalCells, src, amount);
    } else if src + amount < totalCells {
      ScanAfterHome(totalCells, src, amount);
    } else {
      ScanWrapping(totalCells, src, amount);
    }
  }

  lemma ScanRowZero(totalCells: int, src: int, amount: int)
    requires ValidSize(totalCells) && 0 <= src < totalCells && amount >= 0
    ensures ScannedCells(0, totalCells, src, PlacesMoved(0, totalCells, src, amount)) ==
      Interval(src + 1, Min(src + amount + 1, totalCells))
  {
    var pm := PlacesMoved(0, totalCells, src, amount);
    assert pm == Min(amount, totalCells - src);
    FirstPassSpan(totalCells, src, pm, 0);
  }

  lemma ScanBeforeHome(totalCells: int, src: int, amount: int)
    requires ValidSize(totalCells) && 0 <= src < totalCells / 2 && amount >= 0
    ensures ScannedCells(1, totalCells, src, PlacesMoved(1, totalCells, src, amount)) ==
      Interval(src + 1, Min(src + amount, totalCells / 2) + 1)
  {
    var pm := PlacesMoved(1, totalCells, src, amount);
    assert pm == Min(amount, totalCells / 2 - src);
    FirstPassSpan(totalCells, src, pm, 0);
  }

  lemma ScanAfterHome(totalCells: int, src: int, amount: int)
    requires ValidSize(totalCells) && totalCells / 2 <= src && src + amount < totalCells && amount >= 0
    ensures ScannedCells(1, totalCells, src, PlacesMoved(1, totalCells, src, amount)) ==
      Interval(src + 1, src + amount + 1)
  {
    assert PlacesMoved(1, totalCells, src, amount) == amount;
    FirstPassSpan(totalCells, src, amount, 0);
  }

  lemma ScanWrapping(totalCells: int, src: int, amount: int)
    requires ValidSize(totalCells) && totalCells / 2 <= src < totalCells && src + amount >= totalCells
    ensures ScannedCells(1, totalCells, src, PlacesMoved(1, totalCells, src, amount)) ==
      Interval(src + 1, totalCells) + Interval(0, Min(src + amount - totalCells, totalCells / 2) + 1)
  {
    var extra := Min(src + amount - totalCells, totalCells / 2);
    var pm := PlacesMoved(1, totalCells, src, amount);
    assert pm == totalCells - src + extra;
    FirstPassToEnd(totalCells, src, pm);
    SecondPassSpan(totalCells, extra + 1, 0);
  }

  /** With budget for the whole rest of the ring, the first pass covers it and
      keeps what is left over. */
  lemma FirstPassToEnd(totalCells: int, src: int, budget: int)
    requires 0 <= src < totalCells && budget >= totalCells - src
    ensures FirstPass(totalCells, src, budget, 0) == (Interval(src + 1, totalCells), budget - (totalCells - src - 1))
  {
    FirstPassSpan(totalCells, src, budget, 0);
  }

  /** Some scanned cell holds adversary pawn s as TRUE. */
  ghost predicate Hit(b: Board, adv: Player, s: Slot, cells: seq<int>) {
    exists c :: c in cells && 0 <= c < |b| && b[c].At(adv, s) == OnTrack
  }

  /** Entry (adv, s) of cell i after scanning `cells`: the home cell gets TRUE
      if the pawn was TRUE on any scanned cell, every other scanned cell loses
      a TRUE entry, and WIN or FALSE entries stay as they are. */
  ghost function CapturedEntry(b: Board, adv: Player, s: Slot, cells: seq<int>, i: int): Occupancy
    requires 0 <= i < |b|
  {
    if i == Home(adv, |b|) then (if Hit(b, adv, s, cells) then OnTrack else b[i].At(adv, s))
    else if i in cells && b[i].At(adv, s) == OnTrack then Absent
    else b[i].At(adv, s)
  }

  /** r is b with the adversary row captured along `cells`. */
  ghost predicate CapturedAlong(b: Board, adv: Player, cells: seq<int>, r: Board) {
    && |r| == |b|
    && forall i, s: Slot :: 0 <= i < |b| ==> r[i].At(adv, s) == CapturedEntry(b, adv, s, cells, i)
  }

  /** The capture of one cell, slots s..3 in order: each slot whose entry is
      exactly TRUE there is reset. */
  function CaptureSlots(b: Board, adv: Player, i: int, s: int): (r: Board)
    requires 0 <= i < |b| && 0 <= s <= 4
    decreases 4 - s
    ensures SameLayout(b, r) && SameRow(b, r, Adversary(adv))
    ensures forall j, t: Slot :: 0 <= j < |b| ==>
      r[j].At(adv, t) == if t < s then b[j].At(adv, t) else CapturedEntry(b, adv, t, [i], j)
  {
    if s == 4 then b
    else
      var next := if b[i].At(adv, s) == OnTrack then ResetAdversaryPawn(b, adv, s, i) else b;
      var r := CaptureSlots(next, adv, i, s + 1);
      CaptureSlotsStep(b, adv, i, s, next, r);
      r
  }

  lemma CaptureSlotsStep(b: Board, adv: Player, i: int, s: int, next: Board, r: Board)
    requires 0 <= i < |b| && 0 <= s < 4
    requires next == if b[i].At(adv, s) == OnTrack then ResetAdversaryPawn(b, adv, s, i) else b
    requires SameLayout(next, r) && SameRow(next, r, Adversary(adv))
    requires forall j, t: Slot :: 0 <= j < |b| ==>
      r[j].At(adv, t) == if t < s + 1 then next[j].At(adv, t) else CapturedEntry(next, adv, t, [i], j)
    ensures SameLayout(b, r) && SameRow(b, r, Adversary(adv))
    ensures forall j, t: Slot :: 0 <= j < |b| ==>
      r[j].At(adv, t) == if t < s then b[j].At(adv, t) else CapturedEntry(b, adv, t, [i], j)
  {
    SameLayoutTransitive(b, next, r);
    SameRowTransitive(b, next, r, Adversary(adv));
    forall j, t: Slot | 0 <= j < |b| && t > s
      ensures CapturedEntry(next, adv, t, [i], j) == CapturedEntry(b, adv, t, [i], j)
    {
      assert Hit(next, adv, t, [i]) <==> Hit(b, adv, t, [i]) by {
        assert next[i].At(adv, t) == b[i].At(adv, t);
      }
    }
  }

  /** Capturing along xs and then along ys is capturing along xs + ys. */
  lemma CaptureComposes(b: Board, mid: Board, r: Board, adv: Player, xs: seq<int>, ys: seq<int>)
    requires CapturedAlong(b, adv, xs, mid) && CapturedAlong(mid, adv, ys, r)
    requires forall c :: c in xs + ys ==> 0 <= c < |b|
    ensures CapturedAlong(b, adv, xs + ys, r)
  {
    forall i, s: Slot | 0 <= i < |b|
      ensures r[i].At(adv, s) == CapturedEntry(b, adv, s, xs + ys, i)
    {
      if i == Home(adv, |b|) {
        assert Hit(b, adv, s, xs + ys) <==> Hit(b, adv, s, xs) || Hit(mid, adv, s, ys) by {
          if Hit(mid, adv, s, ys) {
            var c :| c in ys && 0 <= c < |mid| && mid[c].At(adv, s) == OnTrack;
            if c != i && !Hit(b, adv, s, xs) {
              assert b[c].At(adv, s) == OnTrack;
              assert c in xs + ys;
            }
          }
          if Hit(b, adv, s, xs + ys) && !Hit(b, adv, s, xs) {
            var c :| c in xs + ys && 0 <= c < |b| && b[c].At(adv, s) == OnTrack;
            assert c in ys && c !in xs;
            assert mid[c].At(adv, s) == OnTrack;
          }
        }
      }
    }
  }

  /** The result of a capture depends only on the adversary's row. */
  lemma CaptureReadsOnlyAdversaryRow(b: Board, b2: Board, adv: Player, cells: seq<int>, r: Board)
    requires |b2| == |b| && SameRow(b, b2, adv)
    requires CapturedAlong(b2, adv, cells, r)
    ensures CapturedAlong(b, adv, cells, r)
  {
    forall i, s: Slot | 0 <= i < |b|
      ensures r[i].At(adv, s) == CapturedEntry(b, adv, s, cells, i)
    {
      assert Hit(b, adv, s, cells) <==> Hit(b2, adv, s, cells) by {
        if Hit(b, adv, s, cells) {
          var c :| c in cells && 0 <= c < |b| && b[c].At(adv, s) == OnTrack;
          assert b2[c].At(adv, s) == OnTrack;
        }
        if Hit(b2, adv, s, cells) {
          var c :| c in cells && 0 <= c < |b2| && b2[c].At(adv, s) == OnTrack;
          assert b[c].At(adv, s) == OnTrack;
        }
      }
    }
  }

  /** The capture scan: a fold over the scanned cells, in order. */
  function CaptureScan(b: Board, adv: Player, cells: seq<int>): (r: Board)
    requires forall c :: c in cells ==> 0 <= c < |b|
    decreases |cells|
    ensures SameLayout(b, r) && SameRow(b, r, Adversary(adv))
    ensures CapturedAlong(b, adv, cells, r)
  {
    if cells == [] then b
    else
      assert cells[0] in cells;
      var mid := CaptureSlots(b, adv, cells[0], 0);
      assert forall c :: c in cells[1..] ==> c in cells;
      var r := CaptureScan(mid, adv, cells[1..]);
      assert 0 <= cells[0] < |b|;
      CaptureScanStep(b, adv, cells, mid, r);
      r
  }

  lemma CaptureScanStep(b: Board, adv: Player, cells: seq<int>, mid: Board, r: Board)
    requires cells != [] && forall c :: c in cells ==> 0 <= c < |b|
    requires 0 <= cells[0] < |b|
    requires mid == CaptureSlots(b, adv, cells[0], 0)
    requires SameLayout(mid, r) && SameRow(mid, r, Adversary(adv))
    requires CapturedAlong(mid, adv, cells[1..], r)
    ensures SameLayout(b, r) && SameRow(b, r, Adversary(adv))
    ensures CapturedAlong(b, adv, cells, r)
  {
    SameLayoutTransitive(b, mid, r);
    SameRowTransitive(b, mid, r, Adversary(adv));
    assert CapturedAlong(b, adv, [cells[0]], mid);
    assert [cells[0]] + cells[1..] == cells;
    CaptureComposes(b, mid, r, adv, [cells[0]], cells[1..]);
  }

  /** The capture step of a play, on the board `moved` that the move produced
      from b: it reads only the adversary's row, which the move left as in b. */
  function CaptureAfterMove(b: Board, moved: Board, p: Player, cells: seq<int>): (r: Board)
    requires SameLayout(b, moved) && SameRow(b, moved, Adversary(p))
    requires forall c :: c in cells ==> 0 <= c < |b|
    ensures SameLayout(b, r) && SameRow(moved, r, p)
    ensures CapturedAlong(b, Adversary(p), cells, r)
  {
    var r := CaptureScan(moved, Adversary(p), cells);
    assert Adversary(Adversary(p)) == p;
    CaptureReadsOnlyAdversaryRow(b, moved, Adversary(p), cells, r);
    SameLayoutTransitive(b, moved, r);
    r
  }

  /** The cells a play of `pawn` by `amount` scans for captures. */
  function PlayCells(b: Board, pawn: char, amount: int): (r: seq<int>)
    requires IsPawnSymbol(pawn) && |b| >= 1
    ensures forall c :: c in r ==> 0 <= c < |b|
  {
    var p, src := PlayerOfPawn(pawn), PawnNodeIndex(b, pawn);
    ScannedCells(p, |b|, src, PlacesMoved(p, |b|, src, amount))
  }

  /** A play: move the pawn by `amount` from the cell where it is TRUE, then
      send home every adversary pawn TRUE on a cell the move is counted as
      passing. Safety flags are never consulted. */
  function MakePlay(b: Board, pawn: char, amount: int): (r: Board)
    requires IsPawnSymbol(pawn) && |b| >= 1
    ensures SameLayout(b, r)
    ensures CapturedAlong(b, Adversary(PlayerOfPawn(pawn)), PlayCells(b, pawn, amount), r)
  {
    CaptureAfterMove(b, MoveBy(b, pawn, amount), PlayerOfPawn(pawn), PlayCells(b, pawn, amount))
  }

  /** The mover's row after a play is exactly the row the move produced. */
  lemma MakePlayMoverRow(b: Board, pawn: char, amount: int)
    requires IsPawnSymbol(pawn) && |b| >= 1
    ensures |MoveBy(b, pawn, amount)| == |b|
    ensures SameRow(MoveBy(b, pawn, amount), MakePlay(b, pawn, amount), PlayerOfPawn(pawn))
  {
  }
}
