/** What a whole play does to a consistent board. */
module Plays {
  import opened Cells
  import opened Pawns
  import opened Movement
  import opened Capture

  /** One adversary pawn under a capture on a consistent board. */
  lemma CaptureMovesPawnHome(b: Board, adv: Player, cells: seq<int>, r: Board, s: Slot)
    requires Consistent(b) && forall c :: c in cells ==> 0 <= c < |b|
    requires CapturedAlong(b, adv, cells, r)
    ensures Placed(r, adv, s)
    ensures Hit(b, adv, s, cells) ==>
      PawnAt(r, adv, s, Home(adv, |b|)) && r[Home(adv, |b|)].At(adv, s) == OnTrack
    ensures !Hit(b, adv, s, cells) ==> forall i :: 0 <= i < |b| ==> r[i].At(adv, s) == b[i].At(adv, s)
  {
    var home := Home(adv, |b|);
    var at := Where(b, adv, s);
    if Hit(b, adv, s, cells) {
      var c :| c in cells && 0 <= c < |b| && b[c].At(adv, s) == OnTrack;
      assert c == at;
      assert PawnAt(r, adv, s, home);
    } else {
      assert forall i :: 0 <= i < |b| ==> r[i].At(adv, s) == b[i].At(adv, s);
      assert PawnAt(r, adv, s, at);
    }
  }

  /** Capturing along in-range cells keeps a consistent board consistent: a
      pawn found TRUE on a scanned cell is afterwards TRUE on its home and
      nowhere else, and every other pawn of the adversary keeps its entries. */
  lemma CapturePreservesConsistency(b: Board, adv: Player, cells: seq<int>, r: Board)
    requires Consistent(b) && forall c :: c in cells ==> 0 <= c < |b|
    requires CapturedAlong(b, adv, cells, r) && SameRow(b, r, Adversary(adv))
    ensures Consistent(r)
    ensures forall s: Slot :: Hit(b, adv, s, cells) ==>
      PawnAt(r, adv, s, Home(adv, |b|)) && r[Home(adv, |b|)].At(adv, s) == OnTrack
    ensures forall s: Slot, i :: 0 <= i < |b| && !Hit(b, adv, s, cells) ==> r[i].At(adv, s) == b[i].At(adv, s)
  {
    forall s: Slot
      ensures Placed(r, adv, s)
      ensures Hit(b, adv, s, cells) ==>
        PawnAt(r, adv, s, Home(adv, |b|)) && r[Home(adv, |b|)].At(adv, s) == OnTrack
      ensures !Hit(b, adv, s, cells) ==> forall i :: 0 <= i < |b| ==> r[i].At(adv, s) == b[i].At(adv, s)
    {
      CaptureMovesPawnHome(b, adv, cells, r, s);
    }
    forall q: Player, s: Slot
      ensures Placed(r, q, s)
    {
      if q != adv {
        assert PawnAt(r, q, s, Where(b, q, s));
      }
    }
  }

  /** What a play leaves on the board r: r is consistent; the mover (p, k)
      sits on cell `at` with entry v; every adversary pawn that was TRUE on a
      scanned cell of b is TRUE on its home and nowhere else; every other
      adversary pawn keeps all its entries. */
  ghost predicate PlayOutcome(b: Board, r: Board, p: Player, k: Slot, cells: seq<int>, v: Occupancy, at: int)
    requires |r| == |b|
  {
    && Consistent(r)
    && PawnAt(r, p, k, at) && r[at].At(p, k) == v
    && (forall s: Slot :: Hit(b, Adversary(p), s, cells) ==>
          PawnAt(r, Adversary(p), s, Home(Adversary(p), |b|)) && r[Home(Adversary(p), |b|)].At(Adversary(p), s) == OnTrack)
    && (forall s: Slot, i :: 0 <= i < |b| && !Hit(b, Adversary(p), s, cells) ==>
          r[i].At(Adversary(p), s) == b[i].At(Adversary(p), s))
  }

  /** A play of a located pawn by a non-negative amount on a consistent board
      leaves it consistent, with the mover on its landing cell (WIN on its home
      after a lap) and the adversary pawns on scanned cells sent home. */
  lemma MakePlayPreservesConsistency(b: Board, pawn: char, amount: int)
    requires Consistent(b) && IsPawnSymbol(pawn) && amount >= 0
    requires PawnNodeIndex(b, pawn) != -1
    ensures PlayOutcome(b, MakePlay(b, pawn, amount), PlayerOfPawn(pawn), SlotOfPawn(pawn), PlayCells(b, pawn, amount),
                        LandingEntry(PlayerOfPawn(pawn), |b|, PawnNodeIndex(b, pawn), amount),
                        LandingCell(PlayerOfPawn(pawn), |b|, PawnNodeIndex(b, pawn), amount))
  {
    var p, k := PlayerOfPawn(pawn), SlotOfPawn(pawn);
    var src := PawnNodeIndex(b, pawn);
    var moved := MoveBy(b, pawn, amount);
    var r := MakePlay(b, pawn, amount);
    MovePreservesConsistency(b, pawn, amount);
    MakePlayMoverRow(b, pawn, amount);
    PlayPreservesConsistency(b, moved, r, p, k, PlayCells(b, pawn, amount),
                             LandingEntry(p, |b|, src, amount), LandingCell(p, |b|, src, amount));
  }

  /** The invariant argument of a play, on the boards it goes through: b, the
      board `moved` after the move, and the board r after the capture. */
  lemma PlayPreservesConsistency(b: Board, moved: Board, r: Board, p: Player, k: Slot,
                                 cells: seq<int>, v: Occupancy, at: int)
    requires Consistent(moved) && PawnAt(moved, p, k, at) && moved[at].At(p, k) == v
    requires forall c :: c in cells ==> 0 <= c < |b|
    requires |moved| == |b| && SameRow(b, moved, Adversary(p))
    requires CapturedAlong(b, Adversary(p), cells, r) && SameRow(moved, r, p)
    ensures PlayOutcome(b, r, p, k, cells, v, at)
  {
    var adv := Adversary(p);
    assert Adversary(adv) == p;
    CaptureReadsOnlyAdversaryRow(moved, b, adv, cells, r);
    CapturePreservesConsistency(moved, adv, cells, r);
    HitReadsOnlyAdversaryRow(b, moved, adv, cells);
  }

  lemma HitReadsOnlyAdversaryRow(b: Board, b2: Board, adv: Player, cells: seq<int>)
    requires |b2| == |b| && SameRow(b, b2, adv)
    ensures forall s: Slot :: Hit(b, adv, s, cells) <==> Hit(b2, adv, s, cells)
  {
    forall s: Slot
      ensures Hit(b, adv, s, cells) <==> Hit(b2, adv, s, cells)
    {
      if Hit(b, adv, s, cells) {
        var c :| c in cells && 0 <= c < |b| && b[c].At(adv, s) == OnTrack;
        assert b2[c].At(adv, s) == OnTrack;
      }
      if Hit(b2, adv, s, cells) {
        var c :| c in cells && 0 <= c < |b2| && b2[c].At(adv, s) == OnTrack;
        assert b[c].At(adv, s) == OnTrack;
      }
    }
  }

  /** A play changes no entry of the mover's other pawns. */
  lemma MakePlayKeepsMoverSiblings(b: Board, pawn: char, amount: int)
    requires IsPawnSymbol(pawn) && |b| >= 1
    ensures forall i, s: Slot :: 0 <= i < |b| && s != SlotOfPawn(pawn) ==>
      MakePlay(b, pawn, amount)[i].At(PlayerOfPawn(pawn), s) == b[i].At(PlayerOfPawn(pawn), s)
  {
    var moved := MoveBy(b, pawn, amount);
    var r := MakePlay(b, pawn, amount);
    var p := PlayerOfPawn(pawn);
    MakePlayMoverRow(b, pawn, amount);
    forall i, s: Slot | 0 <= i < |b| && s != SlotOfPawn(pawn)
      ensures r[i].At(p, s) == b[i].At(p, s)
    {
      assert r[i].At(p, s) == moved[i].At(p, s);
    }
  }

  /** On consistent boards of one size, a WIN entry present on both stays the
      pawn's only entry, on its home. */
  lemma WonEntryPinned(b: Board, r: Board, q: Player, s: Slot, w: int)
    requires Consistent(b) && Consistent(r) && |r| == |b|
    requires 0 <= w < |b| && b[w].At(q, s) == Won && r[w].At(q, s) == Won
    ensures PawnAt(r, q, s, Home(q, |b|)) && r[Home(q, |b|)].At(q, s) == Won
  {
    assert Where(b, q, s) == w;
    assert Where(r, q, s) == w;
  }

  /** WIN is terminal: after a play of a located pawn on a consistent board,
      every pawn that had won still holds WIN on its home and is nowhere else. */
  lemma MakePlayKeepsWins(b: Board, pawn: char, amount: int)
    requires Consistent(b) && IsPawnSymbol(pawn) && amount >= 0
    requires PawnNodeIndex(b, pawn) != -1
    ensures forall q: Player, s: Slot :: HasWon(b, q, s) ==>
      PawnAt(MakePlay(b, pawn, amount), q, s, Home(q, |b|)) && MakePlay(b, pawn, amount)[Home(q, |b|)].At(q, s) == Won
  {
    var r := MakePlay(b, pawn, amount);
    var p, k := PlayerOfPawn(pawn), SlotOfPawn(pawn);
    var src := PawnNodeIndex(b, pawn);
    var cells := PlayCells(b, pawn, amount);
    MakePlayPreservesConsistency(b, pawn, amount);
    MakePlayKeepsMoverSiblings(b, pawn, amount);
    assert Where(b, p, k) == src;
    forall q: Player, s: Slot | HasWon(b, q, s)
      ensures PawnAt(r, q, s, Home(q, |b|)) && r[Home(q, |b|)].At(q, s) == Won
    {
      var w :| 0 <= w < |b| && b[w].At(q, s) == Won;
      assert Where(b, q, s) == w;
      if q != p {
        assert !Hit(b, Adversary(p), s, cells);
      }
      WonEntryPinned(b, r, q, s, w);
    }
  }
}
