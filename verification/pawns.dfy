/** Pawn addressing: from a pawn symbol to its occupancy row and slot. */
module Pawns {
  import opened Cells

  /** Pawn letters the engine hard-codes, in slot order, for rows 0 and 1. */
  const RowZeroLetters := "abcd"
  const RowOneLetters := "wxyz"

  /** The pawn letters: a-d for row 0 and w-z for row 1. */
  predicate IsPawnSymbol(pawn: char) {
    'a' <= pawn <= 'd' || 'w' <= pawn <= 'z'
  }

  /** Occupancy row of a pawn: a-d are row 0, every other character row 1. */
  function PlayerOfPawn(pawn: char): Player {
    if 'a' <= pawn <= 'd' then 0 else 1
  }

  /** Slot of a pawn letter: its distance from the first letter of its row. */
  function SlotOfPawn(pawn: char): Slot
    requires IsPawnSymbol(pawn)
  {
    if PlayerOfPawn(pawn) == 0 then pawn as int - 'a' as int else pawn as int - 'w' as int
  }

  /** Slot of a pawn letter as the engine looks it up: a/w to 0, b/x to 1,
      c/y to 2, d/z to 3, and -1 for any other character. */
  function PawnIndex(pawn: char): (r: int)
    ensures -1 <= r < 4
    ensures r == -1 <==> pawn !in RowZeroLetters + RowOneLetters
    ensures r != -1 ==> pawn == RowZeroLetters[r] || pawn == RowOneLetters[r]
    ensures r == -1 <==> !IsPawnSymbol(pawn)
    ensures r != -1 ==> r == SlotOfPawn(pawn)
  {
    if pawn == 'a' || pawn == 'w' then 0
    else if pawn == 'b' || pawn == 'x' then 1
    else if pawn == 'c' || pawn == 'y' then 2
    else if pawn == 'd' || pawn == 'z' then 3
    else -1
  }

  /** The letter of pawn k of row p. */
  function SymbolOf(p: Player, k: Slot): char {
    if p == 0 then RowZeroLetters[k] else RowOneLetters[k]
  }

  /** Addressing inverts naming: the letter of (p, k) maps back to row p, slot k. */
  lemma AddressOfSymbol(p: Player, k: Slot)
    ensures IsPawnSymbol(SymbolOf(p, k))
    ensures PlayerOfPawn(SymbolOf(p, k)) == p && SlotOfPawn(SymbolOf(p, k)) == k
  {
  }

  /** Naming inverts addressing: a valid letter is the name of its own (row, slot). */
  lemma SymbolOfAddress(pawn: char)
    requires IsPawnSymbol(pawn)
    ensures SymbolOf(PlayerOfPawn(pawn), SlotOfPawn(pawn)) == pawn
  {
  }

  /** True iff `pawn` occurs at one of the indices 1..4 of `symbols` from `i` on. */
  function ListedFrom(symbols: seq<char>, pawn: char, i: int): (r: bool)
    requires 1 <= i <= 5 <= |symbols|
    decreases 5 - i
    ensures r <==> exists j :: i <= j < 5 && symbols[j] == pawn
  {
    if i == 5 then false
    else if symbols[i] == pawn then true
    else ListedFrom(symbols, pawn, i + 1)
  }

  /** Whether `pawn` belongs to the player of the current play; `player1`
      selects `symbolsOne`, whose pawn letters sit at indices 1..4. */
  function ValidPawn(pawn: char, player1: bool, symbolsOne: seq<char>, symbolsTwo: seq<char>): (ok: bool)
    requires |symbolsOne| >= 5 && |symbolsTwo| >= 5
    ensures player1 ==> (ok <==> pawn in symbolsOne[1..5])
    ensures !player1 ==> (ok <==> pawn in symbolsTwo[1..5])
  {
    var r := ListedFrom(if player1 then symbolsOne else symbolsTwo, pawn, 1);
    assert player1 ==> (r <==> pawn in symbolsOne[1..5]) by {
      if player1 && pawn in symbolsOne[1..5] {
        var j :| 0 <= j < 4 && symbolsOne[1..5][j] == pawn;
        assert symbolsOne[j + 1] == pawn;
      }
    }
    assert !player1 ==> (r <==> pawn in symbolsTwo[1..5]) by {
      if !player1 && pawn in symbolsTwo[1..5] {
        var j :| 0 <= j < 4 && symbolsTwo[1..5][j] == pawn;
        assert symbolsTwo[j + 1] == pawn;
      }
    }
    r
  }

  /** When the symbol tables list the letters the addressing hard-codes,
      validating for `player1` accepts exactly the pawns of row 0, and
      otherwise exactly those of row 1. */
  lemma ValidPawnAgreesWithAddressing(pawn: char, player1: bool, symbolsOne: seq<char>, symbolsTwo: seq<char>)
    requires |symbolsOne| >= 5 && |symbolsTwo| >= 5
    requires symbolsOne[1..5] == RowZeroLetters && symbolsTwo[1..5] == RowOneLetters
    ensures ValidPawn(pawn, player1, symbolsOne, symbolsTwo) <==>
      IsPawnSymbol(pawn) && PlayerOfPawn(pawn) == (if player1 then 0 else 1)
  {
  }
}
