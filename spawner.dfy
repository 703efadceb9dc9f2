/**
 Where new food goes: first the free cell among the random probes, and
 otherwise the first free cell of a row-major scan of the whole board.

 The random number generator is not modelled: its 200 draws are an
 arbitrary sequence of board cells supplied by the caller.
 */
module Spawner {
  import opened Options
  import opened Grid

  /** How many random cells are tried before the scan. */
  const RandomProbes: nat := 200

  /** The draws of the generator: at least 200 cells, each inside the board. */
  predicate ValidProbes(probes: seq<Vec2i>) {
    |probes| >= RandomProbes && forall i :: 0 <= i < |probes| ==> InBoard(probes[i])
  }

  /** Position of a board cell in row-major order (rows bottom to top). */
  function RowMajorIndex(p: Vec2i): int {
    p.y * BoardW + p.x
  }

  /** The first of `probes[i..200]` that is not in `occ`. */
  function ProbeFrom(occ: set<Vec2i>, probes: seq<Vec2i>, i: nat): Option<Vec2i>
    requires |probes| >= RandomProbes
    decreases RandomProbes - i
  {
    if i >= RandomProbes then None
    else if probes[i] !in occ then Some(probes[i])
    else ProbeFrom(occ, probes, i + 1)
  }

  /** The first cell not in `occ`, scanning row by row from column `x` of row `y`. */
  function ScanFrom(occ: set<Vec2i>, y: nat, x: nat): Option<Vec2i>
    decreases BoardH - y, BoardW - x
  {
    if y >= BoardH then None
    else if x >= BoardW then ScanFrom(occ, y + 1, 0)
    else if Vec2i(x, y) !in occ then Some(Vec2i(x, y))
    else ScanFrom(occ, y, x + 1)
  }

  /** The cell the spawner picks, or None when the board is full. */
  function SpawnChoice(occ: set<Vec2i>, probes: seq<Vec2i>): Option<Vec2i>
    requires |probes| >= RandomProbes
  {
    match ProbeFrom(occ, probes, 0)
    case Some(p) => Some(p)
    case None => ScanFrom(occ, 0, 0)
  }

  /** Every board cell is taken. */
  ghost predicate BoardFull(occ: set<Vec2i>) {
    forall p :: InBoard(p) ==> p in occ
  }

  /** The probe phase returns the first free probe, and fails only when all 200 are taken. */
  lemma {:induction false} ProbeFromCorrect(occ: set<Vec2i>, probes: seq<Vec2i>, i: nat)
    requires |probes| >= RandomProbes
    ensures ProbeFrom(occ, probes, i).Some? ==>
      exists j :: i <= j < RandomProbes && probes[j] == ProbeFrom(occ, probes, i).value
        && probes[j] !in occ && forall k :: i <= k < j ==> probes[k] in occ
    ensures ProbeFrom(occ, probes, i).None? ==> forall k :: i <= k < RandomProbes ==> probes[k] in occ
    decreases RandomProbes - i
  {
    if i < RandomProbes && probes[i] in occ {
      ProbeFromCorrect(occ, probes, i + 1);
    }
  }

  /**
   The scan from (x, y) returns the free in-board cell that comes first in
   row-major order at or after (x, y), and None when there is none.
   */
  lemma {:induction false} ScanFromCorrect(occ: set<Vec2i>, y: nat, x: nat)
    requires x <= BoardW
    ensures ScanFrom(occ, y, x).Some? ==>
      var p := ScanFrom(occ, y, x).value;
      && InBoard(p) && p !in occ
      && RowMajorIndex(p) >= y * BoardW + x
      && forall q :: InBoard(q) && y * BoardW + x <= RowMajorIndex(q) < RowMajorIndex(p) ==> q in occ
    ensures ScanFrom(occ, y, x).None? ==>
      forall q :: InBoard(q) && RowMajorIndex(q) >= y * BoardW + x ==> q in occ
    decreases BoardH - y, BoardW - x
  {
    if y >= BoardH {
    } else if x >= BoardW {
      ScanFromCorrect(occ, y + 1, 0);
    } else if Vec2i(x, y) !in occ {
    } else {
      ScanFromCorrect(occ, y, x + 1);
      forall q | InBoard(q) && RowMajorIndex(q) == y * BoardW + x ensures q == Vec2i(x, y) {
      }
    }
  }

  /**
   A food cell is found exactly when the board is not full; it is then free
   and inside the board, and when every probe was taken it is the first free
   cell in row-major order.
   */
  lemma SpawnChoiceCorrect(occ: set<Vec2i>, probes: seq<Vec2i>)
    requires ValidProbes(probes)
    ensures SpawnChoice(occ, probes).Some? <==> !BoardFull(occ)
    ensures SpawnChoice(occ, probes).Some? ==>
      InBoard(SpawnChoice(occ, probes).value) && SpawnChoice(occ, probes).value !in occ
    ensures ProbeFrom(occ, probes, 0).None? && SpawnChoice(occ, probes).Some? ==>
      forall q :: InBoard(q) && RowMajorIndex(q) < RowMajorIndex(SpawnChoice(occ, probes).value) ==> q in occ
  {
    ProbeFromCorrect(occ, probes, 0);
    ScanFromCorrect(occ, 0, 0);
    if ProbeFrom(occ, probes, 0).Some? {
      var j :| 0 <= j < RandomProbes && probes[j] == ProbeFrom(occ, probes, 0).value && probes[j] !in occ;
      assert InBoard(probes[j]);
    }
  }
}
