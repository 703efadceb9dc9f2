/**
 Toroidal grid geometry of the Snake board: the four headings, cells,
 C#-style wrap-around and the one-cell step.
 */
module Grid {
  /** The board is a fixed 18 x 12 torus. */
  const BoardW: int := 18
  const BoardH: int := 12

  datatype Dir = Up | Down | Left | Right

  /** A board cell; equality is by value, as for the source's struct. */
  datatype Vec2i = Vec2i(x: int, y: int)

  predicate InBoard(p: Vec2i) {
    0 <= p.x < BoardW && 0 <= p.y < BoardH
  }

  /** C#'s integer `/`: the quotient truncated toward zero. */
  function TruncDiv(x: int, m: int): int
    requires m > 0
  {
    if x >= 0 then x / m else -((-x) / m)
  }

  /** C#'s integer `%`: the remainder of TruncDiv, with the sign of `x`. */
  function TruncRem(x: int, m: int): int
    requires m > 0
  {
    x - m * TruncDiv(x, m)
  }

  /** Wraps `x` into `[0, m)`: the truncated remainder, lifted when negative. */
  function Mod(x: int, m: int): (r: int)
    requires m > 0
    ensures 0 <= r < m
  {
    var r := TruncRem(x, m);
    if r < 0 then r + m else r
  }

  /** A non-zero multiple of a positive `m` is at least `m` away from zero. */
  lemma {:induction false} MultipleBound(m: int, k: int)
    requires m > 0
    ensures k >= 1 ==> m * k >= m
    ensures k <= -1 ==> m * k <= -m
    decreases if k >= 0 then k else -k
  {
    if k > 1 {
      MultipleBound(m, k - 1);
      assert m * k == m * (k - 1) + m;
    } else if k < -1 {
      MultipleBound(m, k + 1);
      assert m * k == m * (k + 1) - m;
    }
  }

  /** Two representations `x == m * q + r` with `0 <= r < m` agree. */
  lemma {:induction false} RemainderUnique(x: int, m: int, q1: int, r1: int, q2: int, r2: int)
    requires m > 0
    requires x == m * q1 + r1 && 0 <= r1 < m
    requires x == m * q2 + r2 && 0 <= r2 < m
    ensures q1 == q2 && r1 == r2
  {
    assert m * (q1 - q2) == r2 - r1;
    MultipleBound(m, q1 - q2);
  }

  /** `Mod` is congruent to `x` modulo `m`: it is the Euclidean remainder. */
  lemma ModIsEuclidean(x: int, m: int)
    requires m > 0
    ensures Mod(x, m) == x % m
  {
    var q := TruncDiv(x, m);
    var r := TruncRem(x, m);
    assert x == m * q + r;
    if r < 0 {
      assert x == m * (q - 1) + (r + m);
      RemainderUnique(x, m, q - 1, r + m, x / m, x % m);
    } else {
      assert x >= 0 ==> r == x % m;
      assert r < m by {
        if x < 0 {
          assert (-x) == m * ((-x) / m) + (-x) % m;
        }
      }
      RemainderUnique(x, m, q, r, x / m, x % m);
    }
  }

  /** The unit displacement of one heading; the caller wraps the result. */
  function Step(p: Vec2i, d: Dir): (q: Vec2i)
    ensures (q.x == p.x && (q.y == p.y + 1 || q.y == p.y - 1))
         || (q.y == p.y && (q.x == p.x + 1 || q.x == p.x - 1))
  {
    match d
    case Up => Vec2i(p.x, p.y + 1)
    case Down => Vec2i(p.x, p.y - 1)
    case Left => Vec2i(p.x - 1, p.y)
    case Right => Vec2i(p.x + 1, p.y)
  }

  /** The reverse heading. */
  function Opposite(d: Dir): Dir {
    match d
    case Up => Down
    case Down => Up
    case Left => Right
    case Right => Left
  }

  /** True for exactly the four 180-degree reversals. */
  function IsOpposite(a: Dir, b: Dir): (r: bool)
    ensures r <==> b == Opposite(a)
  {
    (a == Up && b == Down) ||
    (a == Down && b == Up) ||
    (a == Left && b == Right) ||
    (a == Right && b == Left)
  }

  lemma IsOppositeSymmetricIrreflexive(a: Dir, b: Dir)
    ensures IsOpposite(a, b) <==> IsOpposite(b, a)
    ensures !IsOpposite(a, a)
  {
  }

  /** Both coordinates wrapped onto the torus. */
  function Wrap(p: Vec2i): (q: Vec2i)
    ensures InBoard(q)
  {
    Vec2i(Mod(p.x, BoardW), Mod(p.y, BoardH))
  }

  /** The cell a head at `p` moves to when heading `d`. */
  function NextHead(p: Vec2i, d: Dir): (q: Vec2i)
    ensures InBoard(q)
  {
    Wrap(Step(p, d))
  }

  /** Inside the board, a step that stays inside is not changed by wrapping. */
  lemma WrapInBoard(p: Vec2i)
    requires InBoard(p)
    ensures Wrap(p) == p
  {
    ModIsEuclidean(p.x, BoardW);
    ModIsEuclidean(p.y, BoardH);
  }

  /** Leaving the board over any edge re-enters it over the opposite edge. */
  lemma WrapEdges(x: int, y: int)
    requires 0 <= x < BoardW && 0 <= y < BoardH
    ensures NextHead(Vec2i(BoardW - 1, y), Right) == Vec2i(0, y)
    ensures NextHead(Vec2i(0, y), Left) == Vec2i(BoardW - 1, y)
    ensures NextHead(Vec2i(x, BoardH - 1), Up) == Vec2i(x, 0)
    ensures NextHead(Vec2i(x, 0), Down) == Vec2i(x, BoardH - 1)
  {
    ModNear(x, BoardW);
    ModNear(y, BoardH);
    ModNear(BoardW, BoardW);
    ModNear(BoardH, BoardH);
    ModNear(-1, BoardW);
    ModNear(-1, BoardH);
  }

  /** Wrapping a value at most one cell outside `[0, m)`. */
  lemma ModNear(x: int, m: int)
    requires m > 0 && -1 <= x <= m
    ensures Mod(x, m) == if x == -1 then m - 1 else if x == m then 0 else x
  {
    ModIsEuclidean(x, m);
    if x == -1 {
      RemainderUnique(x, m, -1, m - 1, x / m, x % m);
    } else if x == m {
      RemainderUnique(x, m, 1, 0, x / m, x % m);
    } else {
      RemainderUnique(x, m, 0, x, x / m, x % m);
    }
  }

  /** One wrapped step followed by one in the reverse heading returns to the start. */
  lemma {:induction false} NextHeadReverse(p: Vec2i, d: Dir)
    requires InBoard(p)
    ensures NextHead(NextHead(p, d), Opposite(d)) == p
  {
    var q := NextHead(p, d);
    var s := Step(p, d);
    ModNear(s.x, BoardW);
    ModNear(s.y, BoardH);
    var t := Step(q, Opposite(d));
    ModNear(t.x, BoardW);
    ModNear(t.y, BoardH);
  }
}
