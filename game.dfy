/**
 One player's game: the session state, what one tick, a food spawn and a
 reset do to it (as functions on a snapshot of the state, with their
 properties as lemmas), and the `Session` class whose methods update the
 fields in place and are proved to follow those functions.
 */
module Game {
  import opened Options
  import opened Grid
  import opened Spawner
  import opened Leaderboard

  /** Points for one eaten food. */
  const FoodValue: nat := 10
  /** Cells of a fresh snake. */
  const StartLength: nat := 4

  /** A snapshot of every field of a session except its owner. */
  datatype SessionState = SessionState(
    running: bool,
    gameOver: bool,
    score: nat,
    dir: Dir,
    pendingDir: Dir,
    snake: seq<Vec2i>,      // head first, tail last
    snakeSet: set<Vec2i>,   // occupancy index of `snake`
    food: Vec2i)

  /** A new state and the score it hands to the leaderboard, if any. */
  datatype Outcome = Outcome(state: SessionState, submitted: Option<nat>)

  /** The fields of a session before its first reset (C#'s defaults). */
  const Blank: SessionState := SessionState(false, false, 0, Up, Up, [], {}, Vec2i(0, 0))

  function Elements(s: seq<Vec2i>): set<Vec2i> {
    set p | p in s
  }

  predicate NoDuplicates(s: seq<Vec2i>) {
    forall i, j :: 0 <= i < j < |s| ==> s[i] != s[j]
  }

  /**
   What holds between operations: a non-empty duplicate-free body inside the
   board, the occupancy set equal to its cells, the food inside the board and
   off the body unless the game is over, and a finished game not running.
   */
  ghost predicate Inv(st: SessionState) {
    && |st.snake| >= 1
    && NoDuplicates(st.snake)
    && st.snakeSet == Elements(st.snake)
    && (forall i :: 0 <= i < |st.snake| ==> InBoard(st.snake[i]))
    && InBoard(st.food)
    && (!st.gameOver ==> st.food !in st.snakeSet)
    && (st.gameOver ==> !st.running)
  }

  /** The game ends: stop and hand the current score to the leaderboard. */
  function EndGame(st: SessionState): Outcome {
    Outcome(st.(running := false, gameOver := true), Some(st.score))
  }

  /** Places the food on the spawner's cell, or ends the game on a full board. */
  function AfterSpawn(st: SessionState, probes: seq<Vec2i>): Outcome
    requires |probes| >= RandomProbes
  {
    match SpawnChoice(st.snakeSet, probes)
    case Some(p) => Outcome(st.(food := p), None)
    case None => EndGame(st)
  }

  /**
   One tick: commit the pending heading, move the head one wrapped cell, die
   if that cell is occupied (the tail has not moved yet), otherwise eat and
   grow, or drop the tail.
   */
  function AfterTick(st: SessionState, probes: seq<Vec2i>): Outcome
    requires |st.snake| >= 1 && |probes| >= RandomProbes
  {
    var turned := st.(dir := st.pendingDir);
    var next := NextHead(st.snake[0], turned.dir);
    if next in st.snakeSet then
      EndGame(turned)
    else
      var grown := turned.(snake := [next] + st.snake, snakeSet := st.snakeSet + {next});
      if next == st.food then
        AfterSpawn(grown.(score := st.score + FoodValue), probes)
      else
        var tail := st.snake[|st.snake| - 1];
        Outcome(grown.(snake := grown.snake[..|st.snake|], snakeSet := grown.snakeSet - {tail}), None)
  }

  /** The starting body: the centre cell (BoardW / 2, BoardH / 2) and the three cells to its left. */
  function StartBody(): seq<Vec2i> {
    [Vec2i(9, 6), Vec2i(8, 6), Vec2i(7, 6), Vec2i(6, 6)]
  }

  /** A fresh game; `prev` only supplies the food cell a failed spawn would leave. */
  function AfterReset(prev: SessionState, probes: seq<Vec2i>): Outcome
    requires |probes| >= RandomProbes
  {
    var start := SessionState(false, false, 0, Right, Right, StartBody(), Elements(StartBody()), prev.food);
    var spawned := AfterSpawn(start, probes);
    Outcome(spawned.state.(running := true), spawned.submitted)
  }

  /** The pending heading after a request: a reversal of the pending heading is ignored. */
  function Arbitrate(pending: Dir, requested: Dir): (r: Dir)
    ensures !IsOpposite(pending, r)
    ensures r == requested <==> !IsOpposite(pending, requested)
    ensures IsOpposite(pending, requested) ==> r == pending
  {
    if IsOpposite(pending, requested) then pending else requested
  }

  /** A duplicate-free body has as many cells as its occupancy set. */
  lemma {:induction false} DistinctCardinality(s: seq<Vec2i>)
    requires NoDuplicates(s)
    ensures |Elements(s)| == |s|
  {
    if s != [] {
      DistinctCardinality(s[1..]);
      assert Elements(s) == {s[0]} + Elements(s[1..]);
      assert s[0] !in Elements(s[1..]);
    }
  }

  lemma BodyLengthMatchesOccupancy(st: SessionState)
    requires Inv(st)
    ensures |st.snake| == |st.snakeSet|
  {
    DistinctCardinality(st.snake);
  }

  /** A spawn leaves the body and score alone; it puts the food off the body or ends the game. */
  lemma AfterSpawnCorrect(st: SessionState, probes: seq<Vec2i>)
    requires ValidProbes(probes)
    ensures var o := AfterSpawn(st, probes);
      && o.state.snake == st.snake && o.state.snakeSet == st.snakeSet && o.state.score == st.score
      && (!BoardFull(st.snakeSet) ==>
            o.state == st.(food := o.state.food) && o.submitted == None
            && InBoard(o.state.food) && o.state.food !in st.snakeSet)
      && (BoardFull(st.snakeSet) ==>
            o.state == st.(running := false, gameOver := true) && o.submitted == Some(st.score))
  {
    SpawnChoiceCorrect(st.snakeSet, probes);
  }

  /**
   Moving onto an occupied cell ends the game: the heading is committed, the
   body, occupancy, food and score stay, and the score is submitted.
   */
  lemma TickCollision(st: SessionState, probes: seq<Vec2i>)
    requires |st.snake| >= 1 && |probes| >= RandomProbes
    requires NextHead(st.snake[0], st.pendingDir) in st.snakeSet
    ensures var o := AfterTick(st, probes);
      && o.state.running == false && o.state.gameOver == true
      && o.state.dir == st.pendingDir
      && o.state.snake == st.snake && o.state.snakeSet == st.snakeSet
      && o.state.food == st.food && o.state.score == st.score
      && o.submitted == Some(st.score)
  {
  }

  /** Running into the cell the tail would vacate is fatal as well. */
  lemma TickIntoTailIsFatal(st: SessionState, probes: seq<Vec2i>)
    requires Inv(st) && |probes| >= RandomProbes
    requires NextHead(st.snake[0], st.pendingDir) == st.snake[|st.snake| - 1]
    ensures AfterTick(st, probes).state.gameOver
    ensures AfterTick(st, probes).state.snake == st.snake
  {
    assert st.snake[|st.snake| - 1] in Elements(st.snake);
  }

  /** A plain move: the head advances one wrapped cell and the old tail is dropped. */
  lemma TickMove(st: SessionState, probes: seq<Vec2i>)
    requires Inv(st) && |probes| >= RandomProbes
    requires var next := NextHead(st.snake[0], st.pendingDir);
      next !in st.snakeSet && next != st.food
    ensures var next := NextHead(st.snake[0], st.pendingDir);
      var o := AfterTick(st, probes);
      && o.state.snake == [next] + st.snake[..|st.snake| - 1]
      && |o.state.snake| == |st.snake|
      && o.state.snakeSet == st.snakeSet + {next} - {st.snake[|st.snake| - 1]}
      && o.state.score == st.score && o.state.food == st.food
      && o.state.running == st.running && o.state.gameOver == st.gameOver
      && o.state.dir == st.pendingDir
      && o.submitted == None
  {
    var next := NextHead(st.snake[0], st.pendingDir);
    assert ([next] + st.snake)[..|st.snake|] == [next] + st.snake[..|st.snake| - 1];
  }

  /** Eating: the head advances onto the food, the score rises by 10 and the body by one cell. */
  lemma TickEat(st: SessionState, probes: seq<Vec2i>)
    requires Inv(st) && ValidProbes(probes)
    requires var next := NextHead(st.snake[0], st.pendingDir);
      next !in st.snakeSet && next == st.food
    ensures var next := NextHead(st.snake[0], st.pendingDir);
      var o := AfterTick(st, probes);
      && o.state.snake == [next] + st.snake
      && |o.state.snake| == |st.snake| + 1
      && o.state.score == st.score + FoodValue
      && (o.state.food !in o.state.snakeSet || (o.state.gameOver && o.submitted == Some(o.state.score)))
  {
    var next := NextHead(st.snake[0], st.pendingDir);
    var grown := st.(dir := st.pendingDir, snake := [next] + st.snake, snakeSet := st.snakeSet + {next}, score := st.score + FoodValue);
    AfterSpawnCorrect(grown, probes);
  }

  /** Pushing a new cell onto the front of a duplicate-free body. */
  lemma PushFront(next: Vec2i, s: seq<Vec2i>)
    requires NoDuplicates(s) && next !in Elements(s)
    ensures NoDuplicates([next] + s)
    ensures Elements([next] + s) == Elements(s) + {next}
  {
    var body := [next] + s;
    forall i, j | 0 <= i < j < |body| ensures body[i] != body[j] {
      if i == 0 {
        assert body[j] == s[j - 1];
      } else {
        assert body[i] == s[i - 1] && body[j] == s[j - 1];
      }
    }
  }

  /** Dropping the tail of a duplicate-free body removes exactly the tail cell. */
  lemma DropTail(s: seq<Vec2i>)
    requires NoDuplicates(s) && |s| >= 1
    ensures NoDuplicates(s[..|s| - 1])
    ensures Elements(s[..|s| - 1]) == Elements(s) - {s[|s| - 1]}
  {
    var n := |s|;
    var front := s[..n - 1];
    forall p ensures p in Elements(front) <==> p in Elements(s) - {s[n - 1]} {
      if p in Elements(front) {
        var k :| 0 <= k < n - 1 && front[k] == p;
        assert s[k] == p;
      }
      if p in Elements(s) && p != s[n - 1] {
        var k :| 0 <= k < n && s[k] == p;
        assert front[k] == p;
      }
    }
  }

  /** A tick keeps the session invariant. */
  lemma TickPreservesInv(st: SessionState, probes: seq<Vec2i>)
    requires Inv(st) && ValidProbes(probes)
    ensures Inv(AfterTick(st, probes).state)
  {
    var next := NextHead(st.snake[0], st.pendingDir);
    if next !in st.snakeSet {
      var body := [next] + st.snake;
      PushFront(next, st.snake);
      var grown := st.(dir := st.pendingDir, snake := body, snakeSet := st.snakeSet + {next});
      assert forall i :: 0 <= i < |body| ==> InBoard(body[i]);
      if next == st.food {
        AfterSpawnCorrect(grown.(score := st.score + FoodValue), probes);
      } else {
        DropTail(body);
        assert body[..|st.snake|] == body[..|body| - 1];
        var o := AfterTick(st, probes);
        assert o.state == grown.(snake := body[..|body| - 1], snakeSet := Elements(body) - {body[|body| - 1]});
      }
    }
  }

  /**
   A reset gives score 0, a running game that is not over, heading Right
   (committed and pending), the length-4 body at (9,6)..(6,6) with its
   occupancy set, and food off the body; it never submits a score and does
   not depend on the previous state.
   */
  lemma ResetCorrect(prev: SessionState, probes: seq<Vec2i>)
    requires ValidProbes(probes)
    ensures var o := AfterReset(prev, probes);
      && o.submitted == None
      && o.state.score == 0 && !o.state.gameOver && o.state.running
      && o.state.dir == Right && o.state.pendingDir == Right
      && o.state.snake == [Vec2i(9, 6), Vec2i(8, 6), Vec2i(7, 6), Vec2i(6, 6)]
      && |o.state.snake| == StartLength
      && o.state.snakeSet == {Vec2i(9, 6), Vec2i(8, 6), Vec2i(7, 6), Vec2i(6, 6)}
      && o.state.food !in o.state.snakeSet
      && Inv(o.state)
  {
    var body := StartBody();
    assert Elements(body) == {Vec2i(9, 6), Vec2i(8, 6), Vec2i(7, 6), Vec2i(6, 6)};
    StartBodyNotFull();
    var start := SessionState(false, false, 0, Right, Right, body, Elements(body), prev.food);
    AfterSpawnCorrect(start, probes);
  }

  lemma StartBodyNotFull()
    ensures !BoardFull(Elements(StartBody()))
  {
    assert Vec2i(0, 0) !in Elements(StartBody());
    assert InBoard(Vec2i(0, 0));
  }

  /** A reset leaves no trace of the previous game: the spawn always finds a cell. */
  lemma ResetIgnoresPrevious(prev: SessionState, probes: seq<Vec2i>)
    requires ValidProbes(probes)
    ensures AfterReset(prev, probes) == AfterReset(Blank, probes)
  {
    StartBodyNotFull();
    var body := StartBody();
    var start := SessionState(false, false, 0, Right, Right, body, Elements(body), prev.food);
    AfterSpawnCorrect(start, probes);
    AfterSpawnCorrect(start.(food := Blank.food), probes);
  }

  /**
   Because requests are checked against the pending heading only, two
   requests between ticks (Up, then Left) arm a reversal of the committed
   heading Right, and the next tick runs the head into the neck.
   */
  lemma TwoRequestsReverseIntoNeck(prev: SessionState, probes: seq<Vec2i>, probes2: seq<Vec2i>)
    requires ValidProbes(probes) && |probes2| >= RandomProbes
    ensures var st := AfterReset(prev, probes).state;
      var armed := st.(pendingDir := Arbitrate(Arbitrate(st.pendingDir, Up), Left));
      && IsOpposite(st.dir, armed.pendingDir)
      && AfterTick(armed, probes2).state.gameOver
  {
    ResetCorrect(prev, probes);
    ModNear(8, BoardW);
    ModNear(6, BoardH);
    assert Vec2i(8, 6) in {Vec2i(9, 6), Vec2i(8, 6), Vec2i(7, 6), Vec2i(6, 6)};
  }

  /** One player's session, updated in place. */
  class Session {
    const ownerId: PlayerId
    var running: bool
    var gameOver: bool
    var score: nat
    var dir: Dir
    var pendingDir: Dir
    var snake: seq<Vec2i>
    var snakeSet: set<Vec2i>
    var food: Vec2i

    function View(): SessionState
      reads this
    {
      SessionState(running, gameOver, score, dir, pendingDir, snake, snakeSet, food)
    }

    ghost predicate Valid()
      reads this
    {
      Inv(View())
    }

    /** A session as first created: every field at its default. */
    constructor (owner: PlayerId)
      ensures ownerId == owner && View() == Blank
    {
      ownerId := owner;
      running, gameOver, score := false, false, 0;
      dir, pendingDir := Up, Up;
      snake, snakeSet := [], {};
      food := Vec2i(0, 0);
    }

    /** Tries the random probes, then scans the board row by row; ends the game on a full board. */
    method SpawnFood(scores: BestScores, probes: seq<Vec2i>)
      requires ValidProbes(probes) && scores.Valid()
      modifies this, scores
      ensures scores.Valid()
      ensures View() == AfterSpawn(old(View()), probes).state
      ensures scores.View() == Submit(old(scores.View()), ownerId, AfterSpawn(old(View()), probes).submitted)
    {
      for i := 0 to RandomProbes
        invariant unchanged(this) && unchanged(scores)
        invariant ProbeFrom(snakeSet, probes, 0) == ProbeFrom(snakeSet, probes, i)
      {
        var p := probes[i];
        if p !in snakeSet {
          food := p;
          return;
        }
      }
      for y := 0 to BoardH
        invariant unchanged(this) && unchanged(scores)
        invariant ProbeFrom(snakeSet, probes, 0) == None
        invariant ScanFrom(snakeSet, 0, 0) == ScanFrom(snakeSet, y, 0)
      {
        for x := 0 to BoardW
          invariant unchanged(this) && unchanged(scores)
          invariant ScanFrom(snakeSet, 0, 0) == ScanFrom(snakeSet, y, x)
        {
          var p := Vec2i(x, y);
          if p !in snakeSet {
            food := p;
            return;
          }
        }
      }
      running := false;
      gameOver := true;
      scores.TrySetBest(ownerId, score);
    }

    /** Puts `next` in front of the body and into the occupancy set. */
    method PushHead(next: Vec2i)
      modifies this
      ensures View() == old(View()).(snake := [next] + old(snake), snakeSet := old(snakeSet) + {next})
    {
      snake := [next] + snake;
      snakeSet := snakeSet + {next};
    }

    /** Removes the last body cell from the body and from the occupancy set. */
    method RemoveTail()
      requires |snake| >= 1
      modifies this
      ensures View() == old(View()).(snake := old(snake)[..|old(snake)| - 1], snakeSet := old(snakeSet) - {old(snake)[|old(snake)| - 1]})
    {
      var tail := snake[|snake| - 1];
      snake := snake[..|snake| - 1];
      snakeSet := snakeSet - {tail};
    }

    /** Advances the game by one tick. */
    method TickOne(scores: BestScores, probes: seq<Vec2i>)
      requires |snake| >= 1 && scores.Valid() && ValidProbes(probes)
      modifies this, scores
      ensures scores.Valid()
      ensures View() == AfterTick(old(View()), probes).state
      ensures scores.View() == Submit(old(scores.View()), ownerId, AfterTick(old(View()), probes).submitted)
    {
      dir := pendingDir;
      var next := Step(snake[0], dir);
      next := Vec2i(Mod(next.x, BoardW), Mod(next.y, BoardH));
      if next in snakeSet {
        running := false;
        gameOver := true;
        scores.TrySetBest(ownerId, score);
        return;
      }
      PushHead(next);
      if next == food {
        score := score + FoodValue;
        SpawnFood(scores, probes);
      } else {
        RemoveTail();
      }
    }

    /** Starts a new game in this session. */
    method ResetGame(scores: BestScores, probes: seq<Vec2i>)
      requires scores.Valid() && ValidProbes(probes)
      modifies this, scores
      ensures Valid() && scores.Valid()
      ensures View() == AfterReset(old(View()), probes).state
      ensures scores.View() == old(scores.View())
    {
      score := 0;
      running := false;
      gameOver := false;
      dir := Right;
      pendingDir := Right;
      snake := [];
      snakeSet := {};
      var start := Vec2i(BoardW / 2, BoardH / 2);
      assert start == Vec2i(9, 6);
      snake := snake + [start];
      snakeSet := snakeSet + {start};
      for i := 1 to StartLength
        invariant snake == StartBody()[..i] && snakeSet == Elements(snake)
        invariant score == 0 && !running && !gameOver && dir == Right && pendingDir == Right
        invariant food == old(food) && unchanged(scores)
      {
        var p := Vec2i(start.x - i, start.y);
        ModNear(p.x, BoardW);
        p := p.(x := Mod(p.x, BoardW));
        snake := snake + [p];
        snakeSet := snakeSet + {p};
      }
      assert snake == StartBody();
      ghost var initial := View();
      assert initial == SessionState(false, false, 0, Right, Right, StartBody(), Elements(StartBody()), old(food));
      SpawnFood(scores, probes);
      assert View() == AfterSpawn(initial, probes).state;
      running := true;
      ResetCorrect(old(View()), probes);
    }
  }
}
