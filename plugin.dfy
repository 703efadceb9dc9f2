/**
 The plugin's process-wide state: the sessions by player, the best-score
 board, and the operations the input handlers, the disconnect hook and the
 repeating timer perform on them.

 Which players can be reached (found and connected) is a set supplied by
 the caller; each spawn's random draws are supplied per player.
 */
module Plugin {
  import opened Options
  import opened Grid
  import opened Spawner
  import opened Leaderboard
  import opened Game

  /** Every session satisfies the invariant and has the draws a tick may need. */
  ghost predicate Tickable(views: map<PlayerId, SessionState>, draws: map<PlayerId, seq<Vec2i>>) {
    forall id :: id in views ==> Inv(views[id]) && id in draws && ValidProbes(draws[id])
  }

  /** The sweep's effect on one session: a tick if it runs and its player is reachable. */
  function Advance(v: SessionState, id: PlayerId, reachable: set<PlayerId>, draws: map<PlayerId, seq<Vec2i>>): Outcome
    requires Inv(v) && id in draws && ValidProbes(draws[id])
  {
    if v.running && id in reachable then AfterTick(v, draws[id]) else Outcome(v, None)
  }

  /** The sessions after the sweep has visited the players in `done`. */
  function SweepViews(views: map<PlayerId, SessionState>, done: set<PlayerId>,
                      reachable: set<PlayerId>, draws: map<PlayerId, seq<Vec2i>>): map<PlayerId, SessionState>
    requires Tickable(views, draws)
  {
    map id | id in views :: if id in done then Advance(views[id], id, reachable, draws).state else views[id]
  }

  /** The sessions after the sweep has visited `keys`, in that order. */
  function SweepViewsIn(views: map<PlayerId, SessionState>, keys: seq<PlayerId>,
                        reachable: set<PlayerId>, draws: map<PlayerId, seq<Vec2i>>): map<PlayerId, SessionState>
    requires Tickable(views, draws)
  {
    if keys == [] then views
    else
      var id := keys[|keys| - 1];
      var before := SweepViewsIn(views, keys[..|keys| - 1], reachable, draws);
      if id in views then before[id := Advance(views[id], id, reachable, draws).state] else before
  }

  /** The best scores after the sweep has visited `keys`, in that order. */
  function SweepScores(sc: Scores, keys: seq<PlayerId>, views: map<PlayerId, SessionState>,
                       reachable: set<PlayerId>, draws: map<PlayerId, seq<Vec2i>>): Scores
    requires Tickable(views, draws)
  {
    if keys == [] then sc
    else
      var id := keys[|keys| - 1];
      var before := SweepScores(sc, keys[..|keys| - 1], views, reachable, draws);
      if id in views then Submit(before, id, Advance(views[id], id, reachable, draws).submitted) else before
  }

  /**
   The sweep keeps every session's invariant, touches only the sessions it
   ticks, and leaves stopped sessions and those of unreachable players alone.
   */
  lemma SweepViewsCorrect(views: map<PlayerId, SessionState>, done: set<PlayerId>,
                          reachable: set<PlayerId>, draws: map<PlayerId, seq<Vec2i>>)
    requires Tickable(views, draws)
    ensures var after := SweepViews(views, done, reachable, draws);
      && after.Keys == views.Keys
      && Tickable(after, draws)
      && (forall id :: id in views && (id !in done || !views[id].running || id !in reachable) ==> after[id] == views[id])
  {
    var after := SweepViews(views, done, reachable, draws);
    forall id | id in views ensures Inv(after[id]) {
      if id in done && views[id].running && id in reachable {
        TickPreservesInv(views[id], draws[id]);
      }
    }
  }

  /** The sweep's submissions keep the board well formed and never lower a stored best. */
  lemma {:induction false} SweepScoresCorrect(sc: Scores, keys: seq<PlayerId>, views: map<PlayerId, SessionState>,
                                              reachable: set<PlayerId>, draws: map<PlayerId, seq<Vec2i>>)
    requires Tickable(views, draws) && WellFormed(sc)
    ensures var after := SweepScores(sc, keys, views, reachable, draws);
      && WellFormed(after)
      && sc.best.Keys <= after.best.Keys
      && (forall id :: id in sc.best ==> sc.best[id] <= after.best[id])
  {
    if keys != [] {
      var id := keys[|keys| - 1];
      var before := SweepScores(sc, keys[..|keys| - 1], views, reachable, draws);
      SweepScoresCorrect(sc, keys[..|keys| - 1], views, reachable, draws);
      if id in views {
        SubmitWellFormed(before, id, Advance(views[id], id, reachable, draws).submitted);
      }
    }
  }

  /** With no sessions the sweep submits nothing. */
  lemma {:induction false} SweepNothing(sc: Scores, keys: seq<PlayerId>, views: map<PlayerId, SessionState>,
                                        reachable: set<PlayerId>, draws: map<PlayerId, seq<Vec2i>>)
    requires Tickable(views, draws) && |views| == 0
    ensures SweepScores(sc, keys, views, reachable, draws) == sc
  {
    if keys != [] {
      SweepNothing(sc, keys[..|keys| - 1], views, reachable, draws);
    }
  }

  /** Extending a prefix of a duplicate-free sequence by its next element. */
  lemma PrefixStep(keys: seq<PlayerId>, i: nat)
    requires i < |keys|
    requires forall a, b :: 0 <= a < b < |keys| ==> keys[a] != keys[b]
    ensures keys[..i + 1] == keys[..i] + [keys[i]]
    ensures keys[i] !in keys[..i]
  {
  }

  /**
   Visiting the players in `keys` one after another gives the same sessions
   as advancing, all at once, every session whose player is in `keys`.
   */
  lemma {:induction false} SweepInOrder(views: map<PlayerId, SessionState>, keys: seq<PlayerId>, done: set<PlayerId>,
                                        reachable: set<PlayerId>, draws: map<PlayerId, seq<Vec2i>>)
    requires Tickable(views, draws)
    requires forall id :: id in views ==> (id in keys <==> id in done)
    ensures SweepViewsIn(views, keys, reachable, draws) == SweepViews(views, done, reachable, draws)
  {
    if keys != [] {
      var n := |keys| - 1;
      var id := keys[n];
      assert keys == keys[..n] + [id];
      var done' := set k | k in views && k in keys[..n];
      SweepInOrder(views, keys[..n], done', reachable, draws);
      var lhs := SweepViewsIn(views, keys, reachable, draws);
      var rhs := SweepViews(views, done, reachable, draws);
      var prev := SweepViews(views, done', reachable, draws);
      assert lhs.Keys == rhs.Keys;
      forall k | k in lhs ensures lhs[k] == rhs[k] {
        assert k in keys <==> k in keys[..n] || k == id;
      }
    }
  }

  /** One more player visited by the sweep. */
  lemma SweepStep(sc: Scores, keys: seq<PlayerId>, i: nat, views: map<PlayerId, SessionState>,
                  reachable: set<PlayerId>, draws: map<PlayerId, seq<Vec2i>>)
    requires Tickable(views, draws) && i < |keys| && keys[i] in views && keys[i] !in keys[..i]
    ensures SweepViewsIn(views, keys[..i + 1], reachable, draws)
      == SweepViewsIn(views, keys[..i], reachable, draws)[keys[i] := Advance(views[keys[i]], keys[i], reachable, draws).state]
    ensures SweepScores(sc, keys[..i + 1], views, reachable, draws)
      == Submit(SweepScores(sc, keys[..i], views, reachable, draws), keys[i], Advance(views[keys[i]], keys[i], reachable, draws).submitted)
    ensures keys[i] in SweepViewsIn(views, keys[..i], reachable, draws)
    ensures SweepViewsIn(views, keys[..i], reachable, draws)[keys[i]] == views[keys[i]]
  {
    assert keys[..i + 1][..i] == keys[..i];
    SweepInOrder(views, keys[..i], (set k | k in views && k in keys[..i]), reachable, draws);
  }

  /**
   The plugin's sessions and leaderboard. Each player's session is held as
   its state; the in-place updates of one session are those of `Game.Session`.
   */
  class Snake80s {
    var sessions: map<PlayerId, SessionState>
    const bestScores: BestScores

    /** Every session satisfies the game invariant and the board is well formed. */
    ghost predicate Valid()
      reads this, bestScores
    {
      bestScores.Valid() && forall id :: id in sessions ==> Inv(sessions[id])
    }

    constructor ()
      ensures Valid() && sessions == map[] && fresh(bestScores)
      ensures bestScores.View() == Scores(map[], [])
    {
      sessions := map[];
      bestScores := new BestScores();
    }

    /** Returns the player's session, creating and resetting one if there is none. */
    method EnsureSession(id: PlayerId, probes: seq<Vec2i>) returns (st: SessionState)
      requires Valid() && ValidProbes(probes)
      modifies this
      ensures Valid()
      ensures id in sessions && st == sessions[id]
      ensures id in old(sessions) ==> sessions == old(sessions)
      ensures id !in old(sessions) ==> sessions == old(sessions)[id := AfterReset(Blank, probes).state]
    {
      if id in sessions {
        return sessions[id];
      }
      ResetCorrect(Blank, probes);
      st := AfterReset(Blank, probes).state;
      sessions := sessions[id := st];
    }

    /** The start button: make sure there is a session, then reset it. */
    method Start(id: PlayerId, probesCreate: seq<Vec2i>, probesReset: seq<Vec2i>)
      requires Valid() && ValidProbes(probesCreate) && ValidProbes(probesReset)
      modifies this
      ensures Valid()
      ensures sessions == old(sessions)[id := AfterReset(Blank, probesReset).state]
      ensures bestScores.View() == old(bestScores.View())
    {
      var st := EnsureSession(id, probesCreate);
      ResetCorrect(st, probesReset);
      ResetIgnoresPrevious(st, probesReset);
      sessions := sessions[id := AfterReset(st, probesReset).state];
    }

    /** The exit button: the player's session, if any, stops without being over. */
    method Exit(id: PlayerId)
      requires Valid()
      modifies this
      ensures Valid()
      ensures sessions == if id in old(sessions) then old(sessions)[id := old(sessions)[id].(running := false)] else old(sessions)
    {
      if id in sessions {
        sessions := sessions[id := sessions[id].(running := false)];
      }
    }

    /** A direction button: a no-op without a session, else arbitrated against the pending heading. */
    method SetDir(id: PlayerId, d: Dir)
      requires Valid()
      modifies this
      ensures Valid()
      ensures sessions == if id in old(sessions)
        then old(sessions)[id := old(sessions)[id].(pendingDir := Arbitrate(old(sessions)[id].pendingDir, d))]
        else old(sessions)
    {
      if id in sessions {
        var st := sessions[id];
        if IsOpposite(st.pendingDir, d) {
          return;
        }
        sessions := sessions[id := st.(pendingDir := d)];
      }
    }

    /** The disconnect hook: the player's session is dropped; the leaderboard keeps its entry. */
    method OnPlayerDisconnected(id: PlayerId)
      requires Valid()
      modifies this
      ensures Valid()
      ensures sessions == old(sessions) - {id}
      ensures bestScores.View() == old(bestScores.View())
    {
      sessions := sessions - {id};
    }

    /**
     The timer's sweep over a snapshot of the keys (in the dictionary's
     enumeration order): every running session of a reachable player ticks
     once; finished games submit their scores in that order.
     */
    method TickAllSessions(snapshot: seq<PlayerId>, reachable: set<PlayerId>, draws: map<PlayerId, seq<Vec2i>>)
      requires Valid()
      requires forall i, j :: 0 <= i < j < |snapshot| ==> snapshot[i] != snapshot[j]
      requires forall id :: id in sessions <==> id in snapshot
      requires forall id :: id in sessions ==> id in draws && ValidProbes(draws[id])
      modifies this, bestScores
      ensures Valid()
      ensures Tickable(old(sessions), draws)
      ensures sessions == SweepViews(old(sessions), old(sessions).Keys, reachable, draws)
      ensures bestScores.View() == SweepScores(old(bestScores.View()), snapshot, old(sessions), reachable, draws)
    {
      ghost var views := sessions;
      assert Tickable(views, draws);
      if |sessions| == 0 {
        SweepNothing(old(bestScores.View()), snapshot, views, reachable, draws);
        return;
      }
      var i := 0;
      while i < |snapshot|
        invariant 0 <= i <= |snapshot|
        invariant bestScores.Valid()
        invariant sessions == SweepViewsIn(views, snapshot[..i], reachable, draws)
        invariant bestScores.View() == SweepScores(old(bestScores.View()), snapshot[..i], views, reachable, draws)
      {
        var id := snapshot[i];
        PrefixStep(snapshot, i);
        SweepStep(old(bestScores.View()), snapshot, i, views, reachable, draws);
        if id in sessions && sessions[id].running && id in reachable {
          var o := AfterTick(sessions[id], draws[id]);
          sessions := sessions[id := o.state];
          if o.submitted.Some? {
            bestScores.TrySetBest(id, o.submitted.value);
          }
        }
        i := i + 1;
      }
      assert snapshot[..i] == snapshot;
      SweepInOrder(views, snapshot, views.Keys, reachable, draws);
      SweepViewsCorrect(views, views.Keys, reachable, draws);
    }
  }
}
