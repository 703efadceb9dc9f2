# Snake80s game engine, modelled in Dafny

A model of the game-state engine of the Snake80s server plugin: an 18 x 12
toroidal board, one Snake session per player, a timer sweep that advances
every running session, food spawning (200 random tries, then a row-major
scan), direction input, and a best-score board with its top-ten view.

Files and modules:

- `options.dfy`: `Options` (an `Option` type).
- `grid.dfy`: `Grid` (board size, `Dir`,
  `Vec2i`, the C#-style `Mod`, `Step`, `IsOpposite`, the wrapped next head).
- `leaderboard.dfy`: `Leaderboard`. The stored bests as a `Scores` value
  (the map plus the order in which players first got an entry), `SetBest`,
  the stable descending sort and `GetTop10`. The `BestScores` class updates
  the map in place through `TrySetBest`.
- `spawner.dfy`: `Spawner`. The food cell chosen from the random draws or
  else from the row-major scan.
- `game.dfy`: `Game`. `SessionState` (a snapshot of a session's fields),
  the invariant `Inv`, the functions `AfterTick`, `AfterSpawn`, `AfterReset`
  and `Arbitrate` with their lemmas, and the `Session` class. Its
  `SpawnFood`, `TickOne` and `ResetGame` methods update the fields (body
  sequence, occupancy set, flags, score, food) in place with the source's
  loops, and each is proved to produce the corresponding function's result.
- `plugin.dfy`: `Plugin`. The `Snake80s` class holds the sessions by player
  and the best-score board. It has the button handlers' state changes
  (start, exit, direction), the disconnect hook and the timer sweep. The
  sweep is specified per session (`SweepViews`) and, for the score
  submissions, in key order (`SweepScores`).

Inputs that the plugin gets from its host are parameters:

- Each food spawn takes the generator's draws as a sequence of at least 200
  in-board cells.
- The sweep takes the enumeration order of the session dictionary as a
  duplicate-free sequence of its keys.
- Which players can be found and are connected is a set.

Direction requests are checked against the *pending* heading
(`Snake80s.cs:158`), not against the heading of the last tick. The model
follows this. `Game.TwoRequestsReverseIntoNeck` spells out the consequence.
Right after a reset (heading Right), the requests Up and then Left in the
same tick are both accepted. The next tick then turns the snake back onto
its own second cell, which ends the game.

## Model

| member | source | states |
|---|---|---|
| Grid.Mod | Snake80s.cs:611-615 | for m > 0 the wrapped value lies in [0, m) |
| Grid.ModIsEuclidean | Snake80s.cs:611-615 | the truncated remainder lifted by m is the Euclidean remainder, so it is congruent to x modulo m |
| Grid.ModNear | Snake80s.cs:611-615 | wrapping -1 gives m - 1, wrapping m gives 0, values in [0, m) are unchanged |
| Grid.Step | Snake80s.cs:617-626 | the step moves exactly one cell along exactly one axis |
| Grid.IsOpposite | Snake80s.cs:628-634 | true exactly when b is the reverse heading of a |
| Grid.IsOppositeSymmetricIrreflexive | Snake80s.cs:628-634 | the reversal test is symmetric and never holds for a heading and itself |
| Grid.Wrap | Snake80s.cs:194-195 | both coordinates wrapped, the result is inside the board |
| Grid.NextHead | Snake80s.cs:191-195 | the wrapped next head is always inside the board |
| Grid.WrapInBoard | Snake80s.cs:194-195 | wrapping leaves an in-board cell unchanged |
| Grid.WrapEdges | Snake80s.cs:191-195 | leaving over the right, left, top or bottom edge re-enters at the opposite edge on the same row or column |
| Grid.NextHeadReverse | Snake80s.cs:617-626 | a wrapped step followed by a wrapped step in the reverse heading returns to the start cell |
| Leaderboard.SetBest | Snake80s.cs:289-293 | the player gets an entry; it holds the score if there was none, else the larger of the old best and the score; other players' entries are unchanged and no best decreases; a first-time player is appended to the entry order and everyone else keeps their place |
| Leaderboard.Submit | Snake80s.cs:198-202 | no ensures; applies `SetBest` when a finished game hands over a score; see `SubmitWellFormed` |
| Leaderboard.SetBestWellFormed | Snake80s.cs:289-293 | after a submission the entry order still lists every player with an entry exactly once (where the new player goes is stated by `SetBest`) |
| Leaderboard.SetBestCommutes | Snake80s.cs:289-293 | two submissions for one player in either order give the same board, and from no entry they leave the larger score |
| Leaderboard.SubmitWellFormed | Snake80s.cs:198-202 | a submission from a finished game keeps the board well formed |
| Leaderboard.BestScores.constructor | Snake80s.cs:36 | the plugin starts with an empty board |
| Leaderboard.BestScores.TrySetBest | Snake80s.cs:289-293 | the in-place update produces exactly `SetBest` of the old board and keeps it well formed |
| Leaderboard.Entries | Snake80s.cs:297-303 | every player with a stored best has an entry, no player has two, each entry carries that player's stored best, and the entries follow the first-entry order |
| Leaderboard.Insert | Snake80s.cs:304 | no ensures; one insertion step of the stable sort; see `InsertPermutes`, `InsertDescending`, `InsertStable` |
| Leaderboard.SortDescending | Snake80s.cs:304 | no ensures; the stable descending sort; see `SortDescendingCorrect` |
| Leaderboard.GetTop10 | Snake80s.cs:295-308 | no ensures; the ranked view; see `GetTop10Correct`, `TopDistinct`, `TopTiesByEntryOrder` |
| Leaderboard.SortDescendingCorrect | Snake80s.cs:304 | the sort is non-increasing by score, a permutation of its input, and keeps the entries of each score in input order |
| Leaderboard.InsertPermutes | Snake80s.cs:304 | inserting one entry into the sorted rest is a permutation |
| Leaderboard.InsertDescending | Snake80s.cs:304 | inserting into a descending list keeps it descending |
| Leaderboard.InsertStable | Snake80s.cs:304 | the insert puts an entry ahead of equal scores, so entries of equal score keep their input order |
| Leaderboard.TopEntriesStored | Snake80s.cs:297-303 | every entry of the view is a stored (player, best) pair |
| Leaderboard.TopNotBeaten | Snake80s.cs:304-308 | a stored player missing from the view scores no more than any entry shown |
| Leaderboard.TopDistinct | Snake80s.cs:295-308 | the view's entries are taken from the stored entries (as a sub-multiset), so no player is shown twice |
| Leaderboard.TopTiesByEntryOrder | Snake80s.cs:297-305 | when a shown player and a left-out player have the same best, the shown one got an entry first |
| Leaderboard.CutKeepsOrder | Snake80s.cs:304-305 | cutting a stable reordering of duplicate-free entries keeps, of two equal scores, the one that came first |
| Leaderboard.GetTop10Correct | Snake80s.cs:295-308 | the view has min(10, players) entries in non-increasing score order, each a stored best, no player shown twice, drawn from the stored entries, and no player left out scores higher than one shown |
| Spawner.ProbeFrom | Snake80s.cs:263-271 | no ensures; the random phase; see `ProbeFromCorrect` |
| Spawner.ScanFrom | Snake80s.cs:273-282 | no ensures; the row-major scan; see `ScanFromCorrect` |
| Spawner.SpawnChoice | Snake80s.cs:261-287 | no ensures; the probe phase, then the scan; see `SpawnChoiceCorrect` |
| Spawner.ProbeFromCorrect | Snake80s.cs:263-271 | the random phase returns the first free draw, and fails only when all 200 draws are occupied |
| Spawner.ScanFromCorrect | Snake80s.cs:273-282 | the scan returns the first free in-board cell at or after its start in row-major order, or none when every such cell is occupied |
| Spawner.SpawnChoiceCorrect | Snake80s.cs:261-287 | a cell is chosen exactly when the board is not full; it is inside the board and free; after a failed random phase it is the first free cell in row-major order |
| Game.Arbitrate | Snake80s.cs:151-161 | the resulting pending heading never reverses the previous pending heading; it equals the request exactly when the request is not a reversal of it, and a rejected reversal leaves the pending heading as it was |
| Game.AfterSpawn | Snake80s.cs:261-287 | no ensures; the food moves to the spawner's cell, or the game ends on a full board; see `AfterSpawnCorrect` |
| Game.AfterTick | Snake80s.cs:187-219 | no ensures; one tick; see `TickCollision`, `TickMove`, `TickEat`, `TickIntoTailIsFatal`, `TickPreservesInv` |
| Game.StartBody | Snake80s.cs:245-255 | no ensures; the four starting cells; see `ResetCorrect`, `StartBodyNotFull` |
| Game.AfterReset | Snake80s.cs:233-259 | no ensures; a fresh game; see `ResetCorrect`, `ResetIgnoresPrevious` |
| Game.TwoRequestsReverseIntoNeck | Snake80s.cs:151-161 | two accepted requests between ticks can arm a reversal of the committed heading, and the next tick ends the game |
| Game.DistinctCardinality | Snake80s.cs:671-672 | a duplicate-free body has as many cells as its occupancy set |
| Game.BodyLengthMatchesOccupancy | Snake80s.cs:671-672 | in a valid session the body length equals the size of the occupancy set |
| Game.AfterSpawnCorrect | Snake80s.cs:261-287 | a spawn never changes body, occupancy or score; on a board with a free cell it only moves the food, to a free in-board cell; on a full board it stops and ends the game and submits the score |
| Game.TickCollision | Snake80s.cs:197-203 | moving onto an occupied cell stops and ends the game, commits the heading, keeps body, occupancy, food and score, and submits the score |
| Game.TickIntoTailIsFatal | Snake80s.cs:197-217 | moving onto the current tail cell ends the game, because the collision test runs before the tail is dropped |
| Game.TickMove | Snake80s.cs:205-218 | without collision or food the head is the wrapped step along the pending heading, the old tail is dropped, length and score stay, and nothing is submitted |
| Game.TickEat | Snake80s.cs:205-212 | eating the food puts the head on it, raises the score by exactly 10 and the length by exactly 1, and the new food is off the body unless the board filled up and the game ended |
| Game.PushFront | Snake80s.cs:205-206 | pushing a free cell onto a duplicate-free body keeps it duplicate-free and adds exactly that cell to the occupancy |
| Game.DropTail | Snake80s.cs:215-217 | dropping the tail keeps the body duplicate-free and removes exactly the tail cell from the occupancy |
| Game.TickPreservesInv | Snake80s.cs:187-219 | a tick keeps the invariant: occupancy equals the body's cells, no duplicates, every cell in the board, food in the board and off the body unless the game is over |
| Game.ResetCorrect | Snake80s.cs:233-259 | after a reset: score 0, running, not over, both headings Right, body [(9,6),(8,6),(7,6),(6,6)] with its occupancy set, food off the body, nothing submitted, invariant holds |
| Game.StartBodyNotFull | Snake80s.cs:245-255 | the four-cell starting body leaves a free cell, so the reset's spawn cannot fail |
| Game.ResetIgnoresPrevious | Snake80s.cs:233-259 | the outcome of a reset does not depend on the state before it |
| Game.Session.constructor | Snake80s.cs:659-675 | a new session has every field at its default, owned by the given player |
| Game.Session.SpawnFood | Snake80s.cs:261-287 | the in-place spawn with its probe loop and nested scan loops produces `AfterSpawn` of the old state and submits what it submits |
| Game.Session.PushHead | Snake80s.cs:205-206 | the new head goes in front of the body and into the occupancy set; no other field changes |
| Game.Session.RemoveTail | Snake80s.cs:215-217 | the last body cell leaves both the body and the occupancy set; no other field changes |
| Game.Session.TickOne | Snake80s.cs:187-219 | the in-place tick produces `AfterTick` of the old state (whose invariant `TickPreservesInv` keeps) and the board receives exactly what `AfterTick` submits |
| Game.Session.ResetGame | Snake80s.cs:233-259 | the in-place reset, with its start-body loop, produces `AfterReset` of the old state, is valid and leaves the board unchanged |
| Plugin.Snake80s.constructor | Snake80s.cs:35-36 | no sessions and an empty board |
| Plugin.Snake80s.EnsureSession | Snake80s.cs:221-231 | an existing session is returned unchanged; otherwise a reset session is added under the player's id; the invariant is kept |
| Plugin.Snake80s.Start | Snake80s.cs:106-115 | after the start button the player's session is a fresh reset game, whatever was there before, and the board is unchanged |
| Plugin.Snake80s.Exit | Snake80s.cs:117-127 | the exit button stops the player's session without ending the game, and is a no-op without a session |
| Plugin.Snake80s.SetDir | Snake80s.cs:151-161 | a reversal of the pending heading is ignored, any other request becomes the pending heading, no-op without a session |
| Plugin.Snake80s.OnPlayerDisconnected | Snake80s.cs:163-167 | the player's session is removed and the board keeps its entry |
| Plugin.Snake80s.TickAllSessions | Snake80s.cs:169-185 | every running session of a reachable player advances by exactly one tick, all others are unchanged, and the finished games' scores reach the board in key order; the invariant is kept |
| Plugin.Advance | Snake80s.cs:174-183 | no ensures; one session's share of the sweep; see `SweepViewsCorrect` |
| Plugin.SweepViews | Snake80s.cs:169-185 | no ensures; the sessions after the sweep, all at once; see `SweepViewsCorrect`, `SweepInOrder` |
| Plugin.SweepViewsIn | Snake80s.cs:174-184 | no ensures; the sessions after visiting keys in order; see `SweepInOrder` |
| Plugin.SweepScores | Snake80s.cs:169-185 | no ensures; the board after the sweep's submissions in key order; see `SweepScoresCorrect`, `SweepNothing` |
| Plugin.SweepViewsCorrect | Snake80s.cs:169-185 | the sweep keeps every session's invariant and leaves stopped sessions and unreachable players' sessions unchanged |
| Plugin.SweepScoresCorrect | Snake80s.cs:169-185 | the sweep's submissions keep the board well formed and never lower a stored best |
| Plugin.SweepInOrder | Snake80s.cs:174-184 | advancing the sessions one key at a time gives the same sessions as advancing them all at once |
| Plugin.SweepNothing | Snake80s.cs:171 | with no sessions the sweep submits nothing |

## Left out

- User interface construction and rendering (the main window, controls,
  leaderboard panel, game redraws, name trimming). It is text layout sent to
  an external UI library.
- Permissions, chat and console commands, command registration, the
  repeating timer and its period, and plugin unload. They are host-framework
  plumbing with no game logic.
- The handlers' checks that the calling player exists and is connected.
  Each handler's state change is modelled as applying to a given player id.
- The random number generator. Each spawn takes its 200 draws as an
  arbitrary sequence of in-board cells.
- Player lookup and connectivity (`BasePlayer.FindByID`, `IsConnected`).
  These become the `reachable` set. Display names in the top-ten view are
  not modelled either; an entry is an id and a score.
- The order in which the session dictionary enumerates its keys. It is a
  parameter of the sweep: any duplicate-free listing of the keys.
- The hash of `Vec2i`. Cells are compared by value and the occupancy set is
  a Dafny `set`.
- `Plugin.Snake80s`: the registry holds each player's session state as a
  value rather than a shared reference to a `Session` object. No other
  holder of a session reference outlives a handler, so this changes nothing
  observable, but aliasing is not modelled. The in-place field updates of a
  single session are modelled by `Game.Session`.
- `Plugin.Snake80s.TickAllSessions` requires the snapshot to list exactly the
  current keys. The source re-checks with a lookup that skips vanished keys.
  Nothing removes a session during the sweep, so that skip path is kept in
  the body but never taken.
- `Game.Session.TickOne`: a score beyond 32-bit range is not modelled
  (scores are unbounded naturals). A 32-bit wrap would need more than 200
  million food items.
- `Grid.Mod` requires m > 0. The source only calls it with the board
  dimensions, and with m = 0 C# would throw.
- A new session's body list and occupancy set are null in the source until
  the reset runs. The model starts them empty.
