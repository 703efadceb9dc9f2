/**
 Best-ever score per player, and the ranked top-ten view of it.

 The source keeps the scores in a dictionary that is only ever added to, so
 its enumeration order is the order in which players first got an entry;
 `Scores.order` records that order, which decides how ties are ranked.
 */
module Leaderboard {
  import opened Options

  /** A player's numeric identity (a 64-bit id in the source). */
  type PlayerId = nat

  /** How many entries the ranked view keeps. */
  const TopCount: nat := 10

  datatype Scores = Scores(best: map<PlayerId, nat>, order: seq<PlayerId>)

  /** `order` lists every key of `best` exactly once. */
  ghost predicate WellFormed(sc: Scores) {
    && (forall i, j :: 0 <= i < j < |sc.order| ==> sc.order[i] != sc.order[j])
    && (forall id :: id in sc.best <==> id in sc.order)
  }

  /** The stored best after a finished game of `id` scored `score`. */
  function SetBest(sc: Scores, id: PlayerId, score: nat): (r: Scores)
    ensures r.best.Keys == sc.best.Keys + {id}
    ensures r.best[id] == if id in sc.best && sc.best[id] >= score then sc.best[id] else score
    ensures forall k :: k in sc.best && k != id ==> k in r.best && r.best[k] == sc.best[k]
    ensures forall k :: k in sc.best ==> sc.best[k] <= r.best[k]
    ensures id !in sc.best ==> r.order == sc.order + [id]
    ensures id in sc.best ==> r.order == sc.order
  {
    if id !in sc.best then Scores(sc.best[id := score], sc.order + [id])
    else if score > sc.best[id] then Scores(sc.best[id := score], sc.order)
    else sc
  }

  /** Applies a score submission, if there is one. */
  function Submit(sc: Scores, id: PlayerId, submitted: Option<nat>): Scores {
    match submitted
    case None => sc
    case Some(score) => SetBest(sc, id, score)
  }

  lemma SetBestWellFormed(sc: Scores, id: PlayerId, score: nat)
    requires WellFormed(sc)
    ensures WellFormed(SetBest(sc, id, score))
  {
    var r := SetBest(sc, id, score);
    if id !in sc.best {
      assert forall k :: k in r.order <==> k in sc.order || k == id;
    }
  }

  lemma SubmitWellFormed(sc: Scores, id: PlayerId, submitted: Option<nat>)
    requires WellFormed(sc)
    ensures WellFormed(Submit(sc, id, submitted))
  {
    if submitted.Some? {
      SetBestWellFormed(sc, id, submitted.value);
    }
  }

  /** Two submissions for one player give the larger score, in either order. */
  lemma SetBestCommutes(sc: Scores, id: PlayerId, s1: nat, s2: nat)
    ensures SetBest(SetBest(sc, id, s1), id, s2) == SetBest(SetBest(sc, id, s2), id, s1)
    ensures id !in sc.best ==> SetBest(SetBest(sc, id, s1), id, s2).best[id] == if s1 >= s2 then s1 else s2
  {
  }

  /** One line of the ranked view (the display name is left out). */
  datatype Entry = Entry(id: PlayerId, score: nat)

  /**
   One entry per player holding that player's stored best, listed in the
   order in which the players first got an entry.
   */
  function Entries(sc: Scores): (es: seq<Entry>)
    requires WellFormed(sc)
    ensures forall id :: id in sc.best <==> exists i :: 0 <= i < |es| && es[i].id == id
    ensures forall i, j :: 0 <= i < j < |es| ==> es[i].id != es[j].id
    ensures forall i :: 0 <= i < |es| ==> es[i].id in sc.best && es[i].score == sc.best[es[i].id]
    ensures |es| == |sc.order| && forall i :: 0 <= i < |es| ==> es[i].id == sc.order[i]
  {
    var es := seq(|sc.order|, i requires 0 <= i < |sc.order| => Entry(sc.order[i], sc.best[sc.order[i]]));
    assert forall id :: id in sc.best ==> exists i :: 0 <= i < |es| && es[i].id == id by {
      forall id | id in sc.best ensures exists i :: 0 <= i < |es| && es[i].id == id {
        var k :| 0 <= k < |sc.order| && sc.order[k] == id;
        assert es[k].id == id;
      }
    }
    es
  }

  predicate Descending(es: seq<Entry>) {
    forall i, j :: 0 <= i < j < |es| ==> es[i].score >= es[j].score
  }

  /** The entries of `es` with score `v`, in their order in `es`. */
  function WithScore(es: seq<Entry>, v: nat): seq<Entry> {
    if es == [] then []
    else if es[0].score == v then [es[0]] + WithScore(es[1..], v)
    else WithScore(es[1..], v)
  }

  /**
   Puts `e`, which came before every entry of `es`, into the descending `es`:
   behind the higher scores and ahead of the equal and lower ones.
   */
  function Insert(e: Entry, es: seq<Entry>): seq<Entry> {
    if es == [] then [e]
    else if es[0].score <= e.score then [e] + es
    else [es[0]] + Insert(e, es[1..])
  }

  /** A stable sort by descending score (LINQ's OrderByDescending). */
  function SortDescending(es: seq<Entry>): seq<Entry> {
    if es == [] then [] else Insert(es[0], SortDescending(es[1..]))
  }

  lemma {:induction false} InsertPermutes(e: Entry, es: seq<Entry>)
    ensures multiset(Insert(e, es)) == multiset([e] + es)
  {
    if es != [] && es[0].score > e.score {
      InsertPermutes(e, es[1..]);
      assert es == [es[0]] + es[1..];
    }
  }

  lemma {:induction false} InsertDescending(e: Entry, es: seq<Entry>)
    requires Descending(es)
    ensures Descending(Insert(e, es))
  {
    if es != [] && es[0].score > e.score {
      var rest := Insert(e, es[1..]);
      InsertDescending(e, es[1..]);
      InsertPermutes(e, es[1..]);
      forall j | 0 <= j < |rest| ensures es[0].score >= rest[j].score {
        assert rest[j] in multiset([e] + es[1..]);
        assert rest[j] == e || rest[j] in es[1..];
      }
    }
  }

  lemma {:induction false} InsertStable(e: Entry, es: seq<Entry>, v: nat)
    ensures WithScore(Insert(e, es), v) == WithScore([e] + es, v)
  {
    if es != [] && es[0].score > e.score {
      var rest := Insert(e, es[1..]);
      InsertStable(e, es[1..], v);
      assert ([es[0]] + rest)[1..] == rest;
      assert ([e] + es)[1..] == es;
      assert ([e] + es[1..])[1..] == es[1..];
    }
  }

  /** The sort is descending, a permutation, and keeps tied entries in input order. */
  lemma {:induction false} SortDescendingCorrect(es: seq<Entry>)
    ensures Descending(SortDescending(es))
    ensures multiset(SortDescending(es)) == multiset(es)
    ensures forall v :: WithScore(SortDescending(es), v) == WithScore(es, v)
  {
    if es != [] {
      SortDescendingCorrect(es[1..]);
      InsertPermutes(es[0], SortDescending(es[1..]));
      InsertDescending(es[0], SortDescending(es[1..]));
      assert es == [es[0]] + es[1..];
      forall v ensures WithScore(SortDescending(es), v) == WithScore(es, v) {
        InsertStable(es[0], SortDescending(es[1..]), v);
        assert ([es[0]] + SortDescending(es[1..]))[1..] == SortDescending(es[1..]);
      }
    }
  }

  /** The ranked leaderboard: the best scores, highest first, at most ten. */
  function GetTop10(sc: Scores): seq<Entry>
    requires WellFormed(sc)
  {
    var ranked := SortDescending(Entries(sc));
    SortDescendingCorrect(Entries(sc));
    assert |ranked| == |multiset(ranked)| == |Entries(sc)|;
    ranked[..if |ranked| < TopCount then |ranked| else TopCount]
  }

  /** Every line of the view is some player's stored best. */
  lemma TopEntriesStored(sc: Scores)
    requires WellFormed(sc)
    ensures forall e :: e in GetTop10(sc) ==> e.id in sc.best && e.score == sc.best[e.id]
  {
    var es := Entries(sc);
    var ranked := SortDescending(es);
    SortDescendingCorrect(es);
    var top := GetTop10(sc);
    assert top == ranked[..|top|];
    forall e | e in top ensures e.id in sc.best && e.score == sc.best[e.id] {
      assert e in multiset(ranked);
      assert e in multiset(es);
    }
  }

  /** A player missing from the view scores no higher than anyone shown. */
  lemma TopNotBeaten(sc: Scores, i: nat, id: PlayerId)
    requires WellFormed(sc)
    requires i < |GetTop10(sc)| && id in sc.best
    requires forall e :: e in GetTop10(sc) ==> e.id != id
    ensures sc.best[id] <= GetTop10(sc)[i].score
  {
    var es := Entries(sc);
    var ranked := SortDescending(es);
    SortDescendingCorrect(es);
    var top := GetTop10(sc);
    assert top == ranked[..|top|];
    var k :| 0 <= k < |sc.order| && sc.order[k] == id;
    assert es[k] in multiset(ranked);
    var j :| 0 <= j < |ranked| && ranked[j] == es[k];
    if j < |top| {
      assert false;
    }
  }

  /** No entry occurs twice. */
  predicate Distinct(es: seq<Entry>) {
    forall i, j :: 0 <= i < j < |es| ==> es[i] != es[j]
  }

  lemma {:induction false} DistinctCount(es: seq<Entry>, x: Entry)
    requires Distinct(es)
    ensures multiset(es)[x] <= 1
  {
    if es != [] {
      var rest := es[1..];
      assert forall k :: 0 <= k < |rest| ==> rest[k] == es[k + 1];
      DistinctCount(rest, x);
      assert es == [es[0]] + rest;
      assert es[0] !in rest;
    }
  }

  lemma RepeatCount(es: seq<Entry>, i: nat, j: nat)
    requires i < j < |es| && es[i] == es[j]
    ensures multiset(es)[es[i]] >= 2
  {
    assert es == es[..j] + es[j..];
    assert es[i] in es[..j];
    assert es[j..][0] == es[j];
  }

  /** The view takes each of its entries from the stored ones, so no player is shown twice. */
  lemma TopDistinct(sc: Scores)
    requires WellFormed(sc)
    ensures multiset(GetTop10(sc)) <= multiset(Entries(sc))
    ensures forall i, j :: 0 <= i < j < |GetTop10(sc)| ==> GetTop10(sc)[i].id != GetTop10(sc)[j].id
  {
    var es := Entries(sc);
    var ranked := SortDescending(es);
    SortDescendingCorrect(es);
    var top := GetTop10(sc);
    assert ranked == top + ranked[|top|..];
    TopEntriesStored(sc);
    forall i, j | 0 <= i < j < |top| ensures top[i].id != top[j].id {
      if top[i].id == top[j].id {
        assert top[i] == top[j];
        RepeatCount(top, i, j);
        DistinctCount(es, top[i]);
        assert false;
      }
    }
  }

  /** `WithScore` distributes over a split of its argument. */
  lemma {:induction false} WithScoreSplit(s: seq<Entry>, k: nat, v: nat)
    requires k <= |s|
    ensures WithScore(s, v) == WithScore(s[..k], v) + WithScore(s[k..], v)
  {
    if k == 0 {
      assert s[..k] == [] && s[k..] == s;
    } else {
      WithScoreSplit(s[1..], k - 1, v);
      assert s[1..][..k - 1] == s[..k][1..];
      assert s[1..][k - 1..] == s[k..];
    }
  }

  lemma {:induction false} WithScoreMembers(s: seq<Entry>, v: nat)
    ensures forall x :: x in WithScore(s, v) <==> x in s && x.score == v
  {
    if s != [] {
      WithScoreMembers(s[1..], v);
      assert s == [s[0]] + s[1..];
    }
  }

  lemma {:induction false} WithScoreDistinct(s: seq<Entry>, v: nat)
    requires Distinct(s)
    ensures Distinct(WithScore(s, v))
  {
    if s != [] {
      var rest := s[1..];
      assert forall k :: 0 <= k < |rest| ==> rest[k] == s[k + 1];
      WithScoreDistinct(rest, v);
      WithScoreMembers(rest, v);
      assert s[0] !in rest;
      var w := WithScore(s, v);
      if s[0].score == v {
        forall i, j | 0 <= i < j < |w| ensures w[i] != w[j] {
          assert w[j] == WithScore(rest, v)[j - 1];
          if i > 0 {
            assert w[i] == WithScore(rest, v)[i - 1];
          }
        }
      }
    }
  }

  /** In a duplicate-free list, whatever comes before an entry of a prefix's tail is in any prefix holding that entry. */
  lemma FirstStaysFirst(l: seq<Entry>, x: Entry, y: Entry, n: nat, m: nat)
    requires Distinct(l) && n <= |l| && m <= |l|
    requires x in l[..n] && y in l[n..] && y in l[..m]
    ensures x in l[..m]
  {
    var r :| 0 <= r < n && l[r] == x;
    var q :| 0 <= q < |l| - n && l[n..][q] == y;
    var p :| 0 <= p < m && l[p] == y;
    assert l[n + q] == l[p];
    assert l[..m][r] == x;
  }

  /**
   A stable reordering `ranked` of the duplicate-free `es`, cut after `n`
   entries: of two entries with the same score, the one kept comes first in `es`.
   */
  lemma CutKeepsOrder(es: seq<Entry>, ranked: seq<Entry>, n: nat, a: nat, b: nat, v: nat)
    requires Distinct(es) && n <= |ranked| && a < |es| && b < |es|
    requires WithScore(ranked, v) == WithScore(es, v)
    requires es[a] in ranked[..n] && es[b] in ranked && es[b] !in ranked[..n]
    requires es[a].score == v && es[b].score == v
    ensures a < b
  {
    assert ranked == ranked[..n] + ranked[n..];
    assert es[b] in ranked[n..];
    if b < a {
      var x, y := es[a], es[b];
      var l := WithScore(es, v);
      WithScoreDistinct(es, v);
      WithScoreSplit(ranked, n, v);
      WithScoreMembers(ranked[..n], v);
      WithScoreMembers(ranked[n..], v);
      var wt := WithScore(ranked[..n], v);
      assert l[..|wt|] == wt && l[|wt|..] == WithScore(ranked[n..], v);
      WithScoreSplit(es, a, v);
      WithScoreMembers(es[..a], v);
      var we := WithScore(es[..a], v);
      assert es[..a][b] == y;
      assert l[..|we|] == we;
      FirstStaysFirst(l, x, y, |wt|, |we|);
      assert false;
    }
  }

  /**
   Ties at the cut go to the player who got an entry first: a player left
   out of the view with the same best as a shown player came later in the
   entry order.
   */
  lemma TopTiesByEntryOrder(sc: Scores, a: nat, b: nat)
    requires WellFormed(sc)
    requires a < |sc.order| && b < |sc.order|
    requires exists i :: 0 <= i < |GetTop10(sc)| && GetTop10(sc)[i].id == sc.order[a]
    requires forall e :: e in GetTop10(sc) ==> e.id != sc.order[b]
    requires sc.best[sc.order[a]] == sc.best[sc.order[b]]
    ensures a < b
  {
    var es := Entries(sc);
    var ranked := SortDescending(es);
    SortDescendingCorrect(es);
    var top := GetTop10(sc);
    var n := |top|;
    assert top == ranked[..n];
    var i :| 0 <= i < n && top[i].id == sc.order[a];
    assert top[i] in multiset(es);
    var k :| 0 <= k < |es| && es[k] == top[i];
    assert k == a;
    assert es[b] in multiset(ranked);
    assert es[b] !in top;
    CutKeepsOrder(es, ranked, n, a, b, sc.best[sc.order[a]]);
  }

  /**
   The view holds min(10, #players) entries in non-increasing score order,
   each a stored best, and no player left out has a higher score than one shown.
   */
  lemma GetTop10Correct(sc: Scores)
    requires WellFormed(sc)
    ensures var top := GetTop10(sc);
      && |top| == (if |sc.order| < TopCount then |sc.order| else TopCount)
      && Descending(top)
      && (forall e :: e in top ==> e.id in sc.best && e.score == sc.best[e.id])
      && (forall i, id :: 0 <= i < |top| && id in sc.best && (forall e :: e in top ==> e.id != id) ==> sc.best[id] <= top[i].score)
      && multiset(top) <= multiset(Entries(sc))
      && (forall i, j :: 0 <= i < j < |top| ==> top[i].id != top[j].id)
  {
    TopDistinct(sc);
    var es := Entries(sc);
    var ranked := SortDescending(es);
    SortDescendingCorrect(es);
    assert |ranked| == |multiset(ranked)| == |es|;
    TopEntriesStored(sc);
    forall i, id | 0 <= i < |GetTop10(sc)| && id in sc.best && (forall e :: e in GetTop10(sc) ==> e.id != id)
      ensures sc.best[id] <= GetTop10(sc)[i].score
    {
      TopNotBeaten(sc, i, id);
    }
  }

  /** The stored best scores, mutated in place by `TrySetBest`. */
  class BestScores {
    var best: map<PlayerId, nat>
    var order: seq<PlayerId>

    function View(): Scores
      reads this
    {
      Scores(best, order)
    }

    ghost predicate Valid()
      reads this
    {
      WellFormed(View())
    }

    constructor ()
      ensures Valid() && View() == Scores(map[], [])
    {
      best := map[];
      order := [];
    }

    /** Stores `score` unless the player already has an entry at least as high. */
    method TrySetBest(id: PlayerId, score: nat)
      requires Valid()
      modifies this
      ensures Valid()
      ensures View() == SetBest(old(View()), id, score)
    {
      SetBestWellFormed(View(), id, score);
      if id !in best || score > best[id] {
        if id !in best {
          order := order + [id];
        }
        best := best[id := score];
      }
    }
  }
}
