/** The pure side of the Game model: starting a game, resolving its players,
    the display order of its players and the recent-games query. */
module Games {
  import opened Records
  import Mixin
  import Recent

  /** How many games the recent-games list shows by default. */
  const RecentCount: nat := 5

  /** What every stored game satisfies.  Its scores are the tally of its
      timeline; in progress, nobody has reached the winning score; once ended
      the two players are distinct, the winner and the loser are them in some
      order, an aborted game names them in stored order and a game won on
      the table was won by the one who reached the winning score. */
  ghost predicate WellFormed(g: Game) {
    && |g.players| == 2
    && var a, b := g.players[0], g.players[1];
    && g.scores.Keys == {a, b}
    && g.scores[a] == Tally(g.timeline, a) && g.scores[b] == Tally(g.timeline, b)
    && ScoredBy(g.timeline, a, b)
    && (g.end.None? <==> g.winner.None?)
    && (g.end.None? <==> g.loser.None?)
    && (g.end.None? ==> !g.incomplete && g.scores[a] < WinningScore && g.scores[b] < WinningScore)
    && (g.end.Some? ==> a != b && g.winner.Some? && g.loser.Some? && Pairing(g.players, g.winner.value, g.loser.value))
    && (g.end.Some? && g.incomplete ==> g.winner == Some(a))
    && (g.end.Some? && !g.incomplete ==>
          g.scores[g.winner.value] == WinningScore && g.scores[g.loser.value] < WinningScore)
  }

  /** Every goal of a timeline was scored by `a` or by `b`. */
  predicate ScoredBy(t: seq<Goal>, a: Id, b: Id) {
    t == [] || (ScoredBy(t[..|t| - 1], a, b) && (t[|t| - 1].scorer == a || t[|t| - 1].scorer == b))
  }

  /** `w` and `l` are the two players of `ps`, in one order or the other. */
  predicate Pairing(ps: seq<Id>, w: Id, l: Id) {
    |ps| == 2 && ((w == ps[0] && l == ps[1]) || (w == ps[1] && l == ps[0]))
  }

  /** `Game.begin(players)`: the player count is checked (none, one, more than
      two, in that order) and nothing else; the ids are neither looked up nor
      compared. */
  function Begin(ps: seq<Id>, now: int): (r: Result<Game>)
    ensures ps == [] ==> r == Err(GameError("Nobody wants to play?"))
    ensures |ps| == 1 ==> r == Err(GameError("Playing with yourself?"))
    ensures |ps| > 2 ==> r == Err(GameError("Only two at a time!"))
    ensures r.Ok? <==> |ps| == 2
    ensures r.Ok? ==>
      var g := r.value;
      && g.players == ps && g.start == now
      && (forall id :: id in g.scores <==> id in ps)
      && (forall id | id in g.scores :: g.scores[id] == 0)
      && g.end == None && g.winner == None && g.loser == None
      && g.timeline == [] && !g.incomplete
      && WellFormed(g)
  {
    if ps == [] then Err(GameError("Nobody wants to play?"))
    else if |ps| == 1 then Err(GameError("Playing with yourself?"))
    else if |ps| > 2 then Err(GameError("Only two at a time!"))
    else Ok(NewGame(now).(players := ps, scores := map id | id in ps :: 0))
  }

  /** The player of a two-player game who is not `scorer`. */
  function Other(ps: seq<Id>, scorer: Id): (o: Id)
    requires |ps| == 2
    ensures o in ps
    ensures scorer in ps ==> Pairing(ps, scorer, o)
    ensures scorer in ps && ps[0] != ps[1] ==> o != scorer
  {
    if ps[0] == scorer then ps[1] else ps[0]
  }

  /** Finding a player for each id succeeds exactly when every id parses, is
      stored, and occurs once. */
  lemma FoundAll(docs: map<Id, Player>, ids: seq<Id>)
    requires ids != []
    ensures |Mixin.Find(docs, ids)| == |ids| <==>
      Distinct(ids) && forall i | 0 <= i < |ids| :: ValidId(ids[i]) && ids[i] in docs
  {
    var found := Mixin.Find(docs, ids);
    if forall i | 0 <= i < |ids| :: ValidId(ids[i]) {
      var keys := found.Keys;
      var elems := Elements(ids);
      assert keys <= elems;
      ElementsCard(ids);
      assert elems == keys + (elems - keys);
      assert |elems| == |keys| + |elems - keys|;
      if |found| == |ids| {
        assert elems - keys == {};
        forall i | 0 <= i < |ids| ensures ids[i] in docs {
          assert ids[i] in elems;
        }
      }
      if Distinct(ids) && forall i | 0 <= i < |ids| :: ids[i] in docs {
        assert keys == elems;
      }
    }
  }

  /** `_load_players`: the game's players found in one query, keyed by id.
      When fewer come back than the game names, the source pads the list with
      unsaved players, which have no id, so building the lookup fails. */
  function LoadPlayers(docs: map<Id, Player>, ids: seq<Id>): (r: Result<map<Id, Player>>)
    requires ids != []
    ensures r.Ok? <==> Distinct(ids) && forall i | 0 <= i < |ids| :: ValidId(ids[i]) && ids[i] in docs
    ensures r.Err? ==> r.error == MissingKey
    ensures r.Ok? ==> (forall id :: id in r.value <==> id in ids) &&
                      forall id | id in r.value :: r.value[id] == docs[id]
  {
    FoundAll(docs, ids);
    var found := Mixin.Find(docs, ids);
    if |found| != |ids| then Err(MissingKey) else Ok(found)
  }

  /** `game.player(id)`: the stored player for `id` with the game's score for
      them attached; nothing for a game without players. */
  function PlayerOf(docs: map<Id, Player>, g: Game, id: Option<Id>): (r: Result<Option<PlayerView>>)
    ensures g.players == [] ==> r == Ok(None)
    ensures g.players != [] ==>
      (r.Ok? <==> && Distinct(g.players)
                  && (forall i | 0 <= i < |g.players| :: ValidId(g.players[i]) && g.players[i] in docs)
                  && id.Some? && id.value in g.players && id.value in g.scores)
    ensures r.Err? ==> r.error == MissingKey
    ensures g.players != [] && r.Ok? ==>
      r.value == Some(PlayerView(id.value, docs[id.value], g.scores[id.value]))
  {
    if g.players == [] then Ok(None)
    else match LoadPlayers(docs, g.players)
      case Err(e) => Err(e)
      case Ok(lookup) =>
        if id.None? || id.value !in lookup || id.value !in g.scores then Err(MissingKey)
        else Ok(Some(PlayerView(id.value, lookup[id.value], g.scores[id.value])))
  }

  /** `game.player1`: the first player while the game runs, the winner once it has ended. */
  function Player1(docs: map<Id, Player>, g: Game): (r: Result<Option<PlayerView>>)
    ensures g.players == [] ==> r.Err? || r == Ok(None)
    ensures r.Ok? && r.value.Some? ==>
      var v := r.value.value;
      && (g.end.Some? ==> g.winner == Some(v.id))
      && (g.end.None? ==> |g.players| >= 1 && v.id == g.players[0])
      && v.id in docs && v.id in g.scores
      && v.record == docs[v.id] && v.score == g.scores[v.id]
  {
    if g.end.Some? then PlayerOf(docs, g, g.winner)
    else if |g.players| < 1 then Err(MissingIndex)
    else PlayerOf(docs, g, Some(g.players[0]))
  }

  /** `game.player2`: the second player while the game runs, the loser once it has ended. */
  function Player2(docs: map<Id, Player>, g: Game): (r: Result<Option<PlayerView>>)
    ensures g.players == [] ==> r.Err? || r == Ok(None)
    ensures r.Ok? && r.value.Some? ==>
      var v := r.value.value;
      && (g.end.Some? ==> g.loser == Some(v.id))
      && (g.end.None? ==> |g.players| >= 2 && v.id == g.players[1])
      && v.id in docs && v.id in g.scores
      && v.record == docs[v.id] && v.score == g.scores[v.id]
  {
    if g.end.Some? then PlayerOf(docs, g, g.loser)
    else if |g.players| < 2 then Err(MissingIndex)
    else PlayerOf(docs, g, Some(g.players[1]))
  }

  /** In a two-player game (every stored id parsing), looking up either of
      its players succeeds exactly when the two ids are distinct and both
      stored, and then gives the stored record with that player's score. */
  lemma PairLookup(docs: map<Id, Player>, g: Game, id: Id)
    requires |g.players| == 2 && forall x | x in docs :: ValidId(x)
    requires g.scores.Keys == {g.players[0], g.players[1]}
    requires id in g.players
    ensures PlayerOf(docs, g, Some(id)).Ok? <==>
      g.players[0] != g.players[1] && g.players[0] in docs && g.players[1] in docs
    ensures PlayerOf(docs, g, Some(id)).Err? ==> PlayerOf(docs, g, Some(id)).error == MissingKey
    ensures PlayerOf(docs, g, Some(id)).Ok? ==>
      PlayerOf(docs, g, Some(id)).value == Some(PlayerView(id, docs[id], g.scores[id]))
  {
  }

  /** For a two-player game whose winner and loser, once it has ended, are its
      players in stored order, both accessors succeed exactly when the two
      ids are distinct and stored (every stored id parsing), and then show
      the players in that order. */
  lemma BothShown(docs: map<Id, Player>, g: Game)
    requires |g.players| == 2 && forall id | id in docs :: ValidId(id)
    requires g.scores.Keys == {g.players[0], g.players[1]}
    requires g.end.Some? ==> g.winner == Some(g.players[0]) && g.loser == Some(g.players[1])
    ensures Player1(docs, g).Ok? && Player2(docs, g).Ok? <==>
      g.players[0] != g.players[1] && g.players[0] in docs && g.players[1] in docs
    ensures Player1(docs, g).Err? ==> Player1(docs, g).error == MissingKey
    ensures Player1(docs, g).Ok? && Player2(docs, g).Err? ==> Player2(docs, g).error == MissingKey
    ensures Player1(docs, g).Ok? && Player2(docs, g).Ok? ==>
      && Player1(docs, g).value == Some(PlayerView(g.players[0], docs[g.players[0]], g.scores[g.players[0]]))
      && Player2(docs, g).value == Some(PlayerView(g.players[1], docs[g.players[1]], g.scores[g.players[1]]))
  {
  }

  /** For a well-formed game whose two players are stored and distinct, the
      two accessors show both of them: in stored order while the game runs,
      winner first once it has ended, and after a win on the table the first
      shown holds the winning score and the second less. */
  lemma DisplayOrder(docs: map<Id, Player>, g: Game)
    requires WellFormed(g)
    requires g.players[0] != g.players[1]
    requires g.players[0] in docs && g.players[1] in docs
    requires ValidId(g.players[0]) && ValidId(g.players[1])
    ensures Player1(docs, g).Ok? && Player1(docs, g).value.Some?
    ensures Player2(docs, g).Ok? && Player2(docs, g).value.Some?
    ensures var p1, p2 := Player1(docs, g).value.value, Player2(docs, g).value.value;
      && {p1.id, p2.id} == Elements(g.players)
      && (g.end.None? ==> p1.id == g.players[0] && p2.id == g.players[1])
      && (g.end.Some? ==> Some(p1.id) == g.winner && Some(p2.id) == g.loser)
      && (g.end.Some? && !g.incomplete ==> p1.score == WinningScore > p2.score)
  {
    assert Distinct(g.players);
    assert forall i | 0 <= i < |g.players| :: ValidId(g.players[i]) && g.players[i] in docs;
    assert Elements(g.players) == {g.players[0], g.players[1]};
  }

  /** `Game.recent_games(count)` over the collection `entries`: the newest
      `count` games, newest first (every stored game has a start time, so the
      query's `start != None` filter keeps them all). */
  function RecentGames(entries: seq<Recent.Entry>, count: nat := RecentCount): (r: seq<Recent.Entry>)
    ensures Recent.NewestFirst(r)
    ensures |r| == (if count == 0 || count >= |entries| then |entries| else count)
    ensures multiset(r) <= multiset(entries)
    ensures forall e, x | e in entries && e !in r && x in r :: e.1.start <= x.1.start
  {
    Recent.LimitedNewest(entries, count);
    Recent.Limit(Recent.SortNewestFirst(entries), count)
  }

  /** Every goal of a two-player timeline belongs to one of the two players. */
  lemma {:induction false} TimelineLength(t: seq<Goal>, a: Id, b: Id)
    requires ScoredBy(t, a, b)
    ensures |t| == Tally(t, a) + (if a != b then Tally(t, b) else 0)
  {
    if t != [] {
      TimelineLength(t[..|t| - 1], a, b);
    }
  }

  /** A game in progress has at most eight goals; one won on the table has
      between five and nine. */
  lemma GoalsInAGame(g: Game)
    requires WellFormed(g)
    ensures g.end.None? ==> |g.timeline| <= 2 * (WinningScore - 1)
    ensures g.end.Some? && !g.incomplete ==> WinningScore <= |g.timeline| <= 2 * WinningScore - 1
  {
    TimelineLength(g.timeline, g.players[0], g.players[1]);
  }

  /** The stored game collection: ids parse, every game is well formed, and
      the listing order lists each stored game exactly once. */
  ghost predicate Invariant(games: map<Id, Game>, order: seq<Id>) {
    && (forall id | id in games :: ValidId(id) && WellFormed(games[id]))
    && Distinct(order)
    && (forall id :: id in games <==> id in order)
  }

  /** The game a goal by `scorer` at clock value `now` leaves behind, before
      any win is decided. */
  function AfterGoal(g: Game, scorer: Id, now: int): Game
    requires scorer in g.scores
  {
    g.(timeline := g.timeline + [Goal(scorer, now)], scores := g.scores[scorer := g.scores[scorer] + 1])
  }

  /** A goal adds one to the scorer's tally and nothing to anyone else's. */
  lemma TallyAfterGoal(t: seq<Goal>, scorer: Id, now: int)
    ensures forall id :: Tally(t + [Goal(scorer, now)], id) == Tally(t, id) + (if id == scorer then 1 else 0)
  {
  }

  /** The game `play` leaves after a goal by `scorer` at clock value `now`:
      the goal recorded and, at the winning score, the game over with the
      scorer as winner and the other player as loser. */
  function Scored(g: Game, scorer: Id, now: int): (h: Game)
    requires |g.players| == 2 && scorer in g.scores
    ensures h.timeline == g.timeline + [Goal(scorer, now)]
    ensures h.players == g.players && h.start == g.start && h.incomplete == g.incomplete
    ensures h.scores.Keys == g.scores.Keys && h.scores[scorer] == g.scores[scorer] + 1
    ensures forall id | id in g.scores && id != scorer :: h.scores[id] == g.scores[id]
    ensures h.scores[scorer] < WinningScore ==> h.end == g.end && h.winner == g.winner && h.loser == g.loser
    ensures h.scores[scorer] >= WinningScore ==>
      h.end == Some(now) && h.winner == Some(scorer) && h.loser == Some(Other(g.players, scorer))
  {
    var h := AfterGoal(g, scorer, now);
    if h.scores[scorer] < WinningScore then h
    else h.(end := Some(now), winner := Some(scorer), loser := Some(Other(g.players, scorer)))
  }

  /** One goal in a game in progress: below the winning score the game goes
      on undecided, and the only way it ends is with the scorer on exactly
      the winning score, the other player the loser.  The goal is counted in
      the scorer's tally, so the game stays well formed, except that a win
      needs two distinct players. */
  lemma ScoredStep(g: Game, scorer: Id, now: int)
    requires WellFormed(g) && g.end.None? && scorer in g.players
    ensures var h := Scored(g, scorer, now);
      && !h.incomplete
      && (h.end.None? <==> h.scores[scorer] < WinningScore)
      && (h.end.None? ==> h.winner.None? && h.loser.None?)
      && (h.end.Some? ==>
            && h.scores[scorer] == WinningScore
            && Pairing(g.players, scorer, Other(g.players, scorer)))
      && (h.end.None? || g.players[0] != g.players[1] ==> WellFormed(h))
  {
    TallyAfterGoal(g.timeline, scorer, now);
  }

  /** The game `abort` leaves at clock value `now`: over and incomplete, its
      stored order standing in for winner and loser. */
  function Aborted(g: Game, now: int): (h: Game)
    requires |g.players| == 2
    ensures h.end == Some(now) && h.incomplete
    ensures h.winner == Some(g.players[0]) && h.loser == Some(g.players[1])
    ensures h.players == g.players && h.scores == g.scores && h.timeline == g.timeline && h.start == g.start
  {
    g.(winner := Some(g.players[0]), loser := Some(g.players[1]), incomplete := true, end := Some(now))
  }

  /** Aborting a game in progress between two distinct players keeps it well
      formed. */
  lemma AbortKeepsWellFormed(g: Game, now: int)
    requires WellFormed(g) && g.end.None?
    requires g.players[0] != g.players[1]
    ensures WellFormed(Aborted(g, now))
  {
  }

  /** Replacing a stored game by a well-formed one keeps the collection's invariant. */
  lemma ReplaceKeepsInvariant(games: map<Id, Game>, order: seq<Id>, id: Id, g: Game)
    requires Invariant(games, order) && id in games && WellFormed(g)
    ensures Invariant(games[id := g], order)
  {
  }
}
