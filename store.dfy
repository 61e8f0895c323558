/** The app's database, held in memory: the player and game collections,
    each a map from id to document, and the order in which the game
    collection is listed (the listing order).  Each operation loads documents,
    changes its copies and saves them back, as one sequential update. */
module Store {
  import opened Records
  import Mixin
  import Players
  import Games
  import Recent

  /** The game collection listed in the listing order: when every id of the
      order is stored, one entry per id, in that order. */
  function Listed(order: seq<Id>, games: map<Id, Game>): (r: seq<Recent.Entry>)
    ensures forall e | e in r :: e.0 in games && e.1 == games[e.0]
    ensures (forall i | 0 <= i < |order| :: order[i] in games) ==>
      && |r| == |order|
      && forall i | 0 <= i < |order| :: r[i] == (order[i], games[order[i]])
  {
    if order == [] then []
    else (if order[0] in games then [(order[0], games[order[0]])] else []) + Listed(order[1..], games)
  }

  /** The player collection once a game won on the table is saved: the
      loser and the winner, as loaded before either is saved, credited with
      the game, its points and its length. */
  function CreditWin(docs: map<Id, Player>, g: Game): map<Id, Player>
    requires g.end.Some? && g.winner.Some? && g.loser.Some?
    requires g.winner.value in docs && g.loser.value in docs
    requires g.winner.value in g.scores && g.loser.value in g.scores
  {
    var w, l, t := g.winner.value, g.loser.value, g.end.value - g.start;
    docs[l := Players.Lost(docs[l], g.scores[l], g.scores[w], t)]
        [w := Players.Won(docs[w], g.scores[w], g.scores[l], t)]
  }

  /** The player collection once an aborted game is saved: both of its
      players credited with an incomplete game and its length. */
  function CreditAbort(docs: map<Id, Player>, g: Game): map<Id, Player>
    requires g.end.Some? && |g.players| == 2
    requires g.players[0] in docs && g.players[1] in docs
  {
    var a, b, t := g.players[0], g.players[1], g.end.value - g.start;
    docs[a := Players.Abandoned(docs[a], t)][b := Players.Abandoned(docs[b], t)]
  }

  /** The player collection once the first `n` loaded players of `vs`, in
      turn, are credited with an incomplete game of length `t` and saved. */
  function CreditFirst(docs: map<Id, Player>, vs: seq<PlayerView>, n: nat, t: int): map<Id, Player>
    requires n <= |vs|
  {
    if n == 0 then docs
    else CreditFirst(docs, vs, n - 1, t)[vs[n - 1].id := Players.Abandoned(vs[n - 1].record, t)]
  }

  /** What a win does to the player records: the winner gains a game and a
      win, the loser a game and a loss; each gains their own score as points
      for, the other's as points against, and the game's length as playtime;
      names, incomplete counts and every other player stay as they were, so
      games minus wins minus losses is unchanged for everyone. */
  lemma CreditWinTotals(docs: map<Id, Player>, g: Game)
    requires g.end.Some? && g.winner.Some? && g.loser.Some? && g.winner != g.loser
    requires g.winner.value in docs && g.loser.value in docs
    requires g.winner.value in g.scores && g.loser.value in g.scores
    ensures var d, w, l, t := CreditWin(docs, g), g.winner.value, g.loser.value, g.end.value - g.start;
      && d.Keys == docs.Keys
      && (forall id | id in docs :: d[id].name == docs[id].name && d[id].incomplete == docs[id].incomplete)
      && (forall id | id in docs ::
            d[id].games - d[id].wins - d[id].losses == docs[id].games - docs[id].wins - docs[id].losses)
      && (forall id | id in docs && id != w && id != l :: d[id] == docs[id])
      && d[w].games == docs[w].games + 1 && d[w].wins == docs[w].wins + 1 && d[w].losses == docs[w].losses
      && d[l].games == docs[l].games + 1 && d[l].losses == docs[l].losses + 1 && d[l].wins == docs[l].wins
      && d[w].pointsFor == docs[w].pointsFor + g.scores[w]
      && d[w].pointsAgainst == docs[w].pointsAgainst + g.scores[l]
      && d[l].pointsFor == docs[l].pointsFor + g.scores[l]
      && d[l].pointsAgainst == docs[l].pointsAgainst + g.scores[w]
      && d[w].playtime == docs[w].playtime + t && d[l].playtime == docs[l].playtime + t
  {
  }

  /** What an abort does to the player records: each of the two players gains
      an incomplete game and the game's length as playtime; games, wins,
      losses, points and names stay as they were, as does every other player. */
  lemma CreditAbortTotals(docs: map<Id, Player>, g: Game)
    requires g.end.Some? && |g.players| == 2 && g.players[0] != g.players[1]
    requires g.players[0] in docs && g.players[1] in docs
    ensures var d, t := CreditAbort(docs, g), g.end.value - g.start;
      && d.Keys == docs.Keys
      && (forall id | id in docs && id !in g.players :: d[id] == docs[id])
      && (forall id | id in g.players ::
            && d[id].incomplete == docs[id].incomplete + 1
            && d[id].playtime == docs[id].playtime + t
            && d[id].(incomplete := 0, playtime := 0) == docs[id].(incomplete := 0, playtime := 0))
  {
  }

  /** Saving a won game and both credited players keeps the collections'
      invariants. */
  lemma WinKeepsInvariants(docs: map<Id, Player>, games: map<Id, Game>, order: seq<Id>, id: Id, g: Game)
    requires Players.Invariant(docs) && Games.Invariant(games, order)
    requires id in games && Games.WellFormed(g) && g.end.Some? && g.winner != g.loser
    requires g.winner.value in docs && g.loser.value in docs
    ensures Players.Invariant(CreditWin(docs, g)) && Games.Invariant(games[id := g], order)
  {
    var w, l, t := g.winner.value, g.loser.value, g.end.value - g.start;
    var lost := Players.Lost(docs[l], g.scores[l], g.scores[w], t);
    Players.CreditKeepsInvariant(docs, l, lost);
    Players.CreditKeepsInvariant(docs[l := lost], w, Players.Won(docs[w], g.scores[w], g.scores[l], t));
    Games.ReplaceKeepsInvariant(games, order, id, g);
  }

  /** A query result drawn from a listing without repeats has no repeats. */
  lemma OnceInQuery(all: seq<Recent.Entry>, r: seq<Recent.Entry>)
    requires Distinct(all) && multiset(r) <= multiset(all)
    ensures Distinct(r)
  {
    DistinctIsOnce(all);
    forall x ensures multiset(r)[x] <= 1 {
      assert multiset(r)[x] <= multiset(all)[x];
    }
    DistinctIsOnce(r);
  }

  /** A listing of the stored games, each exactly once. */
  ghost predicate ListsOnce(games: map<Id, Game>, all: seq<Recent.Entry>) {
    && (forall e | e in all :: e.0 in games && e.1 == games[e.0])
    && (forall id | id in games :: (id, games[id]) in all)
    && Distinct(all)
    && |all| == |games|
  }

  /** The recent-games query over a listing of the stored games. */
  lemma RecentOfListing(games: map<Id, Game>, all: seq<Recent.Entry>, count: nat)
    requires ListsOnce(games, all)
    ensures var r := Games.RecentGames(all, count);
      && Distinct(r)
      && (forall e | e in r :: e.0 in games && e.1 == games[e.0])
      && |r| == (if count == 0 || count >= |games| then |games| else count)
      && forall id, x | id in games && (id, games[id]) !in r && x in r :: games[id].start <= x.1.start
  {
    var r := Games.RecentGames(all, count);
    OnceInQuery(all, r);
    forall e | e in r ensures e in all {
      assert e in multiset(r);
    }
  }

  /** A player's recent-games query over a listing of the stored games. */
  lemma PlayerRecentOfListing(games: map<Id, Game>, all: seq<Recent.Entry>, pid: Id, count: nat)
    requires ListsOnce(games, all)
    ensures var r := Players.RecentGames(pid, all, count);
      && Distinct(r)
      && (forall e | e in r :: e.0 in games && e.1 == games[e.0])
      && (forall id, x | id in games && pid in games[id].players && (id, games[id]) !in r && x in r ::
            games[id].start <= x.1.start)
      && (count == 0 || count > |r| ==>
            forall id | id in games && pid in games[id].players :: (id, games[id]) in r)
  {
    OnceInQuery(all, Players.RecentGames(pid, all, count));
  }

  class Database {
    var players: map<Id, Player>
    var games: map<Id, Game>
    var gameOrder: seq<Id>

    /** What every operation keeps: ids parse, names are present, short and
        unique, every player has played exactly the games they won or lost
        (an aborted game counts as incomplete, not as played), and every game
        is well formed. */
    ghost predicate Valid()
      reads this
    {
      Players.Invariant(players) && Games.Invariant(games, gameOrder)
    }

    constructor ()
      ensures Valid()
      ensures players == map[] && games == map[] && gameOrder == []
    {
      players, games, gameOrder := map[], map[], [];
    }

    /** The games as the recent-games queries see them. */
    function Collection(): (r: seq<Recent.Entry>)
      reads this
      ensures forall e | e in r :: e.0 in games && e.1 == games[e.0]
    {
      Listed(gameOrder, games)
    }

    /** In a valid database the collection lists every stored game exactly
        once. */
    lemma ListsEachGameOnce()
      requires Valid()
      ensures ListsOnce(games, Collection())
    {
      var r := Collection();
      assert forall i | 0 <= i < |gameOrder| :: gameOrder[i] in games;
      forall id | id in games ensures (id, games[id]) in r {
        var i :| 0 <= i < |gameOrder| && gameOrder[i] == id;
        assert r[i] == (id, games[id]);
      }
      forall i, j | 0 <= i < j < |r| ensures r[i] != r[j] {
        assert r[i].0 == gameOrder[i] && r[j].0 == gameOrder[j];
      }
      ElementsCard(gameOrder);
      assert Elements(gameOrder) == games.Keys;
    }

    /** `Game.recent_games(count)` on the store: the newest `count` stored
        games (all of them for 0), newest first, each once, and no stored game
        left out is newer than one listed. */
    function RecentGames(count: nat := Games.RecentCount): (r: seq<Recent.Entry>)
      reads this
      requires Valid()
      ensures Recent.NewestFirst(r) && Distinct(r)
      ensures forall e | e in r :: e.0 in games && e.1 == games[e.0]
      ensures |r| == if count == 0 || count >= |games| then |games| else count
      ensures forall id, x | id in games && (id, games[id]) !in r && x in r :: games[id].start <= x.1.start
    {
      ListsEachGameOnce();
      RecentOfListing(games, Collection(), count);
      Games.RecentGames(Collection(), count)
    }

    /** `player.recent_games(count)` on the store for the player `pid`: the
        newest `count` stored games they played (all of them for 0), newest
        first, each once; none of their games left out is newer than one
        listed, and all of them are listed when fewer than `count` exist. */
    function PlayerRecentGames(pid: Id, count: nat := Players.RecentCount): (r: seq<Recent.Entry>)
      reads this
      requires Valid()
      ensures Recent.NewestFirst(r) && Distinct(r)
      ensures forall e | e in r :: e.0 in games && e.1 == games[e.0] && pid in e.1.players
      ensures count > 0 ==> |r| <= count
      ensures forall id, x | id in games && pid in games[id].players && (id, games[id]) !in r && x in r ::
        games[id].start <= x.1.start
      ensures count == 0 || count > |r| ==>
        forall id | id in games && pid in games[id].players :: (id, games[id]) in r
    {
      ListsEachGameOnce();
      PlayerRecentOfListing(games, Collection(), pid, count);
      Players.RecentGames(pid, Collection(), count)
    }

    /** `game.player(id)` for one of the two players of `game`: the stored
        record with the game's score for them.  The game's player lookup
        holds both players or cannot be built at all, so the lookup fails
        exactly when the two ids are not distinct stored players. */
    method GamePlayer(game: Game, id: Id) returns (r: Result<PlayerView>)
      requires Valid()
      requires |game.players| == 2 && game.scores.Keys == {game.players[0], game.players[1]}
      requires id in game.players
      ensures r.Ok? <==>
        game.players[0] != game.players[1] && game.players[0] in players && game.players[1] in players
      ensures r.Err? ==> r.error == MissingKey
      ensures r.Ok? ==> r.value == PlayerView(id, players[id], game.scores[id])
    {
      Games.PairLookup(players, game, id);
      var found := Games.PlayerOf(players, game, Some(id));
      if found.Err? {
        return Err(found.error);
      }
      return Ok(found.value.value);
    }

    /** `game.player1, game.player2` for a two-player game whose winner and
        loser, once it has ended, are its players in stored order: both
        players shown, in that order, or no lookup at all. */
    method Shown(game: Game) returns (r: Result<(PlayerView, PlayerView)>)
      requires Valid()
      requires |game.players| == 2 && game.scores.Keys == {game.players[0], game.players[1]}
      requires game.end.Some? ==> game.winner == Some(game.players[0]) && game.loser == Some(game.players[1])
      ensures r.Ok? <==>
        game.players[0] != game.players[1] && game.players[0] in players && game.players[1] in players
      ensures r.Err? ==> r.error == MissingKey
      ensures r.Ok? ==>
        && r.value.0 == PlayerView(game.players[0], players[game.players[0]], game.scores[game.players[0]])
        && r.value.1 == PlayerView(game.players[1], players[game.players[1]], game.scores[game.players[1]])
    {
      Games.BothShown(players, game);
      var first := Games.Player1(players, game);
      if first.Err? {
        return Err(first.error);
      }
      // the lookup that found the first player holds the second too
      var second := Games.Player2(players, game);
      return Ok((first.value.value, second.value.value));
    }

    /** `game.save()` for a stored game. */
    method SaveGame(id: Id, g: Game)
      requires Valid() && id in games && Games.WellFormed(g)
      modifies this
      ensures Valid()
      ensures games == old(games)[id := g] && players == old(players) && gameOrder == old(gameOrder)
    {
      Games.ReplaceKeepsInvariant(games, gameOrder, id, g);
      games := games[id := g];
    }

    /** `player.save()` for a stored player whose name is unchanged and who
        has still played exactly the games they won or lost. */
    method SavePlayer(id: Id, p: Player)
      requires Valid() && id in players
      requires p.name == players[id].name && p.games == p.wins + p.losses
      modifies this
      ensures Valid()
      ensures players == old(players)[id := p] && games == old(games) && gameOrder == old(gameOrder)
    {
      Players.CreditKeepsInvariant(players, id, p);
      players := players[id := p];
    }

    /** `Player.create(name)`.  `newId` is the id the store assigns when the
        new document is first saved. */
    method Create(name: string, newId: Id) returns (r: Result<Id>)
      requires Valid()
      requires ValidId(newId) && newId !in players
      modifies this
      ensures Valid()
      ensures games == old(games) && gameOrder == old(gameOrder)
      ensures Players.ValidName(old(players), name).Fail? ==>
        r == Err(Players.ValidName(old(players), name).error) && players == old(players)
      ensures Players.ValidName(old(players), name).Pass? ==>
        r == Ok(newId) && players == old(players)[newId := NewPlayer(name)]
    {
      var check := Players.ValidName(players, name);
      if check.Fail? {
        return Err(check.error);
      }
      Players.NamedKeepsInvariant(players, newId, NewPlayer(name));
      players := players[newId := NewPlayer(name)];
      return Ok(newId);
    }

    /** `player.rename(name)` on the stored player `id`. */
    method Rename(id: Id, name: string) returns (r: Result<Player>)
      requires Valid() && id in players
      modifies this
      ensures Valid()
      ensures games == old(games) && gameOrder == old(gameOrder)
      ensures Players.ValidName(old(players), name).Fail? ==>
        r == Err(Players.ValidName(old(players), name).error) && players == old(players)
      ensures Players.ValidName(old(players), name).Pass? ==>
        && players == old(players)[id := old(players[id]).(name := name)]
        && r == Ok(players[id])
    {
      var check := Players.ValidName(players, name);
      if check.Fail? {
        return Err(check.error);
      }
      var me := players[id];
      me := me.(name := name);
      Players.NamedKeepsInvariant(players, id, me);
      players := players[id := me];
      return Ok(me);
    }

    /** `Game.begin(players)` at clock value `now`; `newId` is the id the
        store assigns to the new game. */
    method Begin(ps: seq<Id>, now: int, newId: Id) returns (r: Result<Id>)
      requires Valid()
      requires ValidId(newId) && newId !in games
      modifies this
      ensures Valid()
      ensures players == old(players)
      ensures Games.Begin(ps, now).Err? ==>
        && r == Err(Games.Begin(ps, now).error)
        && games == old(games) && gameOrder == old(gameOrder)
      ensures Games.Begin(ps, now).Ok? ==>
        && r == Ok(newId)
        && games == old(games)[newId := Games.Begin(ps, now).value]
        && gameOrder == old(gameOrder) + [newId]
    {
      var started := Games.Begin(ps, now);
      if started.Err? {
        return Err(started.error);
      }
      games := games[newId := started.value];
      gameOrder := gameOrder + [newId];
      return Ok(newId);
    }

    /** A goal `play` records: a scorer who is one of the players of a stored
        game in progress. */
    ghost predicate Scoring(gameId: Id, scorer: Id)
      reads this
    {
      scorer != "" && scorer != Nobody && gameId in games &&
      games[gameId].end.None? && scorer in games[gameId].players
    }

    /** `Game.play(gameId, scorer)` at clock value `now`. */
    method Play(gameId: Id, scorer: Id, now: int) returns (r: Result<Option<Game>>)
      requires Valid()
      modifies this
      ensures Valid() && gameOrder == old(gameOrder)
      // the checks, in the order they are made
      ensures scorer == "" ==> r == Err(GameError("Who scored?"))
      ensures scorer != "" && gameId == "" ==> r == Err(NoCriteria)
      ensures scorer != "" && gameId != "" && gameId !in old(games) ==>
        r == Err(GameError("What game are you playing?"))
      ensures scorer != "" && gameId in old(games) && old(games[gameId]).end.Some? ==>
        r == Err(GameOver("That game's already over."))
      ensures scorer == Nobody && gameId in old(games) && old(games[gameId]).end.None? ==>
        r == Ok(None)
      ensures scorer != "" && scorer != Nobody && gameId in old(games) && old(games[gameId]).end.None? &&
              scorer !in old(games[gameId]).players ==>
        r == Err(GameError("Who did you say scored?"))
      // nothing is saved unless a goal is
      ensures r.Err? || r == Ok(None) ==> players == old(players) && games == old(games)
      // a goal: the game after it is saved, and a win credits both players
      ensures old(Scoring(gameId, scorer)) ==>
        var g := Games.Scored(old(games[gameId]), scorer, now);
        if g.end.None? then
          r == Ok(Some(g)) && games == old(games)[gameId := g] && players == old(players)
        else if g.winner == g.loser || g.winner.value !in old(players) || g.loser.value !in old(players) then
          r == Err(MissingKey)
        else
          && r == Ok(Some(g))
          && games == old(games)[gameId := g]
          && players == CreditWin(old(players), g)
    {
      if scorer == "" {
        return Err(GameError("Who scored?"));
      }
      var found := Mixin.One(games, gameId);
      if found.Err? {
        return Err(found.error);
      }
      if found.value.None? {
        return Err(GameError("What game are you playing?"));
      }
      var game := found.value.value;
      if game.end.Some? {
        return Err(GameOver("That game's already over."));
      }
      if scorer == Nobody {
        return Ok(None);
      }
      if scorer !in game.players {
        return Err(GameError("Who did you say scored?"));
      }

      ghost var g0 := game;
      assert g0 == old(games[gameId]);
      Games.ScoredStep(g0, scorer, now);
      game := game.(timeline := game.timeline + [Goal(scorer, now)]);
      game := game.(scores := game.scores[scorer := game.scores[scorer] + 1]);

      if game.scores[scorer] < WinningScore {
        // play continues
        SaveGame(gameId, game);
        return Ok(Some(game));
      }

      // a winner
      game := game.(end := Some(now));
      var playtime := now - game.start;
      game := game.(winner := Some(scorer));
      if game.players[0] == scorer {
        game := game.(loser := Some(game.players[1]));
      } else {
        game := game.(loser := Some(game.players[0]));
      }
      assert game == Games.Scored(g0, scorer, now);

      r := SaveWin(gameId, game, playtime);
    }

    /** The winning branch of `play`: the loser and the winner loaded with
        the game's player lookup, each credited with the game, and the game,
        the loser and the winner saved, in that order.  A lookup that cannot
        be built saves nothing. */
    method SaveWin(gameId: Id, game: Game, playtime: int) returns (r: Result<Option<Game>>)
      requires Valid() && gameId in games
      requires game.end.Some? && game.winner.Some? && game.loser.Some?
      requires playtime == game.end.value - game.start
      requires Games.Pairing(game.players, game.winner.value, game.loser.value)
      requires game.scores.Keys == {game.players[0], game.players[1]}
      requires game.winner != game.loser ==> Games.WellFormed(game)
      modifies this
      ensures Valid() && gameOrder == old(gameOrder)
      ensures r.Err? ==> players == old(players) && games == old(games)
      ensures if game.winner == game.loser || game.winner.value !in old(players) || game.loser.value !in old(players)
        then r == Err(MissingKey)
        else
          && r == Ok(Some(game))
          && games == old(games)[gameId := game]
          && players == CreditWin(old(players), game)
    {
      var lv := GamePlayer(game, game.loser.value);
      if lv.Err? {
        return Err(lv.error);
      }
      var loser := lv.value;
      // the lookup that found the loser holds the winner too
      var wv := GamePlayer(game, game.winner.value);
      var winner := wv.value;
      var l := Players.Lost(loser.record, loser.score, winner.score, playtime);
      var w := Players.Won(winner.record, winner.score, loser.score, playtime);
      assert loser.id == game.loser.value && winner.id == game.winner.value;
      assert players[loser.id := l][winner.id := w] == CreditWin(players, game);
      WinKeepsInvariants(players, games, gameOrder, gameId, game);
      games := games[gameId := game];
      players := players[loser.id := l][winner.id := w];
      return Ok(Some(game));
    }

    /** The loop of `Game.abort`: each player shown is credited with an
        incomplete game and the time played, and saved. */
    method CreditIncomplete(credited: seq<PlayerView>, t: int)
      requires Valid()
      requires forall i | 0 <= i < |credited| ::
        credited[i].id in players && credited[i].record == players[credited[i].id]
      requires forall i, j | 0 <= i < j < |credited| :: credited[i].id != credited[j].id
      modifies this
      ensures Valid()
      ensures games == old(games) && gameOrder == old(gameOrder)
      ensures players == CreditFirst(old(players), credited, |credited|, t)
    {
      for i := 0 to |credited|
        invariant Valid()
        invariant games == old(games) && gameOrder == old(gameOrder)
        invariant players == CreditFirst(old(players), credited, i, t)
        invariant forall j | i <= j < |credited| ::
          credited[j].id in players && players[credited[j].id] == old(players[credited[j].id])
      {
        var player := credited[i].record;
        player := player.(incomplete := player.incomplete + 1);
        player := player.(playtime := player.playtime + t);
        SavePlayer(credited[i].id, player);
      }
    }

    /** `Game.abort(gameId)` at clock value `now`: the game ends incomplete,
        its stored order standing in for winner and loser, and both players
        are credited with an incomplete game and the time played. */
    method Abort(gameId: Id, now: int) returns (r: Result<Game>)
      requires Valid()
      modifies this
      ensures Valid() && gameOrder == old(gameOrder)
      ensures gameId == "" ==> r == Err(NoCriteria)
      ensures gameId != "" && gameId !in old(games) ==>
        r == Err(GameError("Which game are you trying to end?"))
      ensures gameId in old(games) && old(games[gameId]).end.Some? ==>
        r == Err(GameError("Games can't end twice."))
      ensures r.Err? ==> players == old(players) && games == old(games)
      ensures gameId in old(games) && old(games[gameId]).end.None? ==>
        var g := Games.Aborted(old(games[gameId]), now);
        if g.players[0] == g.players[1] || g.players[0] !in old(players) || g.players[1] !in old(players) then
          r == Err(MissingKey)
        else
          && r == Ok(g)
          && games == old(games)[gameId := g]
          && players == CreditAbort(old(players), g)
    {
      var found := Mixin.One(games, gameId);
      if found.Err? {
        return Err(found.error);
      }
      if found.value.None? {
        return Err(GameError("Which game are you trying to end?"));
      }
      var game := found.value.value;
      if game.end.Some? {
        return Err(GameError("Games can't end twice."));
      }
      ghost var g0 := game;
      game := game.(winner := Some(game.players[0]));
      game := game.(loser := Some(game.players[1]));
      game := game.(incomplete := true);
      game := game.(end := Some(now));
      var playtime := now - game.start;
      assert game == Games.Aborted(g0, now);

      var shown := Shown(game);
      if shown.Err? {
        return Err(shown.error);
      }
      var credited := [shown.value.0, shown.value.1];
      assert CreditFirst(players, credited, 1, playtime) == players[game.players[0] := Players.Abandoned(players[game.players[0]], playtime)];
      assert CreditFirst(players, credited, 2, playtime) == CreditAbort(players, game);
      CreditIncomplete(credited, playtime);
      Games.AbortKeepsWellFormed(g0, now);
      SaveGame(gameId, game);
      return Ok(game);
    }
  }
}
