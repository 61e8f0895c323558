# Foosball match model in Dafny

This project models the match model of the Foosball app (`foos.py`) and proves
properties of it. The app has two parts:

- A **player registry**. Players are stored with a unique name of at most 24
  characters and a set of stat counters. The name check is an ordered chain:
  a missing name, then a taken name, then a long name.
- A **game state machine**. `begin` starts a two-player game with zero scores.
  Each `play` by one of the game's players records one goal; a `play` by
  "nobody" records nothing, and a failed guard changes nothing. When a player
  reaches five goals the game ends, and both players are credited with the
  game, their points and its length. `abort` ends a running game as
  incomplete and credits both players with an incomplete game and the time
  played. Both need the game's two ids to be distinct stored players, which
  `begin` does not check. Otherwise the player lookup raises KeyError and
  nothing is saved, so such a game can neither be won nor aborted: its fifth
  goal and its abort both fail. Once a game has ended, `player1`/`player2`
  show the winner first.

The Mongo collections are an in-memory store. The class `Store.Database` holds:

- a map from id to player record;
- a map from id to game record;
- the order in which the model lists the game collection (its listing order).

Each operation loads its documents and changes its local copies, in the
source's order. It then writes them back. Time is an integer clock value `now`
that each operation receives, so a game's length is `end - start`. The ids
that the store assigns to new documents are parameters as well.

Modules:

- `Records` holds the documents, their defaults and the failures.
- `Mixin` holds `one`/`find`.
- `Decimal` holds the decimal text of the counters.
- `Recent` holds the filter/sort/limit query.
- `Players` holds the name check, the stat string, a player's recent games,
  the credited records and the collection invariant.
- `Games` holds `begin`, the player lookup, `player1`/`player2`, the recent
  games, a goal, an abort and the well-formedness of a game.
- `Store` holds the database and the operations that change it.

Python's `None` and the empty string are both false in the source's checks.
A missing name, scorer, id or player list is therefore the empty string or
sequence here.

Points where `foos.py` does less than one might expect, modelled as written:

- `begin` checks only the number of ids. It does not look them up or compare
  them.
- `abort` adds to `incomplete` but not to `games`. The quantity every player
  keeps is therefore `games == wins + losses`.
- No operation sets a `last_played` field.

## Model

| member | source | states |
|---|---|---|
| Records.NewPlayer | foos.py:80-89 | a new player has the name given (Anonymous when none is) and every counter at zero, so they have played exactly the games they won or lost |
| Records.NewGame | foos.py:183-192 | a new game starts now, has no end, no players, no scores, no winner or loser, an empty timeline, and is not incomplete |
| Mixin.One | foos.py:39-48 | no id at all is a programming error (NoCriteria, the source's ValueError); an id that does not parse, or is not stored, finds nothing; otherwise the stored document |
| Mixin.Find | foos.py:51-63 | no ids gives every document; one unparsable id gives none; otherwise exactly the stored documents whose ids were asked for |
| Players.Exists | foos.py:92-99 | true exactly when some stored player has that exact name |
| Players.ValidName | foos.py:111-117 | passes exactly for a present name of at most 24 characters that nobody holds; an empty name fails first with "Tell me your name!"; a taken name fails as a duplicate even when it is also too long; then a long name fails with "That name is way too long!" |
| Players.RenameToOwnName | foos.py:111-114 | renaming a player to the name they already have is refused as a duplicate, because the check counts the player being renamed |
| Players.Stats | foos.py:164-166 | the stat string "(wins-losses-incomplete)" parses back to wins, losses and incomplete, under a parser that accepts only the decimal text `%s` writes for a number (digits, no leading zero) |
| Players.StatsDetermined | foos.py:164-166 | the stat string is the only text that parses back to its three counters, so it is exactly "(" + str(wins) + "-" + str(losses) + "-" + str(incomplete) + ")" |
| Decimal.ValueOfShow | foos.py:166 | the decimal text of a counter reads back as that counter |
| Decimal.ShowOfValue | foos.py:166 | a digit string with no leading zero is the decimal text of the number it denotes |
| Players.RecentGames | foos.py:131-140 | only games this player took part in; newest first; at most `count` (0 is no limit); no entry more often than in the listing it is given; every game left out is no newer than any kept; all the player's games when fewer than `count`; `count` is 3 when not given |
| Players.CreditKeepsInvariant | foos.py:240-256 | saving a player record with the same name that still counts games as wins plus losses keeps the collection invariant (ids parse, names present, short and unique) |
| Players.NamedKeepsInvariant | foos.py:111-129 | storing a record whose name passed validation keeps the collection invariant, under a new id or an existing one |
| Games.Begin | foos.py:183-206 | no ids, one id, more than two ids fail in that order with their messages; it succeeds exactly for two ids; the game then has exactly those players, a zero score for each, starts now, has no end, winner or loser, an empty timeline, is not incomplete and is well formed |
| Games.FoundAll | foos.py:295-296 | the find returns one player per id exactly when the ids parse, are stored and are distinct |
| Games.LoadPlayers | foos.py:289-300 | the lookup is built exactly when every id parses, is stored and occurs once, and then maps each id to its stored record; otherwise the padded players make it fail with a missing key |
| Games.PlayerOf | foos.py:302-309 | a game without players gives nothing; otherwise the stored record with the game's score attached, exactly when the lookup can be built and the id is one of the game's; otherwise a missing key |
| Games.Player1 | foos.py:311-316 | the winner once the game has ended, the first player before; a record shown is the stored one with that player's score |
| Games.Player2 | foos.py:318-323 | the loser once the game has ended, the second player before; a record shown is the stored one with that player's score |
| Games.PairLookup | foos.py:302-309 | in a two-player game, either player's lookup succeeds exactly when the two ids are distinct and stored, and gives the stored record with that player's score |
| Games.BothShown | foos.py:311-323 | for a game whose winner and loser are its players in stored order, both accessors succeed exactly when the two ids are distinct and stored, and show the players in that order |
| Games.DisplayOrder | foos.py:311-323 | for a well-formed game with two stored players, the accessors show both players: in stored order while it runs, winner first once it has ended, and after a win the first shown holds 5 and the second less |
| Games.RecentGames | foos.py:281-287 | the newest `count` games of the listing it is given (0 is no limit, 5 when not given), newest first, exactly `count` or all of them, no entry more often than in the listing, and none left out newer than one kept |
| Recent.Limit | foos.py:140 | `limit(count)` keeps a prefix of the sorted games, `count` long, or all of them when `count` is 0 or exceeds them |
| Recent.SortNewestFirst | foos.py:139 | a permutation of the games, ordered by start time, newest first |
| Recent.Involving | foos.py:138 | keeps exactly the games whose players include the id |
| Recent.LimitedNewest | foos.py:137-140 | sorting then limiting keeps the newest `count` games in order and drops only games no newer than those kept |
| Games.TallyAfterGoal | foos.py:223-224 | a goal adds one to the scorer's tally of the timeline and nothing to anyone else's |
| Games.Other | foos.py:235-238 | the loser picked for a scorer is one of the two players; with the scorer they are the two players in some order, and they differ from the scorer when the two players differ |
| Games.Scored | foos.py:223-238 | a goal appends exactly one (scorer, now) entry, adds exactly one to the scorer's score and leaves every other score, the players and the start as they were; below 5 the end, winner and loser are as they were; at 5 the game ends now, won by the scorer and lost by the other player |
| Games.ScoredStep | foos.py:223-238 | in a game in progress, a goal leaves it running with no winner or loser exactly when the scorer is below 5; it ends only with the scorer on exactly 5 and the two players as winner and loser; the game stays well formed (a win needs two distinct players) |
| Games.TimelineLength | foos.py:223-224 | a timeline of goals by two players is as long as their two tallies together |
| Games.GoalsInAGame | foos.py:223-238 | a game in progress has at most eight goals; one won on the table has between five and nine |
| Games.Aborted | foos.py:268-271 | an aborted game ends now, incomplete, with the first player as winner and the second as loser; its players, scores, timeline and start are as they were |
| Games.AbortKeepsWellFormed | foos.py:268-271 | aborting a game in progress between two distinct players leaves it well formed |
| Games.ReplaceKeepsInvariant | foos.py:254 | saving a well-formed game over a stored one keeps the game collection invariant |
| Store.Listed | foos.py:284-285 | the collection in the listing order: one entry per stored id of the order, in that order, each the stored game |
| Store.Database.ListsEachGameOnce | foos.py:284-285 | in a valid database the listing of the game collection holds every stored game exactly once |
| Store.RecentOfListing | foos.py:281-287 | the recent-games query over a listing of each stored game once gives stored games, each once, `count` of them or all, none left out newer than one kept |
| Store.PlayerRecentOfListing | foos.py:131-140 | a player's recent-games query over a listing of each stored game once gives stored games of theirs, each once, none of theirs left out newer than one kept, all of them when fewer than `count` |
| Store.Database.RecentGames | foos.py:281-287 | `Game.recent_games(count)` on the store: the newest `count` stored games (all for 0, 5 when not given), newest first, each once, exactly `count` of them or all, and no stored game left out is newer than one listed |
| Store.Database.PlayerRecentGames | foos.py:131-140 | `player.recent_games(count)` on the store: stored games the player took part in (3 when not given), newest first, each once, at most `count`, none of theirs left out newer than one listed, and all of theirs when fewer than `count` exist |
| Store.CreditWinTotals | foos.py:240-252 | after a win, the winner has one more game and win, and the loser one more game and loss; each has gained their own score as points for, the other's as points against, and the game's length as playtime; names, incomplete counts and every other player are unchanged; games minus wins minus losses is unchanged for everyone |
| Store.CreditAbortTotals | foos.py:274-277 | after an abort, each player has one more incomplete game and the game's length as playtime; every other field and every other player is unchanged |
| Store.WinKeepsInvariants | foos.py:254-256 | saving the won game and both credited players keeps both collection invariants |
| Store.Database.GamePlayer | foos.py:302-309 | `game.player(id)` for a stored two-player game: it fails with a missing key exactly when the two ids are not distinct stored players, and otherwise gives the stored record with the game's score |
| Store.Database.Shown | foos.py:311-323 | `player1, player2` of a game whose winner and loser are its players in stored order: both in that order, or a missing key exactly when the two ids are not distinct stored players |
| Store.Database.SaveGame | foos.py:254 | writes the game under its id and changes nothing else; the database stays valid |
| Store.Database.SavePlayer | foos.py:277 | writes the player under its id and changes nothing else; the database stays valid |
| Store.Database.Create | foos.py:119-129 | a name that fails validation gives that failure and stores nothing; otherwise exactly one new player under the new id, with that name and every counter zero; games untouched |
| Store.Database.Rename | foos.py:142-151 | a name that fails validation gives that failure and changes nothing; otherwise only the stored player's name changes, and the renamed record is returned |
| Store.Database.Begin | foos.py:194-206 | a failed begin stores nothing; otherwise the new game is stored under the new id and appended to the listing order; players untouched |
| Store.Database.Play | foos.py:208-258 | the guards fail in order: no scorer, no game id, unknown game, ended game; "nobody" returns nothing; then an unknown scorer; none of these changes anything. A goal saves the game after it. Below 5 no player changes. At 5 the game is saved and both players are credited with the win and loss, or the lookup fails with a missing key and nothing is saved |
| Store.Database.SaveWin | foos.py:230-258 | the winning branch: the loser and winner are loaded, credited and saved with the game, or nothing is saved when the two ids are not distinct stored players |
| Store.Database.CreditIncomplete | foos.py:274-277 | each player shown, in turn, gains an incomplete game and the playtime and is saved; games untouched; the database stays valid |
| Store.Database.Abort | foos.py:260-279 | no game id, unknown game, ended game fail in that order and change nothing; otherwise the game ends now, incomplete, with the first player as winner and the second as loser; both players gain an incomplete game and the playtime (games, wins and losses untouched), or the lookup fails with a missing key and nothing is saved |

## Left out

- The HTTP controllers, templates, static files and app wiring are not modelled. They are web plumbing around the model.
- The Mongo, minimongo and bson driver calls are replaced by maps. `count`, `limit`, `sort` and `save` become map and sequence operations.
- `bson.ObjectId` parsing is a predicate: 24 lower-case hex digits. The upper-case and 12-byte forms it also accepts are not modelled.
- The listing order of the game collection is the model's own: new games are appended to it. Mongo's natural order is not insertion order, since a document that outgrows its slot can move. No contract depends on it, because the order among equal start times is left open.
- The order of games that start at the same time is left open: the contracts of the recent-games queries say nothing about it, and the order Mongo gives such games is not modelled.
- `datetime.now()` and `total_seconds()` are not modelled. Time is an integer clock value, so playtime is an integer, not a float of seconds.
- `win_percent`, `url`, `offset`, `format_timedelta` and `__repr__` are not modelled. They are display helpers, and `win_percent` is float arithmetic.
- `ModelMixin.delete` is not modelled. Nothing in the match model calls it.
- The `find(..., cursor=True)` form is not modelled. It returns the same documents lazily.
- `Mixin.One` models only the `one(_id=...)` form. The `one(query=...)` form is not modelled: nothing in the match model calls it.
- `Games.LoadPlayers`: the padding with unsaved `Player()` objects is not a working fallback. Those objects have no id, so building the lookup fails, and the model returns a missing-key error with nothing saved.
- The `_player_lookup` cache is not modelled. The model builds the lookup again on each call. Within one operation the cache would hold the same records, because nothing is saved between the lookups.
- `play` and `abort` save the game and the players one after another. Each operation here is one sequential update, so a crash between the saves, and concurrent requests, are not modelled.
- `Store.Database.Play` and `Store.Database.Abort` require a valid database (unique names, well-formed games). They do not say what happens to data written outside these operations.
- `Store.Database.Rename` renames the stored record and takes the caller's `Player` object to be that record, freshly loaded. `rename` saves the caller's whole object, so a stale copy would write its old counters back along with the new name, and a player never saved (no `_id`) would be inserted as a new document. Neither case is modelled.
- `Store.Database.Create`, `Store.Database.Begin`: the new id is a parameter that must be valid and unused. How the store generates ids is not modelled.
