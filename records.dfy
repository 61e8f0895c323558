/** The documents the foosball app keeps, as values: a Player, a Game and the
    failures its operations raise.  A stored document is a value; the Python
    objects the app loads are copies of it that are changed and saved back. */
module Records {

  datatype Option<T> = None | Some(value: T)

  /** Any id string: a stored document's id, or a string given by a caller
      (a player id passed to `begin`, a scorer), which may be "" or
      "nobody". */
  type Id = string

  const IdLength := 24
  const MaxNameLength := 24
  const WinningScore := 5
  /** The scorer name that records a null event in a game. */
  const Nobody := "nobody"
  /** The name a Player gets when none is given. */
  const DefaultName := "Anonymous"

  predicate IsHexDigit(c: char) {
    '0' <= c <= '9' || 'a' <= c <= 'f'
  }

  /** Whether a string parses as an ObjectId, written as 24 lower-case
      hexadecimal digits; one that does not is "not found". */
  predicate ValidId(id: Id) {
    |id| == IdLength && forall i | 0 <= i < |id| :: IsHexDigit(id[i])
  }

  /** A player's lifetime record.  `playtime` is in clock units and is an
      integer because the clock may, in principle, run backwards. */
  datatype Player = Player(
    name: string,
    games: nat,
    wins: nat,
    losses: nat,
    incomplete: nat,
    pointsFor: nat,
    pointsAgainst: nat,
    playtime: int)

  /** `Player(name=name)`: the defaults of the initialiser, with the name
      given (Anonymous when none is): every counter at zero, so the player has
      played exactly the games they won or lost. */
  function NewPlayer(name: string := DefaultName): (p: Player)
    ensures p.name == name
    ensures p.games == 0 && p.wins == 0 && p.losses == 0 && p.incomplete == 0
    ensures p.pointsFor == 0 && p.pointsAgainst == 0 && p.playtime == 0
    ensures p.games == p.wins + p.losses
  {
    Player(name, 0, 0, 0, 0, 0, 0, 0)
  }

  /** One entry of a game's timeline: who scored, and when. */
  datatype Goal = Goal(scorer: Id, at: int)

  datatype Game = Game(
    start: int,
    end: Option<int>,
    players: seq<Id>,
    scores: map<Id, nat>,
    winner: Option<Id>,
    loser: Option<Id>,
    timeline: seq<Goal>,
    incomplete: bool)

  /** The defaults of the Game initialiser at clock value `now` (its `scores`
      of None is the empty map here). */
  function NewGame(now: int): (g: Game)
    ensures g.start == now && g.end == None
    ensures g.players == [] && g.scores == map[] && g.timeline == []
    ensures g.winner == None && g.loser == None && !g.incomplete
  {
    Game(now, None, [], map[], None, None, [], false)
  }

  /** A player resolved within a game, with that game's score for them
      attached (a view; not stored). */
  datatype PlayerView = PlayerView(id: Id, record: Player, score: nat)

  /** The exceptions the operations raise. */
  datatype Failure =
    | PlayerError(message: string)   // Player.Error
    | DupeError(message: string)     // Player.DupeError, a kind of Player.Error
    | GameError(message: string)     // Game.Error
    | GameOver(message: string)      // Game.GameOver, a kind of Game.Error
    | NoCriteria                     // ValueError: a lookup given nothing to look for
    | MissingKey                     // KeyError: a game's player lookup misses an id
    | MissingIndex                   // IndexError: a player position the game lacks

  datatype Result<T> = Ok(value: T) | Err(error: Failure)

  datatype Outcome = Pass | Fail(error: Failure)

  /** Number of goals `id` has in a timeline. */
  function Tally(timeline: seq<Goal>, id: Id): nat {
    if timeline == [] then 0
    else Tally(timeline[..|timeline| - 1], id) + (if timeline[|timeline| - 1].scorer == id then 1 else 0)
  }

  predicate Distinct<T(==)>(s: seq<T>) {
    forall i, j | 0 <= i < j < |s| :: s[i] != s[j]
  }

  /** A sequence repeats no element exactly when each element occurs in it
      at most once. */
  lemma {:induction false} DistinctIsOnce<T>(s: seq<T>)
    ensures Distinct(s) <==> forall x :: multiset(s)[x] <= 1
  {
    if s != [] {
      var t, x := s[..|s| - 1], s[|s| - 1];
      DistinctIsOnce(t);
      assert s == t + [x];
      assert multiset(s) == multiset(t) + multiset{x};
      if Distinct(s) {
        forall i, j | 0 <= i < j < |t| ensures t[i] != t[j] {
          assert t[i] == s[i] && t[j] == s[j];
        }
        forall k | 0 <= k < |t| ensures t[k] != x {
          assert t[k] == s[k];
        }
      }
      if forall y :: multiset(s)[y] <= 1 {
        forall y ensures multiset(t)[y] <= 1 {
          assert multiset(s)[y] >= multiset(t)[y];
        }
        assert multiset(s)[x] == multiset(t)[x] + 1;
        assert x !in multiset(t);
        forall i, j | 0 <= i < j < |s| ensures s[i] != s[j] {
          if j == |s| - 1 {
            assert s[i] == t[i];
          } else {
            assert s[i] == t[i] && s[j] == t[j];
          }
        }
      }
    }
  }

  function Elements<T>(s: seq<T>): set<T> {
    set x | x in s
  }

  /** A sequence has at most as many distinct elements as it is long, and
      exactly as many when no element repeats. */
  lemma {:induction false} ElementsCard<T>(s: seq<T>)
    ensures |Elements(s)| <= |s|
    ensures |Elements(s)| == |s| <==> Distinct(s)
  {
    if s != [] {
      var t := s[..|s| - 1];
      var x := s[|s| - 1];
      ElementsCard(t);
      assert s == t + [x];
      assert Elements(s) == Elements(t) + {x};
      if x in Elements(t) {
        assert Elements(s) == Elements(t);
        var k :| 0 <= k < |t| && t[k] == x;
        assert s[k] == s[|s| - 1];
        assert !Distinct(s);
      } else {
        assert |Elements(s)| == |Elements(t)| + 1;
        if Distinct(t) {
          forall i, j | 0 <= i < j < |s| ensures s[i] != s[j] {
            if j == |s| - 1 {
              assert s[i] == t[i];
              assert t[i] in Elements(t);
            } else {
              assert s[i] == t[i] && s[j] == t[j];
            }
          }
        } else {
          var i, j :| 0 <= i < j < |t| && t[i] == t[j];
          assert s[i] == s[j];
        }
      }
    }
  }
}
