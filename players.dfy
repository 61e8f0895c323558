/** The pure side of the Player model: name validation, the stat string and
    a player's recent games. */
module Players {
  import opened Records
  import Decimal
  import Recent
  import Games

  /** How many games a player's recent-games list shows by default. */
  const RecentCount: nat := 3

  /** A name the validation accepts: present and at most 24 characters. */
  predicate WellNamed(name: string) {
    0 < |name| <= MaxNameLength
  }

  /** The name of the stored player `id`. */
  function NameOf(docs: map<Id, Player>, id: Id): string
    requires id in docs
  {
    docs[id].name
  }

  /** No two stored players share a name. */
  ghost predicate NamesUnique(docs: map<Id, Player>) {
    forall a, b {:trigger NameOf(docs, a), NameOf(docs, b)} | a in docs && b in docs && a != b ::
      NameOf(docs, a) != NameOf(docs, b)
  }

  /** The ids of the stored players called `name`. */
  function Holders(docs: map<Id, Player>, name: string): set<Id> {
    set id | id in docs && docs[id].name == name
  }

  /** `Player.exists(name)`: whether a stored player has exactly that name. */
  function Exists(docs: map<Id, Player>, name: string): (r: bool)
    ensures r <==> exists id | id in docs :: docs[id].name == name
  {
    var holders := Holders(docs, name);
    assert forall id | id in docs && docs[id].name == name :: id in holders;
    holders != {}
  }

  /** `Player.valid_name(name)`: a missing name first, then a taken name (even
      one that is also too long), then a name over 24 characters. */
  function ValidName(docs: map<Id, Player>, name: string): (r: Outcome)
    ensures r == Pass <==> WellNamed(name) && forall id | id in docs :: docs[id].name != name
    ensures name == "" ==> r == Fail(PlayerError("Tell me your name!"))
    ensures r.Fail? && r.error.DupeError? <==> name != "" && exists id | id in docs :: docs[id].name == name
    ensures r.Fail? && r.error.DupeError? ==> r.error.message == "That name is already taken!"
    ensures name != "" && (forall id | id in docs :: docs[id].name != name) && |name| > MaxNameLength ==>
              r == Fail(PlayerError("That name is way too long!"))
  {
    if name == "" then Fail(PlayerError("Tell me your name!"))
    else if Exists(docs, name) then Fail(DupeError("That name is already taken!"))
    else if |name| > MaxNameLength then Fail(PlayerError("That name is way too long!"))
    else Pass
  }

  /** Renaming a stored player to the name they already have is refused as a
      duplicate: the check counts the player being renamed. */
  lemma RenameToOwnName(docs: map<Id, Player>, id: Id)
    requires id in docs && docs[id].name != ""
    ensures ValidName(docs, docs[id].name) == Fail(DupeError("That name is already taken!"))
  {
  }

  /** `player.stats`: "(wins-losses-incomplete)", a string that determines
      the three counts it shows. */
  function Stats(p: Player): (s: string)
    ensures ParseStats(s) == Some((p.wins, p.losses, p.incomplete))
  {
    var w, l, n := Decimal.Show(p.wins), Decimal.Show(p.losses), Decimal.Show(p.incomplete);
    ParseOfParts(w, l, n);
    Decimal.ValueOfShow(p.wins);
    Decimal.ValueOfShow(p.losses);
    Decimal.ValueOfShow(p.incomplete);
    "(" + (w + "-" + (l + "-" + n)) + ")"
  }

  /** Position of the first `c` in `s`, or `|s|` when there is none. */
  function IndexOf(s: string, c: char): (k: nat)
    ensures k <= |s|
    ensures k < |s| ==> s[k] == c
    ensures forall i | 0 <= i < k :: s[i] != c
  {
    if s == [] then 0
    else if s[0] == c then 0
    else 1 + IndexOf(s[1..], c)
  }

  /** Reads the three counts back out of a stat string. */
  function ParseStats(s: string): Option<(nat, nat, nat)> {
    if |s| < 2 || s[0] != '(' || s[|s| - 1] != ')' then None
    else ParseCounts(s[1..|s| - 1])
  }

  /** Reads `a-b-c` as three counts, splitting at the first two dashes. */
  function ParseCounts(body: string): Option<(nat, nat, nat)> {
    var i := IndexOf(body, '-');
    if i == |body| then None
    else match (ParseNat(body[..i]), ParsePair(body[i + 1..]))
      case (Some(a), Some((b, c))) => Some((a, b, c))
      case _ => None
  }

  /** Reads `b-c` as two counts, splitting at the first dash. */
  function ParsePair(rest: string): Option<(nat, nat)> {
    var j := IndexOf(rest, '-');
    if j == |rest| then None
    else match (ParseNat(rest[..j]), ParseNat(rest[j + 1..]))
      case (Some(b), Some(c)) => Some((b, c))
      case _ => None
  }

  /** Reads one count, accepting only the text `str` writes for a number:
      digits, at least one, and no leading zero. */
  function ParseNat(t: string): Option<nat> {
    if Decimal.Canonical(t) then Some(Decimal.Value(t)) else None
  }

  /** Splitting `a + "-" + b` at its first dash gives back `a` when `a` has no dash. */
  lemma SplitAtDash(a: string, b: string)
    requires forall i | 0 <= i < |a| :: Decimal.IsDigit(a[i])
    ensures var s := a + "-" + b;
      && IndexOf(s, '-') == |a|
      && s[..|a|] == a
      && s[|a| + 1..] == b
  {
    var s := a + "-" + b;
    assert s[|a|] == '-';
    assert forall i | 0 <= i < |a| :: s[i] == a[i];
  }

  /** A parenthesised, dash-separated triple of numbers as `str` writes
      them parses back into the three numbers. */
  lemma ParseOfParts(w: string, l: string, n: string)
    requires Decimal.Canonical(w) && Decimal.Canonical(l) && Decimal.Canonical(n)
    ensures ParseStats("(" + (w + "-" + (l + "-" + n)) + ")") ==
      Some((Decimal.Value(w), Decimal.Value(l), Decimal.Value(n)))
  {
    var body := w + "-" + (l + "-" + n);
    var s := "(" + body + ")";
    assert s[1..|s| - 1] == body;
    CountsOfParts(w, l, n);
  }

  /** The body of a stat string, split at its first two dashes. */
  lemma CountsOfParts(w: string, l: string, n: string)
    requires Decimal.Canonical(w) && Decimal.Canonical(l) && Decimal.Canonical(n)
    ensures ParseCounts(w + "-" + (l + "-" + n)) ==
      Some((Decimal.Value(w), Decimal.Value(l), Decimal.Value(n)))
  {
    SplitAtDash(l, n);
    SplitAtDash(w, l + "-" + n);
  }

  /** The only text that reads back as a given triple of counts is the stat
      string `player.stats` writes for them. */
  lemma {:induction false} StatsDetermined(s: string, p: Player)
    requires ParseStats(s) == Some((p.wins, p.losses, p.incomplete))
    ensures s == Stats(p)
  {
    assert |s| >= 2 && s[0] == '(' && s[|s| - 1] == ')';
    var body := s[1..|s| - 1];
    Enclosed(s);
    CountsDetermined(body, p.wins, p.losses, p.incomplete);
    StatsText(p);
  }

  /** `player.stats`, with its three counts grouped as one body. */
  lemma StatsText(p: Player)
    ensures Stats(p) == "(" + (Decimal.Show(p.wins) + "-" + (Decimal.Show(p.losses) + "-" + Decimal.Show(p.incomplete))) + ")"
  {
  }

  /** A string that opens with "(" and closes with ")" is what lies between
      them, enclosed. */
  lemma Enclosed(s: string)
    requires |s| >= 2 && s[0] == '(' && s[|s| - 1] == ')'
    ensures s == "(" + s[1..|s| - 1] + ")"
  {
  }

  /** Text that reads back as three counts is their three decimal texts
      joined by dashes. */
  lemma {:induction false} CountsDetermined(body: string, a: nat, b: nat, c: nat)
    requires ParseCounts(body) == Some((a, b, c))
    ensures body == Decimal.Show(a) + "-" + (Decimal.Show(b) + "-" + Decimal.Show(c))
  {
    var i := IndexOf(body, '-');
    assert i < |body|;
    var w, rest := body[..i], body[i + 1..];
    assert ParseNat(w) == Some(a) && ParsePair(rest) == Some((b, c));
    assert body == w + "-" + rest;
    Decimal.ShowOfValue(w);
    PairDetermined(rest, b, c);
  }

  /** Text that reads back as two counts is their two decimal texts joined
      by a dash. */
  lemma {:induction false} PairDetermined(rest: string, b: nat, c: nat)
    requires ParsePair(rest) == Some((b, c))
    ensures rest == Decimal.Show(b) + "-" + Decimal.Show(c)
  {
    var j := IndexOf(rest, '-');
    assert j < |rest|;
    var l, n := rest[..j], rest[j + 1..];
    assert ParseNat(l) == Some(b) && ParseNat(n) == Some(c);
    assert rest == l + "-" + n;
    Decimal.ShowOfValue(l);
    Decimal.ShowOfValue(n);
  }

  /** `player.recent_games(count)` over the game collection `entries`: the
      newest `count` games this player took part in, newest first. */
  function RecentGames(pid: Id, entries: seq<Recent.Entry>, count: nat := RecentCount): (r: seq<Recent.Entry>)
    ensures forall e | e in r :: e in entries && pid in e.1.players
    ensures Recent.NewestFirst(r)
    ensures count > 0 ==> |r| <= count
    ensures multiset(r) <= multiset(entries)
    ensures forall e, x | e in entries && pid in e.1.players && e !in r && x in r :: e.1.start <= x.1.start
    ensures (count == 0 || count > |r|) ==> forall e | e in entries && pid in e.1.players :: e in r
  {
    RecentOfOnes(pid, entries, count);
    Games.RecentGames(Recent.Involving(entries, pid), count)
  }

  lemma RecentOfOnes(pid: Id, entries: seq<Recent.Entry>, count: nat)
    ensures var r := Games.RecentGames(Recent.Involving(entries, pid), count);
      && (forall e | e in r :: e in entries && pid in e.1.players)
      && multiset(r) <= multiset(entries)
      && (forall e, x | e in entries && pid in e.1.players && e !in r && x in r :: e.1.start <= x.1.start)
      && ((count == 0 || count > |r|) ==> forall e | e in entries && pid in e.1.players :: e in r)
  {
    var mine := Recent.Involving(entries, pid);
    var r := Games.RecentGames(mine, count);
    forall e | e in r ensures e in mine {
      assert e in multiset(r);
    }
    assert multiset(r) <= multiset(mine) <= multiset(entries);
    if count == 0 || count > |r| {
      assert |r| == |mine|;
      Recent.SubMultisetOfSameSize(multiset(r), multiset(mine));
      forall e | e in mine ensures e in r {
        assert e in multiset(mine);
      }
    }
  }

  /** The record `play` saves for the winner of a game that ended `own` to
      `theirs` after `t` clock units. */
  function Won(p: Player, own: nat, theirs: nat, t: int): Player {
    p.(pointsFor := p.pointsFor + own, pointsAgainst := p.pointsAgainst + theirs,
       playtime := p.playtime + t, games := p.games + 1, wins := p.wins + 1)
  }

  /** The record `play` saves for the loser of a game that ended `own` to
      `theirs` after `t` clock units. */
  function Lost(p: Player, own: nat, theirs: nat, t: int): Player {
    p.(pointsFor := p.pointsFor + own, pointsAgainst := p.pointsAgainst + theirs,
       playtime := p.playtime + t, games := p.games + 1, losses := p.losses + 1)
  }

  /** The record `abort` saves for each player of a game aborted after `t`
      clock units. */
  function Abandoned(p: Player, t: int): Player {
    p.(incomplete := p.incomplete + 1, playtime := p.playtime + t)
  }

  /** The stored player collection: ids parse, names are present, short and
      unique, and every player has played exactly the games they won or lost. */
  ghost predicate Invariant(docs: map<Id, Player>) {
    && (forall id | id in docs :: ValidId(id))
    && (forall id | id in docs :: WellNamed(docs[id].name))
    && (forall id | id in docs :: docs[id].games == docs[id].wins + docs[id].losses)
    && NamesUnique(docs)
  }

  /** Replacing a stored player's record by one with the same name that still
      counts its games as wins plus losses keeps the invariant. */
  lemma CreditKeepsInvariant(docs: map<Id, Player>, id: Id, p: Player)
    requires Invariant(docs) && id in docs
    requires p.name == docs[id].name && p.games == p.wins + p.losses
    ensures Invariant(docs[id := p])
  {
    var d := docs[id := p];
    forall a, b | a in d && b in d && a != b ensures NameOf(d, a) != NameOf(d, b) {
      assert NameOf(d, a) == NameOf(docs, a) && NameOf(d, b) == NameOf(docs, b);
    }
  }

  /** Storing a player under a new id, or renaming a stored one, keeps the
      invariant when the name passes validation against the collection. */
  lemma NamedKeepsInvariant(docs: map<Id, Player>, id: Id, p: Player)
    requires Invariant(docs) && ValidId(id)
    requires ValidName(docs, p.name) == Pass && p.games == p.wins + p.losses
    ensures Invariant(docs[id := p])
  {
    var d := docs[id := p];
    forall a, b | a in d && b in d && a != b ensures NameOf(d, a) != NameOf(d, b) {
      if a != id && b != id {
        assert NameOf(d, a) == NameOf(docs, a) && NameOf(d, b) == NameOf(docs, b);
      }
    }
  }
}
