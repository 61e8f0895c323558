/** The "recent games" query: filter, sort by start time newest first, limit.
    Entries are games paired with their ids, in the order the collection is listed. */
module Recent {
  import opened Records

  type Entry = (Id, Game)

  predicate NewestFirst(s: seq<Entry>) {
    forall i, j | 0 <= i < j < |s| :: s[i].1.start >= s[j].1.start
  }

  /** Insert `e` into a newest-first sequence, ahead of the entries not newer than it. */
  function Insert(e: Entry, s: seq<Entry>): (r: seq<Entry>)
    requires NewestFirst(s)
    ensures NewestFirst(r)
    ensures multiset(r) == multiset(s) + multiset{e}
    ensures |r| == |s| + 1
    ensures r[0] == e || (s != [] && r[0] == s[0])
  {
    if s == [] || e.1.start >= s[0].1.start then [e] + s
    else
      var rest := Insert(e, s[1..]);
      assert s == [s[0]] + s[1..];
      [s[0]] + rest
  }

  /** `sort=[('start', -1)]`. */
  function SortNewestFirst(s: seq<Entry>): (r: seq<Entry>)
    ensures NewestFirst(r)
    ensures multiset(r) == multiset(s)
  {
    if s == [] then []
    else
      assert s == [s[0]] + s[1..];
      Insert(s[0], SortNewestFirst(s[1..]))
  }

  /** `limit(count)`; as for a Mongo cursor, a limit of 0 is no limit. */
  function Limit(s: seq<Entry>, count: nat): (r: seq<Entry>)
    ensures r <= s
    ensures |r| == if count == 0 || count >= |s| then |s| else count
  {
    if count == 0 || count >= |s| then s else s[..count]
  }

  /** The filter `{'players': pid}`: games whose players include `pid`. */
  function Involving(s: seq<Entry>, pid: Id): (r: seq<Entry>)
    ensures forall e :: e in r <==> e in s && pid in e.1.players
    ensures multiset(r) <= multiset(s)
  {
    if s == [] then []
    else
      assert s == [s[0]] + s[1..];
      (if pid in s[0].1.players then [s[0]] else []) + Involving(s[1..], pid)
  }

  /** Every entry a newest-first prefix leaves out is no newer than any it keeps. */
  lemma PrefixIsNewest(s: seq<Entry>, k: nat)
    requires NewestFirst(s) && k <= |s|
    ensures forall e, x | e in s && e !in s[..k] && x in s[..k] :: e.1.start <= x.1.start
  {
  }

  /** Limiting a newest-first sequence keeps its newest entries, in order. */
  lemma LimitOfNewestFirst(t: seq<Entry>, count: nat)
    requires NewestFirst(t)
    ensures var r := Limit(t, count);
      && NewestFirst(r)
      && |r| == (if count == 0 || count >= |t| then |t| else count)
      && multiset(r) <= multiset(t)
      && forall e, x | e in t && e !in r && x in r :: e.1.start <= x.1.start
  {
    var k := if count == 0 || count >= |t| then |t| else count;
    assert Limit(t, count) == t[..k];
    assert t == t[..k] + t[k..];
    assert multiset(t) == multiset(t[..k]) + multiset(t[k..]);
    PrefixIsNewest(t, k);
  }

  /** The newest `count` entries of `s` (all of them when `count` is 0), newest first. */
  lemma {:induction false} LimitedNewest(s: seq<Entry>, count: nat)
    ensures var r := Limit(SortNewestFirst(s), count);
      && NewestFirst(r)
      && |r| == (if count == 0 || count >= |s| then |s| else count)
      && multiset(r) <= multiset(s)
      && forall e, x | e in s && e !in r && x in r :: e.1.start <= x.1.start
  {
    var sorted := SortNewestFirst(s);
    assert |sorted| == |multiset(sorted)| == |s|;
    LimitOfNewestFirst(sorted, count);
    forall e | e in s ensures e in sorted {
      assert e in multiset(s);
    }
  }

  lemma SubMultisetOfSameSize(a: multiset<Entry>, b: multiset<Entry>)
    requires a <= b && |a| == |b|
    ensures a == b
  {
    assert b == a + (b - a);
    assert |b - a| == 0;
  }
}
