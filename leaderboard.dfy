/**
 * The public leaderboard (`GET /api/players`, app/api/players/route.ts):
 * the dictionary's entries, in `Object.entries` order, are filtered to
 * players with a name that is not blank, projected to rows, and sorted by
 * level (highest first) and then by time of last update (earliest first).
 * The handler only reads the store.
 */
module Leaderboard {
  import Js
  import opened Players

  datatype Row = Row(playerId: string, name: string, currentLevel: int, lastUpdated: int)

  /** The filter `data.name && data.name.trim()`: the name holds a
      character that is not whitespace (ListedIsTrimFilter). */
  predicate Listed(p: Player) {
    !Js.AllSpace(p.name)
  }

  /** An empty name is falsy, and so is a name that trims to the empty
      string; any other name passes the filter. */
  lemma ListedIsTrimFilter(p: Player)
    ensures Listed(p) <==> p.name != "" && Js.Trim(p.name) != ""
  {
  }

  /** The projection: the id beside the record's own fields; the name is
      kept as stored, not trimmed. */
  function Project(e: (string, Player)): Row {
    Row(e.0, e.1.name, e.1.currentLevel, e.1.lastUpdated)
  }

  /** Row `x` comes from a listed entry. */
  predicate FromListed(entries: seq<(string, Player)>, x: Row) {
    exists i | 0 <= i < |entries| :: Listed(entries[i].1) && Project(entries[i]) == x
  }

  lemma FromListedTail(entries: seq<(string, Player)>, x: Row)
    requires entries != [] && FromListed(entries[1..], x)
    ensures FromListed(entries, x)
  {
    var i :| 0 <= i < |entries[1..]| && Listed(entries[1..][i].1) && Project(entries[1..][i]) == x;
    assert entries[i + 1] == entries[1..][i];
  }

  /** `filter` then `map`, in entry order. */
  function Listing(entries: seq<(string, Player)>): (r: seq<Row>)
    ensures |r| <= |entries|
  {
    if entries == [] then []
    else (if Listed(entries[0].1) then [Project(entries[0])] else []) + Listing(entries[1..])
  }

  /** The listing holds exactly the rows of the listed entries. */
  lemma {:induction false} ListingMembers(entries: seq<(string, Player)>, x: Row)
    ensures x in Listing(entries) <==> FromListed(entries, x)
    decreases |entries|
  {
    if entries != [] {
      var head := if Listed(entries[0].1) then [Project(entries[0])] else [];
      var rest := Listing(entries[1..]);
      assert Listing(entries) == head + rest;
      ListingMembers(entries[1..], x);
      if x in rest {
        FromListedTail(entries, x);
      } else if x in head {
        assert Listed(entries[0].1) && Project(entries[0]) == x;
      }
    }
  }

  /** The comparator: `a` may stand before `b`. */
  predicate Before(a: Row, b: Row) {
    a.currentLevel > b.currentLevel
    || (a.currentLevel == b.currentLevel && a.lastUpdated <= b.lastUpdated)
  }

  predicate Sorted(s: seq<Row>) {
    forall i, j | 0 <= i < j < |s| :: Before(s[i], s[j])
  }

  lemma BeforeTotal(a: Row, b: Row)
    ensures Before(a, b) || Before(b, a)
  {
  }

  lemma BeforeTransitive(a: Row, b: Row, c: Row)
    requires Before(a, b) && Before(b, c)
    ensures Before(a, c)
  {
  }

  lemma SortedCons(a: Row, t: seq<Row>)
    requires Sorted(t)
    requires forall k | 0 <= k < |t| :: Before(a, t[k])
    ensures Sorted([a] + t)
  {
    var r := [a] + t;
    forall i, j | 0 <= i < j < |r| ensures Before(r[i], r[j]) {
      assert r[j] == t[j - 1];
      if i > 0 {
        assert r[i] == t[i - 1];
      }
    }
  }

  /** A row that may stand before every row of `s` and before `x` may
      stand before every row of `s` with `x` inserted. */
  lemma BeforeAllInserted(a: Row, x: Row, s: seq<Row>, t: seq<Row>)
    requires forall k | 0 <= k < |s| :: Before(a, s[k])
    requires Before(a, x)
    requires multiset(t) == multiset(s) + multiset{x}
    ensures forall k | 0 <= k < |t| :: Before(a, t[k])
  {
    forall k | 0 <= k < |t| ensures Before(a, t[k]) {
      assert t[k] in multiset(t);
      if t[k] != x {
        assert t[k] in multiset(s);
        var j :| 0 <= j < |s| && s[j] == t[k];
      }
    }
  }

  /** Place `x` after every row that may stand before it, so that rows
      that compare equal keep their order. */
  function Insert(x: Row, s: seq<Row>): (r: seq<Row>)
    requires Sorted(s)
    ensures Sorted(r)
    ensures multiset(r) == multiset(s) + multiset{x}
    ensures |r| == |s| + 1
  {
    if s == [] then [x]
    else if Before(s[0], x) then
      var tail := Insert(x, s[1..]);
      assert s == [s[0]] + s[1..];
      BeforeAllInserted(s[0], x, s[1..], tail);
      SortedCons(s[0], tail);
      [s[0]] + tail
    else
      BeforeTotal(s[0], x);
      forall k | 0 <= k < |s| ensures Before(x, s[k]) {
        if k > 0 { BeforeTransitive(x, s[0], s[k]); }
      }
      SortedCons(x, s);
      [x] + s
  }

  /** A stable insertion sort, standing for `Array.prototype.sort`. */
  function Sort(s: seq<Row>): (r: seq<Row>)
    ensures Sorted(r)
    ensures multiset(r) == multiset(s)
  {
    if s == [] then []
    else
      var init := s[..|s| - 1];
      assert s == init + [s[|s| - 1]];
      Insert(s[|s| - 1], Sort(init))
  }

  /** The response rows: the listed players, ranked. */
  function Rank(entries: seq<(string, Player)>): (r: seq<Row>)
    ensures Sorted(r)
    ensures multiset(r) == multiset(Listing(entries))
  {
    Sort(Listing(entries))
  }

  /** The ranking holds exactly the rows of the listed entries. */
  lemma RankMembers(entries: seq<(string, Player)>, x: Row)
    ensures x in Rank(entries) <==> FromListed(entries, x)
  {
    ListingMembers(entries, x);
    var r, listed := Rank(entries), Listing(entries);
    assert x in r <==> x in multiset(r);
    assert x in listed <==> x in multiset(listed);
  }

  /** Along the ranking, levels never rise, and at equal levels the
      earlier update comes first. */
  lemma RankOrder(entries: seq<(string, Player)>, i: int, j: int)
    requires 0 <= i < j < |Rank(entries)|
    ensures Rank(entries)[i].currentLevel >= Rank(entries)[j].currentLevel
    ensures Rank(entries)[i].currentLevel == Rank(entries)[j].currentLevel ==>
      Rank(entries)[i].lastUpdated <= Rank(entries)[j].lastUpdated
  {
  }

  /** No row has a blank name. */
  lemma RankHasNoBlankNames(entries: seq<(string, Player)>, x: Row)
    requires x in Rank(entries)
    ensures Js.Trim(x.name) != ""
  {
    RankMembers(entries, x);
    var i :| 0 <= i < |entries| && Listed(entries[i].1) && Project(entries[i]) == x;
    ListedIsTrimFilter(entries[i].1);
  }

  /** `entries` is `Object.entries(players)`: every key once, each beside
      its own record, in some order. */
  predicate EntriesOf(entries: seq<(string, Player)>, players: map<string, Player>) {
    && (forall i | 0 <= i < |entries| :: entries[i].0 in players && players[entries[i].0] == entries[i].1)
    && (forall id | id in players :: exists i | 0 <= i < |entries| :: entries[i].0 == id)
    && (forall i, j | 0 <= i < j < |entries| :: entries[i].0 != entries[j].0)
  }

  /** Over the store's dictionary: a row is in the response exactly when
      it is the row of a stored player whose name is not blank. */
  lemma RankOfStore(entries: seq<(string, Player)>, players: map<string, Player>, x: Row)
    requires EntriesOf(entries, players)
    ensures x in Rank(entries) <==>
      x.playerId in players && Listed(players[x.playerId]) && x == Project((x.playerId, players[x.playerId]))
  {
    RankMembers(entries, x);
    if x.playerId in players && Listed(players[x.playerId]) && x == Project((x.playerId, players[x.playerId])) {
      var i :| 0 <= i < |entries| && entries[i].0 == x.playerId;
      assert entries[i] == (x.playerId, players[x.playerId]);
    }
  }

  /** Two players on level 5 and one on level 3: the earlier of the two
      leads. */
  lemma RankExample(a: Player, b: Player, c: Player)
    requires a == Player("A", 5, 2) && b == Player("B", 5, 1) && c == Player("C", 3, 3)
    ensures Rank([("a", a), ("b", b), ("c", c)]) ==
      [Row("b", "B", 5, 1), Row("a", "A", 5, 2), Row("c", "C", 3, 3)]
  {
    var ra, rb, rc := Row("a", "A", 5, 2), Row("b", "B", 5, 1), Row("c", "C", 3, 3);
    ListedByName(a);
    ListedByName(b);
    ListedByName(c);
    ListingOfThree(("a", a), ("b", b), ("c", c));
    SortTwo(ra, rb);
    SortThree(ra, rb, rc);
  }

  /** A one-letter name is not blank. */
  lemma ListedByName(p: Player)
    requires |p.name| == 1 && 'A' <= p.name[0] <= 'Z'
    ensures Listed(p)
  {
    assert !Js.IsSpace(p.name[0]);
  }

  /** A listed first entry leads the listing. */
  lemma ListingHead(entries: seq<(string, Player)>)
    requires entries != [] && Listed(entries[0].1)
    ensures Listing(entries) == [Project(entries[0])] + Listing(entries[1..])
  {
  }

  lemma ListingOfTwo(e1: (string, Player), e2: (string, Player))
    requires Listed(e1.1) && Listed(e2.1)
    ensures Listing([e1, e2]) == [Project(e1), Project(e2)]
  {
    var s := [e1, e2];
    ListingHead(s);
    assert s[1..] == [e2];
    ListingHead([e2]);
    assert [e2][1..] == [];
  }

  lemma ListingOfThree(e1: (string, Player), e2: (string, Player), e3: (string, Player))
    requires Listed(e1.1) && Listed(e2.1) && Listed(e3.1)
    ensures Listing([e1, e2, e3]) == [Project(e1), Project(e2), Project(e3)]
  {
    var s := [e1, e2, e3];
    ListingHead(s);
    assert s[1..] == [e2, e3];
    ListingOfTwo(e2, e3);
  }

  /** Sorting a sequence with one more row at the end inserts that row
      into the sorted rest. */
  lemma SortSnoc(s: seq<Row>, x: Row)
    ensures Sort(s + [x]) == Insert(x, Sort(s))
  {
    assert (s + [x])[..|s|] == s;
  }

  lemma InsertAfterOne(a: Row, x: Row)
    requires Before(a, x)
    ensures Insert(x, [a]) == [a, x]
  {
    assert [a][1..] == [];
  }

  lemma SortTwo(a: Row, b: Row)
    requires !Before(a, b)
    ensures Sort([a, b]) == [b, a]
  {
    SortSnoc([], a);
    assert [] + [a] == [a];
    SortSnoc([a], b);
    assert [a] + [b] == [a, b];
  }

  lemma SortThree(a: Row, b: Row, c: Row)
    requires Sort([a, b]) == [b, a] && Before(b, c) && Before(a, c)
    ensures Sort([a, b, c]) == [b, a, c]
  {
    SortOfThree(a, b, c);
    InsertAfterTwo(b, a, c);
  }

  lemma SortOfThree(a: Row, b: Row, c: Row)
    ensures Sort([a, b, c]) == Insert(c, Sort([a, b]))
  {
    SortSnoc([a, b], c);
    assert [a, b] + [c] == [a, b, c];
  }

  lemma InsertAfterTwo(b: Row, a: Row, x: Row)
    requires Sorted([b, a]) && Before(b, x) && Before(a, x)
    ensures Insert(x, [b, a]) == [b, a, x]
  {
    var s := [b, a];
    InsertAfterHead(s, x);
    assert s[1..] == [a];
    InsertAfterOne(a, x);
    assert [b] + [a, x] == [b, a, x];
  }

  /** A first row that may stand before `x` stays in front of it. */
  lemma InsertAfterHead(s: seq<Row>, x: Row)
    requires Sorted(s) && s != [] && Before(s[0], x)
    ensures Sorted(s[1..]) && Insert(x, s) == [s[0]] + Insert(x, s[1..])
  {
  }
}
