/** `top_leaderboard`: SELECT user_id, points, envelopes, dragon FROM users
    ORDER BY points DESC, dragon DESC, envelopes DESC LIMIT n. The table is
    scanned in user_id order (the rowid order of an INTEGER PRIMARY KEY table)
    and sorted by insertion. SQL leaves the order of rows equal on all three
    keys open, and so does the contract of `Top`; the insertion sort happens
    to list such rows in descending user_id order. */
module Leaderboard {

  import opened Ledger

  /** One result row, with the columns in the order the query selects them. */
  datatype Row = Row(user: UserId, points: int, envelopes: int, dragon: int)

  function RowOf(m: map<UserId, Stats>, u: UserId): Row
    requires u in m
  {
    Row(u, m[u].points, m[u].envelopes, m[u].dragon)
  }

  /** `a` may be listed before `b`: higher points, then more dragon marks,
      then more envelopes. */
  predicate RanksAtLeast(a: Row, b: Row)
  {
    || a.points > b.points
    || (a.points == b.points && a.dragon > b.dragon)
    || (a.points == b.points && a.dragon == b.dragon && a.envelopes >= b.envelopes)
  }

  predicate Ordered(s: seq<Row>)
  {
    forall i, j :: 0 <= i < j < |s| ==> RanksAtLeast(s[i], s[j])
  }

  /** Some member of a non-empty set of user ids. */
  lemma PickKey(keys: set<UserId>) returns (x: UserId)
    requires keys != {}
    ensures x in keys
  {
    if forall y :: y !in keys {
      assert false;
    }
    x :| x in keys;
  }

  lemma {:induction false} MinExists(keys: set<UserId>)
    requires keys != {}
    ensures exists k :: k in keys && forall j :: j in keys ==> k <= j
    decreases keys
  {
    var x := PickKey(keys);
    var rest := keys - {x};
    if rest == {} {
      forall j | j in keys ensures x <= j {
        assert j !in rest;
      }
    } else {
      MinExists(rest);
      var m :| m in rest && forall j :: j in rest ==> m <= j;
      var k := if x < m then x else m;
      forall j | j in keys ensures k <= j {
        if j != x {
          assert j in rest;
        }
      }
      assert k in keys;
    }
  }

  /** The smallest user id of a non-empty set. */
  function MinKey(keys: set<UserId>): (k: UserId)
    requires keys != {}
    ensures k in keys && forall j :: j in keys ==> k <= j
  {
    MinExists(keys);
    var k :| k in keys && forall j :: j in keys ==> k <= j;
    k
  }

  /** The rows of the users in `keys`, in ascending user_id order. */
  function ScanRows(m: map<UserId, Stats>, keys: set<UserId>): (s: seq<Row>)
    requires keys <= m.Keys
    ensures |s| == |keys|
    ensures forall i :: 0 <= i < |s| ==> s[i].user in keys && s[i] == RowOf(m, s[i].user)
    ensures forall u :: u in keys ==> RowOf(m, u) in s
    ensures forall i, j :: 0 <= i < j < |s| ==> s[i].user < s[j].user
    decreases keys
  {
    if keys == {} then []
    else
      var k := MinKey(keys);
      var rest := ScanRows(m, keys - {k});
      PrependScan(m, keys, k, rest);
      [RowOf(m, k)] + rest
  }

  /** One step of the scan: the smallest key's row goes in front of the scan
      of the other keys. */
  lemma PrependScan(m: map<UserId, Stats>, keys: set<UserId>, k: UserId, rest: seq<Row>)
    requires keys <= m.Keys && k in keys && forall j :: j in keys ==> k <= j
    requires |rest| == |keys - {k}|
    requires forall i :: 0 <= i < |rest| ==> rest[i].user in keys - {k} && rest[i] == RowOf(m, rest[i].user)
    requires forall u :: u in keys - {k} ==> RowOf(m, u) in rest
    requires forall i, j :: 0 <= i < j < |rest| ==> rest[i].user < rest[j].user
    ensures var s := [RowOf(m, k)] + rest;
      && |s| == |keys|
      && (forall i :: 0 <= i < |s| ==> s[i].user in keys && s[i] == RowOf(m, s[i].user))
      && (forall u :: u in keys ==> RowOf(m, u) in s)
      && (forall i, j :: 0 <= i < j < |s| ==> s[i].user < s[j].user)
  {
    var s := [RowOf(m, k)] + rest;
    forall i | 1 <= i < |s| ensures s[i] == rest[i - 1] && s[i].user in keys - {k} {
    }
    forall u | u in keys ensures RowOf(m, u) in s {
      if u != k {
        assert u in keys - {k};
      }
    }
  }

  /** The head of an ordered sequence ranks at least every later row. */
  lemma HeadRanksAll(s: seq<Row>)
    requires Ordered(s) && s != []
    ensures forall y :: y in s[1..] ==> RanksAtLeast(s[0], y)
  {
    forall y | y in s[1..] ensures RanksAtLeast(s[0], y) {
      var k :| 0 <= k < |s[1..]| && s[1..][k] == y;
      assert y == s[k + 1];
    }
  }

  lemma PrependOrdered(h: Row, t: seq<Row>)
    requires Ordered(t)
    requires forall y :: y in t ==> RanksAtLeast(h, y)
    ensures Ordered([h] + t)
  {
    var r := [h] + t;
    forall i, j | 0 <= i < j < |r| ensures RanksAtLeast(r[i], r[j]) {
      assert r[j] == t[j - 1];
      if i > 0 {
        assert r[i] == t[i - 1];
      }
    }
  }

  /** Insert `x` into an ordered sequence after every row that ranks at least as high. */
  function Insert(x: Row, s: seq<Row>): (r: seq<Row>)
    requires Ordered(s)
    ensures Ordered(r)
    ensures multiset(r) == multiset(s) + multiset{x}
  {
    if s == [] then [x]
    else
      HeadRanksAll(s);
      assert s == [s[0]] + s[1..];
      if !RanksAtLeast(s[0], x) then
        PrependOrdered(x, s);
        [x] + s
      else
        var rest := Insert(x, s[1..]);
        assert forall y :: y in rest ==> RanksAtLeast(s[0], y) by {
          forall y | y in rest ensures RanksAtLeast(s[0], y) {
            assert y in multiset(rest);
          }
        }
        PrependOrdered(s[0], rest);
        [s[0]] + rest
  }

  function Sort(s: seq<Row>): (r: seq<Row>)
    ensures Ordered(r)
    ensures multiset(r) == multiset(s)
  {
    if s == [] then []
    else
      assert s == [s[0]] + s[1..];
      Insert(s[0], Sort(s[1..]))
  }

  /** SQLite's LIMIT: a negative limit sets no bound. */
  function Limit(s: seq<Row>, limit: int): (r: seq<Row>)
    ensures |r| == if 0 <= limit < |s| then limit else |s|
    ensures forall i :: 0 <= i < |r| ==> r[i] == s[i]
    ensures Ordered(s) ==> Ordered(r)
  {
    if 0 <= limit < |s| then s[..limit] else s
  }

  /** A value that occurs twice in a sequence is counted twice by its multiset. */
  lemma DuplicateCounted(s: seq<Row>, i: nat, j: nat)
    requires i < j < |s| && s[i] == s[j]
    ensures multiset(s)[s[i]] >= 2
  {
    assert s == s[..i] + [s[i]] + s[i + 1..j] + [s[j]] + s[j + 1..];
  }

  /** A sequence with strictly increasing users holds each row at most once. */
  lemma {:induction false} DistinctCounted(s: seq<Row>, x: Row)
    requires forall i, j :: 0 <= i < j < |s| ==> s[i].user < s[j].user
    ensures multiset(s)[x] <= 1
  {
    if s != [] {
      assert s == [s[0]] + s[1..];
      DistinctCounted(s[1..], x);
      if x == s[0] {
        forall k | 0 <= k < |s[1..]| ensures s[1..][k] != x {
          assert s[1..][k] == s[k + 1];
        }
        assert x !in s[1..];
      }
    }
  }

  /** Sorting the scan keeps its rows, each once. */
  lemma SortedScan(scan: seq<Row>, sorted: seq<Row>)
    requires forall i, j :: 0 <= i < j < |scan| ==> scan[i].user < scan[j].user
    requires multiset(sorted) == multiset(scan)
    ensures forall i :: 0 <= i < |sorted| ==> sorted[i] in scan
    ensures forall i, j :: 0 <= i < j < |sorted| ==> sorted[i] != sorted[j]
  {
    forall i | 0 <= i < |sorted| ensures sorted[i] in scan {
      assert sorted[i] in multiset(sorted);
    }
    forall i, j | 0 <= i < j < |sorted| ensures sorted[i] != sorted[j] {
      if sorted[i] == sorted[j] {
        DuplicateCounted(sorted, i, j);
        DistinctCounted(scan, sorted[i]);
      }
    }
  }

  /** A row of an ordered sequence that LIMIT cut off ranks no higher than
      any row it kept. */
  lemma CutRanksLower(sorted: seq<Row>, limit: int, x: Row)
    requires Ordered(sorted)
    requires x in sorted && x !in Limit(sorted, limit)
    ensures forall i :: 0 <= i < |Limit(sorted, limit)| ==> RanksAtLeast(Limit(sorted, limit)[i], x)
  {
    var k :| 0 <= k < |sorted| && sorted[k] == x;
    var rows := Limit(sorted, limit);
    assert k >= |rows|;
  }

  /** What the leaderboard query returns: as many rows as the limit allows
      (all users for a negative limit), ordered, each a user's current row,
      and no user twice. */
  predicate Listing(m: map<UserId, Stats>, limit: int, rows: seq<Row>)
  {
    && |rows| == (if 0 <= limit < |m| then limit else |m|)
    && Ordered(rows)
    && (forall i :: 0 <= i < |rows| ==> rows[i].user in m && rows[i] == RowOf(m, rows[i].user))
    && (forall i, j :: 0 <= i < j < |rows| ==> rows[i].user != rows[j].user)
  }

  /** The leaderboard: at most `limit` rows (all of them for a negative
      limit), each a user's current row and no user twice, ordered by points,
      then dragon marks, then envelopes, all descending. */
  function Top(m: map<UserId, Stats>, limit: int): (rows: seq<Row>)
    ensures Listing(m, limit, rows)
  {
    var scan := ScanRows(m, m.Keys);
    var sorted := Sort(scan);
    assert |m| == |m.Keys|;
    SortedScan(scan, sorted);
    assert |sorted| == |multiset(sorted)| == |multiset(scan)| == |scan|;
    Limit(sorted, limit)
  }

  /** A user the limit leaves out ranks no higher than any user listed. */
  lemma TopLeftOutRankLower(m: map<UserId, Stats>, limit: int, u: UserId)
    requires u in m
    ensures RowOf(m, u) !in Top(m, limit) ==>
      forall i :: 0 <= i < |Top(m, limit)| ==> RanksAtLeast(Top(m, limit)[i], RowOf(m, u))
  {
    if RowOf(m, u) in Top(m, limit) {
      return;
    }
    var scan := ScanRows(m, m.Keys);
    var sorted := Sort(scan);
    assert RowOf(m, u) in multiset(scan);
    assert RowOf(m, u) in sorted by {
      assert RowOf(m, u) in multiset(sorted);
    }
    CutRanksLower(sorted, limit, RowOf(m, u));
  }

  /** Users with points 10, 10 and 5 and dragon marks 1, 2 and 9: the two
      tied on points are ordered by dragon marks, and the user with 9 dragon
      marks but fewer points comes last. */
  lemma TieBrokenByDragon(m: map<UserId, Stats>, limit: int)
    requires m.Keys == {1, 2, 3}
    requires m[1] == Stats(0, 10, 1) && m[2] == Stats(0, 10, 2) && m[3] == Stats(0, 5, 9)
    requires limit >= 3 || limit < 0
    ensures Top(m, limit) == [Row(2, 10, 0, 2), Row(1, 10, 0, 1), Row(3, 5, 0, 9)]
  {
    ThreeRowsInOrder(m, limit, Top(m, limit));
  }

  /** Any listing with the leaderboard's contract over those three users is
      the one above. */
  lemma ThreeRowsInOrder(m: map<UserId, Stats>, limit: int, rows: seq<Row>)
    requires m.Keys == {1, 2, 3}
    requires m[1] == Stats(0, 10, 1) && m[2] == Stats(0, 10, 2) && m[3] == Stats(0, 5, 9)
    requires limit >= 3 || limit < 0
    requires Listing(m, limit, rows)
    ensures rows == [Row(2, 10, 0, 2), Row(1, 10, 0, 1), Row(3, 5, 0, 9)]
  {
    assert |m| == |m.Keys| == 3;
    var r1, r2, r3 := Row(1, 10, 0, 1), Row(2, 10, 0, 2), Row(3, 5, 0, 9);
    assert rows[0] in {r1, r2, r3} by { assert rows[0].user in m.Keys; }
    assert rows[1] in {r1, r2, r3} by { assert rows[1].user in m.Keys; }
    assert rows[2] in {r1, r2, r3} by { assert rows[2].user in m.Keys; }
    assert RanksAtLeast(rows[0], rows[1]) && RanksAtLeast(rows[1], rows[2]);
    OrderOfThree(rows[0], rows[1], rows[2], r1, r2, r3);
    assert rows == [rows[0], rows[1], rows[2]];
  }

  /** Three distinct rows from {r1, r2, r3}, listed in order, are r2, r1, r3. */
  lemma OrderOfThree(a: Row, b: Row, c: Row, r1: Row, r2: Row, r3: Row)
    requires r1 == Row(1, 10, 0, 1) && r2 == Row(2, 10, 0, 2) && r3 == Row(3, 5, 0, 9)
    requires a in {r1, r2, r3} && b in {r1, r2, r3} && c in {r1, r2, r3}
    requires a.user != b.user && b.user != c.user && a.user != c.user
    requires RanksAtLeast(a, b) && RanksAtLeast(b, c)
    ensures a == r2 && b == r1 && c == r3
  {
  }
}
