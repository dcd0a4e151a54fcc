/** GET /changes: pages of rows above a bare timestamp (api/routes/syncResource.js `_readPage`). */
module Paging {
  import opened Rows
  import opened Seqs
  import opened Tables

  ghost function RowsAfter(t: map<Key, Row>, user: UserId, since: Stamp): set<Row> {
    set k | k in t && t[k].user == user && t[k].updatedAt > since :: t[k]
  }

  ghost function RowsAt(t: map<Key, Row>, user: UserId, stamp: Stamp): set<Row> {
    set k | k in t && t[k].user == user && t[k].updatedAt == stamp :: t[k]
  }

  predicate Sorted(rs: seq<Row>) {
    forall i, j :: 0 <= i < j < |rs| ==> rs[i].updatedAt <= rs[j].updatedAt
  }

  function Elems(rs: seq<Row>): set<Row> { set r | r in rs }

  /** A reply to ORDER BY updated_at LIMIT n over `all`: some sorted prefix, ties in any order. */
  ghost predicate IsLimited(all: set<Row>, limit: nat, rs: seq<Row>) {
    && Sorted(rs) && NoDup(rs) && Elems(rs) <= all
    && |rs| == (if |all| < limit then |all| else limit)
    && (forall r, q :: r in all - Elems(rs) && q in rs ==> q.updatedAt <= r.updatedAt)
  }

  /** The cursor a page hands back; it crosses the wire at millisecond resolution. */
  function Cursor(since: Stamp, rows: seq<Row>): Stamp {
    if rows == [] then since else Trunc(rows[|rows| - 1].updatedAt)
  }

  function Others(rs: seq<Row>, ms: int): (r: seq<Row>)
    ensures forall x :: x in r <==> x in rs && Ms(x.updatedAt) != ms
  {
    if rs == [] then []
    else
      var init := Others(rs[..|rs| - 1], ms);
      assert rs == rs[..|rs| - 1] + [rs[|rs| - 1]];
      if Ms(rs[|rs| - 1].updatedAt) != ms then init + [rs[|rs| - 1]] else init
  }

  /** What the first reply settles: the page itself, or one timestamp to read in full. */
  datatype Cut = Page(rows: seq<Row>, hasMore: bool) | Group(stamp: Stamp)

  function CutPage(first: seq<Row>, limit: nat): Cut
    requires limit >= 1
  {
    if |first| < limit then Page(first, false)
    else
      var last := first[|first| - 1].updatedAt;
      if Ms(first[0].updatedAt) != Ms(last) then Page(Others(first, Ms(last)), true)
      else Group(Trunc(last))
  }

  predicate ById(rs: seq<Row>) { forall i, j :: 0 <= i < j < |rs| ==> rs[i].id <= rs[j].id }

  /** A reply to the second query. */
  ghost predicate IsGroup(t: map<Key, Row>, user: UserId, stamp: Stamp, rows: seq<Row>) {
    NoDup(rows) && ById(rows) && Elems(rows) == RowsAt(t, user, stamp)
  }

  /** The page the code answers when the first query replied `first` and the second,
      if it is needed, read table `later`. */
  ghost predicate Answers(later: map<Key, Row>, user: UserId, limit: nat, first: seq<Row>, rows: seq<Row>,
                          hasMore: bool)
    requires limit >= 1
  {
    match CutPage(first, limit)
    case Page(rs, more) => rows == rs && hasMore == more
    case Group(stamp) => IsGroup(later, user, stamp, rows) && hasMore
  }

  /** A page the code may answer when both queries see `t`. */
  ghost predicate IsPage(t: map<Key, Row>, user: UserId, since: Stamp, limit: nat, rows: seq<Row>, hasMore: bool)
    requires limit >= 1
  {
    exists first :: IsLimited(RowsAfter(t, user, since), limit, first) && Answers(t, user, limit, first, rows, hasMore)
  }

  lemma {:induction false} EarliestExists(rows: set<Row>)
    requires rows != {}
    ensures exists r :: r in rows && forall q :: q in rows ==> r.updatedAt <= q.updatedAt
  {
    var x :| x in rows;
    if rows != {x} {
      EarliestExists(rows - {x});
      var r :| r in rows - {x} && forall q :: q in rows - {x} ==> r.updatedAt <= q.updatedAt;
      assert forall q :: q in rows ==> q == x || q in rows - {x};
      var best := if r.updatedAt <= x.updatedAt then r else x;
      assert best in rows && forall q :: q in rows ==> best.updatedAt <= q.updatedAt;
    }
  }

  ghost predicate SortedSplit(all: set<Row>, rs: seq<Row>, rest: set<Row>) {
    && Sorted(rs) && NoDup(rs) && Elems(rs) <= all && rest == all - Elems(rs)
    && |rs| + |rest| == |all|
    && forall r, q :: r in rest && q in rs ==> q.updatedAt <= r.updatedAt
  }

  lemma TakeEarliest(all: set<Row>, rs: seq<Row>, rest: set<Row>, r: Row)
    requires SortedSplit(all, rs, rest) && r in rest
    requires forall q :: q in rest ==> r.updatedAt <= q.updatedAt
    ensures SortedSplit(all, rs + [r], rest - {r})
  {
    assert r !in Elems(rs);
    SnocSorted(rs, r);
  }

  /** SELECT .. WHERE updated_at > since ORDER BY updated_at LIMIT limit. Callers know
      only that the reply is some sorted prefix. */
  method QueryAfter(t: Table, user: UserId, since: Stamp, limit: nat) returns (rs: seq<Row>)
    ensures IsLimited(RowsAfter(t.rows, user, since), limit, rs)
  {
    var all := set k | k in t.rows && t.rows[k].user == user && t.rows[k].updatedAt > since :: t.rows[k];
    var rest := all;
    rs := [];
    while |rs| < limit && rest != {}
      invariant SortedSplit(all, rs, rest) && |rs| <= limit
      decreases |rest|
    {
      EarliestExists(rest);
      var r :| r in rest && forall q :: q in rest ==> r.updatedAt <= q.updatedAt;
      TakeEarliest(all, rs, rest, r);
      rs, rest := rs + [r], rest - {r};
    }
    assert all == RowsAfter(t.rows, user, since);
  }

  lemma SnocSorted(rs: seq<Row>, r: Row)
    requires Sorted(rs) && NoDup(rs) && r !in rs
    requires forall q :: q in rs ==> q.updatedAt <= r.updatedAt
    ensures Sorted(rs + [r]) && NoDup(rs + [r]) && Elems(rs + [r]) == Elems(rs) + {r}
  {
    assert forall i :: 0 <= i < |rs| ==> rs[i] in rs;
  }

  lemma SnocElems(rs: seq<Row>, r: Row)
    requires NoDup(rs) && r !in Elems(rs)
    ensures NoDup(rs + [r]) && Elems(rs + [r]) == Elems(rs) + {r}
  {
    assert forall i :: 0 <= i < |rs| ==> rs[i] in Elems(rs);
  }

  lemma {:induction false} LowestIdExists(rows: set<Row>)
    requires rows != {}
    ensures exists r :: r in rows && forall q :: q in rows ==> r.id <= q.id
  {
    var x :| x in rows;
    if rows != {x} {
      LowestIdExists(rows - {x});
      var r :| r in rows - {x} && forall q :: q in rows - {x} ==> r.id <= q.id;
      assert forall q :: q in rows ==> q == x || q in rows - {x};
      var best := if r.id <= x.id then r else x;
      assert best in rows && forall q :: q in rows ==> best.id <= q.id;
    }
  }

  /** `rs` are the first rows of `all` by id, `rest` the others. */
  ghost predicate IdSplit(all: set<Row>, rs: seq<Row>, rest: set<Row>) {
    && ById(rs) && NoDup(rs) && Elems(rs) <= all && rest == all - Elems(rs)
    && forall r, q :: r in rest && q in rs ==> q.id <= r.id
  }

  lemma TakeLowestId(all: set<Row>, rs: seq<Row>, rest: set<Row>, r: Row)
    requires IdSplit(all, rs, rest) && r in rest
    requires forall q :: q in rest ==> r.id <= q.id
    ensures IdSplit(all, rs + [r], rest - {r})
  {
    assert r !in Elems(rs);
    SnocElems(rs, r);
    assert forall i :: 0 <= i < |rs| ==> rs[i] in rs;
  }

  /** SELECT .. WHERE updated_at = stamp ORDER BY id. */
  method QueryAt(t: Table, user: UserId, stamp: Stamp) returns (rs: seq<Row>)
    ensures IsGroup(t.rows, user, stamp, rs)
  {
    var all := set k | k in t.rows && t.rows[k].user == user && t.rows[k].updatedAt == stamp :: t.rows[k];
    var rest := all;
    rs := [];
    while rest != {}
      invariant IdSplit(all, rs, rest)
      decreases |rest|
    {
      LowestIdExists(rest);
      var r :| r in rest && forall q :: q in rest ==> r.id <= q.id;
      TakeLowestId(all, rs, rest, r);
      rs, rest := rs + [r], rest - {r};
    }
    assert all == RowsAt(t.rows, user, stamp);
  }

  method ReadPage(t: Table, user: UserId, since: Stamp, limit: nat) returns (rows: seq<Row>, hasMore: bool)
    requires limit >= 1
    ensures IsPage(t.rows, user, since, limit, rows, hasMore)
  {
    var first := QueryAfter(t, user, since, limit);
    if |first| < limit { return first, false; }
    var last := first[|first| - 1].updatedAt;
    if Ms(first[0].updatedAt) != Ms(last) {
      return Others(first, Ms(last)), true;
    }
    var all := QueryAt(t, user, Trunc(last));
    return all, true;
  }

  /** Every stamp of the user is on a whole millisecond. */
  ghost predicate Aligned(t: map<Key, Row>, user: UserId) {
    forall k :: k in t && t[k].user == user ==> Whole(t[k].updatedAt)
  }

  /** The rows a page ought to hold: everything above `since` up to its own cursor. */
  ghost function Window(t: map<Key, Row>, user: UserId, since: Stamp, cursor: Stamp): set<Row> {
    set r | r in RowsAfter(t, user, since) && r.updatedAt <= cursor
  }

  lemma {:induction false} OthersKeepsOrder(rs: seq<Row>, ms: int)
    requires Sorted(rs) && NoDup(rs)
    ensures Sorted(Others(rs, ms)) && NoDup(Others(rs, ms))
  {
    if rs != [] {
      var init, last := rs[..|rs| - 1], rs[|rs| - 1];
      OthersKeepsOrder(init, ms);
      assert forall q :: q in Others(init, ms) ==> q in init && q != last && q.updatedAt <= last.updatedAt;
      if Ms(last.updatedAt) != ms { SnocSorted(Others(init, ms), last); }
    }
  }

  lemma CardinalityOfElems(rs: seq<Row>)
    requires NoDup(rs)
    ensures |Elems(rs)| == |rs|
  {
    if rs != [] {
      var init, last := rs[..|rs| - 1], rs[|rs| - 1];
      CardinalityOfElems(init);
      assert rs == init + [last];
      assert Elems(rs) == Elems(init) + {last} && last !in Elems(init);
    }
  }

  /** A first reply holds everything strictly before its last row, and everything at all
      when it came back short. */
  lemma LimitedIsDownClosed(all: set<Row>, limit: nat, rs: seq<Row>)
    requires IsLimited(all, limit, rs) && rs != []
    ensures forall r :: r in all && r.updatedAt < rs[|rs| - 1].updatedAt ==> r in rs
    ensures forall r :: r in rs ==> rs[0].updatedAt <= r.updatedAt <= rs[|rs| - 1].updatedAt
    ensures forall r :: r in all ==> rs[0].updatedAt <= r.updatedAt
  {
    assert rs[|rs| - 1] in rs && rs[0] in rs;
  }

  lemma SameSizeSubset<T>(a: set<T>, b: set<T>)
    requires a <= b && |a| == |b|
    ensures a == b
  {
    assert b == a + (b - a) && |b| == |a| + |b - a|;
  }

  lemma ShortReplyIsAll(all: set<Row>, limit: nat, rs: seq<Row>)
    requires IsLimited(all, limit, rs) && |rs| < limit
    ensures Elems(rs) == all
  {
    CardinalityOfElems(rs);
    SameSizeSubset(Elems(rs), all);
  }

  /** The rows of a page, read off the table whatever the tie order of the first reply:
      everything, or everything below the first reply's last millisecond. */
  lemma TrimmedRows(all: set<Row>, limit: nat, first: seq<Row>)
    requires limit >= 1 && IsLimited(all, limit, first) && CutPage(first, limit).Page?
    ensures var p := CutPage(first, limit);
      && Sorted(p.rows) && NoDup(p.rows)
      && (p.hasMore <==> |all| >= limit)
      && (if p.hasMore
          then first != [] && p.rows != [] && |p.rows| < limit
               && Elems(p.rows) == set r | r in all && Ms(r.updatedAt) < Ms(first[|first| - 1].updatedAt)
          else Elems(p.rows) == all)
  {
    if |first| < limit {
      ShortReplyIsAll(all, limit, first);
    } else {
      var last := first[|first| - 1];
      LimitedIsDownClosed(all, limit, first);
      OthersKeepsOrder(first, Ms(last.updatedAt));
      var rows := CutPage(first, limit).rows;
      assert first[0] in rows;
      CardinalityOfElems(rows);
      CardinalityOfElems(first);
      assert Elems(rows) <= Elems(first) - {last};
      assert |Elems(first) - {last}| == limit - 1;
      SubsetSize(Elems(rows), Elems(first) - {last});
    }
  }

  lemma SubsetSize<T>(a: set<T>, b: set<T>)
    requires a <= b
    ensures |a| <= |b|
  {
    assert b == a + (b - a) && |b| == |a| + |b - a|;
  }

  /** When the first reply is one timestamp, no row above `since` lies below it. */
  lemma GroupIsLowest(all: set<Row>, limit: nat, first: seq<Row>)
    requires limit >= 1 && IsLimited(all, limit, first) && CutPage(first, limit).Group?
    ensures forall r :: r in all ==> r.updatedAt >= CutPage(first, limit).stamp
    ensures |all| >= limit
    ensures exists r :: r in all && Trunc(r.updatedAt) == CutPage(first, limit).stamp
  {
    LimitedIsDownClosed(all, limit, first);
    assert first[0] in first;
  }

  lemma GroupIsWindow(t: map<Key, Row>, user: UserId, since: Stamp, rows: seq<Row>, stamp: Stamp)
    requires IsGroup(t, user, stamp, rows) && rows != [] && Whole(stamp)
    requires forall r :: r in RowsAfter(t, user, since) ==> r.updatedAt >= stamp
    ensures Cursor(since, rows) == stamp && forall r :: r in rows ==> r.updatedAt == stamp
    ensures Elems(rows) == Window(t, user, since, stamp) <==> stamp > since
  {
    forall r | r in rows ensures r.updatedAt == stamp { assert r in Elems(rows); }
    assert rows[|rows| - 1] in rows && rows[0] in Elems(rows);
    if stamp > since { assert Elems(rows) == Window(t, user, since, stamp); }
    if Elems(rows) == Window(t, user, since, stamp) { assert rows[0] in Window(t, user, since, stamp); }
  }

  /** Rows that are all of `all`, or all of it below some millisecond, against the window of their cursor. */
  lemma PrefixIsWindow(all: set<Row>, rows: seq<Row>)
    requires rows != [] && Sorted(rows) && Elems(rows) <= all
    requires forall r, q :: r in all && q in rows && Ms(r.updatedAt) <= Ms(q.updatedAt) ==> r in rows
    ensures var c := Trunc(rows[|rows| - 1].updatedAt);
      Elems(rows) == (set r | r in all && r.updatedAt <= c)
      <==> forall r :: r in rows && Ms(r.updatedAt) == Ms(c) ==> Whole(r.updatedAt)
  {
    var last := rows[|rows| - 1];
    var c := Trunc(last.updatedAt);
    assert last in rows && forall i :: 0 <= i < |rows| ==> rows[i].updatedAt <= last.updatedAt;
    if forall r :: r in rows && Ms(r.updatedAt) == Ms(c) ==> Whole(r.updatedAt) {
      forall r | r in all && r.updatedAt <= c ensures r in rows { assert Ms(r.updatedAt) <= Ms(last.updatedAt); }
      forall r | r in rows ensures r.updatedAt <= c { assert Ms(r.updatedAt) <= Ms(last.updatedAt); }
    }
    if Elems(rows) == set r | r in all && r.updatedAt <= c {
      forall r | r in rows && Ms(r.updatedAt) == Ms(c) ensures Whole(r.updatedAt) { assert r in Elems(rows); }
    }
  }

  /** The page holds exactly the rows above `since` up to its own cursor. */
  ghost predicate Exact(t: map<Key, Row>, user: UserId, since: Stamp, rows: seq<Row>) {
    Elems(rows) == Window(t, user, since, Cursor(since, rows))
  }

  ghost predicate SitsOnCursor(since: Stamp, rows: seq<Row>) {
    var c := Cursor(since, rows);
    rows == [] || (c > since && forall r :: r in rows && Ms(r.updatedAt) == Ms(c) ==> Whole(r.updatedAt))
  }

  /** With a row a trimmed page holds everything up to the row's millisecond. */
  lemma TrimmedIsDownClosed(all: set<Row>, limit: nat, first: seq<Row>, r: Row, q: Row)
    requires limit >= 1 && IsLimited(all, limit, first) && CutPage(first, limit).Page?
    requires r in all && q in CutPage(first, limit).rows && Ms(r.updatedAt) <= Ms(q.updatedAt)
    ensures r in CutPage(first, limit).rows
  {
    TrimmedRows(all, limit, first);
    assert q in Elems(CutPage(first, limit).rows);
    assert r in Elems(CutPage(first, limit).rows);
  }

  lemma CutIsWindowExactly(t: map<Key, Row>, user: UserId, since: Stamp, limit: nat, first: seq<Row>)
    requires limit >= 1 && IsLimited(RowsAfter(t, user, since), limit, first) && CutPage(first, limit).Page?
    ensures var rows := CutPage(first, limit).rows; Exact(t, user, since, rows) <==> SitsOnCursor(since, rows)
  {
    var all, rows := RowsAfter(t, user, since), CutPage(first, limit).rows;
    if rows != [] {
      forall r, q | r in all && q in rows && Ms(r.updatedAt) <= Ms(q.updatedAt) ensures r in rows {
        TrimmedIsDownClosed(all, limit, first, r, q);
      }
      TrimmedRows(all, limit, first);
      PrefixOfWindow(t, user, since, rows);
    }
  }

  lemma PrefixOfWindow(t: map<Key, Row>, user: UserId, since: Stamp, rows: seq<Row>)
    requires rows != [] && Sorted(rows) && Elems(rows) <= RowsAfter(t, user, since)
    requires forall r, q ::
      r in RowsAfter(t, user, since) && q in rows && Ms(r.updatedAt) <= Ms(q.updatedAt) ==> r in rows
    ensures Exact(t, user, since, rows) <==> SitsOnCursor(since, rows)
  {
    PrefixIsWindow(RowsAfter(t, user, since), rows);
    var last := rows[|rows| - 1];
    assert last in Elems(rows) && last.updatedAt > since;
    assert Ms(last.updatedAt) == Ms(Cursor(since, rows));
  }

  lemma GroupIsWindowExactly(t: map<Key, Row>, user: UserId, since: Stamp, limit: nat, first: seq<Row>, rows: seq<Row>)
    requires limit >= 1 && IsLimited(RowsAfter(t, user, since), limit, first) && CutPage(first, limit).Group?
    requires IsGroup(t, user, CutPage(first, limit).stamp, rows)
    ensures Exact(t, user, since, rows) <==> SitsOnCursor(since, rows)
  {
    if rows != [] {
      GroupIsLowest(RowsAfter(t, user, since), limit, first);
      GroupIsWindow(t, user, since, rows, CutPage(first, limit).stamp);
    }
  }

  /** For stamps of any resolution: a page is exactly the window below its cursor if and only if
      it is empty, or its cursor moved past `since` and its rows in the cursor's millisecond sit on it. */
  lemma PageIsWindowExactly(t: map<Key, Row>, user: UserId, since: Stamp, limit: nat, rows: seq<Row>, hasMore: bool)
    requires limit >= 1 && IsPage(t, user, since, limit, rows, hasMore)
    ensures Exact(t, user, since, rows) <==> SitsOnCursor(since, rows)
  {
    var first :| IsLimited(RowsAfter(t, user, since), limit, first) && Answers(t, user, limit, first, rows, hasMore);
    if CutPage(first, limit).Page? {
      CutIsWindowExactly(t, user, since, limit, first);
    } else {
      GroupIsWindowExactly(t, user, since, limit, first, rows);
    }
  }
}
