/** Pulling until `has_more` is false (the loop of test/sync-paging.test.js), and where paging breaks. */
module Drain {
  import opened Rows
  import opened Seqs
  import opened Tables
  import opened Paging

  /** What a client may rely on in one page of a whole-millisecond store. */
  ghost predicate GoodPage(t: map<Key, Row>, user: UserId, since: Stamp, limit: nat, rows: seq<Row>, hasMore: bool) {
    var c := Cursor(since, rows);
    && Exact(t, user, since, rows) && Sorted(rows) && NoDup(rows)
    && (hasMore <==> |RowsAfter(t, user, since)| >= limit)
    && (hasMore ==> rows != [])
    && (rows != [] ==> c == rows[|rows| - 1].updatedAt > since)
    && (!hasMore ==> RowsAfter(t, user, c) == {})
    && (|rows| >= limit ==> Elems(rows) == RowsAt(t, user, c))
  }

  lemma GroupPage(t: map<Key, Row>, user: UserId, since: Stamp, limit: nat, first: seq<Row>, rows: seq<Row>)
    requires limit >= 1 && Aligned(t, user)
    requires IsLimited(RowsAfter(t, user, since), limit, first) && CutPage(first, limit).Group?
    requires IsGroup(t, user, CutPage(first, limit).stamp, rows)
    ensures GoodPage(t, user, since, limit, rows, true)
  {
    var stamp := CutPage(first, limit).stamp;
    GroupIsLowest(RowsAfter(t, user, since), limit, first);
    var r :| r in RowsAfter(t, user, since) && Trunc(r.updatedAt) == stamp;
    assert r in RowsAt(t, user, stamp) && r in Elems(rows);
    GroupIsWindow(t, user, since, rows, stamp);
    assert Sorted(rows);
  }

  lemma BeyondWindow(t: map<Key, Row>, user: UserId, since: Stamp, cursor: Stamp)
    requires cursor >= since
    ensures RowsAfter(t, user, cursor) == RowsAfter(t, user, since) - Window(t, user, since, cursor)
  {}

  lemma CutPageIsGood(t: map<Key, Row>, user: UserId, since: Stamp, limit: nat, first: seq<Row>)
    requires limit >= 1 && Aligned(t, user)
    requires IsLimited(RowsAfter(t, user, since), limit, first) && CutPage(first, limit).Page?
    ensures var p := CutPage(first, limit); GoodPage(t, user, since, limit, p.rows, p.hasMore)
  {
    var p := CutPage(first, limit);
    TrimmedRows(RowsAfter(t, user, since), limit, first);
    assert forall r :: r in p.rows ==> r in Elems(p.rows);
    if p.rows != [] { assert p.rows[|p.rows| - 1] in p.rows; }
    CutIsWindowExactly(t, user, since, limit, first);
    assert SitsOnCursor(since, p.rows);
    if !p.hasMore {
      assert |p.rows| < limit;
      var c := Cursor(since, p.rows);
      BeyondWindow(t, user, since, c);
    }
  }

  /** Every page of a whole-millisecond store is the window below its own cursor, moves the
      cursor while more remains, and is one complete timestamp once it reaches the limit. */
  lemma PageIsGood(t: map<Key, Row>, user: UserId, since: Stamp, limit: nat, rows: seq<Row>, hasMore: bool)
    requires limit >= 1 && Aligned(t, user) && IsPage(t, user, since, limit, rows, hasMore)
    ensures GoodPage(t, user, since, limit, rows, hasMore)
  {
    var first :| IsLimited(RowsAfter(t, user, since), limit, first) && Answers(t, user, limit, first, rows, hasMore);
    if CutPage(first, limit).Page? {
      CutPageIsGood(t, user, since, limit, first);
    } else {
      GroupPage(t, user, since, limit, first, rows);
    }
  }

  /** What one page leaves to deliver. */
  lemma PageConsumes(t: map<Key, Row>, user: UserId, since: Stamp, limit: nat, rows: seq<Row>, hasMore: bool)
    requires GoodPage(t, user, since, limit, rows, hasMore)
    ensures var c := Cursor(since, rows);
      && RowsAfter(t, user, since) == Elems(rows) + RowsAfter(t, user, c)
      && c >= since && (hasMore ==> |RowsAfter(t, user, c)| < |RowsAfter(t, user, since)|)
      && (forall r :: r in rows ==> r.updatedAt <= c)
  {
    var c := Cursor(since, rows);
    assert RowsAfter(t, user, since) == Window(t, user, since, c) + RowsAfter(t, user, c);
    if hasMore {
      assert rows[0] in Elems(rows);
      SubsetSize(RowsAfter(t, user, c), RowsAfter(t, user, since) - {rows[0]});
    }
    assert forall r :: r in rows ==> r in Elems(rows);
  }

  lemma AppendPage(t: map<Key, Row>, user: UserId, cursor: Stamp, delivered: seq<Row>, rows: seq<Row>)
    requires NoDup(delivered) && Sorted(delivered) && NoDup(rows) && Sorted(rows)
    requires forall r :: r in delivered ==> r.updatedAt <= cursor
    requires Elems(rows) <= RowsAfter(t, user, cursor)
    ensures NoDup(delivered + rows) && Sorted(delivered + rows)
    ensures Elems(delivered + rows) == Elems(delivered) + Elems(rows)
  {
    assert forall i :: 0 <= i < |delivered| ==> delivered[i] in delivered;
    forall i | 0 <= i < |rows| ensures rows[i].updatedAt > cursor { assert rows[i] in Elems(rows); }
  }

  /** `delivered` is, once each and in stamp order, everything above `since` up to `cursor`. */
  ghost predicate Delivered(t: map<Key, Row>, user: UserId, since: Stamp, delivered: seq<Row>, cursor: Stamp) {
    && NoDup(delivered) && Sorted(delivered) && cursor >= since
    && RowsAfter(t, user, since) == Elems(delivered) + RowsAfter(t, user, cursor)
    && forall r :: r in delivered ==> r.updatedAt <= cursor
  }

  lemma DeliverPage(t: map<Key, Row>, user: UserId, since: Stamp, delivered: seq<Row>, cursor: Stamp,
                    limit: nat, rows: seq<Row>, hasMore: bool)
    requires Delivered(t, user, since, delivered, cursor) && GoodPage(t, user, cursor, limit, rows, hasMore)
    ensures Delivered(t, user, since, delivered + rows, Cursor(cursor, rows))
  {
    PageConsumes(t, user, cursor, limit, rows, hasMore);
    AppendPage(t, user, cursor, delivered, rows);
    var c := Cursor(cursor, rows);
    Regroup(RowsAfter(t, user, since), Elems(delivered), RowsAfter(t, user, cursor), Elems(rows),
            RowsAfter(t, user, c));
    assert forall r :: r in delivered + rows ==> r in delivered || r in rows;
  }

  lemma Regroup<T>(all: set<T>, done: set<T>, rest: set<T>, page: set<T>, after: set<T>)
    requires all == done + rest && rest == page + after
    ensures all == (done + page) + after
  {}

  /** Pull page after page. Nothing is assumed of how the database orders ties. */
  method DrainAll(t: Table, user: UserId, since: Stamp, limit: nat) returns (delivered: seq<Row>, cursor: Stamp)
    requires limit >= 1 && Aligned(t.rows, user)
    ensures NoDup(delivered) && Sorted(delivered)
    ensures Elems(delivered) == RowsAfter(t.rows, user, since)
    ensures cursor >= since && RowsAfter(t.rows, user, cursor) == {}
  {
    delivered, cursor := [], since;
    var more := true;
    while more
      invariant Delivered(t.rows, user, since, delivered, cursor)
      invariant !more ==> RowsAfter(t.rows, user, cursor) == {}
      decreases more, |RowsAfter(t.rows, user, cursor)|
    {
      var rows, hasMore := ReadPage(t, user, cursor, limit);
      PageIsGood(t.rows, user, cursor, limit, rows, hasMore);
      PageConsumes(t.rows, user, cursor, limit, rows, hasMore);
      DeliverPage(t.rows, user, since, delivered, cursor, limit, rows, hasMore);
      delivered, cursor, more := delivered + rows, Cursor(cursor, rows), hasMore;
    }
  }

  lemma NoElems(rows: seq<Row>)
    ensures Elems(rows) == {} ==> rows == []
  {
    if rows != [] { assert rows[0] in Elems(rows); }
  }

  /** A timestamp shared by at least `limit` rows but off the whole millisecond, with nothing
      stored on that millisecond itself: every answer is an empty page that claims more and
      repeats the cursor, so the pull never ends. */
  lemma SubMillisecondGroupStalls(t: map<Key, Row>, user: UserId, since: Stamp, limit: nat, ms: int,
                                  rows: seq<Row>, hasMore: bool)
    requires limit >= 1 && |RowsAfter(t, user, since)| >= limit
    requires forall r :: r in RowsAfter(t, user, since) ==> Ms(r.updatedAt) == ms
    requires RowsAt(t, user, ms * 1000) == {}
    requires IsPage(t, user, since, limit, rows, hasMore)
    ensures rows == [] && hasMore && Cursor(since, rows) == since
  {
    var first :| IsLimited(RowsAfter(t, user, since), limit, first) && Answers(t, user, limit, first, rows, hasMore);
    assert first[0] in Elems(first) && first[|first| - 1] in Elems(first);
    NoElems(rows);
  }

  lemma {:induction false} Enumerate(all: set<Row>, before: seq<Row>, rows: set<Row>) returns (rs: seq<Row>)
    requires IdSplit(all, before, rows)
    ensures NoDup(rs) && ById(rs) && Elems(rs) == all
    decreases rows
  {
    rs := before;
    if rows == {} {
      assert all == Elems(before) + (all - Elems(before));
    } else {
      LowestIdExists(rows);
      var r :| r in rows && forall q :: q in rows ==> r.id <= q.id;
      TakeLowestId(all, before, rows, r);
      rs := Enumerate(all, before + [r], rows - {r});
    }
  }

  /** Asked for one row above the millisecond of a finer stamp, the code finds a row of that very
      millisecond and answers a page that does not get past it. */
  lemma FineStampGetsStuck(t: map<Key, Row>, user: UserId, k: Key) returns (rows: seq<Row>)
    requires k in t && t[k].user == user && !Whole(t[k].updatedAt)
    ensures var since := Trunc(t[k].updatedAt);
      Whole(since) && IsPage(t, user, since, 1, rows, true) && Cursor(since, rows) == since
  {
    var since := Trunc(t[k].updatedAt);
    var all := RowsAfter(t, user, since);
    assert t[k] in all;
    EarliestExists(all);
    var x :| x in all && forall q :: q in all ==> x.updatedAt <= q.updatedAt;
    var first := [x];
    assert Elems(first) == {x};
    SubsetSize({x}, all);
    assert IsLimited(all, 1, first);
    assert since < x.updatedAt <= t[k].updatedAt;
    assert Ms(x.updatedAt) == Ms(since);
    assert CutPage(first, 1) == Group(since);
    rows := Enumerate(RowsAt(t, user, since), [], RowsAt(t, user, since));
    assert Answers(t, user, 1, first, rows, true);
    if rows != [] { assert rows[|rows| - 1] in Elems(rows); }
  }

  /** Paging works, from every cursor the server can have handed out, for every limit and tie order,
      exactly when all of the user's stamps lie on whole milliseconds. */
  lemma PagingWorksExactly(t: map<Key, Row>, user: UserId)
    ensures Aligned(t, user) <==>
      forall since, limit: nat, rows, hasMore ::
        Whole(since) && limit >= 1 && IsPage(t, user, since, limit, rows, hasMore) ==>
          GoodPage(t, user, since, limit, rows, hasMore)
  {
    if Aligned(t, user) {
      forall since, limit: nat, rows, hasMore
        | Whole(since) && limit >= 1 && IsPage(t, user, since, limit, rows, hasMore)
        ensures GoodPage(t, user, since, limit, rows, hasMore)
      {
        PageIsGood(t, user, since, limit, rows, hasMore);
      }
    } else {
      var k :| k in t && t[k].user == user && !Whole(t[k].updatedAt);
      var rows := FineStampGetsStuck(t, user, k);
      assert !GoodPage(t, user, Trunc(t[k].updatedAt), 1, rows, true);
    }
  }

  /** The two queries of a single-timestamp page see different tables. The page is still the
      window below its cursor exactly when it is empty or no write in between left a row
      strictly between `since` and that timestamp. */
  lemma TwoSnapshots(t1: map<Key, Row>, t2: map<Key, Row>, user: UserId, since: Stamp, limit: nat,
                     first: seq<Row>, rows: seq<Row>)
    requires limit >= 1 && Aligned(t1, user)
    requires IsLimited(RowsAfter(t1, user, since), limit, first) && CutPage(first, limit).Group?
    requires IsGroup(t2, user, CutPage(first, limit).stamp, rows)
    ensures Exact(t2, user, since, rows) <==>
      rows == [] || forall r :: r in RowsAfter(t2, user, since) ==> r.updatedAt >= CutPage(first, limit).stamp
  {
    var stamp := CutPage(first, limit).stamp;
    GroupIsLowest(RowsAfter(t1, user, since), limit, first);
    assert stamp > since;
    if rows != [] {
      forall r | r in rows ensures r.updatedAt == stamp { assert r in Elems(rows); }
      assert rows[|rows| - 1] in rows && Cursor(since, rows) == stamp;
      if forall r :: r in RowsAfter(t2, user, since) ==> r.updatedAt >= stamp {
        GroupIsWindow(t2, user, since, rows, stamp);
      }
      if Exact(t2, user, since, rows) {
        assert forall r :: r in Window(t2, user, since, stamp) ==> r in Elems(rows);
        assert forall r :: r in RowsAfter(t2, user, since) && r.updatedAt <= stamp ==>
          r in Window(t2, user, since, stamp);
      }
    }
  }
}
