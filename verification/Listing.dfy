/** Reading the whole pending backlog through a keyset-paginated endpoint while it changes. */
module Listing {
  import opened Text

  datatype AccessRequest = AccessRequest(id: string, email: string, reason: string, status: string)

  /** One response of the list endpoint; both pagination fields are optional on the wire. */
  datatype Page = Page(data: seq<AccessRequest>, hasMore: Option<bool>, nextCursor: Option<string>)

  /** The pending requests at one instant, by id. */
  type Backlog = map<string, AccessRequest>

  function Ids(rs: seq<AccessRequest>): (ids: seq<string>)
    ensures |ids| == |rs| && forall i | 0 <= i < |rs| :: ids[i] == rs[i].id
  {
    seq(|rs|, i requires 0 <= i < |rs| => rs[i].id)
  }

  /** The order the database sorts and compares ids by: any collation, none of which puts a string
      before the empty one. */
  ghost predicate Collation(lt: Order) {
    StrictOrder(lt) && forall id | id != "" :: lt("", id)
  }

  predicate Above(lt: Order, cursor: string, id: string) { cursor == "" || lt(cursor, id) }

  predicate More(p: Page) { p.hasMore == Some(true) }

  /** p answers cursor the way a keyset server over the backlog b does: the next ids above the
      cursor, in order, none skipped, and a cursor to continue from exactly when there are more. */
  ghost predicate KeysetPage(lt: Order, b: Backlog, cursor: string, p: Page) {
    var ids := Ids(p.data);
    && StrictlyIncreasing(lt, ids)
    && (forall i | 0 <= i < |ids| :: Above(lt, cursor, ids[i]) && ids[i] in b && b[ids[i]] == p.data[i])
    && (More(p) ==> ids != [] && p.nextCursor == Some(ids[|ids| - 1]) && ids[|ids| - 1] != "")
    && (forall id | id in b && Above(lt, cursor, id) && id !in ids :: More(p) && lt(ids[|ids| - 1], id))
  }

  ghost predicate Throughout(backlogs: seq<Backlog>, n: nat, id: string)
    requires n <= |backlogs|
  {
    forall i | 0 <= i < n :: id in backlogs[i]
  }

  /** Everything at or below the last id fetched that was pending all the time has been fetched. */
  ghost predicate CoveredUpTo(lt: Order, out: seq<AccessRequest>, cursor: string, backlogs: seq<Backlog>, n: nat)
    requires n <= |backlogs|
  {
    forall id | Throughout(backlogs, n, id) && n > 0 && !lt(cursor, id) :: id in Ids(out)
  }

  ghost predicate Genuine(out: seq<AccessRequest>, backlogs: seq<Backlog>, n: nat)
    requires n <= |backlogs|
  {
    forall r | r in out :: exists i | 0 <= i < n :: r.id in backlogs[i] && backlogs[i][r.id] == r
  }

  lemma AppendPage(lt: Order, out: seq<AccessRequest>, data: seq<AccessRequest>, cursor: string)
    requires StrictOrder(lt) && StrictlyIncreasing(lt, Ids(out)) && StrictlyIncreasing(lt, Ids(data))
    requires out != [] ==> cursor == out[|out| - 1].id
    requires forall i | 0 <= i < |data| && out != [] :: lt(cursor, data[i].id)
    ensures StrictlyIncreasing(lt, Ids(out + data)) && Ids(out + data) == Ids(out) + Ids(data)
  {
    var ids := Ids(out + data);
    forall i, j | 0 <= i < j < |ids| ensures lt(ids[i], ids[j]) {
      if i < |out| <= j {
        assert lt(cursor, data[j - |out|].id);
        if i < |out| - 1 {
          assert lt(Ids(out)[i], Ids(out)[|out| - 1]);
        }
      } else if |out| <= i {
        assert lt(Ids(data)[i - |out|], Ids(data)[j - |out|]);
      } else {
        assert lt(Ids(out)[i], Ids(out)[j]);
      }
    }
  }

  lemma CoverPage(lt: Order, out: seq<AccessRequest>, p: Page, cursor: string, backlogs: seq<Backlog>, n: nat)
    requires n < |backlogs| && KeysetPage(lt, backlogs[n], cursor, p)
    requires n == 0 <==> cursor == ""
    requires CoveredUpTo(lt, out, cursor, backlogs, n)
    ensures More(p) ==> CoveredUpTo(lt, out + p.data, p.nextCursor.value, backlogs, n + 1)
    ensures !More(p) ==> forall id | Throughout(backlogs, n + 1, id) :: id in Ids(out + p.data)
  {
    forall id | Throughout(backlogs, n + 1, id)
      ensures id in Ids(out + p.data) || (More(p) && lt(p.nextCursor.value, id))
    {
      assert Throughout(backlogs, n, id);
      assert id in backlogs[n];
      if Above(lt, cursor, id) {
        if id in Ids(p.data) {
          var i :| 0 <= i < |p.data| && Ids(p.data)[i] == id;
          assert Ids(out + p.data)[|out| + i] == id;
        }
      } else {
        var i :| 0 <= i < |out| && Ids(out)[i] == id;
        assert Ids(out + p.data)[i] == id;
      }
    }
  }

  lemma GenuinePage(lt: Order, out: seq<AccessRequest>, p: Page, cursor: string, backlogs: seq<Backlog>, n: nat)
    requires n < |backlogs| && KeysetPage(lt, backlogs[n], cursor, p) && Genuine(out, backlogs, n)
    ensures Genuine(out + p.data, backlogs, n + 1)
  {
    forall r | r in out + p.data
      ensures exists i | 0 <= i < n + 1 :: r.id in backlogs[i] && backlogs[i][r.id] == r
    {
      if r in p.data {
        var i :| 0 <= i < |p.data| && p.data[i] == r;
        assert Ids(p.data)[i] in backlogs[n];
      }
    }
  }

  lemma PageFacts(lt: Order, b: Backlog, cursor: string, p: Page)
    requires KeysetPage(lt, b, cursor, p)
    ensures StrictlyIncreasing(lt, Ids(p.data))
    ensures forall i | 0 <= i < |p.data| :: Above(lt, cursor, p.data[i].id)
    ensures More(p) ==> p.data != [] && p.nextCursor == Some(p.data[|p.data| - 1].id) && p.nextCursor.value != ""
  {
    forall i | 0 <= i < |p.data| ensures Above(lt, cursor, p.data[i].id) {
      assert Ids(p.data)[i] == p.data[i].id;
    }
  }

  lemma NothingFetched(lt: Order, backlogs: seq<Backlog>)
    ensures StrictlyIncreasing(lt, Ids([])) && CoveredUpTo(lt, [], "", backlogs, 0) && Genuine([], backlogs, 0)
  {
  }

  /** ListPending.  server(i, cursor) is the answer to the i-th request, made when the backlog is
      backlogs[i]; lt is the database's order of ids.  Once backlogs is used up the next request
      fails (network, cancellation), which bounds the run without bounding the backlog. */
  method ListPending(ghost lt: Order, server: (nat, string) -> Page, backlogs: seq<Backlog>)
    returns (r: Result<seq<AccessRequest>, string>, calls: nat)
    requires StrictOrder(lt)
    requires forall i, cursor | 0 <= i < |backlogs| :: KeysetPage(lt, backlogs[i], cursor, server(i, cursor))
    ensures calls <= |backlogs|
    ensures r.Ok? ==> StrictlyIncreasing(lt, Ids(r.value)) && Distinct(Ids(r.value))
    ensures r.Ok? ==> forall id | Throughout(backlogs, calls, id) :: id in Ids(r.value)
    ensures r.Ok? ==> Genuine(r.value, backlogs, calls)
    // for a backlog that stands still, enough answers mean success
    ensures forall b: Backlog | |backlogs| > |b| && (forall i | 0 <= i < |backlogs| :: backlogs[i] == b) ::
              r.Ok? && Ids(r.value) == SortedSeq(lt, b.Keys)
  {
    hide KeysetPage, Throughout, Genuine, CoveredUpTo, SortedSeq, StrictOrder, StrictlyIncreasing, Distinct;
    var out: seq<AccessRequest> := [];
    var cursor := "";
    NothingFetched(lt, backlogs);
    calls := 0;
    while calls < |backlogs|
      invariant calls <= |backlogs|
      invariant calls == 0 <==> cursor == ""
      invariant out != [] ==> cursor == out[|out| - 1].id
      invariant calls > 0 <==> out != []
      invariant StrictlyIncreasing(lt, Ids(out)) && calls <= |out|
      invariant CoveredUpTo(lt, out, cursor, backlogs, calls)
      invariant Genuine(out, backlogs, calls)
    {
      var page := server(calls, cursor);
      assert KeysetPage(lt, backlogs[calls], cursor, page);
      PageFacts(lt, backlogs[calls], cursor, page);
      AppendPage(lt, out, page.data, cursor);
      CoverPage(lt, out, page, cursor, backlogs, calls);
      GenuinePage(lt, out, page, cursor, backlogs, calls);
      out := out + page.data;
      calls := calls + 1;
      if page.hasMore != Some(true) || page.nextCursor == None || page.nextCursor.value == "" {
        IncreasingIsDistinct(lt, Ids(out));
        StandingBacklog(lt, out, backlogs, calls);
        return Ok(out), calls;
      }
      cursor := page.nextCursor.value;
    }
    ShortListing(lt, out, backlogs, calls);
    r := Err("list access requests");
  }

  /** A standing backlog of n requests is never cut off after more than n pages. */
  lemma ShortListing(lt: Order, out: seq<AccessRequest>, backlogs: seq<Backlog>, n: nat)
    requires StrictOrder(lt) && n <= |backlogs|
    requires StrictlyIncreasing(lt, Ids(out)) && Genuine(out, backlogs, n) && n <= |out|
    ensures forall b: Backlog | n > |b| :: exists i | 0 <= i < |backlogs| :: backlogs[i] != b
  {
    forall b: Backlog | n > |b| ensures exists i | 0 <= i < |backlogs| :: backlogs[i] != b {
      if forall i | 0 <= i < |backlogs| :: backlogs[i] == b {
        IncreasingIsDistinct(lt, Ids(out));
        forall id | id in Ids(out) ensures id in b.Keys {
          var i :| 0 <= i < |out| && Ids(out)[i] == id;
          assert out[i] in out;
        }
        DistinctCount(Ids(out), b.Keys);
      }
    }
  }

  /** A complete listing of a standing backlog is exactly the backlog, in id order. */
  lemma StandingBacklog(lt: Order, out: seq<AccessRequest>, backlogs: seq<Backlog>, n: nat)
    requires StrictOrder(lt) && 0 < n <= |backlogs|
    requires StrictlyIncreasing(lt, Ids(out)) && Genuine(out, backlogs, n)
    requires forall id | Throughout(backlogs, n, id) :: id in Ids(out)
    ensures forall b: Backlog | forall i | 0 <= i < |backlogs| :: backlogs[i] == b ::
              Ids(out) == SortedSeq(lt, b.Keys)
  {
    forall b: Backlog | forall i | 0 <= i < |backlogs| :: backlogs[i] == b
      ensures Ids(out) == SortedSeq(lt, b.Keys)
    {
      forall id | id in Ids(out) ensures id in b.Keys {
        var i :| 0 <= i < |out| && Ids(out)[i] == id;
        assert out[i] in out;
      }
      forall id | id in b.Keys ensures id in Ids(out) {
        assert Throughout(backlogs, n, id);
      }
      assert Elements(Ids(out)) == b.Keys;
      IncreasingIsCanonical(lt, Ids(out), SortedSeq(lt, b.Keys));
    }
  }

  // ------------------------------------------------------------------ the server

  const PAGE_SIZE: nat := 50

  /** The Postgres adapter and the API layer over it: one row more than a page is fetched to learn
      whether there are more, and the cursor is the last id shown. */
  ghost function ServePage(lt: Order, b: Backlog, cursor: string): Page
    requires StrictOrder(lt)
  {
    var rows := SortedSeq(lt, set id | id in b && Above(lt, cursor, id));
    var more := |rows| > PAGE_SIZE;
    var shown := if more then rows[..PAGE_SIZE] else rows;
    assert forall i | 0 <= i < |shown| :: shown[i] in Elements(rows);
    Page(
      seq(|shown|, i requires 0 <= i < |shown| => b[shown[i]]),
      Some(more),
      if more && shown[|shown| - 1] != "" then Some(shown[|shown| - 1]) else None
    )
  }

  /** The server is a keyset server for every backlog and cursor. */
  lemma ServerIsKeyset(lt: Order, b: Backlog, cursor: string)
    requires Collation(lt) && forall id | id in b :: b[id].id == id
    ensures KeysetPage(lt, b, cursor, ServePage(lt, b, cursor))
    // at most 50 requests, and more of them exactly when there are
    ensures
      var left := |set id | id in b && Above(lt, cursor, id)|;
      && |ServePage(lt, b, cursor).data| == (if left > 50 then 50 else left)
      && (ServePage(lt, b, cursor).hasMore == Some(true) <==> left > 50)
  {
    hide SortedSeq, Collation, StrictOrder;
    assert StrictOrder(lt) by { CollationIsOrder(lt); }
    var above := set id | id in b && Above(lt, cursor, id);
    var rows := SortedSeq(lt, above);
    SortedCount(lt, above);
    var p := ServePage(lt, b, cursor);
    var n := if More(p) then PAGE_SIZE else |rows|;
    var shown := rows[..n];
    assert forall i | 0 <= i < |rows| :: rows[i] in Elements(rows);
    assert Ids(p.data) == shown;
    CutRows(lt, rows, n);
    if More(p) {
      LaterIsNotEmpty(lt, shown[0], shown[n - 1]);
    }
    hide ServePage, StrictlyIncreasing;
    forall id | id in b && Above(lt, cursor, id) && id !in shown ensures More(p) && lt(shown[n - 1], id) {
      assert id in Elements(rows);
    }
  }

  lemma SortedCount(lt: Order, s: set<string>)
    requires StrictOrder(lt)
    ensures |SortedSeq(lt, s)| == |s|
  {
    hide SortedSeq;
    var r := SortedSeq(lt, s);
    IncreasingIsDistinct(lt, r);
    DistinctCount(r, s);
    ElementsCount(r);
  }

  lemma CollationIsOrder(lt: Order)
    requires Collation(lt)
    ensures StrictOrder(lt)
  {
  }

  lemma LaterIsNotEmpty(lt: Order, a: string, b: string)
    requires Collation(lt) && lt(a, b)
    ensures b != ""
  {
    assert !lt("", "");
    assert a != "" ==> lt("", a);
  }

  /** What lies behind a cut through an increasing list is above the last entry in front of it. */
  lemma CutRows(lt: Order, rows: seq<string>, n: nat)
    requires StrictlyIncreasing(lt, rows) && n <= |rows|
    ensures StrictlyIncreasing(lt, rows[..n])
    ensures forall id | id in Elements(rows) && id !in rows[..n] :: n < |rows| && (n > 0 ==> lt(rows[n - 1], id))
  {
    assert forall k | 0 <= k < n :: rows[k] in rows[..n];
    forall id | id in Elements(rows) && id !in rows[..n] ensures n < |rows| && (n > 0 ==> lt(rows[n - 1], id)) {
      var i :| 0 <= i < |rows| && rows[i] == id;
    }
  }
}
