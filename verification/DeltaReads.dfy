/**
  What the "updated since" reader gives a sweep.

  The requests of one read meet the moving remote at different ticks.  Where the reader hides no
  standing row, its rows show every pull request as the window held it at some one tick of the
  read, which is all that the sweeps rely on.
 */
module DeltaReads {
  import opened Shared
  import opened Discovery
  import opened DiscoveryRuns
  import R = IssueDelta

  /**
    One read: the replies, the tick of each request, the issue row that a REST row spells out,
    and what the reader returned.
   */
  datatype Reading = Reading(remote: R.Remote, at: nat -> nat, row: R.Row -> IssueRow,
                             read: seq<R.Row>, requests: nat, rows: map<int, R.Row>)

  ghost predicate Answers(d: Reading) {
    R.ReadDelta(d.remote) == (R.Returned(d.read), d.requests) && R.Indexes(d.rows, d.read)
  }

  /** A listing is the window of its tick: its pull requests, each under its row, and other issues. */
  ghost predicate Lists(w: World, tick: nat, since: int, listing: seq<R.Row>, row: R.Row -> IssueRow) {
    && (forall n :: ListsOne(w, tick, since, listing, row, n))
    && (forall r :: r in listing ==> row(r).id == r.id && TellsTruly(w, tick, since, row(r)))
  }

  ghost predicate ListsOne(w: World, tick: nat, since: int, listing: seq<R.Row>, row: R.Row -> IssueRow, n: int) {
    InWindow(w, n, tick, since) ==> exists r :: r in listing && row(r) == w.at(tick)[n].row
  }

  /** The row of a pull request is its row of this tick, and no other row has its id. */
  ghost predicate TellsTruly(w: World, tick: nat, since: int, row: IssueRow) {
    && (row.isPr ==> InWindow(w, row.number, tick, since) && row == w.at(tick)[row.number].row)
    && (forall n, u: nat :: NumberedAs(w, row, n, u))
  }

  ghost predicate ListsAt(w: World, since: int, d: Reading, t: nat) {
    t < R.MAX_REQUESTS && d.remote[t].Serves? ==> Lists(w, d.at(t), since, d.remote[t].listing, d.row)
  }

  /** Every request meets the window of its tick, one request after the other. */
  ghost predicate MeetsWorld(w: World, since: int, d: Reading) {
    && (forall t: nat :: ListsAt(w, since, d, t))
    && (forall t, u :: 0 <= t <= u < R.MAX_REQUESTS ==> d.at(t) <= d.at(u))
  }

  /** The id of a pull request's row never changes. */
  ghost predicate StableIds(w: World) {
    forall n, a: nat, b: nat :: SameId(w, n, a, b)
  }

  ghost predicate SameId(w: World, n: int, a: nat, b: nat) {
    n in w.at(a) && n in w.at(b) ==> w.at(a)[n].row.id == w.at(b)[n].row.id
  }

  /** The delta is the values of the reader's dictionary, in any order. */
  ghost predicate Gives(d: Reading, delta: seq<IssueRow>) {
    && (forall id :: id in d.rows ==> d.row(d.rows[id]) in delta)
    && (forall shown :: shown in delta ==> GivenUnderSomeId(d, shown))
  }

  ghost predicate GivenUnderSomeId(d: Reading, shown: IssueRow) {
    exists id :: id in d.rows && d.row(d.rows[id]) == shown
  }

  // ---------------------------------------------------------------------------------------
  // One pull request
  // ---------------------------------------------------------------------------------------

  lemma {:induction false} LastOfId(read: seq<R.Row>, id: int) returns (i: nat)
    requires id in R.IdSet(read)
    ensures i < |read| && read[i].id == id && R.IsLast(read, i)
  {
    var last := |read| - 1;
    if read[last].id == id {
      i := last;
    } else {
      i := LastOfId(read[..last], id);
      assert forall j :: 0 <= j < last ==> read[..last][j] == read[j];
    }
  }

  /** Every row of the dictionary was served by some request, under its id. */
  lemma ValueIsServed(w: World, since: int, d: Reading, id: int) returns (t: nat)
    requires MeetsWorld(w, since, d) && Answers(d) && id in d.rows
    ensures t < d.requests <= R.MAX_REQUESTS && d.remote[t].Serves?
    ensures d.row(d.rows[id]).id == d.rows[id].id == id && TellsTruly(w, d.at(t), since, d.row(d.rows[id]))
  {
    R.DeltaIsASnapshot(d.remote);
    var i := LastOfId(d.read, id);
    assert d.rows[d.read[i].id] == d.read[i];
    assert R.ShownBefore(d.remote, d.requests, d.read[i]);
    t :| 0 <= t < d.requests && d.remote[t].Serves? && d.read[i] in d.remote[t].listing;
    assert ListsAt(w, since, d, t);
  }

  /** A row of this pull request was read: it shows the tick that served it. */
  lemma ReadRowIsShown(w: World, since: int, d: Reading, delta: seq<IssueRow>, n: int, shown: IssueRow)
    returns (t: nat)
    requires StableIds(w) && MeetsWorld(w, since, d) && Answers(d) && Gives(d, delta)
    requires shown in delta && shown.isPr && shown.number == n
    ensures t < d.requests <= R.MAX_REQUESTS && ShowsWindow(w, d.at(t), since, delta, n)
  {
    assert GivenUnderSomeId(d, shown);
    var id :| id in d.rows && d.row(d.rows[id]) == shown;
    t := ValueIsServed(w, since, d, id);
    forall other | other in delta && other.isPr && other.number == n
      ensures other == shown
    {
      assert GivenUnderSomeId(d, other);
      var id' :| id' in d.rows && d.row(d.rows[id']) == other;
      var t' := ValueIsServed(w, since, d, id');
      assert SameId(w, n, d.at(t), d.at(t'));
    }
  }

  /** A pull request that every request had in its window was read. */
  lemma StandingIsRead(w: World, since: int, d: Reading, delta: seq<IssueRow>, n: int) returns (shown: IssueRow)
    requires StableIds(w) && MeetsWorld(w, since, d) && Answers(d) && Gives(d, delta) && R.HidesNothing(d.remote)
    requires forall u :: 0 <= u < d.requests <= R.MAX_REQUESTS && d.remote[u].Serves? ==> InWindow(w, n, d.at(u), since)
    ensures shown in delta && shown.isPr && shown.number == n
  {
    R.ReturnsAfterServing(d.remote, 0, 1, [], R.Unknown);
    var id := w.at(d.at(0))[n].row.id;
    forall u | 0 <= u < d.requests && d.remote[u].Serves?
      ensures id in R.Alive(d.remote, u)
    {
      assert ListsAt(w, since, d, u) && ListsOne(w, d.at(u), since, d.remote[u].listing, d.row, n);
      var r :| r in d.remote[u].listing && d.row(r) == w.at(d.at(u))[n].row;
      assert SameId(w, n, d.at(0), d.at(u));
    }
    assert R.StandsThrough(d.remote, d.requests, id);
    var served := ValueIsServed(w, since, d, id);
    shown := d.row(d.rows[id]);
    assert NumberedAs(w, shown, n, d.at(0));
  }

  /** No row of this pull request was read: some request of the read did not have it in its window. */
  lemma UnreadIsOutside(w: World, since: int, d: Reading, delta: seq<IssueRow>, n: int) returns (t: nat)
    requires StableIds(w) && MeetsWorld(w, since, d) && Answers(d) && Gives(d, delta) && R.HidesNothing(d.remote)
    requires forall shown :: shown in delta && shown.isPr ==> shown.number != n
    ensures t < d.requests <= R.MAX_REQUESTS && ShowsWindow(w, d.at(t), since, delta, n)
  {
    R.ReturnsAfterServing(d.remote, 0, 1, [], R.Unknown);
    if forall u :: 0 <= u < d.requests && d.remote[u].Serves? ==> InWindow(w, n, d.at(u), since) {
      var shown := StandingIsRead(w, since, d, delta, n);
    }
    t :| 0 <= t < d.requests && d.remote[t].Serves? && !InWindow(w, n, d.at(t), since);
  }

  ghost predicate ShownDuring(w: World, since: int, d: Reading, delta: seq<IssueRow>, n: int, u: nat) {
    d.at(0) <= u <= d.at(R.MAX_REQUESTS - 1) && ShowsWindow(w, u, since, delta, n)
  }

  ghost predicate ShownSometime(w: World, since: int, d: Reading, delta: seq<IssueRow>, n: int) {
    exists u: nat :: ShownDuring(w, since, d, delta, n, u)
  }

  /** The rows of a read that hides nothing show each pull request as it was at some tick of the read. */
  lemma ReadShowsEach(w: World, since: int, d: Reading, delta: seq<IssueRow>, n: int)
    requires StableIds(w) && MeetsWorld(w, since, d) && Answers(d) && Gives(d, delta) && R.HidesNothing(d.remote)
    ensures ShownSometime(w, since, d, delta, n)
  {
    var t: nat;
    if shown :| shown in delta && shown.isPr && shown.number == n {
      t := ReadRowIsShown(w, since, d, delta, n, shown);
    } else {
      t := UnreadIsOutside(w, since, d, delta, n);
    }
    assert ShownDuring(w, since, d, delta, n, d.at(t));
  }

  // ---------------------------------------------------------------------------------------
  // A whole sweep
  // ---------------------------------------------------------------------------------------

  ghost function TickOf(w: World, since: int, d: Reading, delta: seq<IssueRow>, n: int): (u: nat)
    ensures ShownSometime(w, since, d, delta, n) ==> ShownDuring(w, since, d, delta, n, u)
  {
    if ShownSometime(w, since, d, delta, n) then
      var u: nat :| ShownDuring(w, since, d, delta, n, u);
      u
    else 0
  }

  lemma ReadRowsAreNumbered(w: World, since: int, d: Reading, delta: seq<IssueRow>, row: IssueRow, n: int, u: nat)
    requires MeetsWorld(w, since, d) && Answers(d) && Gives(d, delta) && row in delta
    ensures NumberedAs(w, row, n, u)
  {
    assert GivenUnderSomeId(d, row);
    var id :| id in d.rows && d.row(d.rows[id]) == row;
    var served := ValueIsServed(w, since, d, id);
  }

  /** Census and details are read behind the delta, each pull request at a tick of its own. */
  ghost predicate ReadBehind(w: World, d: Reading, t: Ticks, seen: Reads, n: int) {
    && t.start <= d.at(0) && d.at(R.MAX_REQUESTS - 1) <= t.census(n) <= t.detail(n) <= t.end
    && CensusShows(w, t, seen, n) && DetailShows(w, t, seen, n)
  }

  lemma TickServes(w: World, cache: Cache, d: Reading, seen: Reads, t: Ticks, t': Ticks, n: int)
    requires ReadBehind(w, d, t, seen, n) && t' == t.(delta := t'.delta)
    requires ShownDuring(w, cache.startedAt - OVERLAP_SECONDS, d, seen.delta, n, t'.delta(n))
    ensures Ordered(t', n) && DeltaShows(w, t', cache, seen, n)
    ensures CensusShows(w, t', seen, n) && DetailShows(w, t', seen, n)
  {
  }

  /**
    A sweep whose delta the reader returned, hiding nothing, reads from the world in the sense
    of the run theorems, with the tick of each pull request's row chosen within the read.
   */
  lemma ReaderServesSweep(w: World, cache: Cache, d: Reading, seen: Reads, t: Ticks) returns (t': Ticks)
    requires StableIds(w) && MeetsWorld(w, cache.startedAt - OVERLAP_SECONDS, d) && Answers(d) && Gives(d, seen.delta)
    requires R.HidesNothing(d.remote)
    requires t.start <= t.end && forall n :: ReadBehind(w, d, t, seen, n)
    ensures t' == t.(delta := t'.delta) && ReadsFrom(w, t', cache, seen)
  {
    var since := cache.startedAt - OVERLAP_SECONDS;
    t' := t.(delta := n => TickOf(w, since, d, seen.delta, n));
    hide MeetsWorld, Answers, Gives, R.HidesNothing, ReadBehind, ShownDuring, ShownSometime;
    hide Ordered, DeltaShows, CensusShows, DetailShows, NumberedAs, StableIds;
    forall n
      ensures Ordered(t', n) && DeltaShows(w, t', cache, seen, n)
      ensures CensusShows(w, t', seen, n) && DetailShows(w, t', seen, n)
    {
      ReadShowsEach(w, since, d, seen.delta, n);
      TickServes(w, cache, d, seen, t, t', n);
    }
    forall row, n, u: nat | row in seen.delta
      ensures NumberedAs(w, row, n, u)
    {
      ReadRowsAreNumbered(w, since, d, seen.delta, row, n, u);
    }
  }
}
