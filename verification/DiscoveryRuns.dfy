/**
  Runs of discovery sweeps against a remote that changes at any moment.

  Time is a sequence of ticks.  At each tick the remote holds some pull requests and the local
  clock shows a second.  A sweep reads its inputs at different ticks, even a different tick for
  every pull request, so a sweep never sees one consistent remote.
 */
module DiscoveryRuns {
  import opened Discovery
  import opened Shared

  const OVERLAP_SECONDS: int := 60

  /** A pull request on the remote: its node, its row in the issue list, and that row's stamp. */
  datatype Live = Live(node: Node, row: IssueRow, stamp: int)

  datatype World = World(at: nat -> map<int, Live>, clock: nat -> int)

  /** When one sweep read what. */
  datatype Ticks = Ticks(start: nat, delta: int -> nat, census: int -> nat, detail: int -> nat, end: nat)

  /**
    One sweep that failed before its last write, an incremental one, or a bootstrap, which a full
    refresh, changed limits or a refused cache bring about; it starts from the published archive.
   */
  datatype Attempt =
    | Failed
    | Completed(startedAt: int, ticks: Ticks, seen: Reads, sweep: Sweep)
    | Rebuilt(startedAt: int, ticks: Ticks, archive: map<int, Node>, open: map<int, Node>, terminal: map<int, Node>)

  // ---------------------------------------------------------------------------------------
  // What is assumed of the remote
  // ---------------------------------------------------------------------------------------

  /** From tick a to b a pull request stays, and a change outside the watch re-stamps its row. */
  ghost predicate Evolves(w: World, n: int, a: nat, b: nat) {
    n in w.at(a) ==>
      && n in w.at(b)
      && (w.at(a)[n].node.rest != w.at(b)[n].node.rest ==> w.at(b)[n].stamp >= w.clock(a) - OVERLAP_SECONDS)
  }

  /** A row that reads the same at two ticks hides no change outside the watch in between. */
  ghost predicate Telling(w: World, n: int, a: nat, c: nat, b: nat) {
    n in w.at(a) && n in w.at(b) && n in w.at(c) && w.at(a)[n].row == w.at(b)[n].row ==>
      w.at(c)[n].node.rest == w.at(a)[n].node.rest
  }

  ghost predicate Named(w: World, n: int, a: nat) {
    n in w.at(a) ==> w.at(a)[n].node.number == n && w.at(a)[n].row.number == n && w.at(a)[n].row.isPr
  }

  ghost predicate WellBehaved(w: World) {
    && (forall n, a: nat, b: nat :: a <= b ==> Evolves(w, n, a, b))
    && (forall n, a: nat, c: nat, b: nat :: a <= c <= b ==> Telling(w, n, a, c, b))
    && (forall n, a: nat :: Named(w, n, a))
    && (forall a: nat, b: nat :: a <= b ==> ClockAdvances(w, a, b))
  }

  ghost predicate ClockAdvances(w: World, a: nat, b: nat) {
    w.clock(a) <= w.clock(b)
  }

  /** The assumptions leave room for change: in this world the body of pull request 1 is edited at tick 5. */
  lemma WorldsMayMove()
    ensures exists w: World ::
              WellBehaved(w) && 1 in w.at(0) && 1 in w.at(5) && w.at(0)[1].node.rest != w.at(5)[1].node.rest
  {
    var stale := Live(Node(1, Watch(Open, ""), Rest("a", [], true)), IssueRow(7, 1, true, "a"), 0);
    var edited := Live(Node(1, Watch(Open, ""), Rest("b", [], true)), IssueRow(7, 1, true, "b"), 5);
    var w := World((t: nat) => map[1 := if t < 5 then stale else edited], (t: nat) => t);
    assert w.at(0)[1] == stale && w.at(5)[1] == edited;
    assert stale.row.payload[0] != edited.row.payload[0] && stale.node.rest.body[0] != edited.node.rest.body[0];
    forall n, a: nat, b: nat | a <= b
      ensures Evolves(w, n, a, b)
    {
    }
    forall n, a: nat, c: nat, b: nat | a <= c <= b
      ensures Telling(w, n, a, c, b)
    {
    }
    assert WellBehaved(w);
  }

  // ---------------------------------------------------------------------------------------
  // What a sweep reads
  // ---------------------------------------------------------------------------------------

  ghost predicate Ordered(t: Ticks, n: int) {
    t.start <= t.delta(n) <= t.census(n) <= t.detail(n) <= t.end
  }

  ghost predicate InWindow(w: World, n: int, tick: nat, since: int) {
    n in w.at(tick) && w.at(tick)[n].stamp >= since
  }

  /** The delta shows this pull request exactly as the window at its tick demands. */
  ghost predicate DeltaShows(w: World, t: Ticks, cache: Cache, seen: Reads, n: int) {
    ShowsWindow(w, t.delta(n), cache.startedAt - OVERLAP_SECONDS, seen.delta, n)
  }

  /** Of this pull request the rows show what the window held at one tick. */
  ghost predicate ShowsWindow(w: World, tick: nat, since: int, rows: seq<IssueRow>, n: int) {
    && (InWindow(w, n, tick, since) ==> w.at(tick)[n].row in rows)
    && (forall row :: row in rows && row.isPr && row.number == n ==>
          InWindow(w, n, tick, since) && row == w.at(tick)[n].row)
  }

  ghost predicate CensusShows(w: World, t: Ticks, seen: Reads, n: int) {
    && (n in seen.census <==> n in w.at(t.census(n)) && w.at(t.census(n))[n].node.watch.state.Open?)
    && (n in seen.census ==> seen.census[n] == w.at(t.census(n))[n].node.watch)
  }

  ghost predicate DetailShows(w: World, t: Ticks, seen: Reads, n: int) {
    n in seen.details ==> n in w.at(t.detail(n)) && seen.details[n] == w.at(t.detail(n))[n].node
  }

  /** A row with a pull request's id is a row of that pull request. */
  ghost predicate NumberedAs(w: World, row: IssueRow, n: int, u: nat) {
    n in w.at(u) && row.id == w.at(u)[n].row.id ==> row.isPr && row.number == n
  }

  ghost predicate ReadsFrom(w: World, t: Ticks, cache: Cache, seen: Reads) {
    && t.start <= t.end
    && (forall n :: Ordered(t, n))
    && (forall n :: DeltaShows(w, t, cache, seen, n))
    && (forall n :: CensusShows(w, t, seen, n))
    && (forall n :: DetailShows(w, t, seen, n))
    && (forall row, n, u: nat :: row in seen.delta ==> NumberedAs(w, row, n, u))
  }

  /** A fingerprint is a row that was read, under its own id. */
  lemma {:induction false} FingerprintIsARow(rows: seq<IssueRow>, id: int)
    requires id in IssueRows(rows)
    ensures IssueRows(rows)[id] in rows && IssueRows(rows)[id].id == id
  {
    var last := rows[|rows| - 1];
    if id != last.id {
      FingerprintIsARow(rows[..|rows| - 1], id);
    }
  }

  // ---------------------------------------------------------------------------------------
  // The freshness invariant
  // ---------------------------------------------------------------------------------------

  /** The next sweep that reads the row of tick t takes this pull request up again. */
  ghost predicate Due(w: World, cache: Cache, n: int, t: nat)
    requires n in w.at(t)
  {
    w.at(t)[n].stamp >= cache.startedAt - OVERLAP_SECONDS && FreshIssue(cache, w.at(t)[n].row)
  }

  /** Outside its watch, a cached node is what the remote shows at tick t, or is due. */
  ghost predicate CurrentOrDue(w: World, cache: Cache, n: int, t: nat) {
    n in cache.openNodes && n in w.at(t) &&
    (cache.openNodes[n].node.rest == w.at(t)[n].node.rest || Due(w, cache, n, t))
  }

  /** Holds of the cache written by a sweep that ran from tick `start` to tick `end`. */
  ghost predicate Fresh(w: World, cache: Cache, start: nat, end: nat) {
    && start <= end
    && cache.startedAt == w.clock(start)
    && (forall n, t: nat :: n in cache.openNodes && t >= end ==> CurrentOrDue(w, cache, n, t))
  }

  /** A recorded row with the id of this pull request is its row of tick d. */
  ghost predicate RecordedAt(w: World, after: Cache, n: int, d: nat) {
    forall t: nat :: n in w.at(t) && w.at(t)[n].row.id in after.issueRows ==> RowIs(w, after, n, t, d)
  }

  ghost predicate RowIs(w: World, after: Cache, n: int, t: nat, d: nat) {
    n in w.at(t) && n in w.at(d) && w.at(t)[n].row.id in after.issueRows &&
    after.issueRows[w.at(t)[n].row.id] == w.at(d)[n].row
  }

  /** A node whose rest was read at `seenAt`, not before the recorded row, is never silently stale. */
  lemma StaleIsDue(w: World, after: Cache, n: int, d: nat, seenAt: nat, start: nat, t: nat)
    requires WellBehaved(w)
    requires n in after.openNodes && after.startedAt == w.clock(start) && start <= seenAt <= t
    requires n in w.at(seenAt) && after.openNodes[n].node.rest == w.at(seenAt)[n].node.rest
    requires d <= seenAt && RecordedAt(w, after, n, d)
    ensures CurrentOrDue(w, after, n, t)
  {
    assert Evolves(w, n, seenAt, t);
    assert ClockAdvances(w, start, seenAt);
    if !FreshIssue(after, w.at(t)[n].row) {
      assert RowIs(w, after, n, t, d);
      assert Telling(w, n, d, seenAt, t);
      assert Telling(w, n, d, t, t);
    }
  }

  lemma DeltaRecords(w: World, t: Ticks, cache: Cache, seen: Reads, after: Cache, n: int)
    requires WellBehaved(w) && ReadsFrom(w, t, cache, seen)
    requires after.issueRows == IssueRows(seen.delta)
    ensures RecordedAt(w, after, n, t.delta(n))
  {
    forall u: nat | n in w.at(u) && w.at(u)[n].row.id in after.issueRows
      ensures RowIs(w, after, n, u, t.delta(n))
    {
      var row := after.issueRows[w.at(u)[n].row.id];
      FingerprintIsARow(seen.delta, w.at(u)[n].row.id);
      assert row in seen.delta && row.id == w.at(u)[n].row.id;
      assert NumberedAs(w, row, n, u);
      assert DeltaShows(w, t, cache, seen, n);
    }
  }

  lemma UnchangedIsCurrent(w: World, cache: Cache, start: nat, end: nat, t: Ticks, seen: Reads, n: int)
    requires WellBehaved(w) && Fresh(w, cache, start, end)
    requires ReadsFrom(w, t, cache, seen) && t.start >= end
    requires n in cache.openNodes && n !in Changed(cache, seen)
    ensures n in w.at(t.delta(n)) && cache.openNodes[n].node.rest == w.at(t.delta(n))[n].node.rest
  {
    assert Ordered(t, n);
    assert CurrentOrDue(w, cache, n, t.delta(n));
    assert DeltaShows(w, t, cache, seen, n);
    assert Named(w, n, t.delta(n));
    assert Due(w, cache, n, t.delta(n)) ==> n in ChangedByDelta(cache, seen);
  }

  /**
    A completed sweep keeps the invariant, however the remote moved while it read: whatever its
    cache misses will be in the next window under a row the fingerprints do not skip.
   */
  lemma SweepKeepsFresh(w: World, cache: Cache, start: nat, end: nat, t: Ticks, seen: Reads, sweep: Sweep, judge: Judge)
    requires WellBehaved(w) && Fresh(w, cache, start, end)
    requires ReadsFrom(w, t, cache, seen) && t.start >= end
    requires AllAnswer(cache, seen, Changed(cache, seen)) && IsSweep(cache, seen, Changed(cache, seen), sweep)
    ensures Fresh(w, PublishIncremental(w.clock(t.start), cache, seen, sweep, judge), t.start, t.end)
  {
    var after := PublishIncremental(w.clock(t.start), cache, seen, sweep, judge);
    forall n, u: nat | n in after.openNodes && u >= t.end
      ensures CurrentOrDue(w, after, n, u)
    {
      assert Ordered(t, n);
      if n in Changed(cache, seen) {
        assert DetailAnswers(cache, seen, n);
        assert DetailShows(w, t, seen, n);
        DeltaRecords(w, t, cache, seen, after, n);
        StaleIsDue(w, after, n, t.delta(n), t.detail(n), t.start, u);
      } else {
        UnchangedIsCurrent(w, cache, start, end, t, seen, n);
        DeltaRecords(w, t, cache, seen, after, n);
        StaleIsDue(w, after, n, t.delta(n), t.delta(n), t.start, u);
      }
    }
  }

  /** A bootstrap reads every open node at some tick of its own and records no row. */
  ghost predicate BootstrapReads(w: World, start: nat, end: nat, open: map<int, Node>, readAt: int -> nat) {
    forall n :: n in open ==> start <= readAt(n) <= end && n in w.at(readAt(n)) && open[n] == w.at(readAt(n))[n].node
  }

  lemma BootstrapIsFresh(w: World, start: nat, end: nat, open: map<int, Node>, readAt: int -> nat,
                         archive: map<int, Node>, terminal: map<int, Node>, judge: Judge)
    requires WellBehaved(w) && start <= end && BootstrapReads(w, start, end, open, readAt)
    ensures Fresh(w, PublishBootstrap(w.clock(start), archive, open, terminal, judge), start, end)
  {
    var after := PublishBootstrap(w.clock(start), archive, open, terminal, judge);
    forall n, u: nat | n in after.openNodes && u >= end
      ensures CurrentOrDue(w, after, n, u)
    {
      StaleIsDue(w, after, n, readAt(n), readAt(n), start, u);
    }
  }

  ghost predicate OpenAt(w: World, u: nat, n: int) {
    n in w.at(u) && w.at(u)[n].node.watch.state.Open?
  }

  /** The bootstrap found this pull request open or not, and its node, at a tick of its own. */
  ghost predicate RebuildShows(w: World, t: Ticks, open: map<int, Node>, n: int) {
    && t.start <= t.detail(n) <= t.end
    && (n in open <==> OpenAt(w, t.detail(n), n))
    && (n in open ==> open[n] == w.at(t.detail(n))[n].node)
  }

  ghost predicate RebuildReads(w: World, t: Ticks, open: map<int, Node>) {
    t.start <= t.end && forall n :: RebuildShows(w, t, open, n)
  }

  lemma RebuildIsFresh(w: World, t: Ticks, open: map<int, Node>, archive: map<int, Node>, terminal: map<int, Node>,
                       judge: Judge)
    requires WellBehaved(w) && RebuildReads(w, t, open)
    ensures Fresh(w, PublishBootstrap(w.clock(t.start), archive, open, terminal, judge), t.start, t.end)
  {
    forall n | n in open
      ensures t.start <= t.detail(n) <= t.end && n in w.at(t.detail(n)) && open[n] == w.at(t.detail(n))[n].node
    {
      assert RebuildShows(w, t, open, n);
    }
    BootstrapIsFresh(w, t.start, t.end, open, t.detail, archive, terminal, judge);
  }

  /** Only numbers that are pull requests reach the detail read, whatever issues were commented on. */
  lemma OnlyPullRequestsAreRead(w: World, cache: Cache, end: nat, t: Ticks, seen: Reads, n: int)
    requires WellBehaved(w) && ReadsFrom(w, t, cache, seen) && t.start >= end
    requires forall m :: m in Tracked(cache) ==> m in w.at(end)
    requires n in Changed(cache, seen)
    ensures n in w.at(t.detail(n))
  {
    assert Ordered(t, n);
    assert n in Confirmed(cache, seen);
    if n in Tracked(cache) {
      assert Evolves(w, n, end, t.detail(n));
    } else if n in seen.census {
      assert CensusShows(w, t, seen, n);
      assert Evolves(w, n, t.census(n), t.detail(n));
    } else {
      assert n in ChangedByDelta(cache, seen);
      assert DeltaShows(w, t, cache, seen, n);
      assert Evolves(w, n, t.delta(n), t.detail(n));
    }
  }

  // ---------------------------------------------------------------------------------------
  // A sweep over a remote that stands still
  // ---------------------------------------------------------------------------------------

  function OpenOn(remote: map<int, Live>): map<int, Node> {
    map n | n in remote && remote[n].node.watch.state.Open? :: remote[n].node
  }

  ghost predicate StandsStill(w: World, t: Ticks) {
    forall u: nat :: t.start <= u <= t.end ==> w.at(u) == w.at(t.start)
  }

  /**
    Same open pull requests, watches and nodes; and each shows the comments it shows in `b`, with
    the edits retained in `a` put over them.
   */
  ghost predicate SameView(a: Cache, b: Cache) {
    && (forall n :: n in a.openNodes <==> n in b.openNodes)
    && (forall n :: n in a.openNodes ==> SameEntry(a.openNodes[n], b.openNodes[n]))
    && (forall n :: n in a.watches <==> n in b.watches)
    && (forall n :: n in a.watches ==> a.watches[n] == b.watches[n])
  }

  ghost predicate SameEntry(a: Entry, b: Entry) {
    a.node == b.node && a.shown == PutOver(b.shown, a.edits)
  }

  lemma QuietSweepShows(w: World, cache: Cache, start: nat, end: nat, t: Ticks, seen: Reads, sweep: Sweep, n: int)
    requires WellBehaved(w) && Valid(cache) && Fresh(w, cache, start, end)
    requires ReadsFrom(w, t, cache, seen) && t.start >= end && StandsStill(w, t)
    requires AllAnswer(cache, seen, Changed(cache, seen)) && IsSweep(cache, seen, Changed(cache, seen), sweep)
    ensures n in sweep.nodes <==> n in OpenOn(w.at(t.start))
    ensures n in sweep.watches <==> n in OpenOn(w.at(t.start))
    ensures n in sweep.nodes ==>
              && sweep.nodes[n].node == w.at(t.start)[n].node
              && sweep.watches[n] == w.at(t.start)[n].node.watch
  {
    assert Ordered(t, n);
    if n in Changed(cache, seen) {
      assert DetailAnswers(cache, seen, n);
      assert DetailShows(w, t, seen, n);
    } else {
      QuietCacheShows(w, cache, start, end, t, seen, n);
    }
  }

  /** What a quiet sweep does not read again, the cache already shows. */
  lemma QuietCacheShows(w: World, cache: Cache, start: nat, end: nat, t: Ticks, seen: Reads, n: int)
    requires WellBehaved(w) && Valid(cache) && Fresh(w, cache, start, end)
    requires ReadsFrom(w, t, cache, seen) && t.start >= end && StandsStill(w, t)
    requires n !in Changed(cache, seen)
    ensures n in cache.openNodes <==> n in OpenOn(w.at(t.start))
    ensures n in seen.census <==> n in OpenOn(w.at(t.start))
    ensures n in cache.openNodes ==>
              cache.openNodes[n].node == w.at(t.start)[n].node && seen.census[n] == w.at(t.start)[n].node.watch
  {
    assert Ordered(t, n);
    ChangedCoversCensus(cache, seen);
    assert CensusShows(w, t, seen, n);
    if n in cache.openNodes {
      UnchangedIsCurrent(w, cache, start, end, t, seen, n);
      assert Named(w, n, t.start);
      assert cache.watches[n] == cache.openNodes[n].node.watch;
    }
  }

  /**
    An incremental sweep over a remote that stands still while it reads yields what a bootstrap
    of that remote yields, from any fresh cache, rows skipped by fingerprint included.
   */
  lemma QuietSweepIsBootstrap(w: World, cache: Cache, start: nat, end: nat, t: Ticks, seen: Reads, sweep: Sweep,
                              judge: Judge, archive: map<int, Node>, terminal: map<int, Node>)
    requires WellBehaved(w) && Valid(cache) && Fresh(w, cache, start, end)
    requires ReadsFrom(w, t, cache, seen) && t.start >= end && StandsStill(w, t)
    requires AllAnswer(cache, seen, Changed(cache, seen)) && IsSweep(cache, seen, Changed(cache, seen), sweep)
    ensures SameView(PublishIncremental(w.clock(t.start), cache, seen, sweep, judge),
                     PublishBootstrap(w.clock(t.start), archive, OpenOn(w.at(t.start)), terminal, judge))
  {
    var open := OpenOn(w.at(t.start));
    forall n
      ensures n in sweep.nodes <==> n in open
      ensures n in sweep.watches <==> n in open
      ensures n in sweep.nodes ==> sweep.nodes[n].node == open[n] && sweep.watches[n] == open[n].watch
    {
      QuietSweepShows(w, cache, start, end, t, seen, sweep, n);
    }
    IncrementalKeepsValid(w.clock(t.start), cache, seen, sweep, judge);
    SweepShowsOpen(sweep, open, w.clock(t.start), cache.archive, archive, terminal, judge,
                   IssueRows(seen.delta), CommentRows(seen.commentDelta));
  }

  lemma SweepShowsOpen(sweep: Sweep, open: map<int, Node>, startedAt: int, kept: map<int, Node>,
                       archive: map<int, Node>, terminal: map<int, Node>, judge: Judge,
                       issueRows: map<int, IssueRow>, commentRows: map<int, CommentRow>)
    requires forall n :: n in sweep.nodes <==> n in open
    requires forall n :: n in sweep.watches <==> n in open
    requires forall n :: n in sweep.nodes ==> sweep.nodes[n].node == open[n] && sweep.watches[n] == open[n].watch
    requires forall n :: n in sweep.nodes ==> ShowsMerged(sweep.nodes[n])
    ensures SameView(Checkpoint(startedAt, kept, sweep, judge, issueRows, commentRows),
                     PublishBootstrap(startedAt, archive, open, terminal, judge))
  {
  }

  lemma QuietRebuildIsBootstrap(w: World, t: Ticks, open: map<int, Node>, judge: Judge,
                                archive: map<int, Node>, terminal: map<int, Node>,
                                archive': map<int, Node>, terminal': map<int, Node>)
    requires RebuildReads(w, t, open) && StandsStill(w, t)
    ensures SameView(PublishBootstrap(w.clock(t.start), archive, open, terminal, judge),
                     PublishBootstrap(w.clock(t.start), archive', OpenOn(w.at(t.start)), terminal', judge))
  {
    forall n
      ensures n in open <==> n in OpenOn(w.at(t.start))
      ensures n in open ==> open[n] == OpenOn(w.at(t.start))[n]
    {
      assert RebuildShows(w, t, open, n);
    }
    assert open == OpenOn(w.at(t.start));
    forall n | n in open
      ensures SameEntry(AsRead(open[n]), AsRead(open[n]))
    {
      AsReadShowsMerged(open[n]);
    }
  }

  // ---------------------------------------------------------------------------------------
  // Runs
  // ---------------------------------------------------------------------------------------

  /** A completed attempt did what the code does with whatever it read; a failed one wrote nothing. */
  ghost predicate Executed(cache: Cache, a: Attempt) {
    match a
    case Failed => true
    case Completed(_, _, seen, sweep) =>
      AllAnswer(cache, seen, Changed(cache, seen)) && IsSweep(cache, seen, Changed(cache, seen), sweep)
    case Rebuilt(_, _, archive, open, terminal) => FiledByState(archive, open, terminal)
  }

  function After(cache: Cache, a: Attempt, judge: Judge): Cache {
    match a
    case Failed => cache
    case Completed(startedAt, _, seen, sweep) => PublishIncremental(startedAt, cache, seen, sweep, judge)
    case Rebuilt(startedAt, _, archive, open, terminal) => PublishBootstrap(startedAt, archive, open, terminal, judge)
  }

  ghost predicate IsRun(cache: Cache, run: seq<Attempt>, judge: Judge)
    decreases |run|
  {
    run == [] || (Executed(cache, run[0]) && IsRun(After(cache, run[0], judge), run[1..], judge))
  }

  function CacheAfter(cache: Cache, run: seq<Attempt>, judge: Judge): Cache
    decreases |run|
  {
    if run == [] then cache else CacheAfter(After(cache, run[0], judge), run[1..], judge)
  }

  /** A bootstrap that neither read this pull request nor found it archived. */
  predicate Misses(a: Attempt, n: int) {
    a.Rebuilt? && n !in a.archive && n !in a.open && n !in a.terminal
  }

  lemma AttemptKeepsValid(cache: Cache, a: Attempt, judge: Judge)
    requires Valid(cache) && Executed(cache, a)
    ensures Valid(After(cache, a, judge))
    ensures forall n :: n in Tracked(cache) ==> n in Tracked(After(cache, a, judge)) || Misses(a, n)
  {
    match a
    case Failed =>
    case Completed(startedAt, _, seen, sweep) => IncrementalKeepsValid(startedAt, cache, seen, sweep, judge);
    case Rebuilt(startedAt, _, archive, open, terminal) => BootstrapIsValid(startedAt, archive, open, terminal, judge);
  }

  /**
    Over any run of sweeps, failed ones and bootstraps among them and whatever they read: the
    cache stays valid (so every tracked pull request is in exactly one of the open nodes and the
    archive), and only a bootstrap that misses a pull request ever drops it.
   */
  lemma {:induction false} RunKeepsTracking(cache: Cache, run: seq<Attempt>, judge: Judge)
    requires Valid(cache) && IsRun(cache, run, judge)
    ensures Valid(CacheAfter(cache, run, judge))
    ensures forall n :: n in Tracked(cache) ==>
              n in Tracked(CacheAfter(cache, run, judge)) || exists k :: 0 <= k < |run| && Misses(run[k], n)
    ensures (forall k :: 0 <= k < |run| ==> !run[k].Rebuilt?) ==>
              Tracked(cache) <= Tracked(CacheAfter(cache, run, judge))
    decreases |run|
  {
    if run != [] {
      var after := After(cache, run[0], judge);
      AttemptKeepsValid(cache, run[0], judge);
      RunKeepsTracking(after, run[1..], judge);
      forall n | n in Tracked(cache)
        ensures n in Tracked(CacheAfter(cache, run, judge)) || exists k :: 0 <= k < |run| && Misses(run[k], n)
      {
        assert Misses(run[0], n) || n in Tracked(after);
        if k :| 0 <= k < |run[1..]| && Misses(run[1..][k], n) {
          assert Misses(run[k + 1], n);
        }
      }
    }
  }

  /** Over any run, each open pull request shows the newest of its live comments and retained edits. */
  lemma RunShowsNewest(cache: Cache, run: seq<Attempt>, judge: Judge, n: int, id: string)
    requires Valid(cache) && IsRun(cache, run, judge)
    ensures n in CacheAfter(cache, run, judge).openNodes ==> ShowsNewest(CacheAfter(cache, run, judge).openNodes[n], id)
  {
    RunKeepsTracking(cache, run, judge);
    if n in CacheAfter(cache, run, judge).openNodes {
      MergedShowsNewest(CacheAfter(cache, run, judge).openNodes[n], id);
    }
  }

  lemma {:induction false} RunsInTwo(cache: Cache, a: seq<Attempt>, b: seq<Attempt>, judge: Judge)
    ensures CacheAfter(cache, a + b, judge) == CacheAfter(CacheAfter(cache, a, judge), b, judge)
    ensures IsRun(cache, a + b, judge) <==> IsRun(cache, a, judge) && IsRun(CacheAfter(cache, a, judge), b, judge)
    decreases |a|
  {
    if a == [] {
      assert a + b == b;
    } else {
      assert (a + b)[0] == a[0] && (a + b)[1..] == a[1..] + b;
      RunsInTwo(After(cache, a[0], judge), a[1..], b, judge);
    }
  }

  lemma OneAttempt(cache: Cache, a: Attempt, judge: Judge)
    ensures CacheAfter(cache, [a], judge) == After(cache, a, judge)
    ensures IsRun(cache, [a], judge) <==> Executed(cache, a)
  {
    assert [a][1..] == [];
  }

  /** Sweep k of the run read this row as a new one, and applied it if it left its pull request open. */
  ghost predicate AppliedAt(cache: Cache, run: seq<Attempt>, judge: Judge, k: nat, row: CommentRow)
    requires k < |run|
  {
    var before, after := CacheAfter(cache, run[..k], judge), CacheAfter(cache, run[..k + 1], judge);
    && run[k].Completed? && row in run[k].seen.commentDelta && FreshComment(before, row)
    && (row.issue.Some? && row.issue.value in after.openNodes ==>
          Applied(before, run[k].seen, after.openNodes[row.issue.value], row.issue.value, row.comment.id))
  }

  /**
    Over any run, no comment row is fingerprinted, and so skipped from then on, before a sweep
    that read it as new applied it to its pull request, if that was open after the sweep.
   */
  lemma {:induction false} FingerprintedWasApplied(cache: Cache, run: seq<Attempt>, judge: Judge, id: int)
    requires IsRun(cache, run, judge)
    ensures
      var rows := CacheAfter(cache, run, judge).commentRows;
      id in rows ==>
        || (id in cache.commentRows && cache.commentRows[id] == rows[id])
        || exists k :: 0 <= k < |run| && AppliedAt(cache, run, judge, k, rows[id])
  {
    if run != [] {
      var front, a := run[..|run| - 1], run[|run| - 1];
      var before, after := CacheAfter(cache, front, judge), CacheAfter(cache, run, judge);
      assert run == front + [a];
      RunsInTwo(cache, front, [a], judge);
      OneAttempt(before, a, judge);
      FingerprintedWasApplied(cache, front, judge, id);
      if id in after.commentRows {
        var row := after.commentRows[id];
        if id in before.commentRows && before.commentRows[id] == row {
          if k :| 0 <= k < |front| && AppliedAt(cache, front, judge, k, row) {
            assert run[..k] == front[..k] && run[..k + 1] == front[..k + 1];
            assert AppliedAt(cache, run, judge, k, row);
          }
        } else {
          CommentRowsExactly(a.seen.commentDelta, id);
          if row.issue.Some? {
            FreshCommentIsApplied(a.startedAt, before, a.seen, a.sweep, judge, row, row.issue.value);
          }
          assert run[..|front|] == front && run[..|front| + 1] == run;
          assert AppliedAt(cache, run, judge, |front|, row);
        }
      }
    }
  }

  /** A completed attempt read from the world, after tick `end`. */
  ghost predicate ReadsWorld(w: World, cache: Cache, end: nat, a: Attempt) {
    match a
    case Failed => true
    case Completed(startedAt, t, seen, _) =>
      ReadsFrom(w, t, cache, seen) && t.start >= end && startedAt == w.clock(t.start)
    case Rebuilt(startedAt, t, _, open, _) =>
      RebuildReads(w, t, open) && t.start >= end && startedAt == w.clock(t.start)
  }

  /** The completed attempts of a run read from the world, one after the other. */
  ghost predicate Witnessed(w: World, cache: Cache, end: nat, run: seq<Attempt>, judge: Judge)
    decreases |run|
  {
    run == [] ||
    var a := run[0];
    && Executed(cache, a) && ReadsWorld(w, cache, end, a)
    && Witnessed(w, After(cache, a, judge), if a.Failed? then end else a.ticks.end, run[1..], judge)
  }

  lemma AttemptKeepsFresh(w: World, cache: Cache, start: nat, end: nat, a: Attempt, judge: Judge)
    requires WellBehaved(w) && Valid(cache) && Fresh(w, cache, start, end)
    requires Executed(cache, a) && ReadsWorld(w, cache, end, a) && !a.Failed?
    ensures Valid(After(cache, a, judge)) && Fresh(w, After(cache, a, judge), a.ticks.start, a.ticks.end)
  {
    AttemptKeepsValid(cache, a, judge);
    match a
    case Completed(_, t, seen, sweep) => SweepKeepsFresh(w, cache, start, end, t, seen, sweep, judge);
    case Rebuilt(_, t, archive, open, terminal) => RebuildIsFresh(w, t, open, archive, terminal, judge);
  }

  /**
    Over any run in a world that never stops moving, the first sweep that meets a remote
    standing still leaves the cache that a bootstrap of that remote would leave.
   */
  lemma {:induction false} RunCatchesUp(w: World, cache: Cache, start: nat, end: nat, run: seq<Attempt>, last: Attempt,
                                        judge: Judge, archive: map<int, Node>, terminal: map<int, Node>)
    requires WellBehaved(w) && Valid(cache) && Fresh(w, cache, start, end)
    requires Witnessed(w, cache, end, run + [last], judge)
    requires !last.Failed? && StandsStill(w, last.ticks)
    ensures SameView(CacheAfter(cache, run + [last], judge),
                     PublishBootstrap(w.clock(last.ticks.start), archive, OpenOn(w.at(last.ticks.start)),
                                      terminal, judge))
    decreases |run|
  {
    hide WellBehaved, Valid, Fresh, StandsStill, SameView, ReadsFrom, RebuildReads;
    var a := (run + [last])[0];
    if run == [] {
      assert (run + [last])[1..] == [];
      match last
      case Completed(_, t, seen, sweep) =>
        QuietSweepIsBootstrap(w, cache, start, end, t, seen, sweep, judge, archive, terminal);
      case Rebuilt(_, t, archive', open, terminal') =>
        QuietRebuildIsBootstrap(w, t, open, judge, archive', terminal', archive, terminal);
    } else {
      assert (run + [last])[1..] == run[1..] + [last];
      if a.Failed? {
        RunCatchesUp(w, cache, start, end, run[1..], last, judge, archive, terminal);
      } else {
        AttemptKeepsFresh(w, cache, start, end, a, judge);
        RunCatchesUp(w, After(cache, a, judge), a.ticks.start, a.ticks.end, run[1..], last, judge, archive, terminal);
      }
    }
  }

  // ---------------------------------------------------------------------------------------
  // The window under failing sweeps
  // ---------------------------------------------------------------------------------------

  /** The window starts from the last completed sweep; failed ones after it leave the cache alone. */
  lemma {:induction false} CheckpointIsLastCompleted(cache: Cache, run: seq<Attempt>, k: nat, judge: Judge)
    requires k < |run| && !run[k].Failed? && forall i :: k < i < |run| ==> run[i].Failed?
    ensures CacheAfter(cache, run, judge) == CacheAfter(cache, run[..k + 1], judge)
    ensures CacheAfter(cache, run, judge).startedAt == run[k].startedAt
    decreases |run|
  {
    assert run[..k + 1][1..] == run[1..][..k];
    if k > 0 {
      CheckpointIsLastCompleted(After(cache, run[0], judge), run[1..], k - 1, judge);
    } else {
      FailuresChangeNothing(After(cache, run[0], judge), run[1..], judge);
      assert run[1..][..0] == [];
    }
  }

  lemma {:induction false} FailuresChangeNothing(cache: Cache, run: seq<Attempt>, judge: Judge)
    requires forall i :: 0 <= i < |run| ==> run[i].Failed?
    ensures CacheAfter(cache, run, judge) == cache
    decreases |run|
  {
    if run != [] {
      FailuresChangeNothing(cache, run[1..], judge);
    }
  }

  /** When a completed attempt looked whether this pull request had changed. */
  function LooksAt(a: Attempt, n: int): nat
    requires !a.Failed?
  {
    if a.Completed? then a.ticks.delta(n) else a.ticks.detail(n)
  }

  /** Every completed attempt of the run looked at this pull request before tick v. */
  ghost predicate LookedBefore(run: seq<Attempt>, n: int, v: nat) {
    forall i :: 0 <= i < |run| && !run[i].Failed? ==> LooksAt(run[i], n) < v
  }

  /**
    A change visible from tick v, its row stamped at most sixty seconds earlier, is in the delta
    of the first completed sweep that can see it, however many sweeps failed in between.
   */
  lemma {:induction false} NoUpdateIsLost(w: World, cache: Cache, start: nat, end: nat, run: seq<Attempt>,
                                          last: Attempt, judge: Judge, n: int, v: nat)
    requires WellBehaved(w) && cache.startedAt == w.clock(start) && start <= v
    requires Witnessed(w, cache, end, run + [last], judge) && LookedBefore(run, n, v)
    requires last.Completed? && last.ticks.delta(n) >= v
    requires n in w.at(last.ticks.delta(n))
    requires w.at(last.ticks.delta(n))[n].stamp >= w.clock(v) - OVERLAP_SECONDS
    ensures w.at(last.ticks.delta(n))[n].row in last.seen.delta
    decreases |run|
  {
    var a := (run + [last])[0];
    assert ClockAdvances(w, start, v);
    if run == [] {
      assert DeltaShows(w, last.ticks, cache, last.seen, n);
    } else {
      assert (run + [last])[1..] == run[1..] + [last];
      if a.Failed? {
        NoUpdateIsLost(w, cache, start, end, run[1..], last, judge, n, v);
      } else {
        LookIsAfterStart(w, cache, end, a, n);
        NoUpdateIsLost(w, After(cache, a, judge), a.ticks.start, a.ticks.end, run[1..], last, judge, n, v);
      }
    }
  }

  lemma LookIsAfterStart(w: World, cache: Cache, end: nat, a: Attempt, n: int)
    requires !a.Failed? && ReadsWorld(w, cache, end, a)
    ensures a.ticks.start <= LooksAt(a, n)
  {
    match a
    case Completed(_, t, _, _) => assert Ordered(t, n);
    case Rebuilt(_, t, _, open, _) => assert RebuildShows(w, t, open, n);
  }

  // ---------------------------------------------------------------------------------------
  // Every sweep is current
  // ---------------------------------------------------------------------------------------

  ghost predicate During(t: Ticks, u: nat) {
    t.start <= u <= t.end
  }

  /** Whether it is open, its watch and its rest are each what the remote showed during the sweep. */
  ghost predicate CurrentDuring(w: World, t: Ticks, cache: Cache, n: int) {
    if n in cache.openNodes then
      && n in cache.watches
      && (exists u: nat :: During(t, u) && OpenAt(w, u, n) && cache.watches[n] == w.at(u)[n].node.watch)
      && (exists u: nat :: During(t, u) && n in w.at(u) && cache.openNodes[n].node.rest == w.at(u)[n].node.rest)
    else
      exists u: nat :: During(t, u) && !OpenAt(w, u, n)
  }

  lemma SweepIsCurrent(w: World, cache: Cache, start: nat, end: nat, t: Ticks, seen: Reads, sweep: Sweep,
                       judge: Judge, n: int)
    requires WellBehaved(w) && Valid(cache) && Fresh(w, cache, start, end)
    requires ReadsFrom(w, t, cache, seen) && t.start >= end
    requires AllAnswer(cache, seen, Changed(cache, seen)) && IsSweep(cache, seen, Changed(cache, seen), sweep)
    ensures CurrentDuring(w, t, PublishIncremental(w.clock(t.start), cache, seen, sweep, judge), n)
  {
    assert Ordered(t, n);
    if n in Changed(cache, seen) {
      assert DetailAnswers(cache, seen, n);
      assert DetailShows(w, t, seen, n);
      assert During(t, t.detail(n));
    } else {
      ChangedCoversCensus(cache, seen);
      assert CensusShows(w, t, seen, n);
      assert During(t, t.census(n)) && During(t, t.delta(n));
      if n in cache.openNodes {
        UnchangedIsCurrent(w, cache, start, end, t, seen, n);
      }
    }
  }

  lemma RebuildIsCurrent(w: World, t: Ticks, open: map<int, Node>, archive: map<int, Node>, terminal: map<int, Node>,
                         judge: Judge, n: int)
    requires RebuildReads(w, t, open)
    ensures CurrentDuring(w, t, PublishBootstrap(w.clock(t.start), archive, open, terminal, judge), n)
  {
    assert RebuildShows(w, t, open, n);
    assert During(t, t.detail(n));
  }

  /**
    Over any run in a world that never stops moving, the cache of every completed sweep is no
    older than that sweep: whether each pull request is open, its watch and all the rest of it
    are each what the remote showed at some moment of the sweep.
   */
  lemma {:induction false} EverySweepIsCurrent(w: World, cache: Cache, start: nat, end: nat, run: seq<Attempt>,
                                               last: Attempt, judge: Judge, n: int)
    requires WellBehaved(w) && Valid(cache) && Fresh(w, cache, start, end)
    requires Witnessed(w, cache, end, run + [last], judge) && !last.Failed?
    ensures CurrentDuring(w, last.ticks, CacheAfter(cache, run + [last], judge), n)
    decreases |run|
  {
    hide CurrentDuring, WellBehaved, Valid, Fresh, ReadsFrom, RebuildReads;
    var a := (run + [last])[0];
    if run == [] {
      assert (run + [last])[1..] == [];
      match last
      case Completed(_, t, seen, sweep) => SweepIsCurrent(w, cache, start, end, t, seen, sweep, judge, n);
      case Rebuilt(_, t, archive, open, terminal) => RebuildIsCurrent(w, t, open, archive, terminal, judge, n);
    } else {
      assert (run + [last])[1..] == run[1..] + [last];
      if a.Failed? {
        EverySweepIsCurrent(w, cache, start, end, run[1..], last, judge, n);
      } else {
        AttemptKeepsFresh(w, cache, start, end, a, judge);
        EverySweepIsCurrent(w, After(cache, a, judge), a.ticks.start, a.ticks.end, run[1..], last, judge, n);
      }
    }
  }
}
