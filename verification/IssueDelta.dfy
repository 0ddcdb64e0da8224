/**
  The REST "updated since" reader of the PR-review sweep.

  The remote is the sequence of replies that the requests meet: request number t sees the
  listing that exists at that moment, cut into numbered pages.  Rows may vanish between two requests,
  which shifts every later row towards the front, so a numbered page can skip a row.
 */
module IssueDelta {

  const PAGE_SIZE: nat := 100
  const MAX_REQUESTS: nat := 20

  datatype Row = Row(id: int, payload: string)

  /** What one request meets: an error or an unusable body, or the listing of that moment. */
  datatype Reply = Failed | Serves(listing: seq<Row>)

  /** The rows of the last pass in reading order, or why the reader raised. */
  datatype Outcome = Returned(read: seq<Row>) | OverBudget | RequestFailed

  datatype Membership = Unknown | Known(ids: set<int>)

  /** The replies that the requests of the budget would meet, in order. */
  type Remote = replies: seq<Reply> | |replies| == MAX_REQUESTS witness seq(MAX_REQUESTS, _ => Failed)

  function Min(a: int, b: int): int {
    if a < b then a else b
  }

  /** Rows on the first `pages` pages. */
  function Offset(pages: nat): nat {
    PAGE_SIZE * pages
  }

  /** Page `page` (counted from 1) of a listing; empty beyond the end. */
  function Page(listing: seq<Row>, page: nat): (rows: seq<Row>)
    requires page >= 1
  {
    listing[Min(Offset(page - 1), |listing|)..Min(Offset(page), |listing|)]
  }

  function Ids(rows: seq<Row>): (ids: seq<int>)
    ensures |ids| == |rows|
  {
    seq(|rows|, i requires 0 <= i < |rows| => rows[i].id)
  }

  function IdSet(rows: seq<Row>): set<int> {
    set row | row in rows :: row.id
  }

  ghost predicate Distinct(ids: seq<int>) {
    forall i, j :: 0 <= i < j < |ids| ==> ids[i] != ids[j]
  }

  /** `later` is what is left of `earlier` after some entries vanished. */
  ghost predicate LeftOver(later: seq<int>, earlier: seq<int>) {
    if later == [] then true
    else if earlier == [] then false
    else if later[0] == earlier[0] then LeftOver(later[1..], earlier[1..])
    else LeftOver(later, earlier[1..])
  }

  /** Between requests t and u rows at most vanished. */
  ghost predicate Shrinks(remote: Remote, t: nat, u: nat)
    requires t <= u < MAX_REQUESTS
  {
    remote[t].Serves? && remote[u].Serves? ==>
      && Distinct(Ids(remote[t].listing))
      && LeftOver(Ids(remote[u].listing), Ids(remote[t].listing))
  }

  /** Row identities only disappear while the reader works; payloads may change freely. */
  ghost predicate OnlyDisappears(remote: Remote) {
    forall t, u :: 0 <= t <= u < MAX_REQUESTS ==> Shrinks(remote, t, u)
  }

  /** Every request meets the same listing. */
  ghost predicate Static(remote: Remote) {
    remote[0].Serves? && forall t :: 0 <= t < MAX_REQUESTS ==> remote[t] == remote[0]
  }

  // ---------------------------------------------------------------------------------------
  // The reader
  // ---------------------------------------------------------------------------------------

  /** What a page leads to: the end of the read, or the page to ask for next. */
  datatype Turn = Finish(read: seq<Row>) | Ask(page: nat, collected: seq<Row>, previous: Membership)

  /** A short page ends the read when it is the first, or when the pass repeats the previous one. */
  function TakePage(listing: seq<Row>, page: nat, collected: seq<Row>, previous: Membership): (turn: Turn)
    requires page >= 1
    ensures turn.Ask? ==> turn.page >= 1
  {
    var result := Page(listing, page);
    if |result| >= PAGE_SIZE then Ask(page + 1, collected + result, previous)
    else if page == 1 || previous == Known(IdSet(collected + result)) then Finish(collected + result)
    else Ask(1, [], Known(IdSet(collected + result)))
  }

  /** What the read gives from the state before request `now`, and how many requests it makes. */
  function Reading(remote: Remote, now: nat, page: nat, collected: seq<Row>, previous: Membership): (Outcome, nat)
    requires page >= 1 && now <= MAX_REQUESTS
    decreases MAX_REQUESTS - now
  {
    if now >= MAX_REQUESTS then (OverBudget, now)
    else if remote[now].Failed? then (RequestFailed, now + 1)
    else
      match TakePage(remote[now].listing, page, collected, previous)
      case Finish(read) => (Returned(read), now + 1)
      case Ask(page', collected', previous') => Reading(remote, now + 1, page', collected', previous')
  }

  function ReadDelta(remote: Remote): (Outcome, nat) {
    Reading(remote, 0, 1, [], Unknown)
  }

  /** The dictionary holds, for every id read, the row read last under it. */
  ghost predicate Indexes(rows: map<int, Row>, read: seq<Row>) {
    && (forall id :: id in rows <==> id in IdSet(read))
    && (forall i :: 0 <= i < |read| && IsLast(read, i) ==> rows[read[i].id] == read[i])
  }

  ghost predicate IsLast(read: seq<Row>, i: nat)
    requires i < |read|
  {
    forall j :: i < j < |read| ==> read[j].id != read[i].id
  }

  lemma IndexOneMore(rows: map<int, Row>, read: seq<Row>, row: Row)
    requires Indexes(rows, read)
    ensures Indexes(rows[row.id := row], read + [row])
  {
    var more, rows' := read + [row], rows[row.id := row];
    IdSetConcat(read, [row]);
    forall i | 0 <= i < |more| && IsLast(more, i)
      ensures rows'[more[i].id] == more[i]
    {
      if i < |read| {
        assert more[|read|].id != more[i].id;
        assert forall j :: i < j < |read| ==> more[j] == read[j];
        assert IsLast(read, i);
      }
    }
  }

  lemma EmptyIndex()
    ensures Indexes(map[], [])
  {
  }

  lemma KeysOfIndex(rows: map<int, Row>, read: seq<Row>)
    requires Indexes(rows, read)
    ensures rows.Keys == IdSet(read)
  {
    assert forall id :: id in rows.Keys <==> id in IdSet(read);
  }

  lemma OneMoreOfPage(read: seq<Row>, page: seq<Row>, i: nat)
    requires i < |page|
    ensures read + page[..i] + [page[i]] == read + page[..i + 1]
  {
  }

  method AddPage(rows: map<int, Row>, page: seq<Row>, ghost read: seq<Row>) returns (rows': map<int, Row>)
    requires Indexes(rows, read)
    ensures Indexes(rows', read + page)
  {
    rows' := rows;
    assert read + page[..0] == read;
    for i := 0 to |page|
      invariant Indexes(rows', read + page[..i])
    {
      IndexOneMore(rows', read + page[..i], page[i]);
      OneMoreOfPage(read, page, i);
      rows' := rows'[page[i].id := page[i]];
    }
    assert page[..|page|] == page;
  }

  /** Reads pages until a pass fits one page or repeats the previous pass's membership. */
  method FetchIssueDelta(remote: Remote) returns (rows: map<int, Row>, outcome: Outcome, requests: nat)
    ensures (outcome, requests) == ReadDelta(remote)
    ensures outcome.Returned? ==> Indexes(rows, outcome.read)
  {
    hide Indexes, IdSet;
    EmptyIndex();
    var previous := Unknown;
    var collected: seq<Row> := [];
    var page := 1;
    rows, requests := map[], 0;
    while true
      invariant page >= 1 && requests <= MAX_REQUESTS
      invariant Indexes(rows, collected)
      invariant Reading(remote, requests, page, collected, previous) == ReadDelta(remote)
      decreases MAX_REQUESTS - requests
    {
      if requests >= MAX_REQUESTS {
        return rows, OverBudget, requests;
      }
      var reply := remote[requests];
      requests := requests + 1;
      if reply.Failed? {
        return rows, RequestFailed, requests;
      }
      var result := Page(reply.listing, page);
      rows := AddPage(rows, result, collected);
      collected := collected + result;
      KeysOfIndex(rows, collected);
      if |result| < PAGE_SIZE {
        if page == 1 || previous == Known(rows.Keys) {
          return rows, Returned(collected), requests;
        }
        previous := Known(rows.Keys);
        rows, collected := map[], [];
        page := 1;
      } else {
        page := page + 1;
      }
    }
  }

  ghost function Alive(remote: Remote, t: nat): set<int>
    requires t < MAX_REQUESTS && remote[t].Serves?
  {
    IdSet(remote[t].listing)
  }

  // ---------------------------------------------------------------------------------------
  // Facts about listings that lose rows
  // ---------------------------------------------------------------------------------------

  lemma {:induction false} LeftOverIsSubset(later: seq<int>, earlier: seq<int>, x: int)
    requires LeftOver(later, earlier)
    requires x in later
    ensures x in earlier
  {
    if later[0] == earlier[0] {
      if x != later[0] {
        LeftOverIsSubset(later[1..], earlier[1..], x);
      }
    } else {
      LeftOverIsSubset(later, earlier[1..], x);
    }
  }

  /** If nothing of a prefix vanished, it is still the prefix. */
  lemma {:induction false} PrefixSurvives(earlier: seq<int>, later: seq<int>, m: nat)
    requires Distinct(earlier) && LeftOver(later, earlier)
    requires m <= |earlier|
    requires forall i :: 0 <= i < m ==> earlier[i] in later
    ensures m <= |later| && later[..m] == earlier[..m]
    decreases m
  {
    if m > 0 {
      assert earlier[0] in later;
      if later[0] != earlier[0] {
        LeftOverIsSubset(later, earlier[1..], earlier[0]);
        assert false;
      }
      forall i | 0 <= i < m - 1
        ensures earlier[1..][i] in later[1..]
      {
        assert earlier[i + 1] in later;
      }
      PrefixSurvives(earlier[1..], later[1..], m - 1);
      assert later == [later[0]] + later[1..] && earlier == [earlier[0]] + earlier[1..];
    }
  }

  lemma IdSetIsIds(rows: seq<Row>, x: int)
    ensures x in IdSet(rows) <==> x in Ids(rows)
  {
    if x in IdSet(rows) {
      var i :| 0 <= i < |rows| && rows[i].id == x;
      assert Ids(rows)[i] == x;
    }
    if x in Ids(rows) {
      var i :| 0 <= i < |Ids(rows)| && Ids(rows)[i] == x;
      assert rows[i] in rows;
    }
  }

  lemma AliveShrinks(remote: Remote, t: nat, u: nat)
    requires OnlyDisappears(remote)
    requires t <= u < MAX_REQUESTS && remote[t].Serves? && remote[u].Serves?
    ensures Alive(remote, u) <= Alive(remote, t)
  {
    assert Shrinks(remote, t, u);
    forall x | x in Alive(remote, u)
      ensures x in Alive(remote, t)
    {
      IdSetIsIds(remote[u].listing, x);
      LeftOverIsSubset(Ids(remote[u].listing), Ids(remote[t].listing), x);
      IdSetIsIds(remote[t].listing, x);
    }
  }

  lemma IdSetConcat(a: seq<Row>, b: seq<Row>)
    ensures IdSet(a + b) == IdSet(a) + IdSet(b)
  {
  }

  // ---------------------------------------------------------------------------------------
  // One pass over the pages
  // ---------------------------------------------------------------------------------------

  /** Every collected row still present means: the pass holds exactly the first `m` rows. */
  ghost predicate PrefixUnlessLost(listing: seq<Row>, keys: set<int>, m: nat) {
    keys <= IdSet(listing) ==> m <= |listing| && keys == IdSet(listing[..m])
  }

  /** What a pass that began at request `start` knows before request `now`. */
  ghost predicate PassInvariant(remote: Remote, start: nat, now: nat, keys: set<int>) {
    && start <= now <= MAX_REQUESTS
    && (start == now ==> keys == {})
    && (start < now ==>
          && remote[start].Serves? && remote[now - 1].Serves?
          && keys <= Alive(remote, start)
          && PrefixUnlessLost(remote[now - 1].listing, keys, Offset(now - start)))
  }

  /** A finished pass is complete unless one of its own rows vanished. */
  ghost predicate CompleteUnlessLost(remote: Remote, end: nat, keys: set<int>) {
    end < MAX_REQUESTS && remote[end].Serves? && (keys <= Alive(remote, end) ==> keys == Alive(remote, end))
  }

  lemma PassStep(remote: Remote, start: nat, now: nat, keys: set<int>, page: nat)
    requires OnlyDisappears(remote)
    requires PassInvariant(remote, start, now, keys) && page == now - start + 1
    requires now < MAX_REQUESTS && remote[now].Serves?
    ensures
      var listing := remote[now].listing;
      var keys' := keys + IdSet(Page(listing, page));
      && keys' <= Alive(remote, start)
      && (|Page(listing, page)| < PAGE_SIZE ==> CompleteUnlessLost(remote, now, keys'))
      && (|Page(listing, page)| >= PAGE_SIZE ==> PassInvariant(remote, start, now + 1, keys'))
  {
    var listing := remote[now].listing;
    var unseen := Page(listing, page);
    var keys' := keys + IdSet(unseen);
    AliveShrinks(remote, start, now);
    assert IdSet(unseen) <= IdSet(listing);
    var m := Offset(page - 1);
    if keys' <= IdSet(listing) {
      assert m <= |listing| && keys == IdSet(listing[..m]) by {
        PrefixCarriesOver(remote, start, now, keys);
      }
      var upto := Min(Offset(page), |listing|);
      assert listing[..upto] == listing[..m] + unseen;
      IdSetConcat(listing[..m], unseen);
      if |unseen| < PAGE_SIZE {
        assert listing[..upto] == listing;
      }
    }
  }

  /** Rows collected earlier that all survive are still the leading rows at the next request. */
  lemma PrefixCarriesOver(remote: Remote, start: nat, now: nat, keys: set<int>)
    requires OnlyDisappears(remote)
    requires PassInvariant(remote, start, now, keys)
    requires now < MAX_REQUESTS && remote[now].Serves? && keys <= Alive(remote, now)
    ensures
      var m := Offset(now - start);
      m <= |remote[now].listing| && keys == IdSet(remote[now].listing[..m])
  {
    if start < now {
      var before, after := remote[now - 1].listing, remote[now].listing;
      var m := Offset(now - start);
      AliveShrinks(remote, now - 1, now);
      assert Shrinks(remote, now - 1, now);
      assert m <= |before| && keys == IdSet(before[..m]);
      forall i | 0 <= i < m
        ensures Ids(before)[i] in Ids(after)
      {
        assert before[..m][i].id in keys;
        IdSetIsIds(after, before[i].id);
      }
      PrefixSurvives(Ids(before), Ids(after), m);
      forall i | 0 <= i < m
        ensures Ids(before[..m])[i] == Ids(after[..m])[i]
      {
        assert Ids(before)[..m][i] == Ids(after)[..m][i];
      }
      SameIdsSameSet(before[..m], after[..m]);
    }
  }

  lemma SameIdsSameSet(a: seq<Row>, b: seq<Row>)
    requires |a| == |b|
    requires forall i :: 0 <= i < |a| ==> Ids(a)[i] == Ids(b)[i]
    ensures IdSet(a) == IdSet(b)
  {
    forall x
      ensures x in IdSet(a) <==> x in IdSet(b)
    {
      IdSetIsIds(a, x);
      IdSetIsIds(b, x);
      assert Ids(a) == Ids(b);
    }
  }

  // ---------------------------------------------------------------------------------------
  // A remote that does not move
  // ---------------------------------------------------------------------------------------

  /** One pass over this listing takes `length` requests, the last one meeting a short page. */
  ghost predicate PassTakes(listing: seq<Row>, length: nat) {
    length >= 1 && Offset(length - 1) <= |listing| < Offset(length)
  }

  ghost predicate StaticInvariant(listing: seq<Row>, length: nat, start: nat, now: nat,
                                  collected: seq<Row>, previous: Membership)
  {
    && PassTakes(listing, length)
    && start <= now < start + length
    && collected == listing[..Offset(now - start)]
    && start == (if previous.Unknown? then 0 else length)
    && (previous.Known? ==> previous.ids == IdSet(listing) && length > 1)
  }

  lemma StaticPage(listing: seq<Row>, length: nat, page: nat)
    requires PassTakes(listing, length) && 1 <= page <= length
    ensures
      var collected' := listing[..Offset(page - 1)] + Page(listing, page);
      if |Page(listing, page)| < PAGE_SIZE then page == length && collected' == listing
      else page < length && collected' == listing[..Offset(page)]
  {
  }

  /** Each row was shown by one of the first `now` requests. */
  ghost predicate Served(remote: Remote, now: nat, rows: seq<Row>) {
    forall i :: 0 <= i < |rows| ==> ShownBefore(remote, now, rows[i])
  }

  ghost predicate ShownBefore(remote: Remote, now: nat, row: Row) {
    exists t :: 0 <= t < now <= MAX_REQUESTS && remote[t].Serves? && row in remote[t].listing
  }

  lemma ServedByPage(remote: Remote, now: nat, collected: seq<Row>, page: nat)
    requires now < MAX_REQUESTS && remote[now].Serves? && page >= 1 && Served(remote, now, collected)
    ensures Served(remote, now + 1, collected + Page(remote[now].listing, page))
  {
    var all := collected + Page(remote[now].listing, page);
    forall i | 0 <= i < |all|
      ensures ShownBefore(remote, now + 1, all[i])
    {
      if i < |collected| {
        assert ShownBefore(remote, now, collected[i]);
      } else {
        assert all[i] in remote[now].listing;
      }
    }
  }

  /** What the reader knows before request `now`, in a pass that began at `start`. */
  ghost predicate DisappearInvariant(remote: Remote, start: nat, now: nat, keys: set<int>, previous: Membership) {
    && PassInvariant(remote, start, now, keys)
    && (previous.Known? ==> start > 0 && CompleteUnlessLost(remote, start - 1, previous.ids))
  }

  /** The membership is what some request of the run would have shown in full. */
  ghost predicate IsSnapshot(remote: Remote, requests: nat, keys: set<int>) {
    && (exists t :: 0 <= t < requests <= MAX_REQUESTS && remote[t].Serves? && keys == Alive(remote, t))
    && 0 < requests <= MAX_REQUESTS && remote[requests - 1].Serves? && Alive(remote, requests - 1) <= keys
  }

  lemma DisappearStep(remote: Remote, start: nat, now: nat, keys: set<int>, previous: Membership)
    requires OnlyDisappears(remote)
    requires DisappearInvariant(remote, start, now, keys, previous)
    requires now < MAX_REQUESTS && remote[now].Serves?
    ensures
      var page := Page(remote[now].listing, now - start + 1);
      var keys' := keys + IdSet(page);
      if |page| >= PAGE_SIZE then DisappearInvariant(remote, start, now + 1, keys', previous)
      else if start == now || previous == Known(keys') then IsSnapshot(remote, now + 1, keys')
      else DisappearInvariant(remote, now + 1, now + 1, {}, Known(keys'))
  {
    var page := Page(remote[now].listing, now - start + 1);
    var keys' := keys + IdSet(page);
    PassStep(remote, start, now, keys, now - start + 1);
    if |page| < PAGE_SIZE && (start == now || previous == Known(keys')) {
      SnapshotAtReturn(remote, start, now, keys', previous);
    }
  }

  /** The same step, told of the turn the reader takes. */
  lemma CollectStep(remote: Remote, start: nat, now: nat, collected: seq<Row>, previous: Membership)
    requires OnlyDisappears(remote)
    requires DisappearInvariant(remote, start, now, IdSet(collected), previous)
    requires now < MAX_REQUESTS && remote[now].Serves?
    ensures
      match TakePage(remote[now].listing, now - start + 1, collected, previous)
      case Finish(read) => IsSnapshot(remote, now + 1, IdSet(read))
      case Ask(page', collected', previous') =>
        page' <= now + 2 && DisappearInvariant(remote, now + 2 - page', now + 1, IdSet(collected'), previous')
  {
    DisappearStep(remote, start, now, IdSet(collected), previous);
    IdSetConcat(collected, Page(remote[now].listing, now - start + 1));
    assert IdSet([]) == {};
  }

  /** One pass when it is one page; else two, each as many requests as there are pages, the last one short. */
  function StaticRequests(listing: seq<Row>): nat {
    var length := |listing| / PAGE_SIZE + 1;
    if length == 1 then 1 else Min(2 * length, MAX_REQUESTS)
  }

  lemma StaticStep(listing: seq<Row>, length: nat, start: nat, now: nat, collected: seq<Row>, previous: Membership)
    requires StaticInvariant(listing, length, start, now, collected, previous)
    requires now < MAX_REQUESTS
    ensures
      match TakePage(listing, now - start + 1, collected, previous)
      case Finish(read) => |listing| <= 999 && read == listing && now + 1 == StaticRequests(listing)
      case Ask(page', collected', previous') =>
        page' <= now + 2 && StaticInvariant(listing, length, now + 2 - page', now + 1, collected', previous')
  {
    StaticPage(listing, length, now - start + 1);
  }

  // ---------------------------------------------------------------------------------------
  // What every run of the reader gives
  // ---------------------------------------------------------------------------------------

  /** It stops within the budget, and raises for no other cause than a failed request or the budget. */
  lemma {:induction false} StopsWithinBudget(remote: Remote, now: nat, page: nat, collected: seq<Row>,
                                             previous: Membership)
    requires page >= 1 && now <= MAX_REQUESTS
    ensures
      var (outcome, requests) := Reading(remote, now, page, collected, previous);
      && now <= requests <= MAX_REQUESTS
      && (outcome.OverBudget? ==> requests == MAX_REQUESTS)
      && (outcome.RequestFailed? ==> requests > 0 && remote[requests - 1].Failed?)
    decreases MAX_REQUESTS - now
  {
    hide TakePage;
    if now < MAX_REQUESTS && remote[now].Serves? {
      match TakePage(remote[now].listing, page, collected, previous)
      case Finish(_) =>
      case Ask(page', collected', previous') => StopsWithinBudget(remote, now + 1, page', collected', previous');
    }
  }

  lemma ServedByTurn(remote: Remote, now: nat, page: nat, collected: seq<Row>, previous: Membership)
    requires now < MAX_REQUESTS && remote[now].Serves? && page >= 1 && Served(remote, now, collected)
    ensures
      match TakePage(remote[now].listing, page, collected, previous)
      case Finish(read) => Served(remote, now + 1, read)
      case Ask(_, collected', _) => Served(remote, now + 1, collected')
  {
    ServedByPage(remote, now, collected, page);
  }

  lemma {:induction false} ReturnsServedRows(remote: Remote, now: nat, page: nat, collected: seq<Row>,
                                             previous: Membership)
    requires page >= 1 && now <= MAX_REQUESTS && Served(remote, now, collected)
    ensures
      var (outcome, requests) := Reading(remote, now, page, collected, previous);
      outcome.Returned? ==> Served(remote, requests, outcome.read)
    decreases MAX_REQUESTS - now
  {
    hide TakePage;
    if now < MAX_REQUESTS && remote[now].Serves? {
      ServedByTurn(remote, now, page, collected, previous);
      match TakePage(remote[now].listing, page, collected, previous)
      case Finish(_) =>
      case Ask(page', collected', previous') => ReturnsServedRows(remote, now + 1, page', collected', previous');
    }
  }

  lemma {:induction false} ReturnsASnapshot(remote: Remote, start: nat, now: nat, collected: seq<Row>,
                                            previous: Membership)
    requires OnlyDisappears(remote) && DisappearInvariant(remote, start, now, IdSet(collected), previous)
    ensures
      var (outcome, requests) := Reading(remote, now, now - start + 1, collected, previous);
      outcome.Returned? ==> IsSnapshot(remote, requests, IdSet(outcome.read))
    decreases MAX_REQUESTS - now
  {
    hide TakePage;
    if now < MAX_REQUESTS && remote[now].Serves? {
      CollectStep(remote, start, now, collected, previous);
      match TakePage(remote[now].listing, now - start + 1, collected, previous)
      case Finish(_) =>
      case Ask(page', collected', previous') =>
        ReturnsASnapshot(remote, now + 2 - page', now + 1, collected', previous');
    }
  }

  lemma {:induction false} StaticReading(remote: Remote, length: nat, start: nat, now: nat,
                                         collected: seq<Row>, previous: Membership)
    requires Static(remote) && now <= MAX_REQUESTS
    requires StaticInvariant(remote[0].listing, length, start, now, collected, previous)
    ensures Reading(remote, now, now - start + 1, collected, previous).0 ==
            if |remote[0].listing| <= 999 then Returned(remote[0].listing) else OverBudget
    ensures Reading(remote, now, now - start + 1, collected, previous).1 == StaticRequests(remote[0].listing)
    decreases MAX_REQUESTS - now
  {
    hide TakePage;
    if now < MAX_REQUESTS {
      assert remote[now] == remote[0];
      StaticStep(remote[0].listing, length, start, now, collected, previous);
      match TakePage(remote[0].listing, now - start + 1, collected, previous)
      case Finish(_) =>
      case Ask(page', collected', previous') =>
        StaticReading(remote, length, now + 2 - page', now + 1, collected', previous');
    }
  }

  /**
    When rows only disappear while it reads, a returned membership is exactly what the remote
    held at one single request of the run, although no request need ever have shown it in full;
    so no row that is still there at the end is missing.  Every returned row was served, and
    the read never takes more than the budget.
   */
  lemma DeltaIsASnapshot(remote: Remote)
    ensures
      var (outcome, requests) := ReadDelta(remote);
      && requests <= MAX_REQUESTS
      && (outcome.Returned? ==> Served(remote, requests, outcome.read))
      && (outcome.Returned? && OnlyDisappears(remote) ==> IsSnapshot(remote, requests, IdSet(outcome.read)))
  {
    StopsWithinBudget(remote, 0, 1, [], Unknown);
    ReturnsServedRows(remote, 0, 1, [], Unknown);
    if OnlyDisappears(remote) {
      ReturnsASnapshot(remote, 0, 0, [], Unknown);
    }
  }

  /** On a remote that does not move: the whole listing up to 999 rows, an error beyond. */
  lemma StaticDelta(remote: Remote)
    requires Static(remote)
    ensures ReadDelta(remote).0 == if |remote[0].listing| <= 999 then Returned(remote[0].listing) else OverBudget
    ensures ReadDelta(remote).1 == StaticRequests(remote[0].listing)
  {
    StaticReading(remote, |remote[0].listing| / PAGE_SIZE + 1, 0, 0, [], Unknown);
  }

  /** Two passes that agree pin the membership to the end of the first of them. */
  lemma SnapshotAtReturn(remote: Remote, start: nat, now: nat, keys: set<int>, previous: Membership)
    requires OnlyDisappears(remote) && start <= now < MAX_REQUESTS
    requires now < MAX_REQUESTS && remote[now].Serves? && remote[start].Serves?
    requires keys <= Alive(remote, start) && CompleteUnlessLost(remote, now, keys)
    requires start == now || (previous.Known? && start > 0 && keys == previous.ids
                           && CompleteUnlessLost(remote, start - 1, previous.ids))
    ensures exists t :: 0 <= t <= now && remote[t].Serves? && keys == Alive(remote, t)
    ensures Alive(remote, now) <= keys
  {
    if start == now {
      assert keys == Alive(remote, now);
    } else {
      AliveShrinks(remote, start - 1, start);
      AliveShrinks(remote, start - 1, now);
      assert keys == Alive(remote, start - 1);
    }
  }

  // ---------------------------------------------------------------------------------------
  // Rows that appear while the reader works
  // ---------------------------------------------------------------------------------------

  /** The row stands behind the first `m` rows of the listing. */
  ghost predicate Behind(listing: seq<Row>, x: int, m: nat) {
    exists i :: m <= i < |listing| && listing[i].id == x
  }

  ghost predicate Standing(remote: Remote, now: nat, x: int, m: nat) {
    now < MAX_REQUESTS && remote[now].Serves? ==> Behind(remote[now].listing, x, m)
  }

  /** From one request to the next the row stays, and never moves towards the front. */
  ghost predicate NeverSlips(remote: Remote, x: int) {
    forall t, m: nat :: 0 <= t < MAX_REQUESTS && remote[t].Serves? && Behind(remote[t].listing, x, m) ==>
      Standing(remote, t + 1, x, m)
  }

  /** Row identities only appear while the reader works, at any place of the listing. */
  ghost predicate OnlyAppears(remote: Remote) {
    forall t, u :: 0 <= t <= u < MAX_REQUESTS && remote[t].Serves? && remote[u].Serves? ==>
      LeftOver(Ids(remote[t].listing), Ids(remote[u].listing))
  }

  /** A row behind the pages read so far is on the page read now, or the page is full and it is behind that too. */
  lemma OnPageOrBehind(listing: seq<Row>, x: int, page: nat)
    requires page >= 1 && Behind(listing, x, Offset(page - 1))
    ensures x in IdSet(Page(listing, page)) || (|Page(listing, page)| >= PAGE_SIZE && Behind(listing, x, Offset(page)))
  {
    var i :| Offset(page - 1) <= i < |listing| && listing[i].id == x;
    if i < Offset(page) {
      assert Page(listing, page)[i - Offset(page - 1)] == listing[i];
    }
  }

  lemma CatchStep(remote: Remote, now: nat, page: nat, collected: seq<Row>, previous: Membership, x: int)
    requires page >= 1 && now < MAX_REQUESTS && remote[now].Serves? && NeverSlips(remote, x)
    requires Standing(remote, now, x, 0)
    requires x in IdSet(collected) || Standing(remote, now, x, Offset(page - 1))
    ensures Standing(remote, now + 1, x, 0)
    ensures
      match TakePage(remote[now].listing, page, collected, previous)
      case Finish(read) => x in IdSet(read)
      case Ask(page', collected', _) => x in IdSet(collected') || Standing(remote, now + 1, x, Offset(page' - 1))
  {
    var listing := remote[now].listing;
    IdSetConcat(collected, Page(listing, page));
    if x !in IdSet(collected) {
      OnPageOrBehind(listing, x, page);
    }
  }

  lemma {:induction false} Catches(remote: Remote, now: nat, page: nat, collected: seq<Row>, previous: Membership,
                                   x: int)
    requires page >= 1 && now <= MAX_REQUESTS && NeverSlips(remote, x)
    requires Standing(remote, now, x, 0)
    requires x in IdSet(collected) || Standing(remote, now, x, Offset(page - 1))
    ensures
      var outcome := Reading(remote, now, page, collected, previous).0;
      outcome.Returned? ==> x in IdSet(outcome.read)
    decreases MAX_REQUESTS - now
  {
    hide TakePage, Standing, NeverSlips;
    if now < MAX_REQUESTS && remote[now].Serves? {
      CatchStep(remote, now, page, collected, previous, x);
      match TakePage(remote[now].listing, page, collected, previous)
      case Finish(_) =>
      case Ask(page', collected', previous') => Catches(remote, now + 1, page', collected', previous', x);
    }
  }

  /** However other rows come and go, a row that never moves towards the front is never missed. */
  lemma NoSlipNoMiss(remote: Remote, x: int)
    requires Standing(remote, 0, x, 0) && NeverSlips(remote, x)
    ensures ReadDelta(remote).0.Returned? ==> x in IdSet(ReadDelta(remote).0.read)
  {
    Catches(remote, 0, 1, [], Unknown, x);
  }

  lemma {:induction false} DropKeepsLeftOver(few: seq<int>, many: seq<int>, m: nat)
    requires LeftOver(few, many) && m <= |few|
    ensures m <= |many| && LeftOver(few[m..], many[m..])
    decreases |many|
  {
    if m > 0 {
      if few[0] == many[0] {
        DropKeepsLeftOver(few[1..], many[1..], m - 1);
        assert few[1..][m - 1..] == few[m..] && many[1..][m - 1..] == many[m..];
      } else {
        DropKeepsLeftOver(few, many[1..], m);
        assert many[1..][m..] == many[m + 1..];
        LeftOverOfMore(few[m..], many[m..]);
      }
    }
  }

  lemma {:induction false} LeftOverOfMore(few: seq<int>, many: seq<int>)
    requires many != [] && LeftOver(few, many[1..])
    ensures LeftOver(few, many)
    decreases |many|, 0
  {
    if few != [] && few[0] == many[0] {
      LeftOverOfFewer(few, many[1..]);
    }
  }

  lemma {:induction false} LeftOverOfFewer(few: seq<int>, many: seq<int>)
    requires few != [] && LeftOver(few, many)
    ensures LeftOver(few[1..], many)
    decreases |many|, 1
  {
    if few[0] == many[0] {
      LeftOverOfMore(few[1..], many);
    } else {
      LeftOverOfFewer(few, many[1..]);
      LeftOverOfMore(few[1..], many);
    }
  }

  lemma BehindStays(before: seq<Row>, after: seq<Row>, x: int, m: nat)
    requires LeftOver(Ids(before), Ids(after)) && Behind(before, x, m)
    ensures Behind(after, x, m)
  {
    var i :| m <= i < |before| && before[i].id == x;
    DropKeepsLeftOver(Ids(before), Ids(after), m);
    assert Ids(before)[m..][i - m] == x;
    LeftOverIsSubset(Ids(before)[m..], Ids(after)[m..], x);
    var k :| 0 <= k < |Ids(after)[m..]| && Ids(after)[m..][k] == x;
    assert after[m + k].id == x;
  }

  lemma AppearingNeverSlips(remote: Remote, x: int)
    requires OnlyAppears(remote)
    ensures NeverSlips(remote, x)
  {
    forall t, m: nat | 0 <= t < MAX_REQUESTS && remote[t].Serves? && Behind(remote[t].listing, x, m)
      ensures Standing(remote, t + 1, x, m)
    {
      if t + 1 < MAX_REQUESTS && remote[t + 1].Serves? {
        BehindStays(remote[t].listing, remote[t + 1].listing, x, m);
      }
    }
  }

  lemma AliveGrows(remote: Remote, t: nat, u: nat)
    requires OnlyAppears(remote)
    requires t <= u < MAX_REQUESTS && remote[t].Serves? && remote[u].Serves?
    ensures Alive(remote, t) <= Alive(remote, u)
  {
    forall x | x in Alive(remote, t)
      ensures x in Alive(remote, u)
    {
      IdSetIsIds(remote[t].listing, x);
      LeftOverIsSubset(Ids(remote[t].listing), Ids(remote[u].listing), x);
      IdSetIsIds(remote[u].listing, x);
    }
  }

  lemma {:induction false} ReturnsAfterServing(remote: Remote, now: nat, page: nat, collected: seq<Row>,
                                               previous: Membership)
    requires page >= 1 && now <= MAX_REQUESTS
    ensures
      var (outcome, requests) := Reading(remote, now, page, collected, previous);
      outcome.Returned? ==> now < requests <= MAX_REQUESTS && remote[now].Serves? && remote[requests - 1].Serves?
    decreases MAX_REQUESTS - now
  {
    hide TakePage;
    if now < MAX_REQUESTS && remote[now].Serves? {
      match TakePage(remote[now].listing, page, collected, previous)
      case Finish(_) =>
      case Ask(page', collected', previous') => ReturnsAfterServing(remote, now + 1, page', collected', previous');
    }
  }

  /**
    When rows only appear while it reads, at whatever place, the returned membership lies between
    what the remote held at the first request and what it held at the last.
   */
  lemma GrowingDelta(remote: Remote)
    requires OnlyAppears(remote)
    ensures
      var (outcome, requests) := ReadDelta(remote);
      outcome.Returned? ==>
        && 0 < requests <= MAX_REQUESTS && remote[0].Serves? && remote[requests - 1].Serves?
        && Alive(remote, 0) <= IdSet(outcome.read) <= Alive(remote, requests - 1)
  {
    var (outcome, requests) := ReadDelta(remote);
    if outcome.Returned? {
      ReturnsAfterServing(remote, 0, 1, [], Unknown);
      ReturnsServedRows(remote, 0, 1, [], Unknown);
      forall x | x in Alive(remote, 0)
        ensures x in IdSet(outcome.read)
      {
        var i :| 0 <= i < |remote[0].listing| && remote[0].listing[i].id == x;
        AppearingNeverSlips(remote, x);
        NoSlipNoMiss(remote, x);
      }
      forall x | x in IdSet(outcome.read)
        ensures x in Alive(remote, requests - 1)
      {
        var i :| 0 <= i < |outcome.read| && outcome.read[i].id == x;
        assert ShownBefore(remote, requests, outcome.read[i]);
        var t :| 0 <= t < requests && remote[t].Serves? && outcome.read[i] in remote[t].listing;
        AliveGrows(remote, t, requests - 1);
      }
    }
  }

  // ---------------------------------------------------------------------------------------
  // When no standing row is hidden, whatever else appears and vanishes
  // ---------------------------------------------------------------------------------------

  /** The row is there at every request made. */
  ghost predicate StandsThrough(remote: Remote, requests: nat, x: int) {
    forall t :: 0 <= t < requests <= MAX_REQUESTS && remote[t].Serves? ==> x in Alive(remote, t)
  }

  /** Every row that is there at every request made is in what is returned. */
  ghost predicate HidesNothing(remote: Remote) {
    var (outcome, requests) := ReadDelta(remote);
    outcome.Returned? ==> forall x :: StandsThrough(remote, requests, x) ==> x in IdSet(outcome.read)
  }

  ghost predicate Bounded(remote: Remote, n: nat) {
    forall t :: 0 <= t < MAX_REQUESTS && remote[t].Serves? ==> |remote[t].listing| <= n
  }

  lemma DisappearingHidesNothing(remote: Remote)
    requires OnlyDisappears(remote)
    ensures HidesNothing(remote)
  {
    DeltaIsASnapshot(remote);
  }

  lemma AppearingHidesNothing(remote: Remote)
    requires OnlyAppears(remote)
    ensures HidesNothing(remote)
  {
    GrowingDelta(remote);
  }

  /** With at most one page of rows a pass is page one, and an empty page two when page one is full. */
  lemma SmallTurn(listing: seq<Row>, page: nat, collected: seq<Row>, previous: Membership, x: int)
    requires |listing| <= PAGE_SIZE && x in IdSet(listing)
    requires (page == 1 && collected == []) || (page == 2 && x in IdSet(collected))
    ensures
      match TakePage(listing, page, collected, previous)
      case Finish(read) => x in IdSet(read)
      case Ask(page', collected', _) =>
        (page' == 1 && collected' == []) || (page' == 2 && x in IdSet(collected'))
  {
    if page == 1 {
      assert Page(listing, page) == listing && collected + listing == listing;
    } else {
      assert Page(listing, page) == [] && collected + [] == collected;
    }
  }

  lemma {:induction false} SmallCatches(remote: Remote, now: nat, page: nat, collected: seq<Row>,
                                        previous: Membership, requests: nat, read: seq<Row>, x: int)
    requires Bounded(remote, PAGE_SIZE) && StandsThrough(remote, requests, x)
    requires (page == 1 && collected == []) || (page == 2 && x in IdSet(collected))
    requires now <= MAX_REQUESTS && Reading(remote, now, page, collected, previous) == (Returned(read), requests)
    ensures x in IdSet(read)
    decreases MAX_REQUESTS - now
  {
    hide TakePage;
    ReturnsAfterServing(remote, now, page, collected, previous);
    SmallTurn(remote[now].listing, page, collected, previous, x);
    match TakePage(remote[now].listing, page, collected, previous)
    case Finish(_) =>
    case Ask(page', collected', previous') =>
      SmallCatches(remote, now + 1, page', collected', previous', requests, read, x);
  }

  lemma SmallHidesNothing(remote: Remote)
    requires Bounded(remote, PAGE_SIZE)
    ensures HidesNothing(remote)
  {
    var (outcome, requests) := ReadDelta(remote);
    if outcome.Returned? {
      forall x | StandsThrough(remote, requests, x)
        ensures x in IdSet(outcome.read)
      {
        SmallCatches(remote, 0, 1, [], Unknown, requests, outcome.read, x);
      }
    }
  }

  // ---------------------------------------------------------------------------------------
  // The smallest remote that hides a standing row
  // ---------------------------------------------------------------------------------------

  function Numbered(first: int, next: int): seq<Row>
    requires first <= next
  {
    seq(next - first, i => Row(first + i, ""))
  }

  /** Rows 1 to 100, with row 0 in front of them at every other request. */
  function Visited(t: nat): seq<Row> {
    if t % 2 == 0 then Numbered(0, 101) else Numbered(1, 101)
  }

  const HIDING: Remote := seq(MAX_REQUESTS, t requires 0 <= t => Serves(Visited(t)))

  lemma HidingPages()
    ensures Page(Numbered(0, 101), 1) == Numbered(0, 100) && |Numbered(0, 100)| == PAGE_SIZE
    ensures Page(Numbered(1, 101), 2) == []
    ensures [] + Numbered(0, 100) == Numbered(0, 100) == Numbered(0, 100) + []
  {
  }

  /** One pass over that remote, whatever it is compared with. */
  lemma HidingPass(previous: Membership, now: nat)
    requires now % 2 == 0
    ensures
      var read := Numbered(0, 100);
      && TakePage(Visited(now), 1, [], previous) == Ask(2, read, previous)
      && TakePage(Visited(now + 1), 2, read, previous) ==
         if previous == Known(IdSet(read)) then Finish(read) else Ask(1, [], Known(IdSet(read)))
  {
    hide Page, Numbered, IdSet;
    HidingPages();
  }

  lemma ReadingGoesOn(remote: Remote, now: nat, page: nat, collected: seq<Row>, previous: Membership)
    requires page >= 1 && now < MAX_REQUESTS && remote[now].Serves?
    ensures
      Reading(remote, now, page, collected, previous) ==
      match TakePage(remote[now].listing, page, collected, previous)
      case Finish(read) => (Returned(read), now + 1)
      case Ask(page', collected', previous') => Reading(remote, now + 1, page', collected', previous')
  {
  }

  lemma HidingRead()
    ensures ReadDelta(HIDING) == (Returned(Numbered(0, 100)), 4)
  {
    hide TakePage, Page, Visited, Numbered, IdSet;
    var read := Numbered(0, 100);
    HidingPass(Unknown, 0);
    ReadingGoesOn(HIDING, 0, 1, [], Unknown);
    ReadingGoesOn(HIDING, 1, 2, read, Unknown);
    HidingPass(Known(IdSet(read)), 2);
    ReadingGoesOn(HIDING, 2, 1, [], Known(IdSet(read)));
    ReadingGoesOn(HIDING, 3, 2, read, Known(IdSet(read)));
  }

  /** Row 100 of at most 101 rows stands at every request, and two agreeing passes both miss it. */
  lemma StandingRowCanHide()
    ensures Bounded(HIDING, PAGE_SIZE + 1)
    ensures forall t :: 0 <= t < MAX_REQUESTS ==> HIDING[t].Serves? && 100 in Alive(HIDING, t)
    ensures ReadDelta(HIDING).0.Returned? && 100 !in IdSet(ReadDelta(HIDING).0.read)
  {
    forall t | 0 <= t < MAX_REQUESTS
      ensures 100 in Alive(HIDING, t)
    {
      assert Visited(t)[if t % 2 == 0 then 100 else 99] == Row(100, "");
    }
    HidingRead();
  }

  /**
    Whatever rows appear and vanish while it reads, the reader hides no standing row if and only
    if the listing never exceeds one page.
   */
  lemma HidesNothingExactly(n: nat)
    ensures (forall remote: Remote :: Bounded(remote, n) ==> HidesNothing(remote)) <==> n <= PAGE_SIZE
  {
    if n <= PAGE_SIZE {
      forall remote: Remote | Bounded(remote, n)
        ensures HidesNothing(remote)
      {
        SmallHidesNothing(remote);
      }
    } else {
      StandingRowCanHide();
      assert Bounded(HIDING, n);
      assert StandsThrough(HIDING, ReadDelta(HIDING).1, 100);
      assert !HidesNothing(HIDING);
    }
  }
}
