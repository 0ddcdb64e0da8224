/**
  Paged and batched GraphQL reads of the PR-review sweep, under gateway timeouts.

  Every request meets a fate.  A gateway timeout makes the paged walk retry the same cursor
  with half the page, and makes the batched detail read split its batch in two.
 */
module GithubPaging {
  import opened Shared

  const SCAN_PAGE_SIZE: nat := 25

  /** `complete` stands for the shape checks on number, state, head and freshness metadata. */
  datatype Node = Node(number: int, complete: bool, content: string)

  datatype Fate = Answer | GatewayTimeout | OtherFailure

  /** What request number t meets when it asks for a number of rows. */
  type Fates = (nat, nat) -> Fate

  /** The request failed in a way that asking for less does not help. */
  ghost predicate Hopeless(fates: Fates, t: nat) {
    fates(t, 1).GatewayTimeout? || exists size: nat :: fates(t, size).OtherFailure?
  }

  /** Asking for a single row always succeeds, and nothing fails but for its size. */
  ghost predicate OnlySizeHurts(fates: Fates) {
    forall t: nat :: !Hopeless(fates, t)
  }

  lemma FailureIsHopeless(fates: Fates, t: nat, size: nat)
    requires fates(t, size).OtherFailure? || (size == 1 && fates(t, size).GatewayTimeout?)
    ensures Hopeless(fates, t)
  {
  }

  datatype Error = RequestFailed | MalformedPage | IncompleteNode | NotAdvancing | TooManyOpen

  datatype Walk = Nodes(nodes: seq<Node>) | Raised(error: Error)

  /** One page of the pull-request connection, or a body without usable page information. */
  datatype Connection = Malformed | Connection(nodes: seq<Node>, hasNext: bool, endCursor: Option<nat>)

  type Server = (Option<nat>, nat) -> Connection

  function Min(a: nat, b: nat): nat {
    if a < b then a else b
  }

  ghost predicate AllComplete(nodes: seq<Node>) {
    forall i :: 0 <= i < |nodes| ==> nodes[i].complete
  }

  // ---------------------------------------------------------------------------------------
  // A fixed remote behind the page interface
  // ---------------------------------------------------------------------------------------

  function Position(cursor: Option<nat>): nat {
    if cursor.None? then 0 else cursor.value
  }

  /** The page a fixed list of pull requests gives after a cursor. */
  function PageOf(remote: seq<Node>, cursor: Option<nat>, first: nat): Connection
    requires Position(cursor) <= |remote|
  {
    var from := Position(cursor);
    var upto := Min(from + first, |remote|);
    Connection(remote[from..upto], upto < |remote|, if from < upto then Some(upto) else None)
  }

  ghost predicate Serves(server: Server, remote: seq<Node>) {
    forall cursor, first: nat :: Position(cursor) <= |remote| ==>
      server(cursor, first) == PageOf(remote, cursor, first)
  }

  /** What one query large enough for the whole request would return. */
  function OneLargeQuery(remote: seq<Node>, limit: nat): seq<Node> {
    PageOf(remote, None, limit).nodes
  }

  // ---------------------------------------------------------------------------------------
  // The cursor walk
  // ---------------------------------------------------------------------------------------

  method CheckNodes(nodes: seq<Node>) returns (ok: bool)
    ensures ok <==> AllComplete(nodes)
  {
    for i := 0 to |nodes|
      invariant AllComplete(nodes[..i])
    {
      if !nodes[i].complete {
        return false;
      }
    }
    return true;
  }

  /** Halving from 25 can happen four times before a page of one row is reached. */
  ghost predicate Shrunk(pageLimit: nat, shrinks: nat) {
    pageLimit >= 1 && shrinks <= 4 &&
    pageLimit <= (if shrinks == 0 then SCAN_PAGE_SIZE else if shrinks == 1 then 12
                  else if shrinks == 2 then 6 else if shrinks == 3 then 3 else 1)
  }

  /** The walk so far against a fixed remote: its leading nodes, all complete. */
  ghost predicate Walked(remote: seq<Node>, nodes: seq<Node>, cursor: Option<nat>) {
    |nodes| == Position(cursor) <= |remote| && nodes == remote[..|nodes|] && AllComplete(nodes)
  }

  lemma JoinSlices(s: seq<Node>, from: nat, upto: nat)
    requires from <= upto <= |s|
    ensures s[..from] + s[from..upto] == s[..upto]
  {
  }

  lemma WalkStarts(remote: seq<Node>)
    ensures Walked(remote, [], None)
  {
  }

  /** One answered page extends the walk, ends it, or shows an incomplete node. */
  lemma WalkStep(remote: seq<Node>, nodes: seq<Node>, cursor: Option<nat>, pageSize: nat, limit: nat)
    requires Walked(remote, nodes, cursor)
    requires 1 <= pageSize <= limit - |nodes|
    ensures
      var page := PageOf(remote, cursor, pageSize);
      var nodes' := nodes + page.nodes;
      && |nodes'| <= limit
      && (!AllComplete(page.nodes) ==> !AllComplete(OneLargeQuery(remote, limit)))
      && (AllComplete(page.nodes) ==> AllComplete(nodes'))
      && (AllComplete(page.nodes) && page.hasNext ==>
            Walked(remote, nodes', page.endCursor) && page.endCursor != cursor && page.nodes != [])
      && (!page.hasNext ==> nodes' == OneLargeQuery(remote, limit))
  {
    hide AllComplete;
    var page := PageOf(remote, cursor, pageSize);
    var nodes' := nodes + page.nodes;
    var end := Min(limit, |remote|);
    JoinSlices(remote, |nodes|, |nodes'|);
    JoinSlices(remote, |nodes'|, end);
    CompleteConcat(nodes, page.nodes);
    CompleteConcat(nodes', remote[|nodes'|..end]);
  }

  lemma CompleteConcat(a: seq<Node>, b: seq<Node>)
    ensures AllComplete(a + b) <==> AllComplete(a) && AllComplete(b)
  {
    if AllComplete(a + b) {
      assert forall i :: 0 <= i < |a| ==> (a + b)[i] == a[i];
      assert forall i :: 0 <= i < |b| ==> (a + b)[|a| + i] == b[i];
    }
  }

  // ---------------------------------------------------------------------------------------
  // The requests of a walk, for every server
  // ---------------------------------------------------------------------------------------

  datatype Request = Request(cursor: Option<nat>, size: nat)

  /** Request number i of these was answered with a usable page. */
  ghost predicate Paged(server: Server, fates: Fates, r: Request, i: nat) {
    fates(i, r.size).Answer? && server(r.cursor, r.size).Connection?
  }

  /** The nodes that the requests brought. */
  ghost function Got(server: Server, fates: Fates, asked: seq<Request>): seq<Node> {
    if asked == [] then []
    else
      var front, r := asked[..|asked| - 1], asked[|asked| - 1];
      Got(server, fates, front) + if Paged(server, fates, r, |front|) then server(r.cursor, r.size).nodes else []
  }

  /** Where the next request goes on: behind the last page. */
  ghost function CursorAfter(server: Server, fates: Fates, asked: seq<Request>): Option<nat> {
    if asked == [] then None
    else
      var front, r := asked[..|asked| - 1], asked[|asked| - 1];
      if Paged(server, fates, r, |front|) then server(r.cursor, r.size).endCursor else CursorAfter(server, fates, front)
  }

  /** The largest page to ask for: half of the last one that timed out. */
  ghost function CapAfter(fates: Fates, asked: seq<Request>): nat {
    if asked == [] then SCAN_PAGE_SIZE
    else
      var front, r := asked[..|asked| - 1], asked[|asked| - 1];
      if fates(|front|, r.size).GatewayTimeout? then r.size / 2 else CapAfter(fates, front)
  }

  /** Every request asks at the cursor reached for as many nodes as are still wanted and as the cap allows. */
  ghost predicate AsksOn(server: Server, fates: Fates, limit: nat, asked: seq<Request>, i: nat)
    requires i < |asked|
  {
    var before := asked[..i];
    && |Got(server, fates, before)| < limit
    && asked[i].cursor == CursorAfter(server, fates, before)
    && asked[i].size == Min(limit - |Got(server, fates, before)|, CapAfter(fates, before))
  }

  /** The request did not end the walk: it timed out with room to shrink, or brought a page to go on from. */
  ghost predicate GoesOn(server: Server, fates: Fates, r: Request, i: nat) {
    match fates(i, r.size)
    case OtherFailure => false
    case GatewayTimeout => r.size > 1
    case Answer =>
      var page := server(r.cursor, r.size);
      && page.Connection? && AllComplete(page.nodes) && page.hasNext
      && page.endCursor.Some? && page.endCursor != r.cursor && page.nodes != []
  }

  ghost predicate IsWalk(server: Server, fates: Fates, limit: nat, asked: seq<Request>) {
    && (forall i :: 0 <= i < |asked| ==> AsksOn(server, fates, limit, asked, i))
    && (forall i :: 0 <= i < |asked| - 1 ==> GoesOn(server, fates, asked[i], i))
  }

  /** The walk ended for this reason, and for no other. */
  ghost predicate Ends(server: Server, fates: Fates, limit: nat, asked: seq<Request>, result: Walk) {
    var got := Got(server, fates, asked);
    if asked == [] || GoesOn(server, fates, asked[|asked| - 1], |asked| - 1) then
      |got| >= limit && result == Nodes(got[..limit])
    else
      var r, i := asked[|asked| - 1], |asked| - 1;
      var page := server(r.cursor, r.size);
      if !fates(i, r.size).Answer? then result == Raised(RequestFailed)
      else if page.Malformed? then result == Raised(MalformedPage)
      else if !AllComplete(page.nodes) then result == Raised(IncompleteNode)
      else if !page.hasNext then result == Nodes(got[..Min(limit, |got|)])
      else result == Raised(NotAdvancing)
  }

  lemma WalkOneMore(server: Server, fates: Fates, limit: nat, asked: seq<Request>, r: Request)
    requires IsWalk(server, fates, limit, asked)
    requires asked != [] ==> GoesOn(server, fates, asked[|asked| - 1], |asked| - 1)
    requires |Got(server, fates, asked)| < limit && r.cursor == CursorAfter(server, fates, asked)
    requires r.size == Min(limit - |Got(server, fates, asked)|, CapAfter(fates, asked))
    ensures IsWalk(server, fates, limit, asked + [r])
    ensures (asked + [r])[..|asked|] == asked
  {
    var more := asked + [r];
    forall i | 0 <= i < |more|
      ensures AsksOn(server, fates, limit, more, i)
    {
      if i < |asked| {
        assert AsksOn(server, fates, limit, asked, i);
        assert more[..i] == asked[..i];
      } else {
        assert more[..i] == asked;
      }
    }
    forall i | 0 <= i < |more| - 1
      ensures GoesOn(server, fates, more[i], i)
    {
      if i < |asked| - 1 {
        assert GoesOn(server, fates, asked[i], i);
      }
    }
  }

  /** What one more request adds to the nodes, the cursor and the cap. */
  lemma TraceOneMore(server: Server, fates: Fates, asked: seq<Request>, r: Request)
    ensures Got(server, fates, asked + [r]) == Got(server, fates, asked)
              + if Paged(server, fates, r, |asked|) then server(r.cursor, r.size).nodes else []
    ensures CursorAfter(server, fates, asked + [r]) ==
            if Paged(server, fates, r, |asked|) then server(r.cursor, r.size).endCursor
            else CursorAfter(server, fates, asked)
    ensures CapAfter(fates, asked + [r]) ==
            if fates(|asked|, r.size).GatewayTimeout? then r.size / 2 else CapAfter(fates, asked)
  {
    assert (asked + [r])[..|asked|] == asked;
  }

  /** No request so far ended the walk. */
  ghost predicate OnWay(server: Server, fates: Fates, asked: seq<Request>) {
    asked != [] ==> GoesOn(server, fates, asked[|asked| - 1], |asked| - 1)
  }

  lemma TraceStarts(server: Server, fates: Fates, limit: nat)
    ensures IsWalk(server, fates, limit, []) && Got(server, fates, []) == []
    ensures CursorAfter(server, fates, []) == None && CapAfter(fates, []) == SCAN_PAGE_SIZE
  {
  }

  lemma EndsAtLimit(server: Server, fates: Fates, limit: nat, asked: seq<Request>)
    requires OnWay(server, fates, asked) && |Got(server, fates, asked)| >= limit
    ensures Ends(server, fates, limit, asked, Nodes(Got(server, fates, asked)[..limit]))
  {
  }

  /** What the walk does after its last request, spelled out by the fate and the page it met. */
  lemma LastRequest(server: Server, fates: Fates, limit: nat, before: seq<Request>, r: Request)
    ensures
      var asked, fate, page := before + [r], fates(|before|, r.size), server(r.cursor, r.size);
      var got := Got(server, fates, asked);
      if !fate.Answer? then
        if fate.OtherFailure? || r.size <= 1 then Ends(server, fates, limit, asked, Raised(RequestFailed))
        else OnWay(server, fates, asked)
      else if page.Malformed? then Ends(server, fates, limit, asked, Raised(MalformedPage))
      else if !AllComplete(page.nodes) then Ends(server, fates, limit, asked, Raised(IncompleteNode))
      else if !page.hasNext then Ends(server, fates, limit, asked, Nodes(got[..Min(limit, |got|)]))
      else if page.endCursor == None || page.endCursor == r.cursor || page.nodes == [] then
        Ends(server, fates, limit, asked, Raised(NotAdvancing))
      else OnWay(server, fates, asked)
  {
  }

  /**
    Walks the connection until `limit` nodes or the last page.

    For every server the requests are those of `IsWalk`, and the walk ends as `Ends` says: with
    the nodes got once the limit is reached or a page has no next one, and with an error only
    for a failed request or a page that is malformed, incomplete or leads nowhere.

    It ends for every server.  Against a fixed remote it returns exactly the nodes one large
    query would return, in order, or raises for a stated cause; it shrinks its page at most
    four times, whatever the pattern of timeouts; and where only the size of a request can
    make it fail, it never raises for a failed request.
   */
  method FetchPrNodes(server: Server, fates: Fates, limit: nat, ghost remote: seq<Node>)
    returns (result: Walk, attempts: nat, shrinks: nat, ghost asked: seq<Request>)
    ensures attempts == |asked| && IsWalk(server, fates, limit, asked) && Ends(server, fates, limit, asked, result)
    ensures shrinks <= 4 && attempts <= limit + 4
    ensures result.Nodes? ==> |result.nodes| <= limit
    ensures result == Raised(RequestFailed) ==> attempts > 0 && Hopeless(fates, attempts - 1)
    ensures Serves(server, remote) ==>
              || result == Nodes(OneLargeQuery(remote, limit))
              || result == Raised(RequestFailed)
              || (result == Raised(IncompleteNode) && !AllComplete(OneLargeQuery(remote, limit)))
    ensures Serves(server, remote) && result.Nodes? ==> AllComplete(result.nodes)
    ensures Serves(server, remote) && OnlySizeHurts(fates) && AllComplete(OneLargeQuery(remote, limit)) ==>
              result.Nodes?
  {
    hide Hopeless, AllComplete, IsWalk, Got, CursorAfter, CapAfter, GoesOn, Ends;
    var nodes: seq<Node> := [];
    var cursor: Option<nat> := None;
    asked := [];
    var pageLimit := SCAN_PAGE_SIZE;
    attempts, shrinks := 0, 0;
    WalkStarts(remote);
    TraceStarts(server, fates, limit);
    while |nodes| < limit
      invariant attempts == |asked| && IsWalk(server, fates, limit, asked) && OnWay(server, fates, asked)
      invariant nodes == Got(server, fates, asked) && cursor == CursorAfter(server, fates, asked)
      invariant pageLimit == CapAfter(fates, asked)
      invariant Shrunk(pageLimit, shrinks)
      invariant attempts <= Min(|nodes|, limit) + shrinks
      invariant Serves(server, remote) ==> |nodes| <= limit && Walked(remote, nodes, cursor)
      decreases limit - |nodes|, pageLimit
    {
      var pageSize := Min(limit - |nodes|, pageLimit);
      var fate := fates(attempts, pageSize);
      attempts := attempts + 1;
      ghost var before, request := asked, Request(cursor, pageSize);
      WalkOneMore(server, fates, limit, asked, request);
      TraceOneMore(server, fates, asked, request);
      asked := asked + [request];
      LastRequest(server, fates, limit, before, request);
      if fate != Answer {
        if pageSize == 1 || fate == OtherFailure {
          FailureIsHopeless(fates, attempts - 1, pageSize);
          return Raised(RequestFailed), attempts, shrinks, asked;
        }
        pageLimit := pageSize / 2;
        shrinks := shrinks + 1;
        continue;
      }
      var connection := server(cursor, pageSize);
      if connection.Malformed? {
        return Raised(MalformedPage), attempts, shrinks, asked;
      }
      var ok := CheckNodes(connection.nodes);
      if Serves(server, remote) {
        assert connection == PageOf(remote, cursor, pageSize);
        WalkStep(remote, nodes, cursor, pageSize, limit);
      }
      if !ok {
        return Raised(IncompleteNode), attempts, shrinks, asked;
      }
      nodes := nodes + connection.nodes;
      if !connection.hasNext {
        return Nodes(nodes[..Min(limit, |nodes|)]), attempts, shrinks, asked;
      }
      if connection.endCursor == None || connection.endCursor == cursor || connection.nodes == [] {
        return Raised(NotAdvancing), attempts, shrinks, asked;
      }
      cursor := connection.endCursor;
    }
    EndsAtLimit(server, fates, limit, asked);
    result := Nodes(nodes[..Min(limit, |nodes|)]);
  }

  /**
    Asks for one row more than allowed, so that a full census is told from a cut one: what it
    returns is the whole remote, and a remote above the limit always raises.
   */
  method CompleteOpenNodes(server: Server, fates: Fates, limit: nat, ghost remote: seq<Node>)
    returns (result: Walk)
    ensures result.Nodes? ==> |result.nodes| <= limit
    ensures Serves(server, remote) && result.Nodes? ==> result.nodes == remote && AllComplete(remote)
    ensures Serves(server, remote) && |remote| > limit ==> result.Raised?
    ensures Serves(server, remote) && AllComplete(remote) && OnlySizeHurts(fates) ==>
              result == if |remote| <= limit then Nodes(remote) else Raised(TooManyOpen)
  {
    var attempts, shrinks;
    ghost var asked;
    result, attempts, shrinks, asked := FetchPrNodes(server, fates, limit + 1, remote);
    if result.Nodes? && |result.nodes| > limit {
      result := Raised(TooManyOpen);
    }
  }

  // ---------------------------------------------------------------------------------------
  // Batched detail reads that split on a timeout
  // ---------------------------------------------------------------------------------------

  predicate GoodDetail(remote: map<int, Node>, number: int) {
    number in remote && remote[number].complete && remote[number].number == number
  }

  predicate GoodBatch(remote: map<int, Node>, numbers: seq<int>) {
    forall i :: 0 <= i < |numbers| ==> GoodDetail(remote, numbers[i])
  }

  /** The details one query over all the numbers would return, in order. */
  function Details(remote: map<int, Node>, numbers: seq<int>): (nodes: seq<Node>)
    requires GoodBatch(remote, numbers)
  {
    seq(|numbers|, i requires 0 <= i < |numbers| => remote[numbers[i]])
  }

  /** Reads a batch with request number `at`; answers also with the next free request number. */
  function FetchDetailChunk(remote: map<int, Node>, fates: Fates, at: nat, chunk: seq<int>): (Walk, nat)
    requires chunk != []
    decreases |chunk|
  {
    match fates(at, |chunk|)
    case OtherFailure => (Raised(RequestFailed), at + 1)
    case GatewayTimeout =>
      if |chunk| == 1 then (Raised(RequestFailed), at + 1)
      else
        var half := |chunk| / 2;
        var (left, next) := FetchDetailChunk(remote, fates, at + 1, chunk[..half]);
        if left.Raised? then (left, next)
        else
          var (right, end) := FetchDetailChunk(remote, fates, next, chunk[half..]);
          if right.Raised? then (right, end) else (Nodes(left.nodes + right.nodes), end)
    case Answer =>
      (if GoodBatch(remote, chunk) then Nodes(Details(remote, chunk)) else Raised(IncompleteNode), at + 1)
  }

  /** The nodes one query would give, or an error that a smaller batch would meet too. */
  ghost predicate Faithful(remote: map<int, Node>, fates: Fates, chunk: seq<int>, result: Walk, end: nat) {
    match result
    case Nodes(nodes) => GoodBatch(remote, chunk) && nodes == Details(remote, chunk)
    case Raised(error) =>
      || (error == RequestFailed && end > 0 && Hopeless(fates, end - 1))
      || (error == IncompleteNode && !GoodBatch(remote, chunk))
  }

  /**
    Splitting changes neither the nodes nor their order, costs at most 2n - 1 requests for n
    numbers, and fails only where a single number fails too.
   */
  lemma {:induction false} DetailChunkIsOneQuery(remote: map<int, Node>, fates: Fates, at: nat, chunk: seq<int>)
    requires chunk != []
    ensures
      var (result, end) := FetchDetailChunk(remote, fates, at, chunk);
      at < end <= at + 2 * |chunk| - 1 && Faithful(remote, fates, chunk, result, end)
    decreases |chunk|
  {
    hide Hopeless, GoodBatch, Details;
    if fates(at, |chunk|).GatewayTimeout? && |chunk| > 1 {
      var half := |chunk| / 2;
      DetailChunkIsOneQuery(remote, fates, at + 1, chunk[..half]);
      assert chunk == chunk[..half] + chunk[half..];
      var (left, next) := FetchDetailChunk(remote, fates, at + 1, chunk[..half]);
      JoinBatches(remote, chunk[..half], chunk[half..]);
      if left.Nodes? {
        DetailChunkIsOneQuery(remote, fates, next, chunk[half..]);
      }
    } else if !fates(at, |chunk|).Answer? {
      FailureIsHopeless(fates, at, |chunk|);
    }
  }

  /** Only batches larger than `c` time out, and nothing else fails. */
  ghost predicate TimesOutAbove(fates: Fates, c: nat) {
    forall t: nat, size: nat :: fates(t, size) == if size > c then GatewayTimeout else Answer
  }

  /** At most two requests for every h numbers. */
  ghost predicate Costs(requests: int, h: int, n: int) {
    requests * h <= 2 * n
  }

  lemma TwoHalves(a: int, b: int, h: int, m: int, n: int)
    requires Costs(a, h, m) && Costs(b, h, n)
    ensures Costs(a + b, h, m + n)
  {
  }

  lemma OneHalf(a: int, h: int, m: int, n: int)
    requires Costs(a, h, m) && h <= n && 0 <= n
    ensures Costs(a + 1, h, m + n)
  {
  }

  lemma OneRequest(h: int, n: int)
    requires h <= n
    ensures Costs(2, h, n)
  {
  }

  /**
    A batch is asked for whole first, and split in halves: where batches of up to c numbers are
    answered, no answered piece is smaller than half of c, which bounds the requests.
   */
  lemma {:induction false} HalvingIsCheap(remote: map<int, Node>, fates: Fates, at: nat, chunk: seq<int>, c: nat,
                                          h: nat)
    requires chunk != [] && 1 <= h <= |chunk| && 2 * h <= c + 1 && TimesOutAbove(fates, c)
    ensures
      var end := FetchDetailChunk(remote, fates, at, chunk).1;
      (|chunk| <= c ==> end == at + 1) && Costs(end - at + 1, h, |chunk|)
    decreases |chunk|
  {
    hide Costs, GoodBatch, Details;
    assert fates(at, |chunk|) == if |chunk| > c then GatewayTimeout else Answer;
    OneRequest(h, |chunk|);
    if |chunk| > c {
      var half := |chunk| / 2;
      var (left, next) := FetchDetailChunk(remote, fates, at + 1, chunk[..half]);
      HalvingIsCheap(remote, fates, at + 1, chunk[..half], c, h);
      if left.Nodes? {
        HalvingIsCheap(remote, fates, next, chunk[half..], c, h);
        var end := FetchDetailChunk(remote, fates, next, chunk[half..]).1;
        TwoHalves(next - at, end - next + 1, h, half, |chunk| - half);
        assert next - at + (end - next + 1) == end - at + 1;
      } else {
        OneHalf(next - at, h, half, |chunk| - half);
      }
    }
  }

  lemma SubBatch(remote: map<int, Node>, chunk: seq<int>, from: nat, upto: nat)
    requires from <= upto <= |chunk|
    ensures GoodBatch(remote, chunk) ==> GoodBatch(remote, chunk[from..upto])
  {
  }

  lemma JoinBatches(remote: map<int, Node>, a: seq<int>, b: seq<int>)
    ensures GoodBatch(remote, a + b) <==> GoodBatch(remote, a) && GoodBatch(remote, b)
    ensures GoodBatch(remote, a) && GoodBatch(remote, b) ==>
              Details(remote, a + b) == Details(remote, a) + Details(remote, b)
  {
    if GoodBatch(remote, a + b) {
      assert (a + b)[..|a|] == a && (a + b)[|a|..] == b;
      SubBatch(remote, a + b, 0, |a|);
      SubBatch(remote, a + b, |a|, |a + b|);
    }
  }

  /** How many full or last batches some numbers make. */
  function Batches(n: nat): nat {
    (n + SCAN_PAGE_SIZE - 1) / SCAN_PAGE_SIZE
  }

  /** A batch starts at a multiple of the page size, or there is nothing left. */
  predicate AtBatch(start: nat, n: nat) {
    start % SCAN_PAGE_SIZE == 0 || start == n
  }

  lemma OneMoreBatch(start: nat, n: nat)
    requires AtBatch(start, n) && start < n
    ensures
      var upto := Min(start + SCAN_PAGE_SIZE, n);
      Batches(upto) == Batches(start) + 1 && AtBatch(upto, n)
  {
  }

  lemma EmptyBatch(remote: map<int, Node>)
    ensures GoodBatch(remote, []) && Details(remote, []) == []
  {
  }

  lemma NoBatches(n: nat)
    ensures Batches(0) == 0 && AtBatch(0, n)
  {
  }

  /** All batches of the sweep: the details of every number in order, or an error. */
  method FetchDetails(remote: map<int, Node>, fates: Fates, numbers: seq<int>) returns (result: Walk, requests: nat)
    ensures requests <= 2 * |numbers|
    ensures result.Nodes? ==> GoodBatch(remote, numbers) && result.nodes == Details(remote, numbers)
    ensures result == Raised(IncompleteNode) ==> !GoodBatch(remote, numbers)
    ensures result.Raised? && result.error != IncompleteNode ==> requests > 0 && Hopeless(fates, requests - 1)
    ensures OnlySizeHurts(fates) && GoodBatch(remote, numbers) ==> result.Nodes?
    ensures TimesOutAbove(fates, SCAN_PAGE_SIZE) && result.Nodes? ==> requests == Batches(|numbers|)
  {
    var nodes: seq<Node> := [];
    var start := 0;
    requests := 0;
    hide Batches, AtBatch, TimesOutAbove, Hopeless, GoodBatch, Details;
    NoBatches(|numbers|);
    EmptyBatch(remote);
    assert numbers[..0] == [];
    while start < |numbers|
      invariant start <= |numbers| && requests <= 2 * start
      invariant AtBatch(start, |numbers|)
      invariant TimesOutAbove(fates, SCAN_PAGE_SIZE) ==> requests == Batches(start)
      invariant GoodBatch(remote, numbers[..start]) && nodes == Details(remote, numbers[..start])
    {
      var upto := Min(start + SCAN_PAGE_SIZE, |numbers|);
      var chunk := numbers[start..upto];
      OneMoreBatch(start, |numbers|);
      DetailChunkIsOneQuery(remote, fates, requests, chunk);
      if TimesOutAbove(fates, SCAN_PAGE_SIZE) {
        HalvingIsCheap(remote, fates, requests, chunk, SCAN_PAGE_SIZE, 1);
      }
      var (part, next) := FetchDetailChunk(remote, fates, requests, chunk);
      requests := next;
      if part.Raised? {
        SubBatch(remote, numbers, start, upto);
        return part, requests;
      }
      JoinBatches(remote, numbers[..start], chunk);
      assert numbers[..upto] == numbers[..start] + chunk;
      nodes := nodes + part.nodes;
      start := upto;
    }
    assert numbers[..start] == numbers;
    result := Nodes(nodes);
  }
}
