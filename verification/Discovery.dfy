/**
  One sweep of the dashboard's pull-request discovery, bootstrap and incremental.

  The reads are inputs: the issue rows and comment rows changed since the window's start, the
  compact census of open pull requests, and one detail node per pull request asked for.
  Nothing ties them to each other here, so pull requests may open, close or change between
  the census and the detail reads.  Payload hashes are taken to be injective: a fingerprint is
  the row itself.
 */
module Discovery {
  import opened Shared

  datatype State = Open | Closed | Merged

  /** Metadata the census and the detail read have in common, the state included. */
  datatype Watch = Watch(state: State, fields: string)

  datatype Comment = Comment(id: string, updatedAt: int, body: string)

  /** Everything only the detail read shows. */
  datatype Rest = Rest(body: string, comments: seq<Comment>, commentsComplete: bool)

  datatype Node = Node(number: int, watch: Watch, rest: Rest)

  /**
    An open pull request in the cache: its last detail read, its retained comment edits, and the
    comments with an id that it shows; comments without one are shown as they were read.
   */
  datatype Entry = Entry(node: Node, edits: map<string, Comment>, shown: map<string, Comment>)

  datatype IssueRow = IssueRow(id: int, number: int, isPr: bool, payload: string)

  /** A REST comment row; `issue` is the number parsed from its issue URL, if it parses. */
  datatype CommentRow = CommentRow(id: int, issue: Option<int>, comment: Comment)

  datatype Cache = Cache(
    startedAt: int,
    openNodes: map<int, Entry>,
    watches: map<int, Watch>,
    candidates: map<int, string>,
    archive: map<int, Node>,
    issueRows: map<int, IssueRow>,
    commentRows: map<int, CommentRow>)

  datatype Reads = Reads(
    delta: seq<IssueRow>,
    commentDelta: seq<CommentRow>,
    census: map<int, Watch>,
    details: map<int, Node>)

  datatype Sweep = Sweep(nodes: map<int, Entry>, watches: map<int, Watch>, terminal: map<int, Node>)

  datatype Result<+T> = Ok(value: T) | Raised

  /** The advice computed for an open pull request; its content is not modelled. */
  type Judge = Entry -> string

  // ---------------------------------------------------------------------------------------
  // Which pull requests an incremental sweep reads again
  // ---------------------------------------------------------------------------------------

  /** The row was not consumed by the sweep that wrote the cache. */
  predicate FreshIssue(cache: Cache, row: IssueRow) {
    !(row.id in cache.issueRows && cache.issueRows[row.id] == row)
  }

  predicate FreshComment(cache: Cache, row: CommentRow) {
    !(row.id in cache.commentRows && cache.commentRows[row.id] == row)
  }

  function ChangedByDelta(cache: Cache, seen: Reads): set<int> {
    set row | row in seen.delta && row.isPr && FreshIssue(cache, row) :: row.number
  }

  function ChangedByCensus(cache: Cache, seen: Reads): set<int> {
    (set n | n in seen.census && !(n in cache.watches && cache.watches[n] == seen.census[n]))
    + (cache.openNodes.Keys - seen.census.Keys)
  }

  /** Numbers confirmed to be pull requests; an ordinary issue never gets in. */
  function Confirmed(cache: Cache, seen: Reads): set<int> {
    cache.openNodes.Keys + seen.census.Keys + cache.archive.Keys
    + ChangedByDelta(cache, seen) + ChangedByCensus(cache, seen)
  }

  predicate CommentCounts(cache: Cache, seen: Reads, row: CommentRow) {
    FreshComment(cache, row) && row.issue.Some? && row.issue.value in Confirmed(cache, seen)
  }

  function Changed(cache: Cache, seen: Reads): set<int> {
    ChangedByDelta(cache, seen) + ChangedByCensus(cache, seen)
    + (set row | row in seen.commentDelta && CommentCounts(cache, seen, row) :: row.issue.value)
  }

  ghost predicate HasFreshIssueRow(cache: Cache, seen: Reads, n: int) {
    exists row :: row in seen.delta && row.isPr && row.number == n && FreshIssue(cache, row)
  }

  ghost predicate HasFreshCommentRow(cache: Cache, seen: Reads, n: int) {
    exists row :: row in seen.commentDelta && row.issue == Some(n) && FreshComment(cache, row)
  }

  /**
    A pull request is read again exactly when a row of it is new, when the census shows it new or
    under another watch, when it is gone from the census, or when a comment row of a tracked or
    listed one is new.
   */
  lemma ChangedExactly(cache: Cache, seen: Reads, n: int)
    ensures n in Changed(cache, seen) <==>
            || HasFreshIssueRow(cache, seen, n)
            || (n in seen.census && (n !in cache.watches || cache.watches[n] != seen.census[n]))
            || (n in cache.openNodes && n !in seen.census)
            || (HasFreshCommentRow(cache, seen, n)
                && (n in cache.openNodes || n in seen.census || n in cache.archive))
  {
    assert n in ChangedByDelta(cache, seen) <==> HasFreshIssueRow(cache, seen, n);
    if row :| row in seen.commentDelta && row.issue == Some(n) && FreshComment(cache, row) {
      assert CommentCounts(cache, seen, row) <==> n in Confirmed(cache, seen);
    }
  }

  // ---------------------------------------------------------------------------------------
  // Retained comment edits
  // ---------------------------------------------------------------------------------------

  function LiveIds(comments: seq<Comment>): set<string> {
    set c | c in comments && c.id != "" :: c.id
  }

  /** A complete live history proves a deletion; a bounded window does not. */
  function Retained(prior: map<string, Comment>, rest: Rest): map<string, Comment> {
    if rest.commentsComplete then map id | id in prior && id in LiveIds(rest.comments) :: prior[id] else prior
  }

  /** Fresh comment rows of one pull request, in reading order. */
  function CommentsOf(cache: Cache, seen: Reads, rows: seq<CommentRow>, number: int): seq<Comment> {
    if rows == [] then []
    else
      var earlier := CommentsOf(cache, seen, rows[..|rows| - 1], number);
      var row := rows[|rows| - 1];
      if CommentCounts(cache, seen, row) && row.issue == Some(number) then earlier + [row.comment] else earlier
  }

  function AddEdits(edits: map<string, Comment>, comments: seq<Comment>): map<string, Comment> {
    if comments == [] then edits
    else
      var last := comments[|comments| - 1];
      AddEdits(edits, comments[..|comments| - 1])[last.id := last]
  }

  function PriorEdits(cache: Cache, number: int): map<string, Comment> {
    if number in cache.openNodes then cache.openNodes[number].edits else map[]
  }

  /** The edits an open pull request keeps after its detail read. */
  function EditsFor(cache: Cache, seen: Reads, node: Node): map<string, Comment> {
    AddEdits(Retained(PriorEdits(cache, node.number), node.rest),
             CommentsOf(cache, seen, seen.commentDelta, node.number))
  }

  /** The entry an open pull request gets from its detail read. */
  function Refreshed(cache: Cache, seen: Reads, node: Node): Entry {
    var edits := EditsFor(cache, seen, node);
    Entry(node, edits, PutOver(ById(node.rest.comments), edits))
  }

  /** The entry a bootstrap gives an open pull request. */
  function AsRead(node: Node): Entry {
    Entry(node, map[], ById(node.rest.comments))
  }

  lemma {:induction false} AddEditsAt(edits: map<string, Comment>, comments: seq<Comment>, id: string)
    ensures id in AddEdits(edits, comments) <==> id in edits || exists c :: c in comments && c.id == id
    ensures id in AddEdits(edits, comments) ==>
              var c := AddEdits(edits, comments)[id];
              || (c in comments && c.id == id)
              || (id in edits && c == edits[id] && forall d :: d in comments ==> d.id != id)
  {
    if comments != [] {
      var front, last := comments[..|comments| - 1], comments[|comments| - 1];
      AddEditsAt(edits, front, id);
      assert comments == front + [last];
    }
  }

  /** Row i is a fresh row of this pull request under the comment id, and no later row is. */
  ghost predicate LastBrings(cache: Cache, seen: Reads, rows: seq<CommentRow>, number: int, id: string, i: nat) {
    && i < |rows| && BringsAt(cache, seen, rows[i], number, id)
    && forall j :: i < j < |rows| ==> !BringsAt(cache, seen, rows[j], number, id)
  }

  predicate BringsAt(cache: Cache, seen: Reads, row: CommentRow, number: int, id: string) {
    CommentCounts(cache, seen, row) && row.issue == Some(number) && row.comment.id == id
  }

  lemma BringsOneMore(cache: Cache, seen: Reads, front: seq<CommentRow>, last: CommentRow, number: int, id: string,
                      i: nat)
    ensures LastBrings(cache, seen, front, number, id, i) && !BringsAt(cache, seen, last, number, id) ==>
              LastBrings(cache, seen, front + [last], number, id, i) && (front + [last])[i] == front[i]
    ensures BringsAt(cache, seen, last, number, id) ==> LastBrings(cache, seen, front + [last], number, id, |front|)
    ensures SomeBrings(cache, seen, front + [last], number, id) <==>
            SomeBrings(cache, seen, front, number, id) || BringsAt(cache, seen, last, number, id)
  {
    hide BringsAt;
    assert forall row :: row in front + [last] <==> row in front || row == last;
  }

  ghost predicate SomeBrings(cache: Cache, seen: Reads, rows: seq<CommentRow>, number: int, id: string) {
    exists row :: row in rows && BringsAt(cache, seen, row, number, id)
  }

  lemma EditsOneMore(cache: Cache, seen: Reads, front: seq<CommentRow>, last: CommentRow, number: int,
                     base: map<string, Comment>)
    ensures
      var earlier := AddEdits(base, CommentsOf(cache, seen, front, number));
      AddEdits(base, CommentsOf(cache, seen, front + [last], number)) ==
        if BringsAt(cache, seen, last, number, last.comment.id) then earlier[last.comment.id := last.comment]
        else earlier
  {
    hide CommentCounts;
    assert (front + [last])[..|front|] == front;
    var comments := CommentsOf(cache, seen, front, number);
    assert (comments + [last.comment])[..|comments|] == comments;
  }

  lemma {:induction false} EditIsLastBrought(cache: Cache, seen: Reads, rows: seq<CommentRow>, number: int,
                                             base: map<string, Comment>, id: string) returns (i: nat)
    ensures
      var edits := AddEdits(base, CommentsOf(cache, seen, rows, number));
      if SomeBrings(cache, seen, rows, number, id) then
        LastBrings(cache, seen, rows, number, id, i) && id in edits && edits[id] == rows[i].comment
      else (id in edits <==> id in base) && (id in base ==> edits[id] == base[id])
  {
    i := 0;
    if rows != [] {
      var front, last := rows[..|rows| - 1], rows[|rows| - 1];
      i := EditIsLastBrought(cache, seen, front, number, base, id);
      assert rows == front + [last];
      EditsOneMore(cache, seen, front, last, number, base);
      BringsOneMore(cache, seen, front, last, number, id, i);
      hide LastBrings, SomeBrings, AddEdits, CommentsOf, CommentCounts;
      if BringsAt(cache, seen, last, number, id) {
        i := |front|;
      }
    }
  }

  /**
    A retained edit stays with its pull request until a complete live history proves the comment
    deleted, or a newly read row of that comment takes its place; and every new row is retained,
    the last one read under an id.
   */
  lemma EditsStayUntilDeleted(cache: Cache, seen: Reads, node: Node, id: string) returns (i: nat)
    ensures
      var n, edits := node.number, EditsFor(cache, seen, node);
      var live := exists c :: c in node.rest.comments && c.id == id && id != "";
      var kept := n in cache.openNodes && id in cache.openNodes[n].edits && (!node.rest.commentsComplete || live);
      var brought := SomeBrings(cache, seen, seen.commentDelta, n, id);
      && (id in edits <==> kept || brought)
      && (kept && !brought ==> edits[id] == cache.openNodes[n].edits[id])
      && (brought ==> LastBrings(cache, seen, seen.commentDelta, n, id, i) && edits[id] == seen.commentDelta[i].comment)
  {
    hide CommentCounts;
    var base := Retained(PriorEdits(cache, node.number), node.rest);
    i := EditIsLastBrought(cache, seen, seen.commentDelta, node.number, base, id);
  }

  // ---------------------------------------------------------------------------------------
  // The comments a pull request shows
  // ---------------------------------------------------------------------------------------

  /** Live comments by id, a later one of the same id replacing an earlier; those without id left out. */
  function ById(live: seq<Comment>): map<string, Comment> {
    if live == [] then map[]
    else
      var front, last := ById(live[..|live| - 1]), live[|live| - 1];
      if last.id != "" then front[last.id := last] else front
  }

  /** What is shown under an id: the edit when it is newer than what is live, or nothing is. */
  function ShownAt(live: map<string, Comment>, edits: map<string, Comment>, id: string): Comment
    requires id in live || id in edits
  {
    if id in live && (id !in edits || edits[id].updatedAt <= live[id].updatedAt) then live[id] else edits[id]
  }

  function PutOver(live: map<string, Comment>, edits: map<string, Comment>): map<string, Comment> {
    map id | id in live.Keys + edits.Keys :: ShownAt(live, edits, id)
  }

  method IndexComments(live: seq<Comment>) returns (byId: map<string, Comment>, unnamed: seq<Comment>)
    ensures byId == ById(live) && byId.Keys == LiveIds(live)
    ensures forall id :: id in byId ==> byId[id] in live && byId[id].id == id
    ensures forall c :: c in unnamed <==> c in live && c.id == ""
  {
    byId, unnamed := map[], [];
    for i := 0 to |live|
      invariant byId == ById(live[..i]) && byId.Keys == LiveIds(live[..i])
      invariant forall id :: id in byId ==> byId[id] in live && byId[id].id == id
      invariant forall c :: c in unnamed <==> c in live[..i] && c.id == ""
    {
      assert live[..i + 1] == live[..i] + [live[i]];
      if live[i].id != "" {
        byId := byId[live[i].id := live[i]];
      } else {
        unnamed := unnamed + [live[i]];
      }
    }
    assert live[..|live|] == live;
  }

  /** What is shown so far, with the edits in `pending` still to come. */
  ghost predicate MergedSoFar(live: map<string, Comment>, edits: map<string, Comment>, pending: set<string>,
                              existing: map<string, Comment>)
  {
    && (forall id :: id in existing <==> id in live || (id in edits && id !in pending))
    && (forall id :: id in existing ==>
          existing[id] == if id in edits && id !in pending then ShownAt(live, edits, id) else live[id])
  }

  lemma AllMerged(live: map<string, Comment>, edits: map<string, Comment>, existing: map<string, Comment>)
    requires MergedSoFar(live, edits, {}, existing)
    ensures existing == PutOver(live, edits)
  {
  }

  /** Puts retained edits over the live comments, in any order of the edits. */
  method MergeChangedComments(live: map<string, Comment>, edits: map<string, Comment>)
    returns (merged: Result<map<string, Comment>>)
    ensures merged.Ok? <==> "" !in edits
    ensures merged.Ok? ==> merged.value == PutOver(live, edits)
  {
    var existing, pending := live, edits.Keys;
    while pending != {}
      invariant pending <= edits.Keys && ("" in edits ==> "" in pending)
      invariant MergedSoFar(live, edits, pending, existing)
      decreases |pending|
    {
      var id := Pick(pending);
      if id == "" {
        return Raised;
      }
      if !(id in existing && edits[id].updatedAt <= existing[id].updatedAt) {
        existing := existing[id := edits[id]];
      }
      pending := pending - {id};
    }
    AllMerged(live, edits, existing);
    merged := Ok(existing);
  }

  /** The entry shows its live comments with its retained edits put over them. */
  predicate ShowsMerged(e: Entry) {
    e.shown == PutOver(ById(e.node.rest.comments), e.edits)
  }

  /**
    Under each id the newest of the live comment and the retained edit is shown, the live one on
    a tie; an id is shown exactly when it is live or edited, and nothing else is made up.
   */
  ghost predicate ShowsNewest(e: Entry, id: string) {
    var live := ById(e.node.rest.comments);
    && (id in live <==> exists c :: c in e.node.rest.comments && c.id == id && id != "")
    && (id in live ==> IsLastOf(e.node.rest.comments, id, live[id]))
    && (id in e.shown <==> id in live || id in e.edits)
    && (id in live ==> live[id].updatedAt <= e.shown[id].updatedAt)
    && (id in e.edits ==> e.edits[id].updatedAt <= e.shown[id].updatedAt)
    && (id in e.shown && !(id in live && e.shown[id] == live[id]) ==>
          id in e.edits && e.shown[id] == e.edits[id] && (id in live ==> live[id].updatedAt < e.shown[id].updatedAt))
  }

  /** The comment is the last of this id in the history. */
  ghost predicate IsLastOf(live: seq<Comment>, id: string, c: Comment) {
    exists i :: 0 <= i < |live| && live[i] == c && c.id == id && forall j :: i < j < |live| ==> live[j].id != id
  }

  lemma LastOfMore(front: seq<Comment>, last: Comment, id: string, c: Comment)
    ensures IsLastOf(front, id, c) && last.id != id ==> IsLastOf(front + [last], id, c)
    ensures last.id == id ==> IsLastOf(front + [last], id, last)
  {
    var live := front + [last];
    if last.id == id {
      assert live[|front|] == last;
    } else if IsLastOf(front, id, c) {
      var i :| 0 <= i < |front| && front[i] == c && c.id == id && forall j :: i < j < |front| ==> front[j].id != id;
      assert live[i] == c && forall j :: i < j < |live| ==> live[j].id != id;
    }
  }

  lemma {:induction false} ByIdAt(live: seq<Comment>, id: string)
    ensures id in ById(live) <==> exists c :: c in live && c.id == id && id != ""
    ensures id in ById(live) ==> IsLastOf(live, id, ById(live)[id])
  {
    if live != [] {
      var front, last := live[..|live| - 1], live[|live| - 1];
      ByIdAt(front, id);
      assert live == front + [last];
      hide IsLastOf;
      LastOfMore(front, last, id, if id in ById(front) then ById(front)[id] else last);
    }
  }

  lemma MergedShowsNewest(e: Entry, id: string)
    requires ShowsMerged(e)
    ensures ShowsNewest(e, id)
  {
    ByIdAt(e.node.rest.comments, id);
  }

  lemma UnnamedIsAdded(edits: map<string, Comment>, comments: seq<Comment>, i: nat)
    requires i < |comments| && comments[i].id == ""
    ensures "" in AddEdits(edits, comments)
  {
    AddEditsAt(edits, comments, "");
  }

  /** The entry of an open pull request, or an error when an edit has no id. */
  method RefreshEntry(cache: Cache, seen: Reads, node: Node) returns (entry: Result<Entry>)
    ensures entry.Ok? <==> "" !in EditsFor(cache, seen, node)
    ensures entry.Ok? ==> entry.value == Refreshed(cache, seen, node)
  {
    hide PutOver, ById, CommentsOf, Retained, PriorEdits;
    var retained := Retained(PriorEdits(cache, node.number), node.rest);
    var comments := CommentsOf(cache, seen, seen.commentDelta, node.number);
    var edits := retained;
    for i := 0 to |comments|
      invariant edits == AddEdits(retained, comments[..i])
    {
      assert comments[..i + 1][..i] == comments[..i];
      if comments[i].id == "" {
        UnnamedIsAdded(retained, comments, i);
        return Raised;
      }
      edits := edits[comments[i].id := comments[i]];
    }
    assert comments[..|comments|] == comments;
    var live, unnamed := IndexComments(node.rest.comments);
    var shown := MergeChangedComments(live, edits);
    entry := if shown.Raised? then Raised else Ok(Entry(node, edits, shown.value));
  }

  // ---------------------------------------------------------------------------------------
  // The incremental sweep
  // ---------------------------------------------------------------------------------------

  /** The detail read came back for the number asked, and an open one keeps no unnamed edit. */
  predicate DetailAnswers(cache: Cache, seen: Reads, n: int) {
    && n in seen.details && seen.details[n].number == n
    && (seen.details[n].watch.state.Open? ==> "" !in EditsFor(cache, seen, seen.details[n]))
  }

  ghost predicate AllAnswer(cache: Cache, seen: Reads, changed: set<int>) {
    forall n :: n in changed ==> DetailAnswers(cache, seen, n)
  }

  predicate FoundOpen(seen: Reads, n: int) {
    n in seen.details && seen.details[n].watch.state.Open?
  }

  /** What re-reading the pull requests in `changed` must produce, one by one. */
  ghost predicate IsSweep(cache: Cache, seen: Reads, changed: set<int>, sweep: Sweep) {
    && (forall n :: n in sweep.nodes <==> if n in changed then FoundOpen(seen, n) else n in cache.openNodes)
    && (forall n :: n in sweep.nodes ==>
          sweep.nodes[n] == if n in changed then Refreshed(cache, seen, seen.details[n]) else cache.openNodes[n])
    && (forall n :: n in sweep.watches <==> if n in changed then FoundOpen(seen, n) else n in seen.census)
    && (forall n :: n in sweep.watches ==>
          sweep.watches[n] == if n in changed then seen.details[n].watch else seen.census[n])
    && (forall n :: n in sweep.terminal <==> n in changed && n in seen.details && !FoundOpen(seen, n))
    && (forall n :: n in sweep.terminal ==> sweep.terminal[n] == seen.details[n])
  }

  /** Takes one detail read into the sweep so far. */
  function TakeDetail(cache: Cache, seen: Reads, sweep: Sweep, n: int): Sweep
    requires n in seen.details
  {
    var node := seen.details[n];
    if node.watch.state.Open? then
      Sweep(sweep.nodes[n := Refreshed(cache, seen, node)], sweep.watches[n := node.watch], sweep.terminal)
    else
      Sweep(sweep.nodes - {n}, sweep.watches - {n}, sweep.terminal[n := node])
  }

  lemma TakeDetailExtends(cache: Cache, seen: Reads, done: set<int>, sweep: Sweep, n: int)
    requires IsSweep(cache, seen, done, sweep) && n !in done && n in seen.details
    ensures IsSweep(cache, seen, done + {n}, TakeDetail(cache, seen, sweep, n))
  {
    hide Refreshed;
  }

  /** Reads every pull request in `changed` again and sorts it into open or terminal. */
  method ReadChanged(cache: Cache, seen: Reads, changed: set<int>) returns (result: Result<Sweep>)
    ensures result.Ok? <==> AllAnswer(cache, seen, changed)
    ensures result.Ok? ==> IsSweep(cache, seen, changed, result.value)
  {
    var sweep := Sweep(cache.openNodes, seen.census, map[]);
    var pending := changed;
    while pending != {}
      invariant pending <= changed
      invariant AllAnswer(cache, seen, changed - pending)
      invariant IsSweep(cache, seen, changed - pending, sweep)
      decreases |pending|
    {
      var n := Pick(pending);
      if n !in seen.details || seen.details[n].number != n {
        return Raised;
      }
      TakeDetailExtends(cache, seen, changed - pending, sweep, n);
      assert changed - (pending - {n}) == changed - pending + {n};
      var node := seen.details[n];
      if node.watch.state.Open? {
        var entry := RefreshEntry(cache, seen, node);
        if entry.Raised? {
          return Raised;
        }
        sweep := Sweep(sweep.nodes[n := entry.value], sweep.watches[n := node.watch], sweep.terminal);
      } else {
        sweep := Sweep(sweep.nodes - {n}, sweep.watches - {n}, sweep.terminal[n := node]);
      }
      pending := pending - {n};
    }
    assert changed - pending == changed;
    result := Ok(sweep);
  }

  method DiscoverIncremental(cache: Cache, seen: Reads) returns (result: Result<Sweep>)
    ensures result.Ok? <==> AllAnswer(cache, seen, Changed(cache, seen))
    ensures result.Ok? ==> IsSweep(cache, seen, Changed(cache, seen), result.value)
  {
    result := ReadChanged(cache, seen, Changed(cache, seen));
  }

  // ---------------------------------------------------------------------------------------
  // Publishing: the cache written at the end of a sweep
  // ---------------------------------------------------------------------------------------

  function IssueRows(rows: seq<IssueRow>): map<int, IssueRow> {
    if rows == [] then map[]
    else IssueRows(rows[..|rows| - 1])[rows[|rows| - 1].id := rows[|rows| - 1]]
  }

  function CommentRows(rows: seq<CommentRow>): map<int, CommentRow> {
    if rows == [] then map[]
    else CommentRows(rows[..|rows| - 1])[rows[|rows| - 1].id := rows[|rows| - 1]]
  }

  /** The checkpoint: candidates for all open nodes, terminal rows archived, open ones taken out. */
  function Checkpoint(startedAt: int, archive: map<int, Node>, sweep: Sweep, judge: Judge,
                      issueRows: map<int, IssueRow>, commentRows: map<int, CommentRow>): Cache
  {
    var candidates := map n | n in sweep.nodes :: judge(sweep.nodes[n]);
    Cache(startedAt, sweep.nodes, sweep.watches, candidates,
          (archive + sweep.terminal) - candidates.Keys, issueRows, commentRows)
  }

  function PublishIncremental(startedAt: int, cache: Cache, seen: Reads, sweep: Sweep, judge: Judge): Cache {
    Checkpoint(startedAt, cache.archive, sweep, judge, IssueRows(seen.delta), CommentRows(seen.commentDelta))
  }

  /** A bootstrap takes all open nodes and a bounded list of terminal ones from the remote. */
  function PublishBootstrap(startedAt: int, archive: map<int, Node>, open: map<int, Node>,
                            terminal: map<int, Node>, judge: Judge): Cache
  {
    var sweep := Sweep(map n | n in open :: AsRead(open[n]), map n | n in open :: open[n].watch, terminal);
    Checkpoint(startedAt, archive, sweep, judge, map[], map[])
  }

  /** The checks of the cache reader on the parts modelled here. */
  predicate ReaderAccepts(cache: Cache) {
    && cache.openNodes.Keys == cache.watches.Keys
    && cache.openNodes.Keys == cache.candidates.Keys
    && (forall n :: n in cache.archive ==> !cache.archive[n].watch.state.Open?)
    && (forall n :: n in cache.openNodes ==>
          cache.openNodes[n].node.number == n && cache.openNodes[n].node.watch.state.Open?)
  }

  /** What every published cache satisfies, beyond what its reader checks. */
  ghost predicate Valid(cache: Cache) {
    && ReaderAccepts(cache)
    && cache.openNodes.Keys !! cache.archive.Keys
    && (forall n :: n in cache.openNodes ==> cache.watches[n] == cache.openNodes[n].node.watch)
    && (forall n :: n in cache.openNodes ==> ShowsMerged(cache.openNodes[n]))
  }

  function Tracked(cache: Cache): set<int> {
    cache.openNodes.Keys + cache.archive.Keys
  }

  /** Outside `changed`, the census shows the cached open pull requests and their cached watches. */
  ghost predicate CensusAgrees(cache: Cache, seen: Reads, changed: set<int>) {
    forall n :: n !in changed ==>
      && (n in cache.openNodes <==> n in seen.census)
      && (n in seen.census ==> n in cache.watches && cache.watches[n] == seen.census[n])
  }

  lemma ChangedCoversCensus(cache: Cache, seen: Reads)
    requires cache.openNodes.Keys == cache.watches.Keys
    ensures CensusAgrees(cache, seen, Changed(cache, seen))
  {
    forall n | n !in Changed(cache, seen)
      ensures n in cache.openNodes <==> n in seen.census
      ensures n in seen.census ==> n in cache.watches && cache.watches[n] == seen.census[n]
    {
      assert n !in ChangedByCensus(cache, seen);
    }
  }

  /** A sweep whose nodes and watches belong together and show open pull requests. */
  ghost predicate Coherent(sweep: Sweep) {
    && (forall n :: n in sweep.nodes <==> n in sweep.watches)
    && (forall n :: n in sweep.nodes ==> CoherentEntry(n, sweep.nodes[n], sweep.watches[n]))
    && (forall n :: n in sweep.terminal ==> !sweep.terminal[n].watch.state.Open?)
  }

  predicate CoherentEntry(n: int, entry: Entry, watch: Watch) {
    entry.node.number == n && entry.node.watch.state.Open? && entry.node.watch == watch && ShowsMerged(entry)
  }

  lemma CheckpointIsValid(startedAt: int, archive: map<int, Node>, sweep: Sweep, judge: Judge,
                          issueRows: map<int, IssueRow>, commentRows: map<int, CommentRow>)
    requires Coherent(sweep)
    requires forall n :: n in archive ==> !archive[n].watch.state.Open?
    ensures
      var cache := Checkpoint(startedAt, archive, sweep, judge, issueRows, commentRows);
      Valid(cache) && Tracked(cache) == archive.Keys + sweep.nodes.Keys + sweep.terminal.Keys
  {
    assert sweep.nodes.Keys == sweep.watches.Keys by {
      assert forall n :: n in sweep.nodes.Keys <==> n in sweep.watches.Keys;
    }
  }

  lemma SweepIsCoherent(cache: Cache, seen: Reads, changed: set<int>, sweep: Sweep)
    requires Valid(cache) && CensusAgrees(cache, seen, changed)
    requires AllAnswer(cache, seen, changed) && IsSweep(cache, seen, changed, sweep)
    ensures Coherent(sweep)
  {
    forall n | n in sweep.nodes
      ensures n in sweep.watches && CoherentEntry(n, sweep.nodes[n], sweep.watches[n])
    {
      if n in changed {
        assert DetailAnswers(cache, seen, n);
      }
    }
  }

  lemma SweepTracks(cache: Cache, seen: Reads, changed: set<int>, sweep: Sweep)
    requires AllAnswer(cache, seen, changed) && IsSweep(cache, seen, changed, sweep)
    ensures cache.archive.Keys + sweep.nodes.Keys + sweep.terminal.Keys == Tracked(cache) + changed
  {
    forall n
      ensures n in cache.archive.Keys + sweep.nodes.Keys + sweep.terminal.Keys <==> n in Tracked(cache) + changed
    {
      if n in changed {
        assert DetailAnswers(cache, seen, n);
      }
    }
  }

  /** The entry keeps, under the id of a comment, a fresh row's comment, and shows nothing older. */
  ghost predicate Applied(cache: Cache, seen: Reads, e: Entry, n: int, id: string) {
    && id in e.edits && id in e.shown && e.edits[id].updatedAt <= e.shown[id].updatedAt
    && exists row :: row in seen.commentDelta && row.issue == Some(n) && FreshComment(cache, row)
                     && row.comment == e.edits[id] && row.comment.id == id
  }

  /** A comment row not consumed before reaches its pull request, if the sweep leaves that open. */
  lemma FreshCommentIsApplied(startedAt: int, cache: Cache, seen: Reads, sweep: Sweep, judge: Judge, row: CommentRow,
                              n: int)
    requires AllAnswer(cache, seen, Changed(cache, seen)) && IsSweep(cache, seen, Changed(cache, seen), sweep)
    requires row in seen.commentDelta && row.issue == Some(n)
    requires !(row.id in cache.commentRows && cache.commentRows[row.id] == row)
    ensures
      var after := PublishIncremental(startedAt, cache, seen, sweep, judge);
      n in after.openNodes ==> Applied(cache, seen, after.openNodes[n], n, row.comment.id)
  {
    if n in sweep.nodes {
      FreshCommentIsReadFor(cache, seen, sweep, row, n);
      assert DetailAnswers(cache, seen, n);
      var node, id := seen.details[n], row.comment.id;
      assert sweep.nodes[n] == Refreshed(cache, seen, node);
      assert BringsAt(cache, seen, row, n, id);
      var i := EditsStayUntilDeleted(cache, seen, node, id);
      assert seen.commentDelta[i] in seen.commentDelta;
      MergedShowsNewest(Refreshed(cache, seen, node), id);
    }
  }

  lemma FreshCommentIsReadFor(cache: Cache, seen: Reads, sweep: Sweep, row: CommentRow, n: int)
    requires IsSweep(cache, seen, Changed(cache, seen), sweep) && n in sweep.nodes
    requires row in seen.commentDelta && row.issue == Some(n) && FreshComment(cache, row)
    ensures n in Changed(cache, seen) && CommentCounts(cache, seen, row)
  {
    ChangedExactly(cache, seen, n);
    assert HasFreshCommentRow(cache, seen, n);
  }

  lemma {:induction false} CommentRowsExactly(rows: seq<CommentRow>, id: int)
    ensures id in CommentRows(rows) <==> exists row :: row in rows && row.id == id
    ensures id in CommentRows(rows) ==> CommentRows(rows)[id] in rows && CommentRows(rows)[id].id == id
  {
    if rows != [] {
      CommentRowsExactly(rows[..|rows| - 1], id);
      assert rows == rows[..|rows| - 1] + [rows[|rows| - 1]];
    }
  }

  lemma {:induction false} IssueRowsExactly(rows: seq<IssueRow>, id: int)
    ensures id in IssueRows(rows) <==> exists row :: row in rows && row.id == id
    ensures id in IssueRows(rows) ==> IssueRows(rows)[id] in rows && IssueRows(rows)[id].id == id
  {
    if rows != [] {
      IssueRowsExactly(rows[..|rows| - 1], id);
      assert rows == rows[..|rows| - 1] + [rows[|rows| - 1]];
    }
  }

  ghost predicate DistinctRows(seen: Reads) {
    && (forall a, b :: a in seen.delta && b in seen.delta && a.id == b.id ==> a == b)
    && (forall a, b :: a in seen.commentDelta && b in seen.commentDelta && a.id == b.id ==> a == b)
  }

  /** A sweep records every row it read and no other, so reading the same rows and watches again reads nothing anew. */
  lemma SameRowsReadNothing(startedAt: int, cache: Cache, seen: Reads, sweep: Sweep, judge: Judge, again: Reads)
    requires Coherent(sweep) && DistinctRows(seen)
    requires (forall row :: row in again.delta ==> row in seen.delta)
    requires (forall row :: row in again.commentDelta ==> row in seen.commentDelta)
    requires again.census == sweep.watches
    ensures
      var after := PublishIncremental(startedAt, cache, seen, sweep, judge);
      && Changed(after, again) == {}
      && (forall id :: id in after.issueRows <==> exists row :: row in seen.delta && row.id == id)
      && (forall id :: id in after.commentRows <==> exists row :: row in seen.commentDelta && row.id == id)
  {
    var after := PublishIncremental(startedAt, cache, seen, sweep, judge);
    forall id
      ensures id in after.issueRows <==> exists row :: row in seen.delta && row.id == id
      ensures id in after.issueRows ==> after.issueRows[id] in seen.delta && after.issueRows[id].id == id
      ensures id in after.commentRows <==> exists row :: row in seen.commentDelta && row.id == id
      ensures id in after.commentRows ==> after.commentRows[id] in seen.commentDelta && after.commentRows[id].id == id
    {
      IssueRowsExactly(seen.delta, id);
      CommentRowsExactly(seen.commentDelta, id);
    }
    forall n
      ensures n !in Changed(after, again)
    {
      ChangedExactly(after, again, n);
      hide Changed;
    }
  }

  /** The archive shows a pull request as it was last read, and the candidates are judged on the nodes stored. */
  lemma CheckpointIsLatest(startedAt: int, cache: Cache, seen: Reads, sweep: Sweep, judge: Judge, n: int)
    requires Valid(cache) && AllAnswer(cache, seen, Changed(cache, seen))
    requires IsSweep(cache, seen, Changed(cache, seen), sweep)
    ensures
      var after := PublishIncremental(startedAt, cache, seen, sweep, judge);
      && after.startedAt == startedAt
      && (n in after.archive ==>
            if n in Changed(cache, seen) then n in seen.details && after.archive[n] == seen.details[n]
            else n in cache.archive && after.archive[n] == cache.archive[n])
      && (n in after.openNodes ==> n in after.candidates && after.candidates[n] == judge(after.openNodes[n]))
  {
    if n in Changed(cache, seen) {
      assert DetailAnswers(cache, seen, n);
    }
  }

  /**
    Whatever opened or closed between the census and the detail reads, the new cache is one
    its reader accepts, and the pull requests it tracks are the old ones and the changed ones,
    each in exactly one of the open nodes and the archive.
   */
  lemma IncrementalKeepsValid(startedAt: int, cache: Cache, seen: Reads, sweep: Sweep, judge: Judge)
    requires Valid(cache)
    requires AllAnswer(cache, seen, Changed(cache, seen)) && IsSweep(cache, seen, Changed(cache, seen), sweep)
    ensures
      var after := PublishIncremental(startedAt, cache, seen, sweep, judge);
      Valid(after) && Tracked(after) == Tracked(cache) + Changed(cache, seen)
  {
    ChangedCoversCensus(cache, seen);
    SweepIsCoherent(cache, seen, Changed(cache, seen), sweep);
    CheckpointIsValid(startedAt, cache.archive, sweep, judge, IssueRows(seen.delta), CommentRows(seen.commentDelta));
    SweepTracks(cache, seen, Changed(cache, seen), sweep);
  }

  lemma AsReadShowsMerged(node: Node)
    ensures ShowsMerged(AsRead(node))
  {
    var live := ById(node.rest.comments);
    assert PutOver(live, map[]) == live;
  }

  /** Open nodes are open and under their own number; archived and terminal ones are not open. */
  ghost predicate FiledByState(archive: map<int, Node>, open: map<int, Node>, terminal: map<int, Node>) {
    && (forall n :: n in open ==> open[n].number == n && open[n].watch.state.Open?)
    && (forall n :: n in archive ==> !archive[n].watch.state.Open?)
    && (forall n :: n in terminal ==> !terminal[n].watch.state.Open?)
  }

  /** A bootstrap stores what it read, a terminal row in place of an archived one, and records no fingerprint. */
  lemma BootstrapIsLatest(startedAt: int, archive: map<int, Node>, open: map<int, Node>, terminal: map<int, Node>,
                          judge: Judge, n: int)
    ensures
      var cache := PublishBootstrap(startedAt, archive, open, terminal, judge);
      && cache.startedAt == startedAt && cache.issueRows == map[] && cache.commentRows == map[]
      && (n in cache.openNodes <==> n in open)
      && (n in open ==>
            && cache.openNodes[n] == Entry(open[n], map[], ById(open[n].rest.comments))
            && cache.watches[n] == open[n].watch)
      && (n in cache.archive ==>
            if n in terminal then cache.archive[n] == terminal[n] else n in archive && cache.archive[n] == archive[n])
  {
  }

  /** A bootstrap also gives a valid cache; it drops exactly what it neither reads nor had archived. */
  lemma BootstrapIsValid(startedAt: int, archive: map<int, Node>, open: map<int, Node>, terminal: map<int, Node>,
                         judge: Judge)
    requires FiledByState(archive, open, terminal)
    ensures
      var cache := PublishBootstrap(startedAt, archive, open, terminal, judge);
      Valid(cache) && Tracked(cache) == archive.Keys + open.Keys + terminal.Keys
  {
    var sweep := Sweep(map n | n in open :: AsRead(open[n]), map n | n in open :: open[n].watch, terminal);
    forall n | n in open
      ensures ShowsMerged(AsRead(open[n]))
    {
      AsReadShowsMerged(open[n]);
    }
    hide ShowsMerged, Valid;
    CheckpointIsValid(startedAt, archive, sweep, judge, map[], map[]);
    assert sweep.nodes.Keys == open.Keys;
  }
}
