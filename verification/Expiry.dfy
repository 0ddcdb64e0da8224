/**
  The requested-changes clock: blocked, then warned, then closed.

  Times are seconds.  The first part models the first-block index over a whole sorted log; the
  second part follows one head of one pull request through any sequence of steps.
 */
module Expiry {
  import opened Shared

  const DAY: int := 86400

  // ---------------------------------------------------------------------------------------
  // The first block per pull request and head
  // ---------------------------------------------------------------------------------------

  datatype Kind = ReviewBlocked | ChangesRequested | Blocked | OtherKind

  datatype Outcome = CiFailed | RequestsChanges | ReviewedRequestChanges | IsBlocked | OtherOutcome

  datatype HeadKey = HeadKey(pr: int, head: string)

  /** A log row; rows without a pull request or head carry no key.  `id` breaks ties in time. */
  datatype Row = Row(timestamp: int, id: nat, key: Option<HeadKey>, kind: Kind, outcome: Outcome)

  predicate IsBlock(r: Row) {
    !r.outcome.CiFailed? && (!r.kind.OtherKind? || !r.outcome.OtherOutcome?)
  }

  /** A failed CI run never blocks, whatever its type; else a blocking type or a blocking outcome is enough. */
  lemma BlocksExactly(r: Row)
    ensures r.outcome == CiFailed ==> !IsBlock(r)
    ensures r.outcome != CiFailed && r.kind in {ReviewBlocked, ChangesRequested, Blocked} ==> IsBlock(r)
    ensures r.outcome in {RequestsChanges, ReviewedRequestChanges, IsBlocked} ==> IsBlock(r)
    ensures r.kind == OtherKind && r.outcome == OtherOutcome ==> !IsBlock(r)
  {
  }

  predicate Blocks(r: Row, key: HeadKey) {
    r.key == Some(key) && IsBlock(r)
  }

  /** The order in which all events are read. */
  predicate InOrder(timestamp: int, id: nat, timestamp': int, id': nat) {
    timestamp < timestamp' || (timestamp == timestamp' && id <= id')
  }

  predicate Before(a: Row, b: Row) {
    InOrder(a.timestamp, a.id, b.timestamp, b.id)
  }

  ghost predicate Sorted(rows: seq<Row>) {
    forall i, j :: 0 <= i < j < |rows| ==> Before(rows[i], rows[j])
  }

  /** No row of the log that blocks this head comes before `first`, which is one of them. */
  ghost predicate IsFirstBlock(rows: seq<Row>, key: HeadKey, first: Row) {
    first in rows && Blocks(first, key) && forall r :: r in rows && Blocks(r, key) ==> Before(first, r)
  }

  method FirstBlockEvents(rows: seq<Row>) returns (first: map<HeadKey, Row>)
    requires Sorted(rows)
    ensures forall key :: key in first <==> exists r :: r in rows && Blocks(r, key)
    ensures forall key :: key in first ==> IsFirstBlock(rows, key, first[key])
  {
    first := map[];
    for i := 0 to |rows|
      invariant forall key :: key in first <==> exists r :: r in rows[..i] && Blocks(r, key)
      invariant forall key :: key in first ==> IsFirstBlock(rows[..i], key, first[key])
    {
      var row := rows[i];
      ghost var seen, more := rows[..i], rows[..i + 1];
      assert more == seen + [row];
      assert forall r :: r in seen ==> Before(r, row);
      assert Before(row, row);
      forall key
        ensures (exists r :: r in more && Blocks(r, key)) <==>
                Blocks(row, key) || exists r :: r in seen && Blocks(r, key)
      {
        assert row in more && forall r :: r in seen ==> r in more;
      }
      if row.key.Some? && IsBlock(row) && row.key.value !in first {
        first := first[row.key.value := row];
      }
    }
    assert rows[..|rows|] == rows;
  }

  /**
    Rows added to the log never postpone the anchor of a head; rows that come later leave it
    exactly where it is.
   */
  lemma AnchorNeverPostponed(rows: seq<Row>, more: seq<Row>, key: HeadKey, first: Row, first': Row)
    requires forall r :: r in rows ==> r in more
    requires IsFirstBlock(rows, key, first) && IsFirstBlock(more, key, first')
    ensures Before(first', first)
    ensures (forall r :: r in more && r !in rows && Blocks(r, key) ==> Before(first, r)) ==>
              first'.timestamp == first.timestamp && first'.id == first.id
  {
  }

  // ---------------------------------------------------------------------------------------
  // One head
  // ---------------------------------------------------------------------------------------

  datatype Policy = Policy(warnDays: nat, closeDays: nat)

  /** A row on this head, by what the clock looks at; `id` stands for the rank of its hash. */
  datatype Event = Event(timestamp: int, id: nat, blocks: bool, warns: bool, material: bool)

  predicate Precedes(a: Event, b: Event) {
    InOrder(a.timestamp, a.id, b.timestamp, b.id)
  }

  /** A posted warning and the blocker it was anchored on when it was due. */
  datatype Notice = Notice(at: int, blocker: int)

  /**
    `reviews` are the times of formal change requests on this head, `requested` is the current
    decision on it, `markers` are our marker comments, `followups` is the author's activity.
    `events` is the log in append order, which is read in the order of stamps and then ids.
    `notices` only records what was posted; nothing reads it.
   */
  datatype State = State(
    now: int, events: seq<Event>, reviews: seq<int>, requested: bool,
    markers: seq<int>, followups: seq<int>, notices: seq<Notice>)

  function Latest(times: seq<int>): Option<int> {
    if times == [] then None
    else
      var front, t := Latest(times[..|times| - 1]), times[|times| - 1];
      if front.None? || front.value <= t then Some(t) else front
  }

  /** The block that is read first. */
  function FirstBlock(events: seq<Event>): Option<Event> {
    if events == [] then None
    else
      var front, e := FirstBlock(events[..|events| - 1]), events[|events| - 1];
      if !e.blocks || (front.Some? && Precedes(front.value, e)) then front else Some(e)
  }

  /** The disposition that is read last. */
  function CurrentEvent(events: seq<Event>): Option<Event> {
    if events == [] then None
    else
      var front, e := CurrentEvent(events[..|events| - 1]), events[|events| - 1];
      if !e.material || (front.Some? && !Precedes(front.value, e)) then front else Some(e)
  }

  predicate LocalBlock(s: State) {
    CurrentEvent(s.events).Some? && CurrentEvent(s.events).value.blocks
  }

  predicate Active(s: State) {
    LocalBlock(s) || FirstBlock(s.events).Some? || s.requested
  }

  /** The latest warning, from the newest disposition or from a marker comment. */
  function Warning(s: State): Option<int> {
    var current := CurrentEvent(s.events);
    Latest(s.markers + if current.Some? && current.value.warns then [current.value.timestamp] else [])
  }

  predicate FollowupAfter(s: State, time: int) {
    exists i | 0 <= i < |s.followups| :: s.followups[i] > time
  }

  /** The formal review wins; without one, the first block on record; never our latest look at it. */
  function BlockerTimestamp(s: State): Option<int> {
    var formal := if s.requested then Latest(s.reviews) else None;
    if formal.Some? then formal
    else if FirstBlock(s.events).Some? then Some(FirstBlock(s.events).value.timestamp)
    else if LocalBlock(s) then Some(CurrentEvent(s.events).value.timestamp)
    else None
  }

  predicate WarningDue(s: State, policy: Policy) {
    Active(s) && Warning(s).None? && BlockerTimestamp(s).Some?
    && s.now - BlockerTimestamp(s).value >= policy.warnDays * DAY
  }

  predicate CloseDue(s: State, policy: Policy) {
    && Active(s) && Warning(s).Some? && !FollowupAfter(s, Warning(s).value)
    && !(CurrentEvent(s.events).Some? && FollowupAfter(s, CurrentEvent(s.events).value.timestamp))
    && s.now - Warning(s).value >= policy.closeDays * DAY
  }

  // ---------------------------------------------------------------------------------------
  // The whole log as one head sees it
  // ---------------------------------------------------------------------------------------

  function Seen(r: Row, warns: Row -> bool, material: Row -> bool): Event {
    Event(r.timestamp, r.id, IsBlock(r), warns(r), material(r))
  }

  /** The rows of one head, in log order. */
  function OnHead(rows: seq<Row>, key: HeadKey, warns: Row -> bool, material: Row -> bool): seq<Event> {
    if rows == [] then []
    else
      var front, r := OnHead(rows[..|rows| - 1], key, warns, material), rows[|rows| - 1];
      if r.key == Some(key) then front + [Seen(r, warns, material)] else front
  }

  /** The anchor the clock of a head goes by is the first block that the index over the log holds for it. */
  lemma {:induction false} HeadSeesFirstBlock(rows: seq<Row>, key: HeadKey, warns: Row -> bool, material: Row -> bool)
    ensures
      var anchor := FirstBlock(OnHead(rows, key, warns, material));
      if anchor.None? then forall r :: r in rows ==> !Blocks(r, key)
      else exists r :: IsFirstBlock(rows, key, r) && anchor.value == Seen(r, warns, material)
  {
    if rows != [] {
      var front, last := rows[..|rows| - 1], rows[|rows| - 1];
      HeadSeesFirstBlock(front, key, warns, material);
      assert rows == front + [last];
      var events := OnHead(front, key, warns, material);
      FirstBlockStays(events, Seen(last, warns, material));
      hide Before, Precedes, IsBlock, IsFirstBlock;
      if FirstBlock(events).Some? {
        var r :| IsFirstBlock(front, key, r) && FirstBlock(events).value == Seen(r, warns, material);
        FirstBlockOfMore(front, last, key, r, warns, material);
      } else if Blocks(last, key) {
        FirstBlockIsNew(front, last, key);
      }
    }
  }

  lemma FirstBlockOfMore(front: seq<Row>, last: Row, key: HeadKey, r: Row, warns: Row -> bool, material: Row -> bool)
    requires IsFirstBlock(front, key, r)
    ensures
      var earlier := Blocks(last, key) && !Precedes(Seen(r, warns, material), Seen(last, warns, material));
      IsFirstBlock(front + [last], key, if earlier then last else r)
  {
  }

  lemma FirstBlockIsNew(front: seq<Row>, last: Row, key: HeadKey)
    requires Blocks(last, key) && forall r :: r in front ==> !Blocks(r, key)
    ensures IsFirstBlock(front + [last], key, last)
  {
  }

  // ---------------------------------------------------------------------------------------
  // Steps
  // ---------------------------------------------------------------------------------------

  datatype Step =
    | Wait(seconds: nat)
    | RecordRow(id: nat, blocks: bool, material: bool)
    | Review
    | Decide(requested: bool)
    | FollowUp
    | Warn(id: nat, inLog: bool, inComment: bool)

  predicate Enabled(s: State, policy: Policy, step: Step) {
    step.Warn? ==> WarningDue(s, policy)
  }

  function Apply(s: State, policy: Policy, step: Step): State
    requires Enabled(s, policy, step)
  {
    match step
    case Wait(seconds) => s.(now := s.now + seconds)
    case RecordRow(id, blocks, material) => s.(events := s.events + [Event(s.now, id, blocks, false, material)])
    case Review => s.(reviews := s.reviews + [s.now], requested := true)
    case Decide(requested) => s.(requested := requested)
    case FollowUp => s.(followups := s.followups + [s.now])
    case Warn(id, inLog, inComment) =>
      s.(events := if inLog then s.events + [Event(s.now, id, false, true, true)] else s.events,
         markers := if inComment then s.markers + [s.now] else s.markers,
         notices := s.notices + [Notice(s.now, BlockerTimestamp(s).value)])
  }

  const START := State(0, [], [], false, [], [], [])

  // ---------------------------------------------------------------------------------------
  // A close is never early
  // ---------------------------------------------------------------------------------------

  /** The blocker is on record: a formal review of this head, or the first block of its log. */
  ghost predicate OnRecord(s: State, blocker: int) {
    blocker in s.reviews || (FirstBlock(s.events).Some? && FirstBlock(s.events).value.timestamp == blocker)
  }

  ghost predicate Grounded(s: State, policy: Policy, notice: Notice) {
    notice.at - notice.blocker >= policy.warnDays * DAY && OnRecord(s, notice.blocker)
  }

  /** The warning of this time was posted when it was due, for a blocker on record. */
  ghost predicate Posted(s: State, policy: Policy, at: int) {
    exists notice :: notice in s.notices && notice.at == at && Grounded(s, policy, notice)
  }

  /** No row of the log is from the future. */
  ghost predicate Timely(s: State) {
    forall e :: e in s.events ==> e.timestamp <= s.now
  }

  ghost predicate Honest(s: State, policy: Policy) {
    && Timely(s)
    && (forall n :: n in s.notices ==> Grounded(s, policy, n))
    && (forall m :: m in s.markers ==> Posted(s, policy, m))
    && (forall e :: e in s.events && e.warns ==> Posted(s, policy, e.timestamp))
  }

  lemma {:induction false} LatestIsIn(times: seq<int>)
    ensures Latest(times).Some? ==> Latest(times).value in times
    ensures Latest(times).None? <==> times == []
  {
    if times != [] {
      LatestIsIn(times[..|times| - 1]);
    }
  }

  lemma {:induction false} CurrentIsIn(events: seq<Event>)
    ensures CurrentEvent(events).Some? ==> CurrentEvent(events).value in events
  {
    if events != [] {
      CurrentIsIn(events[..|events| - 1]);
    }
  }

  lemma FirstBlockStays(events: seq<Event>, e: Event)
    ensures
      var first := FirstBlock(events);
      FirstBlock(events + [e]) == if !e.blocks || (first.Some? && Precedes(first.value, e)) then first else Some(e)
  {
    assert (events + [e])[..|events|] == events;
  }

  lemma {:induction false} BlockIsFirstBlocked(events: seq<Event>)
    ensures (exists e :: e in events && e.blocks) ==> FirstBlock(events).Some?
  {
    if events != [] {
      BlockIsFirstBlocked(events[..|events| - 1]);
      assert events == events[..|events| - 1] + [events[|events| - 1]];
    }
  }

  lemma {:induction false} FirstBlockIsIn(events: seq<Event>)
    ensures FirstBlock(events).Some? ==> FirstBlock(events).value in events && FirstBlock(events).value.blocks
  {
    if events != [] {
      FirstBlockIsIn(events[..|events| - 1]);
    }
  }

  lemma BlockerIsOnRecord(s: State)
    requires BlockerTimestamp(s).Some?
    ensures OnRecord(s, BlockerTimestamp(s).value)
  {
    LatestIsIn(s.reviews);
    CurrentIsIn(s.events);
    BlockIsFirstBlocked(s.events);
  }

  /** What is on record stays on record. */
  lemma RecordStays(s: State, policy: Policy, step: Step, blocker: int)
    requires Enabled(s, policy, step) && Timely(s) && OnRecord(s, blocker)
    ensures OnRecord(Apply(s, policy, step), blocker)
  {
    var s' := Apply(s, policy, step);
    if s'.events != s.events {
      FirstBlockIsIn(s.events);
      FirstBlockStays(s.events, s'.events[|s.events|]);
      assert s'.events == s.events + [s'.events[|s.events|]];
    }
  }

  lemma StepStaysHonest(s: State, policy: Policy, step: Step)
    requires Honest(s, policy) && Enabled(s, policy, step)
    ensures Honest(Apply(s, policy, step), policy)
  {
    var s' := Apply(s, policy, step);
    if step.Warn? {
      BlockerIsOnRecord(s);
      RecordStays(s, policy, step, BlockerTimestamp(s).value);
      assert Notice(s.now, BlockerTimestamp(s).value) in s'.notices;
      assert Posted(s', policy, s.now);
    }
    forall n | n in s'.notices
      ensures Grounded(s', policy, n)
    {
      if n in s.notices {
        RecordStays(s, policy, step, n.blocker);
      }
    }
    forall at | Posted(s, policy, at)
      ensures Posted(s', policy, at)
    {
      var n :| n in s.notices && n.at == at && Grounded(s, policy, n);
      assert n in s'.notices;
    }
  }

  ghost predicate IsRun(s: State, policy: Policy, steps: seq<Step>)
    decreases |steps|, 0
  {
    steps == [] ||
    (IsRun(s, policy, steps[..|steps| - 1]) &&
     Enabled(After(s, policy, steps[..|steps| - 1]), policy, steps[|steps| - 1]))
  }

  ghost function After(s: State, policy: Policy, steps: seq<Step>): State
    requires IsRun(s, policy, steps)
    decreases |steps|, 1
  {
    if steps == [] then s else Apply(After(s, policy, steps[..|steps| - 1]), policy, steps[|steps| - 1])
  }

  lemma {:induction false} RunStaysHonest(policy: Policy, steps: seq<Step>)
    requires IsRun(START, policy, steps)
    ensures Honest(After(START, policy, steps), policy)
  {
    if steps != [] {
      RunStaysHonest(policy, steps[..|steps| - 1]);
      StepStaysHonest(After(START, policy, steps[..|steps| - 1]), policy, steps[|steps| - 1]);
    }
  }

  /**
    Over every run in which warnings are posted only when due: whenever a close is due, the
    warning that makes it due was posted at least the closing delay ago and at least the warning
    delay after a blocker on record, and the author has been silent since that warning.
   */
  lemma CloseIsNeverEarly(policy: Policy, steps: seq<Step>) returns (notice: Notice)
    requires IsRun(START, policy, steps) && CloseDue(After(START, policy, steps), policy)
    ensures
      var s := After(START, policy, steps);
      && notice in s.notices && Warning(s) == Some(notice.at) && OnRecord(s, notice.blocker)
      && s.now - notice.at >= policy.closeDays * DAY
      && notice.at - notice.blocker >= policy.warnDays * DAY
      && s.now - notice.blocker >= (policy.warnDays + policy.closeDays) * DAY
      && !FollowupAfter(s, notice.at)
  {
    var s := After(START, policy, steps);
    RunStaysHonest(policy, steps);
    var current := CurrentEvent(s.events);
    var candidates := s.markers + if current.Some? && current.value.warns then [current.value.timestamp] else [];
    LatestIsIn(candidates);
    CurrentIsIn(s.events);
    assert Posted(s, policy, Warning(s).value);
    notice :| notice in s.notices && notice.at == Warning(s).value && Grounded(s, policy, notice);
  }

  // ---------------------------------------------------------------------------------------
  // When a posted warning is seen, and when a second one falls due
  // ---------------------------------------------------------------------------------------

  /** Some warning left a marker comment. */
  ghost predicate Commented(steps: seq<Step>) {
    exists i :: 0 <= i < |steps| && steps[i].Warn? && steps[i].inComment
  }

  function Clock(steps: seq<Step>): int {
    if steps == [] then 0
    else Clock(steps[..|steps| - 1]) + if steps[|steps| - 1].Wait? then steps[|steps| - 1].seconds else 0
  }

  /** The rows that the steps put into the log, in append order. */
  function Logged(steps: seq<Step>): seq<Event> {
    if steps == [] then []
    else
      var front := steps[..|steps| - 1];
      match steps[|steps| - 1]
      case RecordRow(id, blocks, material) => Logged(front) + [Event(Clock(front), id, blocks, false, material)]
      case Warn(id, true, _) => Logged(front) + [Event(Clock(front), id, false, true, true)]
      case _ => Logged(front)
  }

  /** Row j is read after row i: by stamp, then by id, then as appended. */
  ghost predicate ReadAfter(events: seq<Event>, i: nat, j: nat)
    requires i < |events| && j < |events|
  {
    if i < j then Precedes(events[i], events[j]) else !Precedes(events[j], events[i])
  }

  /** Row i is a warning, and no disposition but warnings is read after it. */
  ghost predicate WarnsAt(events: seq<Event>, i: nat)
    requires i < |events|
  {
    events[i].warns && events[i].material &&
    forall j :: 0 <= j < |events| && events[j].material && !events[j].warns ==> !ReadAfter(events, i, j)
  }

  /** Some warning is in the log, and no disposition is read after it. */
  ghost predicate LoggedLast(steps: seq<Step>) {
    exists i :: 0 <= i < |Logged(steps)| && WarnsAt(Logged(steps), i)
  }

  predicate CurrentWarns(events: seq<Event>) {
    CurrentEvent(events).Some? && CurrentEvent(events).value.warns
  }

  lemma CommentedOneMore(front: seq<Step>, step: Step)
    ensures Commented(front + [step]) <==> Commented(front) || (step.Warn? && step.inComment)
  {
    var steps := front + [step];
    assert steps[|front|] == step && forall i :: 0 <= i < |front| ==> steps[i] == front[i];
  }

  lemma CurrentAfterRow(events: seq<Event>, e: Event)
    ensures
      var current := CurrentEvent(events);
      CurrentEvent(events + [e]) ==
        if !e.material || (current.Some? && !Precedes(current.value, e)) then current else Some(e)
  {
    assert (events + [e])[..|events|] == events;
  }

  /** The row at k is the disposition that every other one is read before. */
  ghost predicate IsLastRead(events: seq<Event>, k: nat) {
    k < |events| && events[k].material &&
    forall j :: 0 <= j < |events| && j != k && events[j].material ==> ReadAfter(events, j, k)
  }

  lemma {:induction false} CurrentIsLastRead(events: seq<Event>) returns (k: nat)
    ensures CurrentEvent(events).None? ==> forall j :: 0 <= j < |events| ==> !events[j].material
    ensures CurrentEvent(events).Some? ==> IsLastRead(events, k) && CurrentEvent(events).value == events[k]
  {
    k := 0;
    if events != [] {
      var front, e := events[..|events| - 1], events[|events| - 1];
      k := CurrentIsLastRead(front);
      assert forall j :: 0 <= j < |front| ==> events[j] == front[j];
      assert CurrentEvent(front).Some? ==>
          forall j :: 0 <= j < |front| && j != k && front[j].material ==> ReadAfter(front, j, k);
      if e.material && !(CurrentEvent(front).Some? && !Precedes(CurrentEvent(front).value, e)) {
        k := |front|;
      }
    }
  }

  lemma CurrentWarnsExactly(events: seq<Event>)
    ensures CurrentWarns(events) <==> exists i :: 0 <= i < |events| && WarnsAt(events, i)
  {
    var k := CurrentIsLastRead(events);
    if CurrentWarns(events) {
      assert WarnsAt(events, k);
    }
    if i :| 0 <= i < |events| && WarnsAt(events, i) {
      assert i != k ==> ReadAfter(events, i, k);
    }
  }

  lemma {:induction false} RunShowsWarnings(policy: Policy, steps: seq<Step>)
    requires IsRun(START, policy, steps)
    ensures After(START, policy, steps).markers != [] <==> Commented(steps)
    ensures After(START, policy, steps).events == Logged(steps) && After(START, policy, steps).now == Clock(steps)
  {
    if steps != [] {
      var front, step := steps[..|steps| - 1], steps[|steps| - 1];
      RunShowsWarnings(policy, front);
      assert steps == front + [step];
      CommentedOneMore(front, step);
    }
  }

  /** A warning is seen exactly when one left a comment, or is in the log with no disposition read after it. */
  lemma WarningIsSeenExactly(policy: Policy, steps: seq<Step>)
    requires IsRun(START, policy, steps)
    ensures Warning(After(START, policy, steps)).Some? <==> Commented(steps) || LoggedLast(steps)
  {
    var s := After(START, policy, steps);
    RunShowsWarnings(policy, steps);
    CurrentWarnsExactly(s.events);
    LatestIsIn(s.markers + if CurrentWarns(s.events) then [CurrentEvent(s.events).value.timestamp] else []);
  }

  const BLOCKED := Event(0, 0, true, false, true)
  const WARNED := Event(DAY, 1, false, true, true)
  const AGAIN := Event(DAY + 1, 2, true, false, true)

  lemma RowsOfWarnedTwice()
    ensures FirstBlock([BLOCKED]) == CurrentEvent([BLOCKED]) == Some(BLOCKED)
    ensures FirstBlock([BLOCKED, WARNED, AGAIN]) == Some(BLOCKED)
    ensures CurrentEvent([BLOCKED, WARNED, AGAIN]) == Some(AGAIN)
  {
    assert [] + [BLOCKED] == [BLOCKED] && [BLOCKED] + [WARNED] + [AGAIN] == [BLOCKED, WARNED, AGAIN];
    FirstBlockStays([], BLOCKED);
    FirstBlockStays([BLOCKED], WARNED);
    FirstBlockStays([BLOCKED] + [WARNED], AGAIN);
    CurrentAfterRow([], BLOCKED);
    CurrentAfterRow([BLOCKED], WARNED);
    CurrentAfterRow([BLOCKED] + [WARNED], AGAIN);
  }

  lemma DueAfterADay(policy: Policy, s: State)
    requires policy.warnDays == 1 && s == State(DAY, [BLOCKED], [], false, [], [], [])
    ensures WarningDue(s, policy) && BlockerTimestamp(s) == Some(0)
  {
    hide FirstBlock, CurrentEvent;
    RowsOfWarnedTwice();
  }

  lemma WarnedOnce(policy: Policy)
    requires policy.warnDays == 1
    ensures
      var steps := [RecordRow(0, true, true), Wait(86400), Warn(1, true, false)];
      && IsRun(START, policy, steps)
      && After(START, policy, steps) == State(DAY, [BLOCKED, WARNED], [], false, [], [], [Notice(DAY, 0)])
  {
    RunOfNothing(START, policy);
    hide WarningDue, BlockerTimestamp, IsRun, After;
    var first, second := [RecordRow(0, true, true)], [RecordRow(0, true, true), Wait(86400)];
    assert [] + [RecordRow(0, true, true)] == first && first + [Wait(86400)] == second;
    assert second + [Warn(1, true, false)] == [RecordRow(0, true, true), Wait(86400), Warn(1, true, false)];
    RunOneMore(START, policy, [], RecordRow(0, true, true));
    RunOneMore(START, policy, first, Wait(86400));
    DueAfterADay(policy, After(START, policy, second));
    RunOneMore(START, policy, second, Warn(1, true, false));
  }

  /** A warning that is only in the log stops being seen, and a second one falls due. */
  lemma WarnedTwice()
    ensures
      var policy := Policy(1, 1);
      var steps := [RecordRow(0, true, true), Wait(86400), Warn(1, true, false), Wait(1), RecordRow(2, true, true)];
      && IsRun(START, policy, steps)
      && |After(START, policy, steps).notices| == 1 && WarningDue(After(START, policy, steps), policy)
  {
    hide FirstBlock, CurrentEvent, IsRun, After;
    var policy := Policy(1, 1);
    var once := [RecordRow(0, true, true), Wait(86400), Warn(1, true, false)];
    RowsOfWarnedTwice();
    WarnedOnce(policy);
    RunOneMore(START, policy, once, Wait(1));
    RunOneMore(START, policy, once + [Wait(1)], RecordRow(2, true, true));
    var steps := once + [Wait(1)] + [RecordRow(2, true, true)];
    assert steps == [RecordRow(0, true, true), Wait(86400), Warn(1, true, false), Wait(1), RecordRow(2, true, true)];
    assert After(START, policy, steps) == State(DAY + 1, [BLOCKED, WARNED, AGAIN], [], false, [], [], [Notice(DAY, 0)]);
  }

  lemma RunOfNothing(s: State, policy: Policy)
    ensures IsRun(s, policy, []) && After(s, policy, []) == s
  {
  }

  lemma RunOneMore(s: State, policy: Policy, steps: seq<Step>, step: Step)
    requires IsRun(s, policy, steps) && Enabled(After(s, policy, steps), policy, step)
    ensures IsRun(s, policy, steps + [step])
    ensures After(s, policy, steps + [step]) == Apply(After(s, policy, steps), policy, step)
  {
    assert (steps + [step])[..|steps|] == steps;
  }

  ghost predicate AllCommented(steps: seq<Step>) {
    forall i :: 0 <= i < |steps| && steps[i].Warn? ==> steps[i].inComment
  }

  /** If every warning leaves a comment, a head is warned at most once. */
  lemma {:induction false} CommentedOnceOnly(policy: Policy, steps: seq<Step>)
    requires IsRun(START, policy, steps) && AllCommented(steps)
    ensures |After(START, policy, steps).notices| <= 1
    ensures After(START, policy, steps).notices != [] <==> Commented(steps)
  {
    if steps != [] {
      var front, step := steps[..|steps| - 1], steps[|steps| - 1];
      CommentedOnceOnly(policy, front);
      assert steps == front + [step];
      CommentedOneMore(front, step);
      WarningIsSeenExactly(policy, front);
    }
  }

  // ---------------------------------------------------------------------------------------
  // Re-recording never postpones the warning
  // ---------------------------------------------------------------------------------------

  ghost predicate OnlyRecordsAndWaits(steps: seq<Step>) {
    forall i :: 0 <= i < |steps| ==> steps[i].Wait? || steps[i].RecordRow?
  }

  ghost predicate Pending(s: State) {
    BlockerTimestamp(s).Some? && Warning(s).None? && Active(s)
  }

  lemma RecordKeepsAnchor(s: State, policy: Policy, step: Step)
    requires step.Wait? || step.RecordRow?
    requires Pending(s)
    ensures
      var s' := Apply(s, policy, step);
      && Pending(s') && BlockerTimestamp(s').value <= BlockerTimestamp(s).value
      && (Timely(s) ==> Timely(s') && BlockerTimestamp(s') == BlockerTimestamp(s))
  {
    var s' := Apply(s, policy, step);
    var current := CurrentEvent(s.events);
    CurrentIsIn(s.events);
    BlockIsFirstBlocked(s.events);
    FirstBlockIsIn(s.events);
    LatestIsIn(s.reviews);
    LatestIsIn(s.markers + if current.Some? && current.value.warns then [current.value.timestamp] else []);
    if step.RecordRow? {
      var e := s'.events[|s.events|];
      assert s'.events == s.events + [e];
      FirstBlockStays(s.events, e);
      CurrentAfterRow(s.events, e);
      assert s'.markers + [] == [];
    }
  }

  lemma {:induction false} AnchorStays(s: State, policy: Policy, steps: seq<Step>)
    requires Pending(s) && IsRun(s, policy, steps) && OnlyRecordsAndWaits(steps)
    ensures
      var s' := After(s, policy, steps);
      && Pending(s') && BlockerTimestamp(s').value <= BlockerTimestamp(s).value
      && (Timely(s) ==> Timely(s') && BlockerTimestamp(s') == BlockerTimestamp(s))
  {
    if steps != [] {
      AnchorStays(s, policy, steps[..|steps| - 1]);
      RecordKeepsAnchor(After(s, policy, steps[..|steps| - 1]), policy, steps[|steps| - 1]);
    }
  }

  /**
    However often rows are recorded, the warning falls due no later than warn-days after the
    blocker, and exactly then when no row of the log is from the future.
   */
  lemma RecordingNeverPostpones(s: State, policy: Policy, steps: seq<Step>)
    requires Pending(s) && IsRun(s, policy, steps) && OnlyRecordsAndWaits(steps)
    ensures
      var due := After(s, policy, steps).now >= BlockerTimestamp(s).value + policy.warnDays * DAY;
      && (due ==> WarningDue(After(s, policy, steps), policy))
      && (Timely(s) ==> (WarningDue(After(s, policy, steps), policy) <==> due))
  {
    AnchorStays(s, policy, steps);
  }

  // ---------------------------------------------------------------------------------------
  // Exactly when a warning and a close fall due, read off the steps
  // ---------------------------------------------------------------------------------------

  /** The moment step i is taken. */
  function At(steps: seq<Step>, i: nat): int
    requires i <= |steps|
  {
    Clock(steps[..i])
  }

  ghost predicate ReviewedAt(steps: seq<Step>, at: int) {
    exists i :: 0 <= i < |steps| && steps[i].Review? && At(steps, i) == at
  }

  ghost predicate CommentedAt(steps: seq<Step>, at: int) {
    exists i :: 0 <= i < |steps| && steps[i].Warn? && steps[i].inComment && At(steps, i) == at
  }

  ghost predicate FollowedUpAt(steps: seq<Step>, at: int) {
    exists i :: 0 <= i < |steps| && steps[i].FollowUp? && At(steps, i) == at
  }

  /** What the last review or decision says. */
  function Requested(steps: seq<Step>): bool {
    if steps == [] then false
    else
      match steps[|steps| - 1]
      case Review => true
      case Decide(requested) => requested
      case _ => Requested(steps[..|steps| - 1])
  }

  /** Blocked by a formal request in force, or by any row of the log, ever. */
  ghost predicate HeadIsBlocked(steps: seq<Step>) {
    Requested(steps) || exists e :: e in Logged(steps) && e.blocks
  }

  /** A warning of this moment is seen: in a marker comment, or logged with no disposition read after it. */
  ghost predicate WarnedAt(steps: seq<Step>, at: int) {
    || CommentedAt(steps, at)
    || exists i :: 0 <= i < |Logged(steps)| && WarnsAt(Logged(steps), i) && Logged(steps)[i].timestamp == at
  }

  ghost predicate LastWarnedAt(steps: seq<Step>, at: int) {
    WarnedAt(steps, at) && forall t :: WarnedAt(steps, t) ==> t <= at
  }

  ghost predicate BlockedAt(steps: seq<Step>, at: int) {
    exists e :: e in Logged(steps) && e.blocks && e.timestamp == at
  }

  /** What the clock runs from: the latest formal review of a request in force, else the earliest block. */
  ghost predicate AnchoredAt(steps: seq<Step>, at: int) {
    if Requested(steps) && exists t :: ReviewedAt(steps, t) then
      ReviewedAt(steps, at) && forall t :: ReviewedAt(steps, t) ==> t <= at
    else
      BlockedAt(steps, at) && forall t :: BlockedAt(steps, t) ==> at <= t
  }

  /** The author did nothing after the warning, nor after the last disposition, if there is one. */
  ghost predicate Silent(steps: seq<Step>, warnedAt: int) {
    forall at :: FollowedUpAt(steps, at) ==>
      at <= warnedAt
      && ((exists e :: e in Logged(steps) && e.material) ==>
            exists e :: e in Logged(steps) && e.material && at <= e.timestamp)
  }

  lemma AtOneMore(front: seq<Step>, step: Step, i: nat)
    requires i <= |front|
    ensures At(front + [step], i) == At(front, i)
  {
    assert (front + [step])[..i] == front[..i];
  }

  /** A moment a step of some kind was taken is one of the earlier ones, or now. */
  lemma MomentsOneMore(front: seq<Step>, step: Step, at: int)
    ensures ReviewedAt(front + [step], at) <==> ReviewedAt(front, at) || (step.Review? && at == Clock(front))
    ensures CommentedAt(front + [step], at) <==>
            CommentedAt(front, at) || (step.Warn? && step.inComment && at == Clock(front))
    ensures FollowedUpAt(front + [step], at) <==> FollowedUpAt(front, at) || (step.FollowUp? && at == Clock(front))
  {
    var steps := front + [step];
    forall i | 0 <= i < |front|
      ensures At(steps, i) == At(front, i) && steps[i] == front[i]
    {
      AtOneMore(front, step, i);
    }
    assert steps[|front|] == step && At(steps, |front|) == Clock(front) by {
      assert steps[..|front|] == front;
    }
  }

  /** The state of a run, read off its steps. */
  ghost predicate Reflects(s: State, steps: seq<Step>) {
    && s.now == Clock(steps) && s.events == Logged(steps) && s.requested == Requested(steps)
    && (forall at :: at in s.reviews <==> ReviewedAt(steps, at))
    && (forall at :: at in s.markers <==> CommentedAt(steps, at))
    && (forall at :: at in s.followups <==> FollowedUpAt(steps, at))
  }

  lemma StepReflects(s: State, policy: Policy, front: seq<Step>, step: Step)
    requires Reflects(s, front) && Enabled(s, policy, step)
    ensures Reflects(Apply(s, policy, step), front + [step])
  {
    assert (front + [step])[..|front|] == front;
    forall at
      ensures at in Apply(s, policy, step).reviews <==> ReviewedAt(front + [step], at)
      ensures at in Apply(s, policy, step).markers <==> CommentedAt(front + [step], at)
      ensures at in Apply(s, policy, step).followups <==> FollowedUpAt(front + [step], at)
    {
      MomentsOneMore(front, step, at);
    }
  }

  lemma {:induction false} RunReflects(policy: Policy, steps: seq<Step>)
    requires IsRun(START, policy, steps)
    ensures Reflects(After(START, policy, steps), steps)
  {
    hide Reflects;
    if steps == [] {
      StartReflects();
    } else {
      var front, step := steps[..|steps| - 1], steps[|steps| - 1];
      RunReflects(policy, front);
      StepReflects(After(START, policy, front), policy, front, step);
      assert steps == front + [step];
    }
  }

  lemma StartReflects()
    ensures Reflects(START, [])
  {
  }

  lemma {:induction false} LatestIsLatest(times: seq<int>)
    ensures Latest(times).Some? ==>
              Latest(times).value in times && forall t :: t in times ==> t <= Latest(times).value
    ensures Latest(times).None? <==> times == []
  {
    if times != [] {
      LatestIsLatest(times[..|times| - 1]);
      assert times == times[..|times| - 1] + [times[|times| - 1]];
    }
  }

  lemma {:induction false} FirstIsEarliest(events: seq<Event>)
    ensures FirstBlock(events).None? <==> forall e :: e in events ==> !e.blocks
    ensures FirstBlock(events).Some? ==>
              && FirstBlock(events).value in events && FirstBlock(events).value.blocks
              && forall e :: e in events && e.blocks ==> FirstBlock(events).value.timestamp <= e.timestamp
  {
    if events != [] {
      var front, last := events[..|events| - 1], events[|events| - 1];
      FirstIsEarliest(front);
      assert events == front + [last];
    }
  }

  lemma ActiveIsBlocked(s: State, steps: seq<Step>)
    requires Reflects(s, steps)
    ensures Active(s) <==> HeadIsBlocked(steps)
  {
    FirstIsEarliest(s.events);
    CurrentIsIn(s.events);
  }

  lemma BlockerIsAnchor(s: State, steps: seq<Step>, at: int)
    requires Reflects(s, steps)
    ensures BlockerTimestamp(s) == Some(at) <==> AnchoredAt(steps, at)
  {
    LatestIsLatest(s.reviews);
    FirstIsEarliest(s.events);
    CurrentIsIn(s.events);
    if s.requested && s.reviews != [] {
      assert ReviewedAt(steps, s.reviews[0]);
      assert Latest(s.reviews).Some? && ReviewedAt(steps, Latest(s.reviews).value);
    } else if FirstBlock(s.events).Some? {
      assert BlockedAt(steps, FirstBlock(s.events).value.timestamp);
    }
  }

  /** A logged warning that is seen is no later than the disposition read last, which then warns. */
  lemma SeenWarningIsCurrent(events: seq<Event>, i: nat)
    requires i < |events| && WarnsAt(events, i)
    ensures CurrentWarns(events) && events[i].timestamp <= CurrentEvent(events).value.timestamp
  {
    CurrentWarnsExactly(events);
    var k := CurrentIsLastRead(events);
    assert i != k ==> ReadAfter(events, i, k);
  }

  lemma CurrentIsSeenWarning(events: seq<Event>) returns (k: nat)
    requires CurrentWarns(events)
    ensures k < |events| && WarnsAt(events, k) && events[k] == CurrentEvent(events).value
  {
    k := CurrentIsLastRead(events);
  }

  function LoggedWarning(events: seq<Event>): seq<int> {
    if CurrentWarns(events) then [CurrentEvent(events).value.timestamp] else []
  }

  /** The warnings that the clock looks at are among those seen, and none seen is later than all of them. */
  lemma CandidatesAreWarnings(s: State, steps: seq<Step>, t: int)
    requires Reflects(s, steps)
    ensures t in s.markers + LoggedWarning(s.events) ==> WarnedAt(steps, t)
    ensures WarnedAt(steps, t) ==> exists u :: u in s.markers + LoggedWarning(s.events) && t <= u
  {
    hide CurrentWarns, CurrentEvent, WarnsAt, Logged;
    var candidates := s.markers + LoggedWarning(s.events);
    if t in candidates && t !in s.markers {
      var k := CurrentIsSeenWarning(s.events);
    }
    if WarnedAt(steps, t) {
      if t in s.markers {
        assert t in candidates;
      } else {
        var i :| 0 <= i < |Logged(steps)| && WarnsAt(Logged(steps), i) && Logged(steps)[i].timestamp == t;
        SeenWarningIsCurrent(s.events, i);
        assert LoggedWarning(s.events)[0] in candidates;
      }
    }
  }

  lemma WarningIsLatest(s: State, steps: seq<Step>, at: int)
    requires Reflects(s, steps)
    ensures Warning(s) == Some(at) <==> LastWarnedAt(steps, at)
    ensures Warning(s).None? <==> forall t :: !WarnedAt(steps, t)
  {
    var candidates := s.markers + LoggedWarning(s.events);
    assert Warning(s) == Latest(candidates);
    hide WarnedAt, Reflects, Warning, Latest, LoggedWarning;
    LatestIsLatest(candidates);
    forall t
      ensures t in candidates ==> WarnedAt(steps, t)
      ensures WarnedAt(steps, t) ==> Latest(candidates).Some? && t <= Latest(candidates).value
    {
      CandidatesAreWarnings(s, steps, t);
    }
  }

  lemma CurrentIsNewest(events: seq<Event>)
    ensures CurrentEvent(events).None? <==> forall e :: e in events ==> !e.material
    ensures CurrentEvent(events).Some? ==>
              CurrentEvent(events).value in events && CurrentEvent(events).value.material
              && forall e :: e in events && e.material ==> e.timestamp <= CurrentEvent(events).value.timestamp
  {
    var k := CurrentIsLastRead(events);
    forall e | e in events && e.material
      ensures CurrentEvent(events).Some? && e.timestamp <= CurrentEvent(events).value.timestamp
    {
      var j :| 0 <= j < |events| && events[j] == e;
      assert j != k ==> ReadAfter(events, j, k);
    }
  }

  lemma FollowupIsAfter(s: State, steps: seq<Step>, time: int)
    requires Reflects(s, steps)
    ensures FollowupAfter(s, time) <==> exists at :: FollowedUpAt(steps, at) && at > time
  {
    if FollowupAfter(s, time) {
      var i :| 0 <= i < |s.followups| && s.followups[i] > time;
      assert s.followups[i] in s.followups;
    }
  }

  lemma SilenceIsSilent(s: State, steps: seq<Step>, at: int)
    requires Reflects(s, steps)
    ensures
      var current := CurrentEvent(s.events);
      !FollowupAfter(s, at) && !(current.Some? && FollowupAfter(s, current.value.timestamp)) <==> Silent(steps, at)
  {
    assert s.events == Logged(steps);
    CurrentIsNewest(s.events);
    FollowupIsAfter(s, steps, at);
    if CurrentEvent(s.events).Some? {
      FollowupIsAfter(s, steps, CurrentEvent(s.events).value.timestamp);
    }
    hide FollowupAfter, FollowedUpAt, CurrentEvent, Logged, Reflects;
  }

  /**
    Over every run, a warning is due if and only if the head is blocked, no warning is seen, and
    the warning delay has passed since what the clock runs from.
   */
  lemma WarningDueExactly(policy: Policy, steps: seq<Step>)
    requires IsRun(START, policy, steps)
    ensures WarningDue(After(START, policy, steps), policy) <==>
            && HeadIsBlocked(steps) && (forall at :: !WarnedAt(steps, at))
            && exists at :: AnchoredAt(steps, at) && Clock(steps) >= at + policy.warnDays * DAY
  {
    var s := After(START, policy, steps);
    RunReflects(policy, steps);
    ActiveIsBlocked(s, steps);
    WarningIsLatest(s, steps, 0);
    forall at
      ensures BlockerTimestamp(s) == Some(at) <==> AnchoredAt(steps, at)
    {
      BlockerIsAnchor(s, steps, at);
    }
    assert s.now == Clock(steps);
  }

  /**
    Over every run, a close is due if and only if the head is blocked, a warning is seen whose
    latest one is at least the closing delay ago, and the author has been silent since it and
    since the last disposition.
   */
  lemma CloseDueExactly(policy: Policy, steps: seq<Step>)
    requires IsRun(START, policy, steps)
    ensures CloseDue(After(START, policy, steps), policy) <==>
            HeadIsBlocked(steps) && exists at :: LastWarnedAt(steps, at) && Silent(steps, at)
                                           && Clock(steps) >= at + policy.closeDays * DAY
  {
    var s := After(START, policy, steps);
    RunReflects(policy, steps);
    ActiveIsBlocked(s, steps);
    forall at
      ensures Warning(s) == Some(at) <==> LastWarnedAt(steps, at)
    {
      WarningIsLatest(s, steps, at);
    }
    if Warning(s).Some? {
      SilenceIsSilent(s, steps, Warning(s).value);
    }
    assert s.now == Clock(steps);
  }
}
