/**
  Publishing triaged bug reports: one GitHub issue per thread, then a tracking reply on Discord,
  repaired on a later run when the reply failed.

  The outside world appears as a ledger of what was created there and as the weather that each
  visit of a thread meets.  A run works on the records in memory and saves them all together.
  Creating an issue and saving the record of it are one step; the save behind a tracking reply
  may fail, and what memory holds is then saved by a later save of the same run, or is lost.
 */
module BugReportPublish {
  import opened Shared

  type Thread = string

  datatype Mode = Created | Reconciled | MarkedHandled

  datatype Record = Record(issueNumber: nat, issueUrl: string, reactedId: string, replyId: string, mode: Mode)

  datatype Issue = Issue(number: nat, url: string)

  datatype HandledCheck = CheckFailed | TaggedHandled | NotTagged

  /** What one visit of a thread meets: failures are `CheckFailed`, `None` and a reply not `recorded`. */
  datatype Weather = Weather(handled: HandledCheck, hasItem: bool, issue: Option<Issue>,
                             reply: Option<string>, recorded: bool)

  datatype Verdict = Filed | Repaired | AlreadyPublished | Handled | NoItems | Failure

  /** Records in memory and on disk, and per thread how many issues and replies exist because of us. */
  datatype State = State(published: map<Thread, Record>, saved: map<Thread, Record>,
                         issues: map<Thread, nat>, replies: map<Thread, nat>)

  function Save(s: State): State {
    s.(saved := s.published)
  }

  function Load(s: State): State {
    s.(published := s.saved)
  }

  function Count(ledger: map<Thread, nat>, t: Thread): nat {
    if t in ledger then ledger[t] else 0
  }

  function OneMore(ledger: map<Thread, nat>, t: Thread): map<Thread, nat> {
    ledger[t := Count(ledger, t) + 1]
  }

  /** GitHub numbers and URLs, and Discord message ids, are never empty. */
  ghost predicate Genuine(w: Weather) {
    && (w.issue.Some? ==> w.issue.value.number > 0 && w.issue.value.url != "")
    && (w.reply.Some? ==> w.reply.value != "")
  }

  predicate HasWriteBack(r: Record) {
    r.issueNumber > 0 && r.issueUrl != "" && r.reactedId != "" && r.replyId != ""
  }

  predicate NeedsRepair(r: Record) {
    r.issueNumber > 0 && r.issueUrl != "" && !HasWriteBack(r)
  }

  /** Posts the tracking link; a dry run posts nothing and always succeeds. */
  function WriteBack(s: State, t: Thread, reply: Option<string>, recorded: bool, dryRun: bool): (State, bool)
    requires dryRun || t in s.published
  {
    if dryRun then (s, true)
    else if reply.None? then (s, false)
    else
      var record := s.published[t].(reactedId := t, replyId := reply.value);
      var posted := s.(published := s.published[t := record], replies := OneMore(s.replies, t));
      (if recorded then Save(posted) else posted, recorded)
  }

  function FileIssue(s: State, t: Thread, issue: Issue): State {
    Save(s.(published := s.published[t := Record(issue.number, issue.url, "", "", Created)],
            issues := OneMore(s.issues, t)))
  }

  /** One target of one publish run. */
  function Visit(s: State, t: Thread, w: Weather, dryRun: bool): (State, Verdict) {
    match w.handled
    case CheckFailed => (s, Failure)
    case TaggedHandled =>
      if t !in s.published && !dryRun then
        (Save(s.(published := s.published[t := Record(0, "", "", "", Reconciled)])), Handled)
      else (s, Handled)
    case NotTagged =>
      if t in s.published then
        if NeedsRepair(s.published[t]) then
          var (after, done) := WriteBack(s, t, w.reply, w.recorded, dryRun);
          (after, if done then Repaired else Failure)
        else (s, AlreadyPublished)
      else if !w.hasItem then (s, NoItems)
      else if !dryRun && w.issue.None? then (s, Failure)
      else
        var filed := if dryRun then s else FileIssue(s, t, w.issue.value);
        var (after, done) := WriteBack(filed, t, w.reply, w.recorded, dryRun);
        (after, if done then Filed else Failure)
  }

  function VisitAll(s: State, targets: seq<Thread>, weather: Thread -> Weather, dryRun: bool): State {
    if targets == [] then s
    else
      var t := targets[|targets| - 1];
      Visit(VisitAll(s, targets[..|targets| - 1], weather, dryRun), t, weather(t), dryRun).0
  }

  lemma VisitAllStep(s: State, targets: seq<Thread>, i: nat, weather: Thread -> Weather, dryRun: bool)
    requires i < |targets|
    ensures VisitAll(s, targets[..i + 1], weather, dryRun) ==
            Visit(VisitAll(s, targets[..i], weather, dryRun), targets[i], weather(targets[i]), dryRun).0
  {
    assert targets[..i + 1][..i] == targets[..i];
  }

  /** First occurrences only, as a JavaScript set keeps them; empty ids are dropped. */
  function Targets(arguments: seq<Thread>): (targets: seq<Thread>)
    ensures forall t :: t in targets ==> t in arguments && t != ""
  {
    if arguments == [] then []
    else
      var front, t := Targets(arguments[..|arguments| - 1]), arguments[|arguments| - 1];
      if t == "" || t in front then front else front + [t]
  }

  /** The local store of the script together with the ledger of the outside world. */
  class Publisher {
    var published: map<Thread, Record>
    var saved: map<Thread, Record>
    var issues: map<Thread, nat>
    var replies: map<Thread, nat>

    ghost function Now(): State
      reads this
    {
      State(published, saved, issues, replies)
    }

    /** Refuses without a change when targets, triage items or the token are missing. */
    method Publish(arguments: seq<Thread>, hasTriageItems: bool, hasToken: bool,
                   weather: Thread -> Weather, dryRun: bool) returns (ran: bool)
      modifies this
      ensures ran <==> Targets(arguments) != [] && hasTriageItems && hasToken
      ensures Now() == if ran then VisitAll(Load(old(Now())), Targets(arguments), weather, dryRun) else old(Now())
    {
      var targets := Targets(arguments);
      if targets == [] || !hasTriageItems || !hasToken {
        return false;
      }
      published := saved;
      ghost var start := Now();
      var i := 0;
      while i < |targets|
        invariant 0 <= i <= |targets|
        invariant Now() == VisitAll(start, targets[..i], weather, dryRun)
      {
        VisitAllStep(start, targets, i, weather, dryRun);
        var verdict := VisitThread(targets[i], weather(targets[i]), dryRun);
        i := i + 1;
      }
      assert targets[..i] == targets;
      return true;
    }

    method VisitThread(t: Thread, w: Weather, dryRun: bool) returns (verdict: Verdict)
      modifies this
      ensures (Now(), verdict) == Visit(old(Now()), t, w, dryRun)
    {
      if w.handled.CheckFailed? {
        return Failure;
      }
      if w.handled.TaggedHandled? {
        if t !in published && !dryRun {
          published := published[t := Record(0, "", "", "", Reconciled)];
          saved := published;
        }
        return Handled;
      }
      if t in published {
        if !NeedsRepair(published[t]) {
          return AlreadyPublished;
        }
        var repaired := WriteDiscordTracking(t, w.reply, w.recorded, dryRun);
        return if repaired then Repaired else Failure;
      }
      if !w.hasItem {
        return NoItems;
      }
      if !dryRun {
        if w.issue.None? {
          return Failure;
        }
        // The record is saved before Discord is tried, so a retry cannot file a second issue.
        published := published[t := Record(w.issue.value.number, w.issue.value.url, "", "", Created)];
        saved := published;
        issues := OneMore(issues, t);
      }
      var replied := WriteDiscordTracking(t, w.reply, w.recorded, dryRun);
      verdict := if replied then Filed else Failure;
    }

    method WriteDiscordTracking(t: Thread, reply: Option<string>, recorded: bool, dryRun: bool)
      returns (done: bool)
      requires dryRun || t in published
      modifies this
      ensures (Now(), done) == WriteBack(old(Now()), t, reply, recorded, dryRun)
    {
      if dryRun {
        return true;
      }
      if reply.None? {
        return false;
      }
      replies := OneMore(replies, t);
      published := published[t := published[t].(reactedId := t, replyId := reply.value)];
      if recorded {
        saved := published;
      }
      done := recorded;
    }
  }

  // ---------------------------------------------------------------------------------------
  // What every run keeps
  // ---------------------------------------------------------------------------------------

  /**
    The records in memory tell what exists outside: one issue for each record of one, and one
    reply for each record of one besides the `lost` replies whose records earlier runs lost.
   */
  ghost predicate Accounted(s: State, t: Thread, lost: nat) {
    if t in s.published then
      var r := s.published[t];
      && Count(s.issues, t) == (if r.mode.Created? then 1 else 0)
      && Count(s.replies, t) == (if r.replyId != "" then 1 else 0) + lost
      && (r.reactedId != "" <==> r.replyId != "")
    else Count(s.issues, t) == 0 && Count(s.replies, t) == lost
  }

  /** The disk has the record too, or lacks only its reply. */
  ghost predicate OnDisk(s: State, t: Thread) {
    && (t in s.saved <==> t in s.published)
    && (t in s.saved ==>
          s.saved[t] == s.published[t] || s.saved[t] == s.published[t].(reactedId := "", replyId := ""))
  }

  ghost predicate Ledger(s: State, lost: Thread -> nat) {
    forall t :: Accounted(s, t, lost(t)) && OnDisk(s, t)
  }

  /** Records stay, and keep their issue; a completed write-back is final. */
  ghost predicate Grows(before: map<Thread, Record>, after: map<Thread, Record>) {
    forall t :: KeptAt(before, after, t)
  }

  ghost predicate Kept(r: Record, r': Record) {
    && r'.issueNumber == r.issueNumber && r'.issueUrl == r.issueUrl && r'.mode == r.mode
    && (HasWriteBack(r) ==> r' == r)
  }

  ghost predicate SameAt(a: map<Thread, Record>, b: map<Thread, Record>, t: Thread) {
    (t in a <==> t in b) && (t in a ==> a[t] == b[t])
  }

  /** Of this thread only the disk changes, and only to what memory holds. */
  ghost predicate LeftAlone(before: State, after: State, t: Thread) {
    && SameAt(after.published, before.published, t)
    && (SameAt(after.saved, before.saved, t) || SameAt(after.saved, before.published, t))
    && Count(after.issues, t) == Count(before.issues, t) && Count(after.replies, t) == Count(before.replies, t)
  }

  lemma WriteBackFrame(s: State, t: Thread, w: Weather, dryRun: bool, other: Thread)
    requires other != t && (dryRun || t in s.published)
    ensures LeftAlone(s, WriteBack(s, t, w.reply, w.recorded, dryRun).0, other)
  {
  }

  lemma FileIssueFrame(s: State, t: Thread, issue: Issue, other: Thread)
    requires other != t
    ensures LeftAlone(s, FileIssue(s, t, issue), other)
  {
  }

  lemma LeftAloneTwice(a: State, b: State, c: State, t: Thread)
    requires LeftAlone(a, b, t) && LeftAlone(b, c, t)
    ensures LeftAlone(a, c, t)
  {
  }

  lemma VisitFrame(s: State, t: Thread, w: Weather, dryRun: bool, other: Thread)
    requires other != t
    ensures LeftAlone(s, Visit(s, t, w, dryRun).0, other)
  {
    if w.handled.NotTagged? {
      hide LeftAlone, WriteBack, NeedsRepair;
      NothingDone(s, other);
      if t in s.published {
        WriteBackFrame(s, t, w, dryRun, other);
      } else if w.hasItem && (dryRun || w.issue.Some?) {
        var filed := if dryRun then s else FileIssue(s, t, w.issue.value);
        if !dryRun {
          FileIssueFrame(s, t, w.issue.value, other);
        }
        WriteBackFrame(filed, t, w, dryRun, other);
        LeftAloneTwice(s, filed, WriteBack(filed, t, w.reply, w.recorded, dryRun).0, other);
      }
    }
  }

  lemma NothingDone(s: State, t: Thread)
    ensures LeftAlone(s, s, t)
  {
  }

  ghost predicate KeptAt(a: map<Thread, Record>, b: map<Thread, Record>, t: Thread) {
    t in a ==> t in b && Kept(a[t], b[t])
  }

  lemma WriteBackKeepsOne(s: State, t: Thread, w: Weather, lost: nat)
    requires Accounted(s, t, lost) && OnDisk(s, t) && Genuine(w) && t != ""
    requires t in s.published && NeedsRepair(s.published[t])
    ensures
      var after := WriteBack(s, t, w.reply, w.recorded, false).0;
      && Accounted(after, t, lost) && OnDisk(after, t)
      && KeptAt(s.published, after.published, t) && KeptAt(s.saved, after.saved, t)
  {
  }

  lemma FileIssueKeepsOne(s: State, t: Thread, w: Weather, lost: nat)
    requires Accounted(s, t, lost) && OnDisk(s, t) && Genuine(w) && t !in s.published && w.issue.Some?
    ensures
      var after := FileIssue(s, t, w.issue.value);
      Accounted(after, t, lost) && OnDisk(after, t) && t in after.published && NeedsRepair(after.published[t])
  {
  }

  lemma VisitKeepsOne(s: State, t: Thread, w: Weather, dryRun: bool, lost: nat)
    requires Accounted(s, t, lost) && OnDisk(s, t) && Genuine(w) && t != ""
    ensures
      var after := Visit(s, t, w, dryRun).0;
      && Accounted(after, t, lost) && OnDisk(after, t)
      && KeptAt(s.published, after.published, t) && KeptAt(s.saved, after.saved, t)
  {
    if !dryRun && w.handled.NotTagged? {
      hide Genuine, NeedsRepair, WriteBack, FileIssue, Accounted, OnDisk;
      if t in s.published {
        if NeedsRepair(s.published[t]) {
          WriteBackKeepsOne(s, t, w, lost);
        }
      } else if w.hasItem && w.issue.Some? {
        FileIssueKeepsOne(s, t, w, lost);
        WriteBackKeepsOne(FileIssue(s, t, w.issue.value), t, w, lost);
        NotOnDisk(s, t);
      }
    }
  }

  lemma NotOnDisk(s: State, t: Thread)
    requires OnDisk(s, t) && t !in s.published
    ensures t !in s.saved
  {
  }

  /** One visit keeps memory and the outside world in exact agreement, and neither store loses a record. */
  lemma VisitKeepsLedger(s: State, t: Thread, w: Weather, dryRun: bool, lost: Thread -> nat)
    requires Ledger(s, lost) && Genuine(w) && t != ""
    ensures
      var after := Visit(s, t, w, dryRun).0;
      Ledger(after, lost) && Grows(s.published, after.published) && Grows(s.saved, after.saved)
  {
    var after := Visit(s, t, w, dryRun).0;
    forall other
      ensures Accounted(after, other, lost(other)) && OnDisk(after, other)
      ensures KeptAt(s.published, after.published, other) && KeptAt(s.saved, after.saved, other)
    {
      assert Accounted(s, other, lost(other)) && OnDisk(s, other);
      if other == t {
        VisitKeepsOne(s, t, w, dryRun, lost(t));
      } else {
        hide Visit;
        VisitFrame(s, t, w, dryRun, other);
      }
    }
  }

  lemma {:induction false} VisitAllKeepsLedger(s: State, targets: seq<Thread>, weather: Thread -> Weather, dryRun: bool,
                                               lost: Thread -> nat)
    requires Ledger(s, lost)
    requires forall i :: 0 <= i < |targets| ==> targets[i] != "" && Genuine(weather(targets[i]))
    ensures Ledger(VisitAll(s, targets, weather, dryRun), lost)
    ensures Grows(s.saved, VisitAll(s, targets, weather, dryRun).saved)
  {
    if targets != [] {
      var front, t := targets[..|targets| - 1], targets[|targets| - 1];
      VisitAllKeepsLedger(s, front, weather, dryRun, lost);
      VisitKeepsLedger(VisitAll(s, front, weather, dryRun), t, weather(t), dryRun, lost);
      GrowsTwice(s.saved, VisitAll(s, front, weather, dryRun).saved, VisitAll(s, targets, weather, dryRun).saved);
    }
  }

  lemma GrowsTwice(a: map<Thread, Record>, b: map<Thread, Record>, c: map<Thread, Record>)
    requires Grows(a, b) && Grows(b, c)
    ensures Grows(a, c)
  {
    forall t
      ensures KeptAt(a, c, t)
    {
      assert KeptAt(a, b, t) && KeptAt(b, c, t);
    }
  }

  // ---------------------------------------------------------------------------------------
  // Any sequence of publish runs
  // ---------------------------------------------------------------------------------------

  datatype Run = Run(arguments: seq<Thread>, weather: Thread -> Weather, dryRun: bool)

  /** A run starts from what is on disk. */
  function AfterRun(s: State, run: Run): State {
    VisitAll(Load(s), Targets(run.arguments), run.weather, run.dryRun)
  }

  function AfterRuns(s: State, runs: seq<Run>): State {
    if runs == [] then s else AfterRun(AfterRuns(s, runs[..|runs| - 1]), runs[|runs| - 1])
  }

  /** The run ended with a reply of this thread in memory that no save took to disk. */
  predicate Loses(end: State, t: Thread) {
    t in end.published && t in end.saved && end.published[t] != end.saved[t]
  }

  /** How many runs lost the record of a reply in this thread. */
  function LostReplies(s: State, runs: seq<Run>, t: Thread): nat {
    if runs == [] then 0
    else LostReplies(s, runs[..|runs| - 1], t) + if Loses(AfterRuns(s, runs), t) then 1 else 0
  }

  /** What the next run loads agrees with the outside world but for the replies lost. */
  lemma LoadKeepsLedger(s: State, lost: Thread -> nat, lost': Thread -> nat)
    requires Ledger(s, lost)
    requires forall t :: lost'(t) == lost(t) + if Loses(s, t) then 1 else 0
    ensures Ledger(Load(s), lost')
  {
    forall t
      ensures Accounted(Load(s), t, lost'(t)) && OnDisk(Load(s), t)
    {
      assert Accounted(s, t, lost(t)) && OnDisk(s, t);
    }
  }

  function LostSoFar(s: State, runs: seq<Run>): Thread -> nat {
    (t: Thread) => LostReplies(s, runs, t)
  }

  lemma {:induction false} RunsKeepLedger(s: State, runs: seq<Run>)
    requires Ledger(Load(s), LostSoFar(s, []))
    requires forall i, t :: 0 <= i < |runs| ==> Genuine(runs[i].weather(t))
    ensures Ledger(Load(AfterRuns(s, runs)), LostSoFar(s, runs)) && Grows(s.saved, AfterRuns(s, runs).saved)
  {
    if runs != [] {
      var front, last := runs[..|runs| - 1], runs[|runs| - 1];
      RunsKeepLedger(s, front);
      forall i | 0 <= i < |Targets(last.arguments)|
        ensures Targets(last.arguments)[i] != "" && Genuine(last.weather(Targets(last.arguments)[i]))
      {
        assert Targets(last.arguments)[i] in Targets(last.arguments);
        assert Genuine(runs[|runs| - 1].weather(Targets(last.arguments)[i]));
      }
      var mid := AfterRuns(s, front);
      VisitAllKeepsLedger(Load(mid), Targets(last.arguments), last.weather, last.dryRun, LostSoFar(s, front));
      LoadKeepsLedger(AfterRuns(s, runs), LostSoFar(s, front), LostSoFar(s, runs));
      GrowsTwice(s.saved, mid.saved, AfterRuns(s, runs).saved);
    }
  }

  /**
    Over any sequence of runs, whatever the targets and failures: no thread gets a second issue,
    no saved record disappears or changes its issue, and the replies in a thread are exactly the
    recorded one and those whose record a run lost, so without a lost record at most one.
   */
  lemma RunsNeverDuplicate(s: State, runs: seq<Run>, t: Thread)
    requires Ledger(Load(s), LostSoFar(s, []))
    requires forall i, u :: 0 <= i < |runs| ==> Genuine(runs[i].weather(u))
    ensures
      var after := AfterRuns(s, runs);
      && Grows(s.saved, after.saved) && Count(after.issues, t) <= 1
      && Count(after.replies, t) ==
         (if t in after.saved && after.saved[t].replyId != "" then 1 else 0) + LostReplies(s, runs, t)
      && (LostReplies(s, runs, t) == 0 ==> Count(after.replies, t) <= 1)
  {
    RunsKeepLedger(s, runs);
    assert Accounted(Load(AfterRuns(s, runs)), t, LostSoFar(s, runs)(t));
  }

  /** A reply would be posted here and the save behind it fail. */
  predicate PostsUnrecorded(weather: Thread -> Weather, t: Thread) {
    weather(t).handled.NotTagged? && weather(t).reply.Some? && !weather(t).recorded
  }

  ghost predicate SavesReplies(weather: Thread -> Weather) {
    forall t :: t != "" ==> !PostsUnrecorded(weather, t)
  }

  lemma RecordedVisitSaves(s: State, t: Thread, weather: Thread -> Weather, dryRun: bool)
    requires s.saved == s.published && !PostsUnrecorded(weather, t)
    ensures Visit(s, t, weather(t), dryRun).0.saved == Visit(s, t, weather(t), dryRun).0.published
  {
  }

  lemma {:induction false} RecordedVisitsSave(s: State, targets: seq<Thread>, weather: Thread -> Weather, dryRun: bool)
    requires s.saved == s.published && SavesReplies(weather) && "" !in targets
    ensures VisitAll(s, targets, weather, dryRun).saved == VisitAll(s, targets, weather, dryRun).published
  {
    if targets != [] {
      var front, t := targets[..|targets| - 1], targets[|targets| - 1];
      assert t in targets && forall u :: u in front ==> u in targets;
      RecordedVisitsSave(s, front, weather, dryRun);
      RecordedVisitSaves(VisitAll(s, front, weather, dryRun), t, weather, dryRun);
    }
  }

  /** While every save behind a posted reply succeeds, no record of a reply is lost. */
  lemma {:induction false} SavesLoseNothing(s: State, runs: seq<Run>, t: Thread)
    requires forall i :: 0 <= i < |runs| ==> SavesReplies(runs[i].weather)
    ensures LostReplies(s, runs, t) == 0
  {
    if runs != [] {
      var front, last := runs[..|runs| - 1], runs[|runs| - 1];
      assert forall i :: 0 <= i < |front| ==> front[i] == runs[i];
      SavesLoseNothing(s, front, t);
      assert SavesReplies(runs[|runs| - 1].weather);
      RecordedVisitsSave(Load(AfterRuns(s, front)), Targets(last.arguments), last.weather, last.dryRun);
    }
  }

  /** A run in this weather loses no record of a reply, whatever the store and the targets. */
  ghost predicate NeverLoses(weather: Thread -> Weather) {
    forall s: State, targets: seq<Thread>, t ::
      s.saved == s.published && "" !in targets ==> !Loses(VisitAll(s, targets, weather, false), t)
  }

  /** No run loses the record of a reply if and only if every save behind a posted reply succeeds. */
  lemma NeverLosesExactly(weather: Thread -> Weather)
    requires forall t :: Genuine(weather(t))
    ensures NeverLoses(weather) <==> SavesReplies(weather)
  {
    if SavesReplies(weather) {
      forall s: State, targets: seq<Thread>, t | s.saved == s.published && "" !in targets
        ensures !Loses(VisitAll(s, targets, weather, false), t)
      {
        RecordedVisitsSave(s, targets, weather, false);
      }
    } else {
      var t :| t != "" && PostsUnrecorded(weather, t);
      var filed := map[t := Record(1, "url", "", "", Created)];
      var s := State(filed, filed, map[t := 1], map[]);
      RepairingVisit(s, t, weather(t));
      assert [t][..0] == [] && VisitAll(s, [], weather, false) == s;
      assert Loses(VisitAll(s, [t], weather, false), t);
    }
  }

  lemma RepairingVisit(s: State, t: Thread, w: Weather)
    requires t != "" && t in s.published && NeedsRepair(s.published[t]) && s.saved == s.published
    requires w.handled.NotTagged? && w.reply.Some? && Genuine(w)
    ensures
      var after := Visit(s, t, w, false).0;
      && Count(after.replies, t) == Count(s.replies, t) + 1
      && (Loses(after, t) <==> !w.recorded) && (!w.recorded ==> after.saved == s.saved)
  {
  }

  lemma LostOneMore(s: State, front: seq<Run>, last: Run, t: Thread)
    ensures AfterRuns(s, front + [last]) == AfterRun(AfterRuns(s, front), last)
    ensures LostReplies(s, front + [last], t) ==
            LostReplies(s, front, t) + if Loses(AfterRuns(s, front + [last]), t) then 1 else 0
  {
    assert (front + [last])[..|front|] == front;
  }

  /** A reply whose record is lost is posted again by the next run that reaches the thread in good weather. */
  lemma LostReplyIsRepeated(s: State, t: Thread, first: Run, second: Run)
    requires t != "" && t in s.saved && NeedsRepair(s.saved[t])
    requires first.arguments == second.arguments == [t] && !first.dryRun && !second.dryRun
    requires GoodWeather(second.weather(t)) && first.weather(t) == second.weather(t).(recorded := false)
    ensures LostReplies(s, [first, second], t) == 1
    ensures Count(AfterRuns(s, [first, second]).replies, t) == Count(s.replies, t) + 2
  {
    hide Visit, NeedsRepair, Loses;
    assert [] + [first] == [first] && [first] + [second] == [first, second];
    LostOneMore(s, [], first, t);
    LostOneMore(s, [first], second, t);
    OneTarget(s, t, first.weather(t), first);
    RepairingVisit(Load(s), t, first.weather(t));
    var mid := AfterRun(s, first);
    OneTarget(mid, t, second.weather(t), second);
    RepairingVisit(Load(mid), t, second.weather(t));
  }

  lemma OneTarget(s: State, t: Thread, w: Weather, run: Run)
    requires t != "" && run.arguments == [t] && run.weather(t) == w && !run.dryRun
    ensures AfterRun(s, run) == Visit(Load(s), t, w, false).0
  {
    assert [t][..0] == [] && Targets([t]) == [t];
    assert VisitAll(Load(s), [], run.weather, false) == Load(s);
  }

  /** A dry run changes neither the store nor the world. */
  lemma {:induction false} DryRunChangesNothing(s: State, targets: seq<Thread>, weather: Thread -> Weather)
    ensures VisitAll(s, targets, weather, true) == s
  {
    if targets != [] {
      DryRunChangesNothing(s, targets[..|targets| - 1], weather);
    }
  }

  /** The thread is not tagged, has an item, and neither GitHub nor Discord nor the disk fails. */
  ghost predicate GoodWeather(w: Weather) {
    w.handled.NotTagged? && w.hasItem && w.issue.Some? && w.reply.Some? && w.recorded && Genuine(w)
  }

  ghost predicate Open(s: State, t: Thread) {
    t !in s.published || NeedsRepair(s.published[t])
  }

  /** The thread has its issue, old or new, and one reply more, and the disk has the record of it. */
  ghost predicate Completed(before: State, after: State, t: Thread) {
    && t in after.published && HasWriteBack(after.published[t])
    && t in after.saved && after.saved[t] == after.published[t]
    && Count(after.replies, t) == Count(before.replies, t) + 1
    && if t in before.published then
         after.published[t].issueNumber == before.published[t].issueNumber
         && Count(after.issues, t) == Count(before.issues, t)
       else
         Count(after.issues, t) == Count(before.issues, t) + 1
  }

  /**
    A thread that is new, or whose reply failed before, is completed by the next run that
    reaches it in good weather, without a second issue.
   */
  lemma {:induction false} GoodWeatherCompletes(s: State, targets: seq<Thread>, weather: Thread -> Weather, t: Thread)
    requires t != "" && t in targets && Open(s, t) && GoodWeather(weather(t))
    ensures Completed(s, VisitAll(s, targets, weather, false), t)
  {
    var front, last := targets[..|targets| - 1], targets[|targets| - 1];
    assert targets == front + [last];
    if t in front {
      GoodWeatherCompletes(s, front, weather, t);
    } else {
      UntouchedByOthers(s, front, weather, t);
    }
    if last != t {
      VisitFrame(VisitAll(s, front, weather, false), last, weather(last), false, t);
    }
  }

  lemma {:induction false} UntouchedByOthers(s: State, targets: seq<Thread>, weather: Thread -> Weather, t: Thread)
    requires t !in targets
    ensures
      var after := VisitAll(s, targets, weather, false);
      && (t in after.published <==> t in s.published)
      && (t in s.published ==> after.published[t] == s.published[t])
      && Count(after.issues, t) == Count(s.issues, t) && Count(after.replies, t) == Count(s.replies, t)
  {
    if targets != [] {
      var front, last := targets[..|targets| - 1], targets[|targets| - 1];
      assert last in targets && forall x :: x in front ==> x in targets;
      UntouchedByOthers(s, front, weather, t);
      VisitFrame(VisitAll(s, front, weather, false), last, weather(last), false, t);
    }
  }

  // ---------------------------------------------------------------------------------------
  // What one visit does, told by its verdict
  // ---------------------------------------------------------------------------------------

  /** What a visit that is no dry run adds to the world. */
  ghost predicate Adds(before: State, after: State, t: Thread, issues: nat, replies: nat) {
    && Count(after.issues, t) == Count(before.issues, t) + issues
    && Count(after.replies, t) == Count(before.replies, t) + replies
  }

  /** Each verdict says what was done, and to which records. */
  lemma VerdictTells(s: State, t: Thread, w: Weather)
    ensures
      var (after, verdict) := Visit(s, t, w, false);
      match verdict
      case Filed =>
        && t !in s.published && Adds(s, after, t, 1, 1) && w.issue.Some? && w.reply.Some?
        && t in after.saved
        && after.saved[t] == Record(w.issue.value.number, w.issue.value.url, t, w.reply.value, Created)
      case Repaired =>
        && t in s.published && Adds(s, after, t, 0, 1) && w.reply.Some?
        && t in after.saved && after.saved[t] == s.published[t].(reactedId := t, replyId := w.reply.value)
      case AlreadyPublished => after == s && t in s.published && !NeedsRepair(s.published[t])
      case NoItems => after == s && t !in s.published && !w.hasItem
      case Handled =>
        && w.handled.TaggedHandled? && Adds(s, after, t, 0, 0)
        && if t in s.published then after == s
           else t in after.saved && after.saved[t] == Record(0, "", "", "", Reconciled)
      case Failure => FailureTells(s, t, w, after)
  {
  }

  /** A failed visit has left undone exactly what failed and what comes after it. */
  ghost predicate FailureTells(s: State, t: Thread, w: Weather, after: State) {
    if w.handled.CheckFailed? then after == s
    else if t in s.published then
      if w.reply.None? then after == s else after.saved == s.saved && Adds(s, after, t, 0, 1) && !w.recorded
    else if w.issue.None? then after == s
    else
      && Adds(s, after, t, 1, if w.reply.Some? then 1 else 0) && (w.reply.Some? ==> !w.recorded)
      && t in after.saved && after.saved[t] == Record(w.issue.value.number, w.issue.value.url, "", "", Created)
  }

  /** A visit fails exactly when a needed step fails: the handled check, the issue, the reply, the save behind it. */
  lemma FailureExactly(s: State, t: Thread, w: Weather)
    ensures Visit(s, t, w, false).1.Failure? <==>
            || w.handled.CheckFailed?
            || (w.handled.NotTagged? && t !in s.published && w.hasItem
                && (w.issue.None? || w.reply.None? || !w.recorded))
            || (w.handled.NotTagged? && t in s.published && NeedsRepair(s.published[t])
                && (w.reply.None? || !w.recorded))
  {
  }

  // ---------------------------------------------------------------------------------------
  // Whatever failed before, a thread is completed in the end
  // ---------------------------------------------------------------------------------------

  /** A record of this thread, if there is one, is of an issue. */
  predicate OnlyFiled(records: map<Thread, Record>, t: Thread) {
    t in records ==> records[t].mode.Created? && records[t].issueNumber > 0 && records[t].issueUrl != ""
  }

  lemma VisitKeepsFiled(s: State, visited: Thread, w: Weather, dryRun: bool, t: Thread)
    requires OnlyFiled(s.published, t) && OnlyFiled(s.saved, t) && Genuine(w)
    requires visited == t ==> !w.handled.TaggedHandled?
    ensures OnlyFiled(Visit(s, visited, w, dryRun).0.published, t) && OnlyFiled(Visit(s, visited, w, dryRun).0.saved, t)
  {
    if visited != t {
      hide Visit;
      VisitFrame(s, visited, w, dryRun, t);
    }
  }

  lemma {:induction false} VisitsKeepFiled(s: State, targets: seq<Thread>, weather: Thread -> Weather, dryRun: bool,
                                           t: Thread)
    requires OnlyFiled(s.published, t) && OnlyFiled(s.saved, t) && !weather(t).handled.TaggedHandled?
    requires forall u :: Genuine(weather(u))
    ensures OnlyFiled(VisitAll(s, targets, weather, dryRun).published, t)
    ensures OnlyFiled(VisitAll(s, targets, weather, dryRun).saved, t)
  {
    if targets != [] {
      var front, last := targets[..|targets| - 1], targets[|targets| - 1];
      VisitsKeepFiled(s, front, weather, dryRun, t);
      VisitKeepsFiled(VisitAll(s, front, weather, dryRun), last, weather(last), dryRun, t);
    }
  }

  /** In this run nothing finds the thread tagged handled. */
  ghost predicate NeverTagged(run: Run, t: Thread) {
    !run.weather(t).handled.TaggedHandled? && forall u :: Genuine(run.weather(u))
  }

  lemma {:induction false} RunsKeepFiled(s: State, runs: seq<Run>, t: Thread)
    requires t !in s.saved && forall i :: 0 <= i < |runs| ==> NeverTagged(runs[i], t)
    ensures OnlyFiled(AfterRuns(s, runs).saved, t)
  {
    if runs != [] {
      var front, last := runs[..|runs| - 1], runs[|runs| - 1];
      assert forall i :: 0 <= i < |front| ==> front[i] == runs[i];
      RunsKeepFiled(s, front, t);
      assert NeverTagged(runs[|runs| - 1], t);
      VisitsKeepFiled(Load(AfterRuns(s, front)), Targets(last.arguments), last.weather, last.dryRun, t);
    }
  }

  /** A completed record stays what it is, whatever a run visits. */
  lemma {:induction false} CompletedStays(s: State, targets: seq<Thread>, weather: Thread -> Weather, dryRun: bool,
                                          t: Thread)
    requires t in s.published && t in s.saved && s.saved[t] == s.published[t] && HasWriteBack(s.published[t])
    ensures
      var after := VisitAll(s, targets, weather, dryRun);
      && t in after.published && after.published[t] == s.published[t]
      && t in after.saved && after.saved[t] == s.published[t]
  {
    if targets != [] {
      var front, last := targets[..|targets| - 1], targets[|targets| - 1];
      CompletedStays(s, front, weather, dryRun, t);
      if last != t {
        hide Visit;
        VisitFrame(VisitAll(s, front, weather, dryRun), last, weather(last), dryRun, t);
      }
    }
  }

  /**
    Whatever failed before: a thread that was new and was never found tagged handled is complete,
    with exactly one issue, after any run that reaches it in good weather.
   */
  lemma CompletedInTheEnd(s: State, runs: seq<Run>, last: Run, t: Thread)
    requires Ledger(Load(s), LostSoFar(s, [])) && t !in s.saved
    requires forall i :: 0 <= i < |runs| ==> NeverTagged(runs[i], t)
    requires NeverTagged(last, t) && !last.dryRun && t in Targets(last.arguments) && GoodWeather(last.weather(t))
    ensures
      var after := AfterRuns(s, runs + [last]);
      t in after.saved && HasWriteBack(after.saved[t]) && Count(after.issues, t) == 1
  {
    var all := runs + [last];
    RunsInTwo(s, runs, [last]);
    OneRun(AfterRuns(s, runs), last);
    RunsKeepFiled(s, runs, t);
    hide OnlyFiled, NeverTagged, Ledger, GoodWeather, AfterRuns;
    assert forall i :: 0 <= i < |runs| ==> all[i] == runs[i];
    assert all[|runs|] == last;
    RunsKeepFiled(s, all, t);
    LastRunCompletes(AfterRuns(s, runs), last, t);
    NeverTaggedIsGenuine(all, t);
    OneIssueIfFiled(s, all, t);
  }

  lemma OneRun(s: State, run: Run)
    ensures AfterRuns(s, [run]) == AfterRun(s, run)
  {
    assert [run][..0] == [];
  }

  lemma LastRunCompletes(s: State, last: Run, t: Thread)
    requires OnlyFiled(s.saved, t) && t in Targets(last.arguments) && !last.dryRun && GoodWeather(last.weather(t))
    ensures t in AfterRun(s, last).saved && HasWriteBack(AfterRun(s, last).saved[t])
  {
    if Open(Load(s), t) {
      GoodWeatherCompletes(Load(s), Targets(last.arguments), last.weather, t);
    } else {
      CompletedStays(Load(s), Targets(last.arguments), last.weather, false, t);
    }
  }

  lemma NeverTaggedIsGenuine(runs: seq<Run>, t: Thread)
    requires forall i :: 0 <= i < |runs| ==> NeverTagged(runs[i], t)
    ensures forall i, u :: 0 <= i < |runs| ==> Genuine(runs[i].weather(u))
  {
    forall i, u | 0 <= i < |runs|
      ensures Genuine(runs[i].weather(u))
    {
      assert NeverTagged(runs[i], t);
    }
  }

  lemma OneIssueIfFiled(s: State, runs: seq<Run>, t: Thread)
    requires Ledger(Load(s), LostSoFar(s, []))
    requires forall i, u :: 0 <= i < |runs| ==> Genuine(runs[i].weather(u))
    requires OnlyFiled(AfterRuns(s, runs).saved, t)
    ensures t in AfterRuns(s, runs).saved ==> Count(AfterRuns(s, runs).issues, t) == 1
  {
    RunsKeepLedger(s, runs);
    assert Accounted(Load(AfterRuns(s, runs)), t, LostSoFar(s, runs)(t));
  }

  // ---------------------------------------------------------------------------------------
  // A thread first met tagged handled is left alone for ever
  // ---------------------------------------------------------------------------------------

  lemma {:induction false} TaggedIsReconciled(s: State, targets: seq<Thread>, weather: Thread -> Weather, t: Thread)
    requires t !in s.published && t in targets && weather(t).handled.TaggedHandled?
    ensures
      var after := VisitAll(s, targets, weather, false);
      && t in after.published && after.published[t] == Record(0, "", "", "", Reconciled)
      && t in after.saved && after.saved[t] == after.published[t]
  {
    var front, last := targets[..|targets| - 1], targets[|targets| - 1];
    assert targets == front + [last];
    if t in front {
      TaggedIsReconciled(s, front, weather, t);
    } else {
      UntouchedByOthers(s, front, weather, t);
    }
    if last != t {
      hide Visit;
      VisitFrame(VisitAll(s, front, weather, false), last, weather(last), false, t);
    }
  }

  lemma {:induction false} RunsInTwo(s: State, a: seq<Run>, b: seq<Run>)
    ensures AfterRuns(s, a + b) == AfterRuns(AfterRuns(s, a), b)
    decreases |b|
  {
    if b == [] {
      assert a + b == a;
    } else {
      RunsInTwo(s, a, b[..|b| - 1]);
      assert (a + b)[..|a + b| - 1] == a + b[..|b| - 1] && (a + b)[|a + b| - 1] == b[|b| - 1];
    }
  }

  ghost predicate AllGenuine(runs: seq<Run>) {
    forall i, u :: 0 <= i < |runs| ==> Genuine(runs[i].weather(u))
  }

  lemma PartsAreGenuine(a: seq<Run>, b: seq<Run>)
    requires AllGenuine(a + b)
    ensures AllGenuine(a) && AllGenuine(b)
  {
    forall i, u | 0 <= i < |a|
      ensures Genuine(a[i].weather(u))
    {
      assert Genuine((a + b)[i].weather(u));
    }
    forall i, u | 0 <= i < |b|
      ensures Genuine(b[i].weather(u))
    {
      assert Genuine((a + b)[|a| + i].weather(u));
    }
  }

  ghost predicate LeftReconciled(s: State, t: Thread) {
    t in s.saved && s.saved[t].mode.Reconciled? && s.saved[t].issueNumber == 0
  }

  lemma ReconciledStays(s: State, runs: seq<Run>, lost: Thread -> nat, t: Thread)
    requires Ledger(Load(s), lost) && AllGenuine(runs) && LeftReconciled(s, t)
    ensures LeftReconciled(AfterRuns(s, runs), t)
  {
    RunsGrow(s, runs, lost);
    assert KeptAt(s.saved, AfterRuns(s, runs).saved, t);
  }

  lemma FirstRunReconciles(s: State, first: Run, t: Thread)
    requires t !in s.saved && !first.dryRun && t in Targets(first.arguments) && first.weather(t).handled.TaggedHandled?
    ensures LeftReconciled(AfterRuns(s, [first]), t)
  {
    TaggedIsReconciled(Load(s), Targets(first.arguments), first.weather, t);
    OneRun(s, first);
  }

  lemma NoIssueIfReconciled(s: State, runs: seq<Run>, t: Thread)
    requires Ledger(Load(s), LostSoFar(s, [])) && AllGenuine(runs) && LeftReconciled(AfterRuns(s, runs), t)
    ensures Count(AfterRuns(s, runs).issues, t) == 0
  {
    RunsKeepLedger(s, runs);
    assert Accounted(Load(AfterRuns(s, runs)), t, LostSoFar(s, runs)(t));
  }

  /** A new thread that a run finds tagged handled is recorded so, and no later run files an issue for it. */
  lemma TaggedIsLeftAlone(s: State, first: Run, runs: seq<Run>, t: Thread)
    requires Ledger(Load(s), LostSoFar(s, [])) && t !in s.saved && AllGenuine([first] + runs)
    requires !first.dryRun && t in Targets(first.arguments) && first.weather(t).handled.TaggedHandled?
    ensures LeftReconciled(AfterRuns(s, [first] + runs), t) && Count(AfterRuns(s, [first] + runs).issues, t) == 0
  {
    FirstRunReconciles(s, first, t);
    PartsAreGenuine([first], runs);
    RunsKeepLedger(s, [first]);
    hide Ledger, LeftReconciled, AfterRuns, AllGenuine;
    ReconciledStays(AfterRuns(s, [first]), runs, LostSoFar(s, [first]), t);
    RunsInTwo(s, [first], runs);
    NoIssueIfReconciled(s, [first] + runs, t);
  }

  /** From any ledger on, saved records only grow. */
  lemma {:induction false} RunsGrow(s: State, runs: seq<Run>, lost: Thread -> nat)
    requires Ledger(Load(s), lost)
    requires forall i, t :: 0 <= i < |runs| ==> Genuine(runs[i].weather(t))
    ensures Grows(s.saved, AfterRuns(s, runs).saved)
    decreases |runs|
  {
    if runs != [] {
      var first := runs[0];
      forall i | 0 <= i < |Targets(first.arguments)|
        ensures Targets(first.arguments)[i] != "" && Genuine(first.weather(Targets(first.arguments)[i]))
      {
        assert Targets(first.arguments)[i] in Targets(first.arguments);
        assert Genuine(runs[0].weather(Targets(first.arguments)[i]));
      }
      VisitAllKeepsLedger(Load(s), Targets(first.arguments), first.weather, first.dryRun, lost);
      var mid := AfterRun(s, first);
      var lost' := (t: Thread) => lost(t) + if Loses(mid, t) then 1 else 0;
      LoadKeepsLedger(mid, lost, lost');
      forall i, t | 0 <= i < |runs[1..]|
        ensures Genuine(runs[1..][i].weather(t))
      {
        assert runs[1..][i] == runs[i + 1];
      }
      RunsGrow(mid, runs[1..], lost');
      assert [first] + runs[1..] == runs;
      OneRun(s, first);
      RunsInTwo(s, [first], runs[1..]);
      GrowsTwice(s.saved, mid.saved, AfterRuns(s, runs).saved);
    }
  }

  // ---------------------------------------------------------------------------------------
  // The targets of a run
  // ---------------------------------------------------------------------------------------

  /** Each id named is visited once, in the order of first mention. */
  lemma {:induction false} TargetsExactly(arguments: seq<Thread>)
    ensures forall t :: t in Targets(arguments) <==> t in arguments && t != ""
    ensures forall i, j :: 0 <= i < j < |Targets(arguments)| ==> Targets(arguments)[i] != Targets(arguments)[j]
    ensures forall k :: 0 <= k <= |arguments| ==> Targets(arguments[..k]) <= Targets(arguments)
  {
    if arguments != [] {
      var front, t := arguments[..|arguments| - 1], arguments[|arguments| - 1];
      TargetsExactly(front);
      assert arguments == front + [t];
      forall k | 0 <= k <= |arguments|
        ensures Targets(arguments[..k]) <= Targets(arguments)
      {
        if k <= |front| {
          assert arguments[..k] == front[..k];
          assert Targets(front[..k]) <= Targets(front) <= Targets(arguments);
        } else {
          assert arguments[..k] == arguments;
        }
      }
    }
  }
}
