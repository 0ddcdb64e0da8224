/**
  Appending to the review log from many processes at once.

  Each process takes the exclusive lock, reads the log line by line for its own event id, writes
  its line if it met none, and releases the lock.  Any process may die at any point, which
  releases its lock.  Writing one line is one step.
 */
module EventLog {
  import opened Shared

  datatype Event = Event(id: string, body: string)

  datatype Phase =
    | Ready
    | Scanning(pos: nat)
    | Closing(inserted: bool)
    | Done(inserted: bool)
    | Dead(wrote: bool)

  datatype Process = Process(event: Event, phase: Phase)

  datatype State = State(log: seq<Event>, holder: Option<nat>, procs: seq<Process>)

  /** The log as one caller sees it while nobody else holds the lock. */
  class LogFile {
    var log: seq<Event>

    method AppendEvent(event: Event) returns (inserted: bool)
      modifies this
      ensures inserted <==> forall k :: 0 <= k < |old(log)| ==> old(log)[k].id != event.id
      ensures log == if inserted then old(log) + [event] else old(log)
    {
      for k := 0 to |log|
        invariant log == old(log)
        invariant forall j :: 0 <= j < k ==> log[j].id != event.id
      {
        if log[k].id == event.id {
          return false;
        }
      }
      log := log + [event];
      inserted := true;
    }
  }

  // ---------------------------------------------------------------------------------------
  // The interleaved machine
  // ---------------------------------------------------------------------------------------

  datatype Step =
    | Spawn(event: Event)
    | Acquire(i: nat)
    | ReadLine(i: nat)
    | WriteLine(i: nat)
    | Release(i: nat)
    | Die(i: nat)

  predicate Enabled(s: State, step: Step) {
    match step
    case Spawn(_) => true
    case Acquire(i) => i < |s.procs| && s.procs[i].phase.Ready? && s.holder.None?
    case ReadLine(i) => i < |s.procs| && s.procs[i].phase.Scanning? && s.procs[i].phase.pos < |s.log|
    case WriteLine(i) => i < |s.procs| && s.procs[i].phase.Scanning? && s.procs[i].phase.pos >= |s.log|
    case Release(i) => i < |s.procs| && s.procs[i].phase.Closing?
    case Die(i) => i < |s.procs| && !s.procs[i].phase.Done? && !s.procs[i].phase.Dead?
  }

  function Move(s: State, i: nat, phase: Phase): seq<Process>
    requires i < |s.procs|
  {
    s.procs[i := s.procs[i].(phase := phase)]
  }

  function Apply(s: State, step: Step): State
    requires Enabled(s, step)
  {
    match step
    case Spawn(event) => s.(procs := s.procs + [Process(event, Ready)])
    case Acquire(i) => State(s.log, Some(i), Move(s, i, Scanning(0)))
    case ReadLine(i) =>
      var pos := s.procs[i].phase.pos;
      s.(procs := Move(s, i, if s.log[pos].id == s.procs[i].event.id then Closing(false) else Scanning(pos + 1)))
    case WriteLine(i) => State(s.log + [s.procs[i].event], s.holder, Move(s, i, Closing(true)))
    case Release(i) => State(s.log, None, Move(s, i, Done(s.procs[i].phase.inserted)))
    case Die(i) =>
      State(s.log, if s.holder == Some(i) then None else s.holder, Move(s, i, Dead(s.procs[i].phase == Closing(true))))
  }

  // ---------------------------------------------------------------------------------------
  // The invariant
  // ---------------------------------------------------------------------------------------

  predicate Wrote(p: Process) {
    p.phase == Closing(true) || p.phase == Done(true) || p.phase == Dead(true)
  }

  ghost predicate IdIn(log: seq<Event>, id: string) {
    exists k :: 0 <= k < |log| && log[k].id == id
  }

  ghost predicate DistinctIds(log: seq<Event>) {
    forall j, k :: 0 <= j < k < |log| ==> log[j].id != log[k].id
  }

  /** Only the lock holder is between acquire and release, and what it has read so far is not its id. */
  ghost predicate Local(s: State, i: nat)
    requires i < |s.procs|
  {
    var p := s.procs[i];
    && (p.phase.Scanning? || p.phase.Closing? <==> s.holder == Some(i))
    && (p.phase.Scanning? ==>
          p.phase.pos <= |s.log| && forall k :: 0 <= k < p.phase.pos ==> s.log[k].id != p.event.id)
    && (p.phase.Closing? || p.phase.Done? || Wrote(p) ==> IdIn(s.log, p.event.id))
  }

  /** Every new line was written by a process, and no two writers share an id. */
  ghost predicate WrittenBy(s: State, k: nat)
    requires k < |s.log|
  {
    exists i :: 0 <= i < |s.procs| && Wrote(s.procs[i]) && s.procs[i].event == s.log[k]
  }

  ghost predicate Invariant(base: seq<Event>, s: State) {
    && base <= s.log && DistinctIds(s.log)
    && (s.holder.Some? ==> s.holder.value < |s.procs|)
    && (forall i :: 0 <= i < |s.procs| ==> Local(s, i))
    && (forall i, j :: 0 <= i < j < |s.procs| && Wrote(s.procs[i]) && Wrote(s.procs[j]) ==>
          s.procs[i].event.id != s.procs[j].event.id)
    && (forall i, k :: 0 <= i < |s.procs| && 0 <= k < |base| && Wrote(s.procs[i]) ==>
          s.procs[i].event.id != base[k].id)
    && (forall k :: |base| <= k < |s.log| ==> WrittenBy(s, k))
  }

  lemma WriteKeeps(base: seq<Event>, s: State, i: nat)
    requires Invariant(base, s) && Enabled(s, WriteLine(i))
    ensures Invariant(base, Apply(s, WriteLine(i)))
  {
    var s' := Apply(s, WriteLine(i));
    var id := s.procs[i].event.id;
    assert Local(s, i);
    assert !IdIn(s.log, id);
    forall j | 0 <= j < |s'.procs|
      ensures Local(s', j)
      ensures j != i && Wrote(s'.procs[j]) ==> s'.procs[j].event.id != id
    {
      assert Local(s, j);
      if j == i {
        assert s'.log[|s.log|].id == id;
      } else if IdIn(s.log, s.procs[j].event.id) {
        var k :| 0 <= k < |s.log| && s.log[k].id == s.procs[j].event.id;
        assert s'.log[k].id == s.procs[j].event.id;
      }
    }
    forall k | |base| <= k < |s'.log|
      ensures WrittenBy(s', k)
    {
      if k < |s.log| {
        assert WrittenBy(s, k);
        var j :| 0 <= j < |s.procs| && Wrote(s.procs[j]) && s.procs[j].event == s.log[k];
        assert s'.procs[j] == s.procs[j];
      } else {
        assert Wrote(s'.procs[i]) && s'.procs[i].event == s'.log[k];
      }
    }
  }

  lemma OtherStepIsLocal(base: seq<Event>, s: State, step: Step, j: nat)
    requires Invariant(base, s) && Enabled(s, step) && !step.WriteLine?
    requires j < |Apply(s, step).procs|
    ensures Local(Apply(s, step), j)
  {
    var s' := Apply(s, step);
    if !step.Spawn? {
      assert Local(s, step.i);
    }
    if j < |s.procs| {
      assert Local(s, j);
      if step.ReadLine? && step.i == j && s'.procs[j].phase == Closing(false) {
        assert s.log[s.procs[j].phase.pos].id == s.procs[j].event.id;
      }
    }
  }

  /** A step that leaves the log alone keeps every writer a writer, and makes no new one. */
  lemma OtherStepKeeps(base: seq<Event>, s: State, step: Step)
    requires Invariant(base, s) && Enabled(s, step) && !step.WriteLine?
    ensures Invariant(base, Apply(s, step))
  {
    var s' := Apply(s, step);
    forall j | 0 <= j < |s.procs|
      ensures s'.procs[j].event == s.procs[j].event && (Wrote(s'.procs[j]) <==> Wrote(s.procs[j]))
    {
      assert Local(s, j);
    }
    forall j | 0 <= j < |s'.procs|
      ensures Local(s', j)
    {
      OtherStepIsLocal(base, s, step, j);
    }
    forall k | |base| <= k < |s'.log|
      ensures WrittenBy(s', k)
    {
      assert WrittenBy(s, k);
      var j :| 0 <= j < |s.procs| && Wrote(s.procs[j]) && s.procs[j].event == s.log[k];
      assert Wrote(s'.procs[j]) && s'.procs[j].event == s'.log[k];
    }
  }

  // ---------------------------------------------------------------------------------------
  // Every interleaving
  // ---------------------------------------------------------------------------------------

  ghost predicate IsRun(s: State, steps: seq<Step>)
    decreases |steps|, 0
  {
    if steps == [] then true
    else IsRun(s, steps[..|steps| - 1]) && Enabled(After(s, steps[..|steps| - 1]), steps[|steps| - 1])
  }

  ghost function After(s: State, steps: seq<Step>): State
    requires IsRun(s, steps)
    decreases |steps|, 1
  {
    if steps == [] then s else Apply(After(s, steps[..|steps| - 1]), steps[|steps| - 1])
  }

  lemma {:induction false} RunKeepsInvariant(base: seq<Event>, s: State, steps: seq<Step>)
    requires Invariant(base, s) && IsRun(s, steps)
    ensures Invariant(base, After(s, steps)) && s.log <= After(s, steps).log
  {
    if steps != [] {
      var front, step := steps[..|steps| - 1], steps[|steps| - 1];
      RunKeepsInvariant(base, s, front);
      if step.WriteLine? {
        WriteKeeps(base, After(s, front), step.i);
      } else {
        OtherStepKeeps(base, After(s, front), step);
      }
    }
  }

  /**
    In every interleaving of any number of appends, some of which may die: the log only grows by
    a suffix, no id occurs twice, each new line has exactly one writer, a call that returned
    true put its own event among the new lines, no two such calls share an id, and a call that
    returned false found its id in the log.
   */
  lemma AppendsAreAtomic(base: seq<Event>, steps: seq<Step>)
    requires DistinctIds(base) && IsRun(State(base, None, []), steps)
    ensures
      var end := After(State(base, None, []), steps);
      && base <= end.log && DistinctIds(end.log)
      && (forall k :: |base| <= k < |end.log| ==> WrittenBy(end, k))
      && (forall i, j :: 0 <= i < j < |end.procs| && Wrote(end.procs[i]) && Wrote(end.procs[j]) ==>
            end.procs[i].event.id != end.procs[j].event.id)
      && (forall i :: 0 <= i < |end.procs| && end.procs[i].phase.Done? ==> IdIn(end.log, end.procs[i].event.id))
      && (forall i :: 0 <= i < |end.procs| && Wrote(end.procs[i]) ==> AmongNew(base, end, i))
  {
    var start := State(base, None, []);
    var end := After(start, steps);
    RunKeepsInvariant(base, start, steps);
    forall i | 0 <= i < |end.procs| && end.procs[i].phase.Done?
      ensures IdIn(end.log, end.procs[i].event.id)
    {
      assert Local(end, i);
    }
    forall i | 0 <= i < |end.procs| && Wrote(end.procs[i])
      ensures AmongNew(base, end, i)
    {
      WriterIsAmongNew(base, end, i);
    }
  }

  /** The line of this process is one of the new ones. */
  ghost predicate AmongNew(base: seq<Event>, s: State, i: nat)
    requires i < |s.procs|
  {
    exists k :: |base| <= k < |s.log| && s.log[k] == s.procs[i].event
  }

  /** A writer's id is in the log and not in its old part, and the line there has no other writer. */
  lemma WriterIsAmongNew(base: seq<Event>, s: State, i: nat)
    requires Invariant(base, s) && i < |s.procs| && Wrote(s.procs[i])
    ensures AmongNew(base, s, i)
  {
    assert Local(s, i);
    assert forall k :: 0 <= k < |base| ==> s.log[k] == base[k];
    var k :| 0 <= k < |s.log| && s.log[k].id == s.procs[i].event.id;
    assert WrittenBy(s, k);
    var j :| 0 <= j < |s.procs| && Wrote(s.procs[j]) && s.procs[j].event == s.log[k];
    assert j == i;
  }

  predicate ReturnedTrue(p: Process, id: string) {
    p.event.id == id && p.phase == Done(true)
  }

  /** When every call has completed, each new line is owed to exactly one call that returned true. */
  lemma OneCallReturnsTrue(base: seq<Event>, steps: seq<Step>, k: nat)
    requires DistinctIds(base) && IsRun(State(base, None, []), steps)
    requires |base| <= k < |After(State(base, None, []), steps).log|
    requires forall i :: 0 <= i < |After(State(base, None, []), steps).procs| ==>
               After(State(base, None, []), steps).procs[i].phase.Done?
    ensures
      var end := After(State(base, None, []), steps);
      exists i :: 0 <= i < |end.procs| && end.procs[i] == Process(end.log[k], Done(true))
                  && forall j :: 0 <= j < |end.procs| && ReturnedTrue(end.procs[j], end.log[k].id) ==> j == i
  {
    var end := After(State(base, None, []), steps);
    AppendsAreAtomic(base, steps);
    assert WrittenBy(end, k);
    var i :| 0 <= i < |end.procs| && Wrote(end.procs[i]) && end.procs[i].event == end.log[k];
    assert end.procs[i] == Process(end.log[k], Done(true));
    forall j | 0 <= j < |end.procs| && ReturnedTrue(end.procs[j], end.log[k].id)
      ensures j == i
    {
      assert Wrote(end.procs[j]);
    }
  }
}
