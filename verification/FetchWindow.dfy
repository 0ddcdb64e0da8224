/**
  The rolling watermark of the bug-report fetch, and the delta read from it.

  Each fetch stamps the messages it stores with one time, and then, if it survives to save its
  state, rolls the previous watermark forward.  A fetch that dies before saving leaves its
  messages behind.  Times are integers; the epoch is zero.
 */
module FetchWindow {
  import opened Shared

  const EPOCH: int := 0

  datatype Message = Message(id: string, fetchedAt: int)

  datatype Store = Store(messages: seq<Message>, lastFetchAt: int, prevFetchAt: int, importedLegacy: bool)

  const EMPTY_STORE := Store([], EPOCH, EPOCH, false)

  /** One fetch: the legacy export if its file exists, the new message ids, and its clock readings. */
  datatype Fetch = Fetch(legacy: Option<seq<string>>, ids: seq<string>,
                         importAt: int, stampAt: int, savedAt: int, saves: bool)

  function Stamped(ids: seq<string>, at: int): seq<Message> {
    seq(|ids|, i requires 0 <= i < |ids| => Message(ids[i], at))
  }

  predicate Imports(s: Store, f: Fetch) {
    !s.importedLegacy && f.legacy.Some?
  }

  /** Everything this fetch stores. */
  function Batch(s: Store, f: Fetch): seq<Message> {
    (if Imports(s, f) then Stamped(f.legacy.value, f.importAt) else []) + Stamped(f.ids, f.stampAt)
  }

  /** The message file kept by this fetch; the legacy import overwrites it. */
  function Kept(s: Store, f: Fetch): seq<Message> {
    if Imports(s, f) then [] else s.messages
  }

  /** The store on disk: messages are appended first, the state is saved last. */
  class FetchState {
    var messages: seq<Message>
    var lastFetchAt: int
    var prevFetchAt: int
    var importedLegacy: bool

    ghost function Now(): Store
      reads this
    {
      Store(messages, lastFetchAt, prevFetchAt, importedLegacy)
    }

    method Fetch(f: Fetch)
      modifies this
      ensures Now() == AfterFetch(old(Now()), f)
    {
      var imported := false;
      if !importedLegacy && f.legacy.Some? {
        messages := Stamped(f.legacy.value, f.importAt);
        imported := true;
      }
      messages := messages + Stamped(f.ids, f.stampAt);
      if f.saves {
        importedLegacy := importedLegacy || imported;
        prevFetchAt := lastFetchAt;
        lastFetchAt := f.savedAt;
      }
    }
  }

  function AfterFetch(s: Store, f: Fetch): Store {
    var messages := Kept(s, f) + Batch(s, f);
    if f.saves then Store(messages, f.savedAt, s.lastFetchAt, s.importedLegacy || Imports(s, f))
    else s.(messages := messages)
  }

  /**
    Every new id is stored last, in order and under one stamp; before it stands what the file held,
    or the legacy export that a first import put in its place; and a saved fetch rolls the watermark.
   */
  lemma FetchStores(s: Store, f: Fetch)
    ensures
      var after := AfterFetch(s, f);
      var kept := |after.messages| - |f.ids|;
      && kept >= 0 && (forall i :: 0 <= i < |f.ids| ==> after.messages[kept + i] == Message(f.ids[i], f.stampAt))
      && (if f.legacy.Some? && !s.importedLegacy then
            kept == |f.legacy.value|
            && forall i :: 0 <= i < kept ==> after.messages[i] == Message(f.legacy.value[i], f.importAt)
          else after.messages[..kept] == s.messages)
      && (if f.saves then
            after.prevFetchAt == s.lastFetchAt && after.lastFetchAt == f.savedAt
            && (after.importedLegacy <==> s.importedLegacy || f.legacy.Some?)
          else after == s.(messages := after.messages))
  {
  }

  // ---------------------------------------------------------------------------------------
  // The delta
  // ---------------------------------------------------------------------------------------

  function Later(messages: seq<Message>, than: int): seq<Message> {
    if messages == [] then []
    else
      var front, m := Later(messages[..|messages| - 1], than), messages[|messages| - 1];
      if m.fetchedAt > than then front + [m] else front
  }

  function At(messages: seq<Message>, time: int): seq<Message> {
    if messages == [] then []
    else
      var front, m := At(messages[..|messages| - 1], time), messages[|messages| - 1];
      if m.fetchedAt == time then front + [m] else front
  }

  function MaxFetchedAt(messages: seq<Message>): int {
    if messages == [] then EPOCH
    else
      var front, m := MaxFetchedAt(messages[..|messages| - 1]), messages[|messages| - 1];
      if m.fetchedAt > front then m.fetchedAt else front
  }

  /** The rows of the most recent fetch window; without a watermark, the rows of the newest stamp. */
  function Delta(s: Store): seq<Message> {
    if s.messages == [] then []
    else if s.prevFetchAt != EPOCH then Later(s.messages, s.prevFetchAt)
    else At(s.messages, MaxFetchedAt(s.messages))
  }

  lemma {:induction false} LaterConcat(a: seq<Message>, b: seq<Message>, than: int)
    ensures Later(a + b, than) == Later(a, than) + Later(b, than)
    decreases |b|
  {
    if b == [] {
      assert a + b == a;
    } else {
      LaterConcat(a, b[..|b| - 1], than);
      assert (a + b)[..|a + b| - 1] == a + b[..|b| - 1];
      assert (a + b)[|a + b| - 1] == b[|b| - 1];
    }
  }

  lemma {:induction false} AllLater(messages: seq<Message>, than: int)
    requires forall i :: 0 <= i < |messages| ==> messages[i].fetchedAt > than
    ensures Later(messages, than) == messages
  {
    if messages != [] {
      AllLater(messages[..|messages| - 1], than);
    }
  }

  lemma {:induction false} NoneLater(messages: seq<Message>, than: int)
    requires forall i :: 0 <= i < |messages| ==> messages[i].fetchedAt <= than
    ensures Later(messages, than) == []
  {
    if messages != [] {
      NoneLater(messages[..|messages| - 1], than);
    }
  }

  lemma {:induction false} LaterMember(messages: seq<Message>, than: int, m: Message)
    ensures m in Later(messages, than) <==> m in messages && m.fetchedAt > than
  {
    if messages != [] {
      LaterMember(messages[..|messages| - 1], than, m);
      assert messages == messages[..|messages| - 1] + [messages[|messages| - 1]];
    }
  }

  lemma {:induction false} AtMember(messages: seq<Message>, time: int, m: Message)
    ensures m in At(messages, time) <==> m in messages && m.fetchedAt == time
  {
    if messages != [] {
      AtMember(messages[..|messages| - 1], time, m);
      assert messages == messages[..|messages| - 1] + [messages[|messages| - 1]];
    }
  }

  lemma {:induction false} MaxIsNewest(messages: seq<Message>)
    ensures forall m :: m in messages ==> m.fetchedAt <= MaxFetchedAt(messages)
    ensures MaxFetchedAt(messages) == EPOCH || exists m :: m in messages && m.fetchedAt == MaxFetchedAt(messages)
  {
    if messages != [] {
      MaxIsNewest(messages[..|messages| - 1]);
      assert messages == messages[..|messages| - 1] + [messages[|messages| - 1]];
    }
  }

  /** The delta is what is stamped after the watermark; without one, what bears the newest stamp of all. */
  lemma DeltaExactly(s: Store, m: Message)
    requires forall o :: o in s.messages ==> o.fetchedAt >= EPOCH
    ensures m in Delta(s) <==>
            m in s.messages &&
            if s.prevFetchAt != EPOCH then m.fetchedAt > s.prevFetchAt
            else forall o :: o in s.messages ==> o.fetchedAt <= m.fetchedAt
  {
    LaterMember(s.messages, s.prevFetchAt, m);
    AtMember(s.messages, MaxFetchedAt(s.messages), m);
    MaxIsNewest(s.messages);
  }

  // ---------------------------------------------------------------------------------------
  // Under a strictly increasing clock
  // ---------------------------------------------------------------------------------------

  ghost predicate ClockAfter(f: Fetch, now: int) {
    EPOCH <= now < f.importAt < f.stampAt < f.savedAt
  }

  /** Nothing in the store is from the future. */
  ghost predicate Past(s: Store, now: int) {
    && EPOCH <= s.lastFetchAt <= now
    && (forall i :: 0 <= i < |s.messages| ==> s.messages[i].fetchedAt <= now)
  }

  /** Rows that no saved fetch has accounted for yet. */
  function Pending(s: Store): seq<Message> {
    Later(s.messages, s.lastFetchAt)
  }

  lemma FetchKeepsPast(s: Store, f: Fetch, now: int)
    requires Past(s, now) && ClockAfter(f, now)
    ensures Past(AfterFetch(s, f), f.savedAt)
  {
  }

  /**
    From the second saved fetch on, the delta is what that fetch stored, together with what
    fetches that died since the last saved one had left in the kept file; nothing older.
   */
  lemma DeltaIsTheBatch(s: Store, f: Fetch, now: int)
    requires Past(s, now) && ClockAfter(f, now) && f.saves && s.lastFetchAt != EPOCH
    ensures Delta(AfterFetch(s, f)) == Later(Kept(s, f), s.lastFetchAt) + Batch(s, f)
    ensures Pending(AfterFetch(s, f)) == []
  {
    DeltaFromWatermark(AfterFetch(s, f));
    LaterConcat(Kept(s, f), Batch(s, f), s.lastFetchAt);
    BatchIsLater(s, f, now);
    FetchKeepsPast(s, f, now);
    NoneLater(AfterFetch(s, f).messages, f.savedAt);
  }

  lemma DeltaFromWatermark(s: Store)
    requires s.prevFetchAt != EPOCH
    ensures Delta(s) == Later(s.messages, s.prevFetchAt)
  {
  }

  lemma BatchIsLater(s: Store, f: Fetch, now: int)
    requires Past(s, now) && ClockAfter(f, now)
    ensures Later(Batch(s, f), s.lastFetchAt) == Batch(s, f)
  {
    AllLater(Batch(s, f), s.lastFetchAt);
  }

  /** With no dead fetch since the last saved one, the delta is exactly the stored batch. */
  lemma DeltaIsExactlyTheBatch(s: Store, f: Fetch, now: int)
    requires Past(s, now) && ClockAfter(f, now) && f.saves && s.lastFetchAt != EPOCH
    requires Pending(s) == []
    ensures Delta(AfterFetch(s, f)) == Batch(s, f)
  {
    DeltaIsTheBatch(s, f, now);
    assert [] + Batch(s, f) == Batch(s, f);
  }

  // ---------------------------------------------------------------------------------------
  // Runs of fetches
  // ---------------------------------------------------------------------------------------

  function AfterAll(s: Store, run: seq<Fetch>): Store {
    if run == [] then s else AfterFetch(AfterAll(s, run[..|run| - 1]), run[|run| - 1])
  }

  /** The deltas a reader gets by reading once after every saved fetch. */
  function Deltas(s: Store, run: seq<Fetch>): seq<Message> {
    if run == [] then []
    else
      var front := Deltas(s, run[..|run| - 1]);
      if run[|run| - 1].saves then front + Delta(AfterAll(s, run)) else front
  }

  /** Everything the run stored, in storing order. */
  function Stored(s: Store, run: seq<Fetch>): seq<Message> {
    if run == [] then []
    else Stored(s, run[..|run| - 1]) + Batch(AfterAll(s, run[..|run| - 1]), run[|run| - 1])
  }

  function EndOf(run: seq<Fetch>, now: int): int {
    if run == [] then now else run[|run| - 1].savedAt
  }

  ghost predicate ClockRuns(run: seq<Fetch>, now: int) {
    forall i :: 0 <= i < |run| ==> ClockAfter(run[i], EndOf(run[..i], now))
  }

  /** Rows that no delta had shown yet when a legacy import overwrote the file. */
  function Overwritten(s: Store, run: seq<Fetch>): seq<Message> {
    if run == [] then []
    else
      var mid, f := AfterAll(s, run[..|run| - 1]), run[|run| - 1];
      Overwritten(s, run[..|run| - 1]) + if Imports(mid, f) then Pending(mid) else []
  }

  lemma {:induction false} RunKeepsPast(s: Store, run: seq<Fetch>, now: int)
    requires Past(s, now) && s.lastFetchAt != EPOCH && ClockRuns(run, now)
    ensures Past(AfterAll(s, run), EndOf(run, now)) && AfterAll(s, run).lastFetchAt != EPOCH
  {
    if run != [] {
      FrontRuns(run, now);
      RunKeepsPast(s, run[..|run| - 1], now);
      FetchKeepsPast(AfterAll(s, run[..|run| - 1]), run[|run| - 1], EndOf(run[..|run| - 1], now));
    }
  }

  lemma FrontRuns(run: seq<Fetch>, now: int)
    requires run != [] && ClockRuns(run, now)
    ensures ClockRuns(run[..|run| - 1], now) && ClockAfter(run[|run| - 1], EndOf(run[..|run| - 1], now))
  {
    var front := run[..|run| - 1];
    forall i | 0 <= i < |front|
      ensures ClockAfter(front[i], EndOf(front[..i], now))
    {
      assert front[i] == run[i] && front[..i] == run[..i];
    }
  }

  /**
    After the first saved fetch, over any run of fetches, dying ones and legacy imports included:
    the successive deltas, what is still pending and what an import overwrote unseen are
    together exactly the messages stored.
   */
  lemma {:induction false} DeltasConserveStored(s: Store, run: seq<Fetch>, now: int)
    requires Past(s, now) && s.lastFetchAt != EPOCH && Pending(s) == [] && ClockRuns(run, now)
    ensures multiset(Deltas(s, run) + Pending(AfterAll(s, run))) + multiset(Overwritten(s, run)) ==
            multiset(Stored(s, run))
    ensures Overwritten(s, run) == [] ==> Deltas(s, run) + Pending(AfterAll(s, run)) == Stored(s, run)
  {
    if run == [] {
      assert [] + Pending(AfterAll(s, run)) == [];
    } else {
      var front, f := run[..|run| - 1], run[|run| - 1];
      FrontRuns(run, now);
      DeltasConserveStored(s, front, now);
      RunKeepsPast(s, front, now);
      var mid := AfterAll(s, front);
      OneMoreFetch(mid, f, EndOf(front, now));
      hide Deltas, Delta, Pending, Stored, Batch, AfterFetch, Overwritten, AfterAll;
      RunOneMore(s, run);
      ConcatAssociates(Deltas(s, front), Carried(mid, f), Batch(mid, f));
      ConservedOneMore(Deltas(s, front), Pending(mid), Overwritten(s, front), Stored(s, front),
                       Batch(mid, f), Imports(mid, f));
    }
  }

  lemma ConservedOneMore(shown: seq<Message>, pending: seq<Message>, lost: seq<Message>, stored: seq<Message>,
                         batch: seq<Message>, overwrites: bool)
    requires multiset(shown + pending) + multiset(lost) == multiset(stored)
    requires lost == [] ==> shown + pending == stored
    ensures
      var shown' := shown + (if overwrites then [] else pending) + batch;
      var lost' := lost + if overwrites then pending else [];
      && multiset(shown') + multiset(lost') == multiset(stored + batch)
      && (lost' == [] ==> shown' == stored + batch)
  {
    assert shown + [] == shown && lost + [] == lost;
    if overwrites && lost + pending == [] {
      assert pending == [];
    }
  }

  lemma RunOneMore(s: Store, run: seq<Fetch>)
    requires run != []
    ensures
      var front, f := run[..|run| - 1], run[|run| - 1];
      var mid, end := AfterAll(s, front), AfterAll(s, run);
      && end == AfterFetch(mid, f)
      && Deltas(s, run) == Deltas(s, front) + (if f.saves then Delta(end) else [])
      && Stored(s, run) == Stored(s, front) + Batch(mid, f)
      && Overwritten(s, run) == Overwritten(s, front) + (if Imports(mid, f) then Pending(mid) else [])
  {
    assert Deltas(s, run[..|run| - 1]) + [] == Deltas(s, run[..|run| - 1]);
  }

  /**
    The successive deltas, followed by what is still pending, are exactly the messages stored, in
    order, none repeated and none skipped, if and only if no import comes behind a fetch that
    stored rows and died with no state saved since.
   */
  lemma DeltasPartitionStored(s: Store, run: seq<Fetch>, now: int)
    requires Past(s, now) && s.lastFetchAt != EPOCH && Pending(s) == [] && ClockRuns(run, now)
    ensures Deltas(s, run) + Pending(AfterAll(s, run)) == Stored(s, run) <==> !LateImport(s, run)
  {
    DeltasConserveStored(s, run, now);
    OverwrittenExactly(s, run, now);
    if Overwritten(s, run) != [] {
      assert |multiset(Stored(s, run))| == |Stored(s, run)|;
      assert |multiset(Overwritten(s, run))| > 0;
    }
  }

  /** The legacy import of this run, or an earlier one, is on record. */
  predicate ImportSaved(s: Store, run: seq<Fetch>) {
    s.importedLegacy || exists i | 0 <= i < |run| :: run[i].saves && run[i].legacy.Some?
  }

  predicate StoresRows(f: Fetch) {
    f.ids != [] || (f.legacy.Some? && f.legacy.value != [])
  }

  /** Some fetch stored rows, and neither it nor any fetch after it saved the state. */
  predicate DiedWithRows(run: seq<Fetch>) {
    run != [] && !run[|run| - 1].saves && (StoresRows(run[|run| - 1]) || DiedWithRows(run[..|run| - 1]))
  }

  /** The legacy export turns up, not yet imported, behind a fetch that died with rows. */
  predicate LateImport(s: Store, run: seq<Fetch>) {
    exists i | 0 <= i < |run| :: run[i].legacy.Some? && !ImportSaved(s, run[..i]) && DiedWithRows(run[..i])
  }

  lemma LateImportOneMore(s: Store, run: seq<Fetch>)
    requires run != []
    ensures
      var front, f := run[..|run| - 1], run[|run| - 1];
      LateImport(s, run) <==>
        LateImport(s, front) || (f.legacy.Some? && !ImportSaved(s, front) && DiedWithRows(front))
  {
    hide ImportSaved, DiedWithRows;
    var front := run[..|run| - 1];
    assert forall i :: 0 <= i < |front| ==> front[i] == run[i] && front[..i] == run[..i];
  }

  lemma {:induction false} ImportIsSaved(s: Store, run: seq<Fetch>)
    ensures AfterAll(s, run).importedLegacy <==> ImportSaved(s, run)
  {
    if run != [] {
      var front, f := run[..|run| - 1], run[|run| - 1];
      ImportIsSaved(s, front);
      assert run == front + [f];
    }
  }

  /** Rows are pending only where a fetch died with rows, and exactly there while none were overwritten. */
  lemma {:induction false} PendingExactly(s: Store, run: seq<Fetch>, now: int)
    requires Past(s, now) && s.lastFetchAt != EPOCH && Pending(s) == [] && ClockRuns(run, now)
    ensures Pending(AfterAll(s, run)) != [] ==> DiedWithRows(run)
    ensures !ImportSaved(s, run) && Overwritten(s, run) == [] && DiedWithRows(run) ==> Pending(AfterAll(s, run)) != []
  {
    if run != [] {
      var front, f := run[..|run| - 1], run[|run| - 1];
      var mid := AfterAll(s, front);
      hide Pending, Batch, AfterFetch, AfterAll, Overwritten, StoresRows, ImportSaved, DiedWithRows, Past, ClockAfter;
      FrontRuns(run, now);
      PendingExactly(s, front, now);
      RunKeepsPast(s, front, now);
      ImportIsSaved(s, front);
      OneMoreFetch(mid, f, EndOf(front, now));
      FetchOneMore(s, run);
      BatchHoldsRows(mid, f);
      RunOneMore(s, run);
    }
  }

  lemma FetchOneMore(s: Store, run: seq<Fetch>)
    requires run != []
    ensures
      var front, f := run[..|run| - 1], run[|run| - 1];
      && (DiedWithRows(run) <==> !f.saves && (StoresRows(f) || DiedWithRows(front)))
      && (ImportSaved(s, front) ==> ImportSaved(s, run))
  {
    assert run == run[..|run| - 1] + [run[|run| - 1]];
  }

  lemma BatchHoldsRows(s: Store, f: Fetch)
    ensures Batch(s, f) != [] ==> StoresRows(f)
    ensures StoresRows(f) && !s.importedLegacy ==> Batch(s, f) != []
  {
  }

  /** An import overwrites rows that no delta had shown exactly when it is late. */
  lemma {:induction false} OverwrittenExactly(s: Store, run: seq<Fetch>, now: int)
    requires Past(s, now) && s.lastFetchAt != EPOCH && Pending(s) == [] && ClockRuns(run, now)
    ensures Overwritten(s, run) == [] <==> !LateImport(s, run)
  {
    if run != [] {
      var front := run[..|run| - 1];
      FrontRuns(run, now);
      OverwrittenExactly(s, front, now);
      PendingExactly(s, front, now);
      ImportIsSaved(s, front);
      LateImportOneMore(s, run);
    }
  }

  /** A fetch dies with one row stored; the next imports an empty export: the row is in no delta. */
  lemma ImportCanOverwrite(id: string)
    ensures
      var s, row := Store([], 1, EPOCH, false), Message(id, 3);
      var run := [Fetch(None, [id], 2, 3, 4, false), Fetch(Some([]), [], 5, 6, 7, true)];
      && Past(s, 1) && s.lastFetchAt != EPOCH && Pending(s) == [] && ClockRuns(run, 1)
      && LateImport(s, run) && Stored(s, run) == [row] && Deltas(s, run) + Pending(AfterAll(s, run)) == []
  {
    var s, row := Store([], 1, EPOCH, false), Message(id, 3);
    var dies, imports := Fetch(None, [id], 2, 3, 4, false), Fetch(Some([]), [], 5, 6, 7, true);
    var first, run := [dies], [dies, imports];
    assert first[..0] == [] && run[..1] == first && run[..0] == [] && run[0] == dies && run[1] == imports;
    assert ClockRuns(run, 1);
    FetchOneMore(s, first);
    assert !ImportSaved(s, first);
    assert LateImport(s, run);
    OneRowIsStored(s, id, dies);
    var mid := Store([row], 1, EPOCH, false);
    NothingIsImported(mid, imports);
    var end := Store([], 7, 1, true);
    hide Batch, AfterFetch, LateImport, ClockRuns, Pending, Delta;
    RunOneMore(s, first);
    RunOneMore(s, run);
  }

  lemma OneRowIsStored(s: Store, id: string, f: Fetch)
    requires s.messages == [] && f.legacy.None? && f.ids == [id] && !f.saves
    ensures
      var row := Message(id, f.stampAt);
      Pending(s) == [] && Batch(s, f) == [row] && AfterFetch(s, f) == s.(messages := [row])
  {
    assert Stamped(f.ids, f.stampAt) == [Message(id, f.stampAt)];
  }

  lemma NothingIsImported(s: Store, f: Fetch)
    requires !s.importedLegacy && f.legacy == Some([]) && f.ids == [] && f.saves
    ensures Batch(s, f) == [] && AfterFetch(s, f) == Store([], f.savedAt, s.lastFetchAt, true)
    ensures Delta(AfterFetch(s, f)) == [] && Pending(AfterFetch(s, f)) == []
  {
  }

  /** Once the legacy export is imported, or while it is absent, the file only grows and nothing is overwritten. */
  lemma {:induction false} WithoutImport(s: Store, run: seq<Fetch>)
    requires s.importedLegacy || forall i :: 0 <= i < |run| ==> run[i].legacy.None?
    ensures Overwritten(s, run) == [] && AfterAll(s, run).messages == s.messages + Stored(s, run)
    ensures s.importedLegacy ==> AfterAll(s, run).importedLegacy
  {
    if run == [] {
      assert s.messages + [] == s.messages;
    } else {
      var front, f := run[..|run| - 1], run[|run| - 1];
      WithoutImport(s, front);
      assert !Imports(AfterAll(s, front), f);
      ConcatAssociates(s.messages, Stored(s, front), Batch(AfterAll(s, front), f));
    }
  }

  lemma ConcatAssociates(a: seq<Message>, b: seq<Message>, c: seq<Message>)
    ensures a + b + c == a + (b + c) && a + (b + c) + [] == a + (b + c)
  {
  }

  /** Pending rows that this fetch leaves in the file. */
  function Carried(s: Store, f: Fetch): seq<Message> {
    if Imports(s, f) then [] else Pending(s)
  }

  lemma OneMoreFetch(s: Store, f: Fetch, now: int)
    requires Past(s, now) && ClockAfter(f, now) && s.lastFetchAt != EPOCH
    ensures f.saves ==> Delta(AfterFetch(s, f)) == Carried(s, f) + Batch(s, f) && Pending(AfterFetch(s, f)) == []
    ensures !f.saves ==> Pending(AfterFetch(s, f)) == Carried(s, f) + Batch(s, f)
  {
    if f.saves {
      DeltaIsTheBatch(s, f, now);
    } else {
      LaterConcat(Kept(s, f), Batch(s, f), s.lastFetchAt);
      BatchIsLater(s, f, now);
    }
  }

  // ---------------------------------------------------------------------------------------
  // The very first fetch
  // ---------------------------------------------------------------------------------------

  lemma {:induction false} AtConcat(a: seq<Message>, b: seq<Message>, time: int)
    ensures At(a + b, time) == At(a, time) + At(b, time)
    decreases |b|
  {
    if b == [] {
      assert a + b == a;
    } else {
      AtConcat(a, b[..|b| - 1], time);
      assert (a + b)[..|a + b| - 1] == a + b[..|b| - 1];
      assert (a + b)[|a + b| - 1] == b[|b| - 1];
    }
  }

  lemma {:induction false} AtStamped(ids: seq<string>, at: int, time: int)
    ensures At(Stamped(ids, at), time) == if at == time then Stamped(ids, at) else []
  {
    if ids != [] {
      AtStamped(ids[..|ids| - 1], at, time);
      assert Stamped(ids, at)[..|ids| - 1] == Stamped(ids[..|ids| - 1], at);
    }
  }

  lemma {:induction false} MaxOfParts(a: seq<string>, aAt: int, b: seq<string>, bAt: int)
    requires EPOCH < aAt < bAt
    ensures MaxFetchedAt(Stamped(a, aAt) + Stamped(b, bAt)) ==
            if b != [] then bAt else if a != [] then aAt else EPOCH
    decreases |a| + |b|
  {
    var all := Stamped(a, aAt) + Stamped(b, bAt);
    if b != [] {
      MaxOfParts(a, aAt, b[..|b| - 1], bAt);
      assert all[..|all| - 1] == Stamped(a, aAt) + Stamped(b[..|b| - 1], bAt);
    } else if a != [] {
      MaxOfParts(a[..|a| - 1], aAt, b, bAt);
      assert all[..|all| - 1] == Stamped(a[..|a| - 1], aAt) + Stamped(b, bAt);
    }
  }

  /**
    The first fetch has no watermark to go by: its delta is its own new messages exactly when
    it stored some or imported nothing, and otherwise the imported ones.
   */
  lemma FirstDelta(f: Fetch)
    requires ClockAfter(f, EPOCH) && f.saves
    ensures
      var imported := if f.legacy.Some? then f.legacy.value else [];
      Delta(AfterFetch(EMPTY_STORE, f)) ==
        if f.ids != [] then Stamped(f.ids, f.stampAt) else Stamped(imported, f.importAt)
  {
    var imported := if f.legacy.Some? then f.legacy.value else [];
    FirstStore(f);
    NewestPart(imported, f.importAt, f.ids, f.stampAt);
    DeltaWithoutWatermark(AfterFetch(EMPTY_STORE, f));
  }

  lemma FirstStore(f: Fetch)
    requires f.saves
    ensures
      var imported := if f.legacy.Some? then f.legacy.value else [];
      var after := AfterFetch(EMPTY_STORE, f);
      after.messages == Stamped(imported, f.importAt) + Stamped(f.ids, f.stampAt) && after.prevFetchAt == EPOCH
  {
  }

  lemma DeltaWithoutWatermark(s: Store)
    requires s.prevFetchAt == EPOCH
    ensures Delta(s) == At(s.messages, MaxFetchedAt(s.messages))
  {
  }

  lemma NewestPart(a: seq<string>, aAt: int, b: seq<string>, bAt: int)
    requires EPOCH < aAt < bAt
    ensures
      var all := Stamped(a, aAt) + Stamped(b, bAt);
      At(all, MaxFetchedAt(all)) == if b != [] then Stamped(b, bAt) else Stamped(a, aAt)
  {
    var newest := MaxFetchedAt(Stamped(a, aAt) + Stamped(b, bAt));
    MaxOfParts(a, aAt, b, bAt);
    AtConcat(Stamped(a, aAt), Stamped(b, bAt), newest);
    AtStamped(a, aAt, newest);
    AtStamped(b, bAt, newest);
  }
}
