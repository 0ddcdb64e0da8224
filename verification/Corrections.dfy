/**
  Review corrections: append-only tombstones that take signals back from earlier events.

  `Validate` and `Record` model the writing side without `--force`, one record after another;
  `EffectiveSignalsByEvent` models what readers derive from the log.
 */
module Corrections {
  import opened Shared

  // ---------------------------------------------------------------------------------------
  // Signals
  // ---------------------------------------------------------------------------------------

  datatype Signal =
    // defects
    | WrongSeam | FalseGreen | RuntimeTestGap | ScopeContamination | RebaseNotFix | BuildForCard | InertFix
    | FmtClippySlip | StaleApproval | LowEffortRisk | AuthorCreatedIssueHighBar | NoRepro | ValueBar
    | CarefulWatch | AiTemplateGap | UncheckedEngineImplementer | WrongOrStaleCrAnnotation
    | DuplicatedDomainVocabulary
    // praise
    | RightSeam | ScopeDiscipline | DiscriminatingRuntimeTest | ParameterizedNotProliferated
    | EvidenceBackedPushback

  datatype Alias = RuntimeTestPresent | DiscriminatingParserTest | GeminiCaseFindingRefuted

  /** A logged token: canonical vocabulary, a legacy alias of it, or a stray. */
  datatype Token = Canon(signal: Signal) | Legacy(alias: Alias) | Stray(text: string)

  function CanonicalSignal(token: Token): Option<Signal> {
    match token
    case Canon(signal) => Some(signal)
    case Legacy(alias) =>
      Some(if alias.GeminiCaseFindingRefuted? then EvidenceBackedPushback else DiscriminatingRuntimeTest)
    case Stray(_) => None
  }

  /** The canonical signals among some tokens. */
  function Signals(tokens: seq<Token>): set<Signal> {
    set t | t in tokens && CanonicalSignal(t).Some? :: CanonicalSignal(t).value
  }

  // ---------------------------------------------------------------------------------------
  // Events
  // ---------------------------------------------------------------------------------------

  datatype Kind = ReviewCorrection | QualityEntry | TrackerRow | Observation | Attributed(name: string) | UnknownKind

  datatype Outcome = NoOutcome | KnownOutcome(name: string) | UnknownOutcome

  /** A timestamp as written, by its rank in text order, and the time it reads as, if it can be read. */
  datatype Stamp = Stamp(text: nat, time: Option<int>)

  /** Logins are case-folded.  `login` is whom the event is attributed to by its own fields. */
  datatype Event = Event(
    id: string, timestamp: Stamp, kind: Kind, outcome: Outcome,
    pr: Option<int>, head: Option<string>, author: Option<string>, login: Option<string>,
    signals: seq<Token>, quality: seq<Token>, corrects: string)

  predicate IsCorrection(e: Event) {
    e.kind.ReviewCorrection?
  }

  ghost predicate DistinctIds(log: seq<Event>) {
    forall i, j :: 0 <= i < j < |log| ==> log[i].id != log[j].id
  }

  /** The last event with the id, as a dictionary built in log order keeps it. */
  function Find(log: seq<Event>, id: string): Option<Event> {
    if log == [] then None
    else if log[|log| - 1].id == id then Some(log[|log| - 1])
    else Find(log[..|log| - 1], id)
  }

  lemma {:induction false} FindIsIn(log: seq<Event>, id: string)
    ensures Find(log, id).Some? ==> Find(log, id).value in log && Find(log, id).value.id == id
    ensures Find(log, id).None? ==> forall e :: e in log ==> e.id != id
  {
    if log != [] && log[|log| - 1].id != id {
      FindIsIn(log[..|log| - 1], id);
      assert log == log[..|log| - 1] + [log[|log| - 1]];
    }
  }

  /** It is the event logged last under the id. */
  lemma {:induction false} FindIsLast(log: seq<Event>, id: string)
    requires Find(log, id).Some?
    ensures exists i :: 0 <= i < |log| && Some(log[i]) == Find(log, id) && log[i].id == id
                        && forall j :: i < j < |log| ==> log[j].id != id
  {
    var front := log[..|log| - 1];
    if log[|log| - 1].id != id {
      FindIsLast(front, id);
      var i :| 0 <= i < |front| && Some(front[i]) == Find(front, id) && front[i].id == id
               && forall j :: i < j < |front| ==> front[j].id != id;
      assert log[i] == front[i] && forall j :: i < j < |front| ==> log[j] == front[j];
    }
  }

  lemma FindUnique(log: seq<Event>, e: Event)
    requires DistinctIds(log) && e in log
    ensures Find(log, e.id) == Some(e)
  {
    FindIsIn(log, e.id);
    var i :| 0 <= i < |log| && log[i] == e;
    var found := Find(log, e.id).value;
    var j :| 0 <= j < |log| && log[j] == found;
    assert i == j;
  }

  // ---------------------------------------------------------------------------------------
  // Effective signals
  // ---------------------------------------------------------------------------------------

  /** The signals an event carries that a correction can take back. */
  function TargetSignals(log: seq<Event>, id: string): set<Signal> {
    var target := Find(log, id);
    if target.None? || IsCorrection(target.value) then {} else Signals(target.value.signals)
  }

  function Retracted(log: seq<Event>, id: string): set<Signal> {
    set c, s | c in log && IsCorrection(c) && c.corrects == id && s in Signals(c.signals)
               && s in TargetSignals(log, id) :: s
  }

  /** Tokens whose canonical signal was not taken back; strays stay. */
  function Surviving(tokens: seq<Token>, removed: set<Signal>): seq<Token> {
    if tokens == [] then []
    else
      var front, t := Surviving(tokens[..|tokens| - 1], removed), tokens[|tokens| - 1];
      if CanonicalSignal(t).None? || CanonicalSignal(t).value !in removed then front + [t] else front
  }

  function Effective(log: seq<Event>, id: string): seq<Token> {
    var e := Find(log, id);
    if e.None? || IsCorrection(e.value) then [] else Surviving(e.value.signals, Retracted(log, id))
  }

  /** Corrected tokens of one correction against one target's signals. */
  function Corrected(c: Event, targetSignals: set<Signal>): set<Signal> {
    Signals(c.signals) * targetSignals
  }

  function Get(retracted: map<string, set<Signal>>, id: string): set<Signal> {
    if id in retracted then retracted[id] else {}
  }

  function Remainder(e: Event, removed: set<Signal>): seq<Token> {
    if IsCorrection(e) then [] else Surviving(e.signals, removed)
  }

  /** The reader: an index by id, the retractions collected target by target, then the remainder. */
  method EffectiveSignalsByEvent(log: seq<Event>) returns (effective: map<string, seq<Token>>)
    ensures forall id :: id in effective <==> Find(log, id).Some?
    ensures forall id :: id in effective ==> effective[id] == Effective(log, id)
  {
    var byId := IndexById(log);
    var retracted := CollectRetractions(log, byId);
    effective := Remainders(byId, retracted);
  }

  method Remainders(byId: map<string, Event>, retracted: map<string, set<Signal>>)
    returns (effective: map<string, seq<Token>>)
    ensures forall id :: id in effective <==> id in byId
    ensures forall id :: id in effective ==> effective[id] == Remainder(byId[id], Get(retracted, id))
  {
    effective := map[];
    var ids := byId.Keys;
    while ids != {}
      invariant ids <= byId.Keys
      invariant forall id :: id in effective <==> id in byId && id !in ids
      invariant forall id :: id in effective ==> effective[id] == Remainder(byId[id], Get(retracted, id))
      decreases |ids|
    {
      var id := Pick(ids);
      effective := effective[id := Remainder(byId[id], Get(retracted, id))];
      ids := ids - {id};
    }
  }

  method IndexById(log: seq<Event>) returns (byId: map<string, Event>)
    ensures forall id :: id in byId <==> Find(log, id).Some?
    ensures forall id :: id in byId ==> Find(log, id) == Some(byId[id])
  {
    byId := map[];
    for i := 0 to |log|
      invariant forall id :: id in byId <==> Find(log[..i], id).Some?
      invariant forall id :: id in byId ==> Find(log[..i], id) == Some(byId[id])
    {
      assert log[..i + 1][..i] == log[..i];
      byId := byId[log[i].id := log[i]];
    }
    assert log[..|log|] == log;
  }

  /** What the first corrections of the log take back from one id. */
  ghost function RetractedBy(log: seq<Event>, upto: nat, id: string): set<Signal>
    requires upto <= |log|
  {
    set c, s | c in log[..upto] && IsCorrection(c) && c.corrects == id && s in Signals(c.signals)
               && s in TargetSignals(log, id) :: s
  }

  lemma RetractedByOneMore(log: seq<Event>, i: nat, id: string)
    requires i < |log|
    ensures RetractedBy(log, i + 1, id) ==
            RetractedBy(log, i, id) +
            if IsCorrection(log[i]) && log[i].corrects == id then Corrected(log[i], TargetSignals(log, id)) else {}
  {
    assert log[..i + 1] == log[..i] + [log[i]];
  }

  method CollectRetractions(log: seq<Event>, byId: map<string, Event>) returns (retracted: map<string, set<Signal>>)
    requires forall id :: id in byId <==> Find(log, id).Some?
    requires forall id :: id in byId ==> Find(log, id) == Some(byId[id])
    ensures forall id :: Get(retracted, id) == Retracted(log, id)
  {
    retracted := map[];
    for i := 0 to |log|
      invariant forall id :: Get(retracted, id) == RetractedBy(log, i, id)
    {
      var c := log[i];
      forall id
        ensures RetractedBy(log, i + 1, id) ==
                RetractedBy(log, i, id) +
                if IsCorrection(c) && c.corrects == id then Corrected(c, TargetSignals(log, id)) else {}
      {
        RetractedByOneMore(log, i, id);
      }
      if IsCorrection(c) && c.corrects in byId && !IsCorrection(byId[c.corrects]) {
        var corrected := Corrected(c, Signals(byId[c.corrects].signals));
        retracted := retracted[c.corrects := Get(retracted, c.corrects) + corrected];
      }
    }
    assert log[..|log|] == log;
  }

  // ---------------------------------------------------------------------------------------
  // Order does not matter
  // ---------------------------------------------------------------------------------------

  ghost predicate SameEvents(a: seq<Event>, b: seq<Event>) {
    DistinctIds(a) && DistinctIds(b) && forall e :: e in a <==> e in b
  }

  /** Effective signals depend on which events the log holds, not on their order. */
  lemma OrderDoesNotMatter(a: seq<Event>, b: seq<Event>, id: string)
    requires SameEvents(a, b)
    ensures Find(a, id) == Find(b, id) && Retracted(a, id) == Retracted(b, id) && Effective(a, id) == Effective(b, id)
  {
    FindIsIn(a, id);
    FindIsIn(b, id);
    if Find(a, id).Some? {
      FindUnique(b, Find(a, id).value);
    }
    assert Find(a, id) == Find(b, id);
    RetractedMember(a, b, id);
    RetractedMember(b, a, id);
  }

  lemma RetractedMember(a: seq<Event>, b: seq<Event>, id: string)
    requires forall e :: e in a ==> e in b
    requires TargetSignals(a, id) == TargetSignals(b, id)
    ensures Retracted(a, id) <= Retracted(b, id)
  {
  }

  lemma {:induction false} SignalsOfSurviving(tokens: seq<Token>, removed: set<Signal>)
    ensures Signals(Surviving(tokens, removed)) == Signals(tokens) - removed
  {
    if tokens != [] {
      var front, last := tokens[..|tokens| - 1], tokens[|tokens| - 1];
      SignalsOfSurviving(front, removed);
      assert tokens == front + [last];
      SignalsAppend(front, last);
      SignalsAppend(Surviving(front, removed), last);
    }
  }

  lemma SignalsAppend(tokens: seq<Token>, last: Token)
    ensures Signals(tokens + [last]) ==
            Signals(tokens) + if CanonicalSignal(last).Some? then {CanonicalSignal(last).value} else {}
  {
    forall s | s in Signals(tokens)
      ensures s in Signals(tokens + [last])
    {
      var t :| t in tokens && CanonicalSignal(t) == Some(s);
      assert t in tokens + [last];
    }
    if CanonicalSignal(last).Some? {
      assert last in tokens + [last];
    }
  }

  // ---------------------------------------------------------------------------------------
  // The writing side
  // ---------------------------------------------------------------------------------------

  datatype Rejection =
    | BadType | BadOutcome | MissingPr | UnknownSignals | NoTarget | NoSignals | DuplicateSignals | CarriesOutcome
    | TargetNotFound | TargetIsCorrection | FieldMismatch | AuthorMismatch | NotASubset | AlreadyRetracted

  predicate AllCanon(tokens: seq<Token>) {
    forall i :: 0 <= i < |tokens| ==> tokens[i].Canon?
  }

  predicate NoDuplicates(tokens: seq<Token>) {
    forall i, j :: 0 <= i < j < |tokens| ==> tokens[i] != tokens[j]
  }

  predicate IsRetry(e: Event, log: seq<Event>) {
    exists i | 0 <= i < |log| ::
      log[i].id == e.id && IsCorrection(log[i]) && log[i].corrects == e.corrects && log[i].signals == e.signals
  }

  function AlreadyTaken(log: seq<Event>, id: string): set<Signal> {
    set c, s | c in log && IsCorrection(c) && c.corrects == id && s in Signals(c.signals) :: s
  }

  function ValidateCorrection(e: Event, log: seq<Event>): Option<Rejection> {
    if e.corrects == "" then Some(NoTarget)
    else if e.signals == [] then Some(NoSignals)
    else if !NoDuplicates(e.signals) then Some(DuplicateSignals)
    else if !e.outcome.NoOutcome? then Some(CarriesOutcome)
    else
      var target := Find(log, e.corrects);
      if target.None? then Some(TargetNotFound)
      else if IsCorrection(target.value) then Some(TargetIsCorrection)
      else if e.pr != target.value.pr || e.head != target.value.head then Some(FieldMismatch)
      else if e.author.None? || e.author != target.value.author then Some(AuthorMismatch)
      else if !(Signals(e.signals) <= Signals(target.value.signals)) then Some(NotASubset)
      else if !IsRetry(e, log) && Signals(e.signals) * AlreadyTaken(log, e.corrects) != {} then Some(AlreadyRetracted)
      else None
  }

  function Validate(e: Event, log: seq<Event>): Option<Rejection> {
    if e.kind.UnknownKind? then Some(BadType)
    else if e.outcome.UnknownOutcome? then Some(BadOutcome)
    else if !e.kind.QualityEntry? && e.pr.None? then Some(MissingPr)
    else if !AllCanon(e.signals) then Some(UnknownSignals)
    else if IsCorrection(e) then ValidateCorrection(e, log)
    else None
  }

  /** A valid event whose id is new is appended; anything else leaves the log alone. */
  function Record(log: seq<Event>, e: Event): seq<Event> {
    if Validate(e, log).Some? || Find(log, e.id).Some? then log else log + [e]
  }

  function RecordAll(log: seq<Event>, events: seq<Event>): seq<Event> {
    if events == [] then log else Record(RecordAll(log, events[..|events| - 1]), events[|events| - 1])
  }

  /** The correction takes back some signals of an event of the same head and author, itself no correction. */
  ghost predicate Lands(log: seq<Event>, c: Event) {
    var target := Find(log, c.corrects);
    target.Some? && !IsCorrection(target.value)
    && {} < Signals(c.signals) <= Signals(target.value.signals)
    && c.pr == target.value.pr && c.head == target.value.head && c.author == target.value.author
  }

  /** Every correction lands, and two corrections of one target never overlap. */
  ghost predicate Orderly(log: seq<Event>) {
    && DistinctIds(log)
    && (forall c :: c in log && IsCorrection(c) ==> Lands(log, c))
    && (forall c, d ::
          c in log && d in log && IsCorrection(c) && IsCorrection(d) && c != d && c.corrects == d.corrects ==>
          Signals(c.signals) !! Signals(d.signals))
  }

  lemma FindAfterAppend(log: seq<Event>, e: Event, id: string)
    ensures Find(log + [e], id) == if e.id == id then Some(e) else Find(log, id)
  {
    assert (log + [e])[..|log|] == log;
  }

  lemma TakenByOne(log: seq<Event>, c: Event)
    requires c in log && IsCorrection(c)
    ensures Signals(c.signals) <= AlreadyTaken(log, c.corrects)
  {
  }

  lemma NewCorrectionLands(log: seq<Event>, e: Event)
    requires IsCorrection(e) && Validate(e, log).None?
    ensures Lands(log, e)
  {
    assert e.signals[0].Canon? && CanonicalSignal(e.signals[0]).Some?;
    assert CanonicalSignal(e.signals[0]).value in Signals(e.signals);
  }

  lemma RecordKeepsOrderly(log: seq<Event>, e: Event)
    requires Orderly(log)
    ensures Orderly(Record(log, e))
  {
    var after := Record(log, e);
    if after != log {
      FindIsIn(log, e.id);
      assert !IsRetry(e, log);
      forall c | c in after && IsCorrection(c)
        ensures Lands(after, c)
      {
        FindAfterAppend(log, e, c.corrects);
        if c in log {
          assert Lands(log, c);
          FindIsIn(log, c.corrects);
        } else {
          NewCorrectionLands(log, e);
        }
      }
      forall c | c in log && IsCorrection(c) && IsCorrection(e) && c.corrects == e.corrects
        ensures Signals(c.signals) !! Signals(e.signals)
      {
        assert Signals(e.signals) * AlreadyTaken(log, e.corrects) == {};
        TakenByOne(log, c);
        forall s | s in Signals(c.signals)
          ensures s !in Signals(e.signals)
        {
          assert s !in Signals(e.signals) * AlreadyTaken(log, e.corrects);
        }
      }
    }
  }

  /** Over any serial run of records the log stays orderly. */
  lemma {:induction false} RunStaysOrderly(log: seq<Event>, events: seq<Event>)
    requires Orderly(log)
    ensures Orderly(RecordAll(log, events)) && log <= RecordAll(log, events)
  {
    if events != [] {
      RunStaysOrderly(log, events[..|events| - 1]);
      RecordKeepsOrderly(RecordAll(log, events[..|events| - 1]), events[|events| - 1]);
    }
  }

  /**
    In an orderly log a target's canonical signals are split, without overlap, among what
    survives and what each of its corrections took back.
   */
  lemma SignalsAreConserved(log: seq<Event>, target: Event)
    requires Orderly(log) && target in log && !IsCorrection(target)
    ensures Signals(Effective(log, target.id)) == Signals(target.signals) - AlreadyTaken(log, target.id)
    ensures AlreadyTaken(log, target.id) <= Signals(target.signals)
    ensures forall c, d :: (c in log && d in log && IsCorrection(c) && IsCorrection(d) && c != d
                            && c.corrects == target.id && d.corrects == target.id) ==>
              Signals(c.signals) !! Signals(d.signals)
  {
    FindUnique(log, target);
    SignalsOfSurviving(target.signals, Retracted(log, target.id));
    forall c | c in log && IsCorrection(c) && c.corrects == target.id
      ensures Signals(c.signals) <= Signals(target.signals)
    {
      assert Lands(log, c);
    }
    assert TargetSignals(log, target.id) == Signals(target.signals);
    forall s
      ensures s in AlreadyTaken(log, target.id) <==> s in Retracted(log, target.id)
    {
      if s in AlreadyTaken(log, target.id) {
        var c :| c in log && IsCorrection(c) && c.corrects == target.id && s in Signals(c.signals);
      }
    }
  }

  // ---------------------------------------------------------------------------------------
  // What is accepted
  // ---------------------------------------------------------------------------------------

  ghost predicate NewId(log: seq<Event>, id: string) {
    forall e :: e in log ==> e.id != id
  }

  /** Of this event's author, pull request and head, and no correction itself. */
  ghost predicate Targets(c: Event, target: Event) {
    !IsCorrection(target) && target.id == c.corrects && target.id != ""
    && target.pr == c.pr && target.head == c.head && target.author == c.author && c.author.Some?
  }

  /** It takes some signals, each once, that its target still effectively has. */
  ghost predicate IsProper(log: seq<Event>, c: Event) {
    && IsCorrection(c) && c.outcome.NoOutcome? && c.pr.Some?
    && c.signals != [] && AllCanon(c.signals) && NoDuplicates(c.signals)
    && exists target :: target in log && Targets(c, target) && Signals(c.signals) <= Signals(Effective(log, target.id))
  }

  lemma NewIdIsNoRetry(log: seq<Event>, e: Event)
    requires NewId(log, e.id)
    ensures Find(log, e.id).None? && !IsRetry(e, log)
  {
    FindIsIn(log, e.id);
  }

  /** A correction under a new id is accepted if and only if it is proper. */
  lemma CorrectionIsAcceptedExactly(log: seq<Event>, c: Event)
    requires Orderly(log) && IsCorrection(c) && NewId(log, c.id)
    ensures Record(log, c) == log + [c] <==> IsProper(log, c)
    ensures Record(log, c) == log <==> !IsProper(log, c)
  {
    NewIdIsNoRetry(log, c);
    FindIsIn(log, c.corrects);
    if target :| target in log && !IsCorrection(target) && target.id == c.corrects {
      FindUnique(log, target);
      StillHasThem(log, c.signals, target);
    }
  }

  lemma StillHasThem(log: seq<Event>, signals: seq<Token>, target: Event)
    requires Orderly(log) && target in log && !IsCorrection(target)
    ensures Signals(signals) <= Signals(Effective(log, target.id)) <==>
            Signals(signals) <= Signals(target.signals) && Signals(signals) * AlreadyTaken(log, target.id) == {}
  {
    SignalsAreConserved(log, target);
    hide Orderly, Effective, Signals, AlreadyTaken;
    assert forall s :: s in Signals(signals) * AlreadyTaken(log, target.id) <==>
             s in Signals(signals) && s in AlreadyTaken(log, target.id);
  }

  /** Any other event under a new id is accepted if and only if all it says is in the vocabulary. */
  lemma EventIsAcceptedExactly(log: seq<Event>, e: Event)
    requires !IsCorrection(e) && NewId(log, e.id)
    ensures Record(log, e) == log + [e] <==>
            && !e.kind.UnknownKind? && !e.outcome.UnknownOutcome? && (forall t :: t in e.signals ==> t.Canon?)
            && (e.kind.QualityEntry? || e.pr.Some?)
  {
    NewIdIsNoRetry(log, e);
    assert AllCanon(e.signals) <==> forall t :: t in e.signals ==> t.Canon?;
  }

  /** What some corrections take from one target. */
  function TakenBy(cs: seq<Event>, id: string): set<Signal> {
    set c, s | c in cs && c.corrects == id && s in Signals(c.signals) :: s
  }

  lemma TakenByOneMore(cs: seq<Event>, c: Event, id: string)
    ensures TakenBy(cs + [c], id) == TakenBy(cs, id) + if c.corrects == id then Signals(c.signals) else {}
  {
  }

  /** An accepted correction takes exactly its own signals, from its own target. */
  lemma AcceptedTakes(log: seq<Event>, c: Event, target: Event)
    requires Orderly(log) && Orderly(log + [c]) && IsCorrection(c) && NewId(log, c.id)
    requires target in log && !IsCorrection(target)
    ensures Signals(Effective(log + [c], target.id)) ==
            Signals(Effective(log, target.id)) - TakenBy([c], target.id)
  {
    SignalsAreConserved(log, target);
    SignalsAreConserved(log + [c], target);
    assert AlreadyTaken(log + [c], target.id) == AlreadyTaken(log, target.id) + TakenBy([c], target.id);
  }

  /** New proper corrections, no two of which take the same signal of one target. */
  ghost predicate Compatible(log: seq<Event>, cs: seq<Event>) {
    && (forall i :: 0 <= i < |cs| ==> NewId(log, cs[i].id) && IsProper(log, cs[i]))
    && (forall i, j :: 0 <= i < j < |cs| ==> cs[i].id != cs[j].id)
    && (forall i, j :: 0 <= i < j < |cs| && cs[i].corrects == cs[j].corrects ==>
          Signals(cs[i].signals) !! Signals(cs[j].signals))
  }

  lemma FrontIsCompatible(log: seq<Event>, cs: seq<Event>)
    requires cs != [] && Compatible(log, cs)
    ensures Compatible(log, cs[..|cs| - 1])
    ensures NewId(log + cs[..|cs| - 1], cs[|cs| - 1].id)
    ensures TakenBy(cs[..|cs| - 1], cs[|cs| - 1].corrects) !! Signals(cs[|cs| - 1].signals)
  {
    var front, c := cs[..|cs| - 1], cs[|cs| - 1];
    assert forall i :: 0 <= i < |front| ==> front[i] == cs[i];
    forall s | s in TakenBy(front, c.corrects)
      ensures s !in Signals(c.signals)
    {
      var d :| d in front && d.corrects == c.corrects && s in Signals(d.signals);
      var i :| 0 <= i < |front| && front[i] == d;
      assert Signals(cs[i].signals) !! Signals(cs[|cs| - 1].signals);
    }
  }

  /** Each target has lost exactly what these corrections take. */
  ghost predicate Lost(log: seq<Event>, cs: seq<Event>) {
    forall t :: t in log && !IsCorrection(t) ==> LostBy(log, cs, t)
  }

  ghost predicate LostBy(log: seq<Event>, cs: seq<Event>, t: Event) {
    Signals(Effective(log + cs, t.id)) == Signals(Effective(log, t.id)) - TakenBy(cs, t.id)
  }

  lemma ProperStays(log: seq<Event>, front: seq<Event>, c: Event)
    requires IsProper(log, c) && Lost(log, front) && TakenBy(front, c.corrects) !! Signals(c.signals)
    ensures IsProper(log + front, c)
  {
    hide Effective, Signals, TakenBy;
    var target :| target in log && Targets(c, target) && Signals(c.signals) <= Signals(Effective(log, target.id));
    assert LostBy(log, front, target);
    assert target in log + front;
  }

  lemma LostOneMore(log: seq<Event>, front: seq<Event>, c: Event)
    requires Lost(log, front) && Orderly(log + front) && Orderly(log + front + [c])
    requires IsCorrection(c) && NewId(log + front, c.id)
    ensures Lost(log, front + [c])
  {
    hide Orderly, IsCorrection, Effective, Signals, TakenBy, NewId;
    assert log + (front + [c]) == log + front + [c];
    forall t | t in log && !IsCorrection(t)
      ensures LostBy(log, front + [c], t)
    {
      assert LostBy(log, front, t) && t in log + front;
      AcceptedTakes(log + front, c, t);
      TakenByOneMore(front, c, t.id);
      TakenByOneMore([], c, t.id);
      NothingTaken(t.id);
      assert [] + [c] == [c];
    }
  }

  lemma NothingTaken(id: string)
    ensures TakenBy([], id) == {}
  {
  }

  lemma NothingLost(log: seq<Event>)
    ensures Lost(log, [])
  {
    assert log + [] == log;
    forall t | t in log
      ensures LostBy(log, [], t)
    {
      NothingTaken(t.id);
    }
  }

  /** Compatible corrections are all accepted, and each target loses exactly the union of their signals. */
  lemma {:induction false} CompatibleAreAccepted(log: seq<Event>, cs: seq<Event>)
    requires Orderly(log) && Compatible(log, cs)
    ensures RecordAll(log, cs) == log + cs && Orderly(log + cs) && Lost(log, cs)
  {
    hide Orderly, Compatible, IsProper, Lost, Record, TakenBy, Signals, NewId;
    if cs == [] {
      assert log + cs == log;
      NothingLost(log);
    } else {
      var front, c := cs[..|cs| - 1], cs[|cs| - 1];
      FrontIsCompatible(log, cs);
      CompatibleAreAccepted(log, front);
      assert log + cs == log + front + [c] && cs == front + [c];
      LastIsProper(log, cs);
      ProperStays(log, front, c);
      CorrectionIsAcceptedExactly(log + front, c);
      RecordKeepsOrderly(log + front, c);
      LostOneMore(log, front, c);
    }
  }

  lemma LastIsProper(log: seq<Event>, cs: seq<Event>)
    requires cs != [] && Compatible(log, cs)
    ensures IsProper(log, cs[|cs| - 1]) && IsCorrection(cs[|cs| - 1])
  {
  }

  /** A refusal names something that is really wrong. */
  lemma RefusalIsTrue(log: seq<Event>, e: Event)
    requires DistinctIds(log)
    ensures
      match Validate(e, log)
      case None => true
      case Some(why) =>
        match why
        case BadType => e.kind.UnknownKind?
        case BadOutcome => e.outcome.UnknownOutcome?
        case MissingPr => e.pr.None? && !e.kind.QualityEntry?
        case UnknownSignals => exists t :: t in e.signals && !t.Canon?
        case NoTarget => IsCorrection(e) && e.corrects == ""
        case NoSignals => IsCorrection(e) && e.signals == []
        case DuplicateSignals => IsCorrection(e) && !NoDuplicates(e.signals)
        case CarriesOutcome => IsCorrection(e) && !e.outcome.NoOutcome?
        case TargetNotFound => IsCorrection(e) && NewId(log, e.corrects)
        case TargetIsCorrection => exists t :: t in log && t.id == e.corrects && IsCorrection(t)
        case FieldMismatch => exists t :: t in log && t.id == e.corrects && (t.pr != e.pr || t.head != e.head)
        case AuthorMismatch => e.author.None? || exists t :: t in log && t.id == e.corrects && t.author != e.author
        case NotASubset => exists t :: t in log && t.id == e.corrects && !(Signals(e.signals) <= Signals(t.signals))
        case AlreadyRetracted =>
          exists c :: c in log && IsCorrection(c) && c.corrects == e.corrects
                      && Signals(c.signals) * Signals(e.signals) != {}
  {
    FindIsIn(log, e.corrects);
    if Validate(e, log) == Some(AlreadyRetracted) {
      var s :| s in Signals(e.signals) * AlreadyTaken(log, e.corrects);
      var c :| c in log && IsCorrection(c) && c.corrects == e.corrects && s in Signals(c.signals);
      assert s in Signals(c.signals) * Signals(e.signals);
    }
  }

  /** A reader sees every token of an event, strays too, as often as it was logged, unless its signal was taken. */
  lemma {:induction false} SurvivingExactly(tokens: seq<Token>, removed: set<Signal>, t: Token)
    ensures multiset(Surviving(tokens, removed))[t] ==
            if CanonicalSignal(t).Some? && CanonicalSignal(t).value in removed then 0 else multiset(tokens)[t]
  {
    if tokens != [] {
      SurvivingExactly(tokens[..|tokens| - 1], removed, t);
      assert tokens == tokens[..|tokens| - 1] + [tokens[|tokens| - 1]];
    }
  }

  /** Token by token, and in order. */
  lemma {:induction false} SurvivingInOrder(a: seq<Token>, b: seq<Token>, removed: set<Signal>)
    ensures Surviving(a + b, removed) == Surviving(a, removed) + Surviving(b, removed)
    decreases |b|
  {
    if b == [] {
      assert a + b == a;
    } else {
      SurvivingInOrder(a, b[..|b| - 1], removed);
      assert (a + b)[..|a + b| - 1] == a + b[..|b| - 1] && (a + b)[|a + b| - 1] == b[|b| - 1];
    }
  }
}
