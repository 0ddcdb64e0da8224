/**
  Contributor score and windowed recurrence, derived from the review log.

  Rates and head counts come out of the events that are not corrections; how is not modelled,
  so they enter as one function of those events.  Rates are exact reals, and rounding is
  Python's round-half-to-even.
 */
module Contributors {
  import opened Corrections
  import opened Shared

  const PRAISE_CREDIT_CAP: int := 15
  const RECURRENCE_WINDOW_SECONDS: int := 60 * 24 * 60 * 60

  // ---------------------------------------------------------------------------------------
  // Weights
  // ---------------------------------------------------------------------------------------

  const ALL_SIGNALS: seq<Signal> :=
    [WrongSeam, FalseGreen, RuntimeTestGap, ScopeContamination, RebaseNotFix, BuildForCard, InertFix,
     FmtClippySlip, StaleApproval, LowEffortRisk, AuthorCreatedIssueHighBar, NoRepro, ValueBar, CarefulWatch,
     AiTemplateGap, UncheckedEngineImplementer, WrongOrStaleCrAnnotation, DuplicatedDomainVocabulary,
     RightSeam, ScopeDiscipline, DiscriminatingRuntimeTest, ParameterizedNotProliferated, EvidenceBackedPushback]

  predicate IsPraise(s: Signal) {
    s.RightSeam? || s.ScopeDiscipline? || s.DiscriminatingRuntimeTest? || s.ParameterizedNotProliferated?
    || s.EvidenceBackedPushback?
  }

  function Weight(s: Signal): nat {
    match s
    case WrongSeam => 14
    case FalseGreen => 12
    case RuntimeTestGap => 10
    case ScopeContamination => 10
    case RebaseNotFix => 8
    case BuildForCard => 8
    case InertFix => 8
    case FmtClippySlip => 5
    case StaleApproval => 4
    case LowEffortRisk => 8
    case AuthorCreatedIssueHighBar => 6
    case NoRepro => 6
    case ValueBar => 6
    case CarefulWatch => 4
    case AiTemplateGap => 4
    case UncheckedEngineImplementer => 4
    case WrongOrStaleCrAnnotation => 8
    case DuplicatedDomainVocabulary => 8
    case RightSeam => 6
    case ScopeDiscipline => 5
    case DiscriminatingRuntimeTest => 5
    case ParameterizedNotProliferated => 6
    case EvidenceBackedPushback => 4
  }

  // ---------------------------------------------------------------------------------------
  // The score
  // ---------------------------------------------------------------------------------------

  datatype Stats = Stats(successRate: Option<real>, blockRate: Option<real>, averageHeads: real, medianHeads: real)

  type Counts = Signal -> nat

  /** Python's round: to the nearest integer, a tie going to the even one. */
  function Round(x: real): int {
    var below := x.Floor;
    var part := x - below as real;
    if part < 0.5 then below
    else if part > 0.5 then below + 1
    else if below % 2 == 0 then below else below + 1
  }

  function Max(a: int, b: int): int {
    if a > b then a else b
  }

  function Min(a: int, b: int): int {
    if a < b then a else b
  }

  function Clamp(score: int): int {
    Min(100, Max(0, score))
  }

  /** The weighted count of the praise signals, or of the defect signals, among some signals. */
  function WeightedSum(signals: seq<Signal>, praise: bool, counts: Counts): nat {
    if signals == [] then 0
    else
      WeightedSum(signals[1..], praise, counts)
      + if IsPraise(signals[0]) == praise then Weight(signals[0]) * counts(signals[0]) else 0
  }

  function SignalPenalty(vocabulary: seq<Signal>, counts: Counts): nat {
    WeightedSum(vocabulary, false, counts)
  }

  function PraiseCredit(vocabulary: seq<Signal>, counts: Counts): int {
    Min(PRAISE_CREDIT_CAP, WeightedSum(vocabulary, true, counts))
  }

  function SuccessPoints(rate: Option<real>): int {
    if rate.None? then 0 else Round((rate.value - 0.5) * 30.0)
  }

  function BlockPoints(rate: Option<real>): int {
    if rate.None? then 0 else Round(rate.value * 30.0)
  }

  /** The part of the score that signals have no hand in. */
  function HistoryScore(stats: Stats): int {
    65 + SuccessPoints(stats.successRate) - BlockPoints(stats.blockRate)
    - Max(0, Round((stats.averageHeads - stats.medianHeads) * 6.0))
  }

  predicate EarnsCleanBonus(stats: Stats) {
    stats.successRate.Some? && stats.successRate.value >= 0.85
  }

  /** The clamped score, given the history and what the signals add up to. */
  function Combine(history: int, cleanHistory: bool, penalty: nat, credit: int): int {
    Clamp(history - penalty + credit + if cleanHistory && penalty == 0 then 5 else 0)
  }

  function Score(vocabulary: seq<Signal>, stats: Stats, counts: Counts): int {
    Combine(HistoryScore(stats), EarnsCleanBonus(stats),
            SignalPenalty(vocabulary, counts), PraiseCredit(vocabulary, counts))
  }

  lemma {:induction false} FewerSumToLess(signals: seq<Signal>, praise: bool, few: Counts, many: Counts)
    requires forall s :: IsPraise(s) == praise ==> few(s) <= many(s)
    ensures WeightedSum(signals, praise, few) <= WeightedSum(signals, praise, many)
  {
    if signals != [] {
      FewerSumToLess(signals[1..], praise, few, many);
      if IsPraise(signals[0]) == praise {
        MultiplyKeepsOrder(Weight(signals[0]), few(signals[0]), many(signals[0]));
      }
    }
  }

  lemma MultiplyKeepsOrder(w: nat, a: nat, b: nat)
    requires a <= b
    ensures w * a <= w * b
  {
  }

  lemma CombineIsMonotone(history: int, clean: bool, penalty: nat, penalty': nat, credit: int, credit': int)
    requires penalty' <= penalty && credit <= credit'
    ensures Combine(history, clean, penalty, credit) <= Combine(history, clean, penalty', credit')
  {
  }

  /** Fewer defects and no less praise never score lower. */
  lemma ScoreIsMonotone(vocabulary: seq<Signal>, stats: Stats, before: Counts, after: Counts)
    requires forall s :: IsPraise(s) == false ==> after(s) <= before(s)
    requires forall s :: IsPraise(s) == true ==> before(s) <= after(s)
    ensures Score(vocabulary, stats, before) <= Score(vocabulary, stats, after)
  {
    FewerSumToLess(vocabulary, false, after, before);
    FewerSumToLess(vocabulary, true, before, after);
    CombineIsMonotone(HistoryScore(stats), EarnsCleanBonus(stats),
                      SignalPenalty(vocabulary, before), SignalPenalty(vocabulary, after),
                      PraiseCredit(vocabulary, before), PraiseCredit(vocabulary, after));
  }

  lemma CreditIsCapped(history: int, clean: bool, penalty: nat, credit: int)
    requires 0 <= credit <= PRAISE_CREDIT_CAP
    ensures 0 <= Combine(history, clean, penalty, credit) - Combine(history, clean, penalty, 0) <= PRAISE_CREDIT_CAP
  {
  }

  lemma {:induction false} UnpraisedSum(signals: seq<Signal>, praise: bool, counts: Counts, unpraised: Counts)
    requires forall s :: unpraised(s) == if IsPraise(s) then 0 else counts(s)
    ensures WeightedSum(signals, praise, unpraised) == if praise then 0 else WeightedSum(signals, praise, counts)
  {
    if signals != [] {
      UnpraisedSum(signals[1..], praise, counts, unpraised);
    }
  }

  lemma CreditRange(vocabulary: seq<Signal>, counts: Counts)
    ensures 0 <= PraiseCredit(vocabulary, counts) <= PRAISE_CREDIT_CAP
  {
  }

  /** Praise moves the clamped score up by at most its cap, whatever else is in the history. */
  lemma PraiseIsCapped(vocabulary: seq<Signal>, stats: Stats, counts: Counts, unpraised: Counts)
    requires forall s :: unpraised(s) == if IsPraise(s) then 0 else counts(s)
    ensures 0 <= Score(vocabulary, stats, counts) - Score(vocabulary, stats, unpraised) <= PRAISE_CREDIT_CAP
  {
    UnpraisedSum(vocabulary, false, counts, unpraised);
    UnpraisedSum(vocabulary, true, counts, unpraised);
    CreditRange(vocabulary, counts);
    CreditIsCapped(HistoryScore(stats), EarnsCleanBonus(stats),
                   SignalPenalty(vocabulary, counts), PraiseCredit(vocabulary, counts));
  }

  lemma RoundIsMonotone(x: real, y: real)
    requires x <= y
    ensures Round(x) <= Round(y)
  {
    assert x.Floor <= y.Floor;
    if x.Floor < y.Floor {
      assert x.Floor + 1 <= y.Floor;
    }
  }

  /** A history is no worse: not fewer successes, not more blocks, not more heads above the median. */
  ghost predicate NoWorse(a: Stats, b: Stats) {
    && (a.successRate.Some? <==> b.successRate.Some?) && (a.blockRate.Some? <==> b.blockRate.Some?)
    && (a.successRate.Some? ==> a.successRate.value <= b.successRate.value)
    && (a.blockRate.Some? ==> b.blockRate.value <= a.blockRate.value)
    && b.averageHeads - b.medianHeads <= a.averageHeads - a.medianHeads
  }

  /** A better history never scores lower, rounding included. */
  lemma BetterHistoryScoresNoLower(vocabulary: seq<Signal>, a: Stats, b: Stats, counts: Counts)
    requires NoWorse(a, b)
    ensures 0 <= Score(vocabulary, a, counts) <= Score(vocabulary, b, counts) <= 100
  {
    HistoryIsMonotone(a, b);
    CombineFollowsHistory(HistoryScore(a), HistoryScore(b), EarnsCleanBonus(a), EarnsCleanBonus(b),
                          SignalPenalty(vocabulary, counts), PraiseCredit(vocabulary, counts));
  }

  lemma HistoryIsMonotone(a: Stats, b: Stats)
    requires NoWorse(a, b)
    ensures HistoryScore(a) <= HistoryScore(b) && (EarnsCleanBonus(a) ==> EarnsCleanBonus(b))
  {
    hide Round;
    if a.successRate.Some? {
      RoundIsMonotone((a.successRate.value - 0.5) * 30.0, (b.successRate.value - 0.5) * 30.0);
    }
    if a.blockRate.Some? {
      RoundIsMonotone(b.blockRate.value * 30.0, a.blockRate.value * 30.0);
    }
    RoundIsMonotone((b.averageHeads - b.medianHeads) * 6.0, (a.averageHeads - a.medianHeads) * 6.0);
  }

  lemma CombineFollowsHistory(a: int, b: int, aClean: bool, bClean: bool, penalty: nat, credit: int)
    requires a <= b && (aClean ==> bClean)
    ensures 0 <= Combine(a, aClean, penalty, credit) <= Combine(b, bClean, penalty, credit) <= 100
  {
  }

  // ---------------------------------------------------------------------------------------
  // What the score comes to
  // ---------------------------------------------------------------------------------------

  /** The nearest integer, the even one of two. */
  lemma RoundIsNearest(x: real)
    ensures -0.5 <= Round(x) as real - x <= 0.5
    ensures Round(x) as real - x == 0.5 || Round(x) as real - x == -0.5 ==> Round(x) % 2 == 0
  {
  }

  /** The share of the score that history earns, before rounding. */
  function ExactHistory(stats: Stats): real {
    var heads := (stats.averageHeads - stats.medianHeads) * 6.0;
    65.0
    + (if stats.successRate.None? then 0.0 else stats.successRate.value * 30.0 - 15.0)
    - (if stats.blockRate.None? then 0.0 else stats.blockRate.value * 30.0)
    - (if heads > 0.0 then heads else 0.0)
  }

  /** History earns 65 and what its rates and heads come to, each rounded to the nearest. */
  lemma HistoryIsNear(stats: Stats)
    ensures -1.5 <= HistoryScore(stats) as real - ExactHistory(stats) <= 1.5
  {
    hide Round;
    if stats.successRate.Some? {
      RoundIsNearest((stats.successRate.value - 0.5) * 30.0);
    }
    if stats.blockRate.Some? {
      RoundIsNearest(stats.blockRate.value * 30.0);
    }
    RoundIsNearest((stats.averageHeads - stats.medianHeads) * 6.0);
  }

  lemma {:induction false} NothingSums(signals: seq<Signal>, praise: bool, counts: Counts)
    requires forall s :: counts(s) == 0
    ensures WeightedSum(signals, praise, counts) == 0
  {
    if signals != [] {
      NothingSums(signals[1..], praise, counts);
    }
  }

  lemma NoHistory(stats: Stats)
    requires stats.successRate.None? && stats.blockRate.None? && stats.averageHeads == stats.medianHeads
    ensures HistoryScore(stats) == 65 && !EarnsCleanBonus(stats)
  {
    assert (stats.averageHeads - stats.medianHeads) * 6.0 == 0.0;
  }

  /** Without any history or signal the score is 65. */
  lemma EmptyHistoryScores(vocabulary: seq<Signal>, stats: Stats, counts: Counts)
    requires stats.successRate.None? && stats.blockRate.None? && stats.averageHeads == stats.medianHeads
    requires forall s :: counts(s) == 0
    ensures Score(vocabulary, stats, counts) == 65
  {
    hide HistoryScore, WeightedSum, EarnsCleanBonus;
    NoHistory(stats);
    NothingSums(vocabulary, false, counts);
    NothingSums(vocabulary, true, counts);
  }

  /** One more occurrence of a signal, and of no other. */
  ghost predicate OneMore(counts: Counts, s: Signal, counts': Counts) {
    forall t :: counts'(t) == counts(t) + if t == s then 1 else 0
  }

  lemma {:induction false} OneMoreSums(signals: seq<Signal>, praise: bool, counts: Counts, s: Signal, counts': Counts)
    requires OneMore(counts, s, counts') && forall i, j :: 0 <= i < j < |signals| ==> signals[i] != signals[j]
    ensures WeightedSum(signals, praise, counts') ==
            WeightedSum(signals, praise, counts) + if s in signals && IsPraise(s) == praise then Weight(s) else 0
  {
    hide Weight, IsPraise;
    if signals != [] {
      OneMoreSums(signals[1..], praise, counts, s, counts');
      OneMoreWeighs(Weight(signals[0]), counts(signals[0]));
    }
  }

  lemma OneMoreWeighs(w: nat, n: nat)
    ensures w * (n + 1) == w * n + w
  {
  }

  lemma VocabularyIsComplete(s: Signal)
    ensures s in ALL_SIGNALS && Weight(s) > 0
    ensures forall i, j :: 0 <= i < j < |ALL_SIGNALS| ==> ALL_SIGNALS[i] != ALL_SIGNALS[j]
  {
  }

  /** Inside the clamp one more defect takes its weight off the score, and a first one the clean bonus too. */
  lemma OneMoreDefectCosts(stats: Stats, counts: Counts, s: Signal, counts': Counts)
    requires OneMore(counts, s, counts') && !IsPraise(s)
    requires Score(ALL_SIGNALS, stats, counts) < 100 && 0 < Score(ALL_SIGNALS, stats, counts')
    ensures
      var bonus := stats.successRate.Some? && stats.successRate.value >= 0.85
                   && SignalPenalty(ALL_SIGNALS, counts) == 0;
      Score(ALL_SIGNALS, stats, counts') == Score(ALL_SIGNALS, stats, counts) - Weight(s) - if bonus then 5 else 0
  {
    hide Weight, ALL_SIGNALS, WeightedSum, IsPraise, HistoryScore;
    VocabularyIsComplete(s);
    OneMoreSums(ALL_SIGNALS, false, counts, s, counts');
    OneMoreSums(ALL_SIGNALS, true, counts, s, counts');
  }

  /** Inside the clamp and below the cap one more praise adds its weight. */
  lemma OneMorePraiseEarns(stats: Stats, counts: Counts, s: Signal, counts': Counts)
    requires OneMore(counts, s, counts') && IsPraise(s)
    requires WeightedSum(ALL_SIGNALS, true, counts') <= 15
    requires 0 < Score(ALL_SIGNALS, stats, counts) && Score(ALL_SIGNALS, stats, counts') < 100
    ensures Score(ALL_SIGNALS, stats, counts') == Score(ALL_SIGNALS, stats, counts) + Weight(s)
  {
    hide Weight, ALL_SIGNALS, WeightedSum, IsPraise, HistoryScore;
    VocabularyIsComplete(s);
    OneMoreSums(ALL_SIGNALS, false, counts, s, counts');
    OneMoreSums(ALL_SIGNALS, true, counts, s, counts');
  }

  // ---------------------------------------------------------------------------------------
  // Counting the signals of a contributor
  // ---------------------------------------------------------------------------------------

  function CountOf(tokens: seq<Token>, s: Signal): nat {
    if tokens == [] then 0
    else CountOf(tokens[..|tokens| - 1], s) + if CanonicalSignal(tokens[|tokens| - 1]) == Some(s) then 1 else 0
  }

  function NonCorrections(log: seq<Event>): seq<Event> {
    if log == [] then []
    else
      var front, e := NonCorrections(log[..|log| - 1]), log[|log| - 1];
      if IsCorrection(e) then front else front + [e]
  }

  /** The first login recorded for a pull request, corrections aside. */
  function PrContributor(events: seq<Event>, pr: int): Option<string> {
    if events == [] then None
    else
      var first := PrContributor(events[..|events| - 1], pr);
      var e := events[|events| - 1];
      if first.Some? then first else if e.pr == Some(pr) then e.login else None
  }

  predicate Names(e: Event, pr: int) {
    e.pr == Some(pr) && e.login.Some?
  }

  ghost predicate FirstToName(events: seq<Event>, i: nat, pr: int) {
    i < |events| && Names(events[i], pr) && forall j :: 0 <= j < i ==> !Names(events[j], pr)
  }

  lemma FirstStaysFirst(front: seq<Event>, last: Event, i: nat, pr: int)
    requires FirstToName(front, i, pr)
    ensures FirstToName(front + [last], i, pr)
  {
  }

  lemma LastIsFirst(front: seq<Event>, last: Event, pr: int)
    requires Names(last, pr) && forall j :: 0 <= j < |front| ==> !Names(front[j], pr)
    ensures FirstToName(front + [last], |front|, pr)
  {
  }

  /** It is the login of the first event that names one on the pull request. */
  lemma {:induction false} PrContributorExactly(events: seq<Event>, pr: int) returns (i: nat)
    ensures PrContributor(events, pr).None? ==> forall j :: 0 <= j < |events| ==> !Names(events[j], pr)
    ensures PrContributor(events, pr).Some? ==>
              FirstToName(events, i, pr) && events[i].login == PrContributor(events, pr)
  {
    i := 0;
    if events != [] {
      var front, last := events[..|events| - 1], events[|events| - 1];
      i := PrContributorExactly(front, pr);
      assert events == front + [last];
      if PrContributor(front, pr).Some? {
        FirstStaysFirst(front, last, i, pr);
      } else if Names(last, pr) {
        i := |front|;
        LastIsFirst(front, last, pr);
      }
    }
  }

  /** Whom an event's signals count for. */
  function Owner(log: seq<Event>, e: Event): Option<string> {
    if e.kind.QualityEntry? || e.login.Some? then e.login
    else if e.pr.None? then None
    else PrContributor(NonCorrections(log), e.pr.value)
  }

  predicate CountsAtAll(e: Event) {
    e.kind.QualityEntry? || e.pr.Some?
  }

  function TokensOf(log: seq<Event>, e: Event): seq<Token> {
    if e.kind.QualityEntry? then e.quality else Effective(log, e.id)
  }

  /** The lifetime count of a signal over the events of a contributor that a filter admits. */
  function SignalCount(log: seq<Event>, events: seq<Event>, login: string, admits: Event -> bool, s: Signal): nat {
    if events == [] then 0
    else
      var e := events[|events| - 1];
      SignalCount(log, events[..|events| - 1], login, admits, s)
      + if !IsCorrection(e) && admits(e) && CountsAtAll(e) && Owner(log, e) == Some(login)
        then CountOf(TokensOf(log, e), s) else 0
  }

  function CountsFor(log: seq<Event>, login: string, admits: Event -> bool): Counts {
    (s: Signal) => SignalCount(log, log, login, admits, s)
  }

  /** The score of a contributor; `stats` sees the events that are not corrections. */
  function ContributorScore(log: seq<Event>, login: string, admits: Event -> bool, stats: seq<Event> -> Stats): int {
    Score(ALL_SIGNALS, stats(NonCorrections(log)), CountsFor(log, login, admits))
  }

  // ---------------------------------------------------------------------------------------
  // What one more correction does
  // ---------------------------------------------------------------------------------------

  lemma {:induction false} CountOfSurviving(tokens: seq<Token>, removed: set<Signal>, s: Signal)
    ensures CountOf(Surviving(tokens, removed), s) == if s in removed then 0 else CountOf(tokens, s)
  {
    if tokens != [] {
      var front, last := tokens[..|tokens| - 1], tokens[|tokens| - 1];
      CountOfSurviving(front, removed, s);
      CountOfAppend(Surviving(front, removed), last, s);
    }
  }

  /** An event counts for the login it names, else for the contributor of its pull request, quality entries aside. */
  lemma OwnerExactly(log: seq<Event>, e: Event)
    ensures e.login.Some? ==> Owner(log, e) == e.login
    ensures e.login.None? && (e.kind.QualityEntry? || e.pr.None?) ==> Owner(log, e).None?
    ensures e.login.None? && !e.kind.QualityEntry? && e.pr.Some? ==>
              Owner(log, e) == PrContributor(NonCorrections(log), e.pr.value)
  {
  }

  lemma CountOfAppend(tokens: seq<Token>, last: Token, s: Signal)
    ensures CountOf([], s) == 0
    ensures CountOf(tokens + [last], s) == CountOf(tokens, s) + if CanonicalSignal(last) == Some(s) then 1 else 0
  {
    assert (tokens + [last])[..|tokens|] == tokens;
  }

  /** A new correction takes back exactly its own signals, from its own target. */
  lemma CorrectionRetracts(log: seq<Event>, c: Event, id: string)
    requires IsCorrection(c) && Find(log, c.id).None? && id != c.id
    ensures Find(log + [c], id) == Find(log, id)
    ensures Retracted(log + [c], id) ==
            Retracted(log, id) + if c.corrects == id then Signals(c.signals) * TargetSignals(log, id) else {}
  {
    FindAfterAppend(log, c, id);
    assert TargetSignals(log + [c], id) == TargetSignals(log, id);
    RetractedByOneMore(log + [c], |log|, id);
    assert (log + [c])[..|log| + 1] == log + [c] && (log + [c])[..|log|] == log;
  }

  lemma CountAfterCorrection(log: seq<Event>, c: Event, e: Event, s: Signal)
    requires IsCorrection(c) && Find(log, c.id).None? && e in log
    ensures CountOf(TokensOf(log + [c], e), s) <= CountOf(TokensOf(log, e), s)
    ensures s !in Signals(c.signals) ==> CountOf(TokensOf(log + [c], e), s) == CountOf(TokensOf(log, e), s)
  {
    FindIsIn(log, c.id);
    CorrectionRetracts(log, c, e.id);
    var found := Find(log, e.id);
    if found.Some? && !IsCorrection(found.value) {
      CountOfSurviving(found.value.signals, Retracted(log, e.id), s);
      CountOfSurviving(found.value.signals, Retracted(log + [c], e.id), s);
    }
  }

  lemma NonCorrectionsUnmoved(log: seq<Event>, c: Event)
    requires IsCorrection(c)
    ensures NonCorrections(log + [c]) == NonCorrections(log)
  {
    assert (log + [c])[..|log|] == log;
  }

  lemma {:induction false} SignalCountAfterCorrection(log: seq<Event>, events: seq<Event>, c: Event, login: string,
                                                      admits: Event -> bool, s: Signal)
    requires IsCorrection(c) && Find(log, c.id).None? && forall e :: e in events ==> e in log
    ensures SignalCount(log + [c], events, login, admits, s) <= SignalCount(log, events, login, admits, s)
    ensures s !in Signals(c.signals) ==>
              SignalCount(log + [c], events, login, admits, s) == SignalCount(log, events, login, admits, s)
    decreases |events|
  {
    if events != [] {
      SignalCountAfterCorrection(log, events[..|events| - 1], c, login, admits, s);
      NonCorrectionsUnmoved(log, c);
      CountAfterCorrection(log, c, events[|events| - 1], s);
    }
  }

  lemma CountsAfterCorrection(log: seq<Event>, c: Event, login: string, admits: Event -> bool, s: Signal)
    requires IsCorrection(c) && Find(log, c.id).None?
    ensures CountsFor(log + [c], login, admits)(s) <= CountsFor(log, login, admits)(s)
    ensures s !in Signals(c.signals) ==> CountsFor(log + [c], login, admits)(s) == CountsFor(log, login, admits)(s)
  {
    assert (log + [c])[..|log|] == log;
    SignalCountAfterCorrection(log, log, c, login, admits, s);
  }

  /** Taking back defects never lowers anybody's score. */
  lemma CorrectionNeverLowersScore(log: seq<Event>, c: Event, login: string, admits: Event -> bool,
                                   stats: seq<Event> -> Stats)
    requires IsCorrection(c) && Find(log, c.id).None?
    requires forall s :: s in Signals(c.signals) ==> !IsPraise(s)
    ensures ContributorScore(log, login, admits, stats) <= ContributorScore(log + [c], login, admits, stats)
  {
    NonCorrectionsUnmoved(log, c);
    var before, after := CountsFor(log, login, admits), CountsFor(log + [c], login, admits);
    forall s
      ensures after(s) <= before(s) && (IsPraise(s) ==> before(s) <= after(s))
    {
      CountsAfterCorrection(log, c, login, admits, s);
    }
    ScoreIsMonotone(ALL_SIGNALS, stats(NonCorrections(log)), before, after);
  }

  // ---------------------------------------------------------------------------------------
  // What one more event does
  // ---------------------------------------------------------------------------------------

  /** The event is new, nothing in the log corrects it, and it settles no older event's contributor. */
  ghost predicate StandsAlone(log: seq<Event>, e: Event) {
    && !IsCorrection(e) && Find(log, e.id).None?
    && (forall c :: c in log && IsCorrection(c) ==> c.corrects != e.id)
    && (e.pr.Some? ==> PrContributor(NonCorrections(log), e.pr.value).Some?)
  }

  lemma NonCorrectionsOneMore(log: seq<Event>, e: Event)
    ensures NonCorrections(log + [e]) == NonCorrections(log) + if IsCorrection(e) then [] else [e]
  {
    assert (log + [e])[..|log|] == log;
  }

  lemma OwnerStays(log: seq<Event>, e: Event, older: Event)
    requires StandsAlone(log, e)
    ensures Owner(log + [e], older) == Owner(log, older)
  {
    NonCorrectionsOneMore(log, e);
    var events := NonCorrections(log);
    assert (events + [e])[..|events|] == events;
  }

  lemma TokensStay(log: seq<Event>, e: Event, id: string)
    requires StandsAlone(log, e) && id != e.id
    ensures Effective(log + [e], id) == Effective(log, id)
  {
    FindAfterAppend(log, e, id);
    assert TargetSignals(log + [e], id) == TargetSignals(log, id);
    assert Retracted(log + [e], id) == Retracted(log, id);
  }

  lemma {:induction false} NothingRemoved(tokens: seq<Token>)
    ensures Surviving(tokens, {}) == tokens
  {
    if tokens != [] {
      NothingRemoved(tokens[..|tokens| - 1]);
    }
  }

  lemma NewTokens(log: seq<Event>, e: Event)
    requires StandsAlone(log, e)
    ensures TokensOf(log + [e], e) == if e.kind.QualityEntry? then e.quality else e.signals
  {
    FindAfterAppend(log, e, e.id);
    assert Retracted(log + [e], e.id) == {};
    NothingRemoved(e.signals);
  }

  lemma {:induction false} OlderCountsStay(log: seq<Event>, events: seq<Event>, e: Event, login: string,
                                           admits: Event -> bool, s: Signal)
    requires StandsAlone(log, e) && forall d :: d in events ==> d in log
    ensures SignalCount(log + [e], events, login, admits, s) == SignalCount(log, events, login, admits, s)
    decreases |events|
  {
    if events != [] {
      var d := events[|events| - 1];
      OlderCountsStay(log, events[..|events| - 1], e, login, admits, s);
      FindIsIn(log, e.id);
      OwnerStays(log, e, d);
      TokensStay(log, e, d.id);
    }
  }

  /** A new event adds its own signals to the counts of its contributor, and to nobody else's. */
  lemma NewEventCounts(log: seq<Event>, e: Event, login: string, admits: Event -> bool, s: Signal)
    requires StandsAlone(log, e)
    ensures
      var tokens := if e.kind.QualityEntry? then e.quality else e.signals;
      var counts := admits(e) && (e.kind.QualityEntry? || e.pr.Some?) && Owner(log, e) == Some(login);
      CountsFor(log + [e], login, admits)(s) ==
        CountsFor(log, login, admits)(s) + if counts then CountOf(tokens, s) else 0
  {
    assert (log + [e])[..|log|] == log;
    OlderCountsStay(log, log, e, login, admits, s);
    OwnerStays(log, e, e);
    NewTokens(log, e);
  }

  // ---------------------------------------------------------------------------------------
  // Recurrence
  // ---------------------------------------------------------------------------------------

  datatype Occurrence = Occurrence(signal: Signal, pr: int, timestamp: Stamp)

  function DefectsOf(tokens: seq<Token>, pr: int, timestamp: Stamp): seq<Occurrence> {
    if tokens == [] then []
    else
      var front := DefectsOf(tokens[..|tokens| - 1], pr, timestamp);
      var s := CanonicalSignal(tokens[|tokens| - 1]);
      if s.Some? && !IsPraise(s.value) then front + [Occurrence(s.value, pr, timestamp)] else front
  }

  predicate IsAttributed(e: Event) {
    e.kind.Attributed? || e.kind.TrackerRow?
  }

  /** Dated defect occurrences of one contributor on pull requests. */
  function Occurrences(log: seq<Event>, events: seq<Event>, login: string): seq<Occurrence> {
    if events == [] then []
    else
      var front, e := Occurrences(log, events[..|events| - 1], login), events[|events| - 1];
      if IsAttributed(e) && e.pr.Some? && e.login == Some(login)
      then front + DefectsOf(Effective(log, e.id), e.pr.value, e.timestamp)
      else front
  }

  datatype Recurrence = Recurrence(prs: set<int>, lastSeen: nat)

  ghost function PrsWith(entries: seq<Occurrence>, s: Signal, cutoff: int): set<int> {
    set o | o in entries && InWindow(o, s, cutoff) :: o.pr
  }

  /** An occurrence of the signal whose timestamp is readable and not before the cutoff. */
  predicate InWindow(o: Occurrence, s: Signal, cutoff: int) {
    o.signal == s && o.timestamp.time.Some? && o.timestamp.time.value >= cutoff
  }

  /** The table holds the pull requests of one signal. */
  ghost predicate TellsPrs(entries: seq<Occurrence>, perSignal: map<Signal, Recurrence>, s: Signal, cutoff: int) {
    PrsWith(entries, s, cutoff) == if s in perSignal then perSignal[s].prs else {}
  }

  /** A signal is in the table when some entry is in its window, under the greatest of their stamps as text. */
  ghost predicate TellsLast(entries: seq<Occurrence>, perSignal: map<Signal, Recurrence>, s: Signal, cutoff: int) {
    && (forall o :: o in entries && InWindow(o, s, cutoff) ==>
          s in perSignal && o.timestamp.text <= perSignal[s].lastSeen)
    && (s in perSignal ==>
          exists o :: o in entries && InWindow(o, s, cutoff) && o.timestamp.text == perSignal[s].lastSeen)
  }

  function AddOccurrence(perSignal: map<Signal, Recurrence>, entry: Occurrence, cutoff: int): map<Signal, Recurrence> {
    if entry.timestamp.time.None? || entry.timestamp.time.value < cutoff then perSignal
    else
      var info := if entry.signal in perSignal then perSignal[entry.signal] else Recurrence({}, 0);
      perSignal[entry.signal := Recurrence(info.prs + {entry.pr}, Max(info.lastSeen, entry.timestamp.text))]
  }

  lemma AddOccurrenceTellsPrs(seen: seq<Occurrence>, entry: Occurrence, perSignal: map<Signal, Recurrence>, s: Signal,
                              cutoff: int)
    requires TellsPrs(seen, perSignal, s, cutoff)
    ensures TellsPrs(seen + [entry], AddOccurrence(perSignal, entry, cutoff), s, cutoff)
  {
    hide PrsWith;
    PrsWithOneMore(seen, entry, s, cutoff);
  }

  lemma AddOccurrenceTellsLast(seen: seq<Occurrence>, entry: Occurrence, perSignal: map<Signal, Recurrence>, s: Signal,
                               cutoff: int)
    requires TellsLast(seen, perSignal, s, cutoff)
    ensures TellsLast(seen + [entry], AddOccurrence(perSignal, entry, cutoff), s, cutoff)
  {
    var more := AddOccurrence(perSignal, entry, cutoff);
    assert forall o :: o in seen + [entry] <==> o in seen || o == entry;
    if InWindow(entry, s, cutoff) {
      if s in perSignal && more[s].lastSeen == perSignal[s].lastSeen {
        var o :| o in seen && InWindow(o, s, cutoff) && o.timestamp.text == perSignal[s].lastSeen;
      } else {
        assert entry.timestamp.text == more[s].lastSeen;
      }
    } else {
      assert s in more <==> s in perSignal;
      assert s in more ==> more[s] == perSignal[s];
    }
  }

  /** Where stamps sort as text the way they sort as times, the last-seen one is the latest in the window. */
  lemma LastSeenIsLatest(entries: seq<Occurrence>, perSignal: map<Signal, Recurrence>, s: Signal, cutoff: int)
    returns (last: Occurrence)
    requires TellsLast(entries, perSignal, s, cutoff) && s in perSignal
    requires forall a, b :: a in entries && InWindow(a, s, cutoff) && b in entries && InWindow(b, s, cutoff)
                            && a.timestamp.text <= b.timestamp.text ==>
               a.timestamp.time.value <= b.timestamp.time.value
    ensures last in entries && InWindow(last, s, cutoff) && last.timestamp.text == perSignal[s].lastSeen
    ensures forall o :: o in entries && InWindow(o, s, cutoff) ==> o.timestamp.time.value <= last.timestamp.time.value
  {
    last :| last in entries && InWindow(last, s, cutoff) && last.timestamp.text == perSignal[s].lastSeen;
  }

  /** Per signal, the distinct pull requests inside the window and the greatest stamp it was seen under. */
  method WindowedRecurrence(entries: seq<Occurrence>, now: int)
    returns (perSignal: map<Signal, Recurrence>, cutoff: int)
    ensures cutoff == now - 60 * 86400
    ensures forall s :: TellsPrs(entries, perSignal, s, cutoff) && TellsLast(entries, perSignal, s, cutoff)
  {
    cutoff := now - RECURRENCE_WINDOW_SECONDS;
    perSignal := map[];
    for i := 0 to |entries|
      invariant forall s :: TellsPrs(entries[..i], perSignal, s, cutoff)
      invariant forall s :: TellsLast(entries[..i], perSignal, s, cutoff)
    {
      ghost var before, seen := perSignal, entries[..i];
      assert entries[..i + 1] == seen + [entries[i]];
      perSignal := AddOccurrence(perSignal, entries[i], cutoff);
      forall s
        ensures TellsPrs(seen + [entries[i]], perSignal, s, cutoff)
        ensures TellsLast(seen + [entries[i]], perSignal, s, cutoff)
      {
        AddOccurrenceTellsPrs(seen, entries[i], before, s, cutoff);
        AddOccurrenceTellsLast(seen, entries[i], before, s, cutoff);
      }
    }
    assert entries[..|entries|] == entries;
  }

  lemma PrsWithOneMore(seen: seq<Occurrence>, entry: Occurrence, s: Signal, cutoff: int)
    ensures PrsWith(seen + [entry], s, cutoff) ==
            PrsWith(seen, s, cutoff) + if InWindow(entry, s, cutoff) then {entry.pr} else {}
  {
  }

  lemma {:induction false} DefectsOfMember(tokens: seq<Token>, pr: int, timestamp: Stamp, o: Occurrence)
    ensures o in DefectsOf(tokens, pr, timestamp) <==>
            o.pr == pr && o.timestamp == timestamp && o.signal in Signals(tokens) && !IsPraise(o.signal)
  {
    if tokens != [] {
      var front, last := tokens[..|tokens| - 1], tokens[|tokens| - 1];
      DefectsOfMember(front, pr, timestamp, o);
      assert tokens == front + [last];
      SignalsAppend(front, last);
    }
  }

  /** An event of this contributor that still carries a defect on a pull request. */
  ghost predicate Shows(log: seq<Event>, e: Event, login: string, o: Occurrence) {
    && IsAttributed(e) && e.login == Some(login) && e.pr == Some(o.pr) && e.timestamp == o.timestamp
    && o.signal in Signals(Effective(log, e.id)) && !IsPraise(o.signal)
  }

  ghost predicate SomeShows(log: seq<Event>, events: seq<Event>, login: string, o: Occurrence) {
    exists e :: e in events && Shows(log, e, login, o)
  }

  lemma OneMoreShows(log: seq<Event>, front: seq<Event>, e: Event, login: string, o: Occurrence)
    ensures SomeShows(log, front + [e], login, o) <==> SomeShows(log, front, login, o) || Shows(log, e, login, o)
  {
    hide Shows;
    assert forall d :: d in front + [e] <==> d in front || d == e;
  }

  /** The occurrences are the defects that a contributor's events still carry, and nothing else. */
  lemma {:induction false} OccurrencesExactly(log: seq<Event>, events: seq<Event>, login: string, o: Occurrence)
    ensures o in Occurrences(log, events, login) <==> SomeShows(log, events, login, o)
  {
    if events != [] {
      var front, e := events[..|events| - 1], events[|events| - 1];
      OccurrencesExactly(log, front, login, o);
      ShownBy(log, e, login, o);
      hide Shows, SomeShows, DefectsOf, IsAttributed, Effective;
      OneMoreShows(log, front, e, login, o);
      assert events == front + [e];
    }
  }

  lemma ShownBy(log: seq<Event>, e: Event, login: string, o: Occurrence)
    ensures Shows(log, e, login, o) <==>
            IsAttributed(e) && e.pr.Some? && e.login == Some(login)
            && o in DefectsOf(Effective(log, e.id), e.pr.value, e.timestamp)
  {
    if e.pr.Some? {
      DefectsOfMember(Effective(log, e.id), e.pr.value, e.timestamp, o);
    }
  }

  lemma EffectiveOnlyShrinks(log: seq<Event>, c: Event, id: string)
    requires IsCorrection(c) && Find(log, c.id).None? && id != c.id
    ensures Signals(Effective(log + [c], id)) <= Signals(Effective(log, id))
  {
    CorrectionRetracts(log, c, id);
    var found := Find(log, id);
    if found.Some? && !IsCorrection(found.value) {
      SignalsOfSurviving(found.value.signals, Retracted(log, id));
      SignalsOfSurviving(found.value.signals, Retracted(log + [c], id));
    }
  }

  lemma {:induction false} OccurrencesOnlyShrink(log: seq<Event>, events: seq<Event>, c: Event, login: string,
                                                 o: Occurrence)
    requires IsCorrection(c) && Find(log, c.id).None? && forall e :: e in events ==> e in log
    requires o in Occurrences(log + [c], events, login)
    ensures o in Occurrences(log, events, login)
    decreases |events|
  {
    var front, e := events[..|events| - 1], events[|events| - 1];
    if o in Occurrences(log + [c], front, login) {
      OccurrencesOnlyShrink(log, front, c, login, o);
    } else {
      FindIsIn(log, c.id);
      EffectiveOnlyShrinks(log, c, e.id);
      DefectsOfMember(Effective(log + [c], e.id), e.pr.value, e.timestamp, o);
      DefectsOfMember(Effective(log, e.id), e.pr.value, e.timestamp, o);
    }
  }

  /** With time fixed, no correction raises any count of distinct pull requests. */
  lemma CorrectionNeverRaisesRecurrence(log: seq<Event>, c: Event, login: string, s: Signal, cutoff: int)
    requires IsCorrection(c) && Find(log, c.id).None?
    ensures
      var before := PrsWith(Occurrences(log, log, login), s, cutoff);
      var after := PrsWith(Occurrences(log + [c], log + [c], login), s, cutoff);
      after <= before && |after| <= |before|
  {
    var before := PrsWith(Occurrences(log, log, login), s, cutoff);
    var after := PrsWith(Occurrences(log + [c], log + [c], login), s, cutoff);
    assert (log + [c])[..|log|] == log;
    forall pr | pr in after
      ensures pr in before
    {
      var o :| o in Occurrences(log + [c], log, login) && InWindow(o, s, cutoff) && o.pr == pr;
      OccurrencesOnlyShrink(log, log, c, login, o);
    }
    SubsetSize(after, before);
  }
}
