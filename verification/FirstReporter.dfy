/**
 Who is rewarded for a vulnerability: the first reporter, until an award pins them.

 The rule is a comparison made for one duplicate at a time. The second half of this module is
 the protocol that applies it: reports are registered under a mutex, but the award is prepared
 by others at any moment, so the replacement is a conditional update of the stored row.
 */
module FirstReporter {
  import opened Text

  /** `reportedAt` in seconds, the precision that is stored. */
  datatype FirstReport = FirstReport(reportId: int, reportedAt: int) {
    predicate Precedes(other: FirstReport) {
      reportedAt < other.reportedAt || (reportedAt == other.reportedAt && reportId < other.reportId)
    }
  }

  datatype FirstReporterDecision = KeepExisting | Replace

  function SelectFirstReporter(current: FirstReport, candidate: FirstReport, awardExists: bool): FirstReporterDecision {
    if candidate.Precedes(current) && !awardExists then Replace else KeepExisting
  }

  // --- The rule, folded over a history ------------------------------------

  datatype Event = Duplicate(report: FirstReport) | Award

  datatype Standing = Standing(first: FirstReport, awarded: bool)

  function Apply(standing: Standing, event: Event): Standing {
    match event
    case Award => standing.(awarded := true)
    case Duplicate(report) =>
      match SelectFirstReporter(standing.first, report, standing.awarded)
      case Replace => standing.(first := report)
      case KeepExisting => standing
  }

  function Fold(initial: FirstReport, events: seq<Event>): Standing {
    if events == [] then
      Standing(initial, false)
    else
      Apply(Fold(initial, events[..|events| - 1]), events[|events| - 1])
  }

  /** The reports up to the award: the initial one and every duplicate before it. */
  function Eligible(initial: FirstReport, events: seq<Event>): seq<FirstReport> {
    if events == [] then
      [initial]
    else
      var n := |events| - 1;
      Eligible(initial, events[..n]) +
      if events[n].Duplicate? && Award !in events[..n] then [events[n].report] else []
  }

  /** The minimum by time, and among equal times by id. */
  predicate IsFirst(first: FirstReport, reports: seq<FirstReport>) {
    && first in reports
    && forall r | r in reports ::
         first.reportedAt < r.reportedAt || (first.reportedAt == r.reportedAt && first.reportId <= r.reportId)
  }

  lemma FirstOfMore(first: FirstReport, reports: seq<FirstReport>, report: FirstReport)
    requires IsFirst(first, reports)
    ensures IsFirst(if report.Precedes(first) then report else first, reports + [report])
  {
  }

  /** The fold computes the minimum of (reported_at, report_id) over the eligible reports. */
  lemma {:induction false} FoldIsMinimum(initial: FirstReport, events: seq<Event>)
    ensures IsFirst(Fold(initial, events).first, Eligible(initial, events))
    ensures Fold(initial, events).awarded <==> Award in events
  {
    if events == [] {
    } else {
      var n := |events| - 1;
      FoldIsMinimum(initial, events[..n]);
      assert events == events[..n] + [events[n]];
      if events[n].Duplicate? {
        FirstOfMore(Fold(initial, events[..n]).first, Eligible(initial, events[..n]), events[n].report);
      }
    }
  }

  lemma FirstIsUnique(a: FirstReport, b: FirstReport, reports: seq<FirstReport>)
    requires IsFirst(a, reports) && IsFirst(b, reports)
    ensures a == b
  {
  }

  /** The order and number of times in which reports arrive before the award do not matter. */
  lemma ArrivalOrderDoesNotMatter(initial: FirstReport, a: seq<Event>, b: seq<Event>)
    requires forall r :: r in Eligible(initial, a) <==> r in Eligible(initial, b)
    ensures Fold(initial, a).first == Fold(initial, b).first
  {
    FoldIsMinimum(initial, a);
    FoldIsMinimum(initial, b);
    FirstIsUnique(Fold(initial, a).first, Fold(initial, b).first, Eligible(initial, b));
  }

  /** After the award nothing changes who is first. */
  lemma {:induction false} AwardPins(initial: FirstReport, before: seq<Event>, after: seq<Event>)
    requires Award in before
    ensures Fold(initial, before + after) == Fold(initial, before)
    ensures Eligible(initial, before + after) == Eligible(initial, before)
  {
    if after == [] {
      assert before + after == before;
    } else {
      var n := |after| - 1;
      var events := before + after;
      assert events[..|events| - 1] == before + after[..n] && events[|events| - 1] == after[n];
      AwardPins(initial, before, after[..n]);
      FoldIsMinimum(initial, before);
      assert Award in before + after[..n];
    }
  }

  // --- The protocol -------------------------------------------------------

  datatype Outcome = Adopted | Relinked | Replaced | Linked

  /** Where the registration of a report is. `matched` is the row read for the vulnerability. */
  datatype Linker =
    | Idle
    | Waiting(report: FirstReport)
    | Locked(report: FirstReport)
    | Judging(report: FirstReport)
    | Matched(report: FirstReport, matched: FirstReport)
    | Replacing(report: FirstReport, matched: FirstReport)
    | Done(report: FirstReport, outcome: Outcome)
  {
    predicate HoldsLock() {
      Locked? || Judging? || Matched? || Replacing?
    }
  }

  /** The stored row and award of one vulnerability, and everybody registering a report of it.
      `log` orders the duplicates and the award as they took effect. */
  datatype State = State(
    first: FirstReport,
    award: Option<FirstReport>,
    registration: Option<nat>,
    linkers: seq<Linker>,
    log: seq<Event>)

  datatype Action =
    | Start(t: nat, report: FirstReport)
    | Acquire(t: nat)
    | LookForOwn(t: nat)
    | Relink(t: nat)
    | ReadMatch(t: nat)
    | ReadAward(t: nat)
    | Update(t: nat)
    | Drop(t: nat)
    | PrepareAward(reportId: int)

  predicate Enabled(s: State, action: Action) {
    match action
    case Start(t, _) => t < |s.linkers| && s.linkers[t].Idle?
    case Acquire(t) => t < |s.linkers| && s.linkers[t].Waiting? && s.registration == None
    case LookForOwn(t) => t < |s.linkers| && s.linkers[t].Locked?
    case Relink(t) =>
      && t < |s.linkers| && s.linkers[t].Locked? && s.first.reportId != s.linkers[t].report.reportId
      && Duplicate(s.linkers[t].report) in s.log
    case ReadMatch(t) => t < |s.linkers| && s.linkers[t].Judging?
    case ReadAward(t) => t < |s.linkers| && s.linkers[t].Matched?
    case Update(t) => t < |s.linkers| && s.linkers[t].Replacing?
    case Drop(t) => t < |s.linkers| && (s.linkers[t].Waiting? || s.linkers[t].HoldsLock())
    case PrepareAward(_) => true
  }

  function Become(s: State, t: nat, linker: Linker): State
    requires t < |s.linkers|
  {
    s.(linkers := s.linkers[t := linker])
  }

  /** A registration ends. Unless it found its report registered before, it has linked it as a
      duplicate or made it the first one. */
  function Finish(s: State, t: nat, outcome: Outcome): State
    requires t < |s.linkers| && !s.linkers[t].Idle?
  {
    var report := s.linkers[t].report;
    var log := if outcome.Adopted? || outcome.Relinked? then s.log else s.log + [Duplicate(report)];
    Become(s.(registration := None, log := log), t, Done(report, outcome))
  }

  /** The conditional update of `replace_first_reporter`. */
  predicate UpdateApplies(s: State, expected: int, report: FirstReport) {
    && report.reportId != expected && s.first.reportId == expected
    && (s.first.reportedAt > report.reportedAt
        || (s.first.reportedAt == report.reportedAt && s.first.reportId > report.reportId))
    && s.award == None
  }

  /** One step. An error or a cancellation before the update took effect is a `Drop`. */
  function Step(s: State, action: Action): State
    requires Enabled(s, action)
  {
    match action
    case Start(t, report) => Become(s, t, Waiting(report))
    case Acquire(t) => Become(s.(registration := Some(t)), t, Locked(s.linkers[t].report))
    case LookForOwn(t) =>
      if s.first.reportId == s.linkers[t].report.reportId then
        Finish(s, t, Adopted)
      else
        Become(s, t, Judging(s.linkers[t].report))
    case Relink(t) => Finish(s, t, Relinked)
    case ReadMatch(t) => Become(s, t, Matched(s.linkers[t].report, s.first))
    case ReadAward(t) =>
      var linker := s.linkers[t];
      if SelectFirstReporter(linker.matched, linker.report, s.award.Some?) == Replace then
        Become(s, t, Replacing(linker.report, linker.matched))
      else
        Finish(s, t, Linked)
    case Update(t) =>
      var linker := s.linkers[t];
      if UpdateApplies(s, linker.matched.reportId, linker.report) then
        Finish(s.(first := linker.report), t, Replaced)
      else
        Finish(s, t, Linked)
    case Drop(t) =>
      Become(if s.linkers[t].HoldsLock() then s.(registration := None) else s, t, Idle)
    case PrepareAward(reportId) =>
      if s.award == None && s.first.reportId == reportId then
        s.(award := Some(s.first), log := s.log + [Award])
      else
        s
  }

  /** When each report was received, by its id: a report's time is stored once and never changes. */
  type Received = int -> int

  predicate Recorded(received: Received, report: FirstReport) {
    report.reportedAt == received(report.reportId)
  }

  ghost predicate Init(initial: FirstReport, s: State) {
    && s.first == initial && s.award == None && s.registration == None && s.log == []
    && forall t | 0 <= t < |s.linkers| :: s.linkers[t] == Idle
  }

  ghost predicate LinkerInv(received: Received, s: State, t: nat)
    requires t < |s.linkers|
  {
    && (s.linkers[t].HoldsLock() ==> s.registration == Some(t))
    && (!s.linkers[t].Idle? ==> Recorded(received, s.linkers[t].report))
    && match s.linkers[t]
       case Judging(report) => report.reportId != s.first.reportId
       case Matched(report, matched) => report.reportId != s.first.reportId && matched == s.first
       case Replacing(report, matched) =>
         report.reportId != s.first.reportId && matched == s.first && report.Precedes(s.first)
       case Done(report, outcome) =>
         if outcome.Adopted? then !report.Precedes(s.first) else Duplicate(report) in s.log
       case _ => true
  }

  /** The mutex is never left locked: whoever locked it is still registering. */
  predicate MutexIsHeld(s: State) {
    s.registration.Some? ==> s.registration.value < |s.linkers| && s.linkers[s.registration.value].HoldsLock()
  }

  /** The stored row is always the fold of the rule over the log. */
  ghost predicate Inv(received: Received, initial: FirstReport, s: State) {
    && Fold(initial, s.log) == Standing(s.first, s.award.Some?)
    && (s.award.Some? ==> s.award.value == s.first)
    && Recorded(received, s.first) && MutexIsHeld(s)
    && forall t | 0 <= t < |s.linkers| :: LinkerInv(received, s, t)
  }

  lemma StepKeepsActor(received: Received, s: State, action: Action)
    requires Enabled(s, action) && !action.PrepareAward? && LinkerInv(received, s, action.t)
    requires Recorded(received, s.first) && (action.Start? ==> Recorded(received, action.report))
    ensures LinkerInv(received, Step(s, action), action.t)
  {
  }

  lemma StepKeepsOthers(received: Received, s: State, action: Action, t: nat)
    requires Enabled(s, action) && t < |s.linkers| && LinkerInv(received, s, t)
    requires !action.PrepareAward? ==> t != action.t && LinkerInv(received, s, action.t)
    ensures LinkerInv(received, Step(s, action), t)
  {
  }

  /** Every step applies at most one event to the stored row, as the rule does. */
  lemma StepFollowsRule(received: Received, initial: FirstReport, s: State, action: Action)
    requires Inv(received, initial, s) && Enabled(s, action)
    ensures var s' := Step(s, action);
            && s.log <= s'.log
            && Fold(initial, s'.log) == Standing(s'.first, s'.award.Some?)
            && (s'.award.Some? ==> s'.award.value == s'.first)
            && Recorded(received, s'.first) && MutexIsHeld(s')
  {
    var s' := Step(s, action);
    if !action.PrepareAward? {
      assert LinkerInv(received, s, action.t);
    }
    assert s'.log == s.log || (|s'.log| == |s.log| + 1 && s'.log[..|s.log|] == s.log);
  }

  lemma StepKeepsInv(received: Received, initial: FirstReport, s: State, action: Action)
    requires Inv(received, initial, s) && Enabled(s, action)
    requires action.Start? ==> Recorded(received, action.report)
    ensures Inv(received, initial, Step(s, action))
    ensures s.log <= Step(s, action).log
  {
    StepFollowsRule(received, initial, s, action);
    forall t | 0 <= t < |s.linkers| ensures LinkerInv(received, Step(s, action), t) {
      if !action.PrepareAward? && t == action.t {
        StepKeepsActor(received, s, action);
      } else {
        assert !action.PrepareAward? ==> LinkerInv(received, s, action.t);
        StepKeepsOthers(received, s, action, t);
      }
    }
  }

  /** The registration by `t` without interruption, as steps of the machine. */
  function SoloRegister(s: State, t: nat): (s': State)
    requires t < |s.linkers| && s.linkers[t].Waiting? && s.registration == None
    ensures s'.registration == None && |s'.linkers| == |s.linkers| && s'.linkers[t].Done?
  {
    var locked := Step(Step(s, Acquire(t)), LookForOwn(t));
    if locked.linkers[t].Done? then
      locked
    else
      var decided := Step(Step(locked, ReadMatch(t)), ReadAward(t));
      if decided.linkers[t].Done? then decided else Step(decided, Update(t))
  }

  /** Whoever gets the mutex can finish, and what they leave is decided by the report alone: it is
      first from then on iff there is no award and it is earlier, or as early with a lower id. */
  lemma SoloRegisterDecides(received: Received, initial: FirstReport, s: State, t: nat)
    requires Inv(received, initial, s)
    requires t < |s.linkers| && s.linkers[t].Waiting? && s.registration == None
    ensures var s', report := SoloRegister(s, t), s.linkers[t].report;
            var earlier := report.reportedAt < s.first.reportedAt
                           || (report.reportedAt == s.first.reportedAt && report.reportId < s.first.reportId);
            && s'.award == s.award
            && s'.first == (if s.award == None && earlier then report else s.first)
            && s'.log == if report.reportId == s.first.reportId then s.log else s.log + [Duplicate(report)]
  {
    assert LinkerInv(received, s, t);
  }

  /** An award is prepared for the stored first reporter, once, and for nobody else. */
  lemma AwardGoesToFirst(received: Received, initial: FirstReport, s: State, reportId: int)
    requires Inv(received, initial, s)
    ensures Enabled(s, PrepareAward(reportId))
    ensures var s' := Step(s, PrepareAward(reportId));
            && (s'.award != s.award <==> s.award == None && reportId == s.first.reportId)
            && (s'.award != s.award ==> s'.award == Some(s.first) && s'.log == s.log + [Award])
            && s'.first == s.first && s'.linkers == s.linkers
  {
  }

  ghost predicate IsRun(received: Received, initial: FirstReport, states: seq<State>, actions: seq<Action>) {
    && |states| == |actions| + 1 && Init(initial, states[0]) && Recorded(received, initial)
    && (forall i | 0 <= i < |actions| :: actions[i].Start? ==> Recorded(received, actions[i].report))
    && forall i | 0 <= i < |actions| ::
         Enabled(states[i], actions[i]) && states[i + 1] == Step(states[i], actions[i])
  }

  /** Any number of idle linkers start a run, and every enabled step extends one. */
  lemma RunsExtend(received: Received, initial: FirstReport, states: seq<State>, actions: seq<Action>, action: Action,
                   idle: nat)
    requires IsRun(received, initial, states, actions) && Enabled(states[|actions|], action)
    requires action.Start? ==> Recorded(received, action.report)
    ensures IsRun(received, initial, [State(initial, None, None, seq(idle, _ => Idle), [])], [])
    ensures IsRun(received, initial, states + [Step(states[|actions|], action)], actions + [action])
  {
  }

  lemma {:induction false} RunKeepsInv(received: Received, initial: FirstReport, states: seq<State>, actions: seq<Action>,
                                       i: nat, j: nat)
    requires IsRun(received, initial, states, actions) && i <= j < |states|
    ensures Inv(received, initial, states[j]) && states[i].log <= states[j].log
  {
    if j == 0 {
    } else {
      RunKeepsInv(received, initial, states, actions, if i < j then i else j - 1, j - 1);
      StepKeepsInv(received, initial, states[j - 1], actions[j - 1]);
      assert states[j - 1 + 1] == Step(states[j - 1], actions[j - 1]);
    }
  }

  /** Over every interleaving of registrations and the award, the stored first reporter is the
      minimum of the reports linked before the award, and the award is theirs. */
  lemma StoredFirstIsMinimum(received: Received, initial: FirstReport, states: seq<State>, actions: seq<Action>, i: nat)
    requires IsRun(received, initial, states, actions) && i < |states|
    ensures IsFirst(states[i].first, Eligible(initial, states[i].log))
    ensures states[i].award.Some? <==> Award in states[i].log
    ensures states[i].award.Some? ==> states[i].award.value == states[i].first
  {
    RunKeepsInv(received, initial, states, actions, i, i);
    FoldIsMinimum(initial, states[i].log);
  }

  /** The mutex is never lost: its holder can fail or be cancelled, which frees it. */
  lemma MutexCanBeFreed(received: Received, initial: FirstReport, states: seq<State>, actions: seq<Action>, i: nat)
    requires IsRun(received, initial, states, actions) && i < |states| && states[i].registration.Some?
    ensures var s, t := states[i], states[i].registration.value;
            t < |s.linkers| && s.linkers[t].HoldsLock() && Enabled(s, Drop(t)) && Step(s, Drop(t)).registration == None
  {
    RunKeepsInv(received, initial, states, actions, i, i);
  }

  /** Once prepared, neither the award nor the first reporter ever changes. */
  lemma AwardIsFinal(received: Received, initial: FirstReport, states: seq<State>, actions: seq<Action>, i: nat, j: nat)
    requires IsRun(received, initial, states, actions) && i <= j < |states| && states[i].award.Some?
    ensures states[j].award == states[i].award && states[j].first == states[i].first
  {
    RunKeepsInv(received, initial, states, actions, i, i);
    RunKeepsInv(received, initial, states, actions, i, j);
    FoldIsMinimum(initial, states[i].log);
    var later := states[j].log[|states[i].log|..];
    assert states[j].log == states[i].log + later;
    AwardPins(initial, states[i].log, later);
  }

  lemma {:induction false} EligibleBeforeAward(initial: FirstReport, events: seq<Event>, report: FirstReport)
    requires Award !in events && Duplicate(report) in events
    ensures report in Eligible(initial, events)
  {
    var n := |events| - 1;
    assert events == events[..n] + [events[n]];
    if events[n] != Duplicate(report) {
      EligibleBeforeAward(initial, events[..n], report);
    }
  }

  /** Nobody is passed over: until an award exists, no report whose registration has ended
      precedes the stored first reporter, however it ended. */
  lemma NobodyIsPassedOver(received: Received, initial: FirstReport, states: seq<State>, actions: seq<Action>, i: nat, t: nat)
    requires IsRun(received, initial, states, actions) && i < |states| && states[i].award == None
    requires t < |states[i].linkers| && states[i].linkers[t].Done?
    ensures var first, report := states[i].first, states[i].linkers[t].report;
            first.reportedAt < report.reportedAt
            || (first.reportedAt == report.reportedAt && first.reportId <= report.reportId)
  {
    RunKeepsInv(received, initial, states, actions, i, i);
    assert LinkerInv(received, states[i], t);
    FoldIsMinimum(initial, states[i].log);
    if !states[i].linkers[t].outcome.Adopted? {
      EligibleBeforeAward(initial, states[i].log, states[i].linkers[t].report);
    }
  }
}
