/**
 Judging chunks for relevance with a bounded number of agent calls in flight.

 `buffer_unordered` starts queued calls in order while there is room, and yields whichever call
 completes next. A schedule records one such run; the theorems hold for every schedule.
 */
module Relevance {
  import opened Text

  /** What one agent call comes back with. */
  datatype Reply = Answer(relevance: Option<real>) | AgentError(error: string)

  function Clamp(v: real): (r: real)
    ensures 0.0 <= r <= 1.0 && (0.0 <= v <= 1.0 ==> r == v)
  {
    if v < 0.0 then 0.0 else if v > 1.0 then 1.0 else v
  }

  /** `score_chunk_relevance_via_agent`: a usable score is clamped. */
  function ScoreOf(reply: Reply): Result<Option<real>, string> {
    match reply
    case AgentError(error) => Err(error)
    case Answer(None) => Ok(None)
    case Answer(Some(v)) => Ok(Some(Clamp(v)))
  }

  /** `score` is what `reply` says, cut off at 0 and 1; errors and replies without a value say nothing. */
  predicate IsScoreOf(score: real, reply: Reply) {
    match reply
    case Answer(Some(v)) =>
      (v < 0.0 && score == 0.0) || (0.0 <= v <= 1.0 && score == v) || (1.0 < v && score == 1.0)
    case _ => false
  }

  lemma ScoreOfExactly(reply: Reply, score: real)
    ensures ScoreOf(reply) == Ok(Some(score)) <==> IsScoreOf(score, reply)
  {
  }

  datatype RelevanceJudgment = RelevanceJudgment(scores: seq<(nat, real)>, failure: Option<string>)

  // --- Schedules ----------------------------------------------------------

  datatype Event = Started(index: nat) | Completed(index: nat)

  /** Calls below `next` were started; those not in flight completed, in the order of `done`. */
  datatype Batch = Batch(next: nat, inFlight: set<nat>, done: seq<nat>)

  function After(batch: Batch, event: Event, n: nat, limit: nat): Option<Batch> {
    match event
    case Started(i) =>
      if i == batch.next && i < n && |batch.inFlight| < limit then
        Some(Batch(i + 1, batch.inFlight + {i}, batch.done))
      else
        None
    case Completed(i) =>
      if i in batch.inFlight then
        Some(Batch(batch.next, batch.inFlight - {i}, batch.done + [i]))
      else
        None
  }

  /** Replays events on `n` queued calls with room for `limit`; `None` if they are no schedule. */
  function Replay(events: seq<Event>, n: nat, limit: nat): Option<Batch> {
    if events == [] then
      Some(Batch(0, {}, []))
    else
      match Replay(events[..|events| - 1], n, limit)
      case None => None
      case Some(batch) => After(batch, events[|events| - 1], n, limit)
  }

  lemma ReplayAppend(events: seq<Event>, event: Event, n: nat, limit: nat)
    ensures Replay(events + [event], n, limit) ==
            match Replay(events, n, limit)
            case None => None
            case Some(batch) => After(batch, event, n, limit)
  {
    assert (events + [event])[..|events|] == events;
  }

  predicate InRange(done: seq<nat>, n: nat) {
    forall k | 0 <= k < |done| :: done[k] < n
  }

  /** There is room for the calls in flight, and every started call is, once, in flight or done. */
  ghost predicate BatchInv(batch: Batch, n: nat, limit: nat) {
    && batch.next <= n && |batch.inFlight| <= limit
    && |batch.done| + |batch.inFlight| == batch.next
    && Distinct(batch.done) && InRange(batch.done, batch.next)
    && (forall i | i in batch.inFlight :: i < batch.next && i !in batch.done)
    && (forall i | 0 <= i < batch.next :: i in batch.inFlight || i in batch.done)
  }

  lemma StartKeepsInv(batch: Batch, n: nat, limit: nat)
    requires BatchInv(batch, n, limit) && batch.next < n && |batch.inFlight| < limit
    ensures BatchInv(Batch(batch.next + 1, batch.inFlight + {batch.next}, batch.done), n, limit)
  {
  }

  lemma CompletionKeepsInv(batch: Batch, index: nat, n: nat, limit: nat)
    requires BatchInv(batch, n, limit) && index in batch.inFlight
    ensures BatchInv(Batch(batch.next, batch.inFlight - {index}, batch.done + [index]), n, limit)
  {
    assert forall i | 0 <= i < |batch.done| :: batch.done[i] in batch.done;
  }

  lemma AfterKeepsInv(batch: Batch, event: Event, n: nat, limit: nat)
    requires BatchInv(batch, n, limit) && After(batch, event, n, limit).Some?
    ensures BatchInv(After(batch, event, n, limit).value, n, limit)
  {
    match event
    case Started(_) => StartKeepsInv(batch, n, limit);
    case Completed(i) => CompletionKeepsInv(batch, i, n, limit);
  }

  lemma {:induction false} ReplayKeepsInv(events: seq<Event>, n: nat, limit: nat)
    requires Replay(events, n, limit).Some?
    ensures BatchInv(Replay(events, n, limit).value, n, limit)
  {
    if events == [] {
    } else {
      var earlier := events[..|events| - 1];
      ReplayKeepsInv(earlier, n, limit);
      AfterKeepsInv(Replay(earlier, n, limit).value, events[|events| - 1], n, limit);
    }
  }

  /** What one outcome adds to the scores. */
  function Collected(index: nat, outcome: Result<Option<real>, string>): seq<(nat, real)> {
    match outcome
    case Ok(Some(score)) => [(index, score)]
    case _ => []
  }

  function Starts(events: seq<Event>): nat {
    if events == [] then 0 else Starts(events[..|events| - 1]) + if events[|events| - 1].Started? then 1 else 0
  }

  /** How many of the calls started are not completed. */
  function Running(events: seq<Event>): int {
    if events == [] then 0 else Running(events[..|events| - 1]) + if events[|events| - 1].Started? then 1 else -1
  }

  /** Never more than `room` calls run, and whenever one completes the room was full or all `n`
      calls were started. */
  ghost predicate KeepsBusy(events: seq<Event>, n: nat, room: nat) {
    && (forall k | 0 <= k <= |events| :: Running(events[..k]) <= room)
    && forall k | 0 <= k < |events| && events[k].Completed? :: Running(events[..k]) == room || Starts(events[..k]) == n
  }

  lemma {:induction false} ReplayCounts(events: seq<Event>, n: nat, limit: nat)
    requires Replay(events, n, limit).Some?
    ensures var batch := Replay(events, n, limit).value;
            Starts(events) == batch.next && Running(events) == |batch.inFlight|
  {
    ReplayKeepsInv(events, n, limit);
    if events == [] {
    } else {
      ReplayCounts(events[..|events| - 1], n, limit);
      ReplayKeepsInv(events[..|events| - 1], n, limit);
    }
  }

  lemma RunningAppend(events: seq<Event>, event: Event)
    ensures Running(events + [event]) == Running(events) + if event.Started? then 1 else -1
  {
    assert (events + [event])[..|events|] == events;
  }

  lemma KeepsBusyAppend(events: seq<Event>, event: Event, n: nat, room: nat)
    requires KeepsBusy(events, n, room)
    requires event.Started? ==> Running(events) < room
    requires event.Completed? ==> Running(events) == room || Starts(events) == n
    ensures KeepsBusy(events + [event], n, room)
  {
    var longer := events + [event];
    RunningAppend(events, event);
    assert longer[..|longer|] == longer && events[..|events|] == events;
    forall k | 0 <= k <= |longer| ensures Running(longer[..k]) <= room {
      if k <= |events| {
        assert longer[..k] == events[..k];
      }
    }
    forall k | 0 <= k < |longer| && longer[k].Completed?
      ensures Running(longer[..k]) == room || Starts(longer[..k]) == n
    {
      assert longer[..k] == events[..k];
    }
  }

  /** The scores collected from completed calls, in completion order. */
  function ScoresOf(replies: seq<Reply>, done: seq<nat>): seq<(nat, real)>
    requires InRange(done, |replies|)
  {
    if done == [] then
      []
    else
      ScoresOf(replies, done[..|done| - 1]) + Collected(done[|done| - 1], ScoreOf(replies[done[|done| - 1]]))
  }

  predicate AllAnswered(replies: seq<Reply>, done: seq<nat>)
    requires InRange(done, |replies|)
  {
    forall k | 0 <= k < |done| :: replies[done[k]].Answer?
  }

  // --- The scores collected -----------------------------------------------

  lemma {:induction false} DistinctCount(s: seq<nat>, x: nat)
    requires Distinct(s)
    ensures multiset(s)[x] == if x in s then 1 else 0
  {
    if s == [] {
    } else {
      var n := |s| - 1;
      DistinctCount(s[..n], x);
      assert s == s[..n] + [s[n]];
      assert forall i | 0 <= i < n :: s[i] != s[n];
    }
  }

  lemma CollectedCount(index: nat, outcome: Result<Option<real>, string>, i: nat, score: real)
    ensures multiset(Collected(index, outcome))[(i, score)] ==
            if index == i && outcome == Ok(Some(score)) then 1 else 0
  {
  }

  /** How often a score was collected is decided by which calls completed, not by their order. */
  lemma {:induction false} ScoreCount(replies: seq<Reply>, done: seq<nat>, i: nat, score: real)
    requires InRange(done, |replies|)
    ensures multiset(ScoresOf(replies, done))[(i, score)] ==
            if i < |replies| && ScoreOf(replies[i]) == Ok(Some(score)) then multiset(done)[i] else 0
  {
    if done == [] {
    } else {
      var n := |done| - 1;
      ScoreCount(replies, done[..n], i, score);
      CollectedCount(done[n], ScoreOf(replies[done[n]]), i, score);
      assert done == done[..n] + [done[n]];
    }
  }

  /** Of the completed calls, every answer with a value was collected exactly once, and nothing else was. */
  ghost predicate CollectedOnce(replies: seq<Reply>, done: seq<nat>, scores: seq<(nat, real)>)
    requires InRange(done, |replies|)
  {
    forall entry: (nat, real) ::
      multiset(scores)[entry] == if entry.0 in done && IsScoreOf(entry.1, replies[entry.0]) then 1 else 0
  }

  /** Of all replies, every answer with a value was collected exactly once, and nothing else was. */
  ghost predicate AllCollectedOnce(replies: seq<Reply>, scores: seq<(nat, real)>) {
    forall entry: (nat, real) ::
      multiset(scores)[entry] == if entry.0 < |replies| && IsScoreOf(entry.1, replies[entry.0]) then 1 else 0
  }

  lemma ScoresAreCollectedOnce(replies: seq<Reply>, done: seq<nat>)
    requires InRange(done, |replies|) && Distinct(done)
    ensures CollectedOnce(replies, done, ScoresOf(replies, done))
  {
    forall entry: (nat, real)
      ensures multiset(ScoresOf(replies, done))[entry] ==
              if entry.0 in done && IsScoreOf(entry.1, replies[entry.0]) then 1 else 0
    {
      ScoreCount(replies, done, entry.0, entry.1);
      DistinctCount(done, entry.0);
      if entry.0 < |replies| {
        ScoreOfExactly(replies[entry.0], entry.1);
      }
    }
  }

  /** Once every call has completed the judgment is complete, whatever the order of completion. */
  lemma JudgmentIsComplete(replies: seq<Reply>, events: seq<Event>, limit: nat, batch: Batch)
    requires Replay(events, |replies|, limit) == Some(batch)
    requires batch.next == |replies| && batch.inFlight == {}
    ensures InRange(batch.done, |replies|) && AllCollectedOnce(replies, ScoresOf(replies, batch.done))
  {
    ReplayKeepsInv(events, |replies|, limit);
    ScoresAreCollectedOnce(replies, batch.done);
    assert forall i | 0 <= i < |replies| :: i in batch.done;
  }

  // --- The judge ----------------------------------------------------------

  /** `concurrency.max(1)`. */
  function Limit(concurrency: nat): nat {
    if concurrency < 1 then 1 else concurrency
  }

  /** A poll of the buffered stream first starts queued calls while there is room. */
  method FillBuffer(n: nat, limit: nat, given: seq<Event>, from: Batch) returns (events: seq<Event>, batch: Batch)
    requires Replay(given, n, limit) == Some(from) && KeepsBusy(given, n, limit)
    ensures Replay(events, n, limit) == Some(batch) && KeepsBusy(events, n, limit)
    ensures batch.done == from.done
    ensures |batch.inFlight| >= limit || batch.next == n
  {
    events, batch := given, from;
    ReplayKeepsInv(given, n, limit);
    while |batch.inFlight| < limit && batch.next < n
      invariant Replay(events, n, limit) == Some(batch) && batch.next <= n && KeepsBusy(events, n, limit)
      invariant batch.done == from.done
      decreases n - batch.next
    {
      ReplayAppend(events, Started(batch.next), n, limit);
      ReplayCounts(events, n, limit);
      KeepsBusyAppend(events, Started(batch.next), n, limit);
      events := events + [Started(batch.next)];
      batch := Batch(batch.next + 1, batch.inFlight + {batch.next}, batch.done);
    }
    ReplayKeepsInv(events, n, limit);
  }

  /** `pending.next()`: start queued calls while there is room, then wait for a call in flight.
      Picking any of them covers every completion order. */
  method NextOutcome(n: nat, limit: nat, given: seq<Event>, from: Batch)
    returns (index: Option<nat>, events: seq<Event>, batch: Batch)
    requires Replay(given, n, limit) == Some(from) && limit > 0 && KeepsBusy(given, n, limit)
    ensures Replay(events, n, limit) == Some(batch) && KeepsBusy(events, n, limit)
    ensures InRange(batch.done, n) && |batch.done| <= n
    ensures index.None? ==> batch.done == from.done && batch.next == n && batch.inFlight == {}
    ensures index.Some? ==> index.value < n && batch.done == from.done + [index.value]
    ensures index.Some? ==> events != [] && events[|events| - 1] == Completed(index.value)
    ensures index.Some? ==> batch.next <= |batch.done| - 1 + limit
  {
    events, batch := FillBuffer(n, limit, given, from);
    ReplayKeepsInv(events, n, limit);
    if batch.inFlight == {} {
      return None, events, batch;
    }
    var i :| i in batch.inFlight;
    ReplayAppend(events, Completed(i), n, limit);
    ReplayCounts(events, n, limit);
    KeepsBusyAppend(events, Completed(i), n, limit);
    events := events + [Completed(i)];
    batch := Batch(batch.next, batch.inFlight - {i}, batch.done + [i]);
    ReplayKeepsInv(events, n, limit);
    return Some(i), events, batch;
  }

  /** Before a failure the judgment holds the scores of the completed calls, all answered. */
  ghost predicate CollectedSoFar(replies: seq<Reply>, done: seq<nat>, judgment: RelevanceJudgment) {
    && InRange(done, |replies|) && AllAnswered(replies, done)
    && judgment == RelevanceJudgment(ScoresOf(replies, done), None)
  }

  /** The last completion failed with `error`, after successes only. */
  ghost predicate StoppedAt(replies: seq<Reply>, events: seq<Event>, done: seq<nat>, error: string)
    requires InRange(done, |replies|)
  {
    && done != [] && events != []
    && var last := |done| - 1;
       && events[|events| - 1] == Completed(done[last])
       && replies[done[last]] == AgentError(error)
       && InRange(done[..last], |replies|) && AllAnswered(replies, done[..last])
  }

  /** What one more completion adds to the judgment. */
  lemma OutcomeStep(replies: seq<Reply>, events: seq<Event>, before: seq<nat>, index: nat)
    requires index < |replies| && InRange(before, |replies|) && AllAnswered(replies, before)
    requires events != [] && events[|events| - 1] == Completed(index)
    ensures InRange(before + [index], |replies|)
    ensures ScoresOf(replies, before + [index]) ==
            ScoresOf(replies, before) + Collected(index, ScoreOf(replies[index]))
    ensures match replies[index]
            case Answer(_) => AllAnswered(replies, before + [index])
            case AgentError(error) => StoppedAt(replies, events, before + [index], error)
  {
    assert (before + [index])[..|before|] == before;
  }

  /** `judge_relevance_via_agent`. `events` records the schedule that was followed. */
  method JudgeRelevance(replies: seq<Reply>, concurrency: nat)
    returns (judgment: RelevanceJudgment, events: seq<Event>, batch: Batch)
    ensures Replay(events, |replies|, Limit(concurrency)) == Some(batch)
    ensures InRange(batch.done, |replies|) && judgment.scores == ScoresOf(replies, batch.done)
    ensures CollectedOnce(replies, batch.done, judgment.scores)
    ensures KeepsBusy(events, |replies|, if concurrency == 0 then 1 else concurrency)
    ensures judgment.failure.None? ==>
              && batch.next == |replies| && batch.inFlight == {} && AllAnswered(replies, batch.done)
              && AllCollectedOnce(replies, judgment.scores)
    ensures judgment.failure.Some? ==>
              && StoppedAt(replies, events, batch.done, judgment.failure.value)
              && batch.next <= |batch.done| - 1 + if concurrency == 0 then 1 else concurrency
  {
    judgment, events, batch := RelevanceJudgment([], None), [], Batch(0, {}, []);
    while true
      invariant Replay(events, |replies|, Limit(concurrency)) == Some(batch)
      invariant KeepsBusy(events, |replies|, Limit(concurrency))
      invariant Distinct(batch.done) && CollectedSoFar(replies, batch.done, judgment)
      decreases |replies| - |batch.done|
    {
      ghost var before := batch.done;
      var outcome;
      outcome, events, batch := NextOutcome(|replies|, Limit(concurrency), events, batch);
      if outcome.None? {
        ScoresAreCollectedOnce(replies, batch.done);
        JudgmentIsComplete(replies, events, Limit(concurrency), batch);
        return;
      }
      var index := outcome.value;
      OutcomeStep(replies, events, before, index);
      ReplayKeepsInv(events, |replies|, Limit(concurrency));
      ScoresAreCollectedOnce(replies, batch.done);
      match ScoreOf(replies[index]) {
        case Ok(Some(score)) => judgment := judgment.(scores := judgment.scores + [(index, score)]);
        case Ok(None) =>
        case Err(error) =>
          judgment := judgment.(failure := Some(error));
          return;
      }
    }
  }

  // --- What every schedule guarantees -------------------------------------

  lemma {:induction false} PrefixesReplay(events: seq<Event>, n: nat, limit: nat, k: nat)
    requires Replay(events, n, limit).Some? && k <= |events|
    ensures Replay(events[..k], n, limit).Some?
  {
    if k < |events| {
      var earlier := events[..|events| - 1];
      PrefixesReplay(earlier, n, limit, k);
      assert events[..k] == earlier[..k];
    } else {
      assert events[..k] == events;
    }
  }

  /** At no moment of a schedule are more than `limit` calls in flight. */
  lemma InFlightIsBounded(events: seq<Event>, n: nat, limit: nat, k: nat)
    requires Replay(events, n, limit).Some? && k <= |events|
    ensures Replay(events[..k], n, limit).Some?
    ensures var batch := Replay(events[..k], n, limit).value;
            |batch.inFlight| <= limit && batch.next - |batch.done| == |batch.inFlight|
  {
    PrefixesReplay(events, n, limit, k);
    ReplayKeepsInv(events[..k], n, limit);
  }

  /** Every call completes, and so is scored, at most once. */
  lemma EachCallCompletesOnce(events: seq<Event>, n: nat, limit: nat)
    requires Replay(events, n, limit).Some?
    ensures Distinct(Replay(events, n, limit).value.done)
  {
    ReplayKeepsInv(events, n, limit);
  }

  /** Two schedules that complete collect the same scores, up to order. */
  lemma JudgmentIgnoresCompletionOrder(replies: seq<Reply>, a: seq<Event>, b: seq<Event>, limit: nat, x: Batch, y: Batch)
    requires Replay(a, |replies|, limit) == Some(x) && x.next == |replies| && x.inFlight == {}
    requires Replay(b, |replies|, limit) == Some(y) && y.next == |replies| && y.inFlight == {}
    ensures InRange(x.done, |replies|) && InRange(y.done, |replies|)
    ensures multiset(ScoresOf(replies, x.done)) == multiset(ScoresOf(replies, y.done))
  {
    ReplayKeepsInv(a, |replies|, limit);
    ReplayKeepsInv(b, |replies|, limit);
    JudgmentIsComplete(replies, a, limit, x);
    JudgmentIsComplete(replies, b, limit, y);
    forall entry: (nat, real)
      ensures multiset(ScoresOf(replies, x.done))[entry] == multiset(ScoresOf(replies, y.done))[entry]
    {
    }
  }

  /** A failure stops the batch early: at the completion that failed, the calls started are at most
      the earlier completions plus the room there is. */
  lemma FailureStopsEarly(events: seq<Event>, n: nat, limit: nat, index: nat)
    requires Replay(events + [Completed(index)], n, limit).Some?
    ensures var batch := Replay(events + [Completed(index)], n, limit).value;
            |batch.done| > 0 && batch.next <= (|batch.done| - 1) + limit
  {
    ReplayAppend(events, Completed(index), n, limit);
    ReplayKeepsInv(events, n, limit);
  }
}
