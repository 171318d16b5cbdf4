/** The life of a security report: a cyclic state machine in which every cycle asks a human or
    starts over. */
module ReportStates {

  datatype SecurityReportState =
    | Received
    | Assessing
    | NeedsHuman
    | Registering
    | Spam
    | Replying
    | Closed
    | Tracking
    | Resolved
  {
    predicate IsTerminal() {
      this in {Spam, Closed, Resolved}
    }

    predicate CanTransitionTo(next: SecurityReportState) {
      match this
      case Received => next in {Assessing, NeedsHuman}
      case Assessing => next in {Received, NeedsHuman, Spam, Replying, Tracking}
      case NeedsHuman => next in {Received, Registering, Replying, Spam}
      case Registering => next in {Tracking, Replying, NeedsHuman}
      case Replying => next in {Closed, NeedsHuman}
      case Tracking => next in {Resolved, NeedsHuman}
      case Spam => false
      case Closed => false
      case Resolved => false
    }

    /** A report starts over, or a human is asked. */
    predicate IsPause() {
      Received? || NeedsHuman?
    }

    /** The most states that can follow the last pause, up to this one. */
    function Depth(): nat {
      match this
      case Received => 0
      case NeedsHuman => 0
      case Assessing => 1
      case Registering => 1
      case Replying => 2
      case Tracking => 2
      case Spam => 2
      case Closed => 3
      case Resolved => 3
    }
  }

  /** All transitions there are. */
  lemma TransitionsExactly(from: SecurityReportState, to: SecurityReportState)
    ensures from.CanTransitionTo(to) <==> (from, to) in {
              (Received, Assessing), (Received, NeedsHuman),
              (Assessing, Received), (Assessing, NeedsHuman), (Assessing, Spam), (Assessing, Replying), (Assessing, Tracking),
              (NeedsHuman, Received), (NeedsHuman, Registering), (NeedsHuman, Replying), (NeedsHuman, Spam),
              (Registering, Tracking), (Registering, Replying), (Registering, NeedsHuman),
              (Replying, Closed), (Replying, NeedsHuman), (Tracking, Resolved), (Tracking, NeedsHuman)}
  {
  }

  ghost predicate IsPath(path: seq<SecurityReportState>) {
    path != [] && forall i | 0 < i < |path| :: path[i - 1].CanTransitionTo(path[i])
  }

  ghost predicate IsRun(run: seq<SecurityReportState>) {
    IsPath(run) && run[0] == Received
  }

  function Pauses(run: seq<SecurityReportState>): nat {
    if run == [] then 0 else Pauses(run[..|run| - 1]) + if run[|run| - 1].IsPause() then 1 else 0
  }

  lemma {:induction false} RunLength(run: seq<SecurityReportState>)
    requires IsRun(run)
    ensures |run| <= 3 * Pauses(run) - 2 + run[|run| - 1].Depth()
  {
    if |run| > 1 {
      RunLength(run[..|run| - 1]);
      assert run[|run| - 2].CanTransitionTo(run[|run| - 1]);
    } else {
      assert run[..0] == [];
    }
  }

  /** The report machine may cycle forever, but not on its own: a run that is received or handed
      to a human n times in all has at most 3n + 1 states. */
  lemma RunsAreShort(run: seq<SecurityReportState>)
    requires IsRun(run)
    ensures |run| <= 3 * Pauses(run) + 1
  {
    RunLength(run);
  }

  /** The bound is reached for every n: `LongRun(n)` is a run with n pauses and 3n states that
      ends in `Replying`, and closing it makes 3n + 1. */
  function LongRun(n: nat): (run: seq<SecurityReportState>)
    requires n > 0
    ensures |run| == 3 * n
  {
    if n == 1 then [Received, Assessing, Replying] else LongRun(n - 1) + [NeedsHuman, Registering, Replying]
  }

  lemma RunExtends(run: seq<SecurityReportState>, next: SecurityReportState)
    requires IsRun(run) && run[|run| - 1].CanTransitionTo(next)
    ensures IsRun(run + [next])
    ensures Pauses(run + [next]) == Pauses(run) + if next.IsPause() then 1 else 0
  {
    assert (run + [next])[..|run|] == run;
  }

  lemma {:induction false} LongRunIsARun(n: nat)
    requires n > 0
    ensures IsRun(LongRun(n)) && Pauses(LongRun(n)) == n && LongRun(n)[3 * n - 1] == Replying
  {
    if n == 1 {
      assert Pauses([Received]) == 1 by { assert [Received][..0] == []; }
      RunExtends([Received], Assessing);
      RunExtends([Received] + [Assessing], Replying);
      assert [Received] + [Assessing] + [Replying] == LongRun(1);
    } else {
      var run := LongRun(n - 1);
      LongRunIsARun(n - 1);
      RunExtends(run, NeedsHuman);
      RunExtends(run + [NeedsHuman], Registering);
      RunExtends(run + [NeedsHuman] + [Registering], Replying);
      assert run + [NeedsHuman] + [Registering] + [Replying] == LongRun(n);
    }
  }

  lemma TheBoundIsReached(n: nat)
    requires n > 0
    ensures exists run :: IsRun(run) && Pauses(run) == n && |run| == 3 * n + 1
  {
    LongRunIsARun(n);
    RunExtends(LongRun(n), Closed);
  }

  /** No run is stuck: from every state a terminal one is at most two transitions away, and
      terminal states end a run. */
  lemma EveryStateCanEnd(state: SecurityReportState) returns (path: seq<SecurityReportState>)
    ensures IsPath(path) && path[0] == state && path[|path| - 1].IsTerminal() && |path| <= 3
    ensures state.IsTerminal() <==> forall next :: !state.CanTransitionTo(next)
  {
    path := match state
      case Received => [Received, Assessing, Spam]
      case Assessing => [Assessing, Spam]
      case NeedsHuman => [NeedsHuman, Spam]
      case Registering => [Registering, Replying, Closed]
      case Replying => [Replying, Closed]
      case Tracking => [Tracking, Resolved]
      case _ => [state];
    assert |path| > 1 ==> state.CanTransitionTo(path[1]);
  }
}
