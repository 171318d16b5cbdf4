/**
 Reloads through any number of clones, interleaved in every way.

 A reload takes the shared mutex, reads the store, builds a directory and swaps it in; the
 mutex is released when the call returns, also on failure. The store may be written at any
 moment: `history` lists its contents after each write, and its last index is its version.
 */
module Reloads {
  import opened Text
  import opened Identity
  import opened Seeds
  import opened Directories

  datatype Phase =
    | Idle
    | Waiting(calledAt: nat)
    | Loading(calledAt: nat)
    | Loaded(calledAt: nat, version: nat)
    | Returned(calledAt: nat, ok: bool)
  {
    predicate HoldsMutex() {
      Loading? || Loaded?
    }
  }

  /** `C` is what the store holds and `D` what is built from it. */
  datatype State<C, D> = State(
    history: seq<C>,
    reloading: Option<nat>,
    callers: seq<Phase>,
    directory: D,
    applied: Option<nat>)
  {
    function Version(): int {
      |history| - 1
    }
  }

  datatype Action<C> =
    | Write(contents: C)
    | Call(t: nat)
    | Lock(t: nat)
    | Load(t: nat)
    | Fail(t: nat)
    | Swap(t: nat)
    | Return(t: nat)

  /** `merges(contents, directory)`: building from `contents` gives `directory`. */
  type Merge<!C, !D> = (C, D) -> bool

  ghost predicate Init<C, D>(initial: D, s: State<C, D>) {
    && s.history != [] && s.reloading == None && s.applied == None && s.directory == initial
    && (forall t | 0 <= t < |s.callers| :: s.callers[t] == Idle)
  }

  ghost predicate Next<C, D>(merges: Merge<C, D>, s: State<C, D>, action: Action<C>, s': State<C, D>) {
    match action
    case Write(contents) =>
      s' == s.(history := s.history + [contents])
    case Call(t) =>
      && t < |s.callers| && s.callers[t] == Idle && s.Version() >= 0
      && s' == s.(callers := s.callers[t := Waiting(s.Version())])
    case Lock(t) =>
      && t < |s.callers| && s.callers[t].Waiting? && s.reloading == None
      && s' == s.(reloading := Some(t), callers := s.callers[t := Loading(s.callers[t].calledAt)])
    case Load(t) =>
      && t < |s.callers| && s.callers[t].Loading? && s.Version() >= 0
      && s' == s.(callers := s.callers[t := Loaded(s.callers[t].calledAt, s.Version())])
    case Fail(t) =>
      && t < |s.callers| && s.callers[t].Loading?
      && s' == s.(reloading := None, callers := s.callers[t := Returned(s.callers[t].calledAt, false)])
    case Swap(t) =>
      && t < |s.callers| && s.callers[t].Loaded? && s.callers[t].version < |s.history|
      && merges(s.history[s.callers[t].version], s'.directory)
      && s' == s.(reloading := None, callers := s.callers[t := Returned(s.callers[t].calledAt, true)],
                  directory := s'.directory, applied := Some(s.callers[t].version))
    case Return(t) =>
      && t < |s.callers| && s.callers[t].Returned?
      && s' == s.(callers := s.callers[t := Idle])
  }

  /** Nothing newer than `version` is applied. */
  predicate NotAfter(applied: Option<nat>, version: int) {
    applied.Some? ==> applied.value <= version
  }

  ghost predicate CallerInv<C, D>(s: State<C, D>, t: nat)
    requires t < |s.callers|
  {
    && (s.callers[t].HoldsMutex() ==> s.reloading == Some(t))
    && match s.callers[t]
       case Idle => true
       case Waiting(calledAt) => calledAt <= s.Version()
       case Loading(calledAt) => calledAt <= s.Version()
       case Loaded(calledAt, version) => calledAt <= version <= s.Version() && NotAfter(s.applied, version)
       case Returned(calledAt, ok) => ok ==> s.applied.Some? && calledAt <= s.applied.value
  }

  /** The directory is what building from the applied version gives, or the initial one. */
  ghost predicate DirectoryMatches<C, D>(merges: Merge<C, D>, initial: D, s: State<C, D>) {
    match s.applied
    case None => s.directory == initial
    case Some(version) => version < |s.history| && merges(s.history[version], s.directory)
  }

  /** The mutex is never left locked: whoever locked it is still reloading. */
  predicate MutexIsHeld<C, D>(s: State<C, D>) {
    s.reloading.Some? ==> s.reloading.value < |s.callers| && s.callers[s.reloading.value].HoldsMutex()
  }

  ghost predicate Inv<C, D>(merges: Merge<C, D>, initial: D, s: State<C, D>) {
    && s.history != [] && MutexIsHeld(s)
    && (forall t | 0 <= t < |s.callers| :: CallerInv(s, t))
    && DirectoryMatches(merges, initial, s)
  }

  lemma StepKeepsInv<C, D>(merges: Merge<C, D>, initial: D, s: State<C, D>, action: Action<C>, s': State<C, D>)
    requires Inv(merges, initial, s) && Next(merges, s, action, s')
    ensures Inv(merges, initial, s')
    ensures s.applied.Some? ==> s'.applied.Some? && s.applied.value <= s'.applied.value
    ensures s.history <= s'.history
  {
    if !action.Write? {
      assert CallerInv(s, action.t);
    }
    if action.Swap? {
      assert CallerInv(s, action.t);
    }
    forall t | 0 <= t < |s'.callers| ensures CallerInv(s', t) {
      assert CallerInv(s, t);
      if !action.Write? {
        assert CallerInv(s, action.t);
      }
    }
  }

  /** Whoever waits for a free mutex can reload: locked, it may fail and leave everything but the
      mutex as it was, or load what the store holds and swap in the directory built from that. */
  lemma WaitingCallersCanReload<C, D>(merges: Merge<C, D>, initial: D, s: State<C, D>, t: nat, built: D)
    returns (locked: State<C, D>, failed: State<C, D>, loaded: State<C, D>, swapped: State<C, D>)
    requires Inv(merges, initial, s) && s.reloading == None
    requires t < |s.callers| && s.callers[t].Waiting? && merges(s.history[|s.history| - 1], built)
    ensures Next(merges, s, Lock(t), locked)
    ensures Next(merges, locked, Fail(t), failed)
    ensures failed.callers[t] == Returned(s.callers[t].calledAt, false) && failed.reloading == None
    ensures failed.directory == s.directory && failed.applied == s.applied
    ensures Next(merges, locked, Load(t), loaded)
    ensures Next(merges, loaded, Swap(t), swapped)
    ensures swapped.callers[t] == Returned(s.callers[t].calledAt, true) && swapped.reloading == None
    ensures swapped.directory == built && swapped.applied == Some(|s.history| - 1)
  {
    var calledAt := s.callers[t].calledAt;
    locked := s.(reloading := Some(t), callers := s.callers[t := Loading(calledAt)]);
    failed := locked.(reloading := None, callers := locked.callers[t := Returned(calledAt, false)]);
    loaded := locked.(callers := locked.callers[t := Loaded(calledAt, locked.Version())]);
    swapped := loaded.(reloading := None, callers := loaded.callers[t := Returned(calledAt, true)],
                       directory := built, applied := Some(loaded.Version()));
  }

  ghost predicate CanStep<C(!new), D>(merges: Merge<C, D>, s: State<C, D>, s': State<C, D>) {
    exists action :: Next(merges, s, action, s')
  }

  ghost predicate IsRun<C(!new), D>(merges: Merge<C, D>, initial: D, run: seq<State<C, D>>) {
    && run != [] && Init(initial, run[0])
    && forall i | 0 < i < |run| :: CanStep(merges, run[i - 1], run[i])
  }

  /** Any number of idle callers start a run, and every step extends one. */
  lemma RunsExtend<C(!new), D>(merges: Merge<C, D>, initial: D, run: seq<State<C, D>>, action: Action<C>, s': State<C, D>,
                               idle: nat, contents: C)
    requires IsRun(merges, initial, run) && Next(merges, run[|run| - 1], action, s')
    ensures IsRun(merges, initial, [State([contents], None, seq(idle, _ => Idle), initial, None)])
    ensures IsRun(merges, initial, run + [s'])
  {
    assert CanStep(merges, run[|run| - 1], s');
  }

  lemma {:induction false} RunKeepsInv<C(!new), D>(merges: Merge<C, D>, initial: D, run: seq<State<C, D>>, i: nat)
    requires IsRun(merges, initial, run) && i < |run|
    ensures Inv(merges, initial, run[i])
  {
    if i == 0 {
    } else {
      RunKeepsInv(merges, initial, run, i - 1);
      var action :| Next(merges, run[i - 1], action, run[i]);
      StepKeepsInv(merges, initial, run[i - 1], action, run[i]);
    }
  }

  /** Over every run the version applied never decreases, and the directory is always built from
      exactly the contents the store had at that version. */
  lemma {:induction false} VersionsNeverGoBackwards<C(!new), D>(merges: Merge<C, D>, initial: D, run: seq<State<C, D>>,
                                                              i: nat, j: nat)
    requires IsRun(merges, initial, run) && i <= j < |run|
    ensures run[i].applied.Some? ==> run[j].applied.Some? && run[i].applied.value <= run[j].applied.value
    ensures run[i].history <= run[j].history
    ensures DirectoryMatches(merges, initial, run[j])
  {
    RunKeepsInv(merges, initial, run, j);
    if i == j {
    } else {
      VersionsNeverGoBackwards(merges, initial, run, i, j - 1);
      RunKeepsInv(merges, initial, run, j - 1);
      var action :| Next(merges, run[j - 1], action, run[j]);
      StepKeepsInv(merges, initial, run[j - 1], action, run[j]);
    }
  }

  /** Read your writes: once a reload has succeeded, the directory is at least as new as the
      store was when the reload was called, and stays so. */
  lemma SucceededReloadIsVisible<C(!new), D>(merges: Merge<C, D>, initial: D, run: seq<State<C, D>>, i: nat, j: nat, t: nat)
    requires IsRun(merges, initial, run) && i <= j < |run|
    requires t < |run[i].callers| && run[i].callers[t].Returned? && run[i].callers[t].ok
    ensures run[j].applied.Some? && run[i].callers[t].calledAt <= run[j].applied.value
  {
    RunKeepsInv(merges, initial, run, i);
    assert CallerInv(run[i], t);
    VersionsNeverGoBackwards(merges, initial, run, i, j);
  }

  /** Between a call and its failure, the caller itself never changes the directory: every change
      is the swap of a caller that has loaded and holds the mutex. */
  lemma OnlySwapsChangeTheDirectory<C, D>(merges: Merge<C, D>, initial: D, s: State<C, D>, action: Action<C>, s': State<C, D>)
    requires Inv(merges, initial, s) && Next(merges, s, action, s')
    requires s'.directory != s.directory || s'.applied != s.applied
    ensures action.Swap? && s.reloading == Some(action.t) && s.callers[action.t].Loaded?
    ensures s'.callers[action.t] == Returned(s.callers[action.t].calledAt, true)
  {
    assert action.Swap?;
    assert CallerInv(s, action.t);
  }

  /** The registry's own reloads: contents are console identities, and the directory is their
      merge with the seed. */
  lemma ReloadsNeverGoBackwards(lower: Folding, seed: Seed, initial: Directory,
                                run: seq<State<seq<ConsoleIdentity>, Directory>>, i: nat, j: nat)
    requires IsDirectory(lower, seed, [], initial)
    requires IsRun((given, directory) => IsDirectory(lower, seed, given, directory), initial, run) && i <= j < |run|
    ensures run[i].applied.Some? ==> run[j].applied.Some? && run[i].applied.value <= run[j].applied.value
    ensures match run[j].applied
            case None => IsDirectory(lower, seed, [], run[j].directory)
            case Some(version) =>
              version < |run[j].history| && IsDirectory(lower, seed, run[j].history[version], run[j].directory)
  {
    VersionsNeverGoBackwards((given, directory) => IsDirectory(lower, seed, given, directory), initial, run, i, j);
  }
}
