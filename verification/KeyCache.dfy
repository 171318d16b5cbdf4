/**
 The Cloudflare Access key cache: a TTL, a hard maximum age and a gate that lets one caller
 refresh at a time and not more than once a minute.

 Times are nanoseconds on a monotone clock. A caller of `verify` is suspended at every
 `.await`, and its future may be dropped there, which releases the gate it holds.
 */
module KeyCache {
  import opened Text

  const SECOND: nat := 1_000_000_000
  const JWKS_TTL: nat := 3600 * SECOND
  const MIN_REFRESH_INTERVAL: nat := 60 * SECOND
  const MAX_KEY_AGE: nat := 24 * 3600 * SECOND

  type Kid = string
  type Jwk = string
  type JwkSet = map<Kid, Jwk>

  datatype CachedJwks = CachedJwks(keys: JwkSet, fetchedAt: nat, requestedAt: nat)

  /** `Instant::elapsed`, which saturates. */
  function Elapsed(now: nat, since: nat): nat {
    if since <= now then now - since else 0
  }

  function KeyYoungerThan(cache: Option<CachedJwks>, kid: Kid, now: nat, age: nat): Option<Jwk> {
    match cache
    case Some(cached) => if Elapsed(now, cached.fetchedAt) < age then Get(cached.keys, kid) else None
    case None => None
  }

  /** What answers at once: the key for `kid`, unless an hour has passed since the fetch. */
  function CachedFreshKey(cache: Option<CachedJwks>, kid: Kid, now: nat): Option<Jwk> {
    KeyYoungerThan(cache, kid, now, JWKS_TTL)
  }

  /** What answers after a refresh, even a failed one: nothing once the fetch is a day old. */
  function CachedKey(cache: Option<CachedJwks>, kid: Kid, now: nat): Option<Jwk> {
    KeyYoungerThan(cache, kid, now, MAX_KEY_AGE)
  }

  predicate CoolingDown(lastAttempt: Option<nat>, now: nat) {
    lastAttempt.Some? && Elapsed(now, lastAttempt.value) < MIN_REFRESH_INTERVAL
  }

  // --- Every interleaving -------------------------------------------------

  /** Where a caller of `verify(kid)` is suspended. `seen` is the cache it found on taking the gate. */
  datatype Caller =
    | Idle
    | Missed(kid: Kid)
    | AtGate(kid: Kid, seen: Option<CachedJwks>)
    | Cleared(kid: Kid, seen: Option<CachedJwks>)
    | Fetching(kid: Kid, seen: Option<CachedJwks>, requestedAt: nat)
    | Storing(kid: Kid, seen: Option<CachedJwks>, fetched: CachedJwks)
    | Refreshed(kid: Kid, seen: Option<CachedJwks>)
    | Answered(kid: Kid, seen: Option<CachedJwks>, used: Option<CachedJwks>, at: nat, key: Option<Jwk>)
  {
    predicate HoldsGate() {
      AtGate? || Cleared? || Fetching? || Storing?
    }
  }

  /** What all callers share, apart from the gate. `attempts` lists the stamps of all fetch
      attempts, in order. */
  datatype SharedState = SharedState(cache: Option<CachedJwks>, lastAttempt: Option<nat>, attempts: seq<nat>)

  datatype State = State(
    now: nat,
    cache: Option<CachedJwks>,
    lastAttempt: Option<nat>,
    gate: Option<nat>,
    callers: seq<Caller>,
    attempts: seq<nat>)
  {
    function Shared(): SharedState {
      SharedState(cache, lastAttempt, attempts)
    }
  }

  datatype Action =
    | Tick(time: nat)
    | Ask(t: nat, kid: Kid)
    | TakeGate(t: nat)
    | CheckCooldown(t: nat)
    | Stamp(t: nat)
    | Receive(t: nat, published: nat)
    | FetchFails(t: nat)
    | Store(t: nat)
    | Retry(t: nat)
    | Drop(t: nat)

  /** The key set Cloudflare publishes at every moment. */
  type Publisher = nat -> JwkSet

  ghost predicate Init(s: State) {
    && s.cache == None && s.lastAttempt == None && s.gate == None && s.attempts == []
    && forall t | 0 <= t < |s.callers| :: s.callers[t] == Idle
  }

  function Become(s: State, t: nat, caller: Caller): State
    requires t < |s.callers|
  {
    s.(callers := s.callers[t := caller])
  }

  predicate Enabled(s: State, action: Action) {
    match action
    case Tick(time) => s.now <= time
    case Ask(t, _) => t < |s.callers| && s.callers[t].Idle?
    case TakeGate(t) => t < |s.callers| && s.callers[t].Missed? && s.gate == None
    case CheckCooldown(t) => t < |s.callers| && s.callers[t].AtGate?
    case Stamp(t) => t < |s.callers| && s.callers[t].Cleared?
    case Receive(t, published) =>
      t < |s.callers| && s.callers[t].Fetching? && s.callers[t].requestedAt <= published <= s.now
    case FetchFails(t) => t < |s.callers| && s.callers[t].Fetching?
    case Store(t) => t < |s.callers| && s.callers[t].Storing?
    case Retry(t) => t < |s.callers| && s.callers[t].Refreshed?
    case Drop(t) => t < |s.callers|
  }

  /** One step. The server answers a fetch with the keys it published at some moment between the
      request and the answer; the answer is stamped before it waits for the cache's write lock. */
  function Step(publisher: Publisher, s: State, action: Action): State
    requires Enabled(s, action)
  {
    match action
    case Tick(time) =>
      s.(now := time)
    case Ask(t, kid) =>
      var key := CachedFreshKey(s.cache, kid, s.now);
      Become(s, t, if key.Some? then Answered(kid, None, s.cache, s.now, key) else Missed(kid))
    case TakeGate(t) =>
      Become(s.(gate := Some(t)), t, AtGate(s.callers[t].kid, s.cache))
    case CheckCooldown(t) =>
      var c := s.callers[t];
      if CoolingDown(s.lastAttempt, s.now) then
        Become(s.(gate := None), t, Refreshed(c.kid, c.seen))
      else
        Become(s, t, Cleared(c.kid, c.seen))
    case Stamp(t) =>
      var c := s.callers[t];
      Become(s.(lastAttempt := Some(s.now), attempts := s.attempts + [s.now]), t, Fetching(c.kid, c.seen, s.now))
    case Receive(t, published) =>
      var c := s.callers[t];
      Become(s, t, Storing(c.kid, c.seen, CachedJwks(publisher(published), s.now, c.requestedAt)))
    case FetchFails(t) =>
      var c := s.callers[t];
      Become(s.(gate := None), t, Refreshed(c.kid, c.seen))
    case Store(t) =>
      var c := s.callers[t];
      Become(s.(cache := Some(c.fetched), gate := None), t, Refreshed(c.kid, c.seen))
    case Retry(t) =>
      var c := s.callers[t];
      Become(s, t, Answered(c.kid, c.seen, s.cache, s.now, CachedKey(s.cache, c.kid, s.now)))
    case Drop(t) =>
      Become(if s.callers[t].HoldsGate() then s.(gate := None) else s, t, Idle)
  }

  // --- Invariants ---------------------------------------------------------

  /** `newer` was fetched no earlier than `older`. */
  predicate NoOlder(older: Option<CachedJwks>, newer: Option<CachedJwks>) {
    older.Some? ==> newer.Some? && older.value.fetchedAt <= newer.value.fetchedAt
  }

  /** A key set was received after it was requested, and published in between. */
  ghost predicate Genuine(publisher: Publisher, cached: CachedJwks) {
    && cached.requestedAt <= cached.fetchedAt
    && exists p: nat :: cached.requestedAt <= p <= cached.fetchedAt && cached.keys == publisher(p)
  }

  ghost predicate GenuineIfAny(publisher: Publisher, cache: Option<CachedJwks>, now: nat) {
    cache.Some? ==> Genuine(publisher, cache.value) && cache.value.fetchedAt <= now
  }

  ghost predicate CallerInv(publisher: Publisher, s: State, t: nat)
    requires t < |s.callers|
  {
    && (s.callers[t].HoldsGate() ==> s.gate == Some(t))
    && match s.callers[t]
       case Idle => true
       case Missed(_) => true
       case AtGate(_, seen) => seen == s.cache
       case Cleared(_, seen) => seen == s.cache && !CoolingDown(s.lastAttempt, s.now)
       case Fetching(_, seen, requestedAt) => seen == s.cache && s.lastAttempt == Some(requestedAt) && requestedAt <= s.now
       case Storing(_, seen, fetched) =>
         seen == s.cache && Genuine(publisher, fetched) && fetched.fetchedAt <= s.now && NoOlder(s.cache, Some(fetched))
       case Refreshed(_, seen) => NoOlder(seen, s.cache)
       case Answered(kid, seen, used, at, key) =>
         NoOlder(seen, used) && GenuineIfAny(publisher, used, at) && at <= s.now && key == CachedKey(used, kid, at)
  }

  /** Consecutive stamps are at least the refresh interval apart. */
  ghost predicate Spaced(attempts: seq<nat>) {
    forall i | 0 < i < |attempts| :: attempts[i - 1] + MIN_REFRESH_INTERVAL <= attempts[i]
  }

  /** The gate holds the last stamp, stamps are spaced, and the cache is genuine. */
  ghost predicate SharedInv(publisher: Publisher, shared: SharedState, now: nat) {
    && GenuineIfAny(publisher, shared.cache, now) && Spaced(shared.attempts)
    && match shared.lastAttempt
       case None => shared.attempts == []
       case Some(stamp) => shared.attempts != [] && shared.attempts[|shared.attempts| - 1] == stamp <= now
  }

  /** The gate is never left locked: whoever locked it still holds it. */
  predicate GateIsHeld(s: State) {
    s.gate.Some? ==> s.gate.value < |s.callers| && s.callers[s.gate.value].HoldsGate()
  }

  ghost predicate Inv(publisher: Publisher, s: State) {
    SharedInv(publisher, s.Shared(), s.now) && GateIsHeld(s) && forall t | 0 <= t < |s.callers| :: CallerInv(publisher, s, t)
  }

  /** The caller that takes the step keeps its invariant. */
  lemma StepKeepsActor(publisher: Publisher, s: State, action: Action)
    requires Inv(publisher, s) && Enabled(s, action) && !action.Tick?
    ensures CallerInv(publisher, Step(publisher, s, action), action.t)
  {
    assert CallerInv(publisher, s, action.t);
  }

  /** Without the gate a caller changes nothing that is shared but the gate itself. */
  lemma OnlyTheHolderWrites(publisher: Publisher, s: State, action: Action)
    requires Enabled(s, action) && !action.Tick? && !s.callers[action.t].HoldsGate()
    ensures var s' := Step(publisher, s, action);
            && s'.cache == s.cache && s'.lastAttempt == s.lastAttempt && s'.now == s.now
            && (s.gate.Some? ==> s'.gate == s.gate)
  {
  }

  /** So every other caller keeps its invariant too. */
  lemma StepKeepsOthers(publisher: Publisher, s: State, action: Action, t: nat)
    requires Inv(publisher, s) && Enabled(s, action) && t < |s.callers|
    requires !action.Tick? ==> t != action.t
    ensures CallerInv(publisher, Step(publisher, s, action), t)
  {
    assert CallerInv(publisher, s, t);
    if !action.Tick? {
      assert CallerInv(publisher, s, action.t);
      if s.callers[t].HoldsGate() {
        OnlyTheHolderWrites(publisher, s, action);
      }
    }
  }

  /** What is shared stays consistent, and the cache never gets older. */
  lemma StepKeepsShared(publisher: Publisher, s: State, action: Action)
    requires Inv(publisher, s) && Enabled(s, action)
    ensures var s' := Step(publisher, s, action);
            SharedInv(publisher, s'.Shared(), s'.now) && GateIsHeld(s') && NoOlder(s.cache, s'.cache)
  {
    if !action.Tick? {
      assert CallerInv(publisher, s, action.t);
    }
  }

  lemma StepKeepsInv(publisher: Publisher, s: State, action: Action)
    requires Inv(publisher, s) && Enabled(s, action)
    ensures Inv(publisher, Step(publisher, s, action))
    ensures NoOlder(s.cache, Step(publisher, s, action).cache)
  {
    StepKeepsShared(publisher, s, action);
    forall t | 0 <= t < |s.callers| ensures CallerInv(publisher, Step(publisher, s, action), t) {
      if !action.Tick? && t == action.t {
        StepKeepsActor(publisher, s, action);
      } else {
        StepKeepsOthers(publisher, s, action, t);
      }
    }
  }

  /** From `revoked` on, Cloudflare does not publish `key` under `kid`. */
  ghost predicate Revoked(publisher: Publisher, kid: Kid, key: Option<Jwk>, revoked: nat) {
    forall p: nat | revoked <= p :: Get(publisher(p), kid) != key
  }

  /** If `key`, answered from `cached` at `at`, was revoked, then less than `MAX_KEY_AGE` and one
      fetch earlier. */
  ghost predicate OutlivesRevocationBriefly(publisher: Publisher, cached: CachedJwks, kid: Kid, key: Option<Jwk>, at: nat) {
    forall revoked: nat | Revoked(publisher, kid, key, revoked) ::
      at < revoked + MAX_KEY_AGE + (cached.fetchedAt - cached.requestedAt)
  }

  /** A key that was found is in the cache, which was fetched less than `MAX_KEY_AGE` ago. */
  ghost predicate IsRecent(publisher: Publisher, cache: Option<CachedJwks>, kid: Kid, key: Option<Jwk>, now: nat) {
    key.Some? ==>
      && cache.Some? && now - cache.value.fetchedAt < MAX_KEY_AGE && Get(cache.value.keys, kid) == key
      && OutlivesRevocationBriefly(publisher, cache.value, kid, key, now)
  }

  lemma CachedKeyIsRecent(publisher: Publisher, cache: Option<CachedJwks>, kid: Kid, at: nat)
    requires GenuineIfAny(publisher, cache, at)
    ensures IsRecent(publisher, cache, kid, CachedKey(cache, kid, at), at)
  {
    if CachedKey(cache, kid, at).Some? {
      var p: nat :| cache.value.requestedAt <= p <= cache.value.fetchedAt && cache.value.keys == publisher(p);
      forall revoked: nat | Revoked(publisher, kid, CachedKey(cache, kid, at), revoked) ensures p < revoked {
      }
    }
  }

  // --- One caller at a time -----------------------------------------------

  /** How a fetch ends at `at`: with the keys published at some moment, or not. */
  datatype Fetch = Received(published: nat, at: nat) | Failed(at: nat)

  /** A request stamped `stamped` is answered later, with keys published in between. */
  predicate FollowsStamp(stamped: nat, fetch: Fetch) {
    stamped <= fetch.at && (fetch.Received? ==> stamped <= fetch.published <= fetch.at)
  }

  /** The clock reads of one call of `verify`, in program order, around its fetch if it makes one. */
  datatype Times = Times(asked: nat, checked: nat, stamped: nat, fetch: Fetch, retried: nat) {
    predicate InOrder() {
      asked <= checked <= stamped && FollowsStamp(stamped, fetch) && fetch.at <= retried
    }
  }

  /** The machine with `caller` alone in it. */
  function Alone(shared: SharedState, now: nat, caller: Caller): State {
    State(now, shared.cache, shared.lastAttempt, if caller.HoldsGate() then Some(0) else None, [caller], shared.attempts)
  }

  /** The refresh of caller `t` without interruption, as steps of the machine. */
  function SoloRefresh(publisher: Publisher, s: State, t: nat, stamped: nat, fetch: Fetch): (s': State)
    requires t < |s.callers| && s.callers[t].AtGate? && s.now <= stamped && FollowsStamp(stamped, fetch)
    ensures s'.gate == None && s'.callers == s.callers[t := Refreshed(s.callers[t].kid, s.callers[t].seen)]
    ensures s'.now == if CoolingDown(s.lastAttempt, s.now) then s.now else fetch.at
  {
    var checked := Step(publisher, s, CheckCooldown(t));
    if CoolingDown(s.lastAttempt, s.now) then
      checked
    else
      var waiting := Step(publisher, Step(publisher, checked, Tick(stamped)), Stamp(t));
      var answered := Step(publisher, waiting, Tick(fetch.at));
      match fetch
      case Received(published, _) => Step(publisher, Step(publisher, answered, Receive(t, published)), Store(t))
      case Failed(_) => Step(publisher, answered, FetchFails(t))
  }

  /** A whole call of `verify(kid)` by caller `t` without interruption, as steps of the machine. */
  function SoloVerify(publisher: Publisher, s: State, t: nat, kid: Kid, times: Times): (s': State)
    requires t < |s.callers| && s.callers[t].Idle? && s.gate == None && s.now == times.asked && times.InOrder()
    ensures s'.gate == None && |s'.callers| == |s.callers| && s'.callers[t].Answered? && s'.callers[t].at == s'.now
  {
    var asked := Step(publisher, s, Ask(t, kid));
    if asked.callers[t].Answered? then
      asked
    else
      var atGate := Step(publisher, Step(publisher, asked, TakeGate(t)), Tick(times.checked));
      var refreshed := SoloRefresh(publisher, atGate, t, times.stamped, times.fetch);
      Step(publisher, Step(publisher, refreshed, Tick(times.retried)), Retry(t))
  }

  /** What a refresh leaves: nothing new within 60 seconds of an attempt, else one more attempt, and
      its answer if there is one. */
  function AfterRefresh(publisher: Publisher, before: SharedState, checked: nat, stamped: nat, fetch: Fetch): SharedState {
    if before.lastAttempt.Some? && checked < before.lastAttempt.value + 60 * SECOND then
      before
    else
      var cache := match fetch
                   case Received(published, at) => Some(CachedJwks(publisher(published), at, stamped))
                   case Failed(_) => before.cache;
      SharedState(cache, Some(stamped), before.attempts + [stamped])
  }

  /** At `now` the cache holds a key for `kid` that was fetched less than `age` ago. */
  predicate Holds(cache: Option<CachedJwks>, kid: Kid, now: nat, age: nat) {
    cache.Some? && kid in cache.value.keys && now < cache.value.fetchedAt + age
  }

  lemma AfterRefreshKeepsInv(publisher: Publisher, before: SharedState, checked: nat, stamped: nat, fetch: Fetch)
    requires SharedInv(publisher, before, checked) && checked <= stamped && FollowsStamp(stamped, fetch)
    ensures var after := AfterRefresh(publisher, before, checked, stamped, fetch);
            && SharedInv(publisher, after, fetch.at)
            && before.attempts <= after.attempts && NoOlder(before.cache, after.cache)
  {
  }

  /** The machine agrees on all three paths: cooling down, success and failure. */
  lemma SoloRefreshLeaves(publisher: Publisher, s: State, t: nat, stamped: nat, fetch: Fetch)
    requires t < |s.callers| && s.callers[t].AtGate? && s.now <= stamped && FollowsStamp(stamped, fetch)
    ensures SoloRefresh(publisher, s, t, stamped, fetch).Shared() ==
            AfterRefresh(publisher, s.Shared(), s.now, stamped, fetch)
  {
  }

  lemma SoloVerifyAnswers(publisher: Publisher, s: State, t: nat, kid: Kid, times: Times)
    requires t < |s.callers| && s.callers[t].Idle? && s.gate == None && s.now == times.asked && times.InOrder()
    ensures var s' := SoloVerify(publisher, s, t, kid, times);
            if Holds(s.cache, kid, times.asked, 3600 * SECOND) then
              s'.Shared() == s.Shared() && s'.callers[t].key == Some(s.cache.value.keys[kid]) && s'.now == times.asked
            else
              && s'.Shared() == AfterRefresh(publisher, s.Shared(), times.checked, times.stamped, times.fetch)
              && (s'.callers[t].key ==
                  if Holds(s'.cache, kid, times.retried, 24 * 3600 * SECOND) then Some(s'.cache.value.keys[kid]) else None)
              && s'.now == times.retried
  {
    var asked := Step(publisher, s, Ask(t, kid));
    if !asked.callers[t].Answered? {
      var atGate := Step(publisher, Step(publisher, asked, TakeGate(t)), Tick(times.checked));
      SoloRefreshLeaves(publisher, atGate, t, times.stamped, times.fetch);
    }
  }

  /** A whole call keeps the invariant and never ages the cache, and the key it finds is recent. */
  lemma SoloVerifyKeepsInv(publisher: Publisher, s: State, t: nat, kid: Kid, times: Times)
    requires t < |s.callers| && s.callers[t].Idle? && s.gate == None && s.now == times.asked && times.InOrder()
    requires SharedInv(publisher, s.Shared(), times.asked)
    ensures var s' := SoloVerify(publisher, s, t, kid, times);
            && SharedInv(publisher, s'.Shared(), times.retried)
            && s.attempts <= s'.attempts && NoOlder(s.cache, s'.cache)
            && IsRecent(publisher, s'.cache, kid, s'.callers[t].key, s'.now)
  {
    SoloVerifyAnswers(publisher, s, t, kid, times);
    var s' := SoloVerify(publisher, s, t, kid, times);
    AfterRefreshKeepsInv(publisher, s.Shared(), times.checked, times.stamped, times.fetch);
    CachedKeyIsRecent(publisher, s'.cache, kid, s'.now);
    assert s'.callers[t].key == CachedKey(s'.cache, kid, s'.now);
  }

  class CfAccessVerifier {
    /** What `fetch_jwks` gets from Cloudflare, by the moment of publication. */
    const publisher: Publisher
    var cache: Option<CachedJwks>
    /** The content of `refresh_gate`. */
    var lastAttempt: Option<nat>
    ghost var attempts: seq<nat>

    ghost function Shared(): SharedState
      reads this
    {
      SharedState(cache, lastAttempt, attempts)
    }

    ghost predicate Valid(now: nat)
      reads this
    {
      SharedInv(publisher, Shared(), now)
    }

    constructor (publisher: Publisher)
      ensures Valid(0) && this.publisher == publisher && Shared() == SharedState(None, None, [])
    {
      this.publisher := publisher;
      cache, lastAttempt, attempts := None, None, [];
    }

    /** `refresh_if_allowed` with the gate held, for a caller that asked for `kid`. */
    method RefreshIfAllowed(checked: nat, stamped: nat, fetch: Fetch, ghost kid: Kid)
      requires Valid(checked) && checked <= stamped && FollowsStamp(stamped, fetch)
      modifies this
      ensures Valid(fetch.at) && Spaced(attempts) && old(attempts) <= attempts && NoOlder(old(cache), cache)
      ensures Shared() == AfterRefresh(publisher, old(Shared()), checked, stamped, fetch)
      ensures old(lastAttempt).Some? && checked < old(lastAttempt).value + 60 * SECOND ==>
                cache == old(cache) && lastAttempt == old(lastAttempt) && attempts == old(attempts)
      ensures old(lastAttempt).None? || old(lastAttempt).value + 60 * SECOND <= checked ==>
                && lastAttempt == Some(stamped) && attempts == old(attempts) + [stamped]
                && (fetch.Received? ==> cache == Some(CachedJwks(publisher(fetch.published), fetch.at, stamped)))
                && (fetch.Failed? ==> cache == old(cache))
      ensures var s := Alone(old(Shared()), checked, AtGate(kid, old(cache)));
              Shared() == SoloRefresh(publisher, s, 0, stamped, fetch).Shared()
    {
      AfterRefreshKeepsInv(publisher, Shared(), checked, stamped, fetch);
      SoloRefreshLeaves(publisher, Alone(Shared(), checked, AtGate(kid, cache)), 0, stamped, fetch);
      if CoolingDown(lastAttempt, checked) {
        return;
      }
      lastAttempt, attempts := Some(stamped), attempts + [stamped];
      match fetch
      case Received(published, at) => cache := Some(CachedJwks(publisher(published), at, stamped));
      case Failed(_) =>
    }

    /** The key lookup of `verify`: a fresh key at once, else refresh and look again. It answers and
        leaves behind what an uninterrupted caller of the machine does. */
    method FindKey(kid: Kid, times: Times) returns (key: Option<Jwk>)
      requires Valid(times.asked) && times.InOrder()
      modifies this
      ensures Valid(times.retried) && Spaced(attempts) && old(attempts) <= attempts && NoOlder(old(cache), cache)
      ensures old(Holds(cache, kid, times.asked, 3600 * SECOND)) ==>
                key == Some(old(cache).value.keys[kid]) && Shared() == old(Shared())
      ensures !old(Holds(cache, kid, times.asked, 3600 * SECOND)) ==>
                && Shared() == AfterRefresh(publisher, old(Shared()), times.checked, times.stamped, times.fetch)
                && key == if Holds(cache, kid, times.retried, 24 * 3600 * SECOND) then Some(cache.value.keys[kid]) else None
      ensures var s := SoloVerify(publisher, Alone(old(Shared()), times.asked, Idle), 0, kid, times);
              Shared() == s.Shared() && key == s.callers[0].key && IsRecent(publisher, cache, kid, key, s.now)
    {
      SoloVerifyAnswers(publisher, Alone(Shared(), times.asked, Idle), 0, kid, times);
      SoloVerifyKeepsInv(publisher, Alone(Shared(), times.asked, Idle), 0, kid, times);
      key := CachedFreshKey(cache, kid, times.asked);
      if key.None? {
        RefreshIfAllowed(times.checked, times.stamped, times.fetch, kid);
        key := CachedKey(cache, kid, times.retried);
      }
    }
  }

  // --- Runs ---------------------------------------------------------------

  /** A run: `actions[i]` leads from `states[i]` to `states[i + 1]`. */
  ghost predicate IsRun(publisher: Publisher, states: seq<State>, actions: seq<Action>) {
    && |states| == |actions| + 1 && Init(states[0])
    && forall i | 0 <= i < |actions| ::
         Enabled(states[i], actions[i]) && states[i + 1] == Step(publisher, states[i], actions[i])
  }

  /** Any number of idle callers and an empty cache start a run, and every enabled step extends one. */
  lemma RunsExtend(publisher: Publisher, states: seq<State>, actions: seq<Action>, action: Action, idle: nat, now: nat)
    requires IsRun(publisher, states, actions) && Enabled(states[|actions|], action)
    ensures IsRun(publisher, [State(now, None, None, None, seq(idle, _ => Idle), [])], [])
    ensures IsRun(publisher, states + [Step(publisher, states[|actions|], action)], actions + [action])
  {
  }

  lemma {:induction false} RunKeepsInv(publisher: Publisher, states: seq<State>, actions: seq<Action>, i: nat)
    requires IsRun(publisher, states, actions) && i < |states|
    ensures Inv(publisher, states[i])
  {
    if i == 0 {
    } else {
      RunKeepsInv(publisher, states, actions, i - 1);
      StepKeepsInv(publisher, states[i - 1], actions[i - 1]);
      assert states[i - 1 + 1] == Step(publisher, states[i - 1], actions[i - 1]);
    }
  }

  lemma {:induction false} SpacedIsAscending(attempts: seq<nat>, i: nat, j: nat)
    requires Spaced(attempts) && i < j < |attempts|
    ensures attempts[i] + MIN_REFRESH_INTERVAL <= attempts[j]
  {
    if i == j - 1 {
    } else {
      SpacedIsAscending(attempts, i, j - 1);
    }
  }

  /** In every reachable state a caller at the gate goes on to fetch exactly when there was no attempt
      in the last 60 seconds; otherwise it leaves, and nothing changes but the gate. */
  lemma FetchesWhenDue(publisher: Publisher, states: seq<State>, actions: seq<Action>, i: nat, t: nat)
    requires IsRun(publisher, states, actions) && i < |states|
    requires t < |states[i].callers| && states[i].callers[t].AtGate?
    ensures Enabled(states[i], CheckCooldown(t))
    ensures var s, s' := states[i], Step(publisher, states[i], CheckCooldown(t));
            && s'.Shared() == s.Shared()
            && (s'.callers[t].Cleared? <==> forall a | a in s.attempts :: a + 60 * SECOND <= s.now)
            && (s'.callers[t].Refreshed? <==> !s'.callers[t].Cleared?)
            && (s'.callers[t].Cleared? ==>
                  && Enabled(s', Stamp(t))
                  && Step(publisher, s', Stamp(t)).callers[t].Fetching?
                  && Step(publisher, s', Stamp(t)).attempts == s.attempts + [s.now])
  {
    RunKeepsInv(publisher, states, actions, i);
    var s := states[i];
    assert s.attempts != [] ==> s.attempts[|s.attempts| - 1] in s.attempts;
    forall k | 0 <= k < |s.attempts| ensures s.attempts[k] <= s.attempts[|s.attempts| - 1] {
      if k < |s.attempts| - 1 {
        SpacedIsAscending(s.attempts, k, |s.attempts| - 1);
      }
    }
  }

  /** The cache never goes back to an older fetch. */
  lemma {:induction false} CacheNeverGoesBack(publisher: Publisher, states: seq<State>, actions: seq<Action>, i: nat, j: nat)
    requires IsRun(publisher, states, actions) && i <= j < |states|
    ensures NoOlder(states[i].cache, states[j].cache)
  {
    if i == j {
    } else {
      CacheNeverGoesBack(publisher, states, actions, i, j - 1);
      RunKeepsInv(publisher, states, actions, j - 1);
      StepKeepsInv(publisher, states[j - 1], actions[j - 1]);
      assert states[j - 1 + 1] == Step(publisher, states[j - 1], actions[j - 1]);
    }
  }

  /** The gate is never lost: in every reachable state it is free, or its holder can be cancelled,
      which frees it. */
  lemma GateCanBeFreed(publisher: Publisher, states: seq<State>, actions: seq<Action>, i: nat)
    requires IsRun(publisher, states, actions) && i < |states| && states[i].gate.Some?
    ensures var s, t := states[i], states[i].gate.value;
            t < |s.callers| && s.callers[t].HoldsGate() && Enabled(s, Drop(t)) && Step(publisher, s, Drop(t)).gate == None
  {
    RunKeepsInv(publisher, states, actions, i);
  }

  /** One refresh at a time: the gate has a single holder. */
  lemma SingleFlight(publisher: Publisher, states: seq<State>, actions: seq<Action>, i: nat, t: nat, u: nat)
    requires IsRun(publisher, states, actions) && i < |states|
    requires t < |states[i].callers| && u < |states[i].callers|
    requires states[i].callers[t].HoldsGate() && states[i].callers[u].HoldsGate()
    ensures t == u
  {
    RunKeepsInv(publisher, states, actions, i);
    assert CallerInv(publisher, states[i], t) && CallerInv(publisher, states[i], u);
  }

  /** How many attempts were stamped from `from` to `to`. */
  function CountWithin(attempts: seq<nat>, from: nat, to: nat): nat {
    if attempts == [] then
      0
    else
      var n := |attempts| - 1;
      CountWithin(attempts[..n], from, to) + if from <= attempts[n] <= to then 1 else 0
  }

  lemma {:induction false} NothingBetween(attempts: seq<nat>, from: nat, to: nat, bound: int)
    requires forall i | 0 <= i < |attempts| :: attempts[i] <= bound
    requires bound <= to
    ensures CountWithin(attempts, from, to) == if 0 <= bound then CountWithin(attempts, from, bound) else 0
    ensures bound < from ==> CountWithin(attempts, from, to) == 0
  {
    if attempts == [] {
    } else {
      NothingBetween(attempts[..|attempts| - 1], from, to, bound);
    }
  }

  lemma {:induction false} SpacedCount(attempts: seq<nat>, from: nat, to: nat)
    requires Spaced(attempts) && from <= to
    ensures CountWithin(attempts, from, to) * MIN_REFRESH_INTERVAL <= to - from + MIN_REFRESH_INTERVAL
  {
    if attempts == [] {
    } else {
      var n := |attempts| - 1;
      var rest := attempts[..n];
      if from <= attempts[n] <= to {
        var bound := attempts[n] - MIN_REFRESH_INTERVAL;
        forall i | 0 <= i < n ensures rest[i] <= bound {
          SpacedIsAscending(attempts, i, n);
        }
        NothingBetween(rest, from, to, bound);
        if from <= bound {
          SpacedCount(rest, from, bound);
        }
      } else {
        SpacedCount(rest, from, to);
      }
    }
  }

  /** The refresh rate bound: whatever key ids callers present, any window of `window` nanoseconds
      contains at most `window` / 60 s + 1 fetch attempts. */
  lemma RefreshRateIsBounded(publisher: Publisher, states: seq<State>, actions: seq<Action>, i: nat, from: nat, window: nat)
    requires IsRun(publisher, states, actions) && i < |states|
    ensures Spaced(states[i].attempts)
    ensures CountWithin(states[i].attempts, from, from + window) <= window / MIN_REFRESH_INTERVAL + 1
  {
    RunKeepsInv(publisher, states, actions, i);
    SpacedCount(states[i].attempts, from, from + window);
  }

  /** Every fetch is an attempt: a caller is fetching only after its stamp was recorded. */
  lemma FetchesAreAttempts(publisher: Publisher, states: seq<State>, actions: seq<Action>, i: nat, t: nat)
    requires IsRun(publisher, states, actions) && i < |states|
    requires t < |states[i].callers| && states[i].callers[t].Fetching?
    ensures states[i].attempts != [] && states[i].attempts[|states[i].attempts| - 1] == states[i].callers[t].requestedAt
  {
    RunKeepsInv(publisher, states, actions, i);
    assert CallerInv(publisher, states[i], t);
  }

  /** A key that was returned comes from a key set fetched less than `MAX_KEY_AGE` earlier, which
      Cloudflare published while that fetch was under way. So a key that Cloudflare stopped
      publishing at `revoked` is not returned `MAX_KEY_AGE` and one fetch later. */
  lemma ReturnedKeysAreRecent(publisher: Publisher, states: seq<State>, actions: seq<Action>, i: nat, t: nat)
    requires IsRun(publisher, states, actions) && i < |states|
    requires t < |states[i].callers| && states[i].callers[t].Answered? && states[i].callers[t].key.Some?
    ensures var c := states[i].callers[t];
            && c.used.Some? && c.at - c.used.value.fetchedAt < MAX_KEY_AGE
            && Get(c.used.value.keys, c.kid) == c.key
            && OutlivesRevocationBriefly(publisher, c.used.value, c.kid, c.key, c.at)
  {
    RunKeepsInv(publisher, states, actions, i);
    assert CallerInv(publisher, states[i], t);
    var c := states[i].callers[t];
    CachedKeyIsRecent(publisher, c.used, c.kid, c.at);
  }

  /** Caller `t` is past the gate it took at `i`, in the same call, up to `j`. */
  ghost predicate SameCall(states: seq<State>, t: nat, i: nat, j: nat) {
    forall k | i < k <= j :: k < |states| && t < |states[k].callers| && !states[k].callers[t].Idle?
  }

  function Seen(caller: Caller): Option<CachedJwks> {
    if caller.Idle? || caller.Missed? then None else caller.seen
  }

  lemma SeenStep(publisher: Publisher, s: State, action: Action, t: nat)
    requires Enabled(s, action) && t < |s.callers| && !s.callers[t].Idle? && !s.callers[t].Missed?
    requires !Step(publisher, s, action).callers[t].Idle?
    ensures var c := Step(publisher, s, action).callers[t];
            Seen(c) == Seen(s.callers[t]) && !c.Missed?
  {
  }

  lemma {:induction false} SeenIsKept(publisher: Publisher, states: seq<State>, actions: seq<Action>, t: nat, i: nat, j: nat)
    requires IsRun(publisher, states, actions) && i < j < |states|
    requires actions[i] == TakeGate(t) && SameCall(states, t, i, j)
    ensures Seen(states[j].callers[t]) == states[i].cache && !states[j].callers[t].Missed?
  {
    assert states[j - 1 + 1] == Step(publisher, states[j - 1], actions[j - 1]);
    if i + 1 < j {
      SeenIsKept(publisher, states, actions, t, i, j - 1);
      SeenStep(publisher, states[j - 1], actions[j - 1], t);
    }
  }

  /** Coalescing: a caller that went through the gate, also one the cooldown turned away, is
      answered from a cache at least as new as any stored before it took the gate. */
  lemma WaitersSeeEarlierFetches(publisher: Publisher, states: seq<State>, actions: seq<Action>, t: nat, h: nat, i: nat, j: nat)
    requires IsRun(publisher, states, actions) && h <= i < j < |states|
    requires actions[i] == TakeGate(t) && SameCall(states, t, i, j)
    requires states[j].callers[t].Answered?
    ensures var c := states[j].callers[t];
            NoOlder(states[h].cache, c.used) && c.key == CachedKey(c.used, c.kid, c.at)
  {
    SeenIsKept(publisher, states, actions, t, i, j);
    RunKeepsInv(publisher, states, actions, j);
    assert CallerInv(publisher, states[j], t);
    CacheNeverGoesBack(publisher, states, actions, h, i);
  }
}
