/** What the key assignment means: the priority rule, and which keys can coincide. */
module KeyRules {
  import opened Text
  import opened Identity
  import opened Seeds
  import opened KeyAssignment

  /** Config key `c` is out of reach of entry `i`: it is an explicit slug, or a lower user id
      with the same login email was matched to it. */
  ghost predicate Held(lower: Folding, entries: seq<ConsoleIdentity>, keys: seq<string>, i: nat, c: string)
    requires i < |entries| == |keys|
  {
    || c in Slugs(entries)
    || exists j | 0 <= j < i ::
         && keys[j] == c
         && !HoldsSlug(entries, j)
         && EmailKey(lower, entries[j].loginEmail) == EmailKey(lower, entries[i].loginEmail)
  }

  /** The rule for entry `i`, given everybody's keys: its explicit slug unless a lower user id has
      the same one, else the first config key for its login email that is not held, else its alias. */
  ghost predicate FollowsRule(lower: Folding, seed: Seed, entries: seq<ConsoleIdentity>, keys: seq<string>, i: nat)
    requires i < |entries| == |keys|
  {
    var candidates := KeysForEmail(lower, seed, entries[i].loginEmail);
    if HoldsSlug(entries, i) then
      keys[i] == ExplicitSlug(entries[i]).value
    else if forall m | 0 <= m < |candidates| :: Held(lower, entries, keys, i, candidates[m]) then
      keys[i] == ConsoleKey(entries[i].userId)
    else
      exists m | 0 <= m < |candidates| ::
        && keys[i] == candidates[m]
        && !Held(lower, entries, keys, i, candidates[m])
        && forall l | 0 <= l < m :: Held(lower, entries, keys, i, candidates[l])
  }

  /** How entry `i` came by its key. */
  lemma KeyCases(lower: Folding, configured: map<string, UserConfig>, seed: Seed, entries: seq<ConsoleIdentity>, i: nat)
    requires IsSeed(lower, configured, seed) && i < |entries|
    ensures var keys := AssignedKeys(lower, seed, entries);
            if HoldsSlug(entries, i) then
              keys[i] == ExplicitSlug(entries[i]).value && keys[i] in Slugs(entries)
            else
              || keys[i] == ConsoleKey(entries[i].userId)
              || (&& keys[i] in KeysForEmail(lower, seed, entries[i].loginEmail)
                  && keys[i] in configured && !IsReserved(keys[i])
                  && EmailKey(lower, entries[i].loginEmail) == ConfiguredEmail(lower, configured[keys[i]])
                  && keys[i] !in Slugs(entries) && keys[i] !in keys[..i])
  {
    AssignedAt(lower, seed, entries, i);
    KeysForEmailExact(lower, configured, seed, entries[i].loginEmail);
    assert entries[i] in entries;
  }

  /** On candidates of entry `i`, being held is being a slug or an earlier key. */
  lemma HeldExact(lower: Folding, configured: map<string, UserConfig>, seed: Seed, entries: seq<ConsoleIdentity>,
                  keys: seq<string>, i: nat, c: string)
    requires IsSeed(lower, configured, seed) && i < |entries| == |keys|
    requires keys[..i] == AssignedUpTo(lower, seed, entries, i)
    requires c in KeysForEmail(lower, seed, entries[i].loginEmail)
    ensures Held(lower, entries, keys, i, c) <==> c in Slugs(entries) || c in keys[..i]
  {
    KeysForEmailExact(lower, configured, seed, entries[i].loginEmail);
    if c !in Slugs(entries) && c in keys[..i] {
      var j :| 0 <= j < i && keys[..i][j] == c;
      AssignedPrefix(lower, seed, entries, i, |entries|);
      assert keys[j] == AssignedKeys(lower, seed, entries)[..i][j];
      KeyCases(lower, configured, seed, entries, j);
      ConsoleKeyIsReserved(entries[j].userId);
    }
  }

  lemma HeldCandidates(lower: Folding, configured: map<string, UserConfig>, seed: Seed, entries: seq<ConsoleIdentity>,
                       keys: seq<string>, i: nat)
    requires IsSeed(lower, configured, seed) && i < |entries| == |keys|
    requires keys[..i] == AssignedUpTo(lower, seed, entries, i)
    ensures forall c | c in KeysForEmail(lower, seed, entries[i].loginEmail) ::
              Held(lower, entries, keys, i, c) <==> c in Slugs(entries) + Elements(keys[..i])
  {
    forall c | c in KeysForEmail(lower, seed, entries[i].loginEmail)
      ensures Held(lower, entries, keys, i, c) <==> c in Slugs(entries) + Elements(keys[..i])
    {
      HeldExact(lower, configured, seed, entries, keys, i, c);
    }
  }

  /** The rule at `i` fixes the key of `i` once held candidates are the taken ones. */
  lemma RuleStep(lower: Folding, seed: Seed, entries: seq<ConsoleIdentity>, keys: seq<string>, i: nat)
    requires i < |entries| == |keys|
    requires forall c | c in KeysForEmail(lower, seed, entries[i].loginEmail) ::
               Held(lower, entries, keys, i, c) <==> c in Slugs(entries) + Elements(keys[..i])
    ensures FollowsRule(lower, seed, entries, keys, i) <==> keys[i] == NextKey(lower, seed, entries, keys[..i])
  {
    var candidates := KeysForEmail(lower, seed, entries[i].loginEmail);
    var free := FirstFree(candidates, Slugs(entries) + Elements(keys[..i]));
    assert forall m | 0 <= m < |candidates| :: candidates[m] in candidates;
    if !HoldsSlug(entries, i) && free.Some? {
      assert !Held(lower, entries, keys, i, candidates[free.value]);
      if FollowsRule(lower, seed, entries, keys, i) {
        var m :| 0 <= m < |candidates| && keys[i] == candidates[m] && !Held(lower, entries, keys, i, candidates[m])
                 && forall l | 0 <= l < m :: Held(lower, entries, keys, i, candidates[l]);
        assert m == free.value;
      }
    }
  }

  lemma {:induction false} RuleDetermines(lower: Folding, configured: map<string, UserConfig>, seed: Seed,
                                          entries: seq<ConsoleIdentity>, keys: seq<string>, n: nat)
    requires IsSeed(lower, configured, seed) && n <= |entries| == |keys|
    requires forall i | 0 <= i < n :: FollowsRule(lower, seed, entries, keys, i)
    ensures keys[..n] == AssignedUpTo(lower, seed, entries, n)
  {
    if n == 0 {
    } else {
      RuleDetermines(lower, configured, seed, entries, keys, n - 1);
      HeldCandidates(lower, configured, seed, entries, keys, n - 1);
      RuleStep(lower, seed, entries, keys, n - 1);
      assert keys[..n] == keys[..n - 1] + [keys[n - 1]];
    }
  }

  /** The two-pass assignment is exactly the priority rule: it satisfies the rule for every
      entry, and no other list of keys does. */
  lemma AssignmentIsThePriorityRule(lower: Folding, configured: map<string, UserConfig>, seed: Seed,
                                    entries: seq<ConsoleIdentity>, keys: seq<string>)
    requires IsSeed(lower, configured, seed) && |keys| == |entries|
    ensures keys == AssignedKeys(lower, seed, entries) <==>
            forall i | 0 <= i < |entries| :: FollowsRule(lower, seed, entries, keys, i)
  {
    if keys == AssignedKeys(lower, seed, entries) {
      forall i | 0 <= i < |entries| ensures FollowsRule(lower, seed, entries, keys, i) {
        AssignedAt(lower, seed, entries, i);
        HeldCandidates(lower, configured, seed, entries, keys, i);
        RuleStep(lower, seed, entries, keys, i);
      }
    }
    if forall i | 0 <= i < |entries| :: FollowsRule(lower, seed, entries, keys, i) {
      RuleDetermines(lower, configured, seed, entries, keys, |entries|);
      assert keys[..|entries|] == keys;
    }
  }

  /** Users with equal login emails and no slug receive the config keys in user-id order: a
      higher id gets one only when the lower id got an earlier one. */
  lemma EqualEmailsInIdOrder(lower: Folding, configured: map<string, UserConfig>, seed: Seed,
                             entries: seq<ConsoleIdentity>, i: nat, j: nat)
    requires IsSeed(lower, configured, seed) && i < j < |entries|
    requires !HoldsSlug(entries, i) && !HoldsSlug(entries, j)
    requires EmailKey(lower, entries[i].loginEmail) == EmailKey(lower, entries[j].loginEmail)
    ensures var keys := AssignedKeys(lower, seed, entries);
            keys[j] == ConsoleKey(entries[j].userId) || (keys[i] in configured && ComesFirst(keys[i], keys[j]))
  {
    var keys := AssignedKeys(lower, seed, entries);
    var candidates := KeysForEmail(lower, seed, entries[j].loginEmail);
    assert candidates == KeysForEmail(lower, seed, entries[i].loginEmail);
    KeysForEmailExact(lower, configured, seed, entries[j].loginEmail);
    AssignedAt(lower, seed, entries, i);
    AssignedAt(lower, seed, entries, j);
    if keys[j] != ConsoleKey(entries[j].userId) {
      var later := FirstFree(candidates, Slugs(entries) + Elements(keys[..j])).value;
      assert forall c | c in keys[..i] :: c in keys[..j];
      var sooner := FirstFree(candidates, Slugs(entries) + Elements(keys[..i]));
      assert sooner.Some? && sooner.value <= later;
      assert keys[i] == candidates[sooner.value] && keys[i] in keys[..j];
      assert sooner.value != later && keys[i] in candidates;
      BelowExactly(keys[i], keys[j]);
    }
  }

  // --- The assignment in closed form --------------------------------------

  /** The config keys for `email` that are nobody's explicit slug, ascending. */
  function FreeKeys(lower: Folding, seed: Seed, entries: seq<ConsoleIdentity>, email: string): seq<string> {
    Sorted(Elements(KeysForEmail(lower, seed, email)) - Slugs(entries))
  }

  /** How many of the first `n` entries have login email `email` and hold no slug. */
  function Rank(lower: Folding, entries: seq<ConsoleIdentity>, email: string, n: nat): nat
    requires n <= |entries|
  {
    if n == 0 then
      0
    else
      var counts := !HoldsSlug(entries, n - 1) && EmailKey(lower, entries[n - 1].loginEmail) == EmailKey(lower, email);
      Rank(lower, entries, email, n - 1) + if counts then 1 else 0
  }

  /** What is left of `free` after `n` keys are given away, in order, as far as they last. */
  function Left(free: seq<string>, n: nat): seq<string> {
    if n <= |free| then free[n..] else []
  }

  lemma FreeKeysExact(lower: Folding, configured: map<string, UserConfig>, seed: Seed, entries: seq<ConsoleIdentity>,
                      email: string)
    requires IsSeed(lower, configured, seed)
    ensures forall c | c in FreeKeys(lower, seed, entries, email) ::
              c !in Slugs(entries) && !IsReserved(c) && EmailKey(lower, email).Some?
              && c in configured && ConfiguredEmail(lower, configured[c]) == EmailKey(lower, email)
    ensures forall c :: c in FreeKeys(lower, seed, entries, email) <==>
              c in KeysForEmail(lower, seed, email) && c !in Slugs(entries)
  {
    KeysForEmailExact(lower, configured, seed, email);
    var free := FreeKeys(lower, seed, entries, email);
    assert forall c :: c in free <==> c in Elements(free);
  }

  /** When the candidates nobody has taken are those left of `free`, the first of them is next. */
  lemma FirstFreeIsNext(candidates: seq<string>, taken: set<string>, free: seq<string>, n: nat)
    requires StrictlyAscending(candidates) && StrictlyAscending(free)
    requires forall c :: c in candidates && c !in taken <==> c in Left(free, n)
    ensures match FirstFree(candidates, taken)
            case Some(m) => n < |free| && candidates[m] == free[n]
            case None => |free| <= n
  {
    if n < |free| {
      assert Left(free, n)[0] == free[n] && Left(free, n)[0] in Left(free, n);
      var p :| 0 <= p < |candidates| && candidates[p] == free[n];
      var m := FirstFree(candidates, taken).value;
      assert candidates[m] in Left(free, n);
      var k :| n <= k < |free| && free[k] == candidates[m];
      if m < p {
        BelowIsIrreflexive(free[n]);
        if n < k {
          BelowIsTransitive(free[n], free[k], free[n]);
        }
      }
    }
  }

  /** The free keys that none of `keys` has are those left after the first `rank`. */
  ghost predicate UsedInOrder(free: seq<string>, keys: seq<string>, rank: nat) {
    forall c :: c in free && c !in keys <==> c in Left(free, rank)
  }

  lemma UseNext(free: seq<string>, keys: seq<string>, rank: nat, key: string)
    requires StrictlyAscending(free) && UsedInOrder(free, keys, rank)
    requires if rank < |free| then key == free[rank] else key !in free
    ensures UsedInOrder(free, keys + [key], rank + 1)
  {
    if rank < |free| {
      assert free[rank..] == [free[rank]] + free[rank + 1..];
      forall k | rank < k < |free| ensures free[k] != free[rank] {
        assert Below(free[rank], free[k]);
        BelowIsIrreflexive(free[rank]);
      }
    }
  }

  lemma SkipOne(free: seq<string>, keys: seq<string>, rank: nat, key: string)
    requires UsedInOrder(free, keys, rank) && key !in free
    ensures UsedInOrder(free, keys + [key], rank)
  {
  }

  /** The key of an entry that holds no slug, once earlier entries have used up keys in order. */
  lemma NextInOrder(lower: Folding, configured: map<string, UserConfig>, seed: Seed, entries: seq<ConsoleIdentity>,
                    email: string, i: nat)
    requires IsSeed(lower, configured, seed) && i < |entries| && !HoldsSlug(entries, i)
    requires EmailKey(lower, entries[i].loginEmail) == EmailKey(lower, email)
    requires UsedInOrder(FreeKeys(lower, seed, entries, email), AssignedKeys(lower, seed, entries)[..i],
                         Rank(lower, entries, email, i))
    ensures var free, rank := FreeKeys(lower, seed, entries, email), Rank(lower, entries, email, i);
            var key := AssignedKeys(lower, seed, entries)[i];
            if rank < |free| then key == free[rank] else key == ConsoleKey(entries[i].userId) && key !in free
  {
    var earlier := AssignedKeys(lower, seed, entries)[..i];
    AssignedAt(lower, seed, entries, i);
    KeysForEmailExact(lower, configured, seed, email);
    FreeKeysExact(lower, configured, seed, entries, email);
    FirstFreeIsNext(KeysForEmail(lower, seed, email), Slugs(entries) + Elements(earlier),
                    FreeKeys(lower, seed, entries, email), Rank(lower, entries, email, i));
    assert KeysForEmail(lower, seed, entries[i].loginEmail) == KeysForEmail(lower, seed, email);
    ConsoleKeyIsReserved(entries[i].userId);
  }

  /** An entry that does not count for `email` takes none of its free keys. */
  lemma OthersTakeNone(lower: Folding, configured: map<string, UserConfig>, seed: Seed,
                       entries: seq<ConsoleIdentity>, email: string, i: nat)
    requires IsSeed(lower, configured, seed) && i < |entries|
    requires Rank(lower, entries, email, i + 1) == Rank(lower, entries, email, i)
    ensures AssignedKeys(lower, seed, entries)[i] !in FreeKeys(lower, seed, entries, email)
  {
    FreeKeysExact(lower, configured, seed, entries, email);
    KeyCases(lower, configured, seed, entries, i);
    ConsoleKeyIsReserved(entries[i].userId);
  }

  lemma OneMoreInOrder(lower: Folding, configured: map<string, UserConfig>, seed: Seed,
                       entries: seq<ConsoleIdentity>, email: string, i: nat)
    requires IsSeed(lower, configured, seed) && i < |entries|
    requires UsedInOrder(FreeKeys(lower, seed, entries, email), AssignedKeys(lower, seed, entries)[..i],
                         Rank(lower, entries, email, i))
    ensures UsedInOrder(FreeKeys(lower, seed, entries, email),
                        AssignedKeys(lower, seed, entries)[..i] + [AssignedKeys(lower, seed, entries)[i]],
                        Rank(lower, entries, email, i + 1))
  {
    var free := FreeKeys(lower, seed, entries, email);
    var keys := AssignedKeys(lower, seed, entries);
    var rank := Rank(lower, entries, email, i);
    if Rank(lower, entries, email, i + 1) == rank {
      OthersTakeNone(lower, configured, seed, entries, email, i);
      SkipOne(free, keys[..i], rank, keys[i]);
    } else {
      NextInOrder(lower, configured, seed, entries, email, i);
      UseNext(free, keys[..i], rank, keys[i]);
    }
  }

  /** The entries that are matched by email use up the free keys in order. */
  lemma {:induction false} KeysGoInOrder(lower: Folding, configured: map<string, UserConfig>, seed: Seed,
                                         entries: seq<ConsoleIdentity>, email: string, n: nat)
    requires IsSeed(lower, configured, seed) && n <= |entries|
    ensures UsedInOrder(FreeKeys(lower, seed, entries, email), AssignedKeys(lower, seed, entries)[..n],
                        Rank(lower, entries, email, n))
  {
    var keys := AssignedKeys(lower, seed, entries);
    if n == 0 {
      assert Left(FreeKeys(lower, seed, entries, email), 0) == FreeKeys(lower, seed, entries, email);
    } else {
      KeysGoInOrder(lower, configured, seed, entries, email, n - 1);
      OneMoreInOrder(lower, configured, seed, entries, email, n - 1);
      assert keys[..n] == keys[..n - 1] + [keys[n - 1]];
    }
  }

  /** The free key of entry `i`'s rank among those with its login email, if there are that many. */
  function KeyOfRank(lower: Folding, seed: Seed, entries: seq<ConsoleIdentity>, i: nat): string
    requires i < |entries|
  {
    var free := FreeKeys(lower, seed, entries, entries[i].loginEmail);
    var rank := Rank(lower, entries, entries[i].loginEmail, i);
    if rank < |free| then free[rank] else ConsoleKey(entries[i].userId)
  }

  /** The assignment in closed form, from the entries and the config alone: whoever holds no slug
      and is number `r`, by user id, of those with the same login email gets the free config key
      number `r` for that email, or their alias when the keys run out. */
  lemma KeyByRank(lower: Folding, configured: map<string, UserConfig>, seed: Seed, entries: seq<ConsoleIdentity>, i: nat)
    requires IsSeed(lower, configured, seed) && i < |entries|
    ensures AssignedKeys(lower, seed, entries)[i] ==
            if HoldsSlug(entries, i) then ExplicitSlug(entries[i]).value else KeyOfRank(lower, seed, entries, i)
    ensures var free := FreeKeys(lower, seed, entries, entries[i].loginEmail);
            && IsSorted(free)
            && forall c :: c in free <==> HasEmail(lower, configured, c, entries[i].loginEmail) && c !in Slugs(entries)
  {
    AscendingIsSorted(FreeKeys(lower, seed, entries, entries[i].loginEmail));
    CandidatesExactly(lower, configured, seed, entries[i].loginEmail);
    FreeKeysExact(lower, configured, seed, entries, entries[i].loginEmail);
    if HoldsSlug(entries, i) {
      KeyCases(lower, configured, seed, entries, i);
    } else {
      KeysGoInOrder(lower, configured, seed, entries, entries[i].loginEmail, i);
      NextInOrder(lower, configured, seed, entries, entries[i].loginEmail, i);
    }
  }

  /** The free config keys for entry `i`'s login email do not last up to it. */
  predicate RunsOut(lower: Folding, seed: Seed, entries: seq<ConsoleIdentity>, i: nat)
    requires i < |entries|
  {
    |FreeKeys(lower, seed, entries, entries[i].loginEmail)| <= Rank(lower, entries, entries[i].loginEmail, i)
  }

  /** An entry without a slug falls back to its alias exactly when the free keys run out, which is
      when every config key for its login email is held. */
  lemma FallsBackExactly(lower: Folding, configured: map<string, UserConfig>, seed: Seed,
                         entries: seq<ConsoleIdentity>, i: nat)
    requires IsSeed(lower, configured, seed) && i < |entries| && !HoldsSlug(entries, i)
    ensures var keys := AssignedKeys(lower, seed, entries);
            && (keys[i] == ConsoleKey(entries[i].userId) <==> RunsOut(lower, seed, entries, i))
            && (RunsOut(lower, seed, entries, i) <==>
                forall c | c in KeysForEmail(lower, seed, entries[i].loginEmail) :: Held(lower, entries, keys, i, c))
  {
    KeyByRank(lower, configured, seed, entries, i);
    FreeKeysExact(lower, configured, seed, entries, entries[i].loginEmail);
    ConsoleKeyIsReserved(entries[i].userId);
    AssignmentIsThePriorityRule(lower, configured, seed, entries, AssignedKeys(lower, seed, entries));
    assert FollowsRule(lower, seed, entries, AssignedKeys(lower, seed, entries), i);
    KeysForEmailExact(lower, configured, seed, entries[i].loginEmail);
  }

  /** Entry `i` holds, as its explicit slug, the alias of entry `j`, and `j` needs that alias: it
      holds no slug and the config keys for its login email run out before it. */
  predicate StealsAlias(lower: Folding, seed: Seed, entries: seq<ConsoleIdentity>, i: nat, j: nat)
    requires i < |entries| && j < |entries|
  {
    && HoldsSlug(entries, i) && ExplicitSlug(entries[i]) == Some(ConsoleKey(entries[j].userId))
    && !HoldsSlug(entries, j) && RunsOut(lower, seed, entries, j)
  }

  lemma StealsAliasExactly(lower: Folding, configured: map<string, UserConfig>, seed: Seed,
                           entries: seq<ConsoleIdentity>, i: nat, j: nat)
    requires IsSeed(lower, configured, seed) && i < |entries| && j < |entries|
    ensures var keys := AssignedKeys(lower, seed, entries);
            StealsAlias(lower, seed, entries, i, j) <==>
            && HoldsSlug(entries, i) && !HoldsSlug(entries, j) && keys[i] == keys[j]
            && keys[j] == ConsoleKey(entries[j].userId)
  {
    KeyCases(lower, configured, seed, entries, i);
    if !HoldsSlug(entries, j) {
      FallsBackExactly(lower, configured, seed, entries, j);
    }
  }

  /** Two console persons share a key only in this one way. */
  lemma KeysClashExactly(lower: Folding, configured: map<string, UserConfig>, seed: Seed,
                         entries: seq<ConsoleIdentity>, i: nat, j: nat)
    requires IsSeed(lower, configured, seed) && Ascending(entries) && i < j < |entries|
    ensures var keys := AssignedKeys(lower, seed, entries);
            keys[i] == keys[j] <==>
            StealsAlias(lower, seed, entries, i, j) || StealsAlias(lower, seed, entries, j, i)
    ensures var keys := AssignedKeys(lower, seed, entries);
            keys[i] == keys[j] ==> IsReserved(keys[i])
  {
    var keys := AssignedKeys(lower, seed, entries);
    KeyCases(lower, configured, seed, entries, i);
    KeyCases(lower, configured, seed, entries, j);
    StealsAliasExactly(lower, configured, seed, entries, i, j);
    StealsAliasExactly(lower, configured, seed, entries, j, i);
    ConsoleKeyIsReserved(entries[i].userId);
    ConsoleKeyIsReserved(entries[j].userId);
    assert keys[i] in keys[..j];
    if ConsoleKey(entries[i].userId) == ConsoleKey(entries[j].userId) {
      ConsoleKeyInjective(entries[i].userId, entries[j].userId);
    }
  }

  /** What `validate_slug` promises of every slug. */
  ghost predicate NoReservedSlug(entries: seq<ConsoleIdentity>) {
    forall slug | slug in Slugs(entries) :: !IsReserved(slug)
  }

  lemma KeysAreDistinct(lower: Folding, configured: map<string, UserConfig>, seed: Seed, entries: seq<ConsoleIdentity>)
    requires IsSeed(lower, configured, seed) && Ascending(entries) && NoReservedSlug(entries)
    ensures Distinct(AssignedKeys(lower, seed, entries))
  {
    var keys := AssignedKeys(lower, seed, entries);
    forall i, j | 0 <= i < j < |keys| ensures keys[i] != keys[j] {
      KeysClashExactly(lower, configured, seed, entries, i, j);
      assert entries[i] in entries && entries[j] in entries;
      ConsoleKeyIsReserved(entries[i].userId);
      ConsoleKeyIsReserved(entries[j].userId);
    }
  }

  // --- What keys depend on ------------------------------------------------

  /** The part of an entry its key depends on. */
  ghost predicate SameClaim(lower: Folding, a: ConsoleIdentity, b: ConsoleIdentity) {
    && a.userId == b.userId
    && ExplicitSlug(a) == ExplicitSlug(b)
    && EmailKey(lower, a.loginEmail) == EmailKey(lower, b.loginEmail)
  }

  ghost predicate SameClaims(lower: Folding, a: seq<ConsoleIdentity>, b: seq<ConsoleIdentity>) {
    |a| == |b| && forall i | 0 <= i < |a| :: SameClaim(lower, a[i], b[i])
  }

  lemma SlugsDependOnClaims(lower: Folding, a: seq<ConsoleIdentity>, b: seq<ConsoleIdentity>)
    requires SameClaims(lower, a, b)
    ensures Slugs(a) <= Slugs(b)
  {
  }

  lemma NextKeyDependsOnClaims(lower: Folding, seed: Seed, a: seq<ConsoleIdentity>, b: seq<ConsoleIdentity>,
                               earlier: seq<string>)
    requires SameClaims(lower, a, b) && Slugs(a) == Slugs(b) && |earlier| < |a|
    ensures NextKey(lower, seed, a, earlier) == NextKey(lower, seed, b, earlier)
  {
    var n := |earlier|;
    assert SameClaim(lower, a[n], b[n]);
    assert HoldsSlug(a, n) <==> HoldsSlug(b, n);
    assert KeysForEmail(lower, seed, a[n].loginEmail) == KeysForEmail(lower, seed, b[n].loginEmail);
  }

  lemma {:induction false} KeysDependOnClaimsUpTo(lower: Folding, seed: Seed, a: seq<ConsoleIdentity>,
                                                  b: seq<ConsoleIdentity>, n: nat)
    requires SameClaims(lower, a, b) && Slugs(a) == Slugs(b) && n <= |a|
    ensures AssignedUpTo(lower, seed, a, n) == AssignedUpTo(lower, seed, b, n)
  {
    if n == 0 {
    } else {
      KeysDependOnClaimsUpTo(lower, seed, a, b, n - 1);
      NextKeyDependsOnClaims(lower, seed, a, b, AssignedUpTo(lower, seed, a, n - 1));
    }
  }

  /** Nothing about an entry but its id, slug and login email affects anybody's key. */
  lemma KeysDependOnClaims(lower: Folding, seed: Seed, a: seq<ConsoleIdentity>, b: seq<ConsoleIdentity>)
    requires SameClaims(lower, a, b)
    ensures AssignedKeys(lower, seed, a) == AssignedKeys(lower, seed, b)
  {
    SlugsDependOnClaims(lower, a, b);
    SlugsDependOnClaims(lower, b, a);
    KeysDependOnClaimsUpTo(lower, seed, a, b, |a|);
  }
}
