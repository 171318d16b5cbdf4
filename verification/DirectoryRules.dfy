/** What holds of every merged directory. */
module DirectoryRules {
  import opened Text
  import opened Identity
  import opened Seeds
  import opened KeyAssignment
  import opened KeyRules
  import opened Directories

  /** The merge is deterministic: with distinct user ids, every order of the console entries gives
      the same directory. (`SeedIsDetermined` says the same of the config map's order.) */
  lemma MergeIsDeterministic(lower: Folding, seed: Seed, a: seq<ConsoleIdentity>, b: seq<ConsoleIdentity>,
                             builtA: Directory, builtB: Directory)
    requires DistinctIds(a) && multiset(a) == multiset(b)
    requires IsDirectory(lower, seed, a, builtA) && IsDirectory(lower, seed, b, builtB)
    ensures builtA == builtB
  {
    CanonicalIgnoresOrder(a, b);
    forall id ensures Get(builtA.consoles, id) == Get(builtB.consoles, id) {
      assert Get(builtA.consoles, id) == ConsoleIndex(builtA.entries, id);
    }
    forall key ensures Get(builtA.keys, key) == Get(builtB.keys, key) {
      assert Get(builtA.keys, key) == PersonIndex(builtA.entries, builtA.persons, key);
    }
    forall handle ensures Get(builtA.handles, handle) == Get(builtB.handles, handle) {
      assert Get(builtA.handles, handle) == OwnerIndex(lower, builtA.persons, handle);
    }
    SameLookups(builtA.consoles, builtB.consoles);
    SameLookups(builtA.keys, builtB.keys);
    SameLookups(builtA.handles, builtB.handles);
  }

  lemma ConcatAt(a: seq<Person>, b: seq<Person>, i: nat)
    requires i < |a + b|
    ensures (a + b)[i] == if i < |a| then a[i] else b[i - |a|]
  {
  }

  lemma PersonAt(lower: Folding, seed: Seed, entries: seq<ConsoleIdentity>, i: nat)
    requires i < |Persons(lower, seed, entries)|
    ensures |entries| <= |Persons(lower, seed, entries)|
    ensures var keys := AssignedKeys(lower, seed, entries);
            var unclaimed := UnclaimedKeys(seed.users, keys);
            var person := Persons(lower, seed, entries)[i];
            if i < |entries| then
              person == Person(keys[i], Console, entries[i].identities) && person.key in keys
            else
              && i - |entries| < |unclaimed| && person.key in seed.users && person.key !in keys
              && person == Person(unclaimed[i - |entries|], Config, seed.users[unclaimed[i - |entries|]])
  {
    var keys := AssignedKeys(lower, seed, entries);
    ConcatAt(ConsolePersons(entries, keys), ConfigPersons(seed.users, UnclaimedKeys(seed.users, keys)), i);
  }

  lemma ConfigPersonsShareNoKey(lower: Folding, seed: Seed, entries: seq<ConsoleIdentity>, i: nat, j: nat)
    requires i < |Persons(lower, seed, entries)| && j < |Persons(lower, seed, entries)|
    requires i != j && |entries| <= j
    ensures Persons(lower, seed, entries)[i].key != Persons(lower, seed, entries)[j].key
  {
    var unclaimed := UnclaimedKeys(seed.users, AssignedKeys(lower, seed, entries));
    PersonAt(lower, seed, entries, i);
    PersonAt(lower, seed, entries, j);
    if |entries| <= i {
      var u, v := i - |entries|, j - |entries|;
      assert Below(unclaimed[if u < v then u else v], unclaimed[if u < v then v else u]);
      BelowIsIrreflexive(unclaimed[u]);
    }
  }

  /** Only a reserved key can belong to two people. */
  lemma SharedKeyIsReserved(lower: Folding, configured: map<string, UserConfig>, seed: Seed,
                            entries: seq<ConsoleIdentity>, i: nat, j: nat)
    requires IsSeed(lower, configured, seed) && Ascending(entries)
    requires i < |Persons(lower, seed, entries)| && j < |Persons(lower, seed, entries)| && i != j
    requires Persons(lower, seed, entries)[i].key == Persons(lower, seed, entries)[j].key
    ensures i < |entries| && j < |entries|
    ensures IsReserved(Persons(lower, seed, entries)[i].key)
    ensures StealsAlias(lower, seed, entries, i, j) || StealsAlias(lower, seed, entries, j, i)
  {
    if |entries| <= i {
      ConfigPersonsShareNoKey(lower, seed, entries, j, i);
    } else if |entries| <= j {
      ConfigPersonsShareNoKey(lower, seed, entries, i, j);
    } else {
      PersonAt(lower, seed, entries, i);
      PersonAt(lower, seed, entries, j);
      KeysClashExactly(lower, configured, seed, entries, if i < j then i else j, if i < j then j else i);
    }
  }

  /** Every config key that is kept belongs to exactly one person: the console person that
      overrides it, or its own config entry, unchanged. This needs no assumption on slugs. */
  lemma EveryConfigKeyHasOnePerson(lower: Folding, configured: map<string, UserConfig>, seed: Seed,
                                   entries: seq<ConsoleIdentity>, key: string) returns (i: nat)
    requires IsSeed(lower, configured, seed) && Ascending(entries)
    requires key in configured && !IsReserved(key)
    ensures var persons := Persons(lower, seed, entries);
            && i < |persons| && persons[i].key == key
            && (forall j | 0 <= j < |persons| && persons[j].key == key :: j == i)
            && (persons[i].origin == Config ==> persons[i].user == configured[key])
            && (persons[i].origin == Console <==> key in AssignedKeys(lower, seed, entries))
  {
    var keys := AssignedKeys(lower, seed, entries);
    var persons := Persons(lower, seed, entries);
    var unclaimed := UnclaimedKeys(seed.users, keys);
    if key in keys {
      i :| 0 <= i < |keys| && keys[i] == key;
    } else {
      var u :| 0 <= u < |unclaimed| && unclaimed[u] == key;
      i := |entries| + u;
    }
    PersonAt(lower, seed, entries, i);
    forall j | 0 <= j < |persons| && persons[j].key == key ensures j == i {
      if j != i {
        SharedKeyIsReserved(lower, configured, seed, entries, i, j);
      }
    }
  }

  /** Without reserved slugs, person keys are pairwise distinct. */
  lemma PersonKeysAreDistinct(lower: Folding, configured: map<string, UserConfig>, seed: Seed, entries: seq<ConsoleIdentity>)
    requires IsSeed(lower, configured, seed) && Ascending(entries) && NoReservedSlug(entries)
    ensures var persons := Persons(lower, seed, entries);
            forall i, j | 0 <= i < j < |persons| :: persons[i].key != persons[j].key
  {
    var persons := Persons(lower, seed, entries);
    forall i, j | 0 <= i < j < |persons| ensures persons[i].key != persons[j].key {
      if persons[i].key == persons[j].key {
        SharedKeyIsReserved(lower, configured, seed, entries, i, j);
        KeysAreDistinct(lower, configured, seed, entries);
        PersonAt(lower, seed, entries, i);
        PersonAt(lower, seed, entries, j);
      }
    }
  }

  /** Every console user stays reachable under `console-<id>`, whatever slug anybody holds. */
  lemma AliasReachesItsUser(entries: seq<ConsoleIdentity>, persons: seq<Person>, i: nat)
    requires Ascending(entries) && i < |entries|
    ensures PersonIndex(entries, persons, ConsoleKey(entries[i].userId)) == Some(i)
  {
    var found := AliasIndex(entries, ConsoleKey(entries[i].userId)).value;
    ConsoleKeyInjective(entries[found].userId, entries[i].userId);
    IdOrder(entries, found, i);
  }

  /** Person `i` goes by the alias of another console user. */
  ghost predicate UsesForeignAlias(entries: seq<ConsoleIdentity>, i: nat) {
    && i < |entries| && HoldsSlug(entries, i)
    && exists j | 0 <= j < |entries| && j != i :: ExplicitSlug(entries[i]) == Some(ConsoleKey(entries[j].userId))
  }

  /** Looking a person up by their own key finds them again, unless they go by the alias of
      another console user. In that case, and only then, the alias wins. */
  lemma OwnKeyFindsPersonExactly(lower: Folding, configured: map<string, UserConfig>, seed: Seed,
                                 entries: seq<ConsoleIdentity>, i: nat)
    requires IsSeed(lower, configured, seed) && Ascending(entries)
    requires i < |Persons(lower, seed, entries)|
    ensures var persons := Persons(lower, seed, entries);
            PersonIndex(entries, persons, persons[i].key) == Some(i) <==> !UsesForeignAlias(entries, i)
  {
    var persons := Persons(lower, seed, entries);
    var keys := AssignedKeys(lower, seed, entries);
    PersonAt(lower, seed, entries, i);
    if i < |entries| {
      KeyCases(lower, configured, seed, entries, i);
    }
    match AliasIndex(entries, persons[i].key) {
      case Some(a) =>
        ConsoleKeyIsReserved(entries[a].userId);
        if a != i && i < |entries| && !HoldsSlug(entries, i) {
          ConsoleKeyInjective(entries[a].userId, entries[i].userId);
          IdOrder(entries, a, i);
        }
        if a == i && UsesForeignAlias(entries, i) {
          var j :| 0 <= j < |entries| && j != i && ExplicitSlug(entries[i]) == Some(ConsoleKey(entries[j].userId));
          AliasReachesItsUser(entries, persons, j);
        }
      case None =>
        var found := KeyIndex(persons, persons[i].key).value;
        if found != i {
          SharedKeyIsReserved(lower, configured, seed, entries, found, i);
        }
    }
  }

  lemma NoForeignAliases(entries: seq<ConsoleIdentity>, i: nat)
    requires NoReservedSlug(entries)
    ensures !UsesForeignAlias(entries, i)
  {
    if i < |entries| && ExplicitSlug(entries[i]).Some? {
      assert entries[i] in entries;
      assert !IsReserved(ExplicitSlug(entries[i]).value);
      forall j | 0 <= j < |entries| ensures ExplicitSlug(entries[i]) != Some(ConsoleKey(entries[j].userId)) {
        ConsoleKeyIsReserved(entries[j].userId);
      }
    }
  }

  // --- Predicting a key ---------------------------------------------------

  function Without(entries: seq<ConsoleIdentity>, userId: int): seq<ConsoleIdentity> {
    if entries == [] then
      []
    else
      (if entries[0].userId == userId then [] else [entries[0]]) + Without(entries[1..], userId)
  }

  /** `entry` replaces any stored entry of the same user. */
  function Replaced(entries: seq<ConsoleIdentity>, entry: ConsoleIdentity): seq<ConsoleIdentity> {
    Without(entries, entry.userId) + [entry]
  }

  lemma {:induction false} ReplacedFirst(entries: seq<ConsoleIdentity>, entry: ConsoleIdentity, id: int)
    ensures FirstWithId(Replaced(entries, entry), id) ==
            if id == entry.userId then Some(entry) else FirstWithId(entries, id)
  {
    if entries != [] {
      ReplacedFirst(entries[1..], entry, id);
      var rest := Replaced(entries[1..], entry);
      if entries[0].userId == entry.userId {
        assert Replaced(entries, entry) == rest;
      } else {
        assert Replaced(entries, entry) == [entries[0]] + rest;
        assert Replaced(entries, entry)[1..] == rest;
      }
    } else {
      assert Replaced(entries, entry) == [entry];
    }
  }

  /** The canonical entries once `entry` replaces any stored one of the same user. */
  function Rebuilt(given: seq<ConsoleIdentity>, entry: ConsoleIdentity): (entries: seq<ConsoleIdentity>)
    ensures exists i :: 0 <= i < |entries| && entries[i] == entry
    ensures Ascending(entries)
  {
    var entries := Canonical(Replaced(given, entry));
    CanonicalExact(Replaced(given, entry));
    ReplacedFirst(given, entry, entry.userId);
    FirstWithIdIsMember(entries, entry.userId);
    entries
  }

  /** The key a rebuilt directory gives the user of `entry` once `entry` replaces any stored one. */
  function RebuiltKey(lower: Folding, seed: Seed, given: seq<ConsoleIdentity>, entry: ConsoleIdentity): string {
    var entries := Rebuilt(given, entry);
    var i := ConsoleIndex(entries, entry.userId);
    AssignedKeys(lower, seed, entries)[i.value]
  }

  lemma RebuiltIndex(given: seq<ConsoleIdentity>, entry: ConsoleIdentity, i: nat)
    requires i < |Rebuilt(given, entry)| && Rebuilt(given, entry)[i].userId == entry.userId
    ensures ConsoleIndex(Rebuilt(given, entry), entry.userId) == Some(i)
    ensures Rebuilt(given, entry)[i] == entry
  {
  }

  /** Replacing in the stored entries and in the entries they came from is the same. */
  lemma RebuiltFromStored(given: seq<ConsoleIdentity>, entry: ConsoleIdentity)
    ensures Rebuilt(Canonical(given), entry) == Rebuilt(given, entry)
  {
    var a, b := Replaced(Canonical(given), entry), Replaced(given, entry);
    CanonicalExact(given);
    CanonicalExact(a);
    CanonicalExact(b);
    forall id ensures FirstWithId(Canonical(a), id) == FirstWithId(Canonical(b), id) {
      ReplacedFirst(Canonical(given), entry, id);
      ReplacedFirst(given, entry, id);
    }
    AscendingEntriesAreUnique(Canonical(a), Canonical(b));
  }

  /** A stored entry is replaced in place. */
  lemma RebuiltInPlace(given: seq<ConsoleIdentity>, entry: ConsoleIdentity, i: nat)
    requires i < |Canonical(given)| && Canonical(given)[i].userId == entry.userId
    ensures Rebuilt(given, entry) == Canonical(given)[i := entry]
  {
    var stored := Canonical(given);
    var updated := stored[i := entry];
    CanonicalExact(given);
    CanonicalExact(Replaced(given, entry));
    forall id ensures FirstWithId(Rebuilt(given, entry), id) == FirstWithId(updated, id) {
      ReplacedFirst(given, entry, id);
      FirstWithIdIsMember(updated, id);
      FirstWithIdIsMember(stored, id);
      if k :| 0 <= k < |stored| && stored[k].userId == id {
        FirstWithIdFinds(stored, k);
        FirstWithIdFinds(updated, k);
        IdOrder(stored, i, k);
      } else {
        assert forall k | 0 <= k < |updated| :: updated[k].userId == stored[k].userId;
      }
    }
    AscendingEntriesAreUnique(Rebuilt(given, entry), updated);
  }

  /** The shortcut of `stored_key` is sound: when slug and login email are unchanged, the stored
      key is the key a full rebuild would give. */
  lemma StoredKeyIsRebuiltKey(lower: Folding, seed: Seed, given: seq<ConsoleIdentity>, entry: ConsoleIdentity, i: nat)
    requires i < |Canonical(given)| && SameClaim(lower, Canonical(given)[i], entry)
    ensures AssignedKeys(lower, seed, Canonical(given))[i] == RebuiltKey(lower, seed, given, entry)
  {
    RebuiltInPlace(given, entry, i);
    KeysDependOnClaims(lower, seed, Canonical(given), Rebuilt(given, entry));
    RebuiltIndex(given, entry, i);
  }

  /** A stored user with a lower id holds the explicit slug of `entry`. */
  ghost predicate LowerIdHasSlug(given: seq<ConsoleIdentity>, entry: ConsoleIdentity) {
    exists e | e in Canonical(given) :: e.userId < entry.userId && ExplicitSlug(e) == ExplicitSlug(entry)
  }

  /** In the rebuilt directory the config keys for the login email of `entry` run out before it. */
  predicate RunsOutRebuilt(lower: Folding, seed: Seed, given: seq<ConsoleIdentity>, entry: ConsoleIdentity) {
    var entries := Rebuilt(given, entry);
    RunsOut(lower, seed, entries, ConsoleIndex(entries, entry.userId).value)
  }

  /** What `person_key` answers: the explicit slug at once, else the rebuilt key. */
  function PredictedKey(lower: Folding, seed: Seed, given: seq<ConsoleIdentity>, entry: ConsoleIdentity): string {
    match ExplicitSlug(entry)
    case Some(slug) => slug
    case None => RebuiltKey(lower, seed, given, entry)
  }

  lemma HoldsSlugOnceRebuilt(given: seq<ConsoleIdentity>, entry: ConsoleIdentity, i: nat)
    requires ExplicitSlug(entry).Some? && i < |Rebuilt(given, entry)| && Rebuilt(given, entry)[i] == entry
    ensures HoldsSlug(Rebuilt(given, entry), i) <==> !LowerIdHasSlug(given, entry)
  {
    var entries := Rebuilt(given, entry);
    CanonicalExact(given);
    CanonicalExact(Replaced(given, entry));
    if LowerIdHasSlug(given, entry) {
      var e :| e in Canonical(given) && e.userId < entry.userId && ExplicitSlug(e) == ExplicitSlug(entry);
      var k :| 0 <= k < |Canonical(given)| && Canonical(given)[k] == e;
      FirstWithIdFinds(Canonical(given), k);
      ReplacedFirst(given, entry, e.userId);
      FirstWithIdIsMember(entries, e.userId);
      var j :| 0 <= j < |entries| && entries[j] == e;
      IdOrder(entries, i, j);
    }
    if j :| 0 <= j < i && ExplicitSlug(entries[j]) == ExplicitSlug(entry) {
      FirstWithIdFinds(entries, j);
      ReplacedFirst(given, entry, entries[j].userId);
      FirstWithIdIsMember(Canonical(given), entries[j].userId);
      assert entries[j].userId < entry.userId;
    }
  }

  /** The key that building the directory anew gives the user of `entry`. */
  lemma BuiltKeyIsRebuiltKey(lower: Folding, seed: Seed, given: seq<ConsoleIdentity>, entry: ConsoleIdentity, built: Directory)
    requires IsDirectory(lower, seed, Replaced(given, entry), built)
    ensures entry.userId in built.consoles && built.consoles[entry.userId] < |built.persons|
    ensures built.persons[built.consoles[entry.userId]].key == RebuiltKey(lower, seed, given, entry)
  {
    var i :| 0 <= i < |Rebuilt(given, entry)| && Rebuilt(given, entry)[i] == entry;
    RebuiltIndex(given, entry, i);
    assert Get(built.consoles, entry.userId) == ConsoleIndex(built.entries, entry.userId);
  }

  lemma PredictionIsExact(lower: Folding, configured: map<string, UserConfig>, seed: Seed,
                          given: seq<ConsoleIdentity>, entry: ConsoleIdentity)
    requires IsSeed(lower, configured, seed)
    ensures PredictedKey(lower, seed, given, entry) == RebuiltKey(lower, seed, given, entry) <==>
            || ExplicitSlug(entry).None?
            || !LowerIdHasSlug(given, entry)
            || (ExplicitSlug(entry) == Some(ConsoleKey(entry.userId)) && RunsOutRebuilt(lower, seed, given, entry))
  {
    if ExplicitSlug(entry).Some? {
      var entries := Rebuilt(given, entry);
      var i :| 0 <= i < |entries| && entries[i] == entry;
      RebuiltIndex(given, entry, i);
      HoldsSlugOnceRebuilt(given, entry, i);
      KeyCases(lower, configured, seed, entries, i);
      assert entries[i] in entries && ExplicitSlug(entry).value in Slugs(entries);
      if LowerIdHasSlug(given, entry) {
        FallsBackExactly(lower, configured, seed, entries, i);
      }
    }
  }

  /** Prediction equals rebuild: for the directory `built` once `entry` replaces any stored entry
      of the same user, the predicted key is the key of that user's person, exactly when `entry`
      has no explicit slug or no stored user with a lower id has the same one. The one other case
      needs a reserved slug: the contested slug is the entry's own alias, and the config keys for
      its login email run out, so that the alias is what it gets. */
  lemma PredictionEqualsRebuild(lower: Folding, configured: map<string, UserConfig>, seed: Seed,
                                given: seq<ConsoleIdentity>, entry: ConsoleIdentity, built: Directory)
    requires IsSeed(lower, configured, seed)
    requires IsDirectory(lower, seed, Replaced(given, entry), built)
    ensures entry.userId in built.consoles && built.consoles[entry.userId] < |built.persons|
    ensures PredictedKey(lower, seed, given, entry) == built.persons[built.consoles[entry.userId]].key <==>
            || ExplicitSlug(entry).None?
            || !LowerIdHasSlug(given, entry)
            || (ExplicitSlug(entry) == Some(ConsoleKey(entry.userId)) && RunsOutRebuilt(lower, seed, given, entry))
  {
    BuiltKeyIsRebuiltKey(lower, seed, given, entry, built);
    PredictionIsExact(lower, configured, seed, given, entry);
  }

  /** With a validated slug, the prediction is right iff no lower user id has the same slug. */
  lemma PredictionWithValidSlug(lower: Folding, configured: map<string, UserConfig>, seed: Seed,
                                given: seq<ConsoleIdentity>, entry: ConsoleIdentity, built: Directory)
    requires IsSeed(lower, configured, seed)
    requires IsDirectory(lower, seed, Replaced(given, entry), built)
    requires ExplicitSlug(entry).Some? ==> !IsReserved(ExplicitSlug(entry).value)
    ensures entry.userId in built.consoles && built.consoles[entry.userId] < |built.persons|
    ensures PredictedKey(lower, seed, given, entry) == built.persons[built.consoles[entry.userId]].key <==>
            ExplicitSlug(entry).None? || !LowerIdHasSlug(given, entry)
  {
    PredictionEqualsRebuild(lower, configured, seed, given, entry, built);
    ConsoleKeyIsReserved(entry.userId);
  }

  // --- Where the two laws end ---------------------------------------------

  const NO_HANDLES := UserConfig([], [], [], [], [], None, None, None, None, None, None, None)

  function WithSlug(userId: int, slug: string): ConsoleIdentity {
    ConsoleIdentity(userId, "", "", Some(slug), NO_HANDLES, "")
  }

  /** The prediction can be wrong: user 2 is told they would hold the slug `amy`, which user 1
      already holds, but a rebuild makes them `console-2`. */
  lemma ContestedSlugIsMispredicted(lower: Folding)
    ensures var seed, given, entry := Seed(map[], map[]), [WithSlug(1, "amy")], WithSlug(2, "amy");
            && IsSeed(lower, map[], seed)
            && PredictedKey(lower, seed, given, entry) == "amy"
            && RebuiltKey(lower, seed, given, entry) == "console-2"
  {
    var seed, given, entry := Seed(map[], map[]), [WithSlug(1, "amy")], WithSlug(2, "amy");
    assert seed.users == Kept(map[]);
    assert ExplicitSlug(given[0]) == ExplicitSlug(entry) == Some("amy");
    var entries := Rebuilt(given, entry);
    var i :| 0 <= i < |entries| && entries[i] == entry;
    assert Canonical(given) == given && given[0] in given;
    assert LowerIdHasSlug(given, entry);
    HoldsSlugOnceRebuilt(given, entry, i);
    RebuiltIndex(given, entry, i);
    KeyCases(lower, map[], seed, entries, i);
    assert ConsoleKey(2) == "console-2";
  }

  /** The round trip can fail: user 3 holds the slug `console-5`, the alias of user 5. */
  lemma ForeignAliasBreaksRoundTrip(lower: Folding)
    ensures var seed, entries := Seed(map[], map[]), [WithSlug(3, "console-5"), WithSlug(5, "")];
            var persons := Persons(lower, seed, entries);
            && IsSeed(lower, map[], seed) && |persons| == 2 && persons[0].key == "console-5"
            && PersonIndex(entries, persons, "console-5") == Some(1)
  {
    var seed, entries := Seed(map[], map[]), [WithSlug(3, "console-5"), WithSlug(5, "")];
    assert seed.users == Kept(map[]);
    assert ConsoleKey(5) == "console-5";
    assert ExplicitSlug(entries[0]) == Some("console-5");
    assert HoldsSlug(entries, 0);
    KeyCases(lower, map[], seed, entries, 0);
    PersonAt(lower, seed, entries, 0);
    AliasReachesItsUser(entries, Persons(lower, seed, entries), 1);
  }
}
