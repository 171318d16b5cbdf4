/** The merged directory: its people, and hash-map indexes that stand for linear searches. */
module Directories {
  import opened Text
  import opened Identity
  import opened Seeds
  import opened KeyAssignment

  datatype IdentityOrigin = Config | Console

  datatype Person = Person(key: string, origin: IdentityOrigin, user: UserConfig)

  datatype Handle = Handle(field: IdentityField, value: string)

  function NewHandle(lower: Folding, field: IdentityField, value: string): Handle {
    Handle(field, ComparisonKey(lower, field, value))
  }

  datatype Directory = Directory(
    entries: seq<ConsoleIdentity>,
    consoles: map<int, nat>,
    persons: seq<Person>,
    keys: map<string, nat>,
    handles: map<Handle, nat>)

  // --- What the directory should answer ----------------------------------

  function ConsolePersons(entries: seq<ConsoleIdentity>, keys: seq<string>): (persons: seq<Person>)
    requires |keys| == |entries|
    ensures |persons| == |entries|
    ensures forall i | 0 <= i < |entries| :: persons[i] == Person(keys[i], Console, entries[i].identities)
  {
    seq(|entries|, i requires 0 <= i < |entries| => Person(keys[i], Console, entries[i].identities))
  }

  function ConfigPersons(users: map<string, UserConfig>, keys: seq<string>): (persons: seq<Person>)
    requires forall i | 0 <= i < |keys| :: keys[i] in users
    ensures |persons| == |keys|
    ensures forall i | 0 <= i < |keys| :: persons[i] == Person(keys[i], Config, users[keys[i]])
  {
    seq(|keys|, i requires 0 <= i < |keys| => Person(keys[i], Config, users[keys[i]]))
  }

  /** The config keys no console person overrides, ascending. */
  function UnclaimedKeys(users: map<string, UserConfig>, claimed: seq<string>): (keys: seq<string>)
    ensures StrictlyAscending(keys)
    ensures forall i | 0 <= i < |keys| :: keys[i] in users && keys[i] !in claimed
    ensures forall k | k in users && k !in claimed :: k in keys
  {
    var keys := Sorted(users.Keys - Elements(claimed));
    assert forall i | 0 <= i < |keys| :: keys[i] in Elements(keys);
    assert forall k | k in users && k !in claimed :: k in Elements(keys);
    keys
  }

  /** Everybody in the order searches go through them: console persons before config persons. */
  function Persons(lower: Folding, seed: Seed, entries: seq<ConsoleIdentity>): seq<Person> {
    var keys := AssignedKeys(lower, seed, entries);
    ConsolePersons(entries, keys) + ConfigPersons(seed.users, UnclaimedKeys(seed.users, keys))
  }

  predicate Claims(lower: Folding, user: UserConfig, handle: Handle) {
    exists value | value in ExclusiveValues(user, handle.field) :: NewHandle(lower, handle.field, value) == handle
  }

  /** Where a linear search for a handle stops. */
  function OwnerIndex(lower: Folding, persons: seq<Person>, handle: Handle): (r: Option<nat>)
    ensures r.Some? ==> r.value < |persons| && Claims(lower, persons[r.value].user, handle)
    ensures r.Some? ==> forall j | 0 <= j < r.value :: !Claims(lower, persons[j].user, handle)
    ensures r.None? ==> forall j | 0 <= j < |persons| :: !Claims(lower, persons[j].user, handle)
  {
    First(persons, (p: Person) => Claims(lower, p.user, handle))
  }

  /** The first person with a key. */
  function KeyIndex(persons: seq<Person>, key: string): (r: Option<nat>)
    ensures r.Some? ==> r.value < |persons| && persons[r.value].key == key
    ensures r.Some? ==> forall j | 0 <= j < r.value :: persons[j].key != key
    ensures r.None? ==> forall j | 0 <= j < |persons| :: persons[j].key != key
  {
    First(persons, (p: Person) => p.key == key)
  }

  /** The first entry whose alias is `key`. */
  function AliasIndex(entries: seq<ConsoleIdentity>, key: string): (r: Option<nat>)
    ensures r.Some? ==> r.value < |entries| && ConsoleKey(entries[r.value].userId) == key
    ensures r.None? ==> forall j | 0 <= j < |entries| :: ConsoleKey(entries[j].userId) != key
  {
    First(entries, (e: ConsoleIdentity) => ConsoleKey(e.userId) == key)
  }

  function ConsoleIndex(entries: seq<ConsoleIdentity>, userId: int): (r: Option<nat>)
    ensures r.Some? ==> r.value < |entries| && entries[r.value].userId == userId
    ensures r.None? ==> forall j | 0 <= j < |entries| :: entries[j].userId != userId
  {
    First(entries, (e: ConsoleIdentity) => e.userId == userId)
  }

  /** The console person whose alias is `key` if there is one, else the first person with that key. */
  function PersonIndex(entries: seq<ConsoleIdentity>, persons: seq<Person>, key: string): Option<nat> {
    match AliasIndex(entries, key)
    case Some(i) => Some(i)
    case None => KeyIndex(persons, key)
  }

  /** `directory` merges `seed` with the console identities `given`, and each of its indexes
      answers exactly as a linear search over its people would. */
  ghost predicate IsDirectory(lower: Folding, seed: Seed, given: seq<ConsoleIdentity>, directory: Directory) {
    && directory.entries == Canonical(given)
    && directory.persons == Persons(lower, seed, directory.entries)
    && (forall id :: Get(directory.consoles, id) == ConsoleIndex(directory.entries, id))
    && (forall key :: Get(directory.keys, key) == PersonIndex(directory.entries, directory.persons, key))
    && (forall handle :: Get(directory.handles, handle) == OwnerIndex(lower, directory.persons, handle))
  }

  // --- Building it --------------------------------------------------------

  /** Prefixes of the searches, for the loops below. */
  lemma KeyIndexStep(persons: seq<Person>, n: nat, key: string)
    requires n < |persons|
    ensures KeyIndex(persons[..n + 1], key) ==
            if KeyIndex(persons[..n], key).Some? then KeyIndex(persons[..n], key)
            else if persons[n].key == key then Some(n) else None
  {
    FirstOfPrefix(persons, n, (p: Person) => p.key == key);
    assert persons[..n + 1] == persons[..n] + [persons[n]];
  }

  lemma OwnerIndexStep(lower: Folding, persons: seq<Person>, n: nat, handle: Handle)
    requires n < |persons|
    ensures OwnerIndex(lower, persons[..n + 1], handle) ==
            if OwnerIndex(lower, persons[..n], handle).Some? then OwnerIndex(lower, persons[..n], handle)
            else if Claims(lower, persons[n].user, handle) then Some(n) else None
  {
    assert persons[..n + 1] == persons[..n] + [persons[n]];
  }

  lemma AliasIndexStep(entries: seq<ConsoleIdentity>, n: nat, key: string)
    requires Ascending(entries) && n < |entries|
    ensures AliasIndex(entries[..n + 1], key) ==
            if key == ConsoleKey(entries[n].userId) then Some(n) else AliasIndex(entries[..n], key)
  {
    assert entries[..n + 1] == entries[..n] + [entries[n]];
    forall j | 0 <= j < n && ConsoleKey(entries[j].userId) == ConsoleKey(entries[n].userId) ensures false {
      ConsoleKeyInjective(entries[j].userId, entries[n].userId);
    }
  }

  lemma ConsoleIndexStep(entries: seq<ConsoleIdentity>, n: nat, id: int)
    requires Ascending(entries) && n < |entries|
    ensures ConsoleIndex(entries[..n + 1], id) ==
            if id == entries[n].userId then Some(n) else ConsoleIndex(entries[..n], id)
  {
    assert entries[..n + 1] == entries[..n] + [entries[n]];
  }

  predicate ClaimsAmong(lower: Folding, field: IdentityField, values: seq<string>, handle: Handle) {
    exists value | value in values :: NewHandle(lower, field, value) == handle
  }

  /** `value` is a handle of `user` for `field`: GitHub and GitLab logins are compared without
      case, notification targets are nobody's handle. */
  ghost predicate IsKnownBy(lower: Folding, user: UserConfig, field: IdentityField, value: string) {
    match field
    case LinearNames => value in user.linearNames
    case GithubUsernames => exists v | v in user.githubUsernames :: lower(v) == lower(value)
    case SentryUsernames => value in user.sentryUsernames
    case JiraUsernames => value in user.jiraUsernames
    case GitlabUsernames => exists v | v in user.gitlabUsernames :: lower(v) == lower(value)
    case DiscordId => user.discordId == Some(value)
    case SlackId => user.slackId == Some(value)
    case _ => false
  }

  lemma HandleClaimExactly(lower: Folding, user: UserConfig, field: IdentityField, value: string)
    ensures Claims(lower, user, NewHandle(lower, field, value)) <==> IsKnownBy(lower, user, field, value)
  {
    var handle := NewHandle(lower, field, value);
    if v :| v in ExclusiveValues(user, field) && NewHandle(lower, field, v) == handle {
      assert IsKnownBy(lower, user, field, value);
    }
    if IsKnownBy(lower, user, field, value) {
      if field in {GithubUsernames, GitlabUsernames} {
        var v :| v in ExclusiveValues(user, field) && lower(v) == lower(value);
        assert NewHandle(lower, field, v) == handle;
      } else {
        assert value in ExclusiveValues(user, field) && NewHandle(lower, field, value) == handle;
      }
    }
  }

  /** `handles.entry(handle).or_insert(index)` for every exclusive value of one person. */
  method ClaimHandles(lower: Folding, handles: map<Handle, nat>, user: UserConfig, index: nat)
    returns (result: map<Handle, nat>)
    ensures forall handle :: Get(result, handle) ==
              if handle in handles then Some(handles[handle])
              else if Claims(lower, user, handle) then Some(index) else None
    ensures forall field, value :: Get(result, NewHandle(lower, field, value)) ==
              if NewHandle(lower, field, value) in handles then Some(handles[NewHandle(lower, field, value)])
              else if IsKnownBy(lower, user, field, value) then Some(index) else None
  {
    result := handles;
    for f := 0 to |EXCLUSIVE|
      invariant forall handle :: Get(result, handle) ==
                  if handle in handles then Some(handles[handle])
                  else if handle.field in EXCLUSIVE[..f] && Claims(lower, user, handle) then Some(index) else None
    {
      var field := EXCLUSIVE[f];
      assert field !in EXCLUSIVE[..f];
      var values := ExclusiveValues(user, field);
      for v := 0 to |values|
        invariant forall handle :: Get(result, handle) ==
                    if handle in handles then Some(handles[handle])
                    else if handle.field in EXCLUSIVE[..f] && Claims(lower, user, handle) then Some(index)
                    else if ClaimsAmong(lower, field, values[..v], handle) then Some(index) else None
      {
        var handle := NewHandle(lower, field, values[v]);
        if handle !in result {
          result := result[handle := index];
        }
        assert values[..v + 1] == values[..v] + [values[v]];
      }
      assert values[..|values|] == values;
      assert EXCLUSIVE[..f + 1] == EXCLUSIVE[..f] + [field];
      assert forall h :: ClaimsAmong(lower, field, values, h) <==> h.field == field && Claims(lower, user, h);
    }
    assert EXCLUSIVE[..|EXCLUSIVE|] == EXCLUSIVE;
    assert forall h | Claims(lower, user, h) :: h.field in EXCLUSIVE;
    forall field, value
      ensures Claims(lower, user, NewHandle(lower, field, value)) <==> IsKnownBy(lower, user, field, value)
    {
      HandleClaimExactly(lower, user, field, value);
    }
  }

  /** The first loop of `Directory::build`: the first person to have a key or handle owns it. */
  method IndexPersons(lower: Folding, persons: seq<Person>) returns (keys: map<string, nat>, handles: map<Handle, nat>)
    ensures forall key :: Get(keys, key) == KeyIndex(persons, key)
    ensures forall handle :: Get(handles, handle) == OwnerIndex(lower, persons, handle)
  {
    keys, handles := map[], map[];
    for index := 0 to |persons|
      invariant forall key :: Get(keys, key) == KeyIndex(persons[..index], key)
      invariant forall handle :: Get(handles, handle) == OwnerIndex(lower, persons[..index], handle)
    {
      ghost var before := keys;
      ghost var owned := handles;
      if persons[index].key !in keys {
        keys := keys[persons[index].key := index];
      }
      handles := ClaimHandles(lower, handles, persons[index].user, index);
      forall key ensures Get(keys, key) == KeyIndex(persons[..index + 1], key) {
        assert Get(before, key) == KeyIndex(persons[..index], key);
        KeyIndexStep(persons, index, key);
      }
      forall handle ensures Get(handles, handle) == OwnerIndex(lower, persons[..index + 1], handle) {
        assert Get(owned, handle) == OwnerIndex(lower, persons[..index], handle);
        OwnerIndexStep(lower, persons, index, handle);
      }
    }
    assert persons[..|persons|] == persons;
  }

  /** The second loop of `Directory::build`: aliases are inserted over the keys. */
  method OverlayAliases(entries: seq<ConsoleIdentity>, ghost persons: seq<Person>, personKeys: map<string, nat>)
    returns (keys: map<string, nat>, consoles: map<int, nat>)
    requires Ascending(entries)
    requires forall key :: Get(personKeys, key) == KeyIndex(persons, key)
    ensures forall id :: Get(consoles, id) == ConsoleIndex(entries, id)
    ensures forall key :: Get(keys, key) == PersonIndex(entries, persons, key)
  {
    keys, consoles := personKeys, map[];
    for index := 0 to |entries|
      invariant forall id :: Get(consoles, id) == ConsoleIndex(entries[..index], id)
      invariant forall key :: Get(keys, key) == PersonIndex(entries[..index], persons, key)
    {
      ghost var before := keys;
      ghost var known := consoles;
      keys := keys[ConsoleKey(entries[index].userId) := index];
      consoles := consoles[entries[index].userId := index];
      forall key ensures Get(keys, key) == PersonIndex(entries[..index + 1], persons, key) {
        assert Get(before, key) == PersonIndex(entries[..index], persons, key);
        AliasIndexStep(entries, index, key);
      }
      forall id ensures Get(consoles, id) == ConsoleIndex(entries[..index + 1], id) {
        assert Get(known, id) == ConsoleIndex(entries[..index], id);
        ConsoleIndexStep(entries, index, id);
      }
    }
    assert entries[..|entries|] == entries;
  }

  /** `Directory::build`. */
  method Build(lower: Folding, seed: Seed, given: seq<ConsoleIdentity>, ghost configured: map<string, UserConfig>)
    returns (directory: Directory)
    requires IsSeed(lower, configured, seed)
    ensures IsDirectory(lower, seed, given, directory)
    ensures forall i, j | |directory.entries| <= i < j < |directory.persons| ::
              ComesFirst(directory.persons[i].key, directory.persons[j].key)
  {
    var entries := DedupById(SortById(given));
    CanonicalExact(given);
    var consoleKeys := AssignKeys(lower, seed, entries, configured);
    var configKeys := UnclaimedKeys(seed.users, consoleKeys);
    AscendingIsSorted(configKeys);
    var persons := ConsolePersons(entries, consoleKeys) + ConfigPersons(seed.users, configKeys);
    var personKeys, handles := IndexPersons(lower, persons);
    var keys, consoles := OverlayAliases(entries, persons, personKeys);
    directory := Directory(entries, consoles, persons, keys, handles);
  }
}
