/** The user registry. Every clone refers to the same object, so an update is seen by all. */
module Registry {
  import opened Text
  import opened Identity
  import opened Seeds
  import opened KeyAssignment
  import opened KeyRules
  import opened Directories
  import opened DirectoryRules

  datatype ResolvedUser = ResolvedUser(
    slug: string,
    discordId: Option<string>,
    slackId: Option<string>,
    email: Option<string>,
    pushUserKey: Option<string>,
    smsNumber: Option<string>)

  function Resolved(person: Person): ResolvedUser {
    var user := person.user;
    ResolvedUser(person.key, user.discordId, user.slackId, user.email, user.pushUserKey, user.smsNumber)
  }

  function At(persons: seq<Person>, index: Option<nat>): Option<Person>
    requires index.Some? ==> index.value < |persons|
  {
    match index
    case Some(i) => Some(persons[i])
    case None => None
  }

  /** The person a linear search finds for a handle. */
  function HandleOwner(lower: Folding, persons: seq<Person>, field: IdentityField, value: string): Option<Person> {
    At(persons, OwnerIndex(lower, persons, NewHandle(lower, field, value)))
  }

  /** `owner` is the first person with a property; there is none only if nobody has it. */
  ghost predicate IsFirstWith(owner: Option<Person>, persons: seq<Person>, has: UserConfig -> bool) {
    match owner
    case None => forall i | 0 <= i < |persons| :: !has(persons[i].user)
    case Some(person) =>
      exists i | 0 <= i < |persons| ::
        persons[i] == person && has(person.user) && forall j | 0 <= j < i :: !has(persons[j].user)
  }

  lemma HandleOwnerIsFirst(lower: Folding, persons: seq<Person>, field: IdentityField, value: string)
    ensures IsFirstWith(HandleOwner(lower, persons, field, value), persons,
                        (u: UserConfig) => IsKnownBy(lower, u, field, value))
  {
    forall i | 0 <= i < |persons|
      ensures Claims(lower, persons[i].user, NewHandle(lower, field, value)) <==>
              IsKnownBy(lower, persons[i].user, field, value)
    {
      HandleClaimExactly(lower, persons[i].user, field, value);
    }
  }

  /** What being known by a handle means for each field that is an issue source. */
  lemma KnownBySource(lower: Folding, owner: Option<Person>, persons: seq<Person>, field: IdentityField, value: string)
    requires IsFirstWith(owner, persons, (u: UserConfig) => IsKnownBy(lower, u, field, value))
    ensures field == LinearNames ==> IsFirstWith(owner, persons, (u: UserConfig) => value in u.linearNames)
    ensures field == GithubUsernames ==>
              IsFirstWith(owner, persons,
                            (u: UserConfig) => exists v | v in u.githubUsernames :: lower(v) == lower(value))
    ensures field == SentryUsernames ==> IsFirstWith(owner, persons, (u: UserConfig) => value in u.sentryUsernames)
    ensures field == JiraUsernames ==> IsFirstWith(owner, persons, (u: UserConfig) => value in u.jiraUsernames)
    ensures field == GitlabUsernames ==>
              IsFirstWith(owner, persons,
                            (u: UserConfig) => exists v | v in u.gitlabUsernames :: lower(v) == lower(value))
  {
  }

  /** The person a linear search finds for a key: aliases first. */
  function PersonBySlug(entries: seq<ConsoleIdentity>, persons: seq<Person>, slug: string): Option<Person>
    requires |entries| <= |persons|
  {
    At(persons, PersonIndex(entries, persons, slug))
  }

  /** An entry with the same user id, slug and login email is stored. */
  ghost predicate IsStored(lower: Folding, entries: seq<ConsoleIdentity>, entry: ConsoleIdentity) {
    exists i | 0 <= i < |entries| :: SameClaim(lower, entries[i], entry)
  }

  lemma StoredAt(lower: Folding, given: seq<ConsoleIdentity>, entry: ConsoleIdentity, index: nat)
    requires index < |Canonical(given)| && Canonical(given)[index].userId == entry.userId
    ensures IsStored(lower, Canonical(given), entry) <==> SameClaim(lower, Canonical(given)[index], entry)
  {
    CanonicalExact(given);
    if i :| 0 <= i < |Canonical(given)| && SameClaim(lower, Canonical(given)[i], entry) {
      IdOrder(Canonical(given), i, index);
    }
  }

  lemma {:induction false} InsertIsAscending(entry: ConsoleIdentity, entries: seq<ConsoleIdentity>)
    requires Ascending(entries) && forall e | e in entries :: e.userId != entry.userId
    ensures Ascending(InsertById(entry, entries))
  {
    if entries != [] && entries[0].userId < entry.userId {
      InsertIsAscending(entry, entries[1..]);
      InsertIsNonDescending(entry, entries[1..]);
      var inserted := InsertById(entry, entries[1..]);
      assert forall i | 0 <= i < |inserted| :: inserted[i] in inserted;
      assert forall e | e in entries[1..] :: entries[0].userId < e.userId;
    }
  }

  lemma {:induction false} SortIsAscending(entries: seq<ConsoleIdentity>)
    requires DistinctIds(entries)
    ensures Ascending(SortById(entries))
    ensures forall e :: e in SortById(entries) <==> e in entries
  {
    if entries == [] {
    } else {
      SortIsAscending(entries[1..]);
      var rest := SortById(entries[1..]);
      InsertIsNonDescending(entries[0], rest);
      InsertIsAscending(entries[0], rest);
      assert entries == [entries[0]] + entries[1..];
    }
  }

  lemma {:induction false} WithoutKeepsOthers(entries: seq<ConsoleIdentity>, userId: int)
    requires Ascending(entries)
    ensures DistinctIds(Without(entries, userId))
    ensures forall e | e in Without(entries, userId) :: e in entries && e.userId != userId
  {
    if entries == [] {
    } else {
      WithoutKeepsOthers(entries[1..], userId);
      var rest := Without(entries[1..], userId);
      assert forall i | 0 <= i < |rest| :: rest[i] in rest && rest[i] in entries[1..];
      assert forall e | e in entries[1..] :: entries[0].userId < e.userId;
    }
  }

  /** Sorting alone suffices in `person_key`: the replaced entries have distinct ids. */
  lemma SortedReplacementIsRebuilt(given: seq<ConsoleIdentity>, entry: ConsoleIdentity)
    ensures SortById(Replaced(Canonical(given), entry)) == Rebuilt(given, entry)
  {
    var entries := Replaced(Canonical(given), entry);
    CanonicalExact(given);
    WithoutKeepsOthers(Canonical(given), entry.userId);
    SortIsAscending(entries);
    SortIsStable(entries);
    CanonicalExact(entries);
    AscendingEntriesAreUnique(SortById(entries), Canonical(entries));
    RebuiltFromStored(given, entry);
  }

  class UserRegistry {
    const lower: Folding
    const seed: Seed
    ghost const configured: map<string, UserConfig>
    var directory: Directory
    /** The console identities that were last applied. */
    ghost var given: seq<ConsoleIdentity>

    ghost predicate Valid()
      reads this
    {
      IsSeed(lower, configured, seed) && IsDirectory(lower, seed, given, directory)
    }

    /** The entries and people of the merged directory, as functions of what was applied. */
    ghost function Entries(): seq<ConsoleIdentity>
      reads this
    {
      Canonical(given)
    }

    ghost function People(): (persons: seq<Person>)
      reads this
      ensures |Entries()| <= |persons|
    {
      Persons(lower, seed, Entries())
    }

    constructor (lower: Folding, users: map<string, UserConfig>)
      ensures Valid()
      ensures this.lower == lower && configured == users && given == []
    {
      var loaded := NewSeed(lower, users);
      var built := Build(lower, loaded, [], users);
      this.lower, seed, configured := lower, loaded, users;
      directory, given := built, [];
    }

    /** `replace_console`: the directory is rebuilt from `entries` alone. */
    method ReplaceConsole(entries: seq<ConsoleIdentity>)
      requires Valid()
      modifies this
      ensures Valid() && given == entries
    {
      directory := Build(lower, seed, entries, configured);
      given := entries;
    }

    /** `reload`, for what its `load` returned. */
    method Reload<E>(loaded: Result<seq<ConsoleIdentity>, E>) returns (outcome: Result<(), E>)
      requires Valid()
      modifies this
      ensures Valid()
      ensures loaded.Ok? ==> outcome == Ok(()) && given == loaded.value
      ensures loaded.Err? ==> outcome == Err(loaded.error) && given == old(given) && directory == old(directory)
    {
      match loaded
      case Err(error) => outcome := Err(error);
      case Ok(entries) =>
        ReplaceConsole(entries);
        outcome := Ok(());
    }

    /** `Directory::handle_owner`, through the handle index. */
    method LookUpHandle(field: IdentityField, value: string) returns (person: Option<Person>)
      requires Valid()
      ensures person == HandleOwner(lower, People(), field, value)
      ensures IsFirstWith(person, People(), (u: UserConfig) => IsKnownBy(lower, u, field, value))
    {
      HandleOwnerIsFirst(lower, People(), field, value);
      var handle := NewHandle(lower, field, value);
      assert Get(directory.handles, handle) == OwnerIndex(lower, directory.persons, handle);
      person := if handle in directory.handles then Some(directory.persons[directory.handles[handle]]) else None;
    }

    /** `Directory::person`, through the key index. */
    method LookUpKey(key: string) returns (person: Option<Person>)
      requires Valid()
      ensures person == PersonBySlug(Entries(), People(), key)
    {
      assert Get(directory.keys, key) == PersonIndex(directory.entries, directory.persons, key);
      person := if key in directory.keys then Some(directory.persons[directory.keys[key]]) else None;
    }

    /** `resolve`. `owner` is the person found: each source has its own list of handles. */
    method Resolve(source: string, assignee: string) returns (user: Option<ResolvedUser>, ghost owner: Option<Person>)
      requires Valid()
      ensures user == match owner
                      case None => None
                      case Some(p) => Some(ResolvedUser(p.key, p.user.discordId, p.user.slackId, p.user.email,
                                                        p.user.pushUserKey, p.user.smsNumber))
      ensures EqIgnoreAsciiCase(source, "linear") ==>
                IsFirstWith(owner, People(), (u: UserConfig) => assignee in u.linearNames)
      ensures EqIgnoreAsciiCase(source, "github") ==>
                IsFirstWith(owner, People(),
                            (u: UserConfig) => exists v | v in u.githubUsernames :: lower(v) == lower(assignee))
      ensures EqIgnoreAsciiCase(source, "sentry") ==>
                IsFirstWith(owner, People(), (u: UserConfig) => assignee in u.sentryUsernames)
      ensures EqIgnoreAsciiCase(source, "jira") ==>
                IsFirstWith(owner, People(), (u: UserConfig) => assignee in u.jiraUsernames)
      ensures EqIgnoreAsciiCase(source, "gitlab") ==>
                IsFirstWith(owner, People(),
                            (u: UserConfig) => exists v | v in u.gitlabUsernames :: lower(v) == lower(assignee))
      ensures owner.Some? ==>
                || EqIgnoreAsciiCase(source, "linear") || EqIgnoreAsciiCase(source, "github")
                || EqIgnoreAsciiCase(source, "sentry") || EqIgnoreAsciiCase(source, "jira")
                || EqIgnoreAsciiCase(source, "gitlab")
      ensures SourceField(source).Some? ==> owner == HandleOwner(lower, People(), SourceField(source).value, assignee)
    {
      SourceFieldExactly(source);
      var person := None;
      match SourceField(source) {
        case None =>
        case Some(field) =>
          person := LookUpHandle(field, assignee);
          KnownBySource(lower, person, People(), field, assignee);
      }
      owner := person;
      user := if person.Some? then Some(Resolved(person.value)) else None;
    }

    method GetBySlug(slug: string) returns (user: Option<UserConfig>)
      requires Valid()
      ensures user == match PersonBySlug(Entries(), People(), slug)
                      case Some(person) => Some(person.user)
                      case None => None
    {
      var person := LookUpKey(slug);
      user := if person.Some? then Some(person.value.user) else None;
    }

    /** `owner`: a person from config owns handles but never a slug. */
    method Owner(field: IdentityField, value: string) returns (key: Option<string>, ghost person: Option<Person>)
      requires Valid()
      ensures key == match person
                     case Some(p) => Some(p.key)
                     case None => None
      ensures field == Slug ==>
                person == match PersonBySlug(Entries(), People(), value)
                          case Some(p) => if p.origin == Console then Some(p) else None
                          case None => None
      ensures field != Slug ==> IsFirstWith(person, People(), (u: UserConfig) => IsKnownBy(lower, u, field, value))
      ensures field != Slug ==> person == HandleOwner(lower, People(), field, value)
    {
      var found;
      if field == Slug {
        found := LookUpKey(value);
        if found.Some? && found.value.origin != Console {
          found := None;
        }
      } else {
        found := LookUpHandle(field, value);
      }
      person := found;
      key := if found.Some? then Some(found.value.key) else None;
    }

    /** `Directory::stored_key`: the key of the stored entry of the same user, when slug and
        login email are unchanged. */
    method StoredKey(entry: ConsoleIdentity) returns (key: Option<string>)
      requires Valid()
      ensures key.Some? <==> IsStored(lower, Entries(), entry)
      ensures key.Some? ==> key.value == RebuiltKey(lower, seed, given, entry)
    {
      assert Get(directory.consoles, entry.userId) == ConsoleIndex(directory.entries, entry.userId);
      if entry.userId !in directory.consoles {
        return None;
      }
      var index := directory.consoles[entry.userId];
      var stored := directory.entries[index];
      StoredAt(lower, given, entry, index);
      if ExplicitSlug(stored) == ExplicitSlug(entry)
         && EmailKey(lower, stored.loginEmail) == EmailKey(lower, entry.loginEmail) {
        StoredKeyIsRebuiltKey(lower, seed, given, entry, index);
        return Some(directory.persons[index].key);
      }
      return None;
    }

    /** `person_key`: the explicit slug, else the shortcut, else a full recompute. Whichever
        branch answers, it is the predicted key. */
    method PersonKey(entry: ConsoleIdentity) returns (key: string)
      requires Valid()
      ensures key == PredictedKey(lower, seed, given, entry)
    {
      if ExplicitSlug(entry).Some? {
        return ExplicitSlug(entry).value;
      }
      var stored := StoredKey(entry);
      if stored.Some? {
        return stored.value;
      }
      var entries := SortById(Without(directory.entries, entry.userId) + [entry]);
      SortedReplacementIsRebuilt(given, entry);
      var keys := AssignKeys(lower, seed, entries, configured);
      match ConsoleIndex(entries, entry.userId)
      case Some(i) => return keys[i];
      case None => return ConsoleKey(entry.userId);
    }
  }

  /** Identity round trip in the registry: when `resolve` finds person `i` for a handle, the slug it
      gives them leads `get_by_slug` back to person `i`, iff that slug is not the alias of another
      console user. Without reserved slugs it always does. */
  lemma ResolveThenGetBySlug(registry: UserRegistry, field: IdentityField, value: string, i: nat)
    requires registry.Valid()
    requires OwnerIndex(registry.lower, registry.People(), NewHandle(registry.lower, field, value)) == Some(i)
    ensures var people, entries := registry.People(), registry.Entries();
            && HandleOwner(registry.lower, people, field, value) == Some(people[i])
            && (PersonIndex(entries, people, people[i].key) == Some(i) <==> !UsesForeignAlias(entries, i))
            && (NoReservedSlug(entries) ==> PersonBySlug(entries, people, people[i].key) == Some(people[i]))
  {
    CanonicalExact(registry.given);
    OwnKeyFindsPersonExactly(registry.lower, registry.configured, registry.seed, registry.Entries(), i);
    if NoReservedSlug(registry.Entries()) {
      NoForeignAliases(registry.Entries(), i);
    }
  }
}
