/** The configured people, with an index from email keys to the config keys that have them. */
module Seeds {
  import opened Text
  import opened Identity

  datatype Seed = Seed(users: map<string, UserConfig>, emails: map<string, seq<string>>)

  /** The email key of a configured person, if they have an email. */
  function ConfiguredEmail(lower: Folding, user: UserConfig): Option<string> {
    match user.email
    case None => None
    case Some(email) => EmailKey(lower, email)
  }

  /** The config entries left after dropping those with a reserved key. */
  function Kept(configured: map<string, UserConfig>): map<string, UserConfig> {
    map k | k in configured && !IsReserved(k) :: configured[k]
  }

  /** The keys among `keys` whose entry has email key `email`. */
  function KeysWithEmail(lower: Folding, users: map<string, UserConfig>, keys: set<string>, email: string): set<string>
    requires keys <= users.Keys
  {
    set k | k in keys && ConfiguredEmail(lower, users[k]) == Some(email)
  }

  /** `seed` is what `configured` loads to: an email lists its keys in ascending order. */
  ghost predicate IsSeed(lower: Folding, configured: map<string, UserConfig>, seed: Seed) {
    && seed.users == Kept(configured)
    && forall email ::
         Get(seed.emails, email) ==
         var keys := KeysWithEmail(lower, seed.users, seed.users.Keys, email);
         if keys == {} then None else Some(Sorted(keys))
  }

  /** The candidates for `email`: what the seed lists under its email key. */
  function KeysForEmail(lower: Folding, seed: Seed, email: string): seq<string> {
    match EmailKey(lower, email)
    case None => []
    case Some(key) => Get(seed.emails, key).GetOr([])
  }

  /** The entry of the first candidate for `email`. */
  function ConfiguredForEmail(lower: Folding, seed: Seed, email: string): Option<(string, UserConfig)> {
    var keys := KeysForEmail(lower, seed, email);
    if keys == [] || keys[0] !in seed.users then None else Some((keys[0], seed.users[keys[0]]))
  }

  /** A key's position in `keys_for_email` is its rank among the matching config keys. */
  lemma KeysForEmailExact(lower: Folding, configured: map<string, UserConfig>, seed: Seed, email: string)
    requires IsSeed(lower, configured, seed)
    ensures var keys := KeysForEmail(lower, seed, email);
            && StrictlyAscending(keys)
            && forall k :: k in keys <==>
                 && k in configured && !IsReserved(k)
                 && EmailKey(lower, email).Some?
                 && ConfiguredEmail(lower, configured[k]) == EmailKey(lower, email)
  {
    var keys := KeysForEmail(lower, seed, email);
    match EmailKey(lower, email)
    case None =>
    case Some(key) =>
      var matching := KeysWithEmail(lower, seed.users, seed.users.Keys, key);
      assert Get(seed.emails, key) == if matching == {} then None else Some(Sorted(matching));
      assert Elements(keys) == matching;
      assert forall k :: k in keys <==> k in matching;
  }

  /** Config key `key` is kept, and its person has the address `email`, but for case and white
      space around it. */
  ghost predicate HasEmail(lower: Folding, configured: map<string, UserConfig>, key: string, email: string) {
    && key in configured && !StartsWith(key, "console-")
    && configured[key].email.Some? && Trim(configured[key].email.value) != "" && Trim(email) != ""
    && lower(Trim(configured[key].email.value)) == lower(Trim(email))
  }

  lemma CandidatesExactly(lower: Folding, configured: map<string, UserConfig>, seed: Seed, email: string)
    requires IsSeed(lower, configured, seed)
    ensures IsSorted(KeysForEmail(lower, seed, email))
    ensures forall k :: k in KeysForEmail(lower, seed, email) <==> HasEmail(lower, configured, k, email)
  {
    KeysForEmailExact(lower, configured, seed, email);
    AscendingIsSorted(KeysForEmail(lower, seed, email));
  }

  /** The lowest kept config key with that email is found, and nothing only if there is none. */
  lemma ConfiguredForEmailIsLowest(lower: Folding, configured: map<string, UserConfig>, seed: Seed, email: string)
    requires IsSeed(lower, configured, seed)
    ensures match ConfiguredForEmail(lower, seed, email)
            case Some((key, user)) =>
              && HasEmail(lower, configured, key, email) && user == configured[key]
              && forall k | HasEmail(lower, configured, k, email) :: k == key || ComesFirst(key, k)
            case None => forall k :: !HasEmail(lower, configured, k, email)
  {
    var keys := KeysForEmail(lower, seed, email);
    CandidatesExactly(lower, configured, seed, email);
    assert keys != [] ==> keys[0] in keys;
  }

  /** What a config loads to, in its own terms. */
  lemma SeedExactly(lower: Folding, configured: map<string, UserConfig>, seed: Seed)
    requires IsSeed(lower, configured, seed)
    ensures forall k :: k in seed.users <==> k in configured && !StartsWith(k, "console-")
    ensures forall k | k in seed.users :: seed.users[k] == configured[k]
    ensures forall email | email in seed.emails :: IsSorted(seed.emails[email])
    ensures forall email, k :: email in seed.emails && k in seed.emails[email] <==>
              && k in seed.users && configured[k].email.Some? && Trim(configured[k].email.value) != ""
              && lower(Trim(configured[k].email.value)) == email
  {
    forall email
      ensures email in seed.emails ==> IsSorted(seed.emails[email])
      ensures forall k :: email in seed.emails && k in seed.emails[email] <==>
                k in seed.users && ConfiguredEmail(lower, seed.users[k]) == Some(email)
    {
      var keys := KeysWithEmail(lower, seed.users, seed.users.Keys, email);
      assert Get(seed.emails, email) == if keys == {} then None else Some(Sorted(keys));
      AscendingIsSorted(Sorted(keys));
      assert forall k :: k in Sorted(keys) <==> k in Elements(Sorted(keys));
      assert forall k :: k in keys <==> k in seed.users && ConfiguredEmail(lower, seed.users[k]) == Some(email);
      assert keys == {} <==> email !in seed.emails;
    }
  }

  lemma SameLookups<K(!new), V>(a: map<K, V>, b: map<K, V>)
    requires forall k :: Get(a, k) == Get(b, k)
    ensures a == b
  {
    assert forall k :: k in a <==> Get(a, k).Some?;
    assert forall k :: k in b <==> Get(b, k).Some?;
    assert forall k | k in a :: Get(a, k) == Some(a[k]) && Get(b, k) == Some(b[k]);
  }

  /** Loading the same config always gives the same seed. */
  lemma SeedIsDetermined(lower: Folding, configured: map<string, UserConfig>, a: Seed, b: Seed)
    requires IsSeed(lower, configured, a) && IsSeed(lower, configured, b)
    ensures a == b
  {
    forall email ensures Get(a.emails, email) == Get(b.emails, email) {
    }
    SameLookups(a.emails, b.emails);
  }

  /** What `emails` holds for `email` once the keys in `done` are pushed: each of them once. */
  ghost predicate Gathered(lower: Folding, users: map<string, UserConfig>, done: set<string>,
                           emails: map<string, seq<string>>, email: string)
    requires done <= users.Keys
  {
    var keys := KeysWithEmail(lower, users, done, email);
    if keys == {} then
      email !in emails
    else
      email in emails && Distinct(emails[email]) && Elements(emails[email]) == keys
  }

  lemma GatherOne(lower: Folding, users: map<string, UserConfig>, done: set<string>, key: string,
                  emails: map<string, seq<string>>, email: string)
    requires done + {key} <= users.Keys && key !in done
    requires Gathered(lower, users, done, emails, email)
    ensures Gathered(lower, users, done + {key},
                     match ConfiguredEmail(lower, users[key])
                     case Some(own) => emails[own := Get(emails, own).GetOr([]) + [key]]
                     case None => emails,
                     email)
  {
    var previous := KeysWithEmail(lower, users, done, email);
    var now := KeysWithEmail(lower, users, done + {key}, email);
    if ConfiguredEmail(lower, users[key]) == Some(email) {
      assert now == previous + {key};
      var listed := Get(emails, email).GetOr([]);
      assert Elements(listed) == previous;
      assert forall i | 0 <= i < |listed| :: listed[i] in Elements(listed);
      assert Elements(listed + [key]) == Elements(listed) + {key};
    } else {
      assert now == previous;
    }
  }

  /** The first loop of `Seed::new`: push every key to the list of its email. */
  method GatherEmails(lower: Folding, users: map<string, UserConfig>) returns (emails: map<string, seq<string>>)
    ensures forall email :: Gathered(lower, users, users.Keys, emails, email)
  {
    emails := map[];
    var pending := users.Keys;
    while pending != {}
      invariant pending <= users.Keys
      invariant forall email :: Gathered(lower, users, users.Keys - pending, emails, email)
    {
      var key :| key in pending;
      ghost var done := users.Keys - pending;
      ghost var before := emails;
      match ConfiguredEmail(lower, users[key]) {
        case Some(email) => emails := emails[email := Get(emails, email).GetOr([]) + [key]];
        case None =>
      }
      pending := pending - {key};
      forall email ensures Gathered(lower, users, users.Keys - pending, emails, email) {
        assert Gathered(lower, users, done, before, email);
        assert users.Keys - pending == done + {key};
        GatherOne(lower, users, done, key, before, email);
      }
    }
    assert users.Keys - pending == users.Keys;
  }

  /** `Seed::new`. Choosing any pending key covers every iteration order of the hash map. */
  method NewSeed(lower: Folding, configured: map<string, UserConfig>) returns (seed: Seed)
    ensures IsSeed(lower, configured, seed)
    ensures forall k :: k in seed.users <==> k in configured && !StartsWith(k, "console-")
    ensures forall k | k in seed.users :: seed.users[k] == configured[k]
    ensures forall email | email in seed.emails :: IsSorted(seed.emails[email])
    ensures forall email, k :: email in seed.emails && k in seed.emails[email] <==>
              && k in seed.users && configured[k].email.Some? && Trim(configured[k].email.value) != ""
              && lower(Trim(configured[k].email.value)) == email
  {
    var users := Kept(configured);
    var emails := GatherEmails(lower, users);
    var left := emails.Keys;
    ghost var gathered := emails;
    while left != {}
      invariant left <= emails.Keys == gathered.Keys
      invariant forall e | e in left :: emails[e] == gathered[e]
      invariant forall e | e in emails && e !in left :: emails[e] == Sorted(Elements(gathered[e]))
    {
      var email :| email in left;
      assert Gathered(lower, users, users.Keys, gathered, email);
      emails := emails[email := SortDistinct(emails[email])];
      left := left - {email};
    }
    forall email
      ensures Get(emails, email) ==
              var keys := KeysWithEmail(lower, users, users.Keys, email);
              if keys == {} then None else Some(Sorted(keys))
    {
      assert Gathered(lower, users, users.Keys, gathered, email);
    }
    seed := Seed(users, emails);
    SeedExactly(lower, configured, seed);
  }
}
