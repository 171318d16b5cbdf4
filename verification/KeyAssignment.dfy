/** Who gets which person key: explicit slugs, then login-email matches, then `console-<id>`. */
module KeyAssignment {
  import opened Text
  import opened Identity
  import opened Seeds

  // --- Ordering the entries -----------------------------------------------

  function InsertById(entry: ConsoleIdentity, entries: seq<ConsoleIdentity>): seq<ConsoleIdentity> {
    if entries == [] || entry.userId <= entries[0].userId then
      [entry] + entries
    else
      [entries[0]] + InsertById(entry, entries[1..])
  }

  /** `sort_by_key` on the user id, which is stable. */
  function SortById(entries: seq<ConsoleIdentity>): seq<ConsoleIdentity> {
    if entries == [] then [] else InsertById(entries[0], SortById(entries[1..]))
  }

  /** `dedup_by_key` on the user id: every run keeps its first entry. */
  function DedupById(entries: seq<ConsoleIdentity>): seq<ConsoleIdentity>
    decreases |entries|
  {
    if |entries| < 2 then
      entries
    else if entries[0].userId == entries[1].userId then
      DedupById([entries[0]] + entries[2..])
    else
      [entries[0]] + DedupById(entries[1..])
  }

  /** The entries as a directory stores them. */
  function Canonical(entries: seq<ConsoleIdentity>): seq<ConsoleIdentity> {
    DedupById(SortById(entries))
  }

  function FirstWithId(entries: seq<ConsoleIdentity>, userId: int): Option<ConsoleIdentity> {
    if entries == [] then
      None
    else if entries[0].userId == userId then
      Some(entries[0])
    else
      FirstWithId(entries[1..], userId)
  }

  predicate Ascending(entries: seq<ConsoleIdentity>) {
    forall i, j | 0 <= i < j < |entries| :: entries[i].userId < entries[j].userId
  }

  lemma IdOrder(entries: seq<ConsoleIdentity>, i: nat, j: nat)
    requires Ascending(entries) && i < |entries| && j < |entries|
    ensures entries[i].userId < entries[j].userId <==> i < j
    ensures entries[i].userId == entries[j].userId <==> i == j
  {
    assert i < j ==> entries[i].userId < entries[j].userId;
    assert j < i ==> entries[j].userId < entries[i].userId;
  }

  predicate NonDescending(entries: seq<ConsoleIdentity>) {
    forall i, j | 0 <= i < j < |entries| :: entries[i].userId <= entries[j].userId
  }

  lemma {:induction false} InsertKeepsFirst(entry: ConsoleIdentity, entries: seq<ConsoleIdentity>, userId: int)
    ensures FirstWithId(InsertById(entry, entries), userId) ==
            if entry.userId == userId then Some(entry) else FirstWithId(entries, userId)
  {
    if entries == [] || entry.userId <= entries[0].userId {
      assert ([entry] + entries)[1..] == entries;
    } else {
      InsertKeepsFirst(entry, entries[1..], userId);
      assert InsertById(entry, entries)[1..] == InsertById(entry, entries[1..]);
    }
  }

  lemma {:induction false} InsertIsNonDescending(entry: ConsoleIdentity, entries: seq<ConsoleIdentity>)
    requires NonDescending(entries)
    ensures NonDescending(InsertById(entry, entries))
    ensures forall e :: e in InsertById(entry, entries) <==> e == entry || e in entries
  {
    if entries != [] && entries[0].userId < entry.userId {
      InsertIsNonDescending(entry, entries[1..]);
      var inserted := InsertById(entry, entries[1..]);
      assert entries == [entries[0]] + entries[1..];
      assert forall i | 0 <= i < |inserted| :: inserted[i] in inserted;
    }
  }

  lemma {:induction false} SortIsStable(entries: seq<ConsoleIdentity>)
    ensures NonDescending(SortById(entries))
    ensures forall id :: FirstWithId(SortById(entries), id) == FirstWithId(entries, id)
  {
    if entries == [] {
    } else {
      SortIsStable(entries[1..]);
      InsertIsNonDescending(entries[0], SortById(entries[1..]));
      forall id ensures FirstWithId(SortById(entries), id) == FirstWithId(entries, id) {
        InsertKeepsFirst(entries[0], SortById(entries[1..]), id);
      }
    }
  }

  lemma {:induction false} DedupIsAscending(entries: seq<ConsoleIdentity>)
    requires NonDescending(entries)
    ensures Ascending(DedupById(entries))
    ensures forall id :: FirstWithId(DedupById(entries), id) == FirstWithId(entries, id)
    ensures |DedupById(entries)| <= |entries| && (entries != [] ==> DedupById(entries) != [])
    ensures entries != [] ==> DedupById(entries)[0] == entries[0]
    decreases |entries|
  {
    if |entries| < 2 {
    } else {
      if entries[0].userId == entries[1].userId {
        var shorter := [entries[0]] + entries[2..];
        DedupIsAscending(shorter);
        assert shorter[1..] == entries[1..][1..];
      } else {
        var rest := DedupById(entries[1..]);
        DedupIsAscending(entries[1..]);
        assert ([entries[0]] + rest)[1..] == rest;
        assert rest[0] == entries[1];
        assert forall i | 0 <= i < |rest| :: entries[0].userId < rest[i].userId;
      }
    }
  }

  /** A directory holds, in ascending order, the first entry given for every user id. */
  lemma CanonicalExact(entries: seq<ConsoleIdentity>)
    ensures Ascending(Canonical(entries))
    ensures forall id :: FirstWithId(Canonical(entries), id) == FirstWithId(entries, id)
  {
    SortIsStable(entries);
    DedupIsAscending(SortById(entries));
  }

  lemma {:induction false} FirstWithIdFinds(entries: seq<ConsoleIdentity>, i: nat)
    requires Ascending(entries) && i < |entries|
    ensures FirstWithId(entries, entries[i].userId) == Some(entries[i])
  {
    if i == 0 {
    } else {
      assert entries[0].userId < entries[i].userId;
      FirstWithIdFinds(entries[1..], i - 1);
    }
  }

  lemma {:induction false} FirstWithIdIsMember(entries: seq<ConsoleIdentity>, id: int)
    ensures match FirstWithId(entries, id)
            case Some(e) => e in entries && e.userId == id
            case None => forall e | e in entries :: e.userId != id
  {
    if entries != [] && entries[0].userId != id {
      FirstWithIdIsMember(entries[1..], id);
      assert entries == [entries[0]] + entries[1..];
    }
  }

  /** Ascending entries are determined by the entry of every id. */
  lemma {:induction false} AscendingEntriesAreUnique(a: seq<ConsoleIdentity>, b: seq<ConsoleIdentity>)
    requires Ascending(a) && Ascending(b)
    requires forall id :: FirstWithId(a, id) == FirstWithId(b, id)
    ensures a == b
  {
    if a == [] && b == [] {
      return;
    }
    if a != [] { FirstWithIdIsMember(b, a[0].userId); assert FirstWithId(a, a[0].userId) == Some(a[0]); }
    if b != [] { FirstWithIdIsMember(a, b[0].userId); assert FirstWithId(b, b[0].userId) == Some(b[0]); }
    assert a != [] && b != [] && a[0] in b && b[0] in a;
    assert a[0] == b[0];
    forall id ensures FirstWithId(a[1..], id) == FirstWithId(b[1..], id) {
      assert FirstWithId(a, id) == FirstWithId(b, id);
      FirstWithIdIsMember(a[1..], id);
      FirstWithIdIsMember(b[1..], id);
    }
    AscendingEntriesAreUnique(a[1..], b[1..]);
    assert a == [a[0]] + a[1..] && b == [b[0]] + b[1..];
  }

  predicate DistinctIds(entries: seq<ConsoleIdentity>) {
    forall i, j | 0 <= i < j < |entries| :: entries[i].userId != entries[j].userId
  }

  /** With distinct user ids, the order in which the entries are given does not matter. */
  lemma CanonicalIgnoresOrder(a: seq<ConsoleIdentity>, b: seq<ConsoleIdentity>)
    requires DistinctIds(a) && multiset(a) == multiset(b)
    ensures Canonical(a) == Canonical(b)
  {
    CanonicalExact(a);
    CanonicalExact(b);
    forall id ensures FirstWithId(Canonical(a), id) == FirstWithId(Canonical(b), id) {
      FirstWithIdIsMember(a, id);
      FirstWithIdIsMember(b, id);
      assert forall e :: e in a <==> e in multiset(a);
      assert forall e :: e in b <==> e in multiset(b);
    }
    AscendingEntriesAreUnique(Canonical(a), Canonical(b));
  }

  // --- The assignment, one entry at a time --------------------------------

  /** Entry `i` has an explicit slug and no lower user id has the same one. */
  predicate HoldsSlug(entries: seq<ConsoleIdentity>, i: nat)
    requires i < |entries|
  {
    && ExplicitSlug(entries[i]).Some?
    && forall j | 0 <= j < i :: ExplicitSlug(entries[j]) != ExplicitSlug(entries[i])
  }

  function Slugs(entries: seq<ConsoleIdentity>): set<string> {
    set e | e in entries && ExplicitSlug(e).Some? :: ExplicitSlug(e).value
  }

  /** The position of the first candidate nobody has taken. */
  function FirstFree(candidates: seq<string>, taken: set<string>): (r: Option<nat>)
    ensures r.Some? ==> r.value < |candidates| && candidates[r.value] !in taken
    ensures r.Some? ==> forall j | 0 <= j < r.value :: candidates[j] in taken
    ensures r.None? ==> forall j | 0 <= j < |candidates| :: candidates[j] in taken
  {
    First(candidates, (c: string) => c !in taken)
  }

  /** The key of the entry after those holding `earlier`: a single pass by ascending user id. */
  function NextKey(lower: Folding, seed: Seed, entries: seq<ConsoleIdentity>, earlier: seq<string>): string
    requires |earlier| < |entries|
  {
    var entry := entries[|earlier|];
    if HoldsSlug(entries, |earlier|) then
      ExplicitSlug(entry).value
    else
      var candidates := KeysForEmail(lower, seed, entry.loginEmail);
      match FirstFree(candidates, Slugs(entries) + Elements(earlier))
      case Some(m) => candidates[m]
      case None => ConsoleKey(entry.userId)
  }

  function AssignedUpTo(lower: Folding, seed: Seed, entries: seq<ConsoleIdentity>, n: nat): (keys: seq<string>)
    requires n <= |entries|
    ensures |keys| == n
  {
    if n == 0 then
      []
    else
      var earlier := AssignedUpTo(lower, seed, entries, n - 1);
      earlier + [NextKey(lower, seed, entries, earlier)]
  }

  /** The person keys of `entries`, aligned by index. */
  function AssignedKeys(lower: Folding, seed: Seed, entries: seq<ConsoleIdentity>): (keys: seq<string>)
    ensures |keys| == |entries|
  {
    AssignedUpTo(lower, seed, entries, |entries|)
  }

  lemma {:induction false} AssignedPrefix(lower: Folding, seed: Seed, entries: seq<ConsoleIdentity>, m: nat, n: nat)
    requires m <= n <= |entries|
    ensures AssignedUpTo(lower, seed, entries, n)[..m] == AssignedUpTo(lower, seed, entries, m)
  {
    if m < n {
      AssignedPrefix(lower, seed, entries, m, n - 1);
      assert AssignedUpTo(lower, seed, entries, n)[..m] == AssignedUpTo(lower, seed, entries, n - 1)[..m];
    } else {
      assert AssignedUpTo(lower, seed, entries, n)[..n] == AssignedUpTo(lower, seed, entries, n);
    }
  }

  lemma AssignedAt(lower: Folding, seed: Seed, entries: seq<ConsoleIdentity>, i: nat)
    requires i < |entries|
    ensures AssignedKeys(lower, seed, entries)[..i] == AssignedUpTo(lower, seed, entries, i)
    ensures AssignedKeys(lower, seed, entries)[i] ==
            NextKey(lower, seed, entries, AssignedKeys(lower, seed, entries)[..i])
  {
    AssignedPrefix(lower, seed, entries, i, |entries|);
    AssignedPrefix(lower, seed, entries, i + 1, |entries|);
    assert AssignedKeys(lower, seed, entries)[i] == AssignedKeys(lower, seed, entries)[..i + 1][i];
  }

  // --- The two passes of the source ---------------------------------------

  /** The explicit slugs of the first `n` entries. */
  lemma SlugsOfPrefix(entries: seq<ConsoleIdentity>, n: nat)
    requires n < |entries|
    ensures Slugs(entries[..n + 1]) ==
            Slugs(entries[..n]) + if ExplicitSlug(entries[n]).Some? then {ExplicitSlug(entries[n]).value} else {}
    ensures HoldsSlug(entries, n) <==>
            ExplicitSlug(entries[n]).Some? && ExplicitSlug(entries[n]).value !in Slugs(entries[..n])
  {
  }

  /** A slug is set, and not blank. */
  predicate HasSlug(entry: ConsoleIdentity) {
    entry.slug.Some? && Trim(entry.slug.value) != ""
  }

  /** The first pass of `assign_keys`. */
  method ClaimSlugs(entries: seq<ConsoleIdentity>) returns (keys: seq<Option<string>>, claimed: set<string>)
    ensures |keys| == |entries| && claimed == Slugs(entries)
    ensures forall i | 0 <= i < |entries| ::
              keys[i] == if HoldsSlug(entries, i) then ExplicitSlug(entries[i]) else None
    ensures forall i | 0 <= i < |entries| :: keys[i] ==
              if HasSlug(entries[i]) && forall j | 0 <= j < i ::
                   !(HasSlug(entries[j]) && Trim(entries[j].slug.value) == Trim(entries[i].slug.value))
              then Some(Trim(entries[i].slug.value)) else None
  {
    keys, claimed := seq(|entries|, _ => None), {};
    for i := 0 to |entries|
      invariant |keys| == |entries| && claimed == Slugs(entries[..i])
      invariant forall j | 0 <= j < i :: keys[j] == if HoldsSlug(entries, j) then ExplicitSlug(entries[j]) else None
      invariant forall j | i <= j < |entries| :: keys[j] == None
    {
      SlugsOfPrefix(entries, i);
      match ExplicitSlug(entries[i]) {
        case Some(slug) =>
          if slug !in claimed {
            keys := keys[i := Some(slug)];
          }
          claimed := claimed + {slug};
        case None =>
      }
    }
    assert entries[..|entries|] == entries;
  }

  /** What `claimed` must say of a config key for the second pass to agree with `NextKey`. */
  ghost predicate ClaimsExactly(claimed: set<string>, entries: seq<ConsoleIdentity>, earlier: seq<string>) {
    forall c | !IsReserved(c) :: c in claimed <==> c in Slugs(entries) || c in earlier
  }

  /** The last step of `assign_keys`: whoever got no key falls back to `console-<id>`. */
  function OrFallback(key: Option<string>, entry: ConsoleIdentity): string {
    match key
    case Some(k) => k
    case None => ConsoleKey(entry.userId)
  }

  /** Only kept config keys are candidates, so no candidate is reserved. */
  predicate NoneReserved(candidates: seq<string>) {
    forall m | 0 <= m < |candidates| :: !IsReserved(candidates[m])
  }

  lemma CandidatesAreNotReserved(lower: Folding, configured: map<string, UserConfig>, seed: Seed, email: string)
    requires IsSeed(lower, configured, seed)
    ensures NoneReserved(KeysForEmail(lower, seed, email))
  {
    KeysForEmailExact(lower, configured, seed, email);
    var keys := KeysForEmail(lower, seed, email);
    assert forall m | 0 <= m < |keys| :: keys[m] in keys;
  }

  /** One step of the second pass, for an entry that holds no slug. */
  method MatchByEmail(entries: seq<ConsoleIdentity>, candidates: seq<string>, claimed: set<string>, ghost earlier: seq<string>)
    returns (key: Option<string>, claimed': set<string>)
    requires NoneReserved(candidates) && ClaimsExactly(claimed, entries, earlier)
    ensures var found := FirstFree(candidates, Slugs(entries) + Elements(earlier));
            key == if found.Some? then Some(candidates[found.value]) else None
    ensures claimed' == if key.Some? then claimed + {key.value} else claimed
  {
    var found := FirstFree(candidates, claimed);
    assert found == FirstFree(candidates, Slugs(entries) + Elements(earlier));
    if found.Some? {
      return Some(candidates[found.value]), claimed + {candidates[found.value]};
    }
    return None, claimed;
  }

  /** `assign_keys`: both passes together give every entry its key of the single pass. */
  method AssignKeys(lower: Folding, seed: Seed, entries: seq<ConsoleIdentity>, ghost configured: map<string, UserConfig>)
    returns (result: seq<string>)
    requires IsSeed(lower, configured, seed)
    ensures result == AssignedKeys(lower, seed, entries)
  {
    var keys, claimed := ClaimSlugs(entries);
    ghost var earlier := [];
    for i := 0 to |entries|
      invariant |keys| == |entries|
      invariant forall j | i <= j < |entries| :: keys[j] == if HoldsSlug(entries, j) then ExplicitSlug(entries[j]) else None
      invariant earlier == AssignedUpTo(lower, seed, entries, i)
      invariant forall j | 0 <= j < i :: earlier[j] == OrFallback(keys[j], entries[j])
      invariant ClaimsExactly(claimed, entries, earlier)
    {
      var key := keys[i];
      if key.None? {
        CandidatesAreNotReserved(lower, configured, seed, entries[i].loginEmail);
        key, claimed := MatchByEmail(entries, KeysForEmail(lower, seed, entries[i].loginEmail), claimed, earlier);
        ConsoleKeyIsReserved(entries[i].userId);
      } else {
        assert key.value in Slugs(entries) by { assert entries[i] in entries; }
      }
      assert NextKey(lower, seed, entries, earlier) == OrFallback(key, entries[i]);
      keys := keys[i := key];
      earlier := earlier + [OrFallback(key, entries[i])];
    }
    result := seq(|entries|, i requires 0 <= i < |entries| => OrFallback(keys[i], entries[i]));
  }
}
