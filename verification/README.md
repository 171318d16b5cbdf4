# Verified model of claudear's identity merge, key cache and security inbox

claudear answers "who is this?" for issue assignees, decides which Cloudflare keys to trust, and
tracks security reports. This project models those parts in Dafny and proves what they promise,
for every input, every interleaving and every reachable state.

- **User registry** (`Text`, `Identity`, `Seeds`, `KeyAssignment`, `KeyRules`, `Directories`,
  `DirectoryRules`, `Registry`, `Reloads`). People configured in TOML are merged with console
  users. Loading, the two-pass key assignment, the hash-map indexes and the registry object are
  imperative and proved against linear searches over ordered lists. On top of these: the
  assignment is exactly the stated priority rule and has a closed form, the merge is
  deterministic, the key predicted for an unsaved entry is the key of a full rebuild under an
  exact condition, and concurrent reloads never go backwards.
- **Cloudflare key cache** (`KeyCache`). `verify` is a state machine whose steps lie between two
  awaits; callers interleave freely, may be cancelled, and a fetch returns what the issuer
  published at some moment while it was under way. The class whose fields `verify` updates is
  proved to do what one uninterrupted caller of the machine does.
- **Security domain** (`FirstReporter`, `SecurityIds`, `ReportStates`). The first-reporter rule
  as a fold, and the mutex, read, conditional-update protocol that applies it; two exact
  parser/printer pairs; the report state machine with a tight length bound.
- **Templates** (`Templates`). The one-pass substitution loop against a tokeniser, an independent
  placeholder scanner and the validator.
- **Two algorithms** (`Relevance`, `Truncation`). Bounded-concurrency judging for every
  completion order, and UTF-8 truncation.

Modelling choices. `str::to_lowercase` is the parameter `lower: Folding`; every theorem holds for
any function in its place. `str::trim` strips the Unicode `White_Space` characters. Hash maps are
`map`s; iterating one picks any remaining key, so proofs cover every iteration order.
`Identities` and `UserConfig` hold the same twelve fields and convert by copying, so one record
stands for both. Integers are unbounded except where text is parsed, where `i64` overflow is
explicit. Instants are nanoseconds on a monotone clock. An award, a lock or an HTTP answer is a
step of a state machine that may happen whenever the source allows it.

Where the code and its documentation differ, the model follows the code:

- `person_key` is documented to foretell the key of an entry in the merged directory. For an
  explicit slug that a lower user id already holds this is not so; `PredictionEqualsRebuild`
  gives the exact condition and `ContestedSlugIsMispredicted` an input.
- Slugs are documented not to start with `console-`, but only writes validate this; the directory
  accepts any stored slug. `KeysClashExactly` and `OwnKeyFindsPersonExactly` say exactly what such
  a slug breaks, and `ForeignAliasBreaksRoundTrip` gives an input.

## Model

| member | source | states |
|---|---|---|
| Seeds.NewSeed | crates/claudear-config/src/users.rs:274-286 | for every iteration order: keys starting with `console-` are dropped, others kept unchanged; each email lists exactly the kept keys whose own trimmed, lowercased email it is, in the order of their first differing character |
| Seeds.CandidatesExactly | crates/claudear-config/src/users.rs:288-293 | the candidates for an email are sorted, and a key is one iff it is kept and has that email but for case and surrounding white space |
| Seeds.ConfiguredForEmailIsLowest | crates/claudear-config/src/users.rs:162-167 | the configured person for an email is the one whose key comes first, character by character, among all that match; none iff nothing matches |
| Seeds.SeedIsDetermined | crates/claudear-config/src/users.rs:274-286 | one config has one seed, whatever the map order |
| KeyAssignment.CanonicalExact | crates/claudear-config/src/users.rs:343-344 | stable sort then dedup keeps, in ascending id order, the first entry given for every user id |
| KeyAssignment.ClaimSlugs | crates/claudear-config/src/users.rs:426-434 | an entry is given its trimmed slug iff that is not blank and no lower user id has the same one; every explicit slug is claimed |
| KeyAssignment.AssignKeys | crates/claudear-config/src/users.rs:425-452 | the two passes give everybody the key of the one-pass specification that looks ahead for slugs |
| KeyRules.AssignmentIsThePriorityRule | crates/claudear-config/src/users.rs:423-452 | a list of keys is the assignment iff each entry follows the rule: own slug unless a lower id has it, else first config key for its email not held by a slug or a lower-id match, else its alias |
| KeyRules.KeyByRank | crates/claudear-config/src/users.rs:423-452 | closed form, from entries and config alone: number r by user id of those with a login email and no slug gets the r-th of the sorted config keys for it that are nobody's slug, or the alias when these run out |
| KeyRules.FallsBackExactly | crates/claudear-config/src/users.rs:435-451 | an entry without a slug gets its alias iff the free keys for its login email run out, iff every config key for it is held |
| KeyRules.EqualEmailsInIdOrder | crates/claudear-config/src/users.rs:435-447 | with equal emails a higher id gets a config key only if the lower id got one that comes first, character by character |
| KeyRules.KeysClashExactly | crates/claudear-config/src/users.rs:428-451 | two console persons share a key iff one holds as slug the alias of the other, who has no slug and for whom the config keys run out; such a key is reserved |
| KeyRules.KeysDependOnClaims | crates/claudear-config/src/users.rs:395-403 | keys depend on id, trimmed slug and folded login email only |
| Directories.ClaimHandles | crates/claudear-config/src/users.rs:374-378 | one person's handles, field by field from their own lists, are added exactly where nobody claimed them before |
| Directories.HandleClaimExactly | crates/claudear-config/src/users.rs:478-501 | a value is a person's handle iff it is in the list of that field, logins of GitHub and GitLab compared lowercased; notification targets never are |
| Directories.IndexPersons | crates/claudear-config/src/users.rs:370-379 | both indexes answer as a first-match search over the persons |
| Directories.OverlayAliases | crates/claudear-config/src/users.rs:380-384 | after the overlay a key finds the console user with that alias, else the first person with that key |
| Directories.Build | crates/claudear-config/src/users.rs:342-393 | the directory holds the canonical entries, console persons, then unclaimed config persons sorted character by character, and three indexes that refine linear search |
| DirectoryRules.MergeIsDeterministic | crates/claudear-config/src/users.rs:342-393 | for distinct ids every permutation of the entries gives the same directory, and so the same answer to every lookup; the map order is `Seeds.SeedIsDetermined` |
| DirectoryRules.EveryConfigKeyHasOnePerson | crates/claudear-config/src/users.rs:347-368 | each kept config key belongs to exactly one person: its console override, or its own entry unchanged; no assumption on slugs |
| DirectoryRules.SharedKeyIsReserved | crates/claudear-config/src/users.rs:347-368 | two persons with one key are console persons and one holds the other's alias as slug |
| DirectoryRules.PersonKeysAreDistinct | crates/claudear-config/src/users.rs:347-368 | without reserved slugs all person keys differ |
| DirectoryRules.AliasReachesItsUser | crates/claudear-config/src/users.rs:380-384 | `console-<id>` always finds user id, whatever slugs are held |
| DirectoryRules.OwnKeyFindsPersonExactly | crates/claudear-config/src/users.rs:405-407 | a person's key finds that person iff they do not hold another console user's alias as slug |
| DirectoryRules.ForeignAliasBreaksRoundTrip | crates/claudear-config/src/users.rs:380-383 | an input on which a person's own key finds somebody else |
| DirectoryRules.StoredKeyIsRebuiltKey | crates/claudear-config/src/users.rs:395-403 | the stored key equals the full rebuild when slug and email are unchanged |
| DirectoryRules.PredictionEqualsRebuild | crates/claudear-config/src/users.rs:134-160 | the predicted key is the key in the rebuilt directory iff there is no slug, or no lower stored id has the same slug, or the contested slug is the entry's own alias and the config keys for its login email run out before it |
| DirectoryRules.PredictionWithValidSlug | crates/claudear-config/src/users.rs:134-160 | with a slug that is not reserved, prediction equals rebuild iff no lower stored id has the same slug |
| DirectoryRules.ContestedSlugIsMispredicted | crates/claudear-config/src/users.rs:137-140 | an input on which the prediction is wrong |
| Registry.UserRegistry.constructor | crates/claudear-config/src/users.rs:64-72 | a new registry is the config-only merge |
| Registry.UserRegistry.ReplaceConsole | crates/claudear-config/src/users.rs:92-98 | afterwards the directory is the merge of exactly the given entries |
| Registry.UserRegistry.Reload | crates/claudear-config/src/users.rs:77-88 | success applies the loaded entries, failure returns the error and keeps the directory |
| Registry.UserRegistry.LookUpHandle | crates/claudear-config/src/users.rs:409-413 | the handle index finds the first person, console by id then config by key, known by the value in that field; nobody iff there is none |
| Registry.UserRegistry.LookUpKey | crates/claudear-config/src/users.rs:405-407 | the key index finds the alias's user, else the first person with the key |
| Registry.UserRegistry.Resolve | crates/claudear-config/src/users.rs:104-110 | per source name, whatever its case: the first person with the assignee in their Linear, Sentry or Jira names, or in their GitHub or GitLab logins lowercased, shown field by field; nobody iff there is none or the source is unknown |
| Registry.UserRegistry.GetBySlug | crates/claudear-config/src/users.rs:114-118 | a slug gives the data of the person found by linear search |
| Registry.UserRegistry.Owner | crates/claudear-config/src/users.rs:174-183 | a slug is owned only by a console person; another value by the first person known by it; a notification target by nobody |
| Registry.UserRegistry.StoredKey | crates/claudear-config/src/users.rs:397-403 | the shortcut answers iff an entry with the same id, slug and email is stored, and then with the rebuilt key |
| Registry.UserRegistry.PersonKey | crates/claudear-config/src/users.rs:137-160 | whichever branch answers: the explicit slug, else the key a full rebuild gives |
| Registry.ResolveThenGetBySlug | crates/claudear-config/src/users.rs:104-118 | the person `resolve` finds for a handle is found again by the resolved slug iff it is no other console user's alias; always without reserved slugs |
| Reloads.StepKeepsInv | crates/claudear-config/src/users.rs:77-98 | every step keeps: the mutex is locked by exactly the caller that reloads, a loaded version no older than the applied one, the directory built from the applied version |
| Reloads.WaitingCallersCanReload | crates/claudear-config/src/users.rs:77-90 | in any consistent state with a free mutex a waiting caller can load and apply the current version, or fail with the directory unchanged; both free the mutex |
| Reloads.VersionsNeverGoBackwards | crates/claudear-config/src/users.rs:74-88 | over every interleaving the applied version never decreases |
| Reloads.ReloadsNeverGoBackwards | crates/claudear-config/src/users.rs:74-98 | the same for the registry: the directory is always the merge of the store as it was at the applied version |
| Reloads.SucceededReloadIsVisible | crates/claudear-config/src/users.rs:74-88 | after a successful reload the directory is at least as new as the store was at the call, for ever |
| Reloads.OnlySwapsChangeTheDirectory | crates/claudear-config/src/users.rs:85-87 | only a caller that loaded under the mutex changes the directory; a failing one never does |
| KeyCache.CfAccessVerifier.RefreshIfAllowed | src/webhook/cf_access.rs:177-205 | within 60 s of the last attempt nothing changes; else one attempt is stamped and the answer replaces the cache iff it came; this is what an uninterrupted refresh of the machine leaves; stamps stay 60 s apart and the cache never gets older |
| KeyCache.CfAccessVerifier.FindKey | src/webhook/cf_access.rs:127-134 | a key fetched less than an hour ago is returned with nothing changed; else one refresh, then the key iff it was fetched less than 24 h ago; as an uninterrupted call of the machine; a revoked key is gone 24 h and one fetch later |
| KeyCache.SoloRefreshLeaves | src/webhook/cf_access.rs:177-205 | with any other callers waiting, the machine's steps for one refresh leave nothing new within 60 s of the last attempt, else one attempt, and its answer iff the fetch succeeded |
| KeyCache.SoloVerifyAnswers | src/webhook/cf_access.rs:127-134 | a whole call as machine steps, in clock terms: at once below one hour; else one refresh and the key iff below 24 hours |
| KeyCache.StepKeepsInv | src/webhook/cf_access.rs:116-205 | every step of every caller, also a cancellation, keeps the cache invariant and never ages the cache |
| KeyCache.FetchesWhenDue | src/webhook/cf_access.rs:187-194 | in every reachable state a caller at the gate goes on to stamp and fetch iff no attempt is less than 60 s old; else only the gate changes |
| KeyCache.CacheNeverGoesBack | src/webhook/cf_access.rs:195-199 | over every run the cached fetch time never decreases |
| KeyCache.SingleFlight | src/webhook/cf_access.rs:178-179 | at most one caller is between taking and releasing the gate |
| KeyCache.GateCanBeFreed | src/webhook/cf_access.rs:178-205 | in every reachable state a locked gate has a holder, whose cancellation frees it |
| KeyCache.RefreshRateIsBounded | src/webhook/cf_access.rs:187-193 | attempts are 60 s apart, so any window W holds at most W / 60 s + 1, whatever key ids are asked for |
| KeyCache.FetchesAreAttempts | src/webhook/cf_access.rs:193-194 | a caller fetches only after its stamp, the latest, was recorded |
| KeyCache.ReturnedKeysAreRecent | src/webhook/cf_access.rs:161-170 | a returned key was fetched less than 24 h before and published during that fetch; so a revoked key is gone 24 h and one fetch later |
| KeyCache.WaitersSeeEarlierFetches | src/webhook/cf_access.rs:181-186 | a caller that took the gate, also one turned away by the cooldown, is answered from a cache no older than any stored before |
| FirstReporter.FoldIsMinimum | crates/claudear-core/src/security.rs:327-346 | folding the rule gives a report before the award that no other precedes in time, or at equal times in id |
| FirstReporter.ArrivalOrderDoesNotMatter | crates/claudear-core/src/security.rs:335-346 | the result depends on the set of eligible reports only, not on order or repetition |
| FirstReporter.AwardPins | crates/claudear-core/src/security.rs:335 | after the award no report changes the result |
| FirstReporter.StepFollowsRule | crates/claudear-engine/src/security/dedup.rs:281-326 | every enabled step of any linker leaves the stored row where the pure rule, folded over the effects so far, stands |
| FirstReporter.StepKeepsInv | crates/claudear-engine/src/security/dedup.rs:135-326 | every step of lock, look for own, read, decide and conditional update, also an error or cancellation at any of them, keeps the stored row equal to the fold over the order of effects |
| FirstReporter.SoloRegisterDecides | crates/claudear-engine/src/security/dedup.rs:135-326 | in any consistent state with a free mutex a registration can finish, and becomes first iff there is no award and it is earlier, or as early with a lower id |
| FirstReporter.MutexCanBeFreed | crates/claudear-engine/src/security/dedup.rs:135-147 | in every reachable state a locked mutex has a holder, whose failure or cancellation frees it |
| FirstReporter.StoredFirstIsMinimum | crates/claudear-engine/src/security/dedup.rs:281-326 | in every interleaving with the award the stored first reporter is the minimum of the reports linked before it, and the award is theirs |
| FirstReporter.AwardGoesToFirst | crates/claudear-storage/src/sqlite/security_reports.rs:1271-1318 | preparing an award takes effect iff there is none and it is for the stored first report, and changes nothing else |
| FirstReporter.AwardIsFinal | crates/claudear-storage/src/sqlite/security_reports.rs:1271-1318 | once prepared, award and first reporter never change |
| FirstReporter.NobodyIsPassedOver | crates/claudear-engine/src/security/dedup.rs:135-154 | before an award no report that finished registering, however it ended, precedes the stored first reporter |
| SecurityIds.ShortIdsParseExactly | crates/claudear-core/src/security.rs:41-48 | a value parses to id iff it is `SEC-` and the decimal printing of id, and id is in 1..9223372036854775807 |
| SecurityIds.JoinOfSplit | crates/claudear-core/src/security.rs:360 | joining the split segments gives the path back |
| SecurityIds.SplitOfJoin | crates/claudear-core/src/security.rs:360-369 | splitting joined slash-free segments gives them back |
| SecurityIds.NumbersParseExactly | crates/claudear-core/src/security.rs:399-407 | a number parses iff it is the decimal printing of an int in 1..i64::MAX |
| SecurityIds.PullRequestsParseExactly | crates/claudear-core/src/security.rs:358-378 | a URL parses to p iff it is `https://github.com/` owner `/` name `/pull/` number, printed, and these obey GitHub's rules of length and characters |
| SecurityIds.BelongsToComparesParts | crates/claudear-core/src/security.rs:380-386 | comparing `owner/name` ignoring case is comparing owners and names |
| ReportStates.RunsAreShort | crates/claudear-core/src/security.rs:110-126 | a run with n visits to `Received` or `NeedsHuman` has at most 3n + 1 states |
| ReportStates.TheBoundIsReached | crates/claudear-core/src/security.rs:110-126 | for every n > 0 some run has exactly 3n + 1 states |
| ReportStates.TransitionsExactly | crates/claudear-core/src/security.rs:110-126 | the eighteen transitions, and no other |
| ReportStates.EveryStateCanEnd | crates/claudear-core/src/security.rs:106-126 | a terminal state is at most two transitions away, and terminal means no exits |
| Templates.RenderSecurityTemplate | crates/claudear-config/src/security_inbox.rs:316-341 | the loop computes tokenise-then-substitute, missing values being empty |
| Templates.RenderIdentity | crates/claudear-config/src/security_inbox.rs:323-340 | substituting the placeholders by themselves is the identity |
| Templates.RenderConcatenates | crates/claudear-config/src/security_inbox.rs:313-315 | a template cut before a brace renders part by part |
| Templates.RenderAtPlaceholder | crates/claudear-config/src/security_inbox.rs:313-337 | at every occurrence exactly the value is inserted, and neither it nor the text around is read again |
| Templates.RendererAgreesWithScanner | crates/claudear-config/src/security_inbox.rs:292-301 | the renderer replaces exactly the known placeholders the scanner lists, in order |
| Templates.RenderLength | crates/claudear-config/src/security_inbox.rs:316-341 | the length changes by exactly the difference at each listed placeholder |
| Templates.ValidateOne | crates/claudear-config/src/security_inbox.rs:270-287 | no error iff the template is non-blank, lists only known placeholders and contains the required one; else the first problem |
| Templates.Validate | crates/claudear-config/src/security_inbox.rs:269-289 | success iff each of the eight fields is not blank, has nothing but `{reason}` and `{fixed_on}` written like a placeholder, two contain the reason and one the date; else the error names the first wrong field and the first thing wrong with it |
| Templates.ValidTemplatesDeliver | crates/claudear-config/src/security_inbox.rs:261-289 | rejections rendered from valid templates contain their reason, already-fixed replies their date, whatever these are |
| Templates.ValidTemplatesAreFilledIn | crates/claudear-config/src/security_inbox.rs:275-281 | in a valid template every listed placeholder is replaced |
| Relevance.JudgeRelevance | crates/claudear-engine/src/agent_classifier.rs:390-418 | for every completion order: each completed answer with a value is collected exactly once, cut off at 0 and 1, and nothing else is; without failure that is every answer; a failure is that of the last completion after only successes; the calls running are at most max(concurrency, 1), and that many whenever one completes and others are queued |
| Relevance.NextOutcome | crates/claudear-engine/src/agent_classifier.rs:407 | the next outcome is of any one call in flight, with the calls started bounded; there is none only when every call has completed |
| Relevance.FillBuffer | crates/claudear-engine/src/agent_classifier.rs:406 | a poll starts queued calls until the buffer or the queue is exhausted |
| Relevance.InFlightIsBounded | crates/claudear-engine/src/agent_classifier.rs:384-406 | at every moment of every schedule at most max(concurrency, 1) calls are in flight |
| Relevance.EachCallCompletesOnce | crates/claudear-engine/src/agent_classifier.rs:407-409 | no index completes, and so is scored, twice |
| Relevance.JudgmentIsComplete | crates/claudear-engine/src/agent_classifier.rs:370-418 | when every call has completed, each answer with a value is collected exactly once, cut off at 0 and 1, and nothing else is |
| Relevance.ScoresAreCollectedOnce | crates/claudear-engine/src/agent_classifier.rs:370-411 | the same of the completed calls at any moment |
| Relevance.JudgmentIgnoresCompletionOrder | crates/claudear-engine/src/agent_classifier.rs:390-418 | two schedules that complete collect the same multiset of scores |
| Relevance.FailureStopsEarly | crates/claudear-engine/src/agent_classifier.rs:387-389 | calls started at a failure are at most the earlier completions plus the concurrency |
| Truncation.BoundariesAreOffsets | src/webhook/mcp.rs:952 | the one-byte boundary check holds exactly where a character starts or the text ends |
| Truncation.FittingIsLongest | src/webhook/mcp.rs:951-954 | the kept prefix is the longest of whole characters within max bytes, and at most 3 bytes short |
| Truncation.DecodeExactly | src/webhook/mcp.rs:947-956 | bytes decode to a text by the table of RFC 3629, section 3, iff they are its encoding |
| Truncation.TruncateOnBoundary | src/webhook/mcp.rs:947-956 | well-formed text that is too long becomes well-formed text: its longest fitting prefix of whole characters, then the ellipsis; short text is unchanged |

## Left out

- CLI wiring, daemon start-up and shutdown: construction of the parts above, no algorithm of its own.
- `resolve_reference`, `users`, `is_empty` and `discord_id_for_github`: one lookup, already exact, followed by reading a field.
- `replace_console` called concurrently with reloads: the interleaving proof is about `reload`, which is how running code updates the registry; a direct call bypasses the mutex by design.
- Lock poisoning and `Arc` mechanics: clones are references to one object.
- JWT decoding, claim checks, HTTP and JSON in the key cache: library calls; a fetch succeeds with keys published while it ran, or fails.
- The order in which waiters get the refresh gate: any waiter may be next.
- First-reporter registration by several processes on one database: the registration mutex is per process, and so is the model.
- Choosing the vulnerability a report duplicates (embeddings, the judging prompt): only what follows the choice is modelled.
- Errors after a first-reporter update took effect: the row stays updated, and the registration counts as ended.
- Timestamps finer than a second: reports are compared as they are stored.
- `ReportStates`: other enums, serde names, award and delivery statuses and record structs are settled by finite checks.
- Worktree keys: a SHA-256 digest, a library call.
- Date formatting in templates: the date arrives formatted.
- Template error texts: an error carries the template's name and the placeholder instead of a formatted sentence.
- `parse_response` and `build_repo_schema`: matching an agent's free text to a repository name, by first match in three tiers, and listing the names it may choose from.
- Prompts, embeddings and agent execution: an agent call is a score, no score or an error.
- Buffered calls that are queued but not yet polled when the batch fails: they count as started, so the bound is for those too.
- MCP transport, authentication, tool bodies and Markdown formatting: I/O or string building.
- Floating point: scores are reals, and only clamped.
