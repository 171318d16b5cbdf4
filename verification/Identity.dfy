/**
 People and their handles. `Folding` is `str::to_lowercase`, which depends on Unicode
 tables: everything below holds for any function in its place.
 */
module Identity {
  import opened Text

  type Folding = string -> string

  const CONSOLE_KEY_PREFIX := "console-"

  datatype IdentityField =
    | Slug
    | LinearNames
    | GithubUsernames
    | SentryUsernames
    | JiraUsernames
    | GitlabUsernames
    | DiscordId
    | SlackId
    | Email
    | PushUserKey
    | SmsNumber
    | WhatsappNumber
    | TelegramChatId

  /** The fields whose values resolve to a person, in the order they are indexed. */
  const EXCLUSIVE: seq<IdentityField> := [
    LinearNames, GithubUsernames, SentryUsernames, JiraUsernames, GitlabUsernames, DiscordId, SlackId
  ]

  /** What two values of a field must share to count as one handle. */
  function ComparisonKey(lower: Folding, field: IdentityField, value: string): string {
    if field in {GithubUsernames, GitlabUsernames} then lower(value) else value
  }

  /** The contact details and logins of one person, whichever source they come from. */
  datatype UserConfig = UserConfig(
    linearNames: seq<string>,
    githubUsernames: seq<string>,
    sentryUsernames: seq<string>,
    jiraUsernames: seq<string>,
    gitlabUsernames: seq<string>,
    discordId: Option<string>,
    slackId: Option<string>,
    email: Option<string>,
    pushUserKey: Option<string>,
    smsNumber: Option<string>,
    whatsappNumber: Option<string>,
    telegramChatId: Option<string>)

  function Listed(value: Option<string>): seq<string> {
    match value
    case Some(v) => [v]
    case None => []
  }

  function ExclusiveValues(user: UserConfig, field: IdentityField): seq<string> {
    match field
    case LinearNames => user.linearNames
    case GithubUsernames => user.githubUsernames
    case SentryUsernames => user.sentryUsernames
    case JiraUsernames => user.jiraUsernames
    case GitlabUsernames => user.gitlabUsernames
    case DiscordId => Listed(user.discordId)
    case SlackId => Listed(user.slackId)
    case _ => []
  }

  datatype ConsoleIdentity = ConsoleIdentity(
    userId: int,
    loginEmail: string,
    name: string,
    slug: Option<string>,
    identities: UserConfig,
    updatedAt: string)

  function ExplicitSlug(entry: ConsoleIdentity): Option<string> {
    match entry.slug
    case None => None
    case Some(slug) => if Trim(slug) == "" then None else Some(Trim(slug))
  }

  function ConsoleKey(userId: int): string {
    CONSOLE_KEY_PREFIX + DecimalInt(userId)
  }

  predicate IsReserved(key: string) {
    StartsWith(key, CONSOLE_KEY_PREFIX)
  }

  lemma ConsoleKeyIsReserved(userId: int)
    ensures IsReserved(ConsoleKey(userId))
  {
    StartsWithExactly(ConsoleKey(userId), CONSOLE_KEY_PREFIX);
  }

  lemma ConsoleKeyInjective(a: int, b: int)
    requires ConsoleKey(a) == ConsoleKey(b)
    ensures a == b
  {
    assert ConsoleKey(a)[|CONSOLE_KEY_PREFIX|..] == DecimalInt(a);
    assert ConsoleKey(b)[|CONSOLE_KEY_PREFIX|..] == DecimalInt(b);
    DecimalIntInjective(a, b);
  }

  function EmailKey(lower: Folding, email: string): Option<string> {
    if Trim(email) == "" then None else Some(lower(Trim(email)))
  }

  const SOURCES: seq<(string, IdentityField)> := [
    ("linear", LinearNames),
    ("github", GithubUsernames),
    ("sentry", SentryUsernames),
    ("jira", JiraUsernames),
    ("gitlab", GitlabUsernames)
  ]

  function AsciiLower(c: char): char {
    if 'A' <= c <= 'Z' then (c as int + 32) as char else c
  }

  predicate EqIgnoreAsciiCase(a: string, b: string) {
    |a| == |b| && forall i | 0 <= i < |a| :: AsciiLower(a[i]) == AsciiLower(b[i])
  }

  function SourceField(source: string): Option<IdentityField> {
    match First(SOURCES, (entry: (string, IdentityField)) => EqIgnoreAsciiCase(entry.0, source))
    case Some(i) => Some(SOURCES[i].1)
    case None => None
  }

  /** `upper` and `lower` are one letter of the English alphabet in its two cases. */
  predicate IsCasePair(upper: char, lower: char) {
    'A' <= upper <= 'Z' && lower as int - 'a' as int == upper as int - 'A' as int
  }

  lemma EqIgnoreAsciiCaseExactly(a: string, b: string)
    ensures EqIgnoreAsciiCase(a, b) <==>
            |a| == |b| && forall i | 0 <= i < |a| :: a[i] == b[i] || IsCasePair(a[i], b[i]) || IsCasePair(b[i], a[i])
  {
  }

  /** Which handles an issue source names its assignees by. */
  lemma SourceFieldExactly(source: string)
    ensures SourceField(source) == Some(LinearNames) <==> EqIgnoreAsciiCase(source, "linear")
    ensures SourceField(source) == Some(GithubUsernames) <==> EqIgnoreAsciiCase(source, "github")
    ensures SourceField(source) == Some(SentryUsernames) <==> EqIgnoreAsciiCase(source, "sentry")
    ensures SourceField(source) == Some(JiraUsernames) <==> EqIgnoreAsciiCase(source, "jira")
    ensures SourceField(source) == Some(GitlabUsernames) <==> EqIgnoreAsciiCase(source, "gitlab")
    ensures SourceField(source).Some? ==>
              SourceField(source).value in {LinearNames, GithubUsernames, SentryUsernames, JiraUsernames, GitlabUsernames}
  {
    assert SOURCES[0].0 == "linear" && SOURCES[1].0 == "github" && SOURCES[2].0 == "sentry";
    assert SOURCES[3].0 == "jira" && SOURCES[4].0 == "gitlab";
    assert EqIgnoreAsciiCase(source, "github") ==> AsciiLower(source[3]) == AsciiLower("github"[3]) == 'h';
    assert EqIgnoreAsciiCase(source, "gitlab") ==> AsciiLower(source[3]) == AsciiLower("gitlab"[3]) == 'l';
  }
}
