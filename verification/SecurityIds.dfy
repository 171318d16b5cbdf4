/** The two identifiers that are parsed back: `SEC-<id>` and GitHub pull request URLs. */
module SecurityIds {
  import opened Text
  import opened Identity

  const I64_MAX: int := 0x7FFF_FFFF_FFFF_FFFF
  const SECURITY_FIX_SHORT_ID_PREFIX := "SEC-"
  const MAX_REPOSITORY_SEGMENT_CHARS := 100
  const MAX_GITHUB_OWNER_CHARS := 39
  const GITHUB_URL_PREFIX := "https://github.com/"
  const PULL_SEGMENT := "pull"

  /** `str::parse::<i64>` on digits: only overflow makes it fail. */
  function ParseI64(digits: string): Option<int>
    requires digits != "" && AllDigits(digits)
  {
    if Value(digits) <= I64_MAX then Some(Value(digits)) else None
  }

  // --- Short ids ----------------------------------------------------------

  function SecurityFixShortId(vulnerabilityId: int): string {
    SECURITY_FIX_SHORT_ID_PREFIX + DecimalInt(vulnerabilityId)
  }

  function ParseSecurityFixShortId(value: string): Option<int> {
    match StripPrefix(value, SECURITY_FIX_SHORT_ID_PREFIX)
    case None => None
    case Some(digits) =>
      if digits == "" || !AllDigits(digits) then
        None
      else
        match ParseI64(digits)
        case None => None
        case Some(id) => if id > 0 && SecurityFixShortId(id) == value then Some(id) else None
  }

  /** Exactly the printed short ids are accepted, each as the id that was printed: ids from 1 to
      `i64::MAX`, without leading zeros or a sign. */
  lemma ShortIdsParseExactly(value: string, id: int)
    ensures ParseSecurityFixShortId(value) == Some(id) <==>
            1 <= id <= 9_223_372_036_854_775_807 && value == "SEC-" + DecimalInt(id)
  {
    if 1 <= id && value == SecurityFixShortId(id) {
      assert value[|SECURITY_FIX_SHORT_ID_PREFIX|..] == Decimal(id);
      ValueOfDecimal(id);
    }
  }

  // --- Splitting ----------------------------------------------------------

  /** `str::split('/')`. */
  function Split(s: string): (parts: seq<string>)
    ensures parts != []
  {
    if s == "" then
      [""]
    else
      var rest := Split(s[1..]);
      if s[0] == '/' then [""] + rest else [[s[0]] + rest[0]] + rest[1..]
  }

  function Join(parts: seq<string>): string
    requires parts != []
  {
    if |parts| == 1 then parts[0] else parts[0] + "/" + Join(parts[1..])
  }

  predicate NoSlash(part: string) {
    forall i | 0 <= i < |part| :: part[i] != '/'
  }

  predicate NoSlashes(parts: seq<string>) {
    forall k | 0 <= k < |parts| :: NoSlash(parts[k])
  }

  lemma {:induction false} SplitHasNoSlashes(s: string)
    ensures NoSlashes(Split(s))
  {
    if s == "" {
    } else {
      SplitHasNoSlashes(s[1..]);
    }
  }

  lemma JoinPrepends(prefix: string, parts: seq<string>)
    requires parts != []
    ensures Join([prefix + parts[0]] + parts[1..]) == prefix + Join(parts)
  {
  }

  lemma {:induction false} JoinOfSplit(s: string)
    ensures Join(Split(s)) == s
  {
    if s == "" {
    } else {
      var rest := Split(s[1..]);
      JoinOfSplit(s[1..]);
      JoinPrepends([s[0]], rest);
      assert ([""] + rest)[1..] == rest;
      assert s == [s[0]] + s[1..];
    }
  }

  lemma {:induction false} SplitOfJoin(parts: seq<string>)
    requires parts != [] && NoSlashes(parts)
    ensures Split(Join(parts)) == parts
    decreases |parts|, |parts[0]|
  {
    var first := parts[0];
    if first == "" {
      if |parts| > 1 {
        SplitOfJoin(parts[1..]);
        assert Join(parts)[1..] == Join(parts[1..]);
      }
    } else {
      var shorter := [first[1..]] + parts[1..];
      assert NoSlash(first);
      SplitOfJoin(shorter);
      JoinPrepends([first[0]], shorter);
      assert [first[0]] + first[1..] == first && shorter[1..] == parts[1..];
      assert [first] + parts[1..] == parts;
      assert Join(parts)[1..] == Join(shorter);
    }
  }

  // --- Pull request URLs --------------------------------------------------

  datatype GithubPullRequest = GithubPullRequest(owner: string, name: string, number: int) {
    function Repository(): string {
      owner + "/" + name
    }

    predicate BelongsTo(repository: string) {
      EqIgnoreAsciiCase(Repository(), repository)
    }
  }

  predicate IsAsciiAlphanumeric(c: char) {
    IsDigit(c) || 'a' <= c <= 'z' || 'A' <= c <= 'Z'
  }

  /** Lengths are in bytes in the source, which only ASCII strings pass to be compared. */
  predicate IsGithubOwner(owner: string) {
    && owner != "" && |owner| <= MAX_GITHUB_OWNER_CHARS
    && owner[0] != '-' && owner[|owner| - 1] != '-'
    && forall i | 0 <= i < |owner| :: IsAsciiAlphanumeric(owner[i]) || owner[i] == '-'
  }

  predicate IsRepositorySegment(segment: string) {
    && segment != "" && |segment| <= MAX_REPOSITORY_SEGMENT_CHARS
    && segment != "." && segment != ".."
    && segment[0] != '-'
    && forall i | 0 <= i < |segment| :: IsAsciiAlphanumeric(segment[i]) || segment[i] in {'-', '_', '.'}
  }

  function ParsePullRequestNumber(value: string): Option<int> {
    if value == "" || value[0] == '0' || !AllDigits(value) then None else ParseI64(value)
  }

  function ParsePullRequest(url: string): Option<GithubPullRequest> {
    match StripPrefix(url, GITHUB_URL_PREFIX)
    case None => None
    case Some(path) =>
      var segments := Split(path);
      if |segments| != 4 || segments[2] != PULL_SEGMENT then
        None
      else if !IsGithubOwner(segments[0]) || !IsRepositorySegment(segments[1]) then
        None
      else
        match ParsePullRequestNumber(segments[3])
        case None => None
        case Some(number) => Some(GithubPullRequest(segments[0], segments[1], number))
  }

  /** The canonical URL of a pull request. */
  function PrintPullRequest(p: GithubPullRequest): string {
    GITHUB_URL_PREFIX + p.Repository() + "/" + PULL_SEGMENT + "/" + DecimalInt(p.number)
  }

  /** The 62 ASCII letters and digits, by code point. */
  predicate IsLetterOrDigit(c: char) {
    48 <= c as int <= 57 || 65 <= c as int <= 90 || 97 <= c as int <= 122
  }

  /** GitHub's rules for what a pull request URL names. */
  predicate IsWellFormed(p: GithubPullRequest) {
    && 1 <= |p.owner| <= 39 && p.owner[0] != '-' && p.owner[|p.owner| - 1] != '-'
    && (forall i | 0 <= i < |p.owner| :: IsLetterOrDigit(p.owner[i]) || p.owner[i] == '-')
    && 1 <= |p.name| <= 100 && p.name[0] != '-' && p.name != "." && p.name != ".."
    && (forall i | 0 <= i < |p.name| :: IsLetterOrDigit(p.name[i]) || p.name[i] == '-' || p.name[i] == '_' || p.name[i] == '.')
    && 1 <= p.number <= 9_223_372_036_854_775_807
  }

  lemma WellFormedExactly(p: GithubPullRequest)
    ensures IsWellFormed(p) <==> IsGithubOwner(p.owner) && IsRepositorySegment(p.name) && 1 <= p.number <= I64_MAX
  {
    assert forall c :: IsAsciiAlphanumeric(c) <==> IsLetterOrDigit(c);
  }

  lemma NumbersParseExactly(value: string, number: int)
    ensures ParsePullRequestNumber(value) == Some(number) <==>
            1 <= number <= 9_223_372_036_854_775_807 && value == DecimalInt(number)
  {
    if ParsePullRequestNumber(value) == Some(number) {
      PositiveValue(value);
      DecimalOfValue(value);
    }
    if 1 <= number && value == DecimalInt(number) {
      ValueOfDecimal(number);
    }
  }

  lemma PrintedPath(p: GithubPullRequest)
    ensures PrintPullRequest(p) ==
            GITHUB_URL_PREFIX + Join([p.owner, p.name, PULL_SEGMENT, DecimalInt(p.number)])
  {
    var number := DecimalInt(p.number);
    var parts := [p.owner, p.name, PULL_SEGMENT, number];
    assert parts[1..] == [p.name, PULL_SEGMENT, number];
    assert [p.name, PULL_SEGMENT, number][1..] == [PULL_SEGMENT, number];
    assert [PULL_SEGMENT, number][1..] == [number];
    assert Join([PULL_SEGMENT, number]) == PULL_SEGMENT + "/" + number;
    assert Join([p.name, PULL_SEGMENT, number]) == p.name + "/" + (PULL_SEGMENT + "/" + number);
    assert PrintPullRequest(p) ==
           GITHUB_URL_PREFIX + (p.owner + "/" + (p.name + "/" + (PULL_SEGMENT + "/" + number)));
  }

  lemma PrintedExactly(p: GithubPullRequest)
    ensures PrintPullRequest(p) ==
            "https://github.com/" + p.owner + "/" + p.name + "/pull/" + DecimalInt(p.number)
  {
    var site, number := "https://github.com/", DecimalInt(p.number);
    assert site + (p.owner + "/" + p.name) == site + p.owner + "/" + p.name;
    assert "/" + "pull" + "/" == "/pull/";
    var front := site + p.owner + "/" + p.name;
    assert front + "/" + "pull" + "/" + number == front + ("/" + "pull" + "/") + number;
  }

  /** Parsing accepts exactly the canonical URLs of well-formed pull requests, so it is the
      inverse of printing: no other URL is accepted and no two pull requests share one. */
  lemma PullRequestsParseExactly(url: string, p: GithubPullRequest)
    ensures ParsePullRequest(url) == Some(p) <==>
            IsWellFormed(p) && url == "https://github.com/" + p.owner + "/" + p.name + "/pull/" + DecimalInt(p.number)
  {
    WellFormedExactly(p);
    PrintedExactly(p);
    PrintedPath(p);
    var parts := [p.owner, p.name, PULL_SEGMENT, DecimalInt(p.number)];
    if ParsePullRequest(url) == Some(p) {
      var path := url[|GITHUB_URL_PREFIX|..];
      JoinOfSplit(path);
      NumbersParseExactly(Split(path)[3], p.number);
      assert Split(path) == parts;
      assert url == GITHUB_URL_PREFIX + path;
    }
    if IsWellFormed(p) && url == PrintPullRequest(p) {
      assert url[|GITHUB_URL_PREFIX|..] == Join(parts);
      assert NoSlash(parts[0]) && NoSlash(parts[1]) && NoSlash(parts[2]) && NoSlash(parts[3]) by {
        IntValueOfDecimalInt(p.number);
      }
      SplitOfJoin(parts);
      NumbersParseExactly(parts[3], p.number);
    }
  }

  /** Without slashes in the owners, `belongs_to` compares owner with owner and name with name. */
  lemma BelongsToComparesParts(p: GithubPullRequest, q: GithubPullRequest)
    requires IsGithubOwner(p.owner) && IsGithubOwner(q.owner)
    ensures p.BelongsTo(q.Repository()) <==>
            EqIgnoreAsciiCase(p.owner, q.owner) && EqIgnoreAsciiCase(p.name, q.name)
  {
    var a, b := p.Repository(), q.Repository();
    assert a[..|p.owner|] == p.owner && a[|p.owner|] == '/' && a[|p.owner| + 1..] == p.name;
    assert b[..|q.owner|] == q.owner && b[|q.owner|] == '/' && b[|q.owner| + 1..] == q.name;
    assert forall i | 0 <= i < |p.owner| :: p.owner[i] == a[i] && AsciiLower(p.owner[i]) != '/';
    assert forall i | 0 <= i < |q.owner| :: q.owner[i] == b[i] && AsciiLower(q.owner[i]) != '/';
    if p.BelongsTo(b) {
      assert AsciiLower(b[|p.owner|]) == AsciiLower(a[|p.owner|]) == '/';
      assert AsciiLower(a[|q.owner|]) == AsciiLower(b[|q.owner|]) == '/';
      assert |p.owner| == |q.owner|;
      assert forall i | 0 <= i < |p.name| :: p.name[i] == a[|p.owner| + 1 + i] && q.name[i] == b[|p.owner| + 1 + i];
    }
  }
}
