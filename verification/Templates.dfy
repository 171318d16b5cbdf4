/** Reply templates: what is substituted, and what the validator guarantees of the result. */
module Templates {
  import opened Text
  import opened SecurityIds

  const REASON_PLACEHOLDER := "{reason}"
  const FIXED_ON_PLACEHOLDER := "{fixed_on}"

  predicate IsKnown(placeholder: string) {
    placeholder == REASON_PLACEHOLDER || placeholder == FIXED_ON_PLACEHOLDER
  }

  // --- Tokens -------------------------------------------------------------

  datatype Token = Literal(c: char) | Reason | FixedOn {
    function Width(): nat {
      match this
      case Literal(_) => 1
      case Reason => 8
      case FixedOn => 10
    }

    function Rendered(reason: string, fixedOn: string): string {
      match this
      case Literal(c) => [c]
      case Reason => reason
      case FixedOn => fixedOn
    }
  }

  function NextToken(template: string): (token: Token)
    requires template != ""
    ensures token.Width() <= |template|
  {
    if StartsWith(template, REASON_PLACEHOLDER) then Reason
    else if StartsWith(template, FIXED_ON_PLACEHOLDER) then FixedOn
    else Literal(template[0])
  }

  /** A template is read once, from left to right: what was substituted is never read. */
  function Tokens(template: string): seq<Token>
    decreases |template|
  {
    if template == "" then [] else [NextToken(template)] + Tokens(template[NextToken(template).Width()..])
  }

  function Substitute(tokens: seq<Token>, reason: string, fixedOn: string): string {
    if tokens == [] then "" else tokens[0].Rendered(reason, fixedOn) + Substitute(tokens[1..], reason, fixedOn)
  }

  /** Rendering: split the template into tokens, then substitute each. */
  function Render(template: string, reason: string, fixedOn: string): string {
    Substitute(Tokens(template), reason, fixedOn)
  }

  /** No known placeholder starts here. */
  predicate StartsLiteral(template: string) {
    && template != ""
    && !StartsWith(template, REASON_PLACEHOLDER) && !StartsWith(template, FIXED_ON_PLACEHOLDER)
  }

  lemma LiteralToken(template: string)
    requires StartsLiteral(template)
    ensures Tokens(template) == [Literal(template[0])] + Tokens(template[1..])
  {
  }

  lemma ReasonToken(template: string)
    requires StartsWith(template, REASON_PLACEHOLDER)
    ensures Tokens(template) == [Reason] + Tokens(template[8..])
  {
  }

  lemma FixedOnToken(template: string)
    requires StartsWith(template, FIXED_ON_PLACEHOLDER)
    ensures Tokens(template) == [FixedOn] + Tokens(template[10..])
  {
    assert template[1] == 'f';
    assert !StartsWith(template, REASON_PLACEHOLDER);
  }

  lemma Associates(a: string, b: string, c: string)
    ensures (a + b) + c == a + (b + c)
  {
  }

  lemma {:induction false} SubstituteConcatenates(x: seq<Token>, y: seq<Token>, reason: string, fixedOn: string)
    ensures Substitute(x + y, reason, fixedOn) == Substitute(x, reason, fixedOn) + Substitute(y, reason, fixedOn)
  {
    if x == [] {
      assert x + y == y;
    } else {
      SubstituteConcatenates(x[1..], y, reason, fixedOn);
      assert (x + y)[1..] == x[1..] + y;
      Associates(x[0].Rendered(reason, fixedOn), Substitute(x[1..], reason, fixedOn), Substitute(y, reason, fixedOn));
    }
  }

  lemma SubstituteOne(token: Token, reason: string, fixedOn: string)
    ensures Substitute([token], reason, fixedOn) == token.Rendered(reason, fixedOn)
  {
  }

  // --- The loop -----------------------------------------------------------

  /** `str::find` of a character. */
  function Find(s: string, c: char): (r: Option<nat>)
    ensures r.Some? ==> r.value < |s| && s[r.value] == c && forall i | 0 <= i < r.value :: s[i] != c
    ensures r.None? ==> forall i | 0 <= i < |s| :: s[i] != c
  {
    First(s, (x: char) => x == c)
  }

  /** The tokens of text without braces. */
  function Literals(s: string): seq<Token> {
    seq(|s|, i requires 0 <= i < |s| => Literal(s[i]))
  }

  lemma {:induction false} LiteralsRender(s: string, reason: string, fixedOn: string)
    ensures Substitute(Literals(s), reason, fixedOn) == s
  {
    if s == "" {
    } else {
      LiteralsRender(s[1..], reason, fixedOn);
      assert Literals(s)[1..] == Literals(s[1..]);
      assert s == [s[0]] + s[1..];
    }
  }

  lemma LiteralsStep(s: string, n: nat)
    requires 0 < n <= |s|
    ensures Literals(s[..n]) == [Literal(s[0])] + Literals(s[1..][..n - 1])
  {
  }

  lemma NoBraceIsLiteral(template: string)
    requires template != "" && template[0] != '{'
    ensures StartsLiteral(template)
  {
  }

  lemma {:induction false} LiteralPrefix(template: string, n: nat)
    requires n <= |template| && forall i | 0 <= i < n :: template[i] != '{'
    ensures Tokens(template) == Literals(template[..n]) + Tokens(template[n..])
  {
    if n == 0 {
      assert template[0..] == template;
    } else {
      LiteralPrefix(template[1..], n - 1);
      NoBraceIsLiteral(template);
      LiteralToken(template);
      LiteralsStep(template, n);
      assert template[1..][n - 1..] == template[n..];
    }
  }

  lemma TokensAssociate(a: seq<Token>, b: seq<Token>, c: seq<Token>)
    ensures a + (b + c) == (a + b) + c
  {
  }

  /** Reading on: `read` is rendered after what was `done`. */
  lemma ReadOn(whole: seq<Token>, done: seq<Token>, read: seq<Token>, tail: seq<Token>, reason: string, fixedOn: string)
    requires whole == done + (read + tail)
    ensures whole == (done + read) + tail
    ensures Substitute(done + read, reason, fixedOn) == Substitute(done, reason, fixedOn) + Substitute(read, reason, fixedOn)
  {
    SubstituteConcatenates(done, read, reason, fixedOn);
    TokensAssociate(done, read, tail);
  }

  /** What stands at a brace: one of the two placeholders, or the brace itself. */
  lemma TokenAtBrace(candidate: string)
    requires candidate != "" && candidate[0] == '{'
    ensures StripPrefix(candidate, REASON_PLACEHOLDER).Some? ==>
              Tokens(candidate) == [Reason] + Tokens(candidate[8..])
    ensures StripPrefix(candidate, REASON_PLACEHOLDER).None? && StripPrefix(candidate, FIXED_ON_PLACEHOLDER).Some? ==>
              Tokens(candidate) == [FixedOn] + Tokens(candidate[10..])
    ensures StripPrefix(candidate, REASON_PLACEHOLDER).None? && StripPrefix(candidate, FIXED_ON_PLACEHOLDER).None? ==>
              Tokens(candidate) == [Literal('{')] + Tokens(candidate[1..])
  {
    StartsWithExactly(candidate, REASON_PLACEHOLDER);
    StartsWithExactly(candidate, FIXED_ON_PLACEHOLDER);
  }

  /** Text without braces renders to itself. */
  lemma ReadLiterals(whole: seq<Token>, done: seq<Token>, remaining: string, n: nat, reason: string, fixedOn: string)
    returns (done': seq<Token>)
    requires whole == done + Tokens(remaining)
    requires n <= |remaining| && forall i | 0 <= i < n :: remaining[i] != '{'
    ensures whole == done' + Tokens(remaining[n..])
    ensures Substitute(done', reason, fixedOn) == Substitute(done, reason, fixedOn) + remaining[..n]
  {
    LiteralPrefix(remaining, n);
    LiteralsRender(remaining[..n], reason, fixedOn);
    ReadOn(whole, done, Literals(remaining[..n]), Tokens(remaining[n..]), reason, fixedOn);
    done' := done + Literals(remaining[..n]);
  }

  lemma ReadToken(whole: seq<Token>, done: seq<Token>, token: Token, tail: seq<Token>, reason: string, fixedOn: string)
    returns (done': seq<Token>)
    requires whole == done + ([token] + tail)
    ensures whole == done' + tail
    ensures Substitute(done', reason, fixedOn) == Substitute(done, reason, fixedOn) + token.Rendered(reason, fixedOn)
  {
    SubstituteOne(token, reason, fixedOn);
    ReadOn(whole, done, [token], tail, reason, fixedOn);
    done' := done + [token];
  }

  /** `render_security_template`, with the date already formatted. Its single pass is tokenising
      and substituting; missing values render empty. */
  method RenderSecurityTemplate(template: string, reason: Option<string>, fixedOn: Option<string>)
    returns (rendered: string)
    ensures rendered == Render(template, reason.GetOr(""), fixedOn.GetOr(""))
  {
    var why, on := reason.GetOr(""), fixedOn.GetOr("");
    rendered := "";
    var remaining := template;
    ghost var whole, done: seq<Token> := Tokens(template), [];
    var position := Find(remaining, '{');
    while position.Some?
      invariant position == Find(remaining, '{')
      invariant whole == done + Tokens(remaining)
      invariant rendered == Substitute(done, why, on)
      decreases |remaining|
    {
      done := ReadLiterals(whole, done, remaining, position.value, why, on);
      rendered := rendered + remaining[..position.value];
      var candidate := remaining[position.value..];
      TokenAtBrace(candidate);
      match StripPrefix(candidate, REASON_PLACEHOLDER) {
        case Some(after) =>
          done := ReadToken(whole, done, Reason, Tokens(after), why, on);
          rendered, remaining := rendered + why, after;
        case None =>
          match StripPrefix(candidate, FIXED_ON_PLACEHOLDER) {
            case Some(after) =>
              done := ReadToken(whole, done, FixedOn, Tokens(after), why, on);
              rendered, remaining := rendered + on, after;
            case None =>
              done := ReadToken(whole, done, Literal('{'), Tokens(candidate[1..]), why, on);
              rendered, remaining := rendered + "{", candidate[1..];
          }
      }
      position := Find(remaining, '{');
    }
    done := ReadLiterals(whole, done, remaining, |remaining|, why, on);
    assert remaining[..|remaining|] == remaining && whole == done + Tokens("") == done;
    rendered := rendered + remaining;
  }

  // --- What rendering does ------------------------------------------------

  lemma SubstituteStep(token: Token, tokens: seq<Token>, reason: string, fixedOn: string)
    ensures Substitute([token] + tokens, reason, fixedOn) ==
            token.Rendered(reason, fixedOn) + Substitute(tokens, reason, fixedOn)
  {
    assert ([token] + tokens)[1..] == tokens;
  }

  /** What the first token of a template stands for. */
  lemma TokenText(template: string, token: Token)
    requires template != "" && token == NextToken(template)
    ensures template == token.Rendered(REASON_PLACEHOLDER, FIXED_ON_PLACEHOLDER) + template[token.Width()..]
  {
    StartsWithExactly(template, REASON_PLACEHOLDER);
    StartsWithExactly(template, FIXED_ON_PLACEHOLDER);
  }

  /** Substituting every placeholder by itself gives the template back. */
  lemma {:induction false} RenderIdentity(template: string)
    ensures Render(template, REASON_PLACEHOLDER, FIXED_ON_PLACEHOLDER) == template
    decreases |template|
  {
    if template == "" {
    } else {
      var token := NextToken(template);
      var rest := template[token.Width()..];
      TokenText(template, token);
      RenderIdentity(rest);
      SubstituteStep(token, Tokens(rest), REASON_PLACEHOLDER, FIXED_ON_PLACEHOLDER);
    }
  }

  lemma PrefixIgnoresNextBrace(a: string, b: string, placeholder: string)
    requires a != "" && (b == "" || b[0] == '{')
    requires forall i | 0 < i < |placeholder| :: placeholder[i] != '{'
    ensures StartsWith(a + b, placeholder) <==> StartsWith(a, placeholder)
  {
    StartsWithExactly(a + b, placeholder);
    StartsWithExactly(a, placeholder);
    assert |a| < |placeholder| && b != "" ==> (a + b)[|a|] != placeholder[|a|];
    assert forall i | 0 <= i < |a| :: (a + b)[i] == a[i];
  }

  lemma DropOfConcat(a: string, b: string, n: nat)
    requires n <= |a|
    ensures (a + b)[n..] == a[n..] + b
  {
  }

  lemma TokenIgnoresNextBrace(a: string, b: string)
    requires a != "" && (b == "" || b[0] == '{')
    ensures NextToken(a + b) == NextToken(a)
  {
    PrefixIgnoresNextBrace(a, b, REASON_PLACEHOLDER);
    PrefixIgnoresNextBrace(a, b, FIXED_ON_PLACEHOLDER);
  }

  lemma {:induction false} TokensConcatenate(a: string, b: string)
    requires b == "" || b[0] == '{'
    ensures Tokens(a + b) == Tokens(a) + Tokens(b)
    decreases |a|
  {
    if a == "" {
      assert a + b == b;
    } else {
      var n := NextToken(a).Width();
      TokenIgnoresNextBrace(a, b);
      DropOfConcat(a, b, n);
      TokensConcatenate(a[n..], b);
    }
  }

  /** A template can be cut before any brace: its parts render independently. */
  lemma RenderConcatenates(a: string, b: string, reason: string, fixedOn: string)
    requires b == "" || b[0] == '{'
    ensures Render(a + b, reason, fixedOn) == Render(a, reason, fixedOn) + Render(b, reason, fixedOn)
  {
    TokensConcatenate(a, b);
    SubstituteConcatenates(Tokens(a), Tokens(b), reason, fixedOn);
  }

  /** Inserted text is never scanned again: wherever a placeholder stands, the text around it
      renders as if alone, with exactly the substituted value in between. */
  lemma RenderAtPlaceholder(template: string, i: nat, token: Token, reason: string, fixedOn: string)
    requires token.Reason? ==> OccursAt(template, REASON_PLACEHOLDER, i)
    requires token.FixedOn? ==> OccursAt(template, FIXED_ON_PLACEHOLDER, i)
    requires !token.Literal?
    ensures i + token.Width() <= |template|
    ensures Render(template, reason, fixedOn) ==
            Render(template[..i], reason, fixedOn) + token.Rendered(reason, fixedOn) +
            Render(template[i + token.Width()..], reason, fixedOn)
  {
    var found, rest := template[i..], template[i + token.Width()..];
    assert template == template[..i] + found && found[token.Width()..] == rest;
    if token.Reason? {
      ReasonToken(found);
    } else {
      FixedOnToken(found);
    }
    RenderConcatenates(template[..i], found, reason, fixedOn);
    SubstituteConcatenates([token], Tokens(rest), reason, fixedOn);
    SubstituteOne(token, reason, fixedOn);
    Associates(Render(template[..i], reason, fixedOn), token.Rendered(reason, fixedOn), Render(rest, reason, fixedOn));
  }

  // --- The placeholder scanner --------------------------------------------

  predicate IsIdentifierChar(c: char) {
    IsAsciiAlphanumeric(c) || c == '_'
  }

  /** The length of the identifier `s` starts with. */
  function IdentifierLength(s: string): (n: nat)
    ensures n <= |s| && forall i | 0 <= i < n :: IsIdentifierChar(s[i])
    ensures n < |s| ==> !IsIdentifierChar(s[n])
  {
    if s == "" || !IsIdentifierChar(s[0]) then 0 else 1 + IdentifierLength(s[1..])
  }

  /** The `{identifier}` token `s` starts with, if any. */
  function LeadingPlaceholder(s: string): Option<string> {
    if s == "" || s[0] != '{' then
      None
    else
      var rest := s[1..];
      var length := IdentifierLength(rest);
      if 0 < length < |rest| && rest[length] == '}' then Some(s[..length + 2]) else None
  }

  /** `placeholders`: the token at every brace, in order. */
  function Placeholders(template: string): seq<string> {
    if template == "" then
      []
    else
      match LeadingPlaceholder(template)
      case Some(placeholder) => [placeholder] + Placeholders(template[1..])
      case None => Placeholders(template[1..])
  }

  function Known(placeholders: seq<string>): seq<string> {
    if placeholders == [] then
      []
    else if IsKnown(placeholders[0]) then
      [placeholders[0]] + Known(placeholders[1..])
    else
      Known(placeholders[1..])
  }

  /** The placeholders the renderer replaces, in order. */
  function Replaced(tokens: seq<Token>): seq<string> {
    if tokens == [] then
      []
    else
      match tokens[0]
      case Literal(_) => Replaced(tokens[1..])
      case Reason => [REASON_PLACEHOLDER] + Replaced(tokens[1..])
      case FixedOn => [FIXED_ON_PLACEHOLDER] + Replaced(tokens[1..])
  }

  lemma {:induction false} NoPlaceholdersWithoutBrace(s: string, n: nat)
    requires n <= |s| && forall i | 0 <= i < n :: s[i] != '{'
    ensures Placeholders(s) == Placeholders(s[n..])
  {
    if n > 0 {
      NoPlaceholdersWithoutBrace(s[1..], n - 1);
      assert s[1..][n - 1..] == s[n..];
    } else {
      assert s[0..] == s;
    }
  }

  lemma KnownLeads(s: string, placeholder: string)
    requires IsKnown(placeholder)
    ensures StartsWith(s, placeholder) <==> LeadingPlaceholder(s) == Some(placeholder)
  {
    var n := |placeholder| - 2;
    StartsWithExactly(s, placeholder);
    if StartsWith(s, placeholder) {
      assert forall i | 0 <= i < n :: s[1..][i] == placeholder[i + 1] && IsIdentifierChar(placeholder[i + 1]);
      assert s[1..][n] == placeholder[n + 1] == '}';
      assert IdentifierLength(s[1..]) == n;
      assert s[..n + 2] == placeholder;
    }
  }

  lemma KnownHasOneBrace(placeholder: string)
    requires IsKnown(placeholder)
    ensures |placeholder| >= 3 && forall i | 0 < i < |placeholder| :: placeholder[i] != '{'
  {
  }

  lemma PlaceholderStep(s: string, placeholder: string)
    requires IsKnown(placeholder) && StartsWith(s, placeholder)
    ensures Placeholders(s) == [placeholder] + Placeholders(s[|placeholder|..])
  {
    var n := |placeholder| - 1;
    StartsWithExactly(s, placeholder);
    KnownLeads(s, placeholder);
    KnownHasOneBrace(placeholder);
    assert Placeholders(s) == [placeholder] + Placeholders(s[1..]);
    forall i | 0 <= i < n ensures s[1..][i] != '{' {
      assert s[1..][i] == placeholder[i + 1];
    }
    NoPlaceholdersWithoutBrace(s[1..], n);
    assert s[1..][n..] == s[|placeholder|..];
  }

  lemma KnownStep(placeholder: string, rest: seq<string>)
    ensures Known([placeholder] + rest) == if IsKnown(placeholder) then [placeholder] + Known(rest) else Known(rest)
  {
    assert ([placeholder] + rest)[1..] == rest;
  }

  lemma LiteralListsNothingKnown(s: string)
    requires StartsLiteral(s)
    ensures Known(Placeholders(s)) == Known(Placeholders(s[1..]))
  {
    KnownLeads(s, REASON_PLACEHOLDER);
    KnownLeads(s, FIXED_ON_PLACEHOLDER);
    if LeadingPlaceholder(s).Some? {
      KnownStep(LeadingPlaceholder(s).value, Placeholders(s[1..]));
    }
  }

  lemma ReplacedStep(token: Token, tokens: seq<Token>)
    ensures Replaced([token] + tokens) ==
            match token
            case Literal(_) => Replaced(tokens)
            case Reason => [REASON_PLACEHOLDER] + Replaced(tokens)
            case FixedOn => [FIXED_ON_PLACEHOLDER] + Replaced(tokens)
  {
    assert ([token] + tokens)[1..] == tokens;
  }

  /** The renderer replaces exactly the known placeholders that the scanner lists, in order. */
  lemma {:induction false} RendererAgreesWithScanner(template: string)
    ensures Replaced(Tokens(template)) == Known(Placeholders(template))
    decreases |template|
  {
    if template == "" {
    } else if StartsWith(template, REASON_PLACEHOLDER) {
      ReasonToken(template);
      ReplacedStep(Reason, Tokens(template[8..]));
      PlaceholderStep(template, REASON_PLACEHOLDER);
      KnownStep(REASON_PLACEHOLDER, Placeholders(template[8..]));
      RendererAgreesWithScanner(template[8..]);
    } else if StartsWith(template, FIXED_ON_PLACEHOLDER) {
      FixedOnToken(template);
      ReplacedStep(FixedOn, Tokens(template[10..]));
      PlaceholderStep(template, FIXED_ON_PLACEHOLDER);
      KnownStep(FIXED_ON_PLACEHOLDER, Placeholders(template[10..]));
      RendererAgreesWithScanner(template[10..]);
    } else {
      LiteralToken(template);
      ReplacedStep(Literal(template[0]), Tokens(template[1..]));
      LiteralListsNothingKnown(template);
      RendererAgreesWithScanner(template[1..]);
    }
  }

  /** From `i` to `j` stand a brace, at least one ASCII letter, digit or underscore, and a brace. */
  ghost predicate IsToken(template: string, i: int, j: int) {
    && 0 <= i && i + 3 <= j <= |template| && template[i] == '{' && template[j - 1] == '}'
    && forall k | i < k < j - 1 ::
         || 'a' <= template[k] <= 'z' || 'A' <= template[k] <= 'Z' || '0' <= template[k] <= '9' || template[k] == '_'
  }

  lemma LeadingTokenExactly(s: string)
    ensures match LeadingPlaceholder(s)
            case Some(p) => IsToken(s, 0, |p|) && p == s[..|p|] && forall j | IsToken(s, 0, j) :: j == |p|
            case None => forall j :: !IsToken(s, 0, j)
  {
    if s != "" && s[0] == '{' {
      var rest := s[1..];
      var n := IdentifierLength(rest);
      forall j | IsToken(s, 0, j) ensures j == n + 2 && n > 0 && rest[n] == '}' {
        assert forall k | 0 <= k < j - 2 :: rest[k] == s[k + 1] && IsIdentifierChar(rest[k]);
        assert rest[j - 2] == '}';
      }
      assert forall k | 0 < k <= n :: s[k] == rest[k - 1];
    }
  }

  lemma TokenShift(s: string, i: int, j: int)
    requires s != "" && 0 < i
    ensures IsToken(s, i, j) <==> IsToken(s[1..], i - 1, j - 1)
    ensures IsToken(s, i, j) ==> s[i..j] == s[1..][i - 1..j - 1]
  {
    if IsToken(s, i, j) {
      assert forall k | i - 1 < k < j - 2 :: s[1..][k] == s[k + 1];
    }
    if IsToken(s[1..], i - 1, j - 1) {
      assert forall k | i < k < j - 1 :: s[k] == s[1..][k - 1];
    }
  }

  /** Whatever is written like a placeholder is listed. */
  lemma {:induction false} TokensAreListed(template: string, i: int, j: int)
    requires IsToken(template, i, j)
    ensures template[i..j] in Placeholders(template)
  {
    LeadingTokenExactly(template);
    if i > 0 {
      TokenShift(template, i, j);
      TokensAreListed(template[1..], i - 1, j - 1);
    }
  }

  /** What is listed at the start of a template: one placeholder or none. */
  function Leading(template: string): seq<string> {
    match LeadingPlaceholder(template)
    case Some(p) => [p]
    case None => []
  }

  lemma PlaceholdersOfRest(template: string)
    requires template != ""
    ensures Placeholders(template) == Leading(template) + Placeholders(template[1..])
    ensures forall j | IsToken(template, 0, j) :: Leading(template) == [template[0..j]]
    ensures Leading(template) != [] ==>
              IsToken(template, 0, |Leading(template)[0]|) && Leading(template)[0] == template[..|Leading(template)[0]|]
  {
    LeadingTokenExactly(template);
  }

  lemma InPrefixOfConcat(front: seq<string>, rest: seq<string>, n: nat, x: string)
    requires n <= |rest| && (x in front || x in rest[..n])
    ensures x in (front + rest)[..|front| + n]
  {
    assert (front + rest)[..|front| + n] == front + rest[..n];
  }

  /** What is listed at `m` stands somewhere, and all placeholders before it are listed before. */
  lemma {:induction false} ListedTokenStands(template: string, m: nat) returns (i: int, j: int)
    requires m < |Placeholders(template)|
    ensures IsToken(template, i, j) && template[i..j] == Placeholders(template)[m]
    ensures forall h, k | IsToken(template, h, k) && h < i :: template[h..k] in Placeholders(template)[..m]
  {
    PlaceholdersOfRest(template);
    var front, rest := Leading(template), template[1..];
    if m < |front| {
      i, j := 0, |front[0]|;
    } else {
      i, j := ListedTokenStands(rest, m - |front|);
      i, j := i + 1, j + 1;
      TokenShift(template, i, j);
      forall h, k | IsToken(template, h, k) && h < i ensures template[h..k] in Placeholders(template)[..m] {
        if h > 0 {
          TokenShift(template, h, k);
        }
        InPrefixOfConcat(front, Placeholders(rest), m - |front|, template[h..k]);
      }
    }
  }

  /** By how much the listed placeholders change the length, each by what it is replaced with. */
  function Growth(placeholders: seq<string>, reason: int, fixedOn: int): int {
    if placeholders == [] then
      0
    else
      (if placeholders[0] == REASON_PLACEHOLDER then reason - |REASON_PLACEHOLDER|
       else if placeholders[0] == FIXED_ON_PLACEHOLDER then fixedOn - |FIXED_ON_PLACEHOLDER|
       else 0) + Growth(placeholders[1..], reason, fixedOn)
  }

  lemma GrowthStep(placeholder: string, rest: seq<string>, reason: int, fixedOn: int)
    ensures Growth([placeholder] + rest, reason, fixedOn) ==
            Growth(rest, reason, fixedOn) + Growth([placeholder], reason, fixedOn)
  {
    assert ([placeholder] + rest)[1..] == rest && [placeholder][1..] == [];
  }

  lemma {:induction false} GrowthOfKnown(placeholders: seq<string>, reason: int, fixedOn: int)
    ensures Growth(Known(placeholders), reason, fixedOn) == Growth(placeholders, reason, fixedOn)
  {
    if placeholders == [] {
    } else {
      GrowthOfKnown(placeholders[1..], reason, fixedOn);
      GrowthStep(placeholders[0], Known(placeholders[1..]), reason, fixedOn);
      GrowthStep(placeholders[0], placeholders[1..], reason, fixedOn);
      assert placeholders == [placeholders[0]] + placeholders[1..];
    }
  }

  lemma GrowthOfOne(reason: int, fixedOn: int)
    ensures Growth([REASON_PLACEHOLDER], reason, fixedOn) == reason - 8
    ensures Growth([FIXED_ON_PLACEHOLDER], reason, fixedOn) == fixedOn - 10
  {
    assert REASON_PLACEHOLDER[1] != FIXED_ON_PLACEHOLDER[1];
  }

  /** Compared with the placeholders themselves, every token changes the length by what it renders to. */
  lemma {:induction false} SubstituteLength(tokens: seq<Token>, reason: string, fixedOn: string)
    ensures |Substitute(tokens, reason, fixedOn)| ==
            |Substitute(tokens, REASON_PLACEHOLDER, FIXED_ON_PLACEHOLDER)| + Growth(Replaced(tokens), |reason|, |fixedOn|)
  {
    if tokens == [] {
    } else {
      SubstituteLength(tokens[1..], reason, fixedOn);
      GrowthOfOne(|reason|, |fixedOn|);
      GrowthStep(REASON_PLACEHOLDER, Replaced(tokens[1..]), |reason|, |fixedOn|);
      GrowthStep(FIXED_ON_PLACEHOLDER, Replaced(tokens[1..]), |reason|, |fixedOn|);
    }
  }

  /** The rendered length is the template's, changed once for every placeholder the scanner lists. */
  lemma RenderLength(template: string, reason: string, fixedOn: string)
    ensures |Render(template, reason, fixedOn)| ==
            |template| + Growth(Placeholders(template), |reason|, |fixedOn|)
  {
    SubstituteLength(Tokens(template), reason, fixedOn);
    RenderIdentity(template);
    RendererAgreesWithScanner(template);
    GrowthOfKnown(Placeholders(template), |reason|, |fixedOn|);
  }

  // --- Validation ---------------------------------------------------------

  datatype TemplateName =
    | Confirmed
    | NotReproducible
    | AlreadyFixed
    | NotVulnerability
    | OutOfScope
    | Duplicate
    | FixLive
    | FixLiveRewarded

  datatype SecurityTemplates = SecurityTemplates(
    confirmed: string,
    notReproducible: string,
    alreadyFixed: string,
    notVulnerability: string,
    outOfScope: string,
    duplicate: string,
    fixLive: string,
    fixLiveRewarded: string)
  {
    function Named(): seq<(TemplateName, string)> {
      [
        (Confirmed, confirmed),
        (NotReproducible, notReproducible),
        (AlreadyFixed, alreadyFixed),
        (NotVulnerability, notVulnerability),
        (OutOfScope, outOfScope),
        (Duplicate, duplicate),
        (FixLive, fixLive),
        (FixLiveRewarded, fixLiveRewarded)
      ]
    }
  }

  datatype TemplateError =
    | Empty(name: TemplateName)
    | UnknownPlaceholder(name: TemplateName, placeholder: string)
    | MissingPlaceholder(name: TemplateName, required: string)

  function RequiredPlaceholder(name: TemplateName): Option<string> {
    match name
    case NotVulnerability => Some(REASON_PLACEHOLDER)
    case OutOfScope => Some(REASON_PLACEHOLDER)
    case AlreadyFixed => Some(FIXED_ON_PLACEHOLDER)
    case _ => None
  }

  predicate AllKnown(placeholders: seq<string>) {
    forall i | 0 <= i < |placeholders| :: IsKnown(placeholders[i])
  }

  /** What a template must satisfy. */
  ghost predicate IsValid(name: TemplateName, template: string) {
    && Trim(template) != ""
    && AllKnown(Placeholders(template))
    && (RequiredPlaceholder(name).Some? ==> Contains(template, RequiredPlaceholder(name).value))
  }

  /** Nothing but the two placeholders is written like one. */
  ghost predicate UsesOnlyKnown(template: string) {
    forall i, j | IsToken(template, i, j) :: template[i..j] == "{reason}" || template[i..j] == "{fixed_on}"
  }

  /** `unknown` is the first thing written like a placeholder that is none of the two. */
  ghost predicate IsFirstUnknown(template: string, unknown: string) {
    && unknown != "{reason}" && unknown != "{fixed_on}"
    && exists i, j ::
         && IsToken(template, i, j) && template[i..j] == unknown
         && forall h, k | IsToken(template, h, k) && h < i :: template[h..k] == "{reason}" || template[h..k] == "{fixed_on}"
  }

  lemma UsesOnlyKnownExactly(template: string)
    ensures AllKnown(Placeholders(template)) <==> UsesOnlyKnown(template)
  {
    var listed := Placeholders(template);
    if AllKnown(listed) {
      forall i, j | IsToken(template, i, j) ensures IsKnown(template[i..j]) {
        TokensAreListed(template, i, j);
      }
    }
    if UsesOnlyKnown(template) {
      forall m | 0 <= m < |listed| ensures IsKnown(listed[m]) {
        var i, j := ListedTokenStands(template, m);
      }
    }
  }

  lemma FirstUnknownExactly(template: string, m: nat)
    requires m < |Placeholders(template)| && !IsKnown(Placeholders(template)[m]) && AllKnown(Placeholders(template)[..m])
    ensures IsFirstUnknown(template, Placeholders(template)[m])
  {
    var i, j := ListedTokenStands(template, m);
    forall h, k | IsToken(template, h, k) && h < i ensures IsKnown(template[h..k]) {
      var n :| 0 <= n < m && Placeholders(template)[..m][n] == template[h..k];
    }
  }

  /** `part` stands somewhere in `s`. */
  ghost predicate HasPart(s: string, part: string) {
    exists i, j | 0 <= i <= j <= |s| :: s[i..j] == part
  }

  lemma ContainsExactly(s: string, part: string)
    ensures Contains(s, part) <==> HasPart(s, part)
  {
    if i :| 0 <= i <= |s| && OccursAt(s, part, i) {
      StartsWithExactly(s[i..], part);
      assert s[i..i + |part|] == s[i..][..|part|] == part;
    }
    if i, j :| 0 <= i <= j <= |s| && s[i..j] == part {
      StartsWithExactly(s[i..], part);
      assert s[i..][..|part|] == s[i..j];
      assert OccursAt(s, part, i);
    }
  }

  ghost predicate IsNotBlank(s: string) {
    exists k | 0 <= k < |s| :: !IsWhitespace(s[k])
  }

  /** What a template must be: not blank, with no unknown placeholders, and with `required` in it. */
  ghost predicate IsFine(template: string, required: string) {
    IsNotBlank(template) && UsesOnlyKnown(template) && HasPart(template, required)
  }

  /** `error` tells the first of these three that fails. */
  ghost predicate IsWrong(error: TemplateError, template: string, required: string) {
    match error
    case Empty(_) => !IsNotBlank(template)
    case UnknownPlaceholder(_, unknown) =>
      IsNotBlank(template) && IsFirstUnknown(template, unknown)
    case MissingPlaceholder(_, missing) =>
      && IsNotBlank(template) && UsesOnlyKnown(template)
      && missing == required && !HasPart(template, required)
  }

  function RequiredText(name: TemplateName): string {
    RequiredPlaceholder(name).GetOr("")
  }

  lemma IsValidExactly(name: TemplateName, template: string)
    ensures IsValid(name, template) <==> IsFine(template, RequiredText(name))
  {
    BlankExactly(template);
    UsesOnlyKnownExactly(template);
    ContainsExactly(template, RequiredText(name));
    assert template[0..0] == "";
  }

  /** `error` is the first thing wrong with a template, in the order empty, unknown, missing. */
  ghost predicate Explains(error: TemplateError, name: TemplateName, template: string) {
    error.name == name &&
    match error
    case Empty(_) => Trim(template) == ""
    case UnknownPlaceholder(_, unknown) =>
      && Trim(template) != ""
      && exists i | 0 <= i < |Placeholders(template)| ::
           && Placeholders(template)[i] == unknown && !IsKnown(unknown)
           && AllKnown(Placeholders(template)[..i])
    case MissingPlaceholder(_, required) =>
      && Trim(template) != "" && AllKnown(Placeholders(template))
      && RequiredPlaceholder(name) == Some(required) && !Contains(template, required)
  }

  lemma ExplainsExactly(error: TemplateError, name: TemplateName, template: string)
    requires Explains(error, name, template)
    ensures error.name == name && IsWrong(error, template, RequiredText(name))
  {
    BlankExactly(template);
    UsesOnlyKnownExactly(template);
    match error
    case Empty(_) =>
    case UnknownPlaceholder(_, unknown) =>
      var m :| 0 <= m < |Placeholders(template)| && Placeholders(template)[m] == unknown && !IsKnown(unknown)
               && AllKnown(Placeholders(template)[..m]);
      FirstUnknownExactly(template, m);
    case MissingPlaceholder(_, required) =>
      ContainsExactly(template, required);
  }

  /** The first placeholder that is not filled in. */
  function FindUnknown(placeholders: seq<string>): (r: Option<nat>)
    ensures r.Some? ==> r.value < |placeholders| && !IsKnown(placeholders[r.value]) && AllKnown(placeholders[..r.value])
    ensures r.None? ==> AllKnown(placeholders)
  {
    First(placeholders, (p: string) => !IsKnown(p))
  }

  /** The body of the loop of `validate`. */
  method ValidateOne(name: TemplateName, template: string) returns (error: Option<TemplateError>)
    ensures error.None? <==> IsValid(name, template)
    ensures error.Some? ==> Explains(error.value, name, template)
  {
    if Trim(template) == "" {
      return Some(Empty(name));
    }
    var listed := Placeholders(template);
    var unknown := FindUnknown(listed);
    if unknown.Some? {
      assert Explains(UnknownPlaceholder(name, listed[unknown.value]), name, template);
      return Some(UnknownPlaceholder(name, listed[unknown.value]));
    }
    var required := RequiredPlaceholder(name);
    if required.Some? && !Contains(template, required.value) {
      return Some(MissingPlaceholder(name, required.value));
    }
    return None;
  }

  /** Every template of the configuration is valid. */
  ghost predicate AllValid(named: seq<(TemplateName, string)>) {
    forall i | 0 <= i < |named| :: IsValid(named[i].0, named[i].1)
  }

  lemma AllValidAppends(named: seq<(TemplateName, string)>, last: (TemplateName, string))
    ensures AllValid(named + [last]) <==> AllValid(named) && IsValid(last.0, last.1)
  {
    assert forall i | 0 <= i < |named| :: (named + [last])[i] == named[i];
    assert (named + [last])[|named|] == last;
  }

  /** `error` is the first problem of the first invalid template. */
  ghost predicate IsFirstProblem(error: TemplateError, named: seq<(TemplateName, string)>) {
    exists i | 0 <= i < |named| :: Explains(error, named[i].0, named[i].1) && AllValid(named[..i])
  }

  /** The loop of `validate`. */
  method ValidateNamed(named: seq<(TemplateName, string)>) returns (result: Result<(), TemplateError>)
    ensures result.Ok? <==> AllValid(named)
    ensures result.Err? ==> IsFirstProblem(result.error, named)
  {
    for i := 0 to |named|
      invariant AllValid(named[..i])
    {
      var error := ValidateOne(named[i].0, named[i].1);
      if error.Some? {
        return Err(error.value);
      }
      assert named[..i + 1] == named[..i] + [named[i]];
    }
    assert named[..|named|] == named;
    return Ok(());
  }

  /** The first `n` of the eight templates are fine: two must have a reason in them and one a date. */
  ghost predicate FirstFine(t: SecurityTemplates, n: nat) {
    && (0 < n ==> IsFine(t.confirmed, ""))
    && (1 < n ==> IsFine(t.notReproducible, ""))
    && (2 < n ==> IsFine(t.alreadyFixed, "{fixed_on}"))
    && (3 < n ==> IsFine(t.notVulnerability, "{reason}"))
    && (4 < n ==> IsFine(t.outOfScope, "{reason}"))
    && (5 < n ==> IsFine(t.duplicate, ""))
    && (6 < n ==> IsFine(t.fixLive, ""))
    && (7 < n ==> IsFine(t.fixLiveRewarded, ""))
  }

  /** The field that `error` names is wrong in the way it says, and the fields before it are fine. */
  ghost predicate NamesFirstWrong(t: SecurityTemplates, error: TemplateError) {
    match error.name
    case Confirmed => FirstFine(t, 0) && IsWrong(error, t.confirmed, "")
    case NotReproducible => FirstFine(t, 1) && IsWrong(error, t.notReproducible, "")
    case AlreadyFixed => FirstFine(t, 2) && IsWrong(error, t.alreadyFixed, "{fixed_on}")
    case NotVulnerability => FirstFine(t, 3) && IsWrong(error, t.notVulnerability, "{reason}")
    case OutOfScope => FirstFine(t, 4) && IsWrong(error, t.outOfScope, "{reason}")
    case Duplicate => FirstFine(t, 5) && IsWrong(error, t.duplicate, "")
    case FixLive => FirstFine(t, 6) && IsWrong(error, t.fixLive, "")
    case FixLiveRewarded => FirstFine(t, 7) && IsWrong(error, t.fixLiveRewarded, "")
  }

  lemma NamedFields(t: SecurityTemplates)
    ensures var named := t.Named();
            && |named| == 8
            && named[0] == (Confirmed, t.confirmed) && named[1] == (NotReproducible, t.notReproducible)
            && named[2] == (AlreadyFixed, t.alreadyFixed) && named[3] == (NotVulnerability, t.notVulnerability)
            && named[4] == (OutOfScope, t.outOfScope) && named[5] == (Duplicate, t.duplicate)
            && named[6] == (FixLive, t.fixLive) && named[7] == (FixLiveRewarded, t.fixLiveRewarded)
  {
  }

  lemma {:induction false} FirstFineExactly(t: SecurityTemplates, n: nat)
    requires n <= 8
    ensures AllValid(t.Named()[..n]) <==> FirstFine(t, n)
  {
    if n == 0 {
    } else {
      var named := t.Named();
      NamedFields(t);
      FirstFineExactly(t, n - 1);
      IsValidExactly(named[n - 1].0, named[n - 1].1);
      AllValidAppends(named[..n - 1], named[n - 1]);
      assert named[..n] == named[..n - 1] + [named[n - 1]];
    }
  }

  lemma FirstProblemExactly(t: SecurityTemplates, error: TemplateError)
    requires IsFirstProblem(error, t.Named())
    ensures NamesFirstWrong(t, error)
  {
    var named := t.Named();
    NamedFields(t);
    var i :| 0 <= i < 8 && Explains(error, named[i].0, named[i].1) && AllValid(named[..i]);
    ExplainsExactly(error, named[i].0, named[i].1);
    FirstFineExactly(t, i);
  }

  /** `SecurityTemplates::validate`. */
  method Validate(templates: SecurityTemplates) returns (result: Result<(), TemplateError>)
    ensures result.Ok? <==> FirstFine(templates, 8)
    ensures result.Err? ==> NamesFirstWrong(templates, result.error)
    ensures result.Ok? <==> AllValid(templates.Named())
    ensures result.Err? ==> IsFirstProblem(result.error, templates.Named())
  {
    result := ValidateNamed(templates.Named());
    FirstFineExactly(templates, 8);
    assert templates.Named()[..8] == templates.Named();
    if result.Err? {
      FirstProblemExactly(templates, result.error);
    }
  }

  lemma ContainsMiddle(a: string, b: string, c: string)
    ensures Contains(a + b + c, b)
  {
    assert (a + b + c)[|a|..] == b + c;
    StartsWithExactly(b + c, b);
    assert OccursAt(a + b + c, b, |a|);
  }

  lemma IsDelivered(template: string, token: Token, placeholder: string, reason: string, fixedOn: string)
    requires (token == Reason && placeholder == REASON_PLACEHOLDER) || (token == FixedOn && placeholder == FIXED_ON_PLACEHOLDER)
    requires Contains(template, placeholder)
    ensures Contains(Render(template, reason, fixedOn), token.Rendered(reason, fixedOn))
  {
    var i :| 0 <= i <= |template| && OccursAt(template, placeholder, i);
    RenderAtPlaceholder(template, i, token, reason, fixedOn);
    ContainsMiddle(Render(template[..i], reason, fixedOn), token.Rendered(reason, fixedOn),
                   Render(template[i + token.Width()..], reason, fixedOn));
  }

  /** Valid templates deliver their content, whatever it is: a rejection contains its reason and
      an already-fixed reply its date. */
  lemma ValidTemplatesDeliver(templates: SecurityTemplates, reason: string, fixedOn: string)
    requires AllValid(templates.Named())
    ensures Contains(Render(templates.notVulnerability, reason, fixedOn), reason)
    ensures Contains(Render(templates.outOfScope, reason, fixedOn), reason)
    ensures Contains(Render(templates.alreadyFixed, reason, fixedOn), fixedOn)
  {
    assert templates.Named()[2] == (AlreadyFixed, templates.alreadyFixed);
    assert templates.Named()[3] == (NotVulnerability, templates.notVulnerability);
    assert templates.Named()[4] == (OutOfScope, templates.outOfScope);
    IsDelivered(templates.notVulnerability, Reason, REASON_PLACEHOLDER, reason, fixedOn);
    IsDelivered(templates.outOfScope, Reason, REASON_PLACEHOLDER, reason, fixedOn);
    IsDelivered(templates.alreadyFixed, FixedOn, FIXED_ON_PLACEHOLDER, reason, fixedOn);
  }

  lemma {:induction false} KnownOfAllKnown(placeholders: seq<string>)
    requires AllKnown(placeholders)
    ensures Known(placeholders) == placeholders
  {
    if placeholders == [] {
    } else {
      KnownOfAllKnown(placeholders[1..]);
    }
  }

  /** In a valid template the renderer fills in every placeholder the scanner lists. */
  lemma ValidTemplatesAreFilledIn(name: TemplateName, template: string)
    requires IsValid(name, template)
    ensures Replaced(Tokens(template)) == Placeholders(template)
  {
    RendererAgreesWithScanner(template);
    KnownOfAllKnown(Placeholders(template));
  }
}
