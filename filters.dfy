/**
 * Evaluation of the JSON-configured filters against the Mail.app listing:
 * one pattern against one email, the enabled-pattern filter over a list, and
 * the regular-expression preview.
 */
module Filters {
  import opened Wrappers
  import opened Text
  import opened Seqs
  import opened Mail
  import Regex

  /** The header texts a field selects, in the order they are tried. */
  function FieldTexts(e: Email, field: FilterField): seq<string> {
    match field
    case Subject => [e.subject]
    case Sender => [e.sender]
    case Any => [e.subject, e.sender]
  }

  /**
   * One pattern against one text: a case-sensitive regular expression that
   * matches nothing when it does not compile, or else a lowercase substring test.
   */
  predicate MatchesText(engine: Regex.Engine, p: FilterPattern, text: string) {
    if p.isRegex then engine.valid(p.pattern) && engine.isMatch(p.pattern, text, false)
    else Contains(Lower(text), Lower(p.pattern))
  }

  /** `email_matches_pattern`: the pattern matches one of the texts its field selects. */
  function EmailMatchesPattern(engine: Regex.Engine, e: Email, p: FilterPattern): (r: bool)
    ensures r <==> exists t :: t in FieldTexts(e, p.field) && MatchesText(engine, p, t)
  {
    match p.field
    case Subject => MatchesText(engine, p, e.subject)
    case Sender => MatchesText(engine, p, e.sender)
    case Any => MatchesText(engine, p, e.subject) || MatchesText(engine, p, e.sender)
  }

  /** A regular expression that fails to compile never matches; it is not an error. */
  lemma InvalidRegexNeverMatches(engine: Regex.Engine, e: Email, p: FilterPattern)
    requires p.isRegex && !engine.valid(p.pattern)
    ensures !EmailMatchesPattern(engine, e, p)
  {
    forall t | t in FieldTexts(e, p.field) ensures !MatchesText(engine, p, t) {
    }
  }

  /** In text mode a match is an occurrence of the lowercased pattern in a lowercased selected field. */
  lemma TextModeMatch(engine: Regex.Engine, e: Email, p: FilterPattern)
    requires !p.isRegex
    ensures EmailMatchesPattern(engine, e, p)
        <==> exists t, j: nat :: t in FieldTexts(e, p.field) && OccursAt(Lower(t), Lower(p.pattern), j)
  {
    var pat := Lower(p.pattern);
    if EmailMatchesPattern(engine, e, p) {
      var t :| t in FieldTexts(e, p.field) && MatchesText(engine, p, t);
      var j := Find(Lower(t), pat).value;
      assert t in FieldTexts(e, p.field) && OccursAt(Lower(t), pat, j);
    }
    if exists t, j: nat :: t in FieldTexts(e, p.field) && OccursAt(Lower(t), pat, j) {
      var t, j: nat :| t in FieldTexts(e, p.field) && OccursAt(Lower(t), pat, j);
      assert Find(Lower(t), pat).Some?;
      assert MatchesText(engine, p, t);
      assert EmailMatchesPattern(engine, e, p);
    }
  }

  /** Text mode ignores the case of both the field and the pattern. */
  lemma TextModeIgnoresCase(engine: Regex.Engine, p: FilterPattern, text: string)
    requires !p.isRegex
    ensures MatchesText(engine, p, text) == MatchesText(engine, p, Lower(text))
    ensures MatchesText(engine, p, text) == MatchesText(engine, p.(pattern := Lower(p.pattern)), text)
  {
    LowerIdempotent(text);
    LowerIdempotent(p.pattern);
  }

  /** `Subject` looks only at the subject, `Sender` only at the sender, and `Any` is either. */
  lemma FieldDispatch(engine: Regex.Engine, e1: Email, e2: Email, p: FilterPattern)
    ensures p.field == Subject && e1.subject == e2.subject ==> EmailMatchesPattern(engine, e1, p) == EmailMatchesPattern(engine, e2, p)
    ensures p.field == Sender && e1.sender == e2.sender ==> EmailMatchesPattern(engine, e1, p) == EmailMatchesPattern(engine, e2, p)
    ensures p.field == Any ==>
      (EmailMatchesPattern(engine, e1, p)
       == (EmailMatchesPattern(engine, e1, p.(field := Subject)) || EmailMatchesPattern(engine, e1, p.(field := Sender))))
  {
  }

  /** `patterns.iter().any(..)`: some pattern of the list matches the email. */
  function AnyMatches(engine: Regex.Engine, e: Email, ps: seq<FilterPattern>): (r: bool)
    ensures r <==> exists p :: p in ps && EmailMatchesPattern(engine, e, p)
  {
    if ps == [] then false
    else EmailMatchesPattern(engine, e, ps[0]) || AnyMatches(engine, e, ps[1..])
  }

  /** An email is selected when some enabled pattern matches it. */
  ghost predicate Selected(engine: Regex.Engine, e: Email, patterns: seq<FilterPattern>) {
    exists p :: p in patterns && p.enabled && EmailMatchesPattern(engine, e, p)
  }

  /** The enabled patterns, in order. */
  function EnabledPatterns(patterns: seq<FilterPattern>): seq<FilterPattern> {
    Filter(patterns, (p: FilterPattern) => p.enabled)
  }

  /**
   * `apply_filters`: the input emails, in input order and with their
   * multiplicity, that some enabled pattern matches; nothing when no
   * pattern is enabled.
   */
  function ApplyFilters(engine: Regex.Engine, emails: seq<Email>, patterns: seq<FilterPattern>): (r: seq<Email>)
    ensures (forall p :: p in patterns ==> !p.enabled) ==> r == []
    ensures forall e :: e in r <==> e in emails && Selected(engine, e, patterns)
    ensures forall e :: multiset(r)[e] == if Selected(engine, e, patterns) then multiset(emails)[e] else 0
    ensures IsSubsequence(r, emails)
  {
    var enabled := EnabledPatterns(patterns);
    if enabled == [] then
      []
    else
      Filter(emails, (e: Email) => AnyMatches(engine, e, enabled))
  }

  /** Adding a disabled pattern never changes which emails are selected. */
  lemma DisabledPatternIgnored(engine: Regex.Engine, emails: seq<Email>, patterns: seq<FilterPattern>, p: FilterPattern)
    requires !p.enabled
    ensures ApplyFilters(engine, emails, patterns + [p]) == ApplyFilters(engine, emails, patterns)
  {
    FilterAppend(patterns, [p], (q: FilterPattern) => q.enabled);
    assert EnabledPatterns(patterns + [p]) == EnabledPatterns(patterns);
  }

  /** The `match field` closure of the preview: a case-sensitive regular expression against the selected texts. */
  function FieldRegexMatch(engine: Regex.Engine, pattern: string, field: FilterField, e: Email): (r: bool)
    ensures r <==> exists t :: t in FieldTexts(e, field) && engine.isMatch(pattern, t, false)
  {
    match field
    case Subject => engine.isMatch(pattern, e.subject, false)
    case Sender => engine.isMatch(pattern, e.sender, false)
    case Any => engine.isMatch(pattern, e.subject, false) || engine.isMatch(pattern, e.sender, false)
  }

  /**
   * `test_pattern`: an error carrying the engine's message when the pattern
   * does not compile, otherwise
   * the emails, in order, whose selected field the case-sensitive regular
   * expression matches.
   */
  function TestPattern(engine: Regex.Engine, emails: seq<Email>, pattern: string, field: FilterField): (r: Result<seq<Email>, string>)
    ensures r.Err? <==> !engine.valid(pattern)
    ensures r.Err? ==> r.error == "Invalid regex: " + engine.error(pattern)
    ensures r.Ok? ==> forall e :: e in r.value <==> e in emails && FieldRegexMatch(engine, pattern, field, e)
    ensures r.Ok? ==> forall e :: multiset(r.value)[e] == if FieldRegexMatch(engine, pattern, field, e) then multiset(emails)[e] else 0
    ensures r.Ok? ==> IsSubsequence(r.value, emails)
  {
    if !engine.valid(pattern) then Err("Invalid regex: " + engine.error(pattern))
    else Ok(Filter(emails, (e: Email) => FieldRegexMatch(engine, pattern, field, e)))
  }

  /** The preview agrees with evaluating the same pattern as a regular-expression filter. */
  lemma TestPatternAgreesWithFilter(engine: Regex.Engine, emails: seq<Email>, p: FilterPattern)
    requires p.isRegex && engine.valid(p.pattern)
    ensures TestPattern(engine, emails, p.pattern, p.field)
         == Ok(Filter(emails, (e: Email) => EmailMatchesPattern(engine, e, p)))
  {
    FilterCongruent(emails,
      (e: Email) => FieldRegexMatch(engine, p.pattern, p.field, e),
      (e: Email) => EmailMatchesPattern(engine, e, p));
  }
}
