/**
 * The pure part of the Tauri commands: `match_emails`, the result of
 * `test_pattern_match_count`, and `apply_filters_to_cache` over the
 * in-memory email cache (an optional list).
 */
module Commands {
  import opened Wrappers
  import opened Text
  import opened Seqs
  import opened Mail
  import opened Filters
  import Regex

  /** The substring branch of `match_emails`: the pattern is lowercased once, each selected field per email. */
  function FieldContains(field: FilterField, e: Email, patternLower: string): (r: bool)
    ensures r <==> exists t :: t in FieldTexts(e, field) && Contains(Lower(t), patternLower)
  {
    var texts := FieldTexts(e, field);
    assert forall t :: t in texts ==> t == e.subject || t == e.sender;
    match field
    case Subject =>
      var a := Contains(Lower(e.subject), patternLower);
      assert a ==> e.subject in texts;
      assert (exists t :: t in texts && Contains(Lower(t), patternLower)) ==> a;
      a
    case Sender =>
      var b := Contains(Lower(e.sender), patternLower);
      assert b ==> e.sender in texts;
      assert (exists t :: t in texts && Contains(Lower(t), patternLower)) ==> b;
      b
    case Any =>
      var a := Contains(Lower(e.subject), patternLower);
      var b := Contains(Lower(e.sender), patternLower);
      assert a ==> e.subject in texts;
      assert b ==> e.sender in texts;
      assert (exists t :: t in texts && Contains(Lower(t), patternLower)) ==> a || b;
      a || b
  }

  /**
   * `match_emails`: nothing for a blank pattern; an error for a regular
   * expression that does not compile; otherwise the emails, in order, that
   * the pattern matches, with the same meaning as a filter holding that
   * pattern.
   */
  function MatchEmails(engine: Regex.Engine, emails: seq<Email>, pattern: string, field: FilterField, isRegex: bool): (r: Result<seq<Email>, string>)
    ensures Trim(pattern) == [] ==> r == Ok([])
    ensures r.Err? <==> Trim(pattern) != [] && isRegex && !engine.valid(pattern)
    ensures r.Err? ==> r.error == "Invalid regex: " + engine.error(pattern)
    ensures r.Ok? ==> IsSubsequence(r.value, emails)
    ensures r.Ok? && Trim(pattern) != [] ==>
      r.value == Filter(emails, (e: Email) => EmailMatchesPattern(engine, e, FilterPattern("", "", pattern, field, isRegex, true)))
  {
    var p := FilterPattern("", "", pattern, field, isRegex, true);
    if Trim(pattern) == [] then Ok([])
    else if isRegex then
      var t := TestPattern(engine, emails, pattern, field);
      if t.Ok? then TestPatternAgreesWithFilter(engine, emails, p); t else t
    else
      var patternLower := Lower(pattern);
      FilterCongruent(emails,
        (e: Email) => FieldContains(field, e, patternLower),
        (e: Email) => EmailMatchesPattern(engine, e, p));
      Ok(Filter(emails, (e: Email) => FieldContains(field, e, patternLower)))
  }

  /** The reply of `test_pattern_match_count`. */
  datatype TestPatternResult = TestPatternResult(matchCount: nat, totalCount: nat, sampleMatches: seq<Email>)

  /** How many matches the reply shows. */
  const SampleSize: nat := 5

  /**
   * `test_pattern_match_count`: matches the cached list (empty when nothing
   * is cached) and reports the number of matches, the number of cached
   * emails and the first five matches.
   */
  function TestPatternMatchCount(engine: Regex.Engine, cached: Option<seq<Email>>, pattern: string, field: FilterField, isRegex: bool): (r: Result<TestPatternResult, string>)
    ensures r.Err? <==> MatchEmails(engine, cached.UnwrapOr([]), pattern, field, isRegex).Err?
    ensures r.Ok? ==> r.value.totalCount == (if cached.Some? then |cached.value| else 0)
    ensures r.Ok? ==> r.value.matchCount == |MatchEmails(engine, cached.UnwrapOr([]), pattern, field, isRegex).value|
    ensures r.Ok? ==> r.value.matchCount <= r.value.totalCount
    ensures r.Ok? ==> |r.value.sampleMatches| == (if r.value.matchCount < SampleSize then r.value.matchCount else SampleSize)
    ensures r.Ok? ==> forall i :: 0 <= i < |r.value.sampleMatches| ==>
      r.value.sampleMatches[i] == MatchEmails(engine, cached.UnwrapOr([]), pattern, field, isRegex).value[i]
  {
    var emails := cached.UnwrapOr([]);
    match MatchEmails(engine, emails, pattern, field, isRegex)
    case Err(msg) => Err(msg)
    case Ok(matched) =>
      SubsequenceLength(matched, emails);
      Ok(TestPatternResult(|matched|, |emails|, Take(matched, SampleSize)))
  }

  /** A subsequence is no longer than the sequence it is taken from. */
  lemma {:induction false} SubsequenceLength<T>(r: seq<T>, s: seq<T>)
    requires IsSubsequence(r, s)
    ensures |r| <= |s|
    decreases |s|
  {
    if r != [] {
      if r[0] == s[0] && IsSubsequence(r[1..], s[1..]) {
        SubsequenceLength(r[1..], s[1..]);
      } else {
        SubsequenceLength(r, s[1..]);
      }
    }
  }

  /**
   * `apply_filters_to_cache`: nothing when no list is cached, without
   * reading the configuration; otherwise a failure to load the filters is
   * passed on, and the loaded filters are applied to the cached list.
   */
  function ApplyFiltersToCache(engine: Regex.Engine, cached: Option<seq<Email>>, loaded: Result<seq<FilterPattern>, string>): (r: Result<seq<Email>, string>)
    ensures cached.None? ==> r == Ok([])
    ensures cached.Some? && loaded.Err? ==> r == Err(loaded.error)
    ensures cached.Some? && loaded.Ok? ==> r.Ok? && forall e :: e in r.value <==> e in cached.value && Selected(engine, e, loaded.value)
  {
    match cached
    case None => Ok([])
    case Some(emails) =>
      match loaded
      case Err(msg) => Err(msg)
      case Ok(patterns) => Ok(ApplyFilters(engine, emails, patterns))
  }
}
