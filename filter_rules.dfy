/**
 * The filter evaluation of the local store: filters as rows of the
 * `filters` table (integer ids), the text codec of their `field` column,
 * and the compile-then-match pair used when filter matches are recorded.
 */
module FilterRules {
  import opened Wrappers
  import opened Text
  import opened Mail
  import Regex

  /** A filter as stored in the `filters` table; `id` is the row id (0 for one not yet stored). */
  datatype FilterPattern = FilterPattern(
    id: int,
    name: string,
    pattern: string,
    field: FilterField,
    isRegex: bool,
    enabled: bool)

  /** `filter_field_to_string`: the text stored in the `field` column. */
  function FieldToString(f: FilterField): (s: string)
    ensures s == "subject" || s == "sender" || s == "any"
  {
    match f
    case Subject => "subject"
    case Sender => "sender"
    case Any => "any"
  }

  /** `parse_filter_field`: the three known names, and `Any` for every other text. */
  function ParseField(s: string): (f: FilterField)
    ensures f == Subject <==> s == "subject"
    ensures f == Sender <==> s == "sender"
  {
    if s == "subject" then Subject
    else if s == "sender" then Sender
    else Any
  }

  /** Decoding the stored text gives the field back. */
  lemma ParseFieldToString(f: FilterField)
    ensures ParseField(FieldToString(f)) == f
  {
  }

  /** A text that names no field reads as `Any`. */
  lemma UnknownFieldIsAny(s: string)
    requires s != "subject" && s != "sender"
    ensures ParseField(s) == Any
  {
  }

  /** Two fields are stored as the same text only when they are the same field. */
  lemma FieldToStringInjective(f: FilterField, g: FilterField)
    ensures FieldToString(f) == FieldToString(g) <==> f == g
  {
    if FieldToString(f) == FieldToString(g) {
      ParseFieldToString(f);
      ParseFieldToString(g);
    }
  }

  // ---------------------------------------------------------------------------
  // The reference meaning of a filter
  // ---------------------------------------------------------------------------

  /** The header texts a field selects. */
  function Texts(field: FilterField, subject: string, sender: string): seq<string> {
    match field
    case Subject => [subject]
    case Sender => [sender]
    case Any => [subject, sender]
  }

  /**
   * One filter against one text: a case-insensitive regular expression that
   * must compile, or a substring test on the lowercased text and pattern.
   */
  predicate TextMatches(engine: Regex.Engine, f: FilterPattern, text: string) {
    if f.isRegex then engine.valid(f.pattern) && engine.isMatch(f.pattern, text, true)
    else Contains(Lower(text), Lower(f.pattern))
  }

  /** A filter matches an email when it matches one of the texts its field selects. */
  predicate FilterMatches(engine: Regex.Engine, f: FilterPattern, subject: string, sender: string) {
    exists t :: t in Texts(f.field, subject, sender) && TextMatches(engine, f, t)
  }

  // ---------------------------------------------------------------------------
  // compile_filters / match_filters
  // ---------------------------------------------------------------------------

  /** `CompiledFilter`: a compiled regex, or else the lowercased pattern of a text filter. */
  datatype CompiledFilter = CompiledFilter(
    id: int,
    field: FilterField,
    regex: Option<string>,
    patternLower: Option<string>)

  /** One filter compiled: a regex that fails to build leaves both slots empty. */
  function Compile(engine: Regex.Engine, f: FilterPattern): CompiledFilter {
    CompiledFilter(
      f.id,
      f.field,
      if f.isRegex && engine.valid(f.pattern) then Some(f.pattern) else None,
      if f.isRegex then None else Some(Lower(f.pattern)))
  }

  /** `compile_filters`: every filter compiled, in order. */
  function CompileFilters(engine: Regex.Engine, fs: seq<FilterPattern>): (r: seq<CompiledFilter>)
    ensures |r| == |fs|
    ensures forall i :: 0 <= i < |fs| ==> r[i] == Compile(engine, fs[i])
  {
    if fs == [] then [] else [Compile(engine, fs[0])] + CompileFilters(engine, fs[1..])
  }

  /** The test `match_filters` applies to one compiled filter. */
  predicate CompiledMatch(engine: Regex.Engine, c: CompiledFilter, subject: string, sender: string) {
    if c.regex.Some? then
      match c.field
      case Subject => engine.isMatch(c.regex.value, subject, true)
      case Sender => engine.isMatch(c.regex.value, sender, true)
      case Any => engine.isMatch(c.regex.value, subject, true) || engine.isMatch(c.regex.value, sender, true)
    else if c.patternLower.Some? then
      match c.field
      case Subject => Contains(Lower(subject), c.patternLower.value)
      case Sender => Contains(Lower(sender), c.patternLower.value)
      case Any => Contains(Lower(subject), c.patternLower.value) || Contains(Lower(sender), c.patternLower.value)
    else false
  }

  /** `match_filters`: the ids of the matching compiled filters, in filter order. */
  function MatchFilters(engine: Regex.Engine, subject: string, sender: string, cs: seq<CompiledFilter>): (r: seq<int>)
    ensures |r| <= |cs|
    ensures forall x :: x in r <==> exists i :: 0 <= i < |cs| && cs[i].id == x && CompiledMatch(engine, cs[i], subject, sender)
  {
    if cs == [] then []
    else
      var rest := MatchFilters(engine, subject, sender, cs[1..]);
      forall x | x in rest ensures exists i :: 0 <= i < |cs| && cs[i].id == x && CompiledMatch(engine, cs[i], subject, sender) {
        var j :| 0 <= j < |cs[1..]| && cs[1..][j].id == x && CompiledMatch(engine, cs[1..][j], subject, sender);
        assert cs[j + 1] == cs[1..][j];
      }
      forall i | 1 <= i < |cs| && CompiledMatch(engine, cs[i], subject, sender) ensures cs[i].id in rest {
        assert cs[1..][i - 1] == cs[i];
      }
      if CompiledMatch(engine, cs[0], subject, sender) then [cs[0].id] + rest else rest
  }

  /** Matching against two runs of filters lists the first run's ids first. */
  lemma {:induction false} MatchFiltersAppend(engine: Regex.Engine, subject: string, sender: string, cs: seq<CompiledFilter>, ds: seq<CompiledFilter>)
    ensures MatchFilters(engine, subject, sender, cs + ds)
         == MatchFilters(engine, subject, sender, cs) + MatchFilters(engine, subject, sender, ds)
  {
    if cs == [] {
      assert cs + ds == ds;
    } else {
      assert (cs + ds)[0] == cs[0];
      assert (cs + ds)[1..] == cs[1..] + ds;
      MatchFiltersAppend(engine, subject, sender, cs[1..], ds);
    }
  }

  /** A compiled filter matches exactly when the filter it came from matches. */
  lemma CompiledMatchIff(engine: Regex.Engine, f: FilterPattern, subject: string, sender: string)
    ensures CompiledMatch(engine, Compile(engine, f), subject, sender) <==> FilterMatches(engine, f, subject, sender)
  {
    var ts := Texts(f.field, subject, sender);
    var a := CompiledMatch(engine, Compile(engine, f), subject, sender);
    match f.field
    case Subject =>
      assert ts == [subject];
      assert a ==> subject in ts && TextMatches(engine, f, subject);
      assert (exists t :: t in ts && TextMatches(engine, f, t)) ==> a;
    case Sender =>
      assert ts == [sender];
      assert a ==> sender in ts && TextMatches(engine, f, sender);
      assert (exists t :: t in ts && TextMatches(engine, f, t)) ==> a;
    case Any =>
      assert ts == [subject, sender];
      assert a ==> (subject in ts && TextMatches(engine, f, subject)) || (sender in ts && TextMatches(engine, f, sender));
      assert (exists t :: t in ts && TextMatches(engine, f, t)) ==> a;
  }

  /** A regular expression that fails to compile matches no email; it is not an error. */
  lemma InvalidRegexMatchesNothing(engine: Regex.Engine, f: FilterPattern, subject: string, sender: string)
    requires f.isRegex && !engine.valid(f.pattern)
    ensures !CompiledMatch(engine, Compile(engine, f), subject, sender)
  {
  }

  /**
   * The ids `match_filters` reports for compiled filters are exactly the ids
   * of the filters that match; the `enabled` flag plays no part.
   */
  lemma MatchFiltersIff(engine: Regex.Engine, fs: seq<FilterPattern>, subject: string, sender: string, x: int)
    ensures x in MatchFilters(engine, subject, sender, CompileFilters(engine, fs))
        <==> exists f :: f in fs && f.id == x && FilterMatches(engine, f, subject, sender)
  {
    var cs := CompileFilters(engine, fs);
    if x in MatchFilters(engine, subject, sender, cs) {
      var i :| 0 <= i < |cs| && cs[i].id == x && CompiledMatch(engine, cs[i], subject, sender);
      CompiledMatchIff(engine, fs[i], subject, sender);
      assert fs[i] in fs;
    }
    if exists f :: f in fs && f.id == x && FilterMatches(engine, f, subject, sender) {
      var f :| f in fs && f.id == x && FilterMatches(engine, f, subject, sender);
      var i :| 0 <= i < |fs| && fs[i] == f;
      CompiledMatchIff(engine, f, subject, sender);
      assert cs[i].id == x && CompiledMatch(engine, cs[i], subject, sender);
    }
  }

  /** Filters that differ only in `enabled` report the same matches. */
  lemma {:induction false} EnabledNotConsulted(engine: Regex.Engine, fs: seq<FilterPattern>, gs: seq<FilterPattern>, subject: string, sender: string)
    requires |fs| == |gs|
    requires forall i :: 0 <= i < |fs| ==> gs[i] == fs[i].(enabled := gs[i].enabled)
    ensures MatchFilters(engine, subject, sender, CompileFilters(engine, fs))
         == MatchFilters(engine, subject, sender, CompileFilters(engine, gs))
  {
    if fs != [] {
      EnabledNotConsulted(engine, fs[1..], gs[1..], subject, sender);
      assert CompileFilters(engine, fs)[1..] == CompileFilters(engine, fs[1..]);
      assert CompileFilters(engine, gs)[1..] == CompileFilters(engine, gs[1..]);
    }
  }
}
