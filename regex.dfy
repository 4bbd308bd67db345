/**
 * The regular-expression engine (the `regex` crate) is not modelled: it is a
 * parameter of every operation that compiles or runs a pattern.
 */
module Regex {

  /**
   * `valid(p)`: `Regex::new(p)` succeeds.
   * `isMatch(p, text, caseInsensitive)`: the compiled pattern finds a match in `text`,
   * with the case-insensitivity flag of `RegexBuilder` set as given.
   * `error(p)`: the display text of the error `Regex::new(p)` returns when it fails.
   */
  datatype Engine = Engine(valid: string -> bool, isMatch: (string, string, bool) -> bool, error: string -> string)
}
