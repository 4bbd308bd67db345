/**
 * The string primitives of Rust's standard library that the modelled code
 * relies on: `find`, `contains`, `to_lowercase` (ASCII only), `trim`,
 * `split`, `join` and `lines`.
 */
module Text {
  import opened Wrappers

  /** `pat` occurs in `s` starting at position `i`. */
  predicate OccursAt(s: string, pat: string, i: nat) {
    i + |pat| <= |s| && s[i..i + |pat|] == pat
  }

  /** The first occurrence of `pat` in `s` at or after position `i`. */
  function FindFrom(s: string, pat: string, i: nat): (r: Option<nat>)
    ensures r.Some? ==> i <= r.value && OccursAt(s, pat, r.value)
    ensures r.Some? ==> forall j: nat :: i <= j < r.value ==> !OccursAt(s, pat, j)
    ensures r.None? ==> forall j: nat :: i <= j ==> !OccursAt(s, pat, j)
    decreases |s| - i
  {
    if i + |pat| > |s| then None
    else if OccursAt(s, pat, i) then Some(i)
    else FindFrom(s, pat, i + 1)
  }

  /** `str::find`: the byte index of the first occurrence of `pat`. */
  function Find(s: string, pat: string): (r: Option<nat>)
    ensures r.Some? ==> OccursAt(s, pat, r.value)
    ensures r.Some? ==> forall j: nat :: j < r.value ==> !OccursAt(s, pat, j)
    ensures r.None? ==> forall j: nat :: !OccursAt(s, pat, j)
  {
    FindFrom(s, pat, 0)
  }

  /** `str::contains`. */
  predicate Contains(s: string, pat: string) {
    Find(s, pat).Some?
  }

  /** Contains is substring containment. */
  lemma ContainsIff(s: string, pat: string)
    ensures Contains(s, pat) <==> exists j: nat :: OccursAt(s, pat, j)
  {
  }

  /** A position is the first occurrence exactly when Find says so. */
  lemma FindIs(s: string, pat: string, k: nat)
    requires OccursAt(s, pat, k)
    requires forall j: nat :: j < k ==> !OccursAt(s, pat, j)
    ensures Find(s, pat) == Some(k)
  {
  }

  /** Nothing occurs at a position whose first character differs from the pattern's. */
  lemma NoOccurrenceWithout(s: string, pat: string, c: char)
    requires |pat| > 0 && pat[0] == c
    requires forall i :: 0 <= i < |s| ==> s[i] != c
    ensures Find(s, pat) == None
  {
    forall j: nat ensures !OccursAt(s, pat, j) {
      if j + |pat| <= |s| {
        assert s[j..j + |pat|][0] == s[j];
      }
    }
  }

  /** ASCII lowercasing of one character (`char::to_ascii_lowercase`). */
  function LowerChar(c: char): (d: char)
    ensures 'A' <= c <= 'Z' ==> d as int == c as int + 32
    ensures !('A' <= c <= 'Z') ==> d == c
  {
    if 'A' <= c <= 'Z' then (c as int + 32) as char else c
  }

  /** Lowercasing of a whole string, character by character. */
  function Lower(s: string): (r: string)
    ensures |r| == |s|
    ensures forall i :: 0 <= i < |s| ==> r[i] == LowerChar(s[i])
  {
    if s == [] then [] else [LowerChar(s[0])] + Lower(s[1..])
  }

  /** Lowercasing twice is lowercasing once. */
  lemma {:induction false} LowerIdempotent(s: string)
    ensures Lower(Lower(s)) == Lower(s)
  {
    if s != [] {
      LowerIdempotent(s[1..]);
      assert Lower(s)[1..] == Lower(s[1..]);
    }
  }

  /** Rust's `char::is_whitespace` (the Unicode White_Space property). */
  predicate IsWhitespace(c: char) {
    ('\t' <= c <= '\r') || c == ' ' || c == '\U{0085}' || c == '\U{00A0}' || c == '\U{1680}'
    || ('\U{2000}' <= c <= '\U{200A}') || c == '\U{2028}' || c == '\U{2029}' || c == '\U{202F}'
    || c == '\U{205F}' || c == '\U{3000}'
  }

  /** Every character is whitespace. */
  predicate IsBlank(s: string) {
    forall i :: 0 <= i < |s| ==> IsWhitespace(s[i])
  }

  /** `str::trim_start`. */
  function TrimStart(s: string): (r: string)
    ensures |r| <= |s| && r == s[|s| - |r|..]
    ensures r != [] ==> !IsWhitespace(r[0])
    ensures IsBlank(s[..|s| - |r|])
  {
    if s == [] || !IsWhitespace(s[0]) then s
    else
      var r := TrimStart(s[1..]);
      assert s[1..][..|s| - 1 - |r|] == s[1..|s| - |r|];
      r
  }

  /** `str::trim_end`. */
  function TrimEnd(s: string): (r: string)
    ensures |r| <= |s| && r == s[..|r|]
    ensures r != [] ==> !IsWhitespace(r[|r| - 1])
    ensures IsBlank(s[|r|..])
  {
    if s == [] || !IsWhitespace(s[|s| - 1]) then s
    else
      var r := TrimEnd(s[..|s| - 1]);
      assert s[..|s| - 1][|r|..] == s[|r|..|s| - 1];
      assert forall i :: |r| <= i < |s| - 1 ==> IsWhitespace(s[i]) by {
        forall i | |r| <= i < |s| - 1 ensures IsWhitespace(s[i]) {
          assert s[|r|..|s| - 1][i - |r|] == s[i];
        }
      }
      r
  }

  /** `str::trim`. */
  function Trim(s: string): string {
    TrimEnd(TrimStart(s))
  }

  /** `s.trim().is_empty()` holds exactly for blank strings. */
  lemma TrimEmptyIffBlank(s: string)
    ensures Trim(s) == [] <==> IsBlank(s)
  {
    var t := TrimStart(s);
    var r := TrimEnd(t);
    if r == [] {
      BlankPrefixThen(s, t);
    } else {
      KeptLast(s, t, r);
    }
  }

  /** A blank prefix followed by a blank rest is blank. */
  lemma BlankPrefixThen(s: string, t: string)
    requires |t| <= |s| && t == s[|s| - |t|..]
    requires IsBlank(s[..|s| - |t|]) && IsBlank(t)
    ensures IsBlank(s)
  {
    var n := |s| - |t|;
    forall i | 0 <= i < |s| ensures IsWhitespace(s[i]) {
      if i < n { assert s[i] == s[..n][i]; } else { assert s[i] == t[i - n]; }
    }
  }

  /** A string whose suffix `t` starts with a non-blank `r` is not blank. */
  lemma KeptLast(s: string, t: string, r: string)
    requires |t| <= |s| && t == s[|s| - |t|..]
    requires |r| <= |t| && r == t[..|r|]
    requires r != [] && !IsWhitespace(r[|r| - 1])
    ensures !IsBlank(s)
  {
    assert s[|s| - |t| + |r| - 1] == r[|r| - 1];
  }

  /** `str::split(sep)` for a non-empty separator, as a sequence of pieces. */
  function Split(s: string, sep: string): (r: seq<string>)
    requires |sep| > 0
    ensures |r| >= 1
    decreases |s|
  {
    match Find(s, sep)
    case None => [s]
    case Some(i) => [s[..i]] + Split(s[i + |sep|..], sep)
  }

  /** `slice::join(sep)`. */
  function Join(parts: seq<string>, sep: string): string {
    if parts == [] then []
    else if |parts| == 1 then parts[0]
    else parts[0] + sep + Join(parts[1..], sep)
  }

  /** `c` does not appear anywhere in `s`. */
  predicate Lacks(s: string, c: char) {
    forall i :: 0 <= i < |s| ==> s[i] != c
  }

  /** A character absent from every piece and from the separator is absent from the joined string. */
  lemma {:induction false} JoinLacks(parts: seq<string>, sep: string, c: char)
    requires forall p :: p in parts ==> Lacks(p, c)
    requires Lacks(sep, c)
    ensures Lacks(Join(parts, sep), c)
  {
    if |parts| > 1 {
      assert parts[0] in parts;
      JoinLacks(parts[1..], sep, c);
    } else if |parts| == 1 {
      assert parts[0] in parts;
    }
  }

  /** With at least two pieces, the joined string ends with the separator and the last piece. */
  lemma {:induction false} JoinLast(parts: seq<string>, sep: string)
    requires |parts| >= 2
    ensures Join(parts, sep) == Join(parts[..|parts| - 1], sep) + sep + parts[|parts| - 1]
  {
    if |parts| > 2 {
      JoinLast(parts[1..], sep);
      assert parts[1..][..|parts| - 2] == parts[..|parts| - 1][1..];
    }
  }

  /** No occurrence of `sep` starts within `p` when `sep` follows it, so splitting `p + sep + ...` cuts right after `p`. */
  predicate CutsAfter(p: string, sep: string) {
    forall j: nat :: j < |p| ==> !OccursAt(p + sep, sep, j)
  }

  /**
   * Splitting a joined sequence gives the pieces back exactly when each
   * piece but the last is cut right after, and the last holds no separator.
   */
  lemma {:induction false} SplitJoin(parts: seq<string>, sep: string)
    requires |parts| >= 1 && |sep| > 0
    requires forall i :: 0 <= i < |parts| - 1 ==> CutsAfter(parts[i], sep)
    requires Find(parts[|parts| - 1], sep) == None
    ensures Split(Join(parts, sep), sep) == parts
  {
    if |parts| > 1 {
      var p := parts[0];
      var rest := Join(parts[1..], sep);
      var s := p + sep + rest;
      assert s[|p|..|p| + |sep|] == sep;
      assert CutsAfter(p, sep);
      forall j: nat | j < |p| ensures !OccursAt(s, sep, j) {
        assert !OccursAt(p + sep, sep, j);
        assert s[j..j + |sep|] == (p + sep)[j..j + |sep|];
      }
      FindIs(s, sep, |p|);
      assert s[..|p|] == p;
      assert s[|p| + |sep|..] == rest;
      SplitJoin(parts[1..], sep);
    }
  }

  /** Drops one trailing carriage return, as `str::lines` does after a line feed. */
  function StripCr(line: string): string {
    if |line| > 0 && line[|line| - 1] == '\r' then line[..|line| - 1] else line
  }

  /**
   * `str::lines`: pieces between line feeds, each without its `\n` or `\r\n`
   * terminator; a final terminator does not start an empty last line.
   */
  function Lines(s: string): (r: seq<string>)
    ensures forall l :: l in r ==> Lacks(l, '\n')
    ensures |r| <= |s|
    decreases |s|
  {
    if s == [] then []
    else
      match Find(s, "\n")
      case None =>
        assert Lacks(s, '\n') by {
          forall i | 0 <= i < |s| ensures s[i] != '\n' {
            assert !OccursAt(s, "\n", i);
            assert s[i..i + 1] == [s[i]];
          }
        }
        [s]
      case Some(i) =>
        var line := s[..i];
        assert Lacks(line, '\n') by {
          forall k | 0 <= k < i ensures line[k] != '\n' {
            assert !OccursAt(s, "\n", k);
            assert s[k..k + 1] == [s[k]];
          }
        }
        [StripCr(line)] + Lines(s[i + 1..])
  }

  /** Each line followed by a line feed. */
  function Unlines(ls: seq<string>): string {
    if ls == [] then [] else ls[0] + "\n" + Unlines(ls[1..])
  }

  /** `lines` undoes `Unlines` when no line holds a line feed or ends with a carriage return. */
  lemma {:induction false} LinesUnlines(ls: seq<string>)
    requires forall l :: l in ls ==> Lacks(l, '\n') && (|l| == 0 || l[|l| - 1] != '\r')
    ensures Lines(Unlines(ls)) == ls
  {
    if ls != [] {
      var l := ls[0];
      var s := Unlines(ls);
      assert s == l + "\n" + Unlines(ls[1..]);
      forall j: nat | j < |l| ensures !OccursAt(s, "\n", j) {
        assert s[j..j + 1] == [s[j]] && s[j] == l[j];
      }
      assert s[|l|..|l| + 1] == "\n";
      FindIs(s, "\n", |l|);
      assert s[..|l|] == l;
      assert s[|l| + 1..] == Unlines(ls[1..]);
      LinesUnlines(ls[1..]);
    }
  }
}
