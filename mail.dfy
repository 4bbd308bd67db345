/**
 * The Mail.app side: the `Email` and `FilterPattern` records, the parser of
 * the AppleScript listing, the mailbox-name extraction and the result of
 * marking messages read.
 */
module Mail {
  import opened Wrappers
  import opened Text

  /** One unread message as listed by Mail.app; `messageId` always repeats `id`. */
  datatype Email = Email(
    id: string,
    messageId: string,
    subject: string,
    sender: string,
    dateReceived: string,
    mailbox: string,
    account: string)

  /** Which header a filter looks at. */
  datatype FilterField = Subject | Sender | Any

  /** A user-defined filter as stored in the JSON configuration (string id). */
  datatype FilterPattern = FilterPattern(
    id: string,
    name: string,
    pattern: string,
    field: FilterField,
    isRegex: bool,
    enabled: bool)

  /** The field delimiter of the AppleScript listing. */
  const Delim: string := "||"

  /**
   * One line of the listing: `Some` when it has at least six `||`-separated
   * fields, which become id, subject, sender, date received, mailbox and
   * account in that order; fields after the sixth are ignored.
   */
  function ParseLine(line: string): (r: Option<Email>)
    ensures r.Some? <==> |Split(line, Delim)| >= 6
    ensures r.Some? ==> Fields(r.value) == Split(line, Delim)[..6] && r.value.messageId == r.value.id
  {
    var parts := Split(line, Delim);
    if |parts| >= 6 then
      Some(Email(parts[0], parts[0], parts[1], parts[2], parts[3], parts[4], parts[5]))
    else None
  }

  /** Parses a sequence of lines, skipping blank ones and ones with too few fields. */
  function ParseLines(ls: seq<string>): (r: seq<Email>)
    ensures |r| <= |ls|
    ensures forall e :: e in r ==> e.messageId == e.id
  {
    if ls == [] then []
    else
      var rest := ParseLines(ls[1..]);
      if Trim(ls[0]) == [] then rest
      else match ParseLine(ls[0])
        case Some(e) => [e] + rest
        case None => rest
  }

  /** `parse_email_output`: the emails of a whole AppleScript listing, one per usable line. */
  function ParseEmailOutput(stdout: string): (r: seq<Email>)
    ensures |r| <= |Lines(stdout)|
    ensures forall e :: e in r ==> e.messageId == e.id
  {
    ParseLines(Lines(stdout))
  }

  /** The output follows line order: parsing distributes over concatenated line lists. */
  lemma {:induction false} ParseLinesAppend(a: seq<string>, b: seq<string>)
    ensures ParseLines(a + b) == ParseLines(a) + ParseLines(b)
  {
    if a == [] {
      assert a + b == b;
    } else {
      assert (a + b)[0] == a[0] && (a + b)[1..] == a[1..] + b;
      ParseLinesAppend(a[1..], b);
    }
  }

  /** Blank and whitespace-only lines produce nothing. */
  lemma {:induction false} ParseBlankLines(ls: seq<string>)
    requires forall l :: l in ls ==> IsBlank(l)
    ensures ParseLines(ls) == []
  {
    if ls != [] {
      assert ls[0] in ls;
      TrimEmptyIffBlank(ls[0]);
      ParseBlankLines(ls[1..]);
    }
  }

  /** A line with fewer than six fields is dropped. */
  lemma ParseShortLine(line: string)
    requires |Split(line, Delim)| < 6
    ensures ParseLines([line]) == []
  {
    assert [line][1..] == [];
  }

  /** The six fields of an email in listing order. */
  function Fields(e: Email): seq<string> {
    [e.id, e.subject, e.sender, e.dateReceived, e.mailbox, e.account]
  }

  /** The line the AppleScript emits for one message. */
  function FormatLine(e: Email): string {
    Join(Fields(e), Delim)
  }

  /** The listing the AppleScript emits: every line terminated by a line feed. */
  function FormatLines(es: seq<Email>): seq<string> {
    if es == [] then [] else [FormatLine(es[0])] + FormatLines(es[1..])
  }

  /** `f` holds no `||`. */
  predicate NoDelim(f: string) {
    forall i :: 0 <= i < |f| - 1 ==> !(f[i] == '|' && f[i + 1] == '|')
  }

  /** `f` does not end in `|`. */
  predicate NoTrailingBar(f: string) {
    |f| == 0 || f[|f| - 1] != '|'
  }

  /**
   * Pieces that splitting on `||` separates again: none holds `||`, and
   * none but the last ends in `|` (a `|` before the delimiter would start it
   * one character early).
   */
  predicate Separable(parts: seq<string>) {
    forall i :: 0 <= i < |parts| ==> NoDelim(parts[i]) && (i < |parts| - 1 ==> NoTrailingBar(parts[i]))
  }

  /** A field without `||` and without a trailing `|` is cut right after when the delimiter follows. */
  lemma DelimCutsAfter(f: string)
    requires NoDelim(f) && NoTrailingBar(f)
    ensures CutsAfter(f, Delim)
  {
    var t := f + Delim;
    forall j: nat | j < |f| ensures !OccursAt(t, Delim, j) {
      assert t[j..j + 2] == [t[j], t[j + 1]];
      if j + 1 < |f| {
        assert t[j] == f[j] && t[j + 1] == f[j + 1];
      }
    }
  }

  /** A field without `||` holds no delimiter. */
  lemma DelimAbsent(f: string)
    requires NoDelim(f)
    ensures Find(f, Delim) == None
  {
    forall j: nat ensures !OccursAt(f, Delim, j) {
      if j + 2 <= |f| {
        assert f[j..j + 2] == [f[j], f[j + 1]];
      }
    }
  }

  /** Splitting separable pieces joined by `||` gives them back. */
  lemma SplitSeparable(parts: seq<string>)
    requires |parts| >= 1 && Separable(parts)
    ensures Split(Join(parts, Delim), Delim) == parts
  {
    forall i | 0 <= i < |parts| - 1 ensures CutsAfter(parts[i], Delim) {
      DelimCutsAfter(parts[i]);
    }
    DelimAbsent(parts[|parts| - 1]);
    SplitJoin(parts, Delim);
  }

  /**
   * A line starting with an email's six fields parses to that email, however
   * many further fields follow: the extra ones are ignored.
   */
  lemma ParseLineFields(e: Email, extra: seq<string>)
    requires e.messageId == e.id && Separable(Fields(e) + extra)
    ensures ParseLine(Join(Fields(e) + extra, Delim)) == Some(e)
  {
    SplitSeparable(Fields(e) + extra);
    assert (Fields(e) + extra)[..6] == Fields(e);
  }

  /**
   * Emails the listing carries intact: separable fields, no line feed in a
   * field, and the last field does not end in a carriage return.
   */
  predicate Listable(e: Email) {
    e.messageId == e.id
    && Separable(Fields(e))
    && (forall f :: f in Fields(e) ==> Lacks(f, '\n'))
    && (|e.account| == 0 || e.account[|e.account| - 1] != '\r')
  }

  /** Splitting a formatted line gives the six fields back. */
  lemma FormatLineSplit(e: Email)
    requires Listable(e)
    ensures Split(FormatLine(e), Delim) == Fields(e)
  {
    SplitSeparable(Fields(e));
  }

  /** A formatted line holds no line feed, ends in `||` and the account, and is not blank. */
  lemma FormatLineShape(e: Email)
    requires Listable(e)
    ensures Lacks(FormatLine(e), '\n')
    ensures FormatLine(e) == Join(Fields(e)[..5], Delim) + Delim + e.account
    ensures Trim(FormatLine(e)) != []
  {
    var fs := Fields(e);
    var line := FormatLine(e);
    JoinLacks(fs, Delim, '\n');
    JoinLast(fs, Delim);
    var pre := Join(fs[..5], Delim);
    assert line[|pre|] == '|';
    assert !IsBlank(line);
    TrimEmptyIffBlank(line);
  }

  /** The last character of a formatted line is not a carriage return. */
  lemma FormatLineEnd(e: Email)
    requires Listable(e)
    ensures |FormatLine(e)| == 0 || FormatLine(e)[|FormatLine(e)| - 1] != '\r'
  {
    FormatLineShape(e);
    var line := FormatLine(e);
    if |e.account| == 0 {
      assert line[|line| - 1] == Delim[1];
    } else {
      assert line[|line| - 1] == e.account[|e.account| - 1];
    }
  }

  /** Parsing one formatted line gives the email back. */
  lemma ParseFormatLine(e: Email)
    requires Listable(e)
    ensures ParseLines([FormatLine(e)]) == [e]
  {
    FormatLineShape(e);
    FormatLineSplit(e);
    ParseOneLine(FormatLine(e));
  }

  /** A single non-blank line parses to its email, if any. */
  lemma ParseOneLine(line: string)
    requires Trim(line) != []
    ensures ParseLines([line]) == match ParseLine(line) case Some(e) => [e] case None => []
  {
    var one: seq<string> := [line];
    assert one[1..] == [];
  }

  /** The listing format and the parser are inverse: every listable email comes back, in order. */
  lemma {:induction false} ParseFormatted(es: seq<Email>)
    requires forall e :: e in es ==> Listable(e)
    ensures ParseEmailOutput(Unlines(FormatLines(es))) == es
  {
    FormatLinesWellFormed(es);
    LinesUnlines(FormatLines(es));
    ParseFormattedLines(es);
  }

  /** No formatted line holds a line feed or ends with a carriage return. */
  lemma {:induction false} FormatLinesWellFormed(es: seq<Email>)
    requires forall e :: e in es ==> Listable(e)
    ensures forall l :: l in FormatLines(es) ==> Lacks(l, '\n') && (|l| == 0 || l[|l| - 1] != '\r')
  {
    if es != [] {
      assert es[0] in es;
      FormatLineShape(es[0]);
      FormatLineEnd(es[0]);
      assert forall e :: e in es[1..] ==> e in es;
      FormatLinesWellFormed(es[1..]);
      ConsLines(FormatLine(es[0]), FormatLines(es[1..]));
    }
  }

  /** Putting a well-formed line in front of well-formed lines keeps them well formed. */
  lemma ConsLines(l: string, ls: seq<string>)
    requires Lacks(l, '\n') && (|l| == 0 || l[|l| - 1] != '\r')
    requires forall x :: x in ls ==> Lacks(x, '\n') && (|x| == 0 || x[|x| - 1] != '\r')
    ensures forall x :: x in [l] + ls ==> Lacks(x, '\n') && (|x| == 0 || x[|x| - 1] != '\r')
  {
  }

  /** The tail of a list of listable emails is listable. */
  lemma ListableTail(es: seq<Email>)
    requires es != [] && forall e :: e in es ==> Listable(e)
    ensures forall e :: e in es[1..] ==> Listable(e)
  {
    assert forall e :: e in es[1..] ==> e in es;
  }

  /** Parsing the formatted lines, before they are joined, gives the emails back. */
  lemma {:induction false} ParseFormattedLines(es: seq<Email>)
    requires forall e :: e in es ==> Listable(e)
    ensures ParseLines(FormatLines(es)) == es
  {
    if es != [] {
      var l := FormatLine(es[0]);
      var rest := FormatLines(es[1..]);
      assert es[0] in es;
      ParseFormatLine(es[0]);
      ListableTail(es);
      ParseFormattedLines(es[1..]);
      ParseLinesAppend([l], rest);
      assert FormatLines(es) == [l] + rest;
      assert [es[0]] + es[1..] == es;
    }
  }

  /** `rsplit('/').next()`: the text after the last `/`, or the whole string when there is none. */
  function ExtractMailboxName(url: string): (r: string)
    ensures Lacks(r, '/')
    ensures |r| <= |url| && r == url[|url| - |r|..]
    ensures |r| < |url| ==> url[|url| - |r| - 1] == '/'
  {
    if url == [] then []
    else if url[|url| - 1] == '/' then []
    else
      var init := url[..|url| - 1];
      var r := ExtractMailboxName(init);
      SuffixGrows(url, r);
      r + [url[|url| - 1]]
  }

  /** A suffix of all but the last character, extended by that character, is a suffix of the whole. */
  lemma SuffixGrows(url: string, r: string)
    requires |url| > 0 && |r| < |url| && r == url[..|url| - 1][|url| - 1 - |r|..]
    requires Lacks(r, '/') && url[|url| - 1] != '/'
    ensures url[|url| - |r| - 1..] == r + [url[|url| - 1]]
    ensures Lacks(r + [url[|url| - 1]], '/')
  {
  }

  /** The name after the last separator of a mailbox URL is extracted exactly. */
  lemma ExtractMailboxNameOf(prefix: string, name: string)
    requires Lacks(name, '/')
    ensures ExtractMailboxName(prefix + "/" + name) == name
  {
    var url := prefix + "/" + name;
    assert url[|url| - |name|..] == name;
    assert url[|url| - |name| - 1] == '/';
  }

  /** The value of a non-empty string of ASCII digits. */
  predicate IsDigit(c: char) {
    '0' <= c <= '9'
  }

  predicate AllDigits(s: string) {
    forall i :: 0 <= i < |s| ==> IsDigit(s[i])
  }

  function DigitsValue(s: string): nat
    requires AllDigits(s)
  {
    if s == [] then 0
    else DigitsValue(s[..|s| - 1]) * 10 + (s[|s| - 1] as int - '0' as int)
  }

  /** `usize::MAX + 1` on the 64-bit targets the application is built for. */
  const UsizeLimit: nat := 0x1_0000_0000_0000_0000

  /**
   * `str::parse::<usize>`: an optional `+`, then at least one ASCII digit and
   * nothing else, with a value that fits in a `usize`.
   */
  function ParseUsize(s: string): (r: Option<nat>)
    ensures r.Some? ==> r.value < UsizeLimit
    ensures r.Some? ==> |s| > 0 && (IsDigit(s[0]) || s[0] == '+')
  {
    var digits := if |s| > 0 && s[0] == '+' then s[1..] else s;
    if |digits| == 0 || !AllDigits(digits) then None
    else
      var v := DigitsValue(digits);
      if v < UsizeLimit then Some(v) else None
  }

  /** Decimal notation of a natural number, as AppleScript prints an integer. */
  function ToDecimal(n: nat): (r: string)
    ensures |r| > 0 && AllDigits(r)
    ensures DigitsValue(r) == n
  {
    var d := [('0' as int + n % 10) as char];
    if n < 10 then d
    else
      var r := ToDecimal(n / 10) + d;
      assert r[..|r| - 1] == ToDecimal(n / 10);
      r
  }

  /** Parsing the decimal notation of any `usize` gives it back. */
  lemma ParseUsizeToDecimal(n: nat)
    requires n < UsizeLimit
    ensures ParseUsize(ToDecimal(n)) == Some(n)
  {
  }

  /**
   * `mark_emails_as_read`: nothing runs for an empty id list; otherwise the
   * script receives the ids joined by `", "`, its failure is passed on, and
   * its trimmed output is read as a count, 0 when it is not a number.
   */
  function MarkEmailsAsRead(ids: seq<string>, runScript: string -> Result<string, string>): (r: Result<nat, string>)
    ensures ids == [] ==> r == Ok(0)
    ensures ids != [] && runScript(Join(ids, ", ")).Err? ==> r == Err(runScript(Join(ids, ", ")).error)
    ensures ids != [] && runScript(Join(ids, ", ")).Ok? ==> r.Ok? && r.value < UsizeLimit
    ensures ids != [] && runScript(Join(ids, ", ")).Ok? && ParseUsize(Trim(runScript(Join(ids, ", ")).value)).None? ==> r == Ok(0)
    ensures ids != [] && runScript(Join(ids, ", ")).Ok? && ParseUsize(Trim(runScript(Join(ids, ", ")).value)).Some? ==> r == Ok(ParseUsize(Trim(runScript(Join(ids, ", ")).value)).value)
  {
    if ids == [] then Ok(0)
    else
      match runScript(Join(ids, ", "))
      case Err(msg) => Err(msg)
      case Ok(out) => Ok(ParseUsize(Trim(out)).UnwrapOr(0))
  }

  /** Trimming a number followed by a line feed leaves the number. */
  lemma TrimDigitsLine(d: string)
    requires |d| > 0 && AllDigits(d)
    ensures Trim(d + "\n") == d
  {
    var out := d + "\n";
    assert !IsWhitespace(out[0]);
    assert TrimStart(out) == out;
    assert out[..|out| - 1] == d;
    assert TrimEnd(out) == TrimEnd(d);
    assert !IsWhitespace(d[|d| - 1]);
  }

  /** A script that prints a count followed by a line feed reports that count. */
  lemma MarkEmailsAsReadCount(ids: seq<string>, runScript: string -> Result<string, string>, n: nat)
    requires ids != [] && n < UsizeLimit
    requires runScript(Join(ids, ", ")) == Ok(ToDecimal(n) + "\n")
    ensures MarkEmailsAsRead(ids, runScript) == Ok(n)
  {
    TrimDigitsLine(ToDecimal(n));
    ParseUsizeToDecimal(n);
  }
}
