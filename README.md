# InboxCleanup mail triage: a Dafny model of its core

InboxCleanup is a desktop mail-triage app built with Tauri. It keeps unread
mail in a local SQLite store. Saved filters select the mail worth cleaning
up, and the app records which stored message matches which filter. This
project models the logic behind that, file by file, and proves what the code
promises.

- `storage.dfy` (module `Storage`) holds the SQLite store. The class
  `SqliteStorage` has one field per table:
  - `emails`, where the row at index `k` has row id `k + 1`;
  - `filters`, in rowid order;
  - the AUTOINCREMENT counter of `filters`;
  - `filtered_emails`, as a set of `(email_id, filter_id)` links;
  - `sync_state`;
  - the filter-refresh cursor.

  Every store operation is a method that changes these fields the way its SQL
  statements do. These operations include the upsert, the chunked read and
  unread marking, saving filters, and the chunked match refresh. The
  invariant `Valid` is kept by every method. It covers the `UNIQUE(account,
  uid)` key, ascending AUTOINCREMENT ids and the foreign keys of
  `filtered_emails`. The listing and counting queries are functions over the
  rows and links. The rewind rule of the chunked match refresh is modelled
  twice: as written, and with a guard under which repeated calls finish (see
  "Findings").
- `tables.dfy` (module `Tables`) holds the row-level meaning of those SQL
  statements:
  - the keyed upsert;
  - `UPDATE ... WHERE uid IN (...)` and its row counts;
  - the `id > ? ORDER BY id LIMIT ?` batches;
  - `ORDER BY date_epoch DESC LIMIT ? OFFSET ?`.
- `filter_rules.dfy` (module `FilterRules`) holds filters as stored rows, the
  codec of their `field` column, and the `compile_filters`/`match_filters`
  pair. It also holds the reference meaning of a filter matching an email.
- `filters.dfy` (module `Filters`) and `commands.dfy` (module `Commands`)
  model filter evaluation on the in-memory mail list:
  - `email_matches_pattern`, `apply_filters` and `test_pattern`;
  - the Tauri commands `match_emails`, `test_pattern_match_count` and
    `apply_filters_to_cache`.
- `gmail.dfy` (module `Gmail`) covers the RFC 2047 header decoder and the
  envelope formatting of the IMAP fetch:
  - `decode_rfc2047_words`, `decode_encoded_word`, `decode_q`, `decode_b`
    and `hex_val`;
  - the subject and sender text.
- `mail.dfy` (module `Mail`) covers the Apple Mail side:
  - the parser of the AppleScript listing (`parse_email_output`);
  - `extract_mailbox_name`;
  - the count returned by `mark_emails_as_read`.
- `cache.rs` is modelled in `cache.dfy` (module `Cache`). `FileCache` is the
  cache file and its one-hour freshness rule.
- `text.dfy`, `seqs.dfy`, `regex.dfy` and `wrappers.dfy` hold the string and
  list operations of Rust's standard library that the code relies on, with
  their properties. These are `find`, `contains`, `trim`, `split`, `lines`,
  ASCII lowercasing, iterator `filter` and `take`. They also hold the
  regular-expression engine as a parameter, and `Option`/`Result`.

Two revisions of the filter record exist in the source. `mail.rs` and
`filters.rs` use a string id. The storage layer uses an integer row id. Each
revision is modelled where it is used: `Mail.FilterPattern` and
`FilterRules.FilterPattern`.

## Model

| member | source | states |
|---|---|---|
| Cache.SaturatingSub | src-tauri/src/cache.rs:52 | `u64::saturating_sub`: the exact difference when it is not negative, otherwise 0 |
| Cache.FreshIff | src-tauri/src/cache.rs:52-57 | a cache is fresh exactly when `now` is at most 3600 s past its timestamp; a timestamp in the future is always fresh |
| Cache.FreshBoundary | src-tauri/src/cache.rs:7 | a cache exactly one hour old still loads; one second older it does not |
| Cache.FileCache.constructor | src-tauri/src/cache.rs:16-20 | the cache starts from whatever file is on disk |
| Cache.FileCache.Load | src-tauri/src/cache.rs:41-61 | a list comes back exactly when the file exists, parses and is fresh, and it is the cached list |
| Cache.FileCache.Save | src-tauri/src/cache.rs:64-79 | the file holds the list stamped with `now`, so loading at the same instant returns that list |
| Cache.FileCache.Clear | src-tauri/src/cache.rs:82-91 | the file is gone, and nothing loads at any time afterwards |
| Commands.FieldContains | src-tauri/src/lib.rs:213-223 | the substring test holds exactly when some text the field selects, lowercased, contains the lowercased pattern |
| Commands.MatchEmails | src-tauri/src/lib.rs:188-230 | a blank pattern gives no match; an error exactly for a non-blank regex that does not compile, reading `Invalid regex: ` followed by the engine's message; otherwise the emails, in order, that the pattern matches (the same selection as `email_matches_pattern`), a subsequence of the input |
| Commands.TestPatternMatchCount | src-tauri/src/lib.rs:158-178 | fails exactly when matching fails; the total is the cached list's length (0 with no cache); the match count is the number of matches, never above the total; the sample is the first min(5, count) matches |
| Commands.SubsequenceLength | src-tauri/src/lib.rs:174-175 | a list of matches taken in order from the cache is never longer than the cache |
| Commands.ApplyFiltersToCache | src-tauri/src/lib.rs:141-154 | no cache gives an empty list; a failure to load the filter file is passed on; otherwise exactly the cached emails that some enabled filter selects |
| FilterRules.FieldToString | src-tauri/src/storage/mod.rs:1496-1502 | the `field` column holds one of `subject`, `sender`, `any` |
| FilterRules.ParseField | src-tauri/src/storage/mod.rs:1487-1494 | `Subject` exactly for `subject`, `Sender` exactly for `sender`, `Any` otherwise |
| FilterRules.ParseFieldToString | src-tauri/src/storage/mod.rs:1487-1502 | reading back the stored text gives the field (round trip) |
| FilterRules.UnknownFieldIsAny | src-tauri/src/storage/mod.rs:1492 | any unrecognised column text reads as `Any` |
| FilterRules.FieldToStringInjective | src-tauri/src/storage/mod.rs:779 | comparing stored field texts, as `save_filters` does, compares the fields |
| FilterRules.CompileFilters | src-tauri/src/storage/mod.rs:1304-1329 | one compiled filter per filter, in order; a regex filter keeps a regex exactly when it compiles; a text filter keeps its lowercased pattern |
| FilterRules.MatchFilters | src-tauri/src/storage/mod.rs:1331-1359 | reports an id exactly when some compiled filter with that id matches; never more ids than filters |
| FilterRules.MatchFiltersAppend | src-tauri/src/storage/mod.rs:1336-1356 | ids are reported in filter order: matching against two runs of filters concatenates their reports |
| FilterRules.CompiledMatchIff | src-tauri/src/storage/mod.rs:1304-1359 | a compiled filter matches exactly when its filter matches one of the texts its field selects (case-insensitive regex, or lowercase substring) |
| FilterRules.InvalidRegexMatchesNothing | src-tauri/src/storage/mod.rs:1308-1315 | a regex that fails to compile matches nothing, and is not an error |
| FilterRules.MatchFiltersIff | src-tauri/src/storage/mod.rs:1331-1359 | the reported ids are exactly the ids of the filters that match the email |
| FilterRules.EnabledNotConsulted | src-tauri/src/storage/mod.rs:1304-1329 | the `enabled` flag never changes which stored matches are recorded |
| Filters.EmailMatchesPattern | src-tauri/src/filters.rs:60-79 | a pattern matches exactly when it matches one of the texts its field selects |
| Filters.InvalidRegexNeverMatches | src-tauri/src/filters.rs:64-67 | a regex that does not compile never matches any email |
| Filters.TextModeMatch | src-tauri/src/filters.rs:69-71 | in text mode a match is an occurrence of the lowercased pattern in a lowercased selected field |
| Filters.TextModeIgnoresCase | src-tauri/src/filters.rs:70 | in text mode neither the case of the text nor that of the pattern changes the outcome |
| Filters.FieldDispatch | src-tauri/src/filters.rs:74-78 | `Subject` depends on the subject only, `Sender` on the sender only, and `Any` is the disjunction of the two |
| Filters.AnyMatches | src-tauri/src/filters.rs:98-100 | true exactly when some pattern of the list matches |
| Filters.ApplyFilters | src-tauri/src/filters.rs:82-107 | no enabled pattern gives an empty list; otherwise exactly the emails some enabled pattern matches, in input order and with their multiplicity |
| Filters.DisabledPatternIgnored | src-tauri/src/filters.rs:83 | adding a disabled pattern never changes the result |
| Filters.FieldRegexMatch | src-tauri/src/filters.rs:119-123 | the preview matches exactly when the regex, case-sensitive, matches a selected text |
| Filters.TestPattern | src-tauri/src/filters.rs:110-128 | an error exactly when the pattern does not compile, reading `Invalid regex: ` followed by the engine's message; otherwise the emails, in order and with multiplicity, whose selected field it matches |
| Filters.TestPatternAgreesWithFilter | src-tauri/src/filters.rs:110-128 | for a compiling pattern the preview equals filtering with the same pattern as a regex filter |
| Gmail.HexVal | src-tauri/src/gmail.rs:346-353 | a value exactly for `0-9`, `a-f`, `A-F`, always below 16 |
| Gmail.HexValDigits | src-tauri/src/gmail.rs:346-353 | every digit value 0..15 is read back from its upper- and lower-case digit |
| Gmail.DecodeQSpec | src-tauri/src/gmail.rs:317-338 | Q decoding never lengthens its input |
| Gmail.DecodeQ | src-tauri/src/gmail.rs:317-338 | the byte loop computes exactly the Q decoding: `_` as space, `=XY` as one byte, anything else copied |
| Gmail.DecodeQEncodeQ | src-tauri/src/gmail.rs:317-338 | decoding the Q encoding of any byte string gives it back |
| Gmail.DecodeB | src-tauri/src/gmail.rs:340-344 | text that is not valid base64 comes back as its raw bytes |
| Gmail.TagIsLower | src-tauri/src/gmail.rs:305 | the encoding tag is compared after ASCII lowercasing |
| Gmail.DecodeEncodedWordTags | src-tauri/src/gmail.rs:304-315 | `Q`/`q` and `B`/`b` decode alike, and the charset label never changes the result |
| Gmail.UnknownTagRaw | src-tauri/src/gmail.rs:308 | an unknown tag leaves the payload undecoded |
| Gmail.QTagDecodes | src-tauri/src/gmail.rs:306 | a `q` tag applies the Q decoding |
| Gmail.ScanWord | src-tauri/src/gmail.rs:269-293 | no marker exactly when the text holds no `=?`; otherwise what is left to scan is shorter than the text |
| Gmail.ScanWordShape | src-tauri/src/gmail.rs:269-297 | the pieces the scanner splits off reassemble the scanned text, and the prefix holds no `=?` |
| Gmail.DecodeRfc2047Words | src-tauri/src/gmail.rs:265-302 | the scanning loop computes exactly the step-by-step decoding of the header |
| Gmail.DecodeAfterMarker | src-tauri/src/gmail.rs:270-297 | one iteration after the first `=?` emits the decoded word or `=?`, and resumes after the word or right after the marker |
| Gmail.DecodeAfterCharset | src-tauri/src/gmail.rs:279-297 | the same, once the charset has been found |
| Gmail.DecodeAfterEncoding | src-tauri/src/gmail.rs:286-297 | the same, once the encoding has been found |
| Gmail.WordStep | src-tauri/src/gmail.rs:293-297 | a complete word emits its decoding and resumes at `start + 2 + q1 + 1 + q2 + 1 + q3 + 2`, within the text |
| Gmail.DecodeScanned | src-tauri/src/gmail.rs:269-300 | the output is the text before the marker, then the decoded word (or `=?`), then the decoding of the rest |
| Gmail.NoEncodedWords | src-tauri/src/gmail.rs:300 | text without `=?` comes back unchanged |
| Gmail.DecodeWord | src-tauri/src/gmail.rs:269-297 | a complete encoded-word after plain text is replaced by its decoding, and decoding goes on after it |
| Gmail.DecodeIncomplete | src-tauri/src/gmail.rs:274-291 | an encoded-word missing its first `?`, its second `?` or its closing `?=` copies `=?` and resumes right after it |
| Gmail.FirstPairAfter | src-tauri/src/gmail.rs:269-288 | the first `=?` (or `?=`) in a text is the one right after a prefix that holds none |
| Gmail.AdjacentWordsKeepSpace | src-tauri/src/gmail.rs:265-302 | the space between two adjacent encoded-words is kept |
| Gmail.FormatSubject | src-tauri/src/gmail.rs:149-151 | the decoded subject, or `(No Subject)` without one |
| Gmail.FormatSender | src-tauri/src/gmail.rs:153-180 | `name <mailbox@host>` with a non-empty decoded name; `mailbox@host` without one; `Unknown` without a usable first address |
| Gmail.SenderUnknownIff | src-tauri/src/gmail.rs:153-180 | the sender is `Unknown` exactly when there is no usable address; otherwise it contains `mailbox@host` |
| Gmail.FromEnvelope | src-tauri/src/gmail.rs:145-197 | a message is kept exactly when it has a uid and an envelope, with that uid, `(No Subject)` without a subject and `Unknown` without an address; the subject and sender are the decoded and formatted envelope fields, the date and message id are lossily decoded when present and empty otherwise |
| Mail.ParseLine | src-tauri/src/mail.rs:72-85 | an email exactly when the line has at least six `\|\|`-separated fields; its id, subject, sender, date received, mailbox and account are the first six fields in that order, and its message id is the id |
| Mail.ParseLineFields | src-tauri/src/mail.rs:72-82 | a line made of an email's six fields followed by any further fields parses to that email: fields after the sixth are ignored |
| Mail.SplitSeparable | src-tauri/src/mail.rs:72 | splitting on `\|\|` gives back pieces joined by `\|\|` when none holds `\|\|` and none but the last ends in `\|` |
| Mail.ParseLines | src-tauri/src/mail.rs:68-87 | at most one email per line, each with message id equal to id |
| Mail.ParseEmailOutput | src-tauri/src/mail.rs:67-88 | at most one email per line of the output |
| Mail.ParseLinesAppend | src-tauri/src/mail.rs:68-87 | emails come out in line order: parsing distributes over concatenated lines |
| Mail.ParseBlankLines | src-tauri/src/mail.rs:70 | blank and whitespace-only lines produce nothing |
| Mail.ParseShortLine | src-tauri/src/mail.rs:83-85 | a line with fewer than six fields is dropped |
| Mail.ParseFormatLine | src-tauri/src/mail.rs:72-82 | a line in the listing format parses back to its email, for any fields without `\|\|`, without a trailing `\|` before a delimiter and without a line feed |
| Mail.ParseFormatted | src-tauri/src/mail.rs:67-88 | the listing the AppleScript prints (six fields joined by `\|\|`, one line per message) parses back to exactly the listed emails, in order |
| Mail.ExtractMailboxName | src-tauri/src/mail.rs:341-346 | the result is a suffix of the URL without `/`, preceded by `/` unless it is the whole URL |
| Mail.ExtractMailboxNameOf | src-tauri/src/mail.rs:341-346 | the name after the last `/` of a mailbox URL is extracted exactly |
| Mail.ParseUsize | src-tauri/src/mail.rs:208 | a parsed count fits in a `usize` and the text starts with a digit or `+` |
| Mail.ParseUsizeToDecimal | src-tauri/src/mail.rs:208 | the decimal notation of any `usize` parses back to it |
| Mail.MarkEmailsAsRead | src-tauri/src/mail.rs:172-212 | no ids gives 0 without running the script; a script failure is passed on; trimmed output that parses as a `usize` is the count, unparsable output counts as 0; a count always fits in a `usize` |
| Mail.MarkEmailsAsReadCount | src-tauri/src/mail.rs:207-211 | a script printing a count and a line feed reports that count |
| Seqs.Filter | src-tauri/src/filters.rs:95-103 | keeps exactly the elements passing the test, in order and with their multiplicity |
| Seqs.FilterAppend | src-tauri/src/filters.rs:95-103 | filtering distributes over concatenation |
| Seqs.Take | src-tauri/src/lib.rs:176 | the first min(n, length) elements |
| Text.Find | src-tauri/src/gmail.rs:269 | the position of the first occurrence, or none when there is none |
| Text.FindIs | src-tauri/src/gmail.rs:269 | a first occurrence is exactly what `find` reports |
| Text.ContainsIff | src-tauri/src/filters.rs:70 | `contains` is substring occurrence |
| Text.Lower | src-tauri/src/filters.rs:70 | lowercasing keeps the length and maps every character |
| Text.LowerIdempotent | src-tauri/src/storage/mod.rs:1319 | lowercasing twice is lowercasing once |
| Text.TrimStart | src-tauri/src/mail.rs:70 | drops exactly a blank prefix and keeps a suffix starting with non-whitespace |
| Text.TrimEnd | src-tauri/src/mail.rs:70 | drops exactly a blank suffix and keeps a prefix ending with non-whitespace |
| Text.TrimEmptyIffBlank | src-tauri/src/lib.rs:194 | `trim().is_empty()` holds exactly for whitespace-only strings |
| Text.Split | src-tauri/src/mail.rs:72 | splitting always gives at least one piece |
| Text.SplitJoin | src-tauri/src/mail.rs:72 | splitting joined pieces gives them back exactly when no piece but the last lets the separator start inside it and the last holds none |
| Text.Lines | src-tauri/src/mail.rs:69 | no line holds a line feed, and there are no more lines than characters |
| Text.LinesUnlines | src-tauri/src/mail.rs:69 | `lines` undoes joining with line feeds when no line ends in a carriage return |
| Tables.FindKey | src-tauri/src/storage/mod.rs:900-907 | the row holding `(account, uid)`, or none when no row holds it |
| Tables.FindKeyIs | src-tauri/src/storage/mod.rs:900-907 | with unique keys, looking up a row's key finds that row |
| Tables.UpsertOneFacts | src-tauri/src/storage/mod.rs:535-564 | one upsert keeps keys unique, adds at most one row, keeps every row's key and every row of another key, and the message's row is stored |
| Tables.UpsertAllShape | src-tauri/src/storage/mod.rs:552-565 | the batch keeps keys unique, keeps row ids and keys, and adds only rows of the batch |
| Tables.UpsertAllUntouched | src-tauri/src/storage/mod.rs:539-548 | a row whose key is not in the batch is left exactly as it was |
| Tables.UpsertAllStores | src-tauri/src/storage/mod.rs:552-565 | the last message of the batch with a given uid is stored |
| Tables.MarkRows | src-tauri/src/storage/mod.rs:595-596 | exactly the account's rows with a listed uid get the flag; every other row is unchanged |
| Tables.MatchCountAfterMark | src-tauri/src/storage/mod.rs:587-610 | marking does not change which rows a later statement selects |
| Tables.MarkRowsTwice | src-tauri/src/storage/mod.rs:587-610 | marking two uid sets in turn is marking their union |
| Tables.MatchCountUnion | src-tauri/src/storage/mod.rs:587-610 | the counts of disjoint uid sets add up |
| Tables.MatchCountPresent | src-tauri/src/storage/mod.rs:606-609 | with unique keys, one statement reports the number of listed uids present for the account |
| Tables.ChunkingIrrelevant | src-tauri/src/storage/mod.rs:587-610 | for distinct uids, the per-chunk counts of 200 add up to the count of one statement over all of them |
| Tables.AccountIdsAfter | src-tauri/src/storage/mod.rs:1392-1396 | exactly the account's row ids above the cursor, ascending |
| Tables.BatchFacts | src-tauri/src/storage/mod.rs:403-430 | a batch is at most `limit` ascending ids of the account above the cursor, holds every such id up to its last, and is empty exactly when the limit is 0 or no id is left |
| Tables.SortByDate | src-tauri/src/storage/mod.rs:134 | a permutation of the rows, newest first |
| Tables.Picked | src-tauri/src/storage/mod.rs:129-145 | the indices of the rows passing a `WHERE` test: ascending, each passing, and every passing index present |
| Tables.PickedCount | src-tauri/src/storage/mod.rs:172-186 | as many indices are picked as there are rows passing the test |
| Tables.Where | src-tauri/src/storage/mod.rs:129-145 | `WHERE`: the rows at the picked indices, in row-id order; exactly the rows that pass, each stored row once |
| Tables.WhereCongruent | src-tauri/src/storage/mod.rs:129-145 | two tests that agree on every row select the same rows |
| Tables.Window | src-tauri/src/storage/mod.rs:135 | `LIMIT OFFSET`: the contiguous slice at the offset, of length min(limit, rows left) |
| Tables.WindowOfNewestFirst | src-tauri/src/storage/mod.rs:134-135 | a window of a newest-first listing is newest first and holds only listed rows |
| Tables.WindowSplit | src-tauri/src/storage/mod.rs:135 | `LIMIT a OFFSET o` followed by `LIMIT b OFFSET o + a` is `LIMIT a + b OFFSET o` |
| Tables.DistinctPermutation | src-tauri/src/storage/mod.rs:134 | reordering a list of distinct rows keeps them distinct |
| Tables.DistinctWindow | src-tauri/src/storage/mod.rs:135 | a window of a list of distinct rows holds distinct rows |
| Storage.CompiledIdsOf | src-tauri/src/storage/mod.rs:1321-1322 | compiling keeps exactly the filter ids |
| Storage.MatchedIdsOf | src-tauri/src/storage/mod.rs:1429-1433 | only ids of the given filters are ever linked by a refresh |
| Storage.NothingMatched | src-tauri/src/storage/mod.rs:1381-1383 | with no filters no row matches, so returning early changes nothing |
| Storage.BatchStep | src-tauri/src/storage/mod.rs:1388-1440 | a non-empty batch moves the cursor forward, and the matches up to the new cursor are those up to the old one plus the batch's |
| Storage.BatchDone | src-tauri/src/storage/mod.rs:1412-1414 | an empty batch with a positive limit means every match is at or below the cursor |
| Storage.BatchLeaves | src-tauri/src/storage/mod.rs:437-460 | after a batch, the account's rows above the new cursor are exactly those above the old one that the batch left out |
| Storage.NoMatchNoLinks | src-tauri/src/storage/mod.rs:442-458 | a batch never removes links, and adds none when no row of the account matches any filter |
| Storage.AccountsStep | src-tauri/src/storage/mod.rs:882-884 | refreshing one more account adds exactly that account's matches |
| Storage.AllAccountsLinked | src-tauri/src/storage/mod.rs:880-885 | once every account with rows is refreshed, the new links are exactly the matches of all rows |
| Storage.ChunkStep | src-tauri/src/storage/mod.rs:587-610 | one chunk of at most 200 uids extends the marked set by that chunk and adds its count to the total |
| Storage.MarkConsistent | src-tauri/src/storage/mod.rs:595-596 | setting the read flag keeps every table constraint |
| Storage.IdMap | src-tauri/src/storage/mod.rs:764-768 | the map of stored filters by id: its keys are the stored ids, and each id maps to its filter |
| Storage.ClassifyDeletes | src-tauri/src/storage/mod.rs:790-792 | the plan deletes exactly the stored ids that no input filter carries |
| Storage.ClassifyInserts | src-tauri/src/storage/mod.rs:785-787 | every input filter with an unknown id is inserted, and only input filters are |
| Storage.ClassifyRewrites | src-tauri/src/storage/mod.rs:776-784 | updates are input filters for stored ids whose pattern, mode or field changed; touches are those where only name or enabled changed |
| Storage.ClassifyDistinct | src-tauri/src/storage/mod.rs:775-788 | no stored filter is rewritten twice, because its id leaves the map when first met |
| Storage.ClassifyFacts | src-tauri/src/storage/mod.rs:775-792 | all of the above, and no filter is both rewritten and deleted |
| Storage.Numbered | src-tauri/src/storage/mod.rs:845-859 | inserted filters receive consecutive new ids after the counter, in order |
| Storage.RemoveIds | src-tauri/src/storage/mod.rs:798-810 | exactly the filters whose id is not deleted, still in ascending id order |
| Storage.RemoveNothing | src-tauri/src/storage/mod.rs:798 | deleting no ids leaves the filters as they are |
| Storage.ReplaceById | src-tauri/src/storage/mod.rs:837-843 | `UPDATE ... WHERE id = ?` rewrites exactly the row of that id |
| Storage.Unlinked | src-tauri/src/storage/mod.rs:812-825 | exactly the links whose filter id is not cleared |
| Storage.RemoveConsistent | src-tauri/src/storage/mod.rs:798-810 | deleting filters together with their links keeps every table constraint |
| Storage.AppendConsistent | src-tauri/src/storage/mod.rs:845-858 | inserting a filter with the next counter value keeps every table constraint |
| Storage.SameIdsConsistent | src-tauri/src/storage/mod.rs:861-872 | rewriting filters without changing ids keeps every table constraint |
| Storage.Updated | src-tauri/src/storage/mod.rs:861-872 | each stored filter becomes the last update naming its id, or stays as it was |
| Storage.LatestDistinct | src-tauri/src/storage/mod.rs:861-872 | with distinct update ids, each stored filter an update names becomes that update |
| Storage.PlanForFits | src-tauri/src/storage/mod.rs:764-792 | the plan fits the stored filters, and every rewrite comes from the input |
| Storage.AppliedStores | src-tauri/src/storage/mod.rs:827-872 | a carried-out plan stores every rewritten and every inserted filter |
| Storage.AppliedKeepsUnnamed | src-tauri/src/storage/mod.rs:798-872 | a kept filter that nothing rewrites stays as it was |
| Storage.AppliedOnly | src-tauri/src/storage/mod.rs:798-872 | nothing is stored but kept filters, rewrites and inserted filters |
| Storage.SaveRefreshStored | src-tauri/src/storage/mod.rs:878-885 | every filter whose matches are refreshed is stored after the save |
| Storage.SaveKeepsNamed | src-tauri/src/storage/mod.rs:775-810 | a stored filter survives exactly when some input filter carries its id |
| Storage.ClassifyFirst | src-tauri/src/storage/mod.rs:775-784 | the first input filter carrying a stored id is rewritten, or already equals the stored filter and then nothing rewrites that id |
| Storage.ClassifyRepeated | src-tauri/src/storage/mod.rs:775-787 | a later input filter repeating an earlier one's id is inserted as a new filter, because the first took the id out of the map |
| Storage.SaveStoresEdits | src-tauri/src/storage/mod.rs:775-872 | the first input filter naming a stored id is stored as given; every later input filter repeating an id is stored, with its other fields, under a new id above the counter |
| Storage.SaveInsertsNew | src-tauri/src/storage/mod.rs:845-859 | every input filter with an unknown id is stored, with its other fields, under a new id above the counter |
| Storage.SaveStoresNothingElse | src-tauri/src/storage/mod.rs:759-887 | each saved filter is a stored filter the input still names, an input filter, or an input filter under a new id |
| Storage.RefreshIds | src-tauri/src/storage/mod.rs:878-879 | refreshed ids are updated ids that are not deleted, or new ids above the counter |
| Storage.LinkAfterMatch | src-tauri/src/storage/mod.rs:812-885 | a link not carried over from before the save exists exactly when a refreshed filter matches the row |
| Storage.LinksAfterSave | src-tauri/src/storage/mod.rs:812-885 | the links left by the deletions, plus the matches of the refreshed filters, are the links after the save |
| Storage.AppliedLinksRefreshed | src-tauri/src/storage/mod.rs:878-885 | after a plan, a refreshed filter is linked to exactly the rows it matches |
| Storage.AppliedLinksKept | src-tauri/src/storage/mod.rs:798-825 | a deleted filter has no links, and a kept filter that was not updated keeps its own |
| Storage.SaveLinks | src-tauri/src/storage/mod.rs:759-887 | after the save, a refreshed filter is linked to exactly the rows it matches, a deleted filter to none, and a filter whose pattern, mode and field did not change keeps its links |
| Storage.Listed | src-tauri/src/storage/mod.rs:129-145 | the account's rows (unread ones when asked), in row-id order: the i-th is the row at the i-th picked index |
| Storage.CountEmails | src-tauri/src/storage/mod.rs:172-186 | `COUNT(*)`: the number of row indices holding a row of the account (an unread one, when asked); never above the row count, and 0 exactly when there is none |
| Storage.TestCount | src-tauri/src/storage/mod.rs:172-186 | a selection has one row per qualifying index, and is empty exactly when no row qualifies |
| Storage.ListedCount | src-tauri/src/storage/mod.rs:118-186 | the listing has exactly as many rows as `count_emails` counts |
| Storage.ListedMembers | src-tauri/src/storage/mod.rs:129-145 | every listed row is a stored row of the account (unread, when asked) |
| Storage.ListEmails | src-tauri/src/storage/mod.rs:118-170 | the page `LIMIT limit OFFSET offset` of a newest-first ordering of exactly the counted rows (a permutation of them); so newest first, only the account's rows, and as many as the count leaves after the offset, capped at the limit |
| Storage.ListingPage | src-tauri/src/storage/mod.rs:118-170 | the page of the sorted listing is a window of a newest-first permutation of the listing, newest first, holds only the account's rows, and has the length the count and offset leave, capped at the limit |
| Storage.ListPages | src-tauri/src/storage/mod.rs:118-170 | paging is consistent: a page followed by the next one is the page covering both |
| Storage.ListAll | src-tauri/src/storage/mod.rs:118-186 | a page from offset 0 at least as large as the count lists every counted row exactly once |
| Storage.PickedDistinct | src-tauri/src/storage/mod.rs:129-145 | under `UNIQUE(account, uid)` a selection holds distinct rows |
| Storage.FilteredRows | src-tauri/src/storage/mod.rs:208-226 | the account's rows linked to one of the filters, in row-id order, each once however many of the filters it is linked to |
| Storage.FilteredCount | src-tauri/src/storage/mod.rs:264-310 | the filtered selection has one row per qualifying index, and none for an empty id list |
| Storage.FilteredLength | src-tauri/src/storage/mod.rs:188-310 | `count_filtered_emails` counts exactly the filtered rows |
| Storage.FilteredMembers | src-tauri/src/storage/mod.rs:208-226 | every filtered row is a stored row of the account linked to a listed filter |
| Storage.ListFilteredEmails | src-tauri/src/storage/mod.rs:188-262 | empty for no filter ids; otherwise the page `LIMIT limit OFFSET offset` of a newest-first ordering of exactly the filtered rows; so newest first, only the account's rows linked to a listed filter, as many as the filtered count leaves after the offset, capped at the limit |
| Storage.FilteredPage | src-tauri/src/storage/mod.rs:188-262 | the page of the sorted filtered rows is a window of a newest-first permutation of them, newest first, holds only linked rows of the account, and has the length the filtered count and offset leave, capped at the limit |
| Storage.FilteredOnce | src-tauri/src/storage/mod.rs:208-226 | `DISTINCT`: no page of a filtered listing repeats a row, however many of the filters it matches |
| Storage.CountFilteredEmails | src-tauri/src/storage/mod.rs:264-310 | `COUNT(DISTINCT e.id)`: the number of row indices holding a row of the account linked to a listed filter; 0 for no filter ids, and 0 exactly when no such row exists |
| Storage.FilterMatchCounts | src-tauri/src/storage/mod.rs:312-340 | one entry per filter in rowid order: its id and the filtered count for that filter alone |
| Storage.SqliteStorage.constructor | src-tauri/src/storage/mod.rs:960-1029 | a freshly migrated store: every table empty, constraints hold |
| Storage.SqliteStorage.GetLastUid | src-tauri/src/storage/mod.rs:471-485 | 0 for an account with no sync state |
| Storage.SqliteStorage.SetLastUid | src-tauri/src/storage/mod.rs:487-502 | the account now reads back the value; every other account and table is unchanged |
| Storage.SqliteStorage.CursorOf | src-tauri/src/storage/mod.rs:1244-1254 | 0 for an account with no refresh cursor |
| Storage.SqliteStorage.GetFilters | src-tauri/src/storage/mod.rs:726-757 | the stored filters in ascending id order, every id issued by the counter |
| Storage.SqliteStorage.UpsertEmails | src-tauri/src/storage/mod.rs:518-571 | the rows become the keyed upsert of the batch: existing rows keep their id and key, rows of other keys are untouched, the last message per uid is stored; the other tables are unchanged |
| Storage.SqliteStorage.SetReadFlag | src-tauri/src/storage/mod.rs:573-615 | exactly the listed uids of the account get the flag; the total is the sum of the per-chunk counts, and for distinct uids the number of listed uids present; nothing else changes |
| Storage.SqliteStorage.MarkEmailsRead | src-tauri/src/storage/mod.rs:573-615 | sets `is_read` on exactly the listed uids of the account and reports the number of rows selected |
| Storage.SqliteStorage.MarkEmailsUnread | src-tauri/src/storage/mod.rs:617-659 | clears `is_read` on exactly the listed uids of the account and reports the number of rows selected |
| Storage.SqliteStorage.SetEmailFilters | src-tauri/src/storage/mod.rs:889-940 | an unknown email changes nothing; an unknown filter id fails and rolls back; otherwise the email's links become exactly the given ids, and other emails keep theirs |
| Storage.SqliteStorage.InsertMatches | src-tauri/src/storage/mod.rs:442-458 | adds exactly the links of each batch row to each filter that matches it; nothing else changes |
| Storage.SqliteStorage.RefreshFilterMatchesForAccount | src-tauri/src/storage/mod.rs:1375-1443 | the walk adds exactly the matches of all the account's rows (none with chunk size 0), and changes nothing else |
| Storage.SqliteStorage.RefreshAllAccounts | src-tauri/src/storage/mod.rs:880-885 | adds exactly the matches of every row to the given filters |
| Storage.SqliteStorage.ResumeCursor | src-tauri/src/storage/mod.rs:362-393 | `forceFull` drops the account's links and cursor; a cursor above 0 with no links left rewinds to 0; the result is the cursor in force |
| Storage.SqliteStorage.RefreshFilteredEmails | src-tauri/src/storage/mod.rs:342-469 | links one batch of the account's rows above the resume point to every stored filter it matches, moves the cursor to the batch's last id, and returns the batch size |
| Storage.SqliteStorage.LinkChunk | src-tauri/src/storage/mod.rs:394-468 | the batch above the cursor is linked to every matching filter; the cursor moves to its last id; the rows left above it are exactly those the batch left out |
| Storage.ChunkLinked | src-tauri/src/storage/mod.rs:403-468 | a chunk that starts where every match is linked leaves every match linked up to its last row, so some link exists when a row up to it matches |
| Storage.AllLinkedAtEnd | src-tauri/src/storage/mod.rs:403-414 | once no row of the account is left above the cursor, every match of its rows is linked |
| Storage.StepOutcome | src-tauri/src/storage/mod.rs:403-468 | one chunk step: nothing left means every match is linked; otherwise every match up to the new cursor, which lies past the old one |
| Storage.SqliteStorage.RepeatedRefreshAsWritten | src-tauri/src/storage/mod.rs:376-393 | as written: with no row of the account matching any filter, two calls without forcing report the same non-zero batch and leave the same cursor |
| Storage.SqliteStorage.RefreshFilteredEmailsGuarded | src-tauri/src/storage/mod.rs:362-468 | the refresh with the rewind taken only when a row behind the cursor matches and has no link; otherwise the same batch, cursor and links as the refresh |
| Storage.SqliteStorage.BackfillStep | src-tauri/src/storage/mod.rs:362-468 | one guarded call: 0 means every match of the account is linked; otherwise every match up to the new cursor is, no rewind is pending, and an unforced call without rewind moves the cursor forward |
| Storage.SqliteStorage.RefreshUntilDone | src-tauri/src/storage/mod.rs:1656-1661 | calling the guarded refresh until it reports 0 terminates, and then every match of the account's rows is linked; without forcing no link is lost |
| Storage.SqliteStorage.SetCursor | src-tauri/src/storage/mod.rs:1256-1267 | only the account's refresh cursor changes, to the given id |
| Storage.SqliteStorage.PlanSave | src-tauri/src/storage/mod.rs:770-792 | the classification loop computes exactly the reference plan |
| Storage.SqliteStorage.DeleteFilters | src-tauri/src/storage/mod.rs:798-810 | the deleted filters and their links are gone; nothing else changes |
| Storage.SqliteStorage.ClearLinks | src-tauri/src/storage/mod.rs:812-825 | exactly the links of the given filters are gone |
| Storage.SqliteStorage.InsertFilters | src-tauri/src/storage/mod.rs:845-859 | each filter is appended under the next AUTOINCREMENT id, and the counter advances by their number |
| Storage.SqliteStorage.UpdateFilters | src-tauri/src/storage/mod.rs:861-872 | each listed filter's row is rewritten, in list order; ids and links are unchanged |
| Storage.SqliteStorage.SaveFilters | src-tauri/src/storage/mod.rs:759-887 | the stored filters and links become those of the save plan, returned in rowid order; the counter advances by the number inserted; the rows are unchanged |

## Left out

- IMAP, TLS, the macOS Keychain, AppleScript execution and the Apple Mail database are not part of this model. The script runner is a parameter of `Mail.MarkEmailsAsRead`.
- UTF-8 decoding, its lossy variant and base64 are parameters (`Gmail.Codecs`). The regular-expression engine is the parameter `Regex.Engine`, with its validity test, its match relation and the message of a compile error.
- `Text.Lower` is ASCII lowercasing. Rust's `to_lowercase` also folds non-ASCII letters.
- The model indexes strings by character, and Rust's `find` and slicing use byte offsets. Every marker the decoder scans for is ASCII, so the two agree.
- The charset label of an encoded-word is ignored, as in the source: both branches of its `match` decode the same way.
- SQL errors are not modelled: a failed statement, a poisoned lock, or a failed transaction start or commit. Only the constraint failure of `SetEmailFilters` is modelled. The `try_lock` retry loop of `refresh_filtered_emails` is not modelled.
- Schema migration beyond the empty tables is not modelled. Neither is the import of the legacy filter file, logging, or the Tauri command plumbing around the store.
- `get_max_uid`, `get_email_body`, `set_email_bodies` and `format_core_data_timestamp` are not part of this model.
- Ties in `ORDER BY date_epoch DESC` may come in any order in the contracts of the listings, because SQLite leaves their order unspecified; the functions break them in row-id order. Row ids are the positions of the rows, since rows are never deleted.
- The filter-file JSON I/O (`load_filters`, `save_filters` in `filters.rs`) and the cache file's serialisation are not modelled. A load failure is an input of `Commands.ApplyFiltersToCache`, and a cache file that does not parse is a case of `Cache.FileCache`.
- Storage.NoMatchNoLinks: states that a chunk adds no link when nothing matches. The consequence, a rewind on every call, is the finding below.
- `u32` uids and `i64` ids are unbounded integers. The `usize` bound is modelled only where the code parses one, in `Mail.ParseUsize`.
- Cache.FileCache.Save: always succeeds. Failures to find the cache directory, serialise or write the file are not modelled.
- Cache.FileCache.Clear: always succeeds. A failure to remove the file is not modelled.

## Findings

| source | as written | input that shows it | evidently intended | confidence | as-written member | corrected member |
|---|---|---|---|---|---|---|
| src-tauri/src/storage/mod.rs:376-393 | the cursor rewinds to 0 whenever the account has no link and the cursor is above 0 | an account with rows, none of which matches any filter, and a chunk size above 0: every unforced call after the first reports the same non-zero batch and leaves the same cursor, so calling until 0, as the tests at lines 1656-1661 do, never ends | rewind only when links are really missing: some row behind the cursor matches a filter; then repeated calls reach 0 with every match linked | not executed (medium) | Storage.SqliteStorage.RepeatedRefreshAsWritten | Storage.SqliteStorage.RefreshUntilDone |
