/**
 * The `emails` table of the local store as a sequence of rows, and the pure
 * operations the store's statements perform on it: the keyed upsert, the
 * read-flag update, the cursor batch and the sorted, windowed listing.
 *
 * Rows are never deleted and SQLite gives a new row the id max(rowid) + 1,
 * so the row at index `k` always has row id `k + 1`.
 */
module Tables {
  import opened Wrappers
  import opened Seqs

  /** `StoredEmail`: one row of the emails table. */
  datatype StoredEmail = StoredEmail(
    uid: int,
    messageId: string,
    subject: string,
    sender: string,
    date: string,
    dateEpoch: int,
    mailbox: string,
    account: string,
    isRead: bool)

  /** `GmailEmail`: one message as the sync hands it to the store. */
  datatype GmailEmail = GmailEmail(
    uid: int,
    messageId: string,
    subject: string,
    sender: string,
    date: string,
    dateEpoch: int,
    isRead: bool)

  /** The row carries the key `(account, uid)` of the table's UNIQUE constraint. */
  predicate HasKey(r: StoredEmail, account: string, uid: int) {
    r.account == account && r.uid == uid
  }

  /** No two rows share a key. */
  predicate KeysUnique(rows: seq<StoredEmail>) {
    forall i, j :: 0 <= i < j < |rows| ==> !HasKey(rows[j], rows[i].account, rows[i].uid)
  }

  /** The index of the row with key `(account, uid)`, if there is one. */
  function FindKey(rows: seq<StoredEmail>, account: string, uid: int): (r: Option<nat>)
    ensures r.Some? ==> r.value < |rows| && HasKey(rows[r.value], account, uid)
    ensures r.None? ==> forall k :: 0 <= k < |rows| ==> !HasKey(rows[k], account, uid)
  {
    if rows == [] then None
    else if HasKey(rows[0], account, uid) then Some(0)
    else
      match FindKey(rows[1..], account, uid)
      case None =>
        assert forall k :: 1 <= k < |rows| ==> rows[k] == rows[1..][k - 1];
        None
      case Some(k) => Some(k + 1)
  }

  /** With unique keys, the row holding a key is the one `FindKey` reports. */
  lemma FindKeyIs(rows: seq<StoredEmail>, k: nat)
    requires KeysUnique(rows) && k < |rows|
    ensures FindKey(rows, rows[k].account, rows[k].uid) == Some(k)
  {
  }

  // ---------------------------------------------------------------------------
  // upsert_emails
  // ---------------------------------------------------------------------------

  /** The row an incoming message is stored as; mailbox and account come from the call. */
  function ToRow(e: GmailEmail, account: string, mailbox: string): StoredEmail {
    StoredEmail(e.uid, e.messageId, e.subject, e.sender, e.date, e.dateEpoch, mailbox, account, e.isRead)
  }

  /** One `INSERT ... ON CONFLICT(account, uid) DO UPDATE`: overwrite the row with the key, or append a new one. */
  function UpsertOne(rows: seq<StoredEmail>, account: string, mailbox: string, e: GmailEmail): seq<StoredEmail> {
    match FindKey(rows, account, e.uid)
    case Some(k) => rows[k := ToRow(e, account, mailbox)]
    case None => rows + [ToRow(e, account, mailbox)]
  }

  /** The statement executed for every message of the batch, in order. */
  function UpsertAll(rows: seq<StoredEmail>, account: string, mailbox: string, batch: seq<GmailEmail>): seq<StoredEmail>
    decreases |batch|
  {
    if batch == [] then rows
    else UpsertAll(UpsertOne(rows, account, mailbox, batch[0]), account, mailbox, batch[1..])
  }

  /** The uids of a batch. */
  function UidsOf(batch: seq<GmailEmail>): set<int> {
    set e | e in batch :: e.uid
  }

  /** One upsert keeps keys unique, keeps every existing row's key, and changes only the row with the message's key. */
  lemma UpsertOneFacts(rows: seq<StoredEmail>, account: string, mailbox: string, e: GmailEmail)
    requires KeysUnique(rows)
    ensures var r := UpsertOne(rows, account, mailbox, e);
      && KeysUnique(r)
      && |rows| <= |r| <= |rows| + 1
      && (forall k :: 0 <= k < |rows| ==> HasKey(r[k], rows[k].account, rows[k].uid))
      && (forall k :: 0 <= k < |rows| && !HasKey(rows[k], account, e.uid) ==> r[k] == rows[k])
      && (forall k :: 0 <= k < |r| ==> (k < |rows| && r[k] == rows[k]) || r[k] == ToRow(e, account, mailbox))
      && (exists k :: 0 <= k < |r| && r[k] == ToRow(e, account, mailbox))
  {
    var r := UpsertOne(rows, account, mailbox, e);
    match FindKey(rows, account, e.uid)
    case Some(k) =>
      assert r[k] == ToRow(e, account, mailbox);
    case None =>
      assert r[|rows|] == ToRow(e, account, mailbox);
  }

  /** The whole batch keeps keys unique, keeps every existing row's key, and only appends rows of the batch. */
  lemma {:induction false} UpsertAllShape(rows: seq<StoredEmail>, account: string, mailbox: string, batch: seq<GmailEmail>)
    requires KeysUnique(rows)
    ensures KeysUnique(UpsertAll(rows, account, mailbox, batch))
    ensures |rows| <= |UpsertAll(rows, account, mailbox, batch)| <= |rows| + |batch|
    ensures forall k :: 0 <= k < |rows| ==> HasKey(UpsertAll(rows, account, mailbox, batch)[k], rows[k].account, rows[k].uid)
    ensures var r := UpsertAll(rows, account, mailbox, batch);
      forall k :: 0 <= k < |r| ==> (k < |rows| && r[k] == rows[k]) || exists e :: e in batch && r[k] == ToRow(e, account, mailbox)
    decreases |batch|
  {
    if batch != [] {
      var rows1 := UpsertOne(rows, account, mailbox, batch[0]);
      UpsertOneFacts(rows, account, mailbox, batch[0]);
      UpsertAllShape(rows1, account, mailbox, batch[1..]);
      assert batch[0] in batch;
      assert forall e :: e in batch[1..] ==> e in batch;
    }
  }

  /** Rows whose key is not in the batch are left exactly as they were. */
  lemma {:induction false} UpsertAllUntouched(rows: seq<StoredEmail>, account: string, mailbox: string, batch: seq<GmailEmail>, k: nat)
    requires KeysUnique(rows) && k < |rows|
    requires rows[k].account != account || rows[k].uid !in UidsOf(batch)
    ensures k < |UpsertAll(rows, account, mailbox, batch)|
    ensures UpsertAll(rows, account, mailbox, batch)[k] == rows[k]
    decreases |batch|
  {
    UpsertAllShape(rows, account, mailbox, batch);
    if batch != [] {
      var rows1 := UpsertOne(rows, account, mailbox, batch[0]);
      UpsertOneFacts(rows, account, mailbox, batch[0]);
      assert batch[0] in batch;
      assert rows1[k] == rows[k];
      assert UidsOf(batch[1..]) <= UidsOf(batch) by {
        forall u | u in UidsOf(batch[1..]) ensures u in UidsOf(batch) {
          var e :| e in batch[1..] && e.uid == u;
          assert e in batch;
        }
      }
      UpsertAllUntouched(rows1, account, mailbox, batch[1..], k);
    }
  }

  /** The last message of the batch with a given uid is what the table holds for that key afterwards. */
  lemma {:induction false} UpsertAllStores(rows: seq<StoredEmail>, account: string, mailbox: string, batch: seq<GmailEmail>, i: nat)
    requires KeysUnique(rows) && i < |batch|
    requires forall j :: i < j < |batch| ==> batch[j].uid != batch[i].uid
    ensures exists k :: 0 <= k < |UpsertAll(rows, account, mailbox, batch)| && UpsertAll(rows, account, mailbox, batch)[k] == ToRow(batch[i], account, mailbox)
    decreases |batch|
  {
    var rows1 := UpsertOne(rows, account, mailbox, batch[0]);
    UpsertOneFacts(rows, account, mailbox, batch[0]);
    var r := UpsertAll(rows, account, mailbox, batch);
    if i == 0 {
      var k :| 0 <= k < |rows1| && rows1[k] == ToRow(batch[0], account, mailbox);
      assert batch[0].uid !in UidsOf(batch[1..]) by {
        forall e | e in batch[1..] ensures e.uid != batch[0].uid {
          var j :| 0 <= j < |batch[1..]| && batch[1..][j] == e;
          assert batch[j + 1] == e;
        }
      }
      UpsertAllUntouched(rows1, account, mailbox, batch[1..], k);
      assert r[k] == ToRow(batch[0], account, mailbox);
    } else {
      assert forall j :: i - 1 < j < |batch[1..]| ==> batch[1..][j].uid != batch[1..][i - 1].uid by {
        forall j | i - 1 < j < |batch[1..]| ensures batch[1..][j].uid != batch[1..][i - 1].uid {
          assert batch[1..][j] == batch[j + 1];
        }
      }
      UpsertAllStores(rows1, account, mailbox, batch[1..], i - 1);
    }
  }

  // ---------------------------------------------------------------------------
  // mark_emails_read / mark_emails_unread
  // ---------------------------------------------------------------------------

  /** The number of uids a single `UPDATE ... WHERE uid IN (...)` statement lists at most. */
  const ChunkSize: nat := 200

  /** The rows an `UPDATE ... WHERE account = ? AND uid IN (uids)` statement selects. */
  predicate Selected(r: StoredEmail, account: string, uids: set<int>) {
    r.account == account && r.uid in uids
  }

  /** The table after setting `is_read` to `flag` on the selected rows. */
  function MarkRows(rows: seq<StoredEmail>, account: string, uids: set<int>, flag: bool): (r: seq<StoredEmail>)
    ensures |r| == |rows|
    ensures forall k :: 0 <= k < |rows| ==> r[k] == if Selected(rows[k], account, uids) then rows[k].(isRead := flag) else rows[k]
  {
    seq(|rows|, k requires 0 <= k < |rows| => if Selected(rows[k], account, uids) then rows[k].(isRead := flag) else rows[k])
  }

  /** The number of rows the statement selects (SQLite's `changes()`). */
  function MatchCount(rows: seq<StoredEmail>, account: string, uids: set<int>): nat {
    if rows == [] then 0
    else (if Selected(rows[0], account, uids) then 1 else 0) + MatchCount(rows[1..], account, uids)
  }

  /** The total the chunked loop accumulates: one statement per run of at most 200 uids. */
  function ChunkedMatches(rows: seq<StoredEmail>, account: string, uids: seq<int>): nat
    decreases |uids|
  {
    if uids == [] then 0
    else
      var n := if ChunkSize < |uids| then ChunkSize else |uids|;
      MatchCount(rows, account, set u | u in uids[..n]) + ChunkedMatches(rows, account, uids[n..])
  }

  /** The uids present in the table for an account. */
  function PresentUids(rows: seq<StoredEmail>, account: string): set<int> {
    set k | 0 <= k < |rows| && rows[k].account == account :: rows[k].uid
  }

  /** Marking leaves keys where they were, so a second statement selects the same rows. */
  lemma {:induction false} MatchCountAfterMark(rows: seq<StoredEmail>, account: string, a: set<int>, b: set<int>, flag: bool)
    ensures MatchCount(MarkRows(rows, account, a, flag), account, b) == MatchCount(rows, account, b)
  {
    if rows != [] {
      assert MarkRows(rows, account, a, flag)[1..] == MarkRows(rows[1..], account, a, flag);
      MatchCountAfterMark(rows[1..], account, a, b, flag);
    }
  }

  /** Two statements in a row mark what one statement over both uid sets marks. */
  lemma MarkRowsTwice(rows: seq<StoredEmail>, account: string, a: set<int>, b: set<int>, flag: bool)
    ensures MarkRows(MarkRows(rows, account, a, flag), account, b, flag) == MarkRows(rows, account, a + b, flag)
  {
  }

  /** Selecting with two disjoint uid sets counts what selecting with their union counts. */
  lemma {:induction false} MatchCountUnion(rows: seq<StoredEmail>, account: string, a: set<int>, b: set<int>)
    requires a !! b
    ensures MatchCount(rows, account, a + b) == MatchCount(rows, account, a) + MatchCount(rows, account, b)
  {
    if rows != [] {
      MatchCountUnion(rows[1..], account, a, b);
    }
  }

  /** Dropping the first row keeps keys unique. */
  lemma KeysUniqueTail(rows: seq<StoredEmail>)
    requires KeysUnique(rows) && rows != []
    ensures KeysUnique(rows[1..])
  {
    var rest := rows[1..];
    forall i, j | 0 <= i < j < |rest| ensures !HasKey(rest[j], rest[i].account, rest[i].uid) {
      assert rest[i] == rows[i + 1] && rest[j] == rows[j + 1];
    }
  }

  /** The uids present for an account: the first row's, if it is the account's, and the rest's. */
  lemma PresentUidsSplit(rows: seq<StoredEmail>, account: string)
    requires rows != []
    ensures PresentUids(rows, account)
         == (if rows[0].account == account then {rows[0].uid} else {}) + PresentUids(rows[1..], account)
  {
    var rest := rows[1..];
    var p := PresentUids(rows, account);
    var q := PresentUids(rest, account);
    forall u | u in p ensures u in (if rows[0].account == account then {rows[0].uid} else {}) + q {
      var k :| 0 <= k < |rows| && rows[k].account == account && rows[k].uid == u;
      if k > 0 {
        assert rest[k - 1] == rows[k];
      }
    }
    forall u | u in q ensures u in p {
      var k :| 0 <= k < |rest| && rest[k].account == account && rest[k].uid == u;
      assert rows[k + 1] == rest[k];
    }
  }

  /** With unique keys, the first row's uid is not present again for its account. */
  lemma HeadNotPresentInTail(rows: seq<StoredEmail>)
    requires KeysUnique(rows) && rows != []
    ensures rows[0].uid !in PresentUids(rows[1..], rows[0].account)
  {
    var rest := rows[1..];
    forall k | 0 <= k < |rest| && rest[k].account == rows[0].account ensures rest[k].uid != rows[0].uid {
      assert rows[k + 1] == rest[k];
      assert !HasKey(rows[k + 1], rows[0].account, rows[0].uid);
    }
  }

  /** An empty uid list selects nothing. */
  lemma {:induction false} MatchCountNone(rows: seq<StoredEmail>, account: string)
    ensures MatchCount(rows, account, {}) == 0
  {
    if rows != [] {
      MatchCountNone(rows[1..], account);
    }
  }

  /** With unique keys, the count is the number of listed uids that are present for the account. */
  lemma {:induction false} MatchCountPresent(rows: seq<StoredEmail>, account: string, uids: set<int>)
    requires KeysUnique(rows)
    ensures MatchCount(rows, account, uids) == |PresentUids(rows, account) * uids|
  {
    if rows == [] {
      assert PresentUids(rows, account) == {};
    } else {
      KeysUniqueTail(rows);
      MatchCountPresent(rows[1..], account, uids);
      PresentStep(rows, account, uids);
    }
  }

  /** The head row adds its uid to the present ones exactly when it is selected, and then a new one. */
  lemma PresentStep(rows: seq<StoredEmail>, account: string, uids: set<int>)
    requires KeysUnique(rows) && rows != []
    ensures |PresentUids(rows, account) * uids|
         == (if Selected(rows[0], account, uids) then 1 else 0) + |PresentUids(rows[1..], account) * uids|
  {
    var q := PresentUids(rows[1..], account) * uids;
    var p := PresentUids(rows, account) * uids;
    if Selected(rows[0], account, uids) {
      assert rows[0].uid !in q by {
        HeadNotPresentInTail(rows);
      }
      assert p == q + {rows[0].uid} by {
        PresentUidsSplit(rows, account);
      }
    } else {
      assert p == q by {
        PresentUidsSplit(rows, account);
      }
    }
  }

  /** `s` holds no value twice. */
  predicate Distinct<T(==)>(s: seq<T>) {
    forall i, j :: 0 <= i < j < |s| ==> s[i] != s[j]
  }

  /** For distinct uids the 200-uid chunking does not change the total. */
  lemma {:induction false} ChunkingIrrelevant(rows: seq<StoredEmail>, account: string, uids: seq<int>)
    requires Distinct(uids)
    ensures ChunkedMatches(rows, account, uids) == MatchCount(rows, account, set u | u in uids)
    decreases |uids|
  {
    if uids == [] {
      assert (set u | u in uids) == {};
      MatchCountNone(rows, account);
    } else {
      var n := if ChunkSize < |uids| then ChunkSize else |uids|;
      var a := set u | u in uids[..n];
      var b := set u | u in uids[n..];
      assert Distinct(uids[n..]) by {
        forall i, j | 0 <= i < j < |uids[n..]| ensures uids[n..][i] != uids[n..][j] {
          assert uids[n..][i] == uids[n + i] && uids[n..][j] == uids[n + j];
        }
      }
      ChunkingIrrelevant(rows, account, uids[n..]);
      assert a !! b by {
        forall i, j | 0 <= i < n && 0 <= j < |uids| - n ensures uids[..n][i] != uids[n..][j] {
          assert uids[..n][i] == uids[i] && uids[n..][j] == uids[n + j];
        }
      }
      assert uids == uids[..n] + uids[n..];
      assert (set u | u in uids) == a + b;
      MatchCountUnion(rows, account, a, b);
    }
  }

  // ---------------------------------------------------------------------------
  // The cursor batch of refresh_filtered_emails
  // ---------------------------------------------------------------------------

  /** The row ids above `after` of the account's rows at index `k` or later, ascending. */
  function IdsFrom(rows: seq<StoredEmail>, account: string, after: int, k: nat): (r: seq<int>)
    requires k <= |rows|
    ensures forall i :: 0 <= i < |r| ==> k < r[i] <= |rows|
    ensures forall i, j :: 0 <= i < j < |r| ==> r[i] < r[j]
    ensures forall x :: x in r <==> k < x <= |rows| && x > after && rows[x - 1].account == account
    decreases |rows| - k
  {
    if k == |rows| then []
    else
      var rest := IdsFrom(rows, account, after, k + 1);
      if rows[k].account == account && k + 1 > after then [k + 1] + rest else rest
  }

  /** Row ids start at 1, so every cursor at or below 0 selects the same ids. */
  lemma {:induction false} IdsFromNonPositive(rows: seq<StoredEmail>, account: string, after: int, k: nat)
    requires k <= |rows| && after <= 0
    ensures IdsFrom(rows, account, after, k) == IdsFrom(rows, account, 0, k)
    decreases |rows| - k
  {
    if k < |rows| {
      IdsFromNonPositive(rows, account, after, k + 1);
    }
  }

  /** `SELECT id FROM emails WHERE account = ? AND id > after ORDER BY id`. */
  function AccountIdsAfter(rows: seq<StoredEmail>, account: string, after: int): (r: seq<int>)
    ensures forall i, j :: 0 <= i < j < |r| ==> r[i] < r[j]
    ensures forall x :: x in r <==> 0 < x <= |rows| && x > after && rows[x - 1].account == account
  {
    IdsFrom(rows, account, after, 0)
  }

  /** The same query with `LIMIT limit`. */
  function Batch(rows: seq<StoredEmail>, account: string, after: int, limit: nat): seq<int> {
    Take(AccountIdsAfter(rows, account, after), limit)
  }

  /**
   * A batch is an ascending run of the account's ids above the cursor, at most
   * `limit` long, holding every such id up to its last one; it is empty only
   * when no such id is left or the limit is 0.
   */
  lemma BatchFacts(rows: seq<StoredEmail>, account: string, after: int, limit: nat)
    ensures var b := Batch(rows, account, after, limit);
      && |b| <= limit
      && (forall i, j :: 0 <= i < j < |b| ==> b[i] < b[j])
      && (forall x :: x in b ==> after < x <= |rows| && rows[x - 1].account == account)
      && (b != [] ==> forall x :: after < x <= b[|b| - 1] && 0 < x <= |rows| && rows[x - 1].account == account ==> x in b)
      && (b == [] <==> limit == 0 || AccountIdsAfter(rows, account, after) == [])
  {
    var all := AccountIdsAfter(rows, account, after);
    var b := Batch(rows, account, after, limit);
    assert forall x :: x in b ==> x in all;
    if b != [] {
      forall x | after < x <= b[|b| - 1] && 0 < x <= |rows| && rows[x - 1].account == account
        ensures x in b
      {
        assert x in all;
        var p :| 0 <= p < |all| && all[p] == x;
        assert forall q :: 0 <= q < |all| && all[q] <= all[|b| - 1] ==> q < |b|;
        assert b[p] == x;
      }
    }
  }

  // ---------------------------------------------------------------------------
  // Listings: selection, ORDER BY date_epoch DESC, LIMIT / OFFSET
  // ---------------------------------------------------------------------------

  /** The set of row indices whose row id and contents satisfy `keep`. */
  function Qualifying(rows: seq<StoredEmail>, keep: (int, StoredEmail) -> bool): set<nat> {
    set k: nat | k < |rows| && keep(k + 1, rows[k])
  }

  /** The indices `keep` selects, ascending: every qualifying index, and nothing else. */
  function Picked(rows: seq<StoredEmail>, keep: (int, StoredEmail) -> bool): (ks: seq<nat>)
    ensures |ks| <= |rows|
    ensures forall i :: 0 <= i < |ks| ==> ks[i] < |rows| && keep(ks[i] + 1, rows[ks[i]])
    ensures forall i, j :: 0 <= i < j < |ks| ==> ks[i] < ks[j]
    ensures forall k :: 0 <= k < |rows| && keep(k + 1, rows[k]) ==> k in ks
    decreases |rows|
  {
    if rows == [] then []
    else
      var n := |rows| - 1;
      var init := rows[..n];
      var ks0 := Picked(init, keep);
      assert forall k :: 0 <= k < n ==> init[k] == rows[k];
      if keep(n + 1, rows[n]) then ks0 + [n] else ks0
  }

  /** As many indices are picked as there are qualifying rows. */
  lemma {:induction false} PickedCount(rows: seq<StoredEmail>, keep: (int, StoredEmail) -> bool)
    ensures |Picked(rows, keep)| == |Qualifying(rows, keep)|
    decreases |rows|
  {
    if rows == [] {
      assert Qualifying(rows, keep) == {};
    } else {
      var n := |rows| - 1;
      PickedCount(rows[..n], keep);
      QualifyingSnoc(rows, keep);
    }
  }

  /** The qualifying indices of a list are those of its prefix, plus the last index when that row passes. */
  lemma QualifyingSnoc(rows: seq<StoredEmail>, keep: (int, StoredEmail) -> bool)
    requires rows != []
    ensures var n := |rows| - 1; var q0 := Qualifying(rows[..n], keep);
      n !in q0 && Qualifying(rows, keep) == if keep(n + 1, rows[n]) then q0 + {n} else q0
  {
    var n := |rows| - 1;
    var init := rows[..n];
    var q0, q := Qualifying(init, keep), Qualifying(rows, keep);
    forall k: nat ensures k in q <==> k in q0 || (k == n && keep(n + 1, rows[n])) {
      if k < n {
        assert init[k] == rows[k];
      }
    }
  }

  /**
   * `WHERE keep`: the rows, in row-id order, whose row id and contents satisfy
   * `keep`, each once; the i-th is the row at the i-th selected index.
   */
  function Where(rows: seq<StoredEmail>, keep: (int, StoredEmail) -> bool): (r: seq<StoredEmail>)
    ensures |r| == |Picked(rows, keep)| <= |rows|
    ensures forall i :: 0 <= i < |r| ==> r[i] == rows[Picked(rows, keep)[i]]
    ensures forall e :: e in r ==> exists k :: 0 <= k < |rows| && rows[k] == e && keep(k + 1, e)
    ensures forall k :: 0 <= k < |rows| && keep(k + 1, rows[k]) ==> rows[k] in r
  {
    var ks := Picked(rows, keep);
    var r := seq(|ks|, i requires 0 <= i < |ks| => rows[ks[i]]);
    GatheredMembers(rows, keep, ks, r);
    r
  }

  /** The rows gathered at the picked indices are exactly the rows that pass `keep`. */
  lemma GatheredMembers(rows: seq<StoredEmail>, keep: (int, StoredEmail) -> bool, ks: seq<nat>, r: seq<StoredEmail>)
    requires forall i :: 0 <= i < |ks| ==> ks[i] < |rows| && keep(ks[i] + 1, rows[ks[i]])
    requires forall k :: 0 <= k < |rows| && keep(k + 1, rows[k]) ==> k in ks
    requires |r| == |ks| && forall i :: 0 <= i < |r| ==> r[i] == rows[ks[i]]
    ensures forall e :: e in r ==> exists k :: 0 <= k < |rows| && rows[k] == e && keep(k + 1, e)
    ensures forall k :: 0 <= k < |rows| && keep(k + 1, rows[k]) ==> rows[k] in r
  {
    forall e | e in r ensures exists k :: 0 <= k < |rows| && rows[k] == e && keep(k + 1, e) {
      var i :| 0 <= i < |r| && r[i] == e;
      assert rows[ks[i]] == e;
    }
    forall k | 0 <= k < |rows| && keep(k + 1, rows[k]) ensures rows[k] in r {
      var i :| 0 <= i < |ks| && ks[i] == k;
      assert r[i] == rows[k];
    }
  }

  /** Sorted by non-increasing `date_epoch`. */
  predicate NewestFirst(s: seq<StoredEmail>) {
    forall i, j :: 0 <= i < j < |s| ==> s[i].dateEpoch >= s[j].dateEpoch
  }

  /** Inserts `x` after every element at least as new, keeping earlier rows first among equal dates. */
  function InsertByDate(x: StoredEmail, s: seq<StoredEmail>): (r: seq<StoredEmail>)
    requires NewestFirst(s)
    ensures NewestFirst(r)
    ensures forall e :: e in r ==> e == x || e in s
    ensures multiset(r) == multiset(s) + multiset{x}
  {
    if s == [] then [x]
    else
      NewestHead(s);
      if s[0].dateEpoch >= x.dateEpoch then
        var rest := InsertByDate(x, s[1..]);
        NewestCons(s[0], rest);
        assert s == [s[0]] + s[1..];
        [s[0]] + rest
      else
        NewestCons(x, s);
        [x] + s
  }

  /** The first row of a newest-first list is at least as new as the others, which stay newest first. */
  lemma NewestHead(s: seq<StoredEmail>)
    requires s != [] && NewestFirst(s)
    ensures NewestFirst(s[1..])
    ensures forall e :: e in s ==> s[0].dateEpoch >= e.dateEpoch
  {
    forall e | e in s ensures s[0].dateEpoch >= e.dateEpoch {
      var j :| 0 <= j < |s| && s[j] == e;
    }
  }

  /** A row at least as new as every row of a newest-first list can go in front of it. */
  lemma NewestCons(h: StoredEmail, rest: seq<StoredEmail>)
    requires NewestFirst(rest) && forall e :: e in rest ==> h.dateEpoch >= e.dateEpoch
    ensures NewestFirst([h] + rest)
  {
    var r := [h] + rest;
    forall i, j | 0 <= i < j < |r| ensures r[i].dateEpoch >= r[j].dateEpoch {
      assert r[j] == rest[j - 1];
      if i > 0 {
        assert r[i] == rest[i - 1];
      } else {
        assert rest[j - 1] in rest;
      }
    }
  }

  /** `ORDER BY date_epoch DESC` over rows given in row-id order; ties stay in row-id order. */
  function SortByDate(s: seq<StoredEmail>): (r: seq<StoredEmail>)
    ensures NewestFirst(r)
    ensures multiset(r) == multiset(s)
    ensures |r| == |s|
    ensures forall e :: e in r <==> e in s
  {
    if s == [] then []
    else
      assert s == s[..|s| - 1] + [s[|s| - 1]];
      var r := InsertByDate(s[|s| - 1], SortByDate(s[..|s| - 1]));
      assert forall e :: e in s ==> e in multiset(s) && e in multiset(r);
      r
  }

  /** `LIMIT limit OFFSET offset`. */
  function Window<T>(s: seq<T>, offset: nat, limit: nat): (r: seq<T>)
    ensures |r| == if offset >= |s| then 0 else if limit < |s| - offset then limit else |s| - offset
    ensures offset < |s| ==> r == s[offset..offset + |r|]
  {
    if offset >= |s| then [] else Take(s[offset..], limit)
  }

  /** A window of a newest-first listing is newest first and holds only rows of the listing. */
  lemma WindowOfNewestFirst(s: seq<StoredEmail>, offset: nat, limit: nat)
    requires NewestFirst(s)
    ensures NewestFirst(Window(s, offset, limit))
    ensures forall e :: e in Window(s, offset, limit) ==> e in s
  {
    var r := Window(s, offset, limit);
    assert forall i :: 0 <= i < |r| ==> r[i] == s[offset + i];
  }

  /** A page of the newest-first ordering of `l`: newest first, rows of `l` only, and as long as `Window` says. */
  lemma SortedPage(l: seq<StoredEmail>, offset: nat, limit: nat)
    ensures var s := SortByDate(l);
      && NewestFirst(s) && multiset(s) == multiset(l)
      && NewestFirst(Window(s, offset, limit))
      && (forall e :: e in Window(s, offset, limit) ==> e in l)
      && |Window(s, offset, limit)| == if offset >= |l| then 0 else if limit < |l| - offset then limit else |l| - offset
  {
    WindowOfNewestFirst(SortByDate(l), offset, limit);
  }

  /** Consecutive pages concatenate: the window after a window continues it. */
  lemma WindowSplit<T>(s: seq<T>, offset: nat, a: nat, b: nat)
    ensures Window(s, offset, a) + Window(s, offset + a, b) == Window(s, offset, a + b)
  {
    var w1, w2, w := Window(s, offset, a), Window(s, offset + a, b), Window(s, offset, a + b);
    if offset < |s| {
      assert |w1 + w2| == |w|;
      forall i | 0 <= i < |w| ensures (w1 + w2)[i] == w[i] {
        if i >= |w1| {
          assert w2[i - |w1|] == s[offset + a + (i - |w1|)];
        }
      }
    }
  }

  /** A list with no repeats holds each value at most once. */
  lemma {:induction false} DistinctMultiset<T>(s: seq<T>)
    requires Distinct(s)
    ensures forall x :: multiset(s)[x] <= 1
  {
    if s != [] {
      var t := s[1..];
      assert Distinct(t) by {
        forall i, j | 0 <= i < j < |t| ensures t[i] != t[j] {
          assert t[i] == s[i + 1] && t[j] == s[j + 1];
        }
      }
      DistinctMultiset(t);
      assert s == [s[0]] + t;
      assert s[0] !in t by {
        forall j | 0 <= j < |t| ensures t[j] != s[0] {
          assert t[j] == s[j + 1];
        }
      }
    }
  }

  /** A list holding each value at most once has no repeats. */
  lemma MultisetDistinct<T>(s: seq<T>)
    requires forall x :: multiset(s)[x] <= 1
    ensures Distinct(s)
  {
    forall i, j | 0 <= i < j < |s| ensures s[i] != s[j] {
      var p, q := s[..i + 1], s[i + 1..];
      assert s == p + q;
      assert p[i] == s[i] && q[j - i - 1] == s[j];
      assert multiset(s)[s[i]] == multiset(p)[s[i]] + multiset(q)[s[i]];
    }
  }

  /** Reordering keeps a list free of repeats. */
  lemma DistinctPermutation<T>(s: seq<T>, t: seq<T>)
    requires Distinct(t) && multiset(s) == multiset(t)
    ensures Distinct(s)
  {
    DistinctMultiset(t);
    MultisetDistinct(s);
  }

  /** A window of a list with no repeats has none. */
  lemma DistinctWindow<T>(s: seq<T>, offset: nat, limit: nat)
    requires Distinct(s)
    ensures Distinct(Window(s, offset, limit))
  {
    var w := Window(s, offset, limit);
    assert forall i :: 0 <= i < |w| ==> w[i] == s[offset + i];
  }

  /** Two row tests that agree on every row pick the same indices. */
  lemma {:induction false} PickedCongruent(rows: seq<StoredEmail>, p: (int, StoredEmail) -> bool, q: (int, StoredEmail) -> bool)
    requires forall k :: 0 <= k < |rows| ==> p(k + 1, rows[k]) == q(k + 1, rows[k])
    ensures Picked(rows, p) == Picked(rows, q)
    decreases |rows|
  {
    if rows != [] {
      var init := rows[..|rows| - 1];
      assert forall k :: 0 <= k < |init| ==> init[k] == rows[k];
      PickedCongruent(init, p, q);
    }
  }

  /** Two row tests that agree on every row select the same rows. */
  lemma WhereCongruent(rows: seq<StoredEmail>, p: (int, StoredEmail) -> bool, q: (int, StoredEmail) -> bool)
    requires forall k :: 0 <= k < |rows| ==> p(k + 1, rows[k]) == q(k + 1, rows[k])
    ensures Where(rows, p) == Where(rows, q)
  {
    PickedCongruent(rows, p, q);
  }
}
