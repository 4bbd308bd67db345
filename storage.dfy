/**
 * `SqliteStorage`: the local mail store. Its five tables are the fields of
 * one object and every `Storage` operation is a method that changes them the
 * way its SQL statements do, one transaction per call.
 *
 *   emails            the rows, the row at index k having row id k + 1
 *   filters           the filter rows in rowid order
 *   filterSeq         the AUTOINCREMENT counter of `filters` (largest id ever issued)
 *   edges             `filtered_emails`: (email_id, filter_id) pairs
 *   syncState         `sync_state`: last_uid by account
 *   filterCursor      `filter_sync_state_v2` under the one scope in use: last_email_id by account
 */
module Storage {
  import opened Wrappers
  import opened FilterRules
  import opened Tables
  import Regex

  /** One row of `filtered_emails`: (email_id, filter_id). */
  type Edge = (int, int)

  /** The chunk size `save_filters` refreshes matches with. */
  const RefreshChunk: nat := 500

  /** The ids of a list of filters. */
  function FilterIds(fs: seq<FilterPattern>): set<int> {
    set i | 0 <= i < |fs| :: fs[i].id
  }

  /** The ids of a list of compiled filters. */
  function CompiledIds(cs: seq<CompiledFilter>): set<int> {
    set i | 0 <= i < |cs| :: cs[i].id
  }

  /** Compiling keeps the ids. */
  lemma CompiledIdsOf(engine: Regex.Engine, fs: seq<FilterPattern>)
    ensures CompiledIds(CompileFilters(engine, fs)) == FilterIds(fs)
  {
    var cs := CompileFilters(engine, fs);
    assert forall i :: 0 <= i < |cs| ==> cs[i].id == fs[i].id;
  }

  /** Every id `match_filters` reports belongs to one of the compiled filters. */
  lemma MatchedIdsCompiled(engine: Regex.Engine, rows: seq<StoredEmail>, id: int, cs: seq<CompiledFilter>)
    requires 0 < id <= |rows|
    ensures forall x :: x in MatchesOf(engine, rows, id, cs) ==> x in CompiledIds(cs)
  {
  }

  /**
   * One step of the refresh walk: a non-empty batch above `lastId` ends at a
   * larger id, and the matches of the rows up to that id are those up to
   * `lastId` plus those of the batch.
   */
  lemma BatchStep(engine: Regex.Engine, rows: seq<StoredEmail>, account: string, cs: seq<CompiledFilter>, lastId: int, limit: nat)
    requires Batch(rows, account, lastId, limit) != []
    ensures var b := Batch(rows, account, lastId, limit);
      && lastId < b[|b| - 1] <= |rows|
      && (forall x :: x in b ==> 0 < x <= |rows|)
      && (forall p :: MatchEdge(engine, rows, account, cs, 0, b[|b| - 1], p)
            <==> MatchEdge(engine, rows, account, cs, 0, lastId, p) || (p.0 in b && p.1 in MatchesOf(engine, rows, p.0, cs)))
  {
    var b := Batch(rows, account, lastId, limit);
    BatchFacts(rows, account, lastId, limit);
    BatchMax(rows, account, lastId, limit);
    var maxId := b[|b| - 1];
    forall p ensures MatchEdge(engine, rows, account, cs, 0, maxId, p)
      <==> MatchEdge(engine, rows, account, cs, 0, lastId, p) || (p.0 in b && p.1 in MatchesOf(engine, rows, p.0, cs))
    {
    }
  }

  /** When a batch with a positive limit comes back empty, every match lies at or below the cursor. */
  lemma BatchDone(engine: Regex.Engine, rows: seq<StoredEmail>, account: string, cs: seq<CompiledFilter>, lastId: int, limit: nat)
    requires limit > 0 && Batch(rows, account, lastId, limit) == [] && lastId <= |rows|
    ensures forall p :: MatchEdge(engine, rows, account, cs, 0, lastId, p) <==> MatchEdge(engine, rows, account, cs, 0, |rows|, p)
  {
    BatchFacts(rows, account, lastId, limit);
    forall p | MatchEdge(engine, rows, account, cs, 0, |rows|, p) ensures p.0 <= lastId {
      assert p.0 !in AccountIdsAfter(rows, account, lastId);
    }
  }

  /** After a non-empty batch, the account's rows above its last id are those above the old cursor that the batch left out. */
  lemma BatchLeaves(rows: seq<StoredEmail>, account: string, after: int, limit: nat)
    requires Batch(rows, account, after, limit) != []
    ensures var b := Batch(rows, account, after, limit);
      forall x :: x in AccountIdsAfter(rows, account, b[|b| - 1]) <==> x in AccountIdsAfter(rows, account, after) && x !in b
  {
    BatchFacts(rows, account, after, limit);
    BatchMax(rows, account, after, limit);
  }

  /** The last id of a non-empty batch is its largest. */
  lemma BatchMax(rows: seq<StoredEmail>, account: string, after: int, limit: nat)
    requires Batch(rows, account, after, limit) != []
    ensures var b := Batch(rows, account, after, limit);
      b[|b| - 1] in b && forall x :: x in b ==> x <= b[|b| - 1]
  {
    var b := Batch(rows, account, after, limit);
    BatchFacts(rows, account, after, limit);
    forall x | x in b ensures x <= b[|b| - 1] {
      var q :| 0 <= q < |b| && b[q] == x;
      assert q < |b| - 1 ==> b[q] < b[|b| - 1];
    }
  }

  /** When no row of the account matches, adding the matches of a batch of its rows adds no link. */
  lemma NoMatchNoLinks(engine: Regex.Engine, rows: seq<StoredEmail>, account: string, cs: seq<CompiledFilter>, batch: seq<int>,
                       before: set<Edge>, after: set<Edge>)
    requires forall x :: x in batch ==> 0 < x <= |rows| && rows[x - 1].account == account
    requires forall p :: p in after <==> p in before || (p.0 in batch && p.1 in MatchesOf(engine, rows, p.0, cs))
    ensures before <= after
    ensures (forall k :: OfAccount(rows, account, k) ==> MatchesOf(engine, rows, k, cs) == []) ==> after == before
  {
  }

  /** Every match of the account's rows up to `upTo` is linked. */
  ghost predicate LinkedUpTo(engine: Regex.Engine, rows: seq<StoredEmail>, account: string, cs: seq<CompiledFilter>, edges: set<Edge>, upTo: int) {
    forall k, x :: OfAccount(rows, account, k) && k <= upTo && x in MatchesOf(engine, rows, k, cs) ==> (k, x) in edges
  }

  /** Some row of the account up to `upTo` matches one of the filters. */
  predicate MatchBelow(engine: Regex.Engine, rows: seq<StoredEmail>, account: string, cs: seq<CompiledFilter>, upTo: int) {
    exists k :: 0 < k <= |rows| && k <= upTo && rows[k - 1].account == account && MatchesOf(engine, rows, k, cs) != []
  }

  /**
   * Linking a chunk that starts where everything is linked: up to the chunk's
   * last row every match is linked, so some link exists if any row up to it matches.
   */
  lemma ChunkLinked(engine: Regex.Engine, rows: seq<StoredEmail>, account: string, cs: seq<CompiledFilter>,
                    e0: set<Edge>, e1: set<Edge>, from: int, limit: nat)
    requires LinkedUpTo(engine, rows, account, cs, e0, from)
    requires Batch(rows, account, from, limit) != []
    requires forall p :: p in e1 <==> p in e0 || (p.0 in Batch(rows, account, from, limit) && p.1 in MatchesOf(engine, rows, p.0, cs))
    ensures var b := Batch(rows, account, from, limit);
      && from < b[|b| - 1] <= |rows|
      && LinkedUpTo(engine, rows, account, cs, e1, b[|b| - 1])
      && (MatchBelow(engine, rows, account, cs, b[|b| - 1]) ==> exists p :: p in e1 && OfAccount(rows, account, p.0))
  {
    var b := Batch(rows, account, from, limit);
    BatchFacts(rows, account, from, limit);
    var last := b[|b| - 1];
    assert last in b;
    forall k, x | OfAccount(rows, account, k) && k <= last && x in MatchesOf(engine, rows, k, cs) ensures (k, x) in e1 {
      if k > from {
        assert k in b;
      }
    }
    if MatchBelow(engine, rows, account, cs, last) {
      var k :| 0 < k <= |rows| && k <= last && rows[k - 1].account == account && MatchesOf(engine, rows, k, cs) != [];
      var x := MatchesOf(engine, rows, k, cs)[0];
      assert (k, x) in e1;
    }
  }

  /** Once nothing of the account is left above the cursor, every match of its rows is linked. */
  lemma AllLinkedAtEnd(engine: Regex.Engine, rows: seq<StoredEmail>, account: string, cs: seq<CompiledFilter>, edges: set<Edge>, cursor: int)
    requires LinkedUpTo(engine, rows, account, cs, edges, cursor)
    requires AccountIdsAfter(rows, account, cursor) == []
    ensures forall k, x :: OfAccount(rows, account, k) && x in MatchesOf(engine, rows, k, cs) ==> (k, x) in edges
  {
    forall k, x | OfAccount(rows, account, k) && x in MatchesOf(engine, rows, k, cs) ensures (k, x) in edges {
      assert k !in AccountIdsAfter(rows, account, cursor);
    }
  }

  /**
   * What one chunk step leaves, stated on values: a step that finds nothing
   * left above `from` has linked every match of the account; any other has
   * linked every match up to its new cursor, which lies past `from`.
   */
  lemma StepOutcome(engine: Regex.Engine, rows: seq<StoredEmail>, account: string, cs: seq<CompiledFilter>,
                    e0: set<Edge>, e1: set<Edge>, from: int, limit: nat, n: nat, cursor: int)
    requires limit > 0 && LinkedUpTo(engine, rows, account, cs, e0, from)
    requires n == |Batch(rows, account, from, limit)|
    requires n > 0 ==> cursor == Batch(rows, account, from, limit)[n - 1]
    requires n == 0 ==> AccountIdsAfter(rows, account, from) == []
    requires forall p :: p in e1 <==> p in e0 || (p.0 in Batch(rows, account, from, limit) && p.1 in MatchesOf(engine, rows, p.0, cs))
    ensures e0 <= e1
    ensures n == 0 ==> forall k, x :: OfAccount(rows, account, k) && x in MatchesOf(engine, rows, k, cs) ==> (k, x) in e1
    ensures n > 0 ==>
      (from < cursor <= |rows| && LinkedUpTo(engine, rows, account, cs, e1, cursor)
       && (MatchBelow(engine, rows, account, cs, cursor) ==> exists p :: p in e1 && OfAccount(rows, account, p.0)))
  {
    if n == 0 {
      assert LinkedUpTo(engine, rows, account, cs, e1, from);
      AllLinkedAtEnd(engine, rows, account, cs, e1, from);
    } else {
      ChunkLinked(engine, rows, account, cs, e0, e1, from, limit);
    }
  }

  /** `p` links a row of one of `accounts` to a filter of `cs` that matches it. */
  predicate AccountLink(engine: Regex.Engine, rows: seq<StoredEmail>, accounts: set<string>, cs: seq<CompiledFilter>, p: Edge) {
    0 < p.0 <= |rows| && rows[p.0 - 1].account in accounts && p.1 in MatchesOf(engine, rows, p.0, cs)
  }

  /** Refreshing one more account adds exactly that account's links. */
  lemma AccountsStep(engine: Regex.Engine, rows: seq<StoredEmail>, cs: seq<CompiledFilter>, e0: set<Edge>, before: set<Edge>, after: set<Edge>,
                     done: set<string>, a: string)
    requires forall p :: p in before <==> p in e0 || AccountLink(engine, rows, done, cs, p)
    requires forall p :: p in after <==> p in before || (RefreshChunk > 0 && MatchEdge(engine, rows, a, cs, 0, |rows|, p))
    ensures forall p :: p in after <==> p in e0 || AccountLink(engine, rows, done + {a}, cs, p)
  {
  }

  /** Once every account with rows is done, the links are those of all rows. */
  lemma AllAccountsLinked(engine: Regex.Engine, rows: seq<StoredEmail>, cs: seq<CompiledFilter>, e0: set<Edge>, es: set<Edge>, done: set<string>)
    requires forall k :: 0 <= k < |rows| ==> rows[k].account in done
    requires forall p :: p in es <==> p in e0 || AccountLink(engine, rows, done, cs, p)
    ensures forall p :: p in es <==> p in e0 || (0 < p.0 <= |rows| && p.1 in MatchesOf(engine, rows, p.0, cs))
  {
  }

  /**
   * The table constraints: `UNIQUE(account, uid)`, AUTOINCREMENT ids in rowid
   * order and never above the counter, and `filtered_emails` foreign keys.
   */
  predicate Consistent(emails: seq<StoredEmail>, filters: seq<FilterPattern>, filterSeq: int, edges: set<Edge>) {
    && KeysUnique(emails)
    && IdsAscending(filters)
    && 0 <= filterSeq
    && (forall f :: f in filters ==> 0 < f.id <= filterSeq)
    && (forall p :: p in edges ==> 0 < p.0 <= |emails| && p.1 in FilterIds(filters))
  }

  /** Ids strictly increase along the list (AUTOINCREMENT ids listed in rowid order). */
  predicate IdsAscending(fs: seq<FilterPattern>) {
    forall i, j :: 0 <= i < j < |fs| ==> fs[i].id < fs[j].id
  }

  /** The row id belongs to one of the account's rows. */
  predicate OfAccount(rows: seq<StoredEmail>, account: string, id: int) {
    0 < id <= |rows| && rows[id - 1].account == account
  }

  /** The filter ids `match_filters` reports for the row with id `id`. */
  function MatchesOf(engine: Regex.Engine, rows: seq<StoredEmail>, id: int, cs: seq<CompiledFilter>): seq<int>
    requires 0 < id <= |rows|
  {
    MatchFilters(engine, rows[id - 1].subject, rows[id - 1].sender, cs)
  }

  /** `p` links one of the account's rows with id in `(lo, hi]` to a filter of `cs` that matches it. */
  predicate MatchEdge(engine: Regex.Engine, rows: seq<StoredEmail>, account: string, cs: seq<CompiledFilter>, lo: int, hi: int, p: Edge) {
    lo < p.0 <= hi && OfAccount(rows, account, p.0) && p.1 in MatchesOf(engine, rows, p.0, cs)
  }

  /** The accounts that have rows (`SELECT DISTINCT account FROM emails`). */
  function Accounts(rows: seq<StoredEmail>): set<string> {
    set k | 0 <= k < |rows| :: rows[k].account
  }

  /** Which rows a listing selects: the account's, and only unread ones when asked. */
  predicate InListing(e: StoredEmail, account: string, unreadOnly: bool) {
    e.account == account && (unreadOnly ==> !e.isRead)
  }

  /** Some filter of `filterIds` is linked to the row with id `id`. */
  predicate LinkedToAny(edges: set<Edge>, id: int, filterIds: seq<int>) {
    exists f :: f in filterIds && (id, f) in edges
  }

  /** The uids of a request as a set (the `IN (...)` list). */
  function UidSet(uids: seq<int>): set<int> {
    set u | u in uids
  }

  /**
   * One statement of the chunked marking loop: marking the next run of at
   * most 200 uids extends the marked set by it, and it selects as many rows as
   * it would have before any marking.
   */
  lemma ChunkStep(rows0: seq<StoredEmail>, account: string, uids: seq<int>, i: nat, flag: bool)
    requires i < |uids|
    ensures var end := if i + ChunkSize < |uids| then i + ChunkSize else |uids|;
      var rows := MarkRows(rows0, account, UidSet(uids[..i]), flag);
      && MarkRows(rows, account, UidSet(uids[i..end]), flag) == MarkRows(rows0, account, UidSet(uids[..end]), flag)
      && MatchCount(rows, account, UidSet(uids[i..end])) + ChunkedMatches(rows0, account, uids[end..])
         == ChunkedMatches(rows0, account, uids[i..])
  {
    var end := if i + ChunkSize < |uids| then i + ChunkSize else |uids|;
    var done := UidSet(uids[..i]);
    var now := UidSet(uids[i..end]);
    MatchCountAfterMark(rows0, account, done, now, flag);
    MarkRowsTwice(rows0, account, done, now, flag);
    assert uids[..end] == uids[..i] + uids[i..end];
    assert UidSet(uids[..end]) == done + now;
    assert uids[i..][..end - i] == uids[i..end] && uids[i..][end - i..] == uids[end..];
  }

  /** Setting the read flag leaves every key and the row count alone, so the tables stay consistent. */
  lemma MarkConsistent(rows: seq<StoredEmail>, account: string, uids: set<int>, flag: bool,
                       fs: seq<FilterPattern>, n: int, es: set<Edge>)
    requires Consistent(rows, fs, n, es)
    ensures Consistent(MarkRows(rows, account, uids, flag), fs, n, es)
  {
    var r := MarkRows(rows, account, uids, flag);
    assert forall k :: 0 <= k < |rows| ==> r[k].account == rows[k].account && r[k].uid == rows[k].uid;
  }

  /** No two filters of the list share an id. */
  predicate DistinctIds(fs: seq<FilterPattern>) {
    forall i, j :: 0 <= i < j < |fs| ==> fs[i].id != fs[j].id
  }

  // ---------------------------------------------------------------------------
  // The diff of save_filters
  // ---------------------------------------------------------------------------

  /** What `save_filters` does with each filter: insert, update and refresh, rewrite only, delete. */
  datatype SavePlan = SavePlan(
    toInsert: seq<FilterPattern>,
    toUpdate: seq<FilterPattern>,
    toTouch: seq<FilterPattern>,
    toDelete: set<int>)

  /** A change to pattern, mode or field invalidates the filter's recorded matches. */
  predicate NeedsRefresh(prev: FilterPattern, f: FilterPattern) {
    prev.pattern != f.pattern || prev.isRegex != f.isRegex || FieldToString(prev.field) != FieldToString(f.field)
  }

  /** A change to name or enabled flag only rewrites the row. */
  predicate NeedsTouch(prev: FilterPattern, f: FilterPattern) {
    prev.name != f.name || prev.enabled != f.enabled
  }

  /** The stored filters by id (`existing_map`). */
  function IdMap(fs: seq<FilterPattern>): (m: map<int, FilterPattern>)
    ensures m.Keys == FilterIds(fs)
    ensures forall x :: x in m ==> m[x].id == x
    ensures forall i :: 0 <= i < |fs| && (forall j :: i < j < |fs| ==> fs[j].id != fs[i].id) ==> m[fs[i].id] == fs[i]
  {
    if fs == [] then map[]
    else
      var init := fs[..|fs| - 1];
      var last := fs[|fs| - 1];
      assert fs == init + [last];
      IdMapSnoc(init, last, IdMap(init));
      IdMap(init)[last.id := last]
  }

  /** The map of a list grows by its last filter, which overrides an earlier one of the same id. */
  lemma IdMapSnoc(init: seq<FilterPattern>, last: FilterPattern, m0: map<int, FilterPattern>)
    requires m0.Keys == FilterIds(init)
    requires forall x :: x in m0 ==> m0[x].id == x
    requires forall i :: 0 <= i < |init| && (forall j :: i < j < |init| ==> init[j].id != init[i].id) ==> m0[init[i].id] == init[i]
    ensures var fs, m := init + [last], m0[last.id := last];
      && m.Keys == FilterIds(fs)
      && (forall x :: x in m ==> m[x].id == x)
      && (forall i :: 0 <= i < |fs| && (forall j :: i < j < |fs| ==> fs[j].id != fs[i].id) ==> m[fs[i].id] == fs[i])
  {
    var fs := init + [last];
    assert FilterIds(fs) == FilterIds(init) + {last.id} by {
      assert forall i :: 0 <= i < |init| ==> fs[i] == init[i];
      assert fs[|init|] == last;
    }
    assert forall i :: 0 <= i < |init| ==> init[i].id in FilterIds(init);
    IdMapSnocLatest(init, last, m0);
  }

  /** After the update, the last filter of each id in `init + [last]` is the one the map holds. */
  lemma IdMapSnocLatest(init: seq<FilterPattern>, last: FilterPattern, m0: map<int, FilterPattern>)
    requires forall i :: 0 <= i < |init| ==> init[i].id in m0
    requires forall i :: 0 <= i < |init| && (forall j :: i < j < |init| ==> init[j].id != init[i].id) ==> m0[init[i].id] == init[i]
    ensures var fs, m := init + [last], m0[last.id := last];
      forall i :: 0 <= i < |fs| && (forall j :: i < j < |fs| ==> fs[j].id != fs[i].id) ==> m[fs[i].id] == fs[i]
  {
    var fs, m := init + [last], m0[last.id := last];
    forall i | 0 <= i < |fs| && (forall j :: i < j < |fs| ==> fs[j].id != fs[i].id) ensures m[fs[i].id] == fs[i] {
      if i < |init| {
        assert fs[i] == init[i] && init[i].id in m0;
        assert fs[|init|].id != fs[i].id;
        forall j | i < j < |init| ensures init[j].id != init[i].id {
          assert fs[j] == init[j];
        }
      }
    }
  }

  /**
   * The classification loop of `save_filters`: each input filter whose id is
   * still in the map is taken out of it and compared; any other is inserted;
   * the ids left in the map at the end are deleted.
   */
  function Classify(existing: map<int, FilterPattern>, ps: seq<FilterPattern>): SavePlan
    decreases |ps|
  {
    if ps == [] then SavePlan([], [], [], existing.Keys)
    else
      var f := ps[0];
      if f.id in existing then
        var prev := existing[f.id];
        var rest := Classify(existing - {f.id}, ps[1..]);
        if NeedsRefresh(prev, f) then rest.(toUpdate := [f] + rest.toUpdate)
        else if NeedsTouch(prev, f) then rest.(toTouch := [f] + rest.toTouch)
        else rest
      else
        var rest := Classify(existing, ps[1..]);
        rest.(toInsert := [f] + rest.toInsert)
  }

  /** Classifying the input from position `i` on takes the filter at `i` first. */
  lemma ClassifySuffix(existing: map<int, FilterPattern>, ps: seq<FilterPattern>, i: nat)
    requires i < |ps|
    ensures var f := ps[i];
      Classify(existing, ps[i..]) ==
        if f.id in existing then
          var rest := Classify(existing - {f.id}, ps[i + 1..]);
          if NeedsRefresh(existing[f.id], f) then rest.(toUpdate := [f] + rest.toUpdate)
          else if NeedsTouch(existing[f.id], f) then rest.(toTouch := [f] + rest.toTouch)
          else rest
        else
          var rest := Classify(existing, ps[i + 1..]);
          rest.(toInsert := [f] + rest.toInsert)
  {
    assert ps[i..][0] == ps[i] && ps[i..][1..] == ps[i + 1..];
  }

  /**
   * After the first `i` input filters, the lists built so far followed by the
   * plan of the rest, classified against the ids not yet taken, make the plan
   * of the whole input.
   */
  predicate PlannedUpTo(existing: map<int, FilterPattern>, ps: seq<FilterPattern>, i: nat, remaining: map<int, FilterPattern>,
                        toInsert: seq<FilterPattern>, toUpdate: seq<FilterPattern>, toTouch: seq<FilterPattern>)
    requires i <= |ps|
  {
    var rest := Classify(remaining, ps[i..]);
    Classify(existing, ps) == SavePlan(toInsert + rest.toInsert, toUpdate + rest.toUpdate, toTouch + rest.toTouch, rest.toDelete)
  }

  /** One step of the classification loop keeps `PlannedUpTo`. */
  lemma PlannedStep(existing: map<int, FilterPattern>, ps: seq<FilterPattern>, i: nat, remaining: map<int, FilterPattern>,
                    toInsert: seq<FilterPattern>, toUpdate: seq<FilterPattern>, toTouch: seq<FilterPattern>)
    requires i < |ps| && PlannedUpTo(existing, ps, i, remaining, toInsert, toUpdate, toTouch)
    ensures var f := ps[i];
      if f.id !in remaining then PlannedUpTo(existing, ps, i + 1, remaining, toInsert + [f], toUpdate, toTouch)
      else if NeedsRefresh(remaining[f.id], f) then PlannedUpTo(existing, ps, i + 1, remaining - {f.id}, toInsert, toUpdate + [f], toTouch)
      else if NeedsTouch(remaining[f.id], f) then PlannedUpTo(existing, ps, i + 1, remaining - {f.id}, toInsert, toUpdate, toTouch + [f])
      else PlannedUpTo(existing, ps, i + 1, remaining - {f.id}, toInsert, toUpdate, toTouch)
  {
    var f := ps[i];
    ClassifySuffix(remaining, ps, i);
    if f.id in remaining {
      var rest := Classify(remaining - {f.id}, ps[i + 1..]);
      assert toUpdate + ([f] + rest.toUpdate) == (toUpdate + [f]) + rest.toUpdate;
      assert toTouch + ([f] + rest.toTouch) == (toTouch + [f]) + rest.toTouch;
    } else {
      var rest := Classify(remaining, ps[i + 1..]);
      assert toInsert + ([f] + rest.toInsert) == (toInsert + [f]) + rest.toInsert;
    }
  }

  /** The ids of the filters that are rewritten in place. */
  function RewrittenIds(plan: SavePlan): set<int> {
    FilterIds(plan.toUpdate) + FilterIds(plan.toTouch)
  }

  /** The plan deletes exactly the stored ids no input filter carries. */
  lemma {:induction false} ClassifyDeletes(existing: map<int, FilterPattern>, ps: seq<FilterPattern>)
    ensures Classify(existing, ps).toDelete == existing.Keys - FilterIds(ps)
    decreases |ps|
  {
    if ps != [] {
      var f := ps[0];
      assert FilterIds(ps) == {f.id} + FilterIds(ps[1..]) by {
        assert forall i :: 0 < i < |ps| ==> ps[i] == ps[1..][i - 1];
      }
      if f.id in existing {
        ClassifyDeletes(existing - {f.id}, ps[1..]);
      } else {
        ClassifyDeletes(existing, ps[1..]);
      }
    }
  }

  /**
   * The plan inserts every input filter whose id is not stored, and only
   * input filters (a repeated id is inserted again once its first occurrence
   * has taken it out of the map).
   */
  lemma {:induction false} ClassifyInserts(existing: map<int, FilterPattern>, ps: seq<FilterPattern>)
    ensures var plan := Classify(existing, ps);
      && (forall f :: f in ps && f.id !in existing ==> f in plan.toInsert)
      && (forall f :: f in plan.toInsert ==> f in ps)
    decreases |ps|
  {
    if ps != [] {
      var f := ps[0];
      assert forall g :: g in ps <==> g == f || g in ps[1..];
      if f.id in existing {
        ClassifyInserts(existing - {f.id}, ps[1..]);
      } else {
        ClassifyInserts(existing, ps[1..]);
      }
    }
  }

  /**
   * The plan rewrites only stored filters named by the input: with a refresh
   * when pattern, mode or field changed, and without one when only name or
   * enabled flag did.
   */
  lemma {:induction false} ClassifyRewrites(existing: map<int, FilterPattern>, ps: seq<FilterPattern>)
    ensures var plan := Classify(existing, ps);
      && (forall f :: f in plan.toUpdate ==> f in ps && f.id in existing && NeedsRefresh(existing[f.id], f))
      && (forall f :: f in plan.toTouch ==> f in ps && f.id in existing && !NeedsRefresh(existing[f.id], f) && NeedsTouch(existing[f.id], f))
    decreases |ps|
  {
    if ps != [] {
      var f := ps[0];
      assert forall g :: g in ps[1..] ==> g in ps;
      if f.id in existing {
        ClassifyRewrites(existing - {f.id}, ps[1..]);
      } else {
        ClassifyRewrites(existing, ps[1..]);
      }
    }
  }

  /** No stored filter is rewritten twice. */
  lemma {:induction false} ClassifyDistinct(existing: map<int, FilterPattern>, ps: seq<FilterPattern>)
    ensures var plan := Classify(existing, ps);
      DistinctIds(plan.toUpdate + plan.toTouch)
    decreases |ps|
  {
    if ps != [] {
      var f := ps[0];
      if f.id in existing {
        var rest := Classify(existing - {f.id}, ps[1..]);
        ClassifyDistinct(existing - {f.id}, ps[1..]);
        ClassifyRewrites(existing - {f.id}, ps[1..]);
        assert f.id !in FilterIds(rest.toUpdate) + FilterIds(rest.toTouch);
        if NeedsRefresh(existing[f.id], f) {
          assert [f] + rest.toUpdate + rest.toTouch == [f] + (rest.toUpdate + rest.toTouch);
          DistinctIdsInsert([], f, rest.toUpdate + rest.toTouch);
        } else if NeedsTouch(existing[f.id], f) {
          DistinctIdsInsert(rest.toUpdate, f, rest.toTouch);
        }
      } else {
        ClassifyDistinct(existing, ps[1..]);
      }
    }
  }

  /**
   * All of the above, and nothing is both rewritten and deleted: a rewritten
   * filter is named by the input, and a deleted one is not.
   */
  lemma ClassifyFacts(existing: map<int, FilterPattern>, ps: seq<FilterPattern>)
    ensures var plan := Classify(existing, ps);
      && plan.toDelete == existing.Keys - FilterIds(ps)
      && (forall f :: f in ps && f.id !in existing ==> f in plan.toInsert)
      && (forall f :: f in plan.toInsert ==> f in ps)
      && (forall f :: f in plan.toUpdate ==> f in ps && f.id in existing && NeedsRefresh(existing[f.id], f))
      && (forall f :: f in plan.toTouch ==> f in ps && f.id in existing && !NeedsRefresh(existing[f.id], f) && NeedsTouch(existing[f.id], f))
      && DistinctIds(plan.toUpdate + plan.toTouch)
      && RewrittenIds(plan) !! plan.toDelete
  {
    var plan := Classify(existing, ps);
    ClassifyDeletes(existing, ps);
    ClassifyInserts(existing, ps);
    ClassifyRewrites(existing, ps);
    ClassifyDistinct(existing, ps);
    forall x | x in RewrittenIds(plan) ensures x in FilterIds(ps) {
      if x in FilterIds(plan.toUpdate) {
        var i :| 0 <= i < |plan.toUpdate| && plan.toUpdate[i].id == x;
        assert plan.toUpdate[i] in plan.toUpdate;
        var j :| 0 <= j < |ps| && ps[j] == plan.toUpdate[i];
      } else {
        var i :| 0 <= i < |plan.toTouch| && plan.toTouch[i].id == x;
        assert plan.toTouch[i] in plan.toTouch;
        var j :| 0 <= j < |ps| && ps[j] == plan.toTouch[i];
      }
    }
  }

  /** Putting a filter whose id is new into a list of distinct ids keeps them distinct. */
  lemma DistinctIdsInsert(a: seq<FilterPattern>, f: FilterPattern, b: seq<FilterPattern>)
    requires DistinctIds(a + b) && f.id !in FilterIds(a) + FilterIds(b)
    ensures DistinctIds(a + ([f] + b))
  {
    var s := a + ([f] + b);
    var ab := a + b;
    forall i, j | 0 <= i < j < |s| ensures s[i].id != s[j].id {
      if j < |a| {
        assert s[i] == ab[i] && s[j] == ab[j];
      } else if j == |a| {
        assert s[i] == a[i] && a[i] in a && s[j] == f;
      } else if i < |a| {
        assert s[i] == ab[i] && s[j] == ab[j - 1];
      } else if i == |a| {
        assert s[j] == b[j - |a| - 1] && b[j - |a| - 1] in b && s[i] == f;
      } else {
        assert s[i] == ab[i - 1] && s[j] == ab[j - 1];
      }
    }
  }

  /** Filters with consecutive new ids after `base`, as the inserts issue them. */
  function Numbered(fs: seq<FilterPattern>, base: int): (r: seq<FilterPattern>)
    ensures |r| == |fs|
    ensures forall i :: 0 <= i < |fs| ==> r[i] == fs[i].(id := base + i + 1)
  {
    seq(|fs|, i requires 0 <= i < |fs| => fs[i].(id := base + i + 1))
  }

  /** The stored filters without the given ids, in order (`DELETE FROM filters WHERE id IN (...)`). */
  function RemoveIds(fs: seq<FilterPattern>, ids: set<int>): (r: seq<FilterPattern>)
    ensures forall f :: f in r <==> f in fs && f.id !in ids
    ensures IdsAscending(fs) ==> IdsAscending(r)
  {
    if fs == [] then []
    else
      var rest := RemoveIds(fs[1..], ids);
      AscendingTail(fs);
      if fs[0].id in ids then rest
      else
        AscendingCons(fs, rest);
        [fs[0]] + rest
  }

  /** Dropping the first filter keeps the ids ascending. */
  lemma AscendingTail(fs: seq<FilterPattern>)
    requires fs != []
    ensures IdsAscending(fs) ==> IdsAscending(fs[1..])
  {
  }

  /** Keeping the first filter in front of a selection of the rest keeps the ids ascending. */
  lemma AscendingCons(fs: seq<FilterPattern>, rest: seq<FilterPattern>)
    requires fs != []
    requires forall f :: f in rest ==> f in fs[1..]
    ensures IdsAscending(fs) && IdsAscending(rest) ==> IdsAscending([fs[0]] + rest)
  {
    var r := [fs[0]] + rest;
    forall i, j | IdsAscending(fs) && IdsAscending(rest) && 0 <= i < j < |r| ensures r[i].id < r[j].id {
      assert r[j] == rest[j - 1];
      if i == 0 {
        assert rest[j - 1] in fs[1..];
        var k :| 0 <= k < |fs[1..]| && fs[1..][k] == rest[j - 1];
        assert fs[k + 1] == rest[j - 1];
      } else {
        assert r[i] == rest[i - 1];
      }
    }
  }

  /** Deleting no ids leaves the filters as they are. */
  lemma {:induction false} RemoveNothing(fs: seq<FilterPattern>)
    ensures RemoveIds(fs, {}) == fs
  {
    if fs != [] {
      RemoveNothing(fs[1..]);
      assert RemoveIds(fs, {}) == [fs[0]] + RemoveIds(fs[1..], {});
      HeadTail(fs);
    }
  }

  /** A non-empty list is its first filter followed by the rest. */
  lemma HeadTail(fs: seq<FilterPattern>)
    requires fs != []
    ensures [fs[0]] + fs[1..] == fs
  {
  }

  /** `UPDATE filters SET ... WHERE id = f.id`. */
  function ReplaceById(fs: seq<FilterPattern>, f: FilterPattern): (r: seq<FilterPattern>)
    ensures |r| == |fs|
    ensures forall i :: 0 <= i < |fs| ==> r[i] == if fs[i].id == f.id then f else fs[i]
  {
    seq(|fs|, i requires 0 <= i < |fs| => if fs[i].id == f.id then f else fs[i])
  }

  /** The links left after the links to `ids` are dropped. */
  function Unlinked(es: set<Edge>, ids: set<int>): (r: set<Edge>)
    ensures forall p :: p in r <==> p in es && p.1 !in ids
  {
    set p | p in es && p.1 !in ids
  }

  /** Dropping filters together with their links keeps the tables consistent. */
  lemma RemoveConsistent(emails: seq<StoredEmail>, fs: seq<FilterPattern>, n: int, es: set<Edge>, ids: set<int>)
    requires Consistent(emails, fs, n, es)
    ensures Consistent(emails, RemoveIds(fs, ids), n, Unlinked(es, ids))
  {
    var r := RemoveIds(fs, ids);
    forall p | p in Unlinked(es, ids) ensures p.1 in FilterIds(r) {
      var i :| 0 <= i < |fs| && fs[i].id == p.1;
      assert fs[i] in r;
      var j :| 0 <= j < |r| && r[j] == fs[i];
    }
  }

  /** Appending a filter with the next counter value keeps the tables consistent. */
  lemma AppendConsistent(emails: seq<StoredEmail>, fs: seq<FilterPattern>, n: int, es: set<Edge>, f: FilterPattern)
    requires Consistent(emails, fs, n, es) && f.id == n + 1 && n >= 0
    ensures Consistent(emails, fs + [f], n + 1, es)
    ensures FilterIds(fs + [f]) == FilterIds(fs) + {f.id}
  {
    var r := fs + [f];
    assert forall i :: 0 <= i < |fs| ==> r[i] == fs[i];
    assert forall i :: 0 <= i < |fs| ==> fs[i] in fs;
    assert r[|fs|] == f;
    forall x | x in FilterIds(r) ensures x in FilterIds(fs) + {f.id} {
      var i :| 0 <= i < |r| && r[i].id == x;
    }
  }

  /** Rewriting filters in place without changing any id keeps the tables consistent. */
  lemma SameIdsConsistent(emails: seq<StoredEmail>, fs: seq<FilterPattern>, gs: seq<FilterPattern>, n: int, es: set<Edge>)
    requires Consistent(emails, fs, n, es)
    requires |gs| == |fs| && forall k :: 0 <= k < |fs| ==> gs[k].id == fs[k].id
    ensures Consistent(emails, gs, n, es)
    ensures FilterIds(gs) == FilterIds(fs)
  {
    assert forall k :: 0 <= k < |fs| ==> fs[k] in fs;
    forall g | g in gs ensures 0 < g.id <= n {
      var k :| 0 <= k < |gs| && gs[k] == g;
    }
  }

  /** Numbering one more filter extends the numbered list by that filter. */
  lemma NumberedStep(fs: seq<FilterPattern>, base: int, i: nat)
    requires i < |fs|
    ensures Numbered(fs[..i + 1], base) == Numbered(fs[..i], base) + [fs[i].(id := base + i + 1)]
  {
    assert fs[..i + 1][..i] == fs[..i];
  }

  /** The last filter of `us` with `g`'s id, or `g` itself when there is none. */
  function Latest(us: seq<FilterPattern>, g: FilterPattern): (r: FilterPattern)
    ensures r.id == g.id
    ensures r == g || r in us
  {
    if us == [] then g
    else if us[|us| - 1].id == g.id then us[|us| - 1]
    else Latest(us[..|us| - 1], g)
  }

  /** The stored filters after `UPDATE ... WHERE id = u.id` for each `u` of `us` in turn. */
  function Updated(fs: seq<FilterPattern>, us: seq<FilterPattern>): (r: seq<FilterPattern>)
    ensures |r| == |fs|
    ensures forall k :: 0 <= k < |fs| ==> r[k] == Latest(us, fs[k])
  {
    seq(|fs|, k requires 0 <= k < |fs| => Latest(us, fs[k]))
  }

  /** One more update step replaces by the next filter. */
  lemma UpdatedStep(fs: seq<FilterPattern>, us: seq<FilterPattern>, i: nat)
    requires i < |us|
    ensures Updated(fs, us[..i + 1]) == ReplaceById(Updated(fs, us[..i]), us[i])
  {
    assert us[..i + 1][..i] == us[..i];
  }

  /** With distinct ids, an update list rewrites each stored filter it names to that entry. */
  lemma {:induction false} LatestDistinct(us: seq<FilterPattern>, g: FilterPattern, u: FilterPattern)
    requires DistinctIds(us) && u in us && u.id == g.id
    ensures Latest(us, g) == u
  {
    var last := us[|us| - 1];
    if last != u {
      var init := us[..|us| - 1];
      var k :| 0 <= k < |us| && us[k] == u;
      assert k < |us| - 1 && init[k] == u;
      LatestDistinct(init, g, u);
    }
  }

  /** A stored filter that no update names is left as it was. */
  lemma {:induction false} LatestUnnamed(us: seq<FilterPattern>, g: FilterPattern)
    requires g.id !in FilterIds(us)
    ensures Latest(us, g) == g
  {
    if us != [] {
      var init := us[..|us| - 1];
      assert FilterIds(init) <= FilterIds(us) by {
        assert forall k :: 0 <= k < |init| ==> init[k] == us[k];
      }
      LatestUnnamed(init, g);
    }
  }

  // ---------------------------------------------------------------------------
  // The outcome of save_filters
  // ---------------------------------------------------------------------------

  /** Stored filters as the store keeps them: ascending ids, all issued by a counter that stands at `n`. */
  predicate IssuedBelow(fs: seq<FilterPattern>, n: int) {
    IdsAscending(fs) && forall f :: f in fs ==> 0 < f.id <= n
  }

  /** The plan `save_filters` makes for the stored filters `fs` and the input `ps`. */
  function PlanFor(fs: seq<FilterPattern>, ps: seq<FilterPattern>): SavePlan {
    Classify(IdMap(fs), ps)
  }

  /** The stored filters whose pattern, mode or field the input changes. */
  function ChangedIds(fs: seq<FilterPattern>, ps: seq<FilterPattern>): set<int> {
    FilterIds(PlanFor(fs, ps).toUpdate)
  }

  /** The rows a plan rewrites in place, updates first. */
  function Rewrites(plan: SavePlan): seq<FilterPattern> {
    plan.toUpdate + plan.toTouch
  }

  /** A plan carried out on `fs`: the deletions, then the inserts numbered from the counter `n`, then the rewrites in turn. */
  function Applied(fs: seq<FilterPattern>, plan: SavePlan, n: int): seq<FilterPattern> {
    Updated(RemoveIds(fs, plan.toDelete) + Numbered(plan.toInsert, n), Rewrites(plan))
  }

  /** The filters whose matches a plan recomputes: the updated ones, then the inserted ones with their new ids. */
  function RefreshList(plan: SavePlan, n: int): seq<FilterPattern> {
    plan.toUpdate + Numbered(plan.toInsert, n)
  }

  /** The `filters` table after `save_filters`. */
  function SavedFilters(fs: seq<FilterPattern>, ps: seq<FilterPattern>, n: int): seq<FilterPattern> {
    Applied(fs, PlanFor(fs, ps), n)
  }

  /** The filters `save_filters` refreshes. */
  function Refreshed(fs: seq<FilterPattern>, ps: seq<FilterPattern>, n: int): seq<FilterPattern> {
    RefreshList(PlanFor(fs, ps), n)
  }

  /** A link after a plan is carried out: an old one whose filter was neither deleted nor updated, or a match of a refreshed filter. */
  predicate LinkAfter(engine: Regex.Engine, rows: seq<StoredEmail>, plan: SavePlan, n: int, e0: set<Edge>, p: Edge) {
    || (p in e0 && p.1 !in plan.toDelete && p.1 !in FilterIds(plan.toUpdate))
    || (0 < p.0 <= |rows| && p.1 in MatchesOf(engine, rows, p.0, CompileFilters(engine, RefreshList(plan, n))))
  }

  /** A row of `filtered_emails` after `save_filters`. */
  predicate SavedLink(engine: Regex.Engine, rows: seq<StoredEmail>, fs: seq<FilterPattern>, ps: seq<FilterPattern>, n: int, e0: set<Edge>, p: Edge) {
    LinkAfter(engine, rows, PlanFor(fs, ps), n, e0, p)
  }

  /** The plan deletes only stored ids and rewrites only kept stored filters, each once. */
  predicate PlanFits(fs: seq<FilterPattern>, plan: SavePlan) {
    && plan.toDelete <= FilterIds(fs)
    && DistinctIds(Rewrites(plan))
    && forall f :: f in Rewrites(plan) ==> f.id in FilterIds(fs) && f.id !in plan.toDelete
  }

  /** Ascending ids are distinct. */
  lemma AscendingDistinct(fs: seq<FilterPattern>)
    requires IdsAscending(fs)
    ensures DistinctIds(fs)
  {
  }

  /** In a list with distinct ids, an id names one filter. */
  lemma SameIdSame(fs: seq<FilterPattern>, f: FilterPattern, g: FilterPattern)
    requires DistinctIds(fs) && f in fs && g in fs && f.id == g.id
    ensures f == g
  {
    var i :| 0 <= i < |fs| && fs[i] == f;
    var j :| 0 <= j < |fs| && fs[j] == g;
    assert !(i < j) && !(j < i);
  }

  /** The ids of two lists put together. */
  lemma ConcatIds(a: seq<FilterPattern>, b: seq<FilterPattern>)
    ensures FilterIds(a + b) == FilterIds(a) + FilterIds(b)
  {
    var c := a + b;
    assert forall i :: 0 <= i < |a| ==> c[i] == a[i];
    assert forall i :: 0 <= i < |b| ==> c[|a| + i] == b[i];
    forall x | x in FilterIds(c) ensures x in FilterIds(a) + FilterIds(b) {
      var i :| 0 <= i < |c| && c[i].id == x;
      if i >= |a| {
        assert b[i - |a|] == c[i];
      }
    }
  }

  /** Updating in place keeps the ids. */
  lemma UpdatedIds(fs: seq<FilterPattern>, us: seq<FilterPattern>)
    ensures FilterIds(Updated(fs, us)) == FilterIds(fs)
  {
    var r := Updated(fs, us);
    assert forall i :: 0 <= i < |fs| ==> r[i].id == fs[i].id;
    forall x | x in FilterIds(fs) ensures x in FilterIds(r) {
      var i :| 0 <= i < |fs| && fs[i].id == x;
      assert r[i].id == x;
    }
  }

  /** Deleting ids takes exactly those ids away. */
  lemma RemovedIds(fs: seq<FilterPattern>, ids: set<int>)
    ensures FilterIds(RemoveIds(fs, ids)) == FilterIds(fs) - ids
  {
    var r := RemoveIds(fs, ids);
    forall x | x in FilterIds(fs) - ids ensures x in FilterIds(r) {
      var i :| 0 <= i < |fs| && fs[i].id == x;
      assert fs[i] in r;
      var j :| 0 <= j < |r| && r[j] == fs[i];
    }
    forall x | x in FilterIds(r) ensures x in FilterIds(fs) - ids {
      var j :| 0 <= j < |r| && r[j].id == x;
      assert r[j] in r;
      var i :| 0 <= i < |fs| && fs[i] == r[j];
    }
  }

  /** New ids lie above the counter they were numbered from. */
  lemma NumberedAbove(fs: seq<FilterPattern>, n: int)
    ensures forall x :: x in FilterIds(Numbered(fs, n)) ==> x > n
  {
  }

  /** Every stored id is at most the counter. */
  lemma IssuedIds(fs: seq<FilterPattern>, n: int)
    requires IssuedBelow(fs, n)
    ensures forall x :: x in FilterIds(fs) ==> 0 < x <= n
  {
    assert forall i :: 0 <= i < |fs| ==> fs[i] in fs;
  }

  /** With ascending ids, the map of stored filters sends every id to its filter. */
  lemma IdMapAscending(fs: seq<FilterPattern>)
    requires IdsAscending(fs)
    ensures forall i :: 0 <= i < |fs| ==> IdMap(fs)[fs[i].id] == fs[i]
  {
  }

  /**
   * The first input filter carrying a stored id is rewritten, or equals the
   * stored filter already and then nothing rewrites that id.
   */
  lemma {:induction false} ClassifyFirst(existing: map<int, FilterPattern>, ps: seq<FilterPattern>, i: nat)
    requires forall x :: x in existing ==> existing[x].id == x
    requires i < |ps| && ps[i].id in existing && forall j :: 0 <= j < i ==> ps[j].id != ps[i].id
    ensures var plan, f := Classify(existing, ps), ps[i];
      || f in plan.toUpdate || f in plan.toTouch
      || (f == existing[f.id] && f.id !in RewrittenIds(plan))
    decreases |ps|
  {
    var g, f := ps[0], ps[i];
    if i == 0 {
      var prev := existing[f.id];
      if !NeedsRefresh(prev, f) && !NeedsTouch(prev, f) {
        FieldToStringInjective(prev.field, f.field);
        var rest := Classify(existing - {f.id}, ps[1..]);
        ClassifyRewrites(existing - {f.id}, ps[1..]);
        forall u | u in rest.toUpdate + rest.toTouch ensures u.id != f.id {
          assert u in rest.toUpdate || u in rest.toTouch;
        }
        IdsOfMembers(rest.toUpdate + rest.toTouch, f.id);
        ConcatIds(rest.toUpdate, rest.toTouch);
      }
    } else {
      assert ps[1..][i - 1] == f;
      assert forall j :: 0 <= j < i - 1 ==> ps[1..][j] == ps[j + 1];
      if g.id in existing {
        ClassifyFirst(existing - {g.id}, ps[1..], i - 1);
      } else {
        ClassifyFirst(existing, ps[1..], i - 1);
      }
    }
  }

  /** An id no filter of a list carries is not among its ids. */
  lemma IdsOfMembers(fs: seq<FilterPattern>, x: int)
    requires forall f :: f in fs ==> f.id != x
    ensures x !in FilterIds(fs)
  {
    forall i | 0 <= i < |fs| ensures fs[i].id != x {
      assert fs[i] in fs;
    }
  }

  /** A later input filter repeating an earlier one's id is inserted as a new filter: the first took the id out of the map. */
  lemma {:induction false} ClassifyRepeated(existing: map<int, FilterPattern>, ps: seq<FilterPattern>, j: nat, i: nat)
    requires j < i < |ps| && ps[j].id == ps[i].id
    ensures ps[i] in Classify(existing, ps).toInsert
    decreases |ps|
  {
    var g, f := ps[0], ps[i];
    var existing' := if g.id in existing then existing - {g.id} else existing;
    assert ps[1..][i - 1] == f;
    if j == 0 {
      ClassifyInserts(existing', ps[1..]);
    } else {
      assert ps[1..][j - 1] == ps[j];
      ClassifyRepeated(existing', ps[1..], j - 1, i - 1);
    }
  }

  /** The plan of `save_filters` fits the stored filters, and what it rewrites comes from the input. */
  lemma PlanForFits(fs: seq<FilterPattern>, ps: seq<FilterPattern>)
    ensures PlanFits(fs, PlanFor(fs, ps))
    ensures forall f :: f in Rewrites(PlanFor(fs, ps)) ==> f in ps
  {
    var plan := PlanFor(fs, ps);
    ClassifyFacts(IdMap(fs), ps);
    assert forall f :: f in Rewrites(plan) ==> f in plan.toUpdate || f in plan.toTouch;
    assert FilterIds(Rewrites(plan)) == RewrittenIds(plan) by {
      ConcatIds(plan.toUpdate, plan.toTouch);
    }
    forall f | f in Rewrites(plan) ensures f.id in RewrittenIds(plan) {
      var i :| 0 <= i < |Rewrites(plan)| && Rewrites(plan)[i] == f;
    }
  }

  /** A carried-out plan stores every rewritten filter and every inserted one. */
  lemma AppliedStores(fs: seq<FilterPattern>, plan: SavePlan, n: int)
    requires IssuedBelow(fs, n) && PlanFits(fs, plan)
    ensures forall u :: u in Rewrites(plan) ==> u in Applied(fs, plan, n)
    ensures forall t :: t in Numbered(plan.toInsert, n) ==> t in Applied(fs, plan, n)
  {
    forall u | u in Rewrites(plan) ensures u in Applied(fs, plan, n) {
      AppliedStoresRewrite(fs, plan, n, u);
    }
    forall t | t in Numbered(plan.toInsert, n) ensures t in Applied(fs, plan, n) {
      AppliedStoresInsert(fs, plan, n, t);
    }
  }

  /** A carried-out plan stores each filter it rewrites, at the position of the stored filter of that id. */
  lemma AppliedStoresRewrite(fs: seq<FilterPattern>, plan: SavePlan, n: int, u: FilterPattern)
    requires IssuedBelow(fs, n) && PlanFits(fs, plan) && u in Rewrites(plan)
    ensures u in Applied(fs, plan, n)
  {
    var a := RemoveIds(fs, plan.toDelete);
    var b := Numbered(plan.toInsert, n);
    var us := Rewrites(plan);
    assert u.id in FilterIds(fs);
    var i :| 0 <= i < |fs| && fs[i].id == u.id;
    assert fs[i] in a;
    var j :| 0 <= j < |a| && a[j] == fs[i];
    assert (a + b)[j] == fs[i];
    LatestDistinct(us, fs[i], u);
    assert Applied(fs, plan, n)[j] == u;
  }

  /** A carried-out plan stores each inserted filter, after the kept ones. */
  lemma AppliedStoresInsert(fs: seq<FilterPattern>, plan: SavePlan, n: int, t: FilterPattern)
    requires IssuedBelow(fs, n) && PlanFits(fs, plan) && t in Numbered(plan.toInsert, n)
    ensures t in Applied(fs, plan, n)
  {
    var a := RemoveIds(fs, plan.toDelete);
    var b := Numbered(plan.toInsert, n);
    var us := Rewrites(plan);
    IssuedIds(fs, n);
    var j :| 0 <= j < |b| && b[j] == t;
    assert (a + b)[|a| + j] == t;
    assert t.id > n by {
      assert b[j].id == n + j + 1;
    }
    assert t.id !in FilterIds(us) by {
      forall k | 0 <= k < |us| ensures us[k].id != t.id {
        assert us[k] in us;
      }
    }
    LatestUnnamed(us, t);
    assert Applied(fs, plan, n)[|a| + j] == t;
  }

  /** A carried-out plan leaves a kept stored filter that nothing rewrites as it was. */
  lemma AppliedKeepsUnnamed(fs: seq<FilterPattern>, plan: SavePlan, n: int, g: FilterPattern)
    requires g in fs && g.id !in plan.toDelete && g.id !in FilterIds(Rewrites(plan))
    ensures g in Applied(fs, plan, n)
  {
    var a := RemoveIds(fs, plan.toDelete);
    var b := Numbered(plan.toInsert, n);
    assert g in a;
    var j :| 0 <= j < |a| && a[j] == g;
    assert (a + b)[j] == g;
    LatestUnnamed(Rewrites(plan), g);
    assert Applied(fs, plan, n)[j] == g;
  }

  /** A carried-out plan stores nothing but kept stored filters, rewritten filters and inserted ones. */
  lemma AppliedOnly(fs: seq<FilterPattern>, plan: SavePlan, n: int)
    ensures forall g :: g in Applied(fs, plan, n) ==>
      (g in fs && g.id !in plan.toDelete) || g in Rewrites(plan) || g in Numbered(plan.toInsert, n)
  {
    var a := RemoveIds(fs, plan.toDelete);
    var b := Numbered(plan.toInsert, n);
    var s := Applied(fs, plan, n);
    forall g | g in s
      ensures (g in fs && g.id !in plan.toDelete) || g in Rewrites(plan) || g in b
    {
      var j :| 0 <= j < |s| && s[j] == g;
      var c := (a + b)[j];
      assert g == Latest(Rewrites(plan), c);
      if j < |a| {
        assert c == a[j] && c in a;
      } else {
        assert c == b[j - |a|];
      }
    }
  }

  /** Every refreshed filter is stored, so its matches can be recorded. */
  lemma SaveRefreshStored(fs: seq<FilterPattern>, ps: seq<FilterPattern>, n: int)
    requires IssuedBelow(fs, n)
    ensures forall g :: g in Refreshed(fs, ps, n) ==> g in SavedFilters(fs, ps, n)
    ensures FilterIds(Refreshed(fs, ps, n)) <= FilterIds(SavedFilters(fs, ps, n))
  {
    PlanForFits(fs, ps);
    RefreshListStored(fs, PlanFor(fs, ps), n);
    IdsOfContained(Refreshed(fs, ps, n), SavedFilters(fs, ps, n));
  }

  /** Every filter a carried-out plan refreshes is stored by it. */
  lemma RefreshListStored(fs: seq<FilterPattern>, plan: SavePlan, n: int)
    requires IssuedBelow(fs, n) && PlanFits(fs, plan)
    ensures forall g :: g in RefreshList(plan, n) ==> g in Applied(fs, plan, n)
  {
    AppliedStores(fs, plan, n);
    assert forall g :: g in plan.toUpdate ==> g in Rewrites(plan);
  }

  /** The ids of a list whose filters all appear in another are among that list's ids. */
  lemma IdsOfContained(r: seq<FilterPattern>, s: seq<FilterPattern>)
    requires forall g :: g in r ==> g in s
    ensures FilterIds(r) <= FilterIds(s)
  {
    forall x | x in FilterIds(r) ensures x in FilterIds(s) {
      var i :| 0 <= i < |r| && r[i].id == x;
      assert r[i] in r;
      var j :| 0 <= j < |s| && s[j] == r[i];
    }
  }

  /** A stored filter survives exactly when some input filter carries its id. */
  lemma SaveKeepsNamed(fs: seq<FilterPattern>, ps: seq<FilterPattern>, n: int)
    requires IssuedBelow(fs, n)
    ensures forall x :: x in FilterIds(fs) ==> (x in FilterIds(SavedFilters(fs, ps, n)) <==> x in FilterIds(ps))
  {
    var plan := PlanFor(fs, ps);
    var a := RemoveIds(fs, plan.toDelete);
    var b := Numbered(plan.toInsert, n);
    ClassifyDeletes(IdMap(fs), ps);
    UpdatedIds(a + b, Rewrites(plan));
    ConcatIds(a, b);
    RemovedIds(fs, plan.toDelete);
    NumberedAbove(plan.toInsert, n);
    IssuedIds(fs, n);
  }

  /**
   * The first input filter naming a stored id is stored as given; a later
   * input filter repeating an id is stored as a new filter, with its other
   * fields, under a new id above the counter.
   */
  lemma SaveStoresEdits(fs: seq<FilterPattern>, ps: seq<FilterPattern>, n: int)
    requires IssuedBelow(fs, n)
    ensures forall i :: 0 <= i < |ps| && ps[i].id in FilterIds(fs) && (forall j :: 0 <= j < i ==> ps[j].id != ps[i].id) ==>
      ps[i] in SavedFilters(fs, ps, n)
    ensures forall j, i :: 0 <= j < i < |ps| && ps[j].id == ps[i].id ==>
      exists g :: g in SavedFilters(fs, ps, n) && g.id > n && g == ps[i].(id := g.id)
  {
    var existing := IdMap(fs);
    var plan := PlanFor(fs, ps);
    var us := Rewrites(plan);
    ClassifyDeletes(existing, ps);
    PlanForFits(fs, ps);
    AppliedStores(fs, plan, n);
    IdMapAscending(fs);
    ConcatIds(plan.toUpdate, plan.toTouch);
    forall i | 0 <= i < |ps| && ps[i].id in FilterIds(fs) && (forall j :: 0 <= j < i ==> ps[j].id != ps[i].id)
      ensures ps[i] in SavedFilters(fs, ps, n)
    {
      var f := ps[i];
      ClassifyFirst(existing, ps, i);
      if f in plan.toUpdate || f in plan.toTouch {
        assert f in us;
      } else {
        var k :| 0 <= k < |fs| && fs[k].id == f.id;
        assert f.id in FilterIds(ps);
        assert f == fs[k] && f in fs;
        AppliedKeepsUnnamed(fs, plan, n, f);
      }
    }
    var b := Numbered(plan.toInsert, n);
    forall j, i | 0 <= j < i < |ps| && ps[j].id == ps[i].id
      ensures exists g :: g in SavedFilters(fs, ps, n) && g.id > n && g == ps[i].(id := g.id)
    {
      ClassifyRepeated(existing, ps, j, i);
      var k :| 0 <= k < |plan.toInsert| && plan.toInsert[k] == ps[i];
      assert b[k] in b;
    }
  }

  /** Every input filter with an id that is not stored is stored under a new id above the counter. */
  lemma SaveInsertsNew(fs: seq<FilterPattern>, ps: seq<FilterPattern>, n: int)
    requires IssuedBelow(fs, n)
    ensures forall f :: f in ps && f.id !in FilterIds(fs) ==>
      exists g :: g in SavedFilters(fs, ps, n) && g.id > n && g == f.(id := g.id)
  {
    var plan := PlanFor(fs, ps);
    var b := Numbered(plan.toInsert, n);
    ClassifyInserts(IdMap(fs), ps);
    PlanForFits(fs, ps);
    AppliedStores(fs, plan, n);
    forall f | f in ps && f.id !in FilterIds(fs)
      ensures exists g :: g in SavedFilters(fs, ps, n) && g.id > n && g == f.(id := g.id)
    {
      var i :| 0 <= i < |plan.toInsert| && plan.toInsert[i] == f;
      assert b[i] in b;
    }
  }

  /**
   * Nothing else is stored: each saved filter is a stored filter the input
   * still names, an input filter, or an input filter under a new id.
   */
  lemma SaveStoresNothingElse(fs: seq<FilterPattern>, ps: seq<FilterPattern>, n: int)
    ensures forall g :: g in SavedFilters(fs, ps, n) ==>
      || (g in fs && g.id in FilterIds(ps))
      || g in ps
      || (g.id > n && exists f :: f in ps && g == f.(id := g.id))
  {
    var plan := PlanFor(fs, ps);
    var b := Numbered(plan.toInsert, n);
    ClassifyDeletes(IdMap(fs), ps);
    ClassifyInserts(IdMap(fs), ps);
    PlanForFits(fs, ps);
    AppliedOnly(fs, plan, n);
    forall g | g in b ensures g.id > n && exists f :: f in ps && g == f.(id := g.id) {
      var j :| 0 <= j < |b| && b[j] == g;
      assert plan.toInsert[j] in plan.toInsert;
    }
    forall g | g in fs && g.id !in plan.toDelete ensures g.id in FilterIds(ps) {
      var i :| 0 <= i < |fs| && fs[i] == g;
    }
  }

  /** Only the filters compiled can be reported as matches of any row. */
  lemma MatchedIdsOf(engine: Regex.Engine, rows: seq<StoredEmail>, fs: seq<FilterPattern>)
    ensures forall id, x :: 0 < id <= |rows| && x in MatchesOf(engine, rows, id, CompileFilters(engine, fs)) ==> x in FilterIds(fs)
  {
    CompiledIdsOf(engine, fs);
    forall id, x | 0 < id <= |rows| && x in MatchesOf(engine, rows, id, CompileFilters(engine, fs))
      ensures x in FilterIds(fs)
    {
      MatchedIdsCompiled(engine, rows, id, CompileFilters(engine, fs));
    }
  }

  /** The refreshed ids are the updated ones, which are kept, and the new ones above the counter. */
  lemma RefreshIds(fs: seq<FilterPattern>, plan: SavePlan, n: int)
    requires IssuedBelow(fs, n) && PlanFits(fs, plan)
    ensures forall x :: x in FilterIds(RefreshList(plan, n)) ==>
      x !in plan.toDelete && (x in FilterIds(plan.toUpdate) || x > n)
  {
    NumberedAbove(plan.toInsert, n);
    ConcatIds(plan.toUpdate, Numbered(plan.toInsert, n));
    forall x | x in FilterIds(plan.toUpdate) ensures x !in plan.toDelete {
      var i :| 0 <= i < |plan.toUpdate| && plan.toUpdate[i].id == x;
      assert plan.toUpdate[i] in Rewrites(plan);
    }
  }

  /** A link that does not survive from before the plan is there exactly when the refreshed filter matches the row. */
  lemma LinkAfterMatch(engine: Regex.Engine, rows: seq<StoredEmail>, plan: SavePlan, n: int, e0: set<Edge>, x: int, k: int)
    requires 0 <= k < |rows|
    requires !((k + 1, x) in e0 && x !in plan.toDelete && x !in FilterIds(plan.toUpdate))
    ensures LinkAfter(engine, rows, plan, n, e0, (k + 1, x))
        <==> x in MatchFilters(engine, rows[k].subject, rows[k].sender, CompileFilters(engine, RefreshList(plan, n)))
  {
  }

  /** Matching against no filters reports nothing. */
  lemma NothingMatched(engine: Regex.Engine, rows: seq<StoredEmail>)
    ensures forall id :: 0 < id <= |rows| ==> MatchesOf(engine, rows, id, CompileFilters(engine, [])) == []
  {
  }

  /** The links left by the deletions, plus the matches of the refreshed filters, are the links after the plan. */
  lemma LinksAfterSave(engine: Regex.Engine, rows: seq<StoredEmail>, plan: SavePlan, n: int, e0: set<Edge>, e1: set<Edge>, es: set<Edge>)
    requires forall p :: p in e1 <==> p in e0 && p.1 !in plan.toDelete && p.1 !in FilterIds(plan.toUpdate)
    requires forall p :: p in es <==>
      p in e1 || (0 < p.0 <= |rows| && p.1 in MatchesOf(engine, rows, p.0, CompileFilters(engine, RefreshList(plan, n))))
    ensures forall p :: p in es <==> LinkAfter(engine, rows, plan, n, e0, p)
  {
  }

  /** After a plan is carried out, a refreshed filter is linked to exactly the rows it matches. */
  lemma AppliedLinksRefreshed(engine: Regex.Engine, rows: seq<StoredEmail>, fs: seq<FilterPattern>, plan: SavePlan, n: int,
                              e0: set<Edge>, es: set<Edge>)
    requires IssuedBelow(fs, n) && PlanFits(fs, plan) && DistinctIds(Applied(fs, plan, n))
    requires forall p :: p in e0 ==> p.1 in FilterIds(fs)
    requires forall p :: p in es <==> LinkAfter(engine, rows, plan, n, e0, p)
    ensures forall f, k :: f in RefreshList(plan, n) && 0 <= k < |rows| ==>
      ((k + 1, f.id) in es <==> FilterMatches(engine, f, rows[k].subject, rows[k].sender))
  {
    var r := RefreshList(plan, n);
    var s := Applied(fs, plan, n);
    AppliedStores(fs, plan, n);
    IssuedIds(fs, n);
    RefreshIds(fs, plan, n);
    assert forall g :: g in r ==> g in s by {
      assert forall g :: g in plan.toUpdate ==> g in Rewrites(plan);
    }
    forall f, k | f in r && 0 <= k < |rows|
      ensures (k + 1, f.id) in es <==> FilterMatches(engine, f, rows[k].subject, rows[k].sender)
    {
      var i :| 0 <= i < |r| && r[i] == f;
      assert f.id in FilterIds(r);
      var cs := CompileFilters(engine, r);
      assert !((k + 1, f.id) in e0 && f.id !in plan.toDelete && f.id !in FilterIds(plan.toUpdate));
      LinkAfterMatch(engine, rows, plan, n, e0, f.id, k);
      MatchFiltersIff(engine, r, rows[k].subject, rows[k].sender, f.id);
      if f.id in MatchFilters(engine, rows[k].subject, rows[k].sender, cs) {
        var g :| g in r && g.id == f.id && FilterMatches(engine, g, rows[k].subject, rows[k].sender);
        SameIdSame(s, f, g);
      }
    }
  }

  /** After a plan is carried out, a deleted filter has no links and a kept filter that was not updated keeps its own. */
  lemma AppliedLinksKept(engine: Regex.Engine, rows: seq<StoredEmail>, fs: seq<FilterPattern>, plan: SavePlan, n: int,
                         e0: set<Edge>, es: set<Edge>)
    requires IssuedBelow(fs, n) && PlanFits(fs, plan)
    requires forall p :: p in es <==> LinkAfter(engine, rows, plan, n, e0, p)
    ensures forall p: Edge :: p.1 in plan.toDelete ==> p !in es
    ensures forall p: Edge :: p.1 in FilterIds(fs) && p.1 !in plan.toDelete && p.1 !in FilterIds(plan.toUpdate) ==> (p in es <==> p in e0)
  {
    IssuedIds(fs, n);
    RefreshIds(fs, plan, n);
    MatchedIdsOf(engine, rows, RefreshList(plan, n));
  }

  /**
   * The links after `save_filters`: a refreshed filter is linked to exactly
   * the rows it matches; a deleted filter to none; a kept filter whose
   * pattern, mode and field did not change keeps its links.
   */
  lemma SaveLinks(engine: Regex.Engine, rows: seq<StoredEmail>, fs: seq<FilterPattern>, ps: seq<FilterPattern>, n: int,
                  e0: set<Edge>, es: set<Edge>)
    requires IssuedBelow(fs, n) && DistinctIds(SavedFilters(fs, ps, n))
    requires forall p :: p in e0 ==> p.1 in FilterIds(fs)
    requires forall p :: p in es <==> SavedLink(engine, rows, fs, ps, n, e0, p)
    ensures forall f, k :: f in Refreshed(fs, ps, n) && 0 <= k < |rows| ==>
      ((k + 1, f.id) in es <==> FilterMatches(engine, f, rows[k].subject, rows[k].sender))
    ensures forall p: Edge :: p.1 in FilterIds(fs) && p.1 !in FilterIds(ps) ==> p !in es
    ensures forall p: Edge :: p.1 in FilterIds(fs) && p.1 in FilterIds(ps) && p.1 !in ChangedIds(fs, ps) ==> (p in es <==> p in e0)
  {
    var plan := PlanFor(fs, ps);
    ClassifyDeletes(IdMap(fs), ps);
    PlanForFits(fs, ps);
    AppliedLinksRefreshed(engine, rows, fs, plan, n, e0, es);
    AppliedLinksKept(engine, rows, fs, plan, n, e0, es);
  }

  // ---------------------------------------------------------------------------
  // The read-only queries, over the tables' contents
  // ---------------------------------------------------------------------------

  /** A selection has as many rows as qualify, and is empty exactly when none does. */
  lemma TestCount(rows: seq<StoredEmail>, keep: (int, StoredEmail) -> bool)
    ensures |Where(rows, keep)| == |Qualifying(rows, keep)|
    ensures Where(rows, keep) == [] <==> forall k :: 0 <= k < |rows| ==> !keep(k + 1, rows[k])
  {
    PickedCount(rows, keep);
    var l := Where(rows, keep);
    if l != [] {
      assert l[0] in l;
    }
  }

  /** The row test of `list_emails` and `count_emails`. */
  function ListingTest(account: string, unreadOnly: bool): (int, StoredEmail) -> bool {
    (id: int, e: StoredEmail) => InListing(e, account, unreadOnly)
  }

  /**
   * The rows `list_emails` and `count_emails` select, before ordering: the
   * account's rows (unread ones, when asked) in row-id order, each once.
   */
  function Listed(rows: seq<StoredEmail>, account: string, unreadOnly: bool): (l: seq<StoredEmail>)
    ensures var ks := Picked(rows, ListingTest(account, unreadOnly));
      |l| == |ks| && forall i :: 0 <= i < |l| ==> l[i] == rows[ks[i]]
  {
    Where(rows, ListingTest(account, unreadOnly))
  }

  /** `count_emails`: `COUNT(*)` of the account's rows (unread ones, when asked). */
  function CountEmails(rows: seq<StoredEmail>, account: string, unreadOnly: bool): (r: nat)
    ensures r == |set k: nat | k < |rows| && InListing(rows[k], account, unreadOnly)|
    ensures r <= |rows|
    ensures r == 0 <==> forall k :: 0 <= k < |rows| ==> !InListing(rows[k], account, unreadOnly)
  {
    ListedCount(rows, account, unreadOnly);
    |Listed(rows, account, unreadOnly)|
  }

  /** The listing has one row per qualifying row index. */
  lemma ListedCount(rows: seq<StoredEmail>, account: string, unreadOnly: bool)
    ensures |Listed(rows, account, unreadOnly)| == |set k: nat | k < |rows| && InListing(rows[k], account, unreadOnly)|
    ensures Listed(rows, account, unreadOnly) == [] <==> forall k :: 0 <= k < |rows| ==> !InListing(rows[k], account, unreadOnly)
  {
    var test := ListingTest(account, unreadOnly);
    TestCount(rows, test);
    assert Qualifying(rows, test) == set k: nat | k < |rows| && InListing(rows[k], account, unreadOnly) by {
      forall k: nat ensures k in Qualifying(rows, test) <==> k < |rows| && InListing(rows[k], account, unreadOnly) { }
    }
  }

  /**
   * `list_emails`: page `LIMIT limit OFFSET offset` of some newest-first
   * ordering of exactly the rows `count_emails` counts; ties in `date_epoch`
   * may come in any order.
   */
  function ListEmails(rows: seq<StoredEmail>, account: string, unreadOnly: bool, limit: nat, offset: nat): (r: seq<StoredEmail>)
    ensures exists s :: NewestFirst(s) && multiset(s) == multiset(Listed(rows, account, unreadOnly)) && r == Window(s, offset, limit)
    ensures NewestFirst(r)
    ensures forall e :: e in r ==> e in rows && InListing(e, account, unreadOnly)
    ensures var n := CountEmails(rows, account, unreadOnly);
      |r| == if offset >= n then 0 else if limit < n - offset then limit else n - offset
  {
    var r := Window(SortByDate(Listed(rows, account, unreadOnly)), offset, limit);
    ListingPage(rows, account, unreadOnly, limit, offset);
    r
  }

  /** The facts `ListEmails` promises, about the page it takes of the sorted listing. */
  lemma ListingPage(rows: seq<StoredEmail>, account: string, unreadOnly: bool, limit: nat, offset: nat)
    ensures var l := Listed(rows, account, unreadOnly); var r := Window(SortByDate(l), offset, limit);
      && (exists s :: NewestFirst(s) && multiset(s) == multiset(l) && r == Window(s, offset, limit))
      && NewestFirst(r)
      && (forall e :: e in r ==> e in rows && InListing(e, account, unreadOnly))
      && |r| == var n := CountEmails(rows, account, unreadOnly);
         if offset >= n then 0 else if limit < n - offset then limit else n - offset
  {
    var l := Listed(rows, account, unreadOnly);
    var s := SortByDate(l);
    assert NewestFirst(s) && multiset(s) == multiset(l);
    assert CountEmails(rows, account, unreadOnly) == |l|;
    WindowOfNewestFirst(s, offset, limit);
    ListedMembers(rows, account, unreadOnly);
  }

  /** Every row of the listing is a row of the account (an unread one, when asked). */
  lemma ListedMembers(rows: seq<StoredEmail>, account: string, unreadOnly: bool)
    ensures forall e :: e in Listed(rows, account, unreadOnly) ==> e in rows && InListing(e, account, unreadOnly)
  {
    var test := ListingTest(account, unreadOnly);
    forall e | e in Listed(rows, account, unreadOnly) ensures e in rows && InListing(e, account, unreadOnly) {
      var k :| 0 <= k < |rows| && rows[k] == e && test(k + 1, e);
    }
  }

  /** The row test of the filtered listing: the account's rows linked to one of the filters. */
  function FilteredTest(edges: set<Edge>, account: string, filterIds: seq<int>, unreadOnly: bool): (int, StoredEmail) -> bool {
    (id: int, e: StoredEmail) => InListing(e, account, unreadOnly) && LinkedToAny(edges, id, filterIds)
  }

  /**
   * The rows a filtered listing selects, before ordering: the account's rows
   * linked to one of the filters, in row-id order, each once however many
   * of the filters it is linked to (`DISTINCT`).
   */
  function FilteredRows(rows: seq<StoredEmail>, edges: set<Edge>, account: string, filterIds: seq<int>, unreadOnly: bool): (l: seq<StoredEmail>)
    ensures var ks := Picked(rows, FilteredTest(edges, account, filterIds, unreadOnly));
      |l| == |ks| && forall i :: 0 <= i < |l| ==> l[i] == rows[ks[i]]
  {
    Where(rows, FilteredTest(edges, account, filterIds, unreadOnly))
  }

  /**
   * `list_filtered_emails`: nothing for an empty id list; otherwise page
   * `LIMIT limit OFFSET offset` of some newest-first ordering of exactly the
   * rows `count_filtered_emails` counts.
   */
  function ListFilteredEmails(rows: seq<StoredEmail>, edges: set<Edge>, account: string, filterIds: seq<int>, unreadOnly: bool, limit: nat, offset: nat): (r: seq<StoredEmail>)
    ensures filterIds == [] ==> r == []
    ensures exists s :: NewestFirst(s) && multiset(s) == multiset(FilteredRows(rows, edges, account, filterIds, unreadOnly)) && r == Window(s, offset, limit)
    ensures NewestFirst(r)
    ensures forall e :: e in r ==>
      exists k :: 0 <= k < |rows| && rows[k] == e && InListing(e, account, unreadOnly) && LinkedToAny(edges, k + 1, filterIds)
    ensures var n := CountFilteredEmails(rows, edges, account, filterIds, unreadOnly);
      |r| == if offset >= n then 0 else if limit < n - offset then limit else n - offset
  {
    if filterIds == [] then
      FilteredCount(rows, edges, account, filterIds, unreadOnly);
      assert Window<StoredEmail>([], offset, limit) == [];
      []
    else
      var r := Window(SortByDate(FilteredRows(rows, edges, account, filterIds, unreadOnly)), offset, limit);
      FilteredPage(rows, edges, account, filterIds, unreadOnly, limit, offset);
      r
  }

  /** The facts `ListFilteredEmails` promises, about the page it takes of the sorted filtered rows. */
  lemma FilteredPage(rows: seq<StoredEmail>, edges: set<Edge>, account: string, filterIds: seq<int>, unreadOnly: bool, limit: nat, offset: nat)
    ensures var l := FilteredRows(rows, edges, account, filterIds, unreadOnly); var r := Window(SortByDate(l), offset, limit);
      && (exists s :: NewestFirst(s) && multiset(s) == multiset(l) && r == Window(s, offset, limit))
      && NewestFirst(r)
      && (forall e :: e in r ==>
            exists k :: 0 <= k < |rows| && rows[k] == e && InListing(e, account, unreadOnly) && LinkedToAny(edges, k + 1, filterIds))
      && |r| == var n := CountFilteredEmails(rows, edges, account, filterIds, unreadOnly);
         if offset >= n then 0 else if limit < n - offset then limit else n - offset
  {
    FilteredPageOrder(rows, edges, account, filterIds, unreadOnly, limit, offset);
    FilteredPageRows(rows, edges, account, filterIds, unreadOnly, limit, offset);
    FilteredPageSize(rows, edges, account, filterIds, unreadOnly, limit, offset);
  }

  /** The page of the sorted filtered rows is a window of a newest-first permutation of them. */
  lemma FilteredPageOrder(rows: seq<StoredEmail>, edges: set<Edge>, account: string, filterIds: seq<int>, unreadOnly: bool, limit: nat, offset: nat)
    ensures var l := FilteredRows(rows, edges, account, filterIds, unreadOnly); var r := Window(SortByDate(l), offset, limit);
      && (exists s :: NewestFirst(s) && multiset(s) == multiset(l) && r == Window(s, offset, limit))
      && NewestFirst(r)
  {
    var l := FilteredRows(rows, edges, account, filterIds, unreadOnly);
    var s := SortByDate(l);
    assert NewestFirst(s) && multiset(s) == multiset(l);
    WindowOfNewestFirst(s, offset, limit);
  }

  /** Every row of the page is a row of the account linked to one of the filters. */
  lemma FilteredPageRows(rows: seq<StoredEmail>, edges: set<Edge>, account: string, filterIds: seq<int>, unreadOnly: bool, limit: nat, offset: nat)
    ensures forall e :: e in Window(SortByDate(FilteredRows(rows, edges, account, filterIds, unreadOnly)), offset, limit) ==>
      exists k :: 0 <= k < |rows| && rows[k] == e && InListing(e, account, unreadOnly) && LinkedToAny(edges, k + 1, filterIds)
  {
    var l := FilteredRows(rows, edges, account, filterIds, unreadOnly);
    var s := SortByDate(l);
    assert forall e :: e in Window(s, offset, limit) ==> e in l by {
      WindowOfNewestFirst(s, offset, limit);
    }
    FilteredMembers(rows, edges, account, filterIds, unreadOnly);
  }

  /** The page has the length the filtered count and the offset leave, capped at the limit. */
  lemma FilteredPageSize(rows: seq<StoredEmail>, edges: set<Edge>, account: string, filterIds: seq<int>, unreadOnly: bool, limit: nat, offset: nat)
    ensures |Window(SortByDate(FilteredRows(rows, edges, account, filterIds, unreadOnly)), offset, limit)|
      == var n := CountFilteredEmails(rows, edges, account, filterIds, unreadOnly);
         if offset >= n then 0 else if limit < n - offset then limit else n - offset
  {
    var l := FilteredRows(rows, edges, account, filterIds, unreadOnly);
    assert |SortByDate(l)| == |l|;
    FilteredLength(rows, edges, account, filterIds, unreadOnly);
  }

  /** `count_filtered_emails` counts exactly the filtered rows. */
  lemma FilteredLength(rows: seq<StoredEmail>, edges: set<Edge>, account: string, filterIds: seq<int>, unreadOnly: bool)
    ensures CountFilteredEmails(rows, edges, account, filterIds, unreadOnly) == |FilteredRows(rows, edges, account, filterIds, unreadOnly)|
  {
    if filterIds == [] {
      FilteredCount(rows, edges, account, filterIds, unreadOnly);
    }
  }

  /** Every filtered row is a row of the account linked to one of the filters. */
  lemma FilteredMembers(rows: seq<StoredEmail>, edges: set<Edge>, account: string, filterIds: seq<int>, unreadOnly: bool)
    ensures forall e :: e in FilteredRows(rows, edges, account, filterIds, unreadOnly) ==>
      exists k :: 0 <= k < |rows| && rows[k] == e && InListing(e, account, unreadOnly) && LinkedToAny(edges, k + 1, filterIds)
  {
    var test := FilteredTest(edges, account, filterIds, unreadOnly);
    forall e | e in FilteredRows(rows, edges, account, filterIds, unreadOnly)
      ensures exists k :: 0 <= k < |rows| && rows[k] == e && InListing(e, account, unreadOnly) && LinkedToAny(edges, k + 1, filterIds)
    {
      var k :| 0 <= k < |rows| && rows[k] == e && test(k + 1, e);
    }
  }

  /**
   * `count_filtered_emails`: `COUNT(DISTINCT e.id)`, the number of the
   * account's rows linked to one of the filters; so 0 for an empty id list.
   */
  function CountFilteredEmails(rows: seq<StoredEmail>, edges: set<Edge>, account: string, filterIds: seq<int>, unreadOnly: bool): (r: nat)
    ensures r == |set k: nat | k < |rows| && InListing(rows[k], account, unreadOnly) && LinkedToAny(edges, k + 1, filterIds)|
    ensures filterIds == [] ==> r == 0
    ensures r <= |rows|
    ensures r == 0 <==> forall k :: 0 <= k < |rows| ==> !(InListing(rows[k], account, unreadOnly) && LinkedToAny(edges, k + 1, filterIds))
  {
    FilteredCount(rows, edges, account, filterIds, unreadOnly);
    if filterIds == [] then 0 else |FilteredRows(rows, edges, account, filterIds, unreadOnly)|
  }

  /** The filtered selection has one row per qualifying row index, and none for an empty id list. */
  lemma FilteredCount(rows: seq<StoredEmail>, edges: set<Edge>, account: string, filterIds: seq<int>, unreadOnly: bool)
    ensures |FilteredRows(rows, edges, account, filterIds, unreadOnly)|
      == |set k: nat | k < |rows| && InListing(rows[k], account, unreadOnly) && LinkedToAny(edges, k + 1, filterIds)|
    ensures FilteredRows(rows, edges, account, filterIds, unreadOnly) == []
      <==> forall k :: 0 <= k < |rows| ==> !(InListing(rows[k], account, unreadOnly) && LinkedToAny(edges, k + 1, filterIds))
    ensures filterIds == [] ==> FilteredRows(rows, edges, account, filterIds, unreadOnly) == []
  {
    var test := FilteredTest(edges, account, filterIds, unreadOnly);
    assert Qualifying(rows, test) == set k: nat | k < |rows| && InListing(rows[k], account, unreadOnly) && LinkedToAny(edges, k + 1, filterIds) by {
      forall k: nat ensures k in Qualifying(rows, test) <==> k < |rows| && InListing(rows[k], account, unreadOnly) && LinkedToAny(edges, k + 1, filterIds) {
        if k < |rows| {
          assert test(k + 1, rows[k]) == (InListing(rows[k], account, unreadOnly) && LinkedToAny(edges, k + 1, filterIds));
        }
      }
    }
    TestCount(rows, test);
  }

  /** Reading the pages one after another: page `[offset, offset + a)` followed by the next `b` rows is page `[offset, offset + a + b)`. */
  lemma ListPages(rows: seq<StoredEmail>, account: string, unreadOnly: bool, offset: nat, a: nat, b: nat)
    ensures ListEmails(rows, account, unreadOnly, a, offset) + ListEmails(rows, account, unreadOnly, b, offset + a)
      == ListEmails(rows, account, unreadOnly, a + b, offset)
  {
    WindowSplit(SortByDate(Listed(rows, account, unreadOnly)), offset, a, b);
  }

  /** A page as large as the count, from offset 0, lists every counted row exactly once. */
  lemma ListAll(rows: seq<StoredEmail>, account: string, unreadOnly: bool, limit: nat)
    requires limit >= CountEmails(rows, account, unreadOnly)
    ensures var r := ListEmails(rows, account, unreadOnly, limit, 0);
      && |r| == CountEmails(rows, account, unreadOnly)
      && multiset(r) == multiset(Listed(rows, account, unreadOnly))
  {
    var all := SortByDate(Listed(rows, account, unreadOnly));
    assert Window(all, 0, limit) == all;
  }

  /** Under `UNIQUE(account, uid)` the rows of a listing are distinct values. */
  lemma PickedDistinct(rows: seq<StoredEmail>, keep: (int, StoredEmail) -> bool)
    requires KeysUnique(rows)
    ensures Distinct(Where(rows, keep))
  {
    var ks := Picked(rows, keep);
    var l := Where(rows, keep);
    forall i, j | 0 <= i < j < |l| ensures l[i] != l[j] {
      assert l[i] == rows[ks[i]] && l[j] == rows[ks[j]] && ks[i] < ks[j];
      assert !HasKey(rows[ks[j]], rows[ks[i]].account, rows[ks[i]].uid);
    }
  }

  /** Each row once: no page of a filtered listing repeats a row, however many of the filters it matches. */
  lemma FilteredOnce(rows: seq<StoredEmail>, edges: set<Edge>, account: string, filterIds: seq<int>, unreadOnly: bool, limit: nat, offset: nat)
    requires KeysUnique(rows)
    ensures Distinct(ListFilteredEmails(rows, edges, account, filterIds, unreadOnly, limit, offset))
  {
    if filterIds != [] {
      var l := FilteredRows(rows, edges, account, filterIds, unreadOnly);
      var all := SortByDate(l);
      PickedDistinct(rows, FilteredTest(edges, account, filterIds, unreadOnly));
      DistinctPermutation(all, l);
      DistinctWindow(all, offset, limit);
    }
  }

  /** The number of the account's rows linked to filter `id`. */
  function LinkedCount(rows: seq<StoredEmail>, edges: set<Edge>, account: string, id: int, unreadOnly: bool): nat {
    |Where(rows, (k: int, e: StoredEmail) => InListing(e, account, unreadOnly) && (k, id) in edges)|
  }

  /**
   * `filter_match_counts`: for every filter in rowid order, its id and the
   * number of the account's rows linked to it, which is what the filtered
   * count reports for that filter alone.
   */
  function FilterMatchCounts(rows: seq<StoredEmail>, edges: set<Edge>, filters: seq<FilterPattern>, account: string, unreadOnly: bool): (r: seq<(int, nat)>)
    ensures |r| == |filters|
    ensures forall i :: 0 <= i < |r| ==>
      r[i].0 == filters[i].id && r[i].1 == CountFilteredEmails(rows, edges, account, [filters[i].id], unreadOnly)
  {
    var r := seq(|filters|, i requires 0 <= i < |filters| => (filters[i].id, LinkedCount(rows, edges, account, filters[i].id, unreadOnly)));
    assert forall i :: 0 <= i < |r| ==> r[i].1 == CountFilteredEmails(rows, edges, account, [filters[i].id], unreadOnly) by {
      forall i | 0 <= i < |r| ensures r[i].1 == CountFilteredEmails(rows, edges, account, [filters[i].id], unreadOnly) {
        var id := filters[i].id;
        assert forall k :: LinkedToAny(edges, k, [id]) <==> (k, id) in edges by {
          forall k ensures LinkedToAny(edges, k, [id]) <==> (k, id) in edges {
            assert id in [id];
          }
        }
        WhereCongruent(rows, (k: int, e: StoredEmail) => InListing(e, account, unreadOnly) && (k, id) in edges,
          (k: int, e: StoredEmail) => InListing(e, account, unreadOnly) && LinkedToAny(edges, k, [id]));
      }
    }
    r
  }

  // ---------------------------------------------------------------------------
  // The store
  // ---------------------------------------------------------------------------

  class SqliteStorage {
    var emails: seq<StoredEmail>
    var filters: seq<FilterPattern>
    var filterSeq: int
    var edges: set<Edge>
    var syncState: map<string, int>
    var filterCursor: map<string, int>

    /**
     * The table constraints: `UNIQUE(account, uid)`, AUTOINCREMENT ids in rowid
     * order and never above the counter, and `filtered_emails` foreign keys.
     */
    ghost predicate Valid()
      reads this
    {
      Consistent(emails, filters, filterSeq, edges)
    }

    /** A freshly migrated database: every table empty. */
    constructor ()
      ensures Valid()
      ensures emails == [] && filters == [] && filterSeq == 0 && edges == {}
      ensures syncState == map[] && filterCursor == map[]
    {
      emails := [];
      filters := [];
      filterSeq := 0;
      edges := {};
      syncState := map[];
      filterCursor := map[];
    }

    // -------------------------------------------------------------------------
    // Sync state
    // -------------------------------------------------------------------------

    /** `get_last_uid`: the stored value, 0 when the account has none. */
    function GetLastUid(account: string): (r: int)
      reads this
      ensures account !in syncState ==> r == 0
    {
      if account in syncState then syncState[account] else 0
    }

    /** `set_last_uid`: an upsert of the account's row. */
    method SetLastUid(account: string, lastUid: int)
      requires Valid()
      modifies this
      ensures Valid()
      ensures GetLastUid(account) == lastUid
      ensures forall a :: a != account ==> GetLastUid(a) == old(GetLastUid(a))
      ensures emails == old(emails) && filters == old(filters) && filterSeq == old(filterSeq)
      ensures edges == old(edges) && filterCursor == old(filterCursor)
    {
      syncState := syncState[account := lastUid];
    }

    /** `get_filter_last_email_id`: the account's refresh cursor, 0 when it has none. */
    function CursorOf(account: string): (r: int)
      reads this
      ensures account !in filterCursor ==> r == 0
    {
      if account in filterCursor then filterCursor[account] else 0
    }

    // -------------------------------------------------------------------------
    // get_filters
    // -------------------------------------------------------------------------

    /** `get_filters`: the stored filters in rowid order, which is ascending id order. */
    function GetFilters(): (r: seq<FilterPattern>)
      reads this
      requires Valid()
      ensures IdsAscending(r)
      ensures forall f :: f in r ==> 0 < f.id <= filterSeq
    {
      filters
    }

    // -------------------------------------------------------------------------
    // upsert_emails
    // -------------------------------------------------------------------------

    /**
     * `upsert_emails`: one keyed upsert per message, in order. Existing rows
     * keep their row id (so their filter links survive) and rows with other
     * keys are untouched; every message of the batch ends up stored, the last
     * one for a repeated uid winning, `is_read` included.
     */
    method UpsertEmails(account: string, mailbox: string, batch: seq<GmailEmail>)
      requires Valid()
      modifies this
      ensures Valid()
      ensures emails == UpsertAll(old(emails), account, mailbox, batch)
      ensures filters == old(filters) && filterSeq == old(filterSeq) && edges == old(edges)
      ensures syncState == old(syncState) && filterCursor == old(filterCursor)
      ensures |old(emails)| <= |emails|
      ensures forall k :: 0 <= k < |old(emails)| ==> HasKey(emails[k], old(emails)[k].account, old(emails)[k].uid)
      ensures forall k ::
        0 <= k < |old(emails)| && (old(emails)[k].account != account || old(emails)[k].uid !in UidsOf(batch)) ==> emails[k] == old(emails)[k]
      ensures forall i ::
        0 <= i < |batch| && (forall j :: i < j < |batch| ==> batch[j].uid != batch[i].uid) ==> ToRow(batch[i], account, mailbox) in emails
    {
      var rows0 := emails;
      var rows := emails;
      var i := 0;
      while i < |batch|
        invariant 0 <= i <= |batch|
        invariant unchanged(this) && Valid()
        invariant KeysUnique(rows)
        invariant UpsertAll(rows, account, mailbox, batch[i..]) == UpsertAll(rows0, account, mailbox, batch)
      {
        UpsertOneFacts(rows, account, mailbox, batch[i]);
        assert batch[i..][0] == batch[i] && batch[i..][1..] == batch[i + 1..];
        rows := UpsertOne(rows, account, mailbox, batch[i]);
        i := i + 1;
      }
      assert batch[i..] == [];
      emails := rows;
      UpsertAllShape(rows0, account, mailbox, batch);
      forall k | 0 <= k < |rows0| && (rows0[k].account != account || rows0[k].uid !in UidsOf(batch))
        ensures emails[k] == rows0[k]
      {
        UpsertAllUntouched(rows0, account, mailbox, batch, k);
      }
      forall i | 0 <= i < |batch| && (forall j :: i < j < |batch| ==> batch[j].uid != batch[i].uid)
        ensures ToRow(batch[i], account, mailbox) in emails
      {
        UpsertAllStores(rows0, account, mailbox, batch, i);
      }
    }

    // -------------------------------------------------------------------------
    // mark_emails_read / mark_emails_unread
    // -------------------------------------------------------------------------

    /**
     * The loop shared by `mark_emails_read` and `mark_emails_unread`: one
     * `UPDATE` per run of at most 200 uids inside one transaction, summing the
     * rows each statement matched.
     */
    method SetReadFlag(account: string, uids: seq<int>, flag: bool) returns (total: nat)
      requires Valid()
      modifies this
      ensures Valid()
      ensures emails == MarkRows(old(emails), account, UidSet(uids), flag)
      ensures total == ChunkedMatches(old(emails), account, uids)
      ensures Distinct(uids) ==> total == |PresentUids(old(emails), account) * UidSet(uids)|
      ensures uids == [] ==> total == 0 && emails == old(emails)
      ensures filters == old(filters) && filterSeq == old(filterSeq) && edges == old(edges)
      ensures syncState == old(syncState) && filterCursor == old(filterCursor)
    {
      var rows0 := emails;
      if uids == [] {
        assert MarkRows(rows0, account, {}, flag) == rows0;
        return 0;
      }
      var rows := rows0;
      total := 0;
      var i := 0;
      assert MarkRows(rows0, account, {}, flag) == rows0;
      assert (UidSet(uids[..0])) == {};
      while i < |uids|
        invariant 0 <= i <= |uids|
        invariant unchanged(this) && Valid()
        invariant rows == MarkRows(rows0, account, UidSet(uids[..i]), flag)
        invariant total + ChunkedMatches(rows0, account, uids[i..]) == ChunkedMatches(rows0, account, uids)
        decreases |uids| - i
      {
        var end := if i + ChunkSize < |uids| then i + ChunkSize else |uids|;
        var now := UidSet(uids[i..end]);
        var updated := MatchCount(rows, account, now);
        ChunkStep(rows0, account, uids, i, flag);
        rows := MarkRows(rows, account, now, flag);
        total := total + updated;
        i := end;
      }
      assert uids[..i] == uids;
      MarkConsistent(rows0, account, UidSet(uids), flag, filters, filterSeq, edges);
      emails := rows;
      assert Distinct(uids) ==> total == |PresentUids(rows0, account) * UidSet(uids)| by {
        if Distinct(uids) {
          ChunkingIrrelevant(rows0, account, uids);
          MatchCountPresent(rows0, account, UidSet(uids));
        }
      }
    }

    /** `mark_emails_read`: sets `is_read` on exactly the listed uids of the account. */
    method MarkEmailsRead(account: string, uids: seq<int>) returns (total: nat)
      requires Valid()
      modifies this
      ensures Valid()
      ensures emails == MarkRows(old(emails), account, UidSet(uids), true)
      ensures total == ChunkedMatches(old(emails), account, uids)
      ensures Distinct(uids) ==> total == |PresentUids(old(emails), account) * UidSet(uids)|
      ensures uids == [] ==> total == 0 && emails == old(emails)
      ensures filters == old(filters) && filterSeq == old(filterSeq) && edges == old(edges)
      ensures syncState == old(syncState) && filterCursor == old(filterCursor)
    {
      total := SetReadFlag(account, uids, true);
    }

    /** `mark_emails_unread`: clears `is_read` on exactly the listed uids of the account. */
    method MarkEmailsUnread(account: string, uids: seq<int>) returns (total: nat)
      requires Valid()
      modifies this
      ensures Valid()
      ensures emails == MarkRows(old(emails), account, UidSet(uids), false)
      ensures total == ChunkedMatches(old(emails), account, uids)
      ensures Distinct(uids) ==> total == |PresentUids(old(emails), account) * UidSet(uids)|
      ensures uids == [] ==> total == 0 && emails == old(emails)
      ensures filters == old(filters) && filterSeq == old(filterSeq) && edges == old(edges)
      ensures syncState == old(syncState) && filterCursor == old(filterCursor)
    {
      total := SetReadFlag(account, uids, false);
    }

    // -------------------------------------------------------------------------
    // set_email_filters
    // -------------------------------------------------------------------------

    /**
     * `set_email_filters`: nothing for an unknown `(account, uid)`; otherwise
     * the email's links become exactly the given filter ids. A filter id that
     * is not stored violates the foreign key, and the rolled-back transaction
     * leaves the links as they were.
     */
    method SetEmailFilters(account: string, uid: int, filterIds: seq<int>) returns (r: Result<Unit, string>)
      requires Valid()
      modifies this
      ensures Valid()
      ensures emails == old(emails) && filters == old(filters) && filterSeq == old(filterSeq)
      ensures syncState == old(syncState) && filterCursor == old(filterCursor)
      ensures FindKey(emails, account, uid).None? ==> r.Ok? && edges == old(edges)
      ensures r.Err? <==> FindKey(emails, account, uid).Some? && exists f :: f in filterIds && f !in FilterIds(filters)
      ensures r.Err? ==> edges == old(edges)
      ensures r.Ok? && FindKey(emails, account, uid).Some? ==>
        var id := FindKey(emails, account, uid).value + 1;
        forall p :: p in edges <==> (p in old(edges) && p.0 != id) || (p.0 == id && p.1 in filterIds)
    {
      match FindKey(emails, account, uid)
      case None =>
        return Ok(Unit);
      case Some(k) =>
        var id := k + 1;
        var ids := FilterIds(filters);
        var es := set p | p in edges && p.0 != id;
        var i := 0;
        while i < |filterIds|
          invariant 0 <= i <= |filterIds|
          invariant unchanged(this) && Valid()
          invariant forall j :: 0 <= j < i ==> filterIds[j] in ids
          invariant forall p :: p in es <==> (p in edges && p.0 != id) || (p.0 == id && p.1 in filterIds[..i])
        {
          if filterIds[i] !in ids {
            var bad := filterIds[i];
            assert bad in filterIds && bad !in FilterIds(filters);
            return Err("Failed to insert mapping: FOREIGN KEY constraint failed");
          }
          assert filterIds[..i + 1] == filterIds[..i] + [filterIds[i]];
          es := es + {(id, filterIds[i])};
          i := i + 1;
        }
        assert filterIds[..i] == filterIds;
        forall p | p in es ensures 0 < p.0 <= |emails| && p.1 in ids {
          if p.0 == id {
            var j :| 0 <= j < i && filterIds[j] == p.1;
          } else {
            assert p in edges;
          }
        }
        edges := es;
        return Ok(Unit);
    }

    // -------------------------------------------------------------------------
    // Recording filter matches
    // -------------------------------------------------------------------------

    /** The insert loop of a refresh: `INSERT OR IGNORE` one link per matching filter of every row in the batch. */
    method InsertMatches(engine: Regex.Engine, batch: seq<int>, cs: seq<CompiledFilter>)
      requires Valid()
      requires forall x :: x in batch ==> 0 < x <= |emails|
      requires CompiledIds(cs) <= FilterIds(filters)
      modifies this
      ensures Valid()
      ensures unchanged(this`emails, this`filters, this`filterSeq, this`syncState, this`filterCursor)
      ensures forall p :: p in edges <==> p in old(edges) || (p.0 in batch && p.1 in MatchesOf(engine, emails, p.0, cs))
    {
      var ids := FilterIds(filters);
      var es := edges;
      var i := 0;
      while i < |batch|
        invariant 0 <= i <= |batch|
        invariant unchanged(this) && Valid()
        invariant forall p :: p in es ==> p in edges || (0 < p.0 <= |emails| && p.1 in ids)
        invariant forall p :: p in es <==> p in edges || (p.0 in batch[..i] && 0 < p.0 <= |emails| && p.1 in MatchesOf(engine, emails, p.0, cs))
      {
        var id := batch[i];
        assert id in batch;
        var ms := MatchesOf(engine, emails, id, cs);
        MatchedIdsCompiled(engine, emails, id, cs);
        var j := 0;
        while j < |ms|
          invariant 0 <= j <= |ms|
          invariant unchanged(this) && Valid()
          invariant forall p :: p in es ==> p in edges || (0 < p.0 <= |emails| && p.1 in ids)
          invariant forall p :: p in es <==>
            p in edges || (p.0 in batch[..i] && 0 < p.0 <= |emails| && p.1 in MatchesOf(engine, emails, p.0, cs)) || (p.0 == id && p.1 in ms[..j])
        {
          assert ms[j] in ms;
          assert ms[..j + 1] == ms[..j] + [ms[j]];
          es := es + {(id, ms[j])};
          j := j + 1;
        }
        assert ms[..j] == ms;
        assert batch[..i + 1] == batch[..i] + [id];
        i := i + 1;
      }
      assert batch[..i] == batch;
      edges := es;
    }

    /**
     * `refresh_filter_matches_for_account`: walks all the account's rows in
     * ascending id order, `chunkSize` at a time, linking each to every given
     * filter it matches; with no filters it does nothing.
     */
    method RefreshFilterMatchesForAccount(engine: Regex.Engine, account: string, fs: seq<FilterPattern>, chunkSize: nat)
      requires Valid()
      requires FilterIds(fs) <= FilterIds(filters)
      modifies this
      ensures Valid()
      ensures unchanged(this`emails, this`filters, this`filterSeq, this`syncState, this`filterCursor)
      ensures forall p :: p in edges <==>
        p in old(edges) || (chunkSize > 0 && MatchEdge(engine, emails, account, CompileFilters(engine, fs), 0, |emails|, p))
    {
      var cs := CompileFilters(engine, fs);
      if fs == [] {
        assert forall p :: !MatchEdge(engine, emails, account, cs, 0, |emails|, p);
        return;
      }
      CompiledIdsOf(engine, fs);
      var lastId := 0;
      while true
        invariant Valid()
        invariant unchanged(this`emails, this`filters, this`filterSeq, this`syncState, this`filterCursor)
        invariant 0 <= lastId <= |emails|
        invariant chunkSize == 0 ==> lastId == 0 && edges == old(edges)
        invariant forall p :: p in edges <==> p in old(edges) || MatchEdge(engine, emails, account, cs, 0, lastId, p)
        decreases |emails| - lastId
      {
        var batch := Batch(emails, account, lastId, chunkSize);
        if batch == [] {
          if chunkSize > 0 {
            BatchDone(engine, emails, account, cs, lastId, chunkSize);
          }
          break;
        }
        BatchStep(engine, emails, account, cs, lastId, chunkSize);
        InsertMatches(engine, batch, cs);
        lastId := batch[|batch| - 1];
      }
    }

    /** The refresh of `save_filters`: every account that has rows, in any order. */
    method RefreshAllAccounts(engine: Regex.Engine, fs: seq<FilterPattern>)
      requires Valid()
      requires FilterIds(fs) <= FilterIds(filters)
      modifies this
      ensures Valid()
      ensures unchanged(this`emails, this`filters, this`filterSeq, this`syncState, this`filterCursor)
      ensures forall p :: p in edges <==>
        p in old(edges) || (0 < p.0 <= |emails| && p.1 in MatchesOf(engine, emails, p.0, CompileFilters(engine, fs)))
    {
      var cs := CompileFilters(engine, fs);
      var rows := emails;
      ghost var e0 := edges;
      var remaining := Accounts(rows);
      ghost var done: set<string> := {};
      while remaining != {}
        invariant Valid()
        invariant unchanged(this`emails, this`filters, this`filterSeq, this`syncState, this`filterCursor)
        invariant forall k :: 0 <= k < |rows| ==> rows[k].account in remaining || rows[k].account in done
        invariant forall p :: p in edges <==> p in e0 || AccountLink(engine, rows, done, cs, p)
        decreases |remaining|
      {
        var a :| a in remaining;
        ghost var before := edges;
        RefreshFilterMatchesForAccount(engine, a, fs, RefreshChunk);
        AccountsStep(engine, rows, cs, e0, before, edges, done, a);
        done := done + {a};
        remaining := remaining - {a};
      }
      AllAccountsLinked(engine, rows, cs, e0, edges, done);
    }

    /** Some link belongs to one of the account's rows (`filtered_count > 0`). */
    predicate HasAccountEdges(account: string)
      reads this
    {
      exists p :: p in edges && OfAccount(emails, account, p.0)
    }

    /** The cursor the next refresh resumes from: 0 after a forced or an automatic reset. */
    function ResumePoint(account: string, forceFull: bool): int
      reads this
    {
      if forceFull then 0
      else if !HasAccountEdges(account) && CursorOf(account) > 0 then 0
      else CursorOf(account)
    }

    /**
     * The first half of `refresh_filtered_emails`: `forceFull` drops the
     * account's links and cursor; then a cursor above 0 with no links left
     * for the account is rewound to 0. Returns the cursor to resume from.
     */
    method ResumeCursor(account: string, forceFull: bool) returns (lastId: int)
      requires Valid()
      modifies this
      ensures Valid()
      ensures unchanged(this`emails, this`filters, this`filterSeq, this`syncState)
      ensures lastId == old(ResumePoint(account, forceFull)) && CursorOf(account) == lastId
      ensures forall a :: a != account ==> CursorOf(a) == old(CursorOf(a))
      ensures forall p :: p in edges <==> p in old(edges) && !(forceFull && OfAccount(emails, account, p.0))
      ensures HasAccountEdges(account) <==> !forceFull && old(HasAccountEdges(account))
    {
      if forceFull {
        edges := set p | p in edges && !OfAccount(emails, account, p.0);
        filterCursor := filterCursor - {account};
      }
      lastId := CursorOf(account);
      if !HasAccountEdges(account) && lastId > 0 {
        lastId := 0;
        filterCursor := filterCursor[account := 0];
      }
    }

    /**
     * `refresh_filtered_emails`: one chunk of the account's rows above the
     * resume point, in ascending id order, linked to every stored filter each
     * matches; the cursor moves to the last row processed and the chunk's
     * size is returned, so that the rows left above the cursor shrink by it.
     */
    method RefreshFilteredEmails(engine: Regex.Engine, account: string, chunkSize: nat, forceFull: bool) returns (n: nat)
      requires Valid()
      modifies this
      ensures Valid()
      ensures unchanged(this`emails, this`filters, this`filterSeq, this`syncState)
      ensures forall a :: a != account ==> CursorOf(a) == old(CursorOf(a))
      ensures var batch := Batch(emails, account, old(ResumePoint(account, forceFull)), chunkSize);
        && n == |batch|
        && n <= chunkSize
        && (n > 0 ==> CursorOf(account) == batch[n - 1])
        && (n == 0 ==> CursorOf(account) == old(ResumePoint(account, forceFull)))
        && (forall p :: p in edges <==>
              (p in old(edges) && !(forceFull && OfAccount(emails, account, p.0)))
              || (p.0 in batch && p.1 in MatchesOf(engine, emails, p.0, CompileFilters(engine, filters))))
      ensures n > 0 ==> forall x :: x in AccountIdsAfter(emails, account, CursorOf(account)) <==>
        x in AccountIdsAfter(emails, account, old(ResumePoint(account, forceFull))) && x !in Batch(emails, account, old(ResumePoint(account, forceFull)), chunkSize)
      ensures n == 0 && chunkSize > 0 ==> AccountIdsAfter(emails, account, old(ResumePoint(account, forceFull))) == []
      ensures !forceFull && old(HasAccountEdges(account)) ==> HasAccountEdges(account) && old(ResumePoint(account, forceFull)) == old(CursorOf(account))
      ensures (forall k :: OfAccount(emails, account, k) ==> MatchesOf(engine, emails, k, CompileFilters(engine, filters)) == [])
        ==> (HasAccountEdges(account) <==> !forceFull && old(HasAccountEdges(account)))
    {
      var lastId := ResumeCursor(account, forceFull);
      ghost var cleared := edges;
      n := LinkChunk(engine, account, lastId, chunkSize);
      assert HasAccountEdges(account) <== (exists p :: p in cleared && OfAccount(emails, account, p.0)) by {
        if p :| p in cleared && OfAccount(emails, account, p.0) {
          assert p in edges;
        }
      }
    }

    /**
     * The second half of `refresh_filtered_emails`: the account's rows above
     * `lastId`, at most `chunkSize` of them in ascending id order, are linked
     * to every stored filter each matches, and the cursor moves to the last.
     */
    method LinkChunk(engine: Regex.Engine, account: string, lastId: int, chunkSize: nat) returns (n: nat)
      requires Valid() && CursorOf(account) == lastId
      modifies this
      ensures Valid()
      ensures unchanged(this`emails, this`filters, this`filterSeq, this`syncState)
      ensures forall a :: a != account ==> CursorOf(a) == old(CursorOf(a))
      ensures var batch := Batch(emails, account, lastId, chunkSize);
        && n == |batch|
        && n <= chunkSize
        && (n > 0 ==> CursorOf(account) == batch[n - 1])
        && (n == 0 ==> CursorOf(account) == lastId)
        && (forall p :: p in edges <==> p in old(edges) || (p.0 in batch && p.1 in MatchesOf(engine, emails, p.0, CompileFilters(engine, filters))))
      ensures n > 0 ==> forall x :: x in AccountIdsAfter(emails, account, CursorOf(account)) <==>
        x in AccountIdsAfter(emails, account, lastId) && x !in Batch(emails, account, lastId, chunkSize)
      ensures n == 0 && chunkSize > 0 ==> AccountIdsAfter(emails, account, lastId) == []
      ensures old(edges) <= edges
      ensures (forall k :: OfAccount(emails, account, k) ==> MatchesOf(engine, emails, k, CompileFilters(engine, filters)) == [])
        ==> edges == old(edges)
    {
      ghost var before := edges;
      var rows := emails;
      var cs := CompileFilters(engine, filters);
      CompiledIdsOf(engine, filters);
      var batch := Batch(rows, account, lastId, chunkSize);
      assert |batch| <= chunkSize && (batch == [] && chunkSize > 0 ==> AccountIdsAfter(rows, account, lastId) == [])
        && forall x :: x in batch ==> OfAccount(rows, account, x) by {
        BatchFacts(rows, account, lastId, chunkSize);
      }
      if batch == [] {
        return 0;
      }
      BatchLeaves(rows, account, lastId, chunkSize);
      InsertMatches(engine, batch, cs);
      SetCursor(account, batch[|batch| - 1]);
      n := |batch|;
      NoMatchNoLinks(engine, rows, account, cs, batch, before, edges);
    }

    /**
     * As written, the refresh never settles for an account none of whose rows
     * matches a stored filter: it links nothing, so each call rewinds to 0 and
     * processes the same first chunk again, reporting the same positive count
     * and leaving the cursor where the previous call left it.
     */
    method RepeatedRefreshAsWritten(engine: Regex.Engine, account: string, chunkSize: nat) returns (n1: nat, cursor1: int, n2: nat, cursor2: int)
      requires Valid()
      requires chunkSize > 0 && account in Accounts(emails) && !HasAccountEdges(account)
      requires forall k :: OfAccount(emails, account, k) ==> MatchesOf(engine, emails, k, CompileFilters(engine, filters)) == []
      modifies this
      ensures n1 > 0 && n2 == n1 && cursor2 == cursor1
    {
      var rows := emails;
      var k0 :| 0 <= k0 < |rows| && rows[k0].account == account;
      assert k0 + 1 in AccountIdsAfter(rows, account, 0);
      BatchFacts(rows, account, 0, chunkSize);
      var from := ResumePoint(account, false);
      if from <= 0 {
        IdsFromNonPositive(rows, account, from, 0);
      }
      assert Batch(rows, account, from, chunkSize) == Batch(rows, account, 0, chunkSize);
      n1 := RefreshFilteredEmails(engine, account, chunkSize, false);
      cursor1 := CursorOf(account);
      n2 := RefreshFilteredEmails(engine, account, chunkSize, false);
      cursor2 := CursorOf(account);
    }

    /** A cursor above 0 with no links, past a row that matches a filter: links are really missing. */
    predicate RewindPending(engine: Regex.Engine, account: string)
      reads this
    {
      !HasAccountEdges(account) && CursorOf(account) > 0
      && MatchBelow(engine, emails, account, CompileFilters(engine, filters), CursorOf(account))
    }

    /** The resume point with the rewind guarded by `RewindPending`. */
    function GuardedResumePoint(engine: Regex.Engine, account: string, forceFull: bool): int
      reads this
    {
      if forceFull || RewindPending(engine, account) then 0 else CursorOf(account)
    }

    /**
     * `refresh_filtered_emails` with the rewind guarded: a cursor above 0
     * with no links goes back to 0 only when some row it has passed matches a
     * filter. Otherwise the chunk step is the one of the refresh as written.
     */
    method RefreshFilteredEmailsGuarded(engine: Regex.Engine, account: string, chunkSize: nat, forceFull: bool) returns (n: nat)
      requires Valid()
      modifies this
      ensures Valid()
      ensures unchanged(this`emails, this`filters, this`filterSeq, this`syncState)
      ensures forall a :: a != account ==> CursorOf(a) == old(CursorOf(a))
      ensures var batch := Batch(emails, account, old(GuardedResumePoint(engine, account, forceFull)), chunkSize);
        && n == |batch|
        && (n > 0 ==> CursorOf(account) == batch[n - 1])
        && (n == 0 ==> CursorOf(account) == old(GuardedResumePoint(engine, account, forceFull)))
        && (forall p :: p in edges <==>
              (p in old(edges) && !(forceFull && OfAccount(emails, account, p.0)))
              || (p.0 in batch && p.1 in MatchesOf(engine, emails, p.0, CompileFilters(engine, filters))))
      ensures n == 0 && chunkSize > 0 ==> AccountIdsAfter(emails, account, old(GuardedResumePoint(engine, account, forceFull))) == []
    {
      var lastId := CursorOf(account);
      if forceFull {
        edges := set p | p in edges && !OfAccount(emails, account, p.0);
        filterCursor := filterCursor - {account};
        lastId := 0;
      } else if RewindPending(engine, account) {
        lastId := 0;
        filterCursor := filterCursor[account := 0];
      }
      n := LinkChunk(engine, account, lastId, chunkSize);
    }

    /**
     * Calling the guarded refresh until it reports 0, as the backfill does,
     * forcing only the first call when asked: the calls do reach 0, and then
     * every match of the account's rows is linked. Without forcing, the links
     * up to the cursor must be complete or a rewind pending, as every refresh
     * leaves them.
     */
    method RefreshUntilDone(engine: Regex.Engine, account: string, chunkSize: nat, forceFull: bool)
      requires Valid() && chunkSize > 0
      requires forceFull || RewindPending(engine, account)
        || LinkedUpTo(engine, emails, account, CompileFilters(engine, filters), edges, CursorOf(account))
      modifies this
      ensures Valid()
      ensures unchanged(this`emails, this`filters, this`filterSeq, this`syncState)
      ensures !forceFull ==> old(edges) <= edges
      ensures forall k, x :: OfAccount(emails, account, k) && x in MatchesOf(engine, emails, k, CompileFilters(engine, filters)) ==> (k, x) in edges
    {
      var force := forceFull;
      while true
        invariant Valid()
        invariant unchanged(this`emails, this`filters, this`filterSeq, this`syncState)
        invariant force ==> forceFull
        invariant !forceFull ==> old(edges) <= edges
        invariant force || RewindPending(engine, account)
          || LinkedUpTo(engine, emails, account, CompileFilters(engine, filters), edges, CursorOf(account))
        decreases if force then 2 else if RewindPending(engine, account) then 1 else 0, |emails| - CursorOf(account)
      {
        var n := BackfillStep(engine, account, chunkSize, force);
        force := false;
        if n == 0 {
          break;
        }
      }
    }

    /**
     * One call of the backfill: a call that reports 0 leaves every match of
     * the account linked; any other leaves the links complete up to the new
     * cursor with no rewind pending, and, unless it was forced or rewound,
     * the cursor has moved forward.
     */
    method BackfillStep(engine: Regex.Engine, account: string, chunkSize: nat, force: bool) returns (n: nat)
      requires Valid() && chunkSize > 0
      requires force || RewindPending(engine, account)
        || LinkedUpTo(engine, emails, account, CompileFilters(engine, filters), edges, CursorOf(account))
      modifies this
      ensures Valid()
      ensures unchanged(this`emails, this`filters, this`filterSeq, this`syncState)
      ensures !force ==> old(edges) <= edges
      ensures n == 0 ==>
        forall k, x :: OfAccount(emails, account, k) && x in MatchesOf(engine, emails, k, CompileFilters(engine, filters)) ==> (k, x) in edges
      ensures n > 0 ==>
        (!RewindPending(engine, account)
         && LinkedUpTo(engine, emails, account, CompileFilters(engine, filters), edges, CursorOf(account))
         && CursorOf(account) <= |emails|)
      ensures n > 0 && !force && !old(RewindPending(engine, account)) ==> old(CursorOf(account)) < CursorOf(account)
    {
      var rows := emails;
      var cs := CompileFilters(engine, filters);
      ghost var e0 := edges;
      ghost var kept := set p | p in e0 && !(force && OfAccount(rows, account, p.0));
      ghost var pending := RewindPending(engine, account);
      ghost var from := GuardedResumePoint(engine, account, force);
      if !force && pending {
        ghost var k :| 0 < k <= |rows| && k <= CursorOf(account) && rows[k - 1].account == account && MatchesOf(engine, rows, k, cs) != [];
        assert k in AccountIdsAfter(rows, account, 0);
        BatchFacts(rows, account, 0, chunkSize);
      }
      assert LinkedUpTo(engine, rows, account, cs, kept, from);
      assert !force ==> kept == e0;
      n := RefreshFilteredEmailsGuarded(engine, account, chunkSize, force);
      StepOutcome(engine, rows, account, cs, kept, edges, from, chunkSize, n, CursorOf(account));
    }

    /** Records how far the refresh of `account` has got; nothing else changes. */
    method SetCursor(account: string, id: int)
      requires Valid()
      modifies this
      ensures Valid()
      ensures unchanged(this`emails, this`filters, this`filterSeq, this`syncState, this`edges)
      ensures filterCursor == old(filterCursor)[account := id]
    {
      filterCursor := filterCursor[account := id];
    }

    // -------------------------------------------------------------------------
    // save_filters
    // -------------------------------------------------------------------------

    /** The classification loop of `save_filters` over the input, taking ids out of the map as it meets them. */
    method PlanSave(existing: map<int, FilterPattern>, patterns: seq<FilterPattern>) returns (plan: SavePlan)
      ensures plan == Classify(existing, patterns)
    {
      var remaining := existing;
      var toInsert: seq<FilterPattern> := [];
      var toUpdate: seq<FilterPattern> := [];
      var toTouch: seq<FilterPattern> := [];
      var i := 0;
      while i < |patterns|
        invariant 0 <= i <= |patterns|
        invariant PlannedUpTo(existing, patterns, i, remaining, toInsert, toUpdate, toTouch)
      {
        var f := patterns[i];
        PlannedStep(existing, patterns, i, remaining, toInsert, toUpdate, toTouch);
        if f.id in remaining {
          var prev := remaining[f.id];
          remaining := remaining - {f.id};
          if NeedsRefresh(prev, f) {
            toUpdate := toUpdate + [f];
          } else if NeedsTouch(prev, f) {
            toTouch := toTouch + [f];
          }
        } else {
          toInsert := toInsert + [f];
        }
        i := i + 1;
      }
      assert patterns[i..] == [];
      plan := SavePlan(toInsert, toUpdate, toTouch, remaining.Keys);
    }

    /** `DELETE FROM filters WHERE id IN (...)`, the links of those filters going with them (ON DELETE CASCADE). */
    method DeleteFilters(ids: set<int>)
      requires Valid()
      modifies this
      ensures Valid()
      ensures filters == RemoveIds(old(filters), ids)
      ensures edges == Unlinked(old(edges), ids)
      ensures unchanged(this`emails, this`filterSeq, this`syncState, this`filterCursor)
    {
      RemoveConsistent(emails, filters, filterSeq, edges, ids);
      filters := RemoveIds(filters, ids);
      edges := Unlinked(edges, ids);
    }

    /** `DELETE FROM filtered_emails WHERE filter_id IN (...)`. */
    method ClearLinks(ids: set<int>)
      requires Valid()
      modifies this
      ensures Valid()
      ensures edges == Unlinked(old(edges), ids)
      ensures unchanged(this`emails, this`filters, this`filterSeq, this`syncState, this`filterCursor)
    {
      edges := Unlinked(edges, ids);
    }

    /** The insert loop: each new filter gets the next AUTOINCREMENT id and is appended in rowid order. */
    method InsertFilters(fs: seq<FilterPattern>) returns (inserted: seq<FilterPattern>)
      requires Valid()
      modifies this
      ensures Valid()
      ensures inserted == Numbered(fs, old(filterSeq))
      ensures filters == old(filters) + inserted
      ensures filterSeq == old(filterSeq) + |fs|
      ensures unchanged(this`emails, this`edges, this`syncState, this`filterCursor)
    {
      inserted := [];
      var i := 0;
      while i < |fs|
        invariant 0 <= i <= |fs|
        invariant Valid()
        invariant inserted == Numbered(fs[..i], old(filterSeq))
        invariant filters == old(filters) + inserted
        invariant filterSeq == old(filterSeq) + i
        invariant unchanged(this`emails, this`edges, this`syncState, this`filterCursor)
      {
        var f := fs[i].(id := filterSeq + 1);
        AppendConsistent(emails, filters, filterSeq, edges, f);
        NumberedStep(fs, old(filterSeq), i);
        filters := filters + [f];
        filterSeq := filterSeq + 1;
        inserted := inserted + [f];
        i := i + 1;
      }
      assert fs[..i] == fs;
    }

    /** The update loop: each listed filter's row is rewritten with its new values, in list order. */
    method UpdateFilters(us: seq<FilterPattern>)
      requires Valid()
      modifies this
      ensures Valid()
      ensures filters == Updated(old(filters), us)
      ensures unchanged(this`emails, this`filterSeq, this`edges, this`syncState, this`filterCursor)
    {
      var i := 0;
      while i < |us|
        invariant 0 <= i <= |us|
        invariant Valid()
        invariant filters == Updated(old(filters), us[..i])
        invariant unchanged(this`emails, this`filterSeq, this`edges, this`syncState, this`filterCursor)
      {
        UpdatedStep(old(filters), us, i);
        SameIdsConsistent(emails, filters, ReplaceById(filters, us[i]), filterSeq, edges);
        filters := ReplaceById(filters, us[i]);
        i := i + 1;
      }
      assert us[..i] == us;
    }

    /**
     * `save_filters`: the stored filters are diffed against the input by id;
     * stored filters no input carries are deleted with their links, changed
     * ones lose their links and are rewritten, new ones are inserted under
     * fresh ids, and the updated and inserted filters are matched against the
     * rows of every account. Returns the stored filters.
     */
    method SaveFilters(engine: Regex.Engine, patterns: seq<FilterPattern>) returns (r: seq<FilterPattern>)
      requires Valid()
      modifies this
      ensures Valid()
      ensures r == filters
      ensures unchanged(this`emails, this`syncState, this`filterCursor)
      ensures filters == SavedFilters(old(filters), patterns, old(filterSeq))
      ensures filterSeq == old(filterSeq) + |PlanFor(old(filters), patterns).toInsert|
      ensures forall p :: p in edges <==> SavedLink(engine, emails, old(filters), patterns, old(filterSeq), old(edges), p)
    {
      ghost var e0 := edges;
      var existing := IdMap(filters);
      var plan := PlanSave(existing, patterns);
      PlanForFits(filters, patterns);
      SaveRefreshStored(filters, patterns, filterSeq);
      if plan.toDelete != {} {
        DeleteFilters(plan.toDelete);
      } else {
        RemoveNothing(filters);
      }
      if plan.toUpdate != [] {
        ClearLinks(FilterIds(plan.toUpdate));
      }
      ghost var e1 := edges;
      assert forall p :: p in e1 <==> p in e0 && p.1 !in plan.toDelete && p.1 !in FilterIds(plan.toUpdate);
      var inserted := InsertFilters(plan.toInsert);
      UpdateFilters(Rewrites(plan));
      assert filters == SavedFilters(old(filters), patterns, old(filterSeq));
      var refresh := plan.toUpdate + inserted;
      assert refresh == Refreshed(old(filters), patterns, old(filterSeq));
      if refresh != [] {
        RefreshAllAccounts(engine, refresh);
      } else {
        NothingMatched(engine, emails);
      }
      LinksAfterSave(engine, emails, plan, old(filterSeq), e0, e1, edges);
      r := filters;
    }
  }
}
