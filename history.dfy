/**
 * The browsing-history store (`DatabaseHistory`): a `history` table holding
 * one row per visited URI (title, netloc, sync guid, modification time,
 * "opened" flag, popularity) and a `history_atime` table holding the access
 * times of each row. SQLite is modelled by two sequences of rows in table
 * order; a statement that deletes or updates rows becomes a function from
 * the old sequence to the new one. Times are integers: the store only
 * stores and compares them.
 */
module History {
  import opened Wrappers
  import opened Strings
  import opened Url

  /** The window `get` reads after its start time, in seconds. */
  const OneDay: int := 86400

  /** A row of `history`; `id` is its SQLite rowid. */
  datatype HistoryRow = HistoryRow(
    id: int,
    title: string,
    uri: string,
    netloc: string,
    guid: string,
    mtime: int,
    openFlag: int,
    popularity: int)

  /** A row of `history_atime`: one access to the history row `historyId`. */
  datatype AtimeRow = AtimeRow(historyId: int, atime: int)

  /** A row of the answer of `get`. */
  datatype DayEntry = DayEntry(id: int, title: string, uri: string, atime: int)

  /** A row of the answer of `get_opened_pages`. */
  datatype OpenedPage = OpenedPage(uri: string, title: string)

  predicate Distinct<T(==)>(s: seq<T>) {
    forall i, j :: 0 <= i < j < |s| ==> s[i] != s[j]
  }

  // ---------------------------------------------------------------------
  // The history table and its invariant
  // ---------------------------------------------------------------------

  /** The rowid is the primary key. */
  ghost predicate UniqueIds(rows: seq<HistoryRow>) {
    forall i, j :: 0 <= i < j < |rows| ==> rows[i].id != rows[j].id
  }

  /** `add` upserts by URI, so no URI is stored twice. */
  ghost predicate UniqueUris(rows: seq<HistoryRow>) {
    forall i, j :: 0 <= i < j < |rows| ==> rows[i].uri != rows[j].uri
  }

  /** The store only ever writes 0 or 1 into `opened`. */
  ghost predicate OpenedIsFlag(rows: seq<HistoryRow>) {
    forall i :: 0 <= i < |rows| ==> rows[i].openFlag == 0 || rows[i].openFlag == 1
  }

  ghost predicate TableValid(rows: seq<HistoryRow>) {
    UniqueIds(rows) && UniqueUris(rows) && OpenedIsFlag(rows)
  }

  /** `b` is `a` with the same ids and URIs in the same places. */
  ghost predicate SameKeys(a: seq<HistoryRow>, b: seq<HistoryRow>) {
    |a| == |b| && forall i :: 0 <= i < |a| ==> a[i].id == b[i].id && a[i].uri == b[i].uri
  }

  /** An update that keeps ids and URIs, and writes only 0 or 1 into `opened`, keeps the table valid. */
  lemma SameKeysValid(a: seq<HistoryRow>, b: seq<HistoryRow>)
    requires TableValid(a) && SameKeys(a, b) && OpenedIsFlag(b)
    ensures TableValid(b)
  {
    assert forall i, j :: 0 <= i < j < |b| ==> b[i].id == a[i].id && b[j].id == a[j].id;
    assert forall i, j :: 0 <= i < j < |b| ==> b[i].uri == a[i].uri && b[j].uri == a[j].uri;
  }

  /** The index of the first row whose URI is `uri` (`SELECT … WHERE uri=?` then `fetchone`). */
  function IndexOfUri(rows: seq<HistoryRow>, uri: string): (k: Option<nat>)
    ensures k.Some? ==> k.value < |rows| && rows[k.value].uri == uri
    ensures k.Some? ==> forall j :: 0 <= j < k.value ==> rows[j].uri != uri
    ensures k.None? <==> forall j :: 0 <= j < |rows| ==> rows[j].uri != uri
  {
    if rows == [] then None
    else if rows[0].uri == uri then Some(0)
    else match IndexOfUri(rows[1..], uri)
      case None => None
      case Some(k) => Some(k + 1)
  }

  /** The rowid SQLite gives an inserted row: one more than the largest in use, or 1 in an empty table. */
  function NextId(rows: seq<HistoryRow>): (id: int)
    ensures forall i :: 0 <= i < |rows| ==> rows[i].id < id
    ensures rows == [] ==> id == 1
    ensures rows != [] ==> exists i :: 0 <= i < |rows| && rows[i].id == id - 1
  {
    if rows == [] then 1
    else
      var rest := NextId(rows[1..]);
      if |rows| == 1 || rows[0].id + 1 >= rest then rows[0].id + 1
      else
        assert exists i :: 0 <= i < |rows[1..]| && rows[1..][i].id == rest - 1;
        rest
  }

  /** `exists_guid`: some row carries `guid`. */
  predicate GuidUsed(rows: seq<HistoryRow>, guid: string) {
    exists i :: 0 <= i < |rows| && rows[i].guid == guid
  }

  /**
   * The guid `add` settles on for a new row when none is supplied: the first
   * random draw that `exists_guid` reports unused. The random strings are
   * handed in as `draws`.
   */
  function FirstUnusedGuid(rows: seq<HistoryRow>, draws: seq<string>): (g: Option<string>)
    ensures g.Some? ==> g.value in draws && !GuidUsed(rows, g.value)
    ensures g.None? <==> forall i :: 0 <= i < |draws| ==> GuidUsed(rows, draws[i])
  {
    if draws == [] then None
    else if !GuidUsed(rows, draws[0]) then Some(draws[0])
    else FirstUnusedGuid(rows, draws[1..])
  }

  /** The guid of a row `add` inserts: the supplied one, otherwise the first unused draw. */
  function NewGuid(rows: seq<HistoryRow>, guid: Option<string>, draws: seq<string>): string {
    if guid.Some? then guid.value else FirstUnusedGuid(rows, draws).GetOr("")
  }

  /** The row `add` writes over a known URI: new title, netloc and mtime, same id, URI and guid, one more visit. */
  function Revisited(row: HistoryRow, title: string, netloc: string, mtime: int): HistoryRow {
    row.(netloc := netloc, mtime := mtime, title := title, popularity := row.popularity + 1)
  }

  /**
   * The `history` table after `add` of the already stripped `uri`, and the id
   * `add` returns: the known row updated in place, or a new row appended
   * with popularity 0. `guid` is used only for a new row.
   */
  function AddRow(rows: seq<HistoryRow>, title: string, uri: string, netloc: string, mtime: int, guid: string)
    : (seq<HistoryRow>, int)
  {
    match IndexOfUri(rows, uri)
    case Some(k) => (rows[k := Revisited(rows[k], title, netloc, mtime)], rows[k].id)
    case None => (rows + [HistoryRow(NextId(rows), title, uri, netloc, guid, mtime, 0, 0)], NextId(rows))
  }

  /** `add` keeps ids and URIs unique and `opened` a flag. */
  lemma AddRowValid(rows: seq<HistoryRow>, title: string, uri: string, netloc: string, mtime: int, guid: string)
    requires TableValid(rows)
    ensures TableValid(AddRow(rows, title, uri, netloc, mtime, guid).0)
  {
    var after := AddRow(rows, title, uri, netloc, mtime, guid).0;
    match IndexOfUri(rows, uri)
    case Some(k) =>
      SameKeysValid(rows, after);
    case None =>
      var n := |rows|;
      assert forall i :: 0 <= i < n ==> after[i] == rows[i];
      assert forall i :: 0 <= i < n ==> after[i].id != after[n].id && after[i].uri != after[n].uri;
  }

  /** On a known URI `add` updates that row alone: same id, URI and guid, popularity one higher. */
  lemma AddKnownUri(rows: seq<HistoryRow>, title: string, uri: string, netloc: string, mtime: int, guid: string, k: nat)
    requires k < |rows| && rows[k].uri == uri && UniqueUris(rows)
    ensures var (after, id) := AddRow(rows, title, uri, netloc, mtime, guid);
      |after| == |rows| && id == rows[k].id &&
      after[k].id == rows[k].id && after[k].uri == uri && after[k].guid == rows[k].guid &&
      after[k].popularity == rows[k].popularity + 1 &&
      after[k].title == title && after[k].mtime == mtime && after[k].netloc == netloc &&
      forall j :: 0 <= j < |rows| && j != k ==> after[j] == rows[j]
  {
    assert IndexOfUri(rows, uri) == Some(k);
  }

  /** On a new URI `add` appends one row under a fresh id, with popularity 0 and the given guid. */
  lemma AddNewUri(rows: seq<HistoryRow>, title: string, uri: string, netloc: string, mtime: int, guid: string)
    requires forall j :: 0 <= j < |rows| ==> rows[j].uri != uri
    ensures var (after, id) := AddRow(rows, title, uri, netloc, mtime, guid);
      after[..|rows|] == rows && |after| == |rows| + 1 &&
      after[|rows|] == HistoryRow(id, title, uri, netloc, guid, mtime, 0, 0) &&
      forall j :: 0 <= j < |rows| ==> rows[j].id != id
  {
    assert IndexOfUri(rows, uri).None?;
  }

  /** `get_id` finds a row by its URI, stripped of trailing '/' the way `add` stores it. */
  function IdOfUri(rows: seq<HistoryRow>, uri: string): (id: Option<int>)
    ensures id.Some? <==> exists i :: 0 <= i < |rows| && rows[i].uri == RStrip(uri, '/')
    ensures id.Some? ==> exists i :: 0 <= i < |rows| && rows[i].uri == RStrip(uri, '/') && rows[i].id == id.value
  {
    match IndexOfUri(rows, RStrip(uri, '/'))
    case Some(k) => Some(rows[k].id)
    case None => None
  }

  /** After `add(uri)`, `get_id(uri)` returns the id `add` returned, with or without trailing slashes. */
  lemma {:induction false} AddThenGetId(rows: seq<HistoryRow>, title: string, uri: string, netloc: string, mtime: int, guid: string, slashes: nat)
    requires UniqueUris(rows)
    ensures var (after, id) := AddRow(rows, title, RStrip(uri, '/'), netloc, mtime, guid);
      IdOfUri(after, uri + seq(slashes, _ => '/')) == Some(id)
  {
    var stripped := RStrip(uri, '/');
    RStripSlashes(uri, slashes);
    var (after, id) := AddRow(rows, title, stripped, netloc, mtime, guid);
    match IndexOfUri(rows, stripped)
    case Some(k) =>
      AddKnownUri(rows, title, stripped, netloc, mtime, guid, k);
      assert IndexOfUri(after, stripped) == Some(k);
    case None =>
      AddNewUri(rows, title, stripped, netloc, mtime, guid);
      assert IndexOfUri(after, stripped) == Some(|rows|);
  }

  /** Trailing slashes make no difference once stripped. */
  lemma {:induction false} RStripSlashes(uri: string, slashes: nat)
    ensures RStrip(uri + seq(slashes, _ => '/'), '/') == RStrip(uri, '/')
  {
    if slashes > 0 {
      var shorter := uri + seq(slashes - 1, _ => '/');
      var longer := uri + seq(slashes, _ => '/');
      assert longer[..|longer| - 1] == shorter;
      RStripSlashes(uri, slashes - 1);
    } else {
      assert uri + seq(slashes, _ => '/') == uri;
    }
  }

  // ---------------------------------------------------------------------
  // Access times
  // ---------------------------------------------------------------------

  /** `get_atimes(id)`: the atimes recorded for `id`, in table order. */
  function AtimesOf(visits: seq<AtimeRow>, id: int): (ts: seq<int>)
    ensures forall t :: t in ts <==> AtimeRow(id, t) in visits
  {
    if visits == [] then []
    else
      var rest := AtimesOf(visits[1..], id);
      assert forall v :: v in visits <==> v == visits[0] || v in visits[1..];
      (if visits[0].historyId == id then [visits[0].atime] else []) + rest
  }

  lemma {:induction false} AtimesOfAppend(a: seq<AtimeRow>, b: seq<AtimeRow>, id: int)
    ensures AtimesOf(a + b, id) == AtimesOf(a, id) + AtimesOf(b, id)
  {
    if a != [] {
      assert (a + b)[1..] == a[1..] + b;
      AtimesOfAppend(a[1..], b, id);
    } else {
      assert a + b == b;
    }
  }

  /** The `history_atime` rows inserted for `id`, one per time of `ts`. */
  function AtimeRows(id: int, ts: seq<int>): (rows: seq<AtimeRow>)
    ensures |rows| == |ts|
  {
    if ts == [] then [] else [AtimeRow(id, ts[0])] + AtimeRows(id, ts[1..])
  }

  lemma {:induction false} AtimeRowsSnoc(id: int, ts: seq<int>, t: int)
    ensures AtimeRows(id, ts + [t]) == AtimeRows(id, ts) + [AtimeRow(id, t)]
  {
    if ts != [] {
      assert (ts + [t])[1..] == ts[1..] + [t];
      AtimeRowsSnoc(id, ts[1..], t);
    } else {
      assert ts + [t] == [t];
    }
  }

  lemma {:induction false} AtimesOfRows(id: int, other: int, ts: seq<int>)
    ensures AtimesOf(AtimeRows(id, ts), id) == ts
    ensures other != id ==> AtimesOf(AtimeRows(id, ts), other) == []
  {
    if ts != [] {
      AtimesOfRows(id, other, ts[1..]);
      assert AtimeRows(id, ts)[1..] == AtimeRows(id, ts[1..]);
    }
  }

  /** The times of `ts` that `add` and `set_atimes` insert: those not in the snapshot `current`, in order. */
  function NewAtimes(ts: seq<int>, current: seq<int>): (added: seq<int>)
    ensures forall t :: t in added <==> t in ts && t !in current
  {
    if ts == [] then []
    else
      var last := ts[|ts| - 1];
      assert ts == ts[..|ts| - 1] + [last];
      NewAtimes(ts[..|ts| - 1], current) + (if last in current then [] else [last])
  }

  lemma NewAtimesStep(ts: seq<int>, current: seq<int>, i: int)
    requires 0 <= i < |ts|
    ensures NewAtimes(ts[..i + 1], current) == NewAtimes(ts[..i], current) + (if ts[i] in current then [] else [ts[i]])
  {
    assert ts[..i + 1][..i] == ts[..i];
  }

  /** One turn of the insertion loop of `set_atimes`. */
  lemma SetAtimesStep(prefix: seq<AtimeRow>, id: int, ts: seq<int>, current: seq<int>, i: int)
    requires 0 <= i < |ts|
    ensures ts[i] in current ==>
      prefix + AtimeRows(id, NewAtimes(ts[..i + 1], current)) == prefix + AtimeRows(id, NewAtimes(ts[..i], current))
    ensures ts[i] !in current ==>
      prefix + AtimeRows(id, NewAtimes(ts[..i + 1], current))
        == prefix + AtimeRows(id, NewAtimes(ts[..i], current)) + [AtimeRow(id, ts[i])]
  {
    var before := NewAtimes(ts[..i], current);
    NewAtimesStep(ts, current, i);
    if ts[i] in current {
      assert before + [] == before;
    } else {
      AtimeRowsSnoc(id, before, ts[i]);
      assert (prefix + AtimeRows(id, before)) + [AtimeRow(id, ts[i])]
          == prefix + (AtimeRows(id, before) + [AtimeRow(id, ts[i])]);
    }
  }

  lemma {:induction false} NewAtimesDistinct(ts: seq<int>, current: seq<int>)
    requires Distinct(ts)
    ensures Distinct(NewAtimes(ts, current))
  {
    if ts != [] {
      var init := ts[..|ts| - 1];
      assert Distinct(init);
      NewAtimesDistinct(init, current);
      assert ts[|ts| - 1] !in init;
    }
  }

  /**
   * What `add` and `set_atimes` promise about access times: afterwards the
   * atimes of `id` are the old ones together with those of `ts`, each once if
   * `ts` and the old ones had no repeats, and no other id's atimes change.
   */
  lemma RecordAtimes(visits: seq<AtimeRow>, id: int, ts: seq<int>, other: int)
    ensures var after := AtimesOf(visits + AtimeRows(id, NewAtimes(ts, AtimesOf(visits, id))), id);
      (forall t :: t in after <==> t in AtimesOf(visits, id) || t in ts) &&
      (Distinct(AtimesOf(visits, id)) && Distinct(ts) ==> Distinct(after))
    ensures other != id ==>
      AtimesOf(visits + AtimeRows(id, NewAtimes(ts, AtimesOf(visits, id))), other) == AtimesOf(visits, other)
  {
    var current := AtimesOf(visits, id);
    var added := NewAtimes(ts, current);
    AtimesOfAppend(visits, AtimeRows(id, added), id);
    AtimesOfAppend(visits, AtimeRows(id, added), other);
    AtimesOfRows(id, other, added);
    assert AtimesOf(visits + AtimeRows(id, added), id) == current + added;
    if Distinct(current) && Distinct(ts) {
      NewAtimesDistinct(ts, current);
      var after := current + added;
      forall i, j | 0 <= i < j < |after| ensures after[i] != after[j] {
        if j >= |current| && i < |current| {
          assert after[j] in added && after[i] in current;
        }
      }
    }
    if other != id {
      assert AtimesOf(visits + AtimeRows(id, added), other) == AtimesOf(visits, other) + [];
    }
  }

  /** `clear_from(t)`: the atime rows kept by `DELETE … WHERE atime >= t`. */
  function VisitsBefore(visits: seq<AtimeRow>, t: int): (kept: seq<AtimeRow>)
    ensures forall v :: v in kept <==> v in visits && v.atime < t
  {
    if visits == [] then []
    else
      assert forall v :: v in visits <==> v == visits[0] || v in visits[1..];
      (if visits[0].atime < t then [visits[0]] else []) + VisitsBefore(visits[1..], t)
  }

  /** `clear_to(t)`: the atime rows kept by `DELETE … WHERE atime <= t`. */
  function VisitsAfter(visits: seq<AtimeRow>, t: int): (kept: seq<AtimeRow>)
    ensures forall v :: v in kept <==> v in visits && v.atime > t
  {
    if visits == [] then []
    else
      assert forall v :: v in visits <==> v == visits[0] || v in visits[1..];
      (if visits[0].atime > t then [visits[0]] else []) + VisitsAfter(visits[1..], t)
  }

  /** Some access to `id` happened at or after `t`. */
  predicate VisitedSince(visits: seq<AtimeRow>, id: int, t: int) {
    exists j :: 0 <= j < |visits| && visits[j].historyId == id && visits[j].atime >= t
  }

  /** `get_from_atime(t)`: the distinct ids of rows having an atime at or after `t`. */
  function IdsFromAtime(rows: seq<HistoryRow>, visits: seq<AtimeRow>, t: int): (ids: seq<int>)
    ensures Distinct(ids)
    ensures forall x :: x in ids <==> exists i :: 0 <= i < |rows| && rows[i].id == x && VisitedSince(visits, x, t)
  {
    if rows == [] then []
    else
      var init := rows[..|rows| - 1];
      var last := rows[|rows| - 1];
      var ids := IdsFromAtime(init, visits, t);
      assert forall i :: 0 <= i < |init| ==> rows[i] == init[i];
      if VisitedSince(visits, last.id, t) && last.id !in ids then ids + [last.id] else ids
  }

  /** `get_empties`: the ids of rows without any atime row. */
  function Empties(rows: seq<HistoryRow>, visits: seq<AtimeRow>): (ids: seq<int>)
    ensures forall x :: x in ids <==>
      (exists i :: 0 <= i < |rows| && rows[i].id == x) && forall j :: 0 <= j < |visits| ==> visits[j].historyId != x
  {
    if rows == [] then []
    else
      var rest := Empties(rows[1..], visits);
      assert forall i :: 0 <= i < |rows| - 1 ==> rows[1..][i] == rows[i + 1];
      (if forall j :: 0 <= j < |visits| ==> visits[j].historyId != rows[0].id then [rows[0].id] else []) + rest
  }

  /** `clear_from(t)` leaves no access at or after any `u >= t`, so `get_from_atime(u)` is empty. */
  lemma ClearFromEmptiesRecent(rows: seq<HistoryRow>, visits: seq<AtimeRow>, t: int, u: int)
    requires u >= t
    ensures forall x :: x !in IdsFromAtime(rows, VisitsBefore(visits, t), u)
  {
  }

  // ---------------------------------------------------------------------
  // One day of history, newest first
  // ---------------------------------------------------------------------

  /** `atime` lies in the window `get(t)` reads. */
  predicate InDay(atime: int, t: int) {
    t <= atime <= t + OneDay
  }

  /** The joined rows of one history row with its accesses in the window. */
  function DayOfRow(row: HistoryRow, visits: seq<AtimeRow>, t: int): (entries: seq<DayEntry>)
    ensures forall e :: e in entries <==>
      exists j :: 0 <= j < |visits| && visits[j].historyId == row.id && InDay(visits[j].atime, t) &&
        e == DayEntry(row.id, row.title, row.uri, visits[j].atime)
  {
    if visits == [] then []
    else
      var rest := DayOfRow(row, visits[1..], t);
      assert forall j :: 0 <= j < |visits| - 1 ==> visits[1..][j] == visits[j + 1];
      (if visits[0].historyId == row.id && InDay(visits[0].atime, t)
       then [DayEntry(row.id, row.title, row.uri, visits[0].atime)] else []) + rest
  }

  /** The join `get` selects, before ordering: one entry per (row, access in the window) pair. */
  function DayJoin(rows: seq<HistoryRow>, visits: seq<AtimeRow>, t: int): (entries: seq<DayEntry>)
    ensures forall e :: e in entries <==>
      exists i, j :: 0 <= i < |rows| && 0 <= j < |visits| &&
        visits[j].historyId == rows[i].id && InDay(visits[j].atime, t) &&
        e == DayEntry(rows[i].id, rows[i].title, rows[i].uri, visits[j].atime)
  {
    if rows == [] then []
    else
      var rest := DayJoin(rows[1..], visits, t);
      assert forall i :: 0 <= i < |rows| - 1 ==> rows[1..][i] == rows[i + 1];
      DayOfRow(rows[0], visits, t) + rest
  }

  /** Newest first: `ORDER BY atime DESC`. */
  predicate NewestFirst(entries: seq<DayEntry>) {
    forall i, j :: 0 <= i < j < |entries| ==> entries[i].atime >= entries[j].atime
  }

  /** `e` placed into the newest-first `sorted` before the first entry not newer than it. */
  function InsertNewestFirst(e: DayEntry, sorted: seq<DayEntry>): (r: seq<DayEntry>)
    ensures |r| == |sorted| + 1
  {
    if sorted == [] || e.atime >= sorted[0].atime then [e] + sorted
    else [sorted[0]] + InsertNewestFirst(e, sorted[1..])
  }

  lemma {:induction false} InsertKeepsNewestFirst(e: DayEntry, sorted: seq<DayEntry>)
    requires NewestFirst(sorted)
    ensures var r := InsertNewestFirst(e, sorted);
      NewestFirst(r) && (r[0] == e || (sorted != [] && r[0] == sorted[0]))
  {
    if sorted != [] && e.atime < sorted[0].atime {
      var rest := InsertNewestFirst(e, sorted[1..]);
      InsertKeepsNewestFirst(e, sorted[1..]);
      var r := [sorted[0]] + rest;
      assert rest[0].atime <= sorted[0].atime;
      forall i, j | 0 <= i < j < |r| ensures r[i].atime >= r[j].atime {
        assert r[j] == rest[j - 1];
        if i > 0 {
          assert r[i] == rest[i - 1];
        } else {
          assert rest[j - 1].atime <= rest[0].atime;
        }
      }
    }
  }

  lemma {:induction false} InsertKeepsEntries(e: DayEntry, sorted: seq<DayEntry>)
    ensures multiset(InsertNewestFirst(e, sorted)) == multiset(sorted) + multiset{e}
  {
    if sorted != [] && e.atime < sorted[0].atime {
      InsertKeepsEntries(e, sorted[1..]);
      assert sorted == [sorted[0]] + sorted[1..];
    }
  }

  /** The entries ordered newest first; the store's order among equal atimes is not modelled. */
  function SortNewestFirst(entries: seq<DayEntry>): (r: seq<DayEntry>)
    ensures |r| == |entries|
  {
    if entries == [] then [] else InsertNewestFirst(entries[0], SortNewestFirst(entries[1..]))
  }

  /** `ORDER BY atime DESC` returns the same entries, newest first. */
  lemma {:induction false} SortIsNewestFirst(entries: seq<DayEntry>)
    ensures NewestFirst(SortNewestFirst(entries))
    ensures multiset(SortNewestFirst(entries)) == multiset(entries)
  {
    if entries != [] {
      SortIsNewestFirst(entries[1..]);
      InsertKeepsNewestFirst(entries[0], SortNewestFirst(entries[1..]));
      InsertKeepsEntries(entries[0], SortNewestFirst(entries[1..]));
      assert entries == [entries[0]] + entries[1..];
    }
  }

  lemma ClearToEmptiesOldDays(rows: seq<HistoryRow>, visits: seq<AtimeRow>, t: int, day: int)
    requires day + OneDay <= t
    ensures forall e :: e !in DayJoin(rows, VisitsAfter(visits, t), day)
  {
  }

  // ---------------------------------------------------------------------
  // Updates of single columns
  // ---------------------------------------------------------------------

  /** `set_mtime`: `UPDATE history SET mtime=? WHERE rowid=?`. */
  function WithMtime(rows: seq<HistoryRow>, id: int, mtime: int): seq<HistoryRow> {
    seq(|rows|, i requires 0 <= i < |rows| => if rows[i].id == id then rows[i].(mtime := mtime) else rows[i])
  }

  /** `set_title`: `UPDATE history SET title=? WHERE rowid=?`. */
  function WithTitle(rows: seq<HistoryRow>, id: int, title: string): seq<HistoryRow> {
    seq(|rows|, i requires 0 <= i < |rows| => if rows[i].id == id then rows[i].(title := title) else rows[i])
  }

  /** `get_ids_for_mtime(m)`: the ids of rows modified after `m`, in table order. */
  function IdsForMtime(rows: seq<HistoryRow>, mtime: int): (ids: seq<int>)
    ensures forall x :: x in ids <==> exists i :: 0 <= i < |rows| && rows[i].id == x && rows[i].mtime > mtime
  {
    if rows == [] then []
    else
      var rest := IdsForMtime(rows[1..], mtime);
      assert forall i :: 0 <= i < |rows| - 1 ==> rows[1..][i] == rows[i + 1];
      (if rows[0].mtime > mtime then [rows[0].id] else []) + rest
  }

  /** After `set_mtime(id, m)` on an existing row, `get_ids_for_mtime(s)` lists `id` exactly when `m > s`. */
  lemma SetMtimeThenSync(rows: seq<HistoryRow>, id: int, mtime: int, since: int)
    requires UniqueIds(rows)
    requires exists i :: 0 <= i < |rows| && rows[i].id == id
    ensures id in IdsForMtime(WithMtime(rows, id, mtime), since) <==> mtime > since
  {
    var after := WithMtime(rows, id, mtime);
    var k :| 0 <= k < |rows| && rows[k].id == id;
    assert after[k].id == id && after[k].mtime == mtime;
    if id in IdsForMtime(after, since) {
      var i :| 0 <= i < |after| && after[i].id == id && after[i].mtime > since;
      assert rows[i].id == id;
      assert i == k;
    }
  }

  /** After `set_title(id, title)` the row `id` carries `title`, and no other row changes. */
  lemma SetTitleChangesOneRow(rows: seq<HistoryRow>, id: int, title: string, k: nat)
    requires k < |rows| && rows[k].id == id && UniqueIds(rows)
    ensures var after := WithTitle(rows, id, title);
      after[k] == rows[k].(title := title) && forall j :: 0 <= j < |rows| && j != k ==> after[j] == rows[j]
  {
    var after := WithTitle(rows, id, title);
    forall j | 0 <= j < |rows| && j != k ensures after[j] == rows[j] {
      assert j < k ==> rows[j].id != rows[k].id;
      assert j > k ==> rows[k].id != rows[j].id;
    }
  }

  // ---------------------------------------------------------------------
  // The opened flag
  // ---------------------------------------------------------------------

  /** The rows `get_opened_pages` reads: `SELECT uri, title … WHERE opened=1`. */
  function OpenedPages(rows: seq<HistoryRow>): (pages: seq<OpenedPage>)
    ensures forall p :: p in pages <==> exists i :: 0 <= i < |rows| && rows[i].openFlag == 1 && p == OpenedPage(rows[i].uri, rows[i].title)
  {
    if rows == [] then []
    else
      var rest := OpenedPages(rows[1..]);
      assert forall i :: 0 <= i < |rows| - 1 ==> rows[1..][i] == rows[i + 1];
      (if rows[0].openFlag == 1 then [OpenedPage(rows[0].uri, rows[0].title)] else []) + rest
  }

  /** `UPDATE history SET opened=0 WHERE opened=1`, run after the read. */
  function OpenedReset(rows: seq<HistoryRow>): seq<HistoryRow> {
    seq(|rows|, i requires 0 <= i < |rows| => if rows[i].openFlag == 1 then rows[i].(openFlag := 0) else rows[i])
  }

  /** After `get_opened_pages` every opened flag is 0, so a second call returns nothing. */
  lemma OpenedResetClearsAll(rows: seq<HistoryRow>)
    requires OpenedIsFlag(rows)
    ensures forall i :: 0 <= i < |rows| ==> OpenedReset(rows)[i].openFlag == 0
    ensures OpenedPages(OpenedReset(rows)) == []
  {
    var pages := OpenedPages(OpenedReset(rows));
    if pages != [] {
      assert pages[0] in pages;
    }
  }

  /** `set_page_state(uri, None)`: `UPDATE history SET opened=0 WHERE uri=? AND opened=1`. */
  function PageClosed(rows: seq<HistoryRow>, uri: string): seq<HistoryRow> {
    seq(|rows|, i requires 0 <= i < |rows| =>
      if rows[i].uri == uri && rows[i].openFlag == 1 then rows[i].(openFlag := 0) else rows[i])
  }

  /** `set_page_state(uri, mtime)`: `UPDATE history SET opened=1 WHERE uri=? AND mtime=?`. */
  function PageOpened(rows: seq<HistoryRow>, uri: string, mtime: int): seq<HistoryRow> {
    seq(|rows|, i requires 0 <= i < |rows| =>
      if rows[i].uri == uri && rows[i].mtime == mtime then rows[i].(openFlag := 1) else rows[i])
  }

  /** Closing a page removes it from the opened pages and leaves every other page's state alone. */
  lemma PageClosedForgetsPage(rows: seq<HistoryRow>, uri: string)
    ensures forall p :: p in OpenedPages(PageClosed(rows, uri)) <==> p in OpenedPages(rows) && p.uri != uri
  {
    var after := PageClosed(rows, uri);
    forall p ensures p in OpenedPages(after) <==> p in OpenedPages(rows) && p.uri != uri {
      if p in OpenedPages(after) {
        var i :| 0 <= i < |after| && after[i].openFlag == 1 && p == OpenedPage(after[i].uri, after[i].title);
        assert rows[i].openFlag == 1 && p == OpenedPage(rows[i].uri, rows[i].title);
      }
      if p in OpenedPages(rows) && p.uri != uri {
        var i :| 0 <= i < |rows| && rows[i].openFlag == 1 && p == OpenedPage(rows[i].uri, rows[i].title);
        assert after[i] == rows[i];
      }
    }
  }

  /** Opening marks exactly the row of that URI whose mtime matches; other rows keep their state. */
  lemma PageOpenedMarksMatch(rows: seq<HistoryRow>, uri: string, mtime: int)
    ensures forall i :: 0 <= i < |rows| ==>
      (PageOpened(rows, uri, mtime)[i].openFlag == 1 <==>
        rows[i].openFlag == 1 || (rows[i].uri == uri && rows[i].mtime == mtime))
    ensures forall i :: 0 <= i < |rows| && rows[i].uri == uri && rows[i].mtime == mtime ==>
      OpenedPage(uri, rows[i].title) in OpenedPages(PageOpened(rows, uri, mtime))
  {
    var after := PageOpened(rows, uri, mtime);
    forall i | 0 <= i < |rows| && rows[i].uri == uri && rows[i].mtime == mtime
      ensures OpenedPage(uri, rows[i].title) in OpenedPages(after)
    {
      assert after[i].openFlag == 1 && after[i].uri == uri && after[i].title == rows[i].title;
    }
  }

  // ---------------------------------------------------------------------
  // Popularity
  // ---------------------------------------------------------------------

  /**
   * `reset_popularity(key)`: popularity 0 on the rows whose URI is `key` when
   * `key` parses with a scheme, otherwise on the rows whose netloc is `key`.
   */
  function PopularityReset(rows: seq<HistoryRow>, key: string, byUri: bool): seq<HistoryRow> {
    seq(|rows|, i requires 0 <= i < |rows| =>
      if (if byUri then rows[i].uri == key else rows[i].netloc == key) then rows[i].(popularity := 0) else rows[i])
  }

  /** After resetting a URI's popularity, the next `add` of that URI counts one visit. */
  lemma ResetThenRevisit(rows: seq<HistoryRow>, uri: string, title: string, netloc: string, mtime: int, guid: string)
    requires UniqueUris(rows) && exists i :: 0 <= i < |rows| && rows[i].uri == uri
    ensures var after := PopularityReset(rows, uri, true);
      var (again, id) := AddRow(after, title, uri, netloc, mtime, guid);
      exists k :: 0 <= k < |again| && again[k].id == id && again[k].uri == uri && again[k].popularity == 1
  {
    var after := PopularityReset(rows, uri, true);
    var k :| 0 <= k < |rows| && rows[k].uri == uri;
    assert UniqueUris(after) by {
      assert forall i :: 0 <= i < |rows| ==> after[i].uri == rows[i].uri;
    }
    assert after[k].uri == uri && after[k].popularity == 0;
    AddKnownUri(after, title, uri, netloc, mtime, guid, k);
  }

  // ---------------------------------------------------------------------
  // Removal
  // ---------------------------------------------------------------------

  /** `remove(id)`: `DELETE FROM history WHERE rowid=?`. */
  function WithoutId(rows: seq<HistoryRow>, id: int): (kept: seq<HistoryRow>)
    ensures |kept| <= |rows|
    ensures forall r :: r in kept <==> r in rows && r.id != id
  {
    if rows == [] then []
    else
      assert forall r :: r in rows <==> r == rows[0] || r in rows[1..];
      (if rows[0].id != id then [rows[0]] else []) + WithoutId(rows[1..], id)
  }

  /** Removing rows keeps the table valid. */
  lemma {:induction false} WithoutIdValid(rows: seq<HistoryRow>, id: int)
    requires TableValid(rows)
    ensures TableValid(WithoutId(rows, id))
  {
    if rows != [] {
      assert TableValid(rows[1..]);
      WithoutIdValid(rows[1..], id);
      var rest := WithoutId(rows[1..], id);
      forall i | 0 <= i < |rest| ensures rest[i].id != rows[0].id && rest[i].uri != rows[0].uri {
        assert rest[i] in rows[1..];
      }
    }
  }

  /**
   * The store: the two tables, and `urlparse`, which is not modelled.
   */
  class DatabaseHistory {
    var history: seq<HistoryRow>
    var atimes: seq<AtimeRow>
    const url: UrlHelpers

    ghost predicate Valid()
      reads this`history
    {
      TableValid(history)
    }

    /** A store over freshly created, empty tables. */
    constructor (url: UrlHelpers)
      ensures Valid()
      ensures history == [] && atimes == [] && this.url == url
    {
      history := [];
      atimes := [];
      this.url := url;
    }

    /** `exists_guid`. */
    method ExistsGuid(guid: string) returns (used: bool)
      ensures used <==> exists i :: 0 <= i < |history| && history[i].guid == guid
    {
      used := GuidUsed(history, guid);
    }

    /** `get_atimes(id)`. */
    method GetAtimes(id: int) returns (ts: seq<int>)
      ensures ts == AtimesOf(atimes, id)
    {
      ts := AtimesOf(atimes, id);
    }

    /**
     * `add`: nothing for an empty URI; otherwise the URI is stripped of
     * trailing '/', the row of that URI is updated or a new row inserted, and
     * each given atime (by default `[mtime]`) not already recorded for the
     * row is inserted. Returns the row's id.
     */
    method Add(title: string, uri: string, mtime: int, guid: Option<string>, atimeList: seq<int>, draws: seq<string>)
      returns (id: Option<int>)
      requires Valid()
      requires uri != [] && guid.None? && IndexOfUri(history, RStrip(uri, '/')).None?
        ==> FirstUnusedGuid(history, draws).Some?
      modifies this`history, this`atimes
      ensures Valid()
      ensures uri == [] ==> id.None? && history == old(history) && atimes == old(atimes)
      ensures uri != [] ==>
        var stripped := RStrip(uri, '/');
        var added := AddRow(old(history), title, stripped, url.netloc(stripped), mtime, NewGuid(old(history), guid, draws));
        history == added.0 && id == Some(added.1) &&
        atimes == old(atimes) + AtimeRows(added.1, NewAtimes(if atimeList == [] then [mtime] else atimeList, AtimesOf(old(atimes), added.1)))
    {
      if uri == [] {
        return None;
      }
      var stripped := RStrip(uri, '/');
      var historyId := Upsert(title, stripped, mtime, guid, draws);
      SetAtimes(historyId, if atimeList == [] then [mtime] else atimeList);
      id := Some(historyId);
    }

    /** The `history` half of `add`, for an already stripped URI. */
    method Upsert(title: string, uri: string, mtime: int, guid: Option<string>, draws: seq<string>)
      returns (id: int)
      requires Valid()
      requires guid.None? && IndexOfUri(history, uri).None? ==> FirstUnusedGuid(history, draws).Some?
      modifies this`history
      ensures Valid()
      ensures history == AddRow(old(history), title, uri, url.netloc(uri), mtime, NewGuid(old(history), guid, draws)).0
      ensures id == AddRow(old(history), title, uri, url.netloc(uri), mtime, NewGuid(old(history), guid, draws)).1
    {
      var netloc := url.netloc(uri);
      AddRowValid(history, title, uri, netloc, mtime, NewGuid(history, guid, draws));
      match IndexOfUri(history, uri) {
        case Some(k) =>
          id := history[k].id;
          var kept := history[k].guid;
          history := history[k := history[k].(uri := uri, netloc := netloc, mtime := mtime, title := title,
                                              guid := kept, popularity := history[k].popularity + 1)];
        case None =>
          var chosen := FreshGuid(guid, draws);
          id := NextId(history);
          history := history + [HistoryRow(id, title, uri, netloc, chosen, mtime, 0, 0)];
      }
    }

    /**
     * The guid loop of `add`: the supplied guid, otherwise random draws until
     * `exists_guid` reports one unused.
     */
    method FreshGuid(guid: Option<string>, draws: seq<string>) returns (chosen: string)
      requires guid.Some? || FirstUnusedGuid(history, draws).Some?
      ensures chosen == NewGuid(history, guid, draws)
      ensures guid.None? ==> !GuidUsed(history, chosen)
    {
      var found := guid;
      var k := 0;
      while found.None?
        invariant 0 <= k <= |draws|
        invariant found.None? ==> guid.None? && FirstUnusedGuid(history, draws[k..]) == FirstUnusedGuid(history, draws)
        invariant found.Some? ==> found.value == NewGuid(history, guid, draws)
        decreases |draws| - k
      {
        var candidate := draws[k];
        assert draws[k..][1..] == draws[k + 1..];
        k := k + 1;
        var used := ExistsGuid(candidate);
        if !used {
          found := Some(candidate);
        }
      }
      chosen := found.value;
    }

    /** `set_atimes(id, ts)`: inserts the times of `ts` not recorded for `id` before the call. */
    method SetAtimes(id: int, ts: seq<int>)
      modifies this`atimes
      ensures atimes == old(atimes) + AtimeRows(id, NewAtimes(ts, AtimesOf(old(atimes), id)))
    {
      var current := GetAtimes(id);
      InsertAtimes(id, ts, current);
    }

    /** The insertion loop of `set_atimes` against the snapshot `current` of the recorded atimes. */
    method InsertAtimes(id: int, ts: seq<int>, current: seq<int>)
      modifies this`atimes
      ensures atimes == old(atimes) + AtimeRows(id, NewAtimes(ts, current))
    {
      var i := 0;
      assert ts[..0] == [] && atimes == old(atimes) + AtimeRows(id, []);
      while i < |ts|
        invariant 0 <= i <= |ts|
        invariant atimes == old(atimes) + AtimeRows(id, NewAtimes(ts[..i], current))
      {
        SetAtimesStep(old(atimes), id, ts, current, i);
        if ts[i] !in current {
          atimes := atimes + [AtimeRow(id, ts[i])];
        }
        i := i + 1;
      }
      assert ts[..|ts|] == ts;
    }

    /** `remove(id)`: deletes the history row only; its atimes stay. */
    method Remove(id: int)
      requires Valid()
      modifies this`history
      ensures Valid()
      ensures history == WithoutId(old(history), id) && atimes == old(atimes)
    {
      WithoutIdValid(history, id);
      history := WithoutId(history, id);
    }

    /** `clear_from(t)`. */
    method ClearFrom(t: int)
      modifies this`atimes
      ensures atimes == VisitsBefore(old(atimes), t) && history == old(history)
    {
      atimes := VisitsBefore(atimes, t);
    }

    /** `clear_to(t)`. */
    method ClearTo(t: int)
      modifies this`atimes
      ensures atimes == VisitsAfter(old(atimes), t) && history == old(history)
    {
      atimes := VisitsAfter(atimes, t);
    }

    /** `get_from_atime(t)`. */
    method GetFromAtime(t: int) returns (ids: seq<int>)
      ensures ids == IdsFromAtime(history, atimes, t)
    {
      ids := IdsFromAtime(history, atimes, t);
    }

    /** `get_empties`. */
    method GetEmpties() returns (ids: seq<int>)
      ensures ids == Empties(history, atimes)
    {
      ids := Empties(history, atimes);
    }

    /** `get(t)`: the (row, access) pairs with the access in `[t, t + 86400]`, newest first. */
    method Get(t: int) returns (entries: seq<DayEntry>)
      ensures NewestFirst(entries)
      ensures multiset(entries) == multiset(DayJoin(history, atimes, t))
    {
      SortIsNewestFirst(DayJoin(history, atimes, t));
      entries := SortNewestFirst(DayJoin(history, atimes, t));
    }

    /** `get_id(uri)`. */
    method GetId(uri: string) returns (id: Option<int>)
      ensures id == IdOfUri(history, uri)
    {
      id := IdOfUri(history, uri);
    }

    /** `get_ids_for_mtime(m)`. */
    method GetIdsForMtime(mtime: int) returns (ids: seq<int>)
      ensures ids == IdsForMtime(history, mtime)
    {
      ids := IdsForMtime(history, mtime);
    }

    /** `set_title(id, title)`. */
    method SetTitle(id: int, title: string)
      requires Valid()
      modifies this`history
      ensures Valid()
      ensures history == WithTitle(old(history), id, title)
    {
      SameKeysValid(history, WithTitle(history, id, title));
      history := WithTitle(history, id, title);
    }

    /** `set_mtime(id, m)`. */
    method SetMtime(id: int, mtime: int)
      requires Valid()
      modifies this`history
      ensures Valid()
      ensures history == WithMtime(old(history), id, mtime)
    {
      SameKeysValid(history, WithMtime(history, id, mtime));
      history := WithMtime(history, id, mtime);
    }

    /** `get_opened_pages`: the pages marked opened; then every mark is cleared. */
    method GetOpenedPages() returns (pages: seq<OpenedPage>)
      requires Valid()
      modifies this`history
      ensures Valid()
      ensures pages == OpenedPages(old(history))
      ensures history == OpenedReset(old(history))
      ensures forall i :: 0 <= i < |history| ==> history[i].openFlag == 0
    {
      pages := OpenedPages(history);
      OpenedResetClearsAll(history);
      SameKeysValid(history, OpenedReset(history));
      history := OpenedReset(history);
    }

    /** `set_page_state(uri, mtime)`: nothing without a URI; closes the page without an mtime, opens it with one. */
    method SetPageState(uri: Option<string>, mtime: Option<int>)
      requires Valid()
      modifies this`history
      ensures Valid()
      ensures uri.None? ==> history == old(history)
      ensures uri.Some? && mtime.None? ==> history == PageClosed(old(history), RStrip(uri.value, '/'))
      ensures uri.Some? && mtime.Some? ==> history == PageOpened(old(history), RStrip(uri.value, '/'), mtime.value)
    {
      if uri.None? {
        return;
      }
      var stripped := RStrip(uri.value, '/');
      var after := if mtime.None? then PageClosed(history, stripped) else PageOpened(history, stripped, mtime.value);
      SameKeysValid(history, after);
      history := after;
    }

    /** `reset_popularity(key)`. */
    method ResetPopularity(key: string)
      requires Valid()
      modifies this`history
      ensures Valid()
      ensures history == PopularityReset(old(history), key, url.scheme(key) != [])
    {
      var after := PopularityReset(history, key, url.scheme(key) != []);
      SameKeysValid(history, after);
      history := after;
    }
  }
}
