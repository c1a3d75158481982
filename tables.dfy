/**
 * The rule tables of the ad-block store, each a sequence of rows in rowid
 * order. A row carries its key (the columns the store looks it up by) and
 * the epoch (`mtime`) of the last pass that saw it.
 */
module Tables {

  datatype Row<K> = Row(key: K, mtime: int)

  /** At most one row per key. */
  ghost predicate UniqueKeys<K>(rows: seq<Row<K>>) {
    forall i, j :: 0 <= i < j < |rows| ==> rows[i].key != rows[j].key
  }

  function Keys<K(==)>(rows: seq<Row<K>>): (ks: set<K>)
    ensures forall i :: 0 <= i < |rows| ==> rows[i].key in ks
    ensures forall k :: k in ks ==> exists i :: 0 <= i < |rows| && rows[i].key == k
  {
    if rows == [] then {}
    else
      var ks := Keys(rows[..|rows| - 1]) + {rows[|rows| - 1].key};
      assert forall i :: 0 <= i < |rows| - 1 ==> rows[..|rows| - 1][i] == rows[i];
      ks
  }

  /** `UPDATE … SET mtime=? WHERE key=?`: every row with the key gets the epoch. */
  function Restamp<K(==)>(rows: seq<Row<K>>, key: K, epoch: int): (r: seq<Row<K>>)
    ensures |r| == |rows|
    ensures forall i :: 0 <= i < |rows| ==> r[i] == if rows[i].key == key then Row(key, epoch) else rows[i]
  {
    if rows == [] then []
    else [if rows[0].key == key then Row(key, epoch) else rows[0]] + Restamp(rows[1..], key, epoch)
  }

  /** `SELECT rowid … WHERE key=?` finds a row. */
  predicate HasKey<K(==)>(rows: seq<Row<K>>, key: K) {
    rows != [] && (rows[0].key == key || HasKey(rows[1..], key))
  }

  /** The lookup finds a row exactly for the keys of the table. */
  lemma {:induction false} HasKeyIsKey<K>(rows: seq<Row<K>>, key: K)
    ensures HasKey(rows, key) <==> key in Keys(rows)
  {
    if rows != [] {
      HasKeyIsKey(rows[1..], key);
      if key in Keys(rows) && rows[0].key != key {
        var i :| 0 <= i < |rows| && rows[i].key == key;
        assert rows[1..][i - 1].key == key;
      }
    }
  }

  /**
   * The select-then-insert-or-update of `__add_netloc`, `__add_regex` and
   * `__add_regex_domain`: a new key is appended with the epoch, a known
   * key has its rows restamped.
   */
  function Upsert<K(==)>(rows: seq<Row<K>>, key: K, epoch: int): seq<Row<K>> {
    if HasKey(rows, key) then Restamp(rows, key, epoch) else rows + [Row(key, epoch)]
  }

  /**
   * After an upsert the key is present, every row with it carries the
   * epoch, a row is added exactly when the key was new, and no other row
   * changes.
   */
  lemma UpsertFacts<K>(rows: seq<Row<K>>, key: K, epoch: int)
    ensures var r := Upsert(rows, key, epoch);
      && Keys(r) == Keys(rows) + {key}
      && |r| == (if key in Keys(rows) then |rows| else |rows| + 1)
      && (forall i :: 0 <= i < |r| && r[i].key == key ==> r[i].mtime == epoch)
      && (forall i :: 0 <= i < |rows| ==> r[i].key == rows[i].key && (rows[i].key != key ==> r[i] == rows[i]))
  {
    var r := Upsert(rows, key, epoch);
    HasKeyIsKey(rows, key);
    if key in Keys(rows) {
      assert r == Restamp(rows, key, epoch);
      SameKeys(rows, r);
    } else {
      assert r == rows + [Row(key, epoch)];
      assert r[..|rows|] == rows;
    }
  }

  /** The upsert keeps the table at one row per key. */
  lemma UpsertKeepsUnique<K>(rows: seq<Row<K>>, key: K, epoch: int)
    requires UniqueKeys(rows)
    ensures UniqueKeys(Upsert(rows, key, epoch))
  {
    var r := Upsert(rows, key, epoch);
    UpsertFacts(rows, key, epoch);
    if key !in Keys(rows) {
      assert forall i :: 0 <= i < |rows| ==> r[i] == rows[i] && rows[i].key != key;
    }
  }

  /** An upsert loses no key and keeps the table at one row per key. */
  lemma UpsertGrows<K>(rows: seq<Row<K>>, key: K, epoch: int)
    ensures Keys(rows) <= Keys(Upsert(rows, key, epoch))
    ensures UniqueKeys(rows) ==> UniqueKeys(Upsert(rows, key, epoch))
  {
    UpsertFacts(rows, key, epoch);
    if UniqueKeys(rows) {
      UpsertKeepsUnique(rows, key, epoch);
    }
  }

  /** Two tables with the same key in every position have the same keys. */
  lemma SameKeys<K>(a: seq<Row<K>>, b: seq<Row<K>>)
    requires |a| == |b| && forall i :: 0 <= i < |a| ==> a[i].key == b[i].key
    ensures Keys(a) == Keys(b)
  {
    forall k | k in Keys(a) ensures k in Keys(b) {
      var i :| 0 <= i < |a| && a[i].key == k;
    }
    forall k | k in Keys(b) ensures k in Keys(a) {
      var i :| 0 <= i < |b| && b[i].key == k;
    }
  }

  /** `DELETE … WHERE mtime!=?`: only the rows stamped with the epoch stay, in order. */
  function Prune<K(==)>(rows: seq<Row<K>>, epoch: int): (r: seq<Row<K>>)
    ensures forall i :: 0 <= i < |r| ==> r[i].mtime == epoch
    ensures forall i :: 0 <= i < |r| ==> r[i] in rows
    ensures forall i :: 0 <= i < |rows| && rows[i].mtime == epoch ==> rows[i] in r
    ensures |r| <= |rows|
  {
    if rows == [] then []
    else (if rows[0].mtime == epoch then [rows[0]] else []) + Prune(rows[1..], epoch)
  }

  /** The keys whose row carries the epoch. */
  function StampedKeys<K(==)>(rows: seq<Row<K>>, epoch: int): (ks: set<K>)
    ensures ks <= Keys(rows)
  {
    set i | 0 <= i < |rows| && rows[i].mtime == epoch :: rows[i].key
  }

  /** Pruning keeps exactly the keys stamped with the epoch, one row each when keys were unique. */
  lemma PruneKeys<K>(rows: seq<Row<K>>, epoch: int)
    ensures Keys(Prune(rows, epoch)) == StampedKeys(rows, epoch)
    ensures UniqueKeys(rows) ==> UniqueKeys(Prune(rows, epoch))
  {
    var p := Prune(rows, epoch);
    forall k | k in StampedKeys(rows, epoch) ensures k in Keys(p) {
      var i :| 0 <= i < |rows| && rows[i].mtime == epoch && rows[i].key == k;
      assert rows[i] in p;
    }
    forall k | k in Keys(p) ensures k in StampedKeys(rows, epoch) {
      var i :| 0 <= i < |p| && p[i].key == k;
      assert p[i] in rows;
    }
    if UniqueKeys(rows) {
      PruneUnique(rows, epoch);
    }
  }

  lemma {:induction false} PruneUnique<K>(rows: seq<Row<K>>, epoch: int)
    requires UniqueKeys(rows)
    ensures UniqueKeys(Prune(rows, epoch))
  {
    if rows != [] {
      PruneUnique(rows[1..], epoch);
      var rest := Prune(rows[1..], epoch);
      forall i | 0 <= i < |rest| ensures rest[i].key != rows[0].key {
        var j :| 0 <= j < |rows[1..]| && rows[1..][j] == rest[i];
        assert rows[j + 1] == rest[i];
      }
    }
  }

  /** A row appended after the others is kept exactly when it carries the epoch. */
  lemma {:induction false} PruneSnoc<K>(rows: seq<Row<K>>, row: Row<K>, epoch: int)
    ensures Prune(rows + [row], epoch) == Prune(rows, epoch) + (if row.mtime == epoch then [row] else [])
  {
    if rows != [] {
      assert (rows + [row])[1..] == rows[1..] + [row];
      PruneSnoc(rows[1..], row, epoch);
    }
  }

  /** Pruning twice with the same epoch changes nothing more. */
  lemma PruneIdempotent<K>(rows: seq<Row<K>>, epoch: int)
    ensures Prune(Prune(rows, epoch), epoch) == Prune(rows, epoch)
  {
    PruneAllStamped(Prune(rows, epoch), epoch);
  }

  lemma {:induction false} PruneAllStamped<K>(rows: seq<Row<K>>, epoch: int)
    requires forall i :: 0 <= i < |rows| ==> rows[i].mtime == epoch
    ensures Prune(rows, epoch) == rows
  {
    if rows != [] {
      PruneAllStamped(rows[1..], epoch);
    }
  }

  /**
   * Reconciliation: a key upserted in the pass with epoch `epoch` survives
   * the prune at the end of that pass, and the upsert revives no other key.
   */
  lemma UpsertSurvivesPrune<K>(rows: seq<Row<K>>, key: K, epoch: int)
    ensures StampedKeys(Upsert(rows, key, epoch), epoch) == StampedKeys(rows, epoch) + {key}
  {
    var r := Upsert(rows, key, epoch);
    UpsertFacts(rows, key, epoch);
    forall k | k in StampedKeys(r, epoch) ensures k in StampedKeys(rows, epoch) + {key} {
      var i :| 0 <= i < |r| && r[i].mtime == epoch && r[i].key == k;
      if k != key {
        assert r[i] == rows[i];
      }
    }
    forall k | k in StampedKeys(rows, epoch) + {key} ensures k in StampedKeys(r, epoch) {
      if k == key {
        assert key in Keys(r);
        var i :| 0 <= i < |r| && r[i].key == key;
      } else {
        var i :| 0 <= i < |rows| && rows[i].mtime == epoch && rows[i].key == k;
        assert r[i] == rows[i];
      }
    }
  }
}
