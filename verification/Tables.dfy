// SQL tables as the container store uses them: rows under AUTOINCREMENT ids, and
// key/value child tables with UNIQUE (parent, key) (apollo/db.go, CURRENT_SCHEMA).
module Tables {
  import opened Wrappers

  datatype Table<T> = Table(rows: map<int, T>, next: int)

  ghost predicate Fresh<T>(t: Table<T>) {
    forall i :: i in t.rows ==> i < t.next
  }

  // INSERT; the new row's id is t.next (LastInsertId).
  function Insert<T>(t: Table<T>, row: T): Table<T> {
    Table(t.rows[t.next := row], t.next + 1)
  }

  // containers_config and containers_devices_config.
  datatype KeyValue = KeyValue(parent: int, key: string, value: string)

  type KeyValues = map<int, KeyValue>

  predicate IsRow(rows: KeyValues, i: int, parent: int) { i in rows && rows[i].parent == parent }

  ghost predicate UniqueKeys(rows: KeyValues) {
    forall i, j :: j in rows && IsRow(rows, i, rows[j].parent) && rows[i].key == rows[j].key ==> i == j
  }

  predicate HasKey(rows: KeyValues, parent: int, key: string) {
    exists i :: i in rows && rows[i].parent == parent && rows[i].key == key
  }

  // The rows of `parent` say exactly `m`.
  ghost predicate Reads(rows: KeyValues, parent: int, m: map<string, string>) {
    && (forall i :: IsRow(rows, i, parent) ==> rows[i].key in m && m[rows[i].key] == rows[i].value)
    && (forall k :: k in m ==> HasKey(rows, parent, k))
  }

  lemma ReadsOnce(rows: KeyValues, parent: int, m: map<string, string>, m': map<string, string>)
    requires Reads(rows, parent, m)
    requires Reads(rows, parent, m')
    ensures m == m'
  {
  }

  // The rows of `parent` are the same in both tables.
  ghost predicate SameRows(a: KeyValues, b: KeyValues, parent: int) {
    && (forall i :: IsRow(a, i, parent) ==> i in b && b[i] == a[i])
    && (forall i :: IsRow(b, i, parent) ==> i in a && a[i] == b[i])
  }

  lemma SameRowsRead(a: KeyValues, b: KeyValues, parent: int, m: map<string, string>)
    requires SameRows(a, b, parent)
    requires Reads(a, parent, m)
    ensures Reads(b, parent, m)
  {
  }

  lemma InsertReads(t: Table<KeyValue>, parent: int, key: string, value: string, m: map<string, string>)
    requires Fresh(t)
    requires UniqueKeys(t.rows)
    requires Reads(t.rows, parent, m)
    requires key !in m
    ensures var u := Insert(t, KeyValue(parent, key, value));
            && Fresh(u) && UniqueKeys(u.rows)
            && Reads(u.rows, parent, m[key := value])
            && (forall q :: q != parent ==> SameRows(t.rows, u.rows, q))
  {
    var u := Insert(t, KeyValue(parent, key, value));
    forall i | i in t.rows ensures i in u.rows && u.rows[i] == t.rows[i] {}
    forall i, j | j in u.rows && IsRow(u.rows, i, u.rows[j].parent) && u.rows[i].key == u.rows[j].key
      ensures i == j
    {
      if i != j {
        if i in t.rows { assert IsRow(t.rows, i, t.rows[i].parent); }
        if j in t.rows { assert IsRow(t.rows, j, t.rows[j].parent); }
      }
    }
    forall i | IsRow(u.rows, i, parent)
      ensures u.rows[i].key in m[key := value] && m[key := value][u.rows[i].key] == u.rows[i].value
    {
      if i != t.next { assert IsRow(t.rows, i, parent); }
    }
    forall k | k in m[key := value] ensures HasKey(u.rows, parent, k) {
      if k == key {
        assert u.rows[t.next].key == k;
      } else {
        var i :| i in t.rows && t.rows[i].parent == parent && t.rows[i].key == k;
        assert u.rows[i].key == k;
      }
    }
  }

  // The loop over the query results, in any order.
  method ReadRows(rows: KeyValues, parent: int) returns (m: map<string, string>)
    requires UniqueKeys(rows)
    ensures Reads(rows, parent, m)
  {
    m := map[];
    var results := set i | i in rows && rows[i].parent == parent;
    while results != {}
      invariant forall i :: i in results ==> IsRow(rows, i, parent)
      invariant forall i :: IsRow(rows, i, parent) && i !in results ==>
                rows[i].key in m && m[rows[i].key] == rows[i].value
      invariant forall k :: k in m ==> HasKey(rows, parent, k)
      decreases results
    {
      ghost var some := Element(results);
      var i :| i in results;
      results := results - {i};
      m := m[rows[i].key := rows[i].value];
      assert HasKey(rows, parent, rows[i].key);
    }
  }

  // INSERT under UNIQUE (parent, key), for a parent that reads `now`.
  method InsertKey(t: Table<KeyValue>, parent: int, key: string, value: string, ghost now: map<string, string>)
    returns (ok: bool, t': Table<KeyValue>)
    requires Fresh(t)
    requires UniqueKeys(t.rows)
    requires Reads(t.rows, parent, now)
    ensures ok <==> key !in now
    ensures Fresh(t') && UniqueKeys(t'.rows)
    ensures forall q :: q != parent ==> SameRows(t.rows, t'.rows, q)
    ensures ok ==> Reads(t'.rows, parent, now[key := value])
  {
    if HasKey(t.rows, parent, key) {
      return false, t;
    }
    InsertReads(t, parent, key, value, now);
    return true, Insert(t, KeyValue(parent, key, value));
  }

  // The entries of `m` that are no longer in `rest` were added to `before`, which
  // had none of them.
  ghost predicate Added(before: map<string, string>, m: map<string, string>, rest: set<string>,
                        now: map<string, string>) {
    && (forall k :: k in now <==> k in before || (k in m && k !in rest))
    && (forall k :: k in before ==> k in now && now[k] == before[k])
    && (forall k :: k in m && k !in rest ==> k in now && now[k] == m[k] && k !in before)
  }

  lemma SameRowsChain(a: KeyValues, b: KeyValues, c: KeyValues, parent: int)
    requires forall q :: q != parent ==> SameRows(a, b, q)
    requires forall q :: q != parent ==> SameRows(b, c, q)
    ensures forall q :: q != parent ==> SameRows(a, c, q)
  {
    forall q | q != parent ensures SameRows(a, c, q) {
      assert SameRows(a, b, q) && SameRows(b, c, q);
    }
  }

  // One INSERT per entry of `m`, in any order; a duplicate (parent, key) stops it.
  // The rows of `parent` read `before` at first.
  method InsertAll(t: Table<KeyValue>, parent: int, m: map<string, string>, ghost before: map<string, string>)
    returns (ok: bool, t': Table<KeyValue>)
    requires Fresh(t)
    requires UniqueKeys(t.rows)
    requires Reads(t.rows, parent, before)
    ensures ok <==> before.Keys !! m.Keys
    ensures Fresh(t') && UniqueKeys(t'.rows)
    ensures forall q :: q != parent ==> SameRows(t.rows, t'.rows, q)
    ensures ok ==> Reads(t'.rows, parent, before + m)
  {
    t' := t;
    var rest := m.Keys;
    ghost var now := before;
    while rest != {}
      invariant rest <= m.Keys
      invariant Fresh(t') && UniqueKeys(t'.rows)
      invariant forall q :: q != parent ==> SameRows(t.rows, t'.rows, q)
      invariant Reads(t'.rows, parent, now)
      invariant Added(before, m, rest, now)
      decreases rest
    {
      var k :| k in rest;
      ghost var was := t'.rows;
      ok, t' := InsertKey(t', parent, k, m[k], now);
      SameRowsChain(t.rows, was, t'.rows, parent);
      if !ok {
        assert k in before.Keys && k in m.Keys;
        return;
      }
      rest := rest - {k};
      now := now[k := m[k]];
    }
    ok := true;
  }
}
