/** The database of the host, as its C interface describes it: a primary table and one table for
    each secondary index. Every row has one handle for as long as it exists. */
module HostDatabase {

  /** A record: its primary key, what each index extracts from it, and the rest of its bytes. */
  datatype Row = Row(pk: nat, keys: seq<nat>, data: nat)

  datatype Slot<V> = Slot(handle: int, value: V)

  /** From primary keys to handles and values. */
  type Table<V> = map<nat, Slot<V>>

  type Index = Table<nat>

  datatype Entry = Entry(sk: nat, pk: nat)

  /** Rows of an index are ordered by secondary key, and by primary key among equals. */
  predicate Before(a: Entry, b: Entry) { a.sk < b.sk || (a.sk == b.sk && a.pk < b.pk) }

  function At(t: Index, pk: nat): Entry
    requires pk in t
  {
    Entry(t[pk].value, pk)
  }

  /** The first row that is not before `from`. */
  predicate IsFirst(t: Index, from: Entry, pk: nat) {
    pk in t && !Before(At(t, pk), from) && forall q :: q in t && !Before(At(t, q), from) ==>
      q == pk || Before(At(t, pk), At(t, q))
  }

  predicate NoneFrom(t: Index, from: Entry) { forall q :: q in t ==> Before(At(t, q), from) }

  /** The last row that is before `upto`. */
  predicate IsLast(t: Index, upto: Entry, pk: nat) {
    pk in t && Before(At(t, pk), upto) && forall q :: q in t && Before(At(t, q), upto) ==>
      q == pk || Before(At(t, q), At(t, pk))
  }

  predicate NoneBefore(t: Index, upto: Entry) { forall q :: q in t ==> !Before(At(t, q), upto) }

  /** The last row of a table. */
  predicate IsGreatest(t: Index, pk: nat) { pk in t && forall q :: q in t ==> q == pk || Before(At(t, q), At(t, pk)) }

  // ----- what these say of the keys themselves -----

  /** The row at or after a secondary key, by its secondary key first and then by its primary key. */
  lemma FirstIs(t: Index, sk: nat, pk: nat)
    requires pk in t
    ensures IsFirst(t, Entry(sk, 0), pk) <==>
              t[pk].value >= sk && forall q :: q in t && t[q].value >= sk ==>
                t[pk].value < t[q].value || (t[pk].value == t[q].value && pk <= q)
    ensures NoneFrom(t, Entry(sk, 0)) <==> forall q :: q in t ==> t[q].value < sk
  {
  }

  /** The neighbours of a row: among those with the same secondary key the next larger or smaller primary key,
      and otherwise the next secondary key. */
  lemma NeighboursAre(t: Index, x: nat, pk: nat)
    requires x in t && pk in t
    ensures IsFirst(t, After(At(t, x)), pk) <==>
              && (t[x].value < t[pk].value || (t[x].value == t[pk].value && x < pk))
              && forall q :: q in t && (t[x].value < t[q].value || (t[x].value == t[q].value && x < q)) ==>
                   t[pk].value < t[q].value || (t[pk].value == t[q].value && pk <= q)
    ensures IsLast(t, At(t, x), pk) <==>
              && (t[pk].value < t[x].value || (t[pk].value == t[x].value && pk < x))
              && forall q :: q in t && (t[q].value < t[x].value || (t[q].value == t[x].value && q < x)) ==>
                   t[q].value < t[pk].value || (t[q].value == t[pk].value && q <= pk)
  {
    forall q | q in t ensures !Before(At(t, q), After(At(t, x))) <==>
                              t[x].value < t[q].value || (t[x].value == t[q].value && x < q)
    {
    }
  }

  /** The last row has the largest secondary key, and the largest primary key among those. */
  lemma LastIs(t: Index, pk: nat)
    requires pk in t
    ensures IsGreatest(t, pk) <==> forall q :: q in t ==>
              t[q].value < t[pk].value || (t[q].value == t[pk].value && q <= pk)
  {
  }

  function After(e: Entry): Entry { Entry(e.sk, e.pk + 1) }

  function Put(t: Index, pk: nat, handle: int, sk: nat): Index { t[pk := Slot(handle, sk)] }

  ghost predicate Handles<V>(t: Table<V>) {
    && (forall p :: p in t ==> t[p].handle >= 0)
    && (forall p, q :: p in t && q in t && t[p].handle == t[q].handle ==> p == q)
  }

  /** The primary table in the order of its keys. */
  function ByPrimary(t: Table<Row>): Index { map p | p in t :: Slot(t[p].handle, p) }

  lemma {:induction false} FirstExists(t: Index, from: Entry)
    requires !NoneFrom(t, from)
    ensures exists p: nat :: IsFirst(t, from, p)
    decreases t.Keys
  {
    var k :| k in t && !Before(At(t, k), from);
    var rest := t - {k};
    assert rest.Keys < t.Keys;
    assert forall q :: q in rest ==> At(rest, q) == At(t, q);
    if NoneFrom(rest, from) {
      forall q | q in t && !Before(At(t, q), from) ensures q == k { assert q in rest || q == k; }
      assert IsFirst(t, from, k);
    } else {
      FirstExists(rest, from);
      var m: nat :| IsFirst(rest, from, m);
      assert At(rest, m) == At(t, m);
      var best := if Before(At(t, k), At(t, m)) then k else m;
      forall q | q in t && !Before(At(t, q), from) ensures q == best || Before(At(t, best), At(t, q)) {
        if q != k { assert q in rest && At(rest, q) == At(t, q); }
      }
      assert IsFirst(t, from, best);
    }
  }

  lemma {:induction false} LastExists(t: Index, upto: Entry)
    requires !NoneBefore(t, upto)
    ensures exists p: nat :: IsLast(t, upto, p)
    decreases t.Keys
  {
    var k :| k in t && Before(At(t, k), upto);
    var rest := t - {k};
    assert rest.Keys < t.Keys;
    assert forall q :: q in rest ==> At(rest, q) == At(t, q);
    if NoneBefore(rest, upto) {
      forall q | q in t && Before(At(t, q), upto) ensures q == k { assert q in rest || q == k; }
      assert IsLast(t, upto, k);
    } else {
      LastExists(rest, upto);
      var m: nat :| IsLast(rest, upto, m);
      assert At(rest, m) == At(t, m);
      var best := if Before(At(t, m), At(t, k)) then k else m;
      forall q | q in t && Before(At(t, q), upto) ensures q == best || Before(At(t, q), At(t, best)) {
        if q != k { assert q in rest && At(rest, q) == At(t, q); }
      }
      assert IsLast(t, upto, best);
    }
  }

  lemma {:induction false} GreatestExists(t: Index)
    requires t.Keys != {}
    ensures exists p: nat :: IsGreatest(t, p)
    decreases t.Keys
  {
    var k :| k in t;
    var rest := t - {k};
    if rest.Keys == {} {
      forall q | q in t ensures q == k { assert q in rest || q == k; }
      assert IsGreatest(t, k);
    } else {
      assert rest.Keys < t.Keys;
      GreatestExists(rest);
      var m: nat :| IsGreatest(rest, m);
      var best := if Before(At(t, m), At(t, k)) then k else m;
      forall q | q in t ensures q == best || Before(At(t, q), At(t, best)) {
        if q != k { assert q in rest && At(rest, q) == At(t, q); }
      }
      assert IsGreatest(t, best);
    }
  }

  // ----- the lookups of one table -----

  method Locate<V>(t: Table<V>, h: int, ghost pk: nat) returns (p: nat)
    requires Handles(t) && pk in t && t[pk].handle == h
    ensures p == pk
  {
    p :| p in t && t[p].handle == h;
  }

  method FindPrimary<V>(t: Table<V>, pk: nat) returns (h: int)
    requires Handles(t)
    ensures pk in t ==> h == t[pk].handle
    ensures pk !in t ==> h < 0
  {
    h := if pk in t then t[pk].handle else -2;
  }

  method LowerBound(t: Index, sk: nat) returns (h: int, pk: nat)
    requires Handles(t)
    ensures h < 0 <==> NoneFrom(t, Entry(sk, 0))
    ensures h >= 0 ==> IsFirst(t, Entry(sk, 0), pk) && h == t[pk].handle
  {
    if NoneFrom(t, Entry(sk, 0)) { return -2, 0; }
    FirstExists(t, Entry(sk, 0));
    pk :| pk in t && IsFirst(t, Entry(sk, 0), pk);
    h := t[pk].handle;
  }

  method UpperBound(t: Index, sk: nat) returns (h: int, pk: nat)
    requires Handles(t)
    ensures h < 0 <==> NoneFrom(t, Entry(sk + 1, 0))
    ensures h >= 0 ==> IsFirst(t, Entry(sk + 1, 0), pk) && h == t[pk].handle
  {
    h, pk := LowerBound(t, sk + 1);
  }

  method Next(t: Index, itr: int, ghost row: nat) returns (h: int, pk: nat)
    requires Handles(t) && row in t && t[row].handle == itr
    ensures h < 0 <==> NoneFrom(t, After(At(t, row)))
    ensures h >= 0 ==> IsFirst(t, After(At(t, row)), pk) && h == t[pk].handle
  {
    var p := Locate(t, itr, row);
    var from := After(At(t, p));
    if NoneFrom(t, from) { return -2, 0; }
    FirstExists(t, from);
    pk :| pk in t && IsFirst(t, from, pk);
    h := t[pk].handle;
  }

  method Previous(t: Index, itr: int, ghost row: nat) returns (h: int, pk: nat)
    requires Handles(t) && row in t && t[row].handle == itr
    ensures h < 0 <==> NoneBefore(t, At(t, row))
    ensures h >= 0 ==> IsLast(t, At(t, row), pk) && h == t[pk].handle
  {
    var p := Locate(t, itr, row);
    if NoneBefore(t, At(t, p)) { return -1, 0; }
    LastExists(t, At(t, p));
    pk :| pk in t && IsLast(t, At(t, p), pk);
    h := t[pk].handle;
  }

  /** The row before the end; -1 for an empty table. */
  method PreviousOfEnd(t: Index) returns (h: int, pk: nat)
    requires Handles(t)
    ensures h < 0 <==> t.Keys == {}
    ensures h >= 0 ==> IsGreatest(t, pk) && h == t[pk].handle
  {
    if t.Keys == {} { return -1, 0; }
    GreatestExists(t);
    pk :| pk in t && IsGreatest(t, pk);
    h := t[pk].handle;
  }

  // ----- the database -----

  function Records(rows: Table<Row>): map<nat, Row> { map p | p in rows :: rows[p].value }

  /** Index n holds exactly the pair (n-th key of the row, primary key) of every row. */
  ghost predicate Exact(rows: Table<Row>, t: Index, n: nat) {
    && t.Keys == rows.Keys
    && forall p :: p in rows ==> n < |rows[p].value.keys| && t[p].value == rows[p].value.keys[n]
  }

  ghost predicate Consistent(rows: Table<Row>, indexes: seq<Index>, k: nat) {
    && |indexes| == k
    && (forall n :: 0 <= n < k ==> Exact(rows, indexes[n], n))
    && forall p :: p in rows ==> |rows[p].value.keys| == k
  }

  class Database {
    var rows: Table<Row>
    var indexes: seq<Index>
    var nextHandle: nat

    /** The records by primary key. */
    function View(): map<nat, Row>
      reads this
    {
      Records(rows)
    }

    /** Handles are not shared and every one handed out is below `nextHandle`. */
    ghost predicate Valid()
      reads this
    {
      && Handles(rows) && (forall p :: p in rows ==> rows[p].handle < nextHandle && rows[p].value.pk == p)
      && (forall n :: 0 <= n < |indexes| ==> Handles(indexes[n]))
      && (forall n, p :: 0 <= n < |indexes| && p in indexes[n] ==> indexes[n][p].handle < nextHandle)
    }

    constructor (k: nat)
      ensures Valid() && rows == map[] && Consistent(rows, indexes, k)
    {
      rows := map[];
      indexes := seq(k, _ => map[]);
      nextHandle := 0;
    }

    method Store(row: Row) returns (h: int)
      requires Valid()
      modifies this`rows, this`nextHandle
      ensures Valid()
      ensures h < 0 <==> row.pk in old(rows)
      ensures h < 0 ==> rows == old(rows)
      ensures h >= 0 ==> rows == old(rows)[row.pk := Slot(h, row)]
    {
      if row.pk in rows { return -1; }
      h := nextHandle;
      nextHandle := nextHandle + 1;
      rows := rows[row.pk := Slot(h, row)];
    }

    method Update(itr: int, row: Row, ghost pk: nat)
      requires Valid() && pk in rows && rows[pk].handle == itr && row.pk == pk
      modifies this`rows
      ensures Valid() && rows == old(rows)[pk := Slot(itr, row)]
    {
      var p := Locate(rows, itr, pk);
      rows := rows[p := Slot(itr, row)];
    }

    method Remove(itr: int, ghost pk: nat)
      requires Valid() && pk in rows && rows[pk].handle == itr
      modifies this`rows
      ensures Valid() && rows == old(rows) - {pk}
    {
      var p := Locate(rows, itr, pk);
      rows := rows - {p};
    }

    method Get(itr: int, ghost pk: nat) returns (row: Row)
      requires Valid() && pk in rows && rows[pk].handle == itr
      ensures row == rows[pk].value
    {
      var p := Locate(rows, itr, pk);
      row := rows[p].value;
    }

    method IndexStore(n: nat, pk: nat, sk: nat) returns (h: int)
      requires Valid() && n < |indexes| && pk !in indexes[n]
      modifies this`indexes, this`nextHandle
      ensures Valid() && h >= 0 && indexes == old(indexes)[n := Put(old(indexes[n]), pk, h, sk)]
    {
      h := nextHandle;
      nextHandle := nextHandle + 1;
      indexes := indexes[n := Put(indexes[n], pk, h, sk)];
    }

    method IndexUpdate(n: nat, itr: int, sk: nat, ghost pk: nat)
      requires Valid() && n < |indexes| && pk in indexes[n] && indexes[n][pk].handle == itr
      modifies this`indexes
      ensures Valid() && indexes == old(indexes)[n := Put(old(indexes[n]), pk, itr, sk)]
    {
      var p := Locate(indexes[n], itr, pk);
      indexes := indexes[n := Put(indexes[n], p, itr, sk)];
    }

    method IndexRemove(n: nat, itr: int, ghost pk: nat)
      requires Valid() && n < |indexes| && pk in indexes[n] && indexes[n][pk].handle == itr
      modifies this`indexes
      ensures Valid() && indexes == old(indexes)[n := old(indexes[n]) - {pk}]
    {
      var p := Locate(indexes[n], itr, pk);
      indexes := indexes[n := indexes[n] - {p}];
    }
  }
}
