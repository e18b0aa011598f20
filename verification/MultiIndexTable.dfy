/** The object cache over the host's tables: rows, primary handles and lazily found index handles. */
module MultiIndexTable {
  import opened HostDatabase

  const NO_AVAILABLE: nat := 0xFFFF_FFFF_FFFF_FFFE
  const UNSET: nat := 0xFFFF_FFFF_FFFF_FFFF

  /** One above the largest of the keys, and 0 for none; the reserved value when that is no longer below it. */
  ghost predicate NextAbove(keys: set<nat>, next: nat) {
    if exists p :: p in keys && p + 1 >= NO_AVAILABLE then next == NO_AVAILABLE
    else (forall p :: p in keys ==> p < next) && (next == 0 || next - 1 in keys)
  }

  lemma NextAboveAdd(keys: set<nat>, next: nat, pk: nat, next': nat)
    requires NextAbove(keys, next)
    requires if pk < next then next' == next else next' == if pk + 1 < NO_AVAILABLE then pk + 1 else NO_AVAILABLE
    ensures NextAbove(keys + {pk}, next')
  {
    if p :| p in keys && p + 1 >= NO_AVAILABLE {
      assert p in keys + {pk};
    } else if pk + 1 >= NO_AVAILABLE {
      assert pk in keys + {pk};
    }
  }

  class Item {
    var row: Row
    const primaryItr: int
    var iters: seq<int>

    constructor (row: Row, primaryItr: int, iters: seq<int>)
      ensures this.row == row && this.primaryItr == primaryItr && this.iters == iters
    {
      this.row, this.primaryItr, this.iters := row, primaryItr, iters;
    }
  }

  class MultiIndex {
    const db: Database
    const indexCount: nat
    var items: seq<Item>
    var nextPrimaryKey: nat

    ghost function Cached(): set<Item>
      reads `items
    {
      set x | x in items
    }

    /** A cached item equals its stored row, and each of its handles is right or not looked up yet. */
    ghost predicate ItemOk(x: Item)
      reads db, x
    {
      && |db.indexes| == indexCount
      && x.row.pk in db.rows && db.rows[x.row.pk] == Slot(x.primaryItr, x.row)
      && |x.iters| == indexCount
      && forall n :: 0 <= n < indexCount && x.iters[n] != -1 ==>
        x.row.pk in db.indexes[n] && db.indexes[n][x.row.pk].handle == x.iters[n]
    }

    ghost predicate Tables()
      reads db
    {
      db.Valid() && Consistent(db.rows, db.indexes, indexCount)
    }

    /** The next automatic key is past every key in use, whenever it is known. */
    ghost predicate NextOk()
      reads `nextPrimaryKey, db
    {
      && (nextPrimaryKey <= NO_AVAILABLE || nextPrimaryKey == UNSET)
      && (nextPrimaryKey < NO_AVAILABLE ==> forall p :: p in db.rows ==> p < nextPrimaryKey)
    }

    ghost predicate CacheOk()
      reads `items, db, Cached()
    {
      && (forall x :: x in items ==> ItemOk(x))
      && (forall i, j :: 0 <= i < j < |items| ==> items[i].row.pk != items[j].row.pk)
    }

    ghost predicate Valid()
      reads this, db, Cached()
    {
      Tables() && NextOk() && CacheOk()
    }

    constructor (db: Database, indexCount: nat)
      requires db.Valid() && Consistent(db.rows, db.indexes, indexCount)
      ensures Valid() && this.db == db && this.indexCount == indexCount && items == [] && nextPrimaryKey == UNSET
    {
      this.db, this.indexCount := db, indexCount;
      items, nextPrimaryKey := [], UNSET;
    }

    /** What every operation that only reads keeps: cached items stay, new ones are appended. */
    twostate predicate Grown()
      reads this, Cached()
    {
      && |old(items)| <= |items| && items[..|old(items)|] == old(items)
      && (forall x :: x in old(items) ==> x.row == old(x.row))
      && fresh(Cached() - old(Cached()))
    }

    lemma TableHandles()
      requires Tables()
      ensures db.Valid() && Handles(db.rows) && |db.indexes| == indexCount
      ensures forall p :: p in db.rows ==> db.rows[p].value.pk == p && |db.rows[p].value.keys| == indexCount
      ensures forall n :: 0 <= n < indexCount ==> Handles(db.indexes[n]) && db.indexes[n].Keys == db.rows.Keys
    {
      forall n | 0 <= n < indexCount
        ensures Handles(db.indexes[n]) && db.indexes[n].Keys == db.rows.Keys
      {
        assert Exact(db.rows, db.indexes[n], n);
      }
    }

    lemma TableConsistent()
      requires Tables()
      ensures Consistent(db.rows, db.indexes, indexCount)
      ensures db.View() == Records(db.rows) && forall p :: p in db.View() <==> p in db.rows
    {
    }

    lemma TablesIntro()
      requires db.Valid() && Consistent(db.rows, db.indexes, indexCount)
      ensures Tables()
    {
    }

    method LoadObjectByPrimaryIterator(itr: int, ghost pk: nat) returns (x: Item)
      requires Valid() && pk in db.rows && db.rows[pk].handle == itr
      modifies this`items
      ensures Valid() && Grown() && x in items && x.row.pk == pk && x.primaryItr == itr
      ensures nextPrimaryKey == old(nextPrimaryKey)
    {
      hide Tables, NextOk;
      TableHandles();
      var i := |items|;
      while i > 0
        invariant 0 <= i <= |items|
        invariant forall j :: i <= j < |items| ==> items[j].primaryItr != itr
      {
        i := i - 1;
        if items[i].primaryItr == itr {
          assert ItemOk(items[i]);
          return items[i];
        }
      }
      assert forall j :: 0 <= j < |items| ==> ItemOk(items[j]) && items[j].row.pk != pk;
      var row := db.Get(itr, pk);
      x := new Item(row, itr, seq(indexCount, _ => -1));
      items := items + [x];
    }

    method Find(pk: nat) returns (x: Item?)
      requires Valid()
      modifies this`items
      ensures Valid() && Grown() && nextPrimaryKey == old(nextPrimaryKey)
      ensures x == null <==> pk !in db.View()
      ensures x != null ==> x in items && x.row == db.View()[pk] && x.row.pk == pk
    {
      hide Tables, NextOk;
      TableHandles();
      var i := |items|;
      while i > 0
        invariant 0 <= i <= |items|
        invariant forall j :: i <= j < |items| ==> items[j].row.pk != pk
      {
        i := i - 1;
        if items[i].row.pk == pk {
          assert ItemOk(items[i]);
          return items[i];
        }
      }
      var itr := FindPrimary(db.rows, pk);
      if itr < 0 { return null; }
      x := LoadObjectByPrimaryIterator(itr, pk);
    }

    // ----- iterators of secondary index n; null is the end -----

    method SetIterator(x: Item, n: nat, itr: int)
      requires Valid() && x in items && n < indexCount
      requires x.row.pk in db.indexes[n] && itr == db.indexes[n][x.row.pk].handle
      modifies x`iters
      ensures Valid() && x.iters == old(x.iters)[n := itr]
    {
      hide Tables, NextOk;
      assert ItemOk(x);
      x.iters := x.iters[n := itr];
    }

    /** The handle of a cached item in an index, looked up on the first use. */
    method IndexIterator(x: Item, n: nat) returns (itr: int)
      requires Valid() && x in items && n < indexCount
      modifies x`iters
      ensures Valid() && x.row.pk in db.indexes[n] && itr == db.indexes[n][x.row.pk].handle && |x.iters| == indexCount
      ensures x.iters[n] == itr
      ensures forall m :: 0 <= m < indexCount && m != n ==> x.iters[m] == old(x.iters[m])
    {
      hide Tables, NextOk;
      TableHandles();
      assert ItemOk(x);
      if x.iters[n] == -1 {
        itr := FindPrimary(db.indexes[n], x.row.pk);
        SetIterator(x, n, itr);
      }
      itr := x.iters[n];
    }

    method IndexItem(n: nat, itr: int, pk: nat) returns (r: Item)
      requires Valid() && n < indexCount && pk in db.indexes[n] && db.indexes[n][pk].handle == itr
      modifies this`items, Cached()`iters
      ensures Valid() && Grown() && nextPrimaryKey == old(nextPrimaryKey)
      ensures r in items && r.row.pk == pk
    {
      hide Tables, NextOk;
      TableHandles();
      r := Find(pk);
      SetIterator(r, n, itr);
    }

    method IndexNext(n: nat, x: Item) returns (r: Item?)
      requires Valid() && n < indexCount && x in items
      modifies this`items, Cached()`iters
      ensures Valid() && Grown() && nextPrimaryKey == old(nextPrimaryKey) && x.row.pk in db.indexes[n]
      ensures r == null <==> NoneFrom(db.indexes[n], After(At(db.indexes[n], x.row.pk)))
      ensures r != null ==> r in items && IsFirst(db.indexes[n], After(At(db.indexes[n], x.row.pk)), r.row.pk)
    {
      hide Tables, NextOk;
      TableHandles();
      var itr := IndexIterator(x, n);
      var next, pk := Next(db.indexes[n], itr, x.row.pk);
      if next < 0 { return null; }
      r := IndexItem(n, next, pk);
    }

    method IndexPrevious(n: nat, x: Item?) returns (ok: bool, r: Item?)
      requires Valid() && n < indexCount && (x == null || x in items)
      modifies this`items, Cached()`iters
      ensures Valid() && Grown() && nextPrimaryKey == old(nextPrimaryKey)
      ensures ok ==> r != null && r in items
      ensures x == null ==> (ok <==> db.rows.Keys != {}) && (ok ==> IsGreatest(db.indexes[n], r.row.pk))
      ensures x != null ==>
                && x.row.pk in db.indexes[n]
                && (ok <==> !NoneBefore(db.indexes[n], At(db.indexes[n], x.row.pk)))
                && (ok ==> IsLast(db.indexes[n], At(db.indexes[n], x.row.pk), r.row.pk))
    {
      hide Tables, NextOk, IsGreatest, IsLast, NoneBefore;
      TableHandles();
      var itr, pk;
      if x == null {
        itr, pk := PreviousOfEnd(db.indexes[n]);
      } else {
        var here := IndexIterator(x, n);
        itr, pk := Previous(db.indexes[n], here, x.row.pk);
      }
      if itr < 0 { return false, null; }
      r := IndexItem(n, itr, pk);
      ok := true;
    }

    method IndexLowerBound(n: nat, sk: nat) returns (r: Item?)
      requires Valid() && n < indexCount
      modifies this`items, Cached()`iters
      ensures Valid() && Grown() && nextPrimaryKey == old(nextPrimaryKey)
      ensures r == null <==> NoneFrom(db.indexes[n], Entry(sk, 0))
      ensures r != null ==> r in items && IsFirst(db.indexes[n], Entry(sk, 0), r.row.pk)
    {
      hide Tables, NextOk;
      TableHandles();
      var itr, pk := LowerBound(db.indexes[n], sk);
      if itr < 0 { return null; }
      r := IndexItem(n, itr, pk);
    }

    method IndexUpperBound(n: nat, sk: nat) returns (r: Item?)
      requires Valid() && n < indexCount
      modifies this`items, Cached()`iters
      ensures Valid() && Grown() && nextPrimaryKey == old(nextPrimaryKey)
      ensures r == null <==> NoneFrom(db.indexes[n], Entry(sk + 1, 0))
      ensures r != null ==> r in items && IsFirst(db.indexes[n], Entry(sk + 1, 0), r.row.pk)
    {
      hide Tables, NextOk;
      TableHandles();
      var itr, pk := UpperBound(db.indexes[n], sk);
      if itr < 0 { return null; }
      r := IndexItem(n, itr, pk);
    }

    /** The row with this secondary key and the smallest primary key among them. */
    method IndexFind(n: nat, sk: nat) returns (r: Item?)
      requires Valid() && n < indexCount
      modifies this`items, Cached()`iters
      ensures Valid() && Grown() && nextPrimaryKey == old(nextPrimaryKey)
      ensures r == null <==> forall p :: p in db.View() ==> n < |db.View()[p].keys| && db.View()[p].keys[n] != sk
      ensures r != null ==>
                && r in items && r.row.pk in db.View() && r.row == db.View()[r.row.pk] && n < |r.row.keys|
                && r.row.keys[n] == sk
                && forall p :: p in db.View() && n < |db.View()[p].keys| && db.View()[p].keys[n] == sk ==> r.row.pk <= p
    {
      hide Tables, NextOk, Grown;
      RowKeys(n);
      r := IndexLowerBound(n, sk);
      if r == null { return; }
      assert ItemOk(r);
      if r.row.keys[n] != sk { return null; }
    }

    lemma RowKeys(n: nat)
      requires Tables() && n < indexCount
      ensures n < |db.indexes| && db.indexes[n].Keys == db.rows.Keys
      ensures forall p :: p in db.rows ==>
                n < |db.rows[p].value.keys| && At(db.indexes[n], p) == Entry(db.rows[p].value.keys[n], p)
      ensures forall p :: p in db.View() <==> p in db.rows
      ensures forall p :: p in db.rows ==> db.View()[p] == db.rows[p].value
    {
      assert Exact(db.rows, db.indexes[n], n);
    }

    // ----- primary iterators -----

    lemma PrimaryHandles()
      requires Tables()
      ensures Handles(ByPrimary(db.rows)) && ByPrimary(db.rows).Keys == db.rows.Keys
      ensures forall p :: p in db.rows ==>
                ByPrimary(db.rows)[p].handle == db.rows[p].handle && At(ByPrimary(db.rows), p) == Entry(p, p)
    {
    }

    method PrimaryNext(x: Item) returns (r: Item?)
      requires Valid() && x in items
      modifies this`items
      ensures Valid() && Grown() && nextPrimaryKey == old(nextPrimaryKey)
      ensures r == null <==> forall p :: p in db.rows ==> p <= x.row.pk
      ensures r != null ==> r in items && r.row.pk > x.row.pk && forall p :: p in db.rows && p > x.row.pk ==>
                r.row.pk <= p
    {
      hide Tables, NextOk;
      PrimaryHandles();
      assert ItemOk(x);
      var itr, pk := Next(ByPrimary(db.rows), x.primaryItr, x.row.pk);
      if itr < 0 { return null; }
      r := LoadObjectByPrimaryIterator(itr, pk);
    }

    method PrimaryPrevious(x: Item?) returns (ok: bool, r: Item?)
      requires Valid() && (x == null || x in items)
      modifies this`items
      ensures Valid() && Grown() && nextPrimaryKey == old(nextPrimaryKey)
      ensures ok <==> exists p :: p in db.rows && (x == null || p < x.row.pk)
      ensures ok ==> r != null && r in items && r.row.pk in db.rows
      ensures ok ==> forall p :: p in db.rows && (x == null || p < x.row.pk) ==> p <= r.row.pk
      ensures ok && x != null ==> r.row.pk < x.row.pk
    {
      hide Tables, NextOk;
      PrimaryHandles();
      var itr, pk;
      if x == null {
        itr, pk := PreviousOfEnd(ByPrimary(db.rows));
      } else {
        assert ItemOk(x);
        itr, pk := Previous(ByPrimary(db.rows), x.primaryItr, x.row.pk);
      }
      if itr < 0 { return false, null; }
      r := LoadObjectByPrimaryIterator(itr, pk);
      ok := true;
    }

    method PrimaryLowerBound(pk: nat) returns (r: Item?)
      requires Valid()
      modifies this`items
      ensures Valid() && Grown() && nextPrimaryKey == old(nextPrimaryKey)
      ensures r == null <==> forall p :: p in db.rows ==> p < pk
      ensures r != null ==> r in items && r.row.pk >= pk && forall p :: p in db.rows && p >= pk ==> r.row.pk <= p
    {
      hide Tables, NextOk;
      PrimaryHandles();
      var itr, p := LowerBound(ByPrimary(db.rows), pk);
      if itr < 0 { return null; }
      r := LoadObjectByPrimaryIterator(itr, p);
    }

    /** A key that no row has; refused when the largest keys have been used. */
    method AvailablePrimaryKey() returns (ok: bool, key: nat)
      requires Valid()
      modifies this`items, this`nextPrimaryKey
      ensures Valid() && Grown()
      ensures ok <==> nextPrimaryKey < NO_AVAILABLE
      ensures ok ==> key == nextPrimaryKey && forall p :: p in db.View() ==> p < key
      ensures if old(nextPrimaryKey) == UNSET then NextAbove(db.View().Keys, nextPrimaryKey)
              else nextPrimaryKey == old(nextPrimaryKey)
    {
      hide Tables;
      if nextPrimaryKey == UNSET {
        var begin := PrimaryLowerBound(0);
        if begin == null {
          nextPrimaryKey := 0;
        } else {
          assert ItemOk(begin);
          var found, last := PrimaryPrevious(null);
          nextPrimaryKey := if last.row.pk >= NO_AVAILABLE then NO_AVAILABLE else last.row.pk + 1;
        }
      }
      assert db.View().Keys == db.rows.Keys;
      ok, key := nextPrimaryKey < NO_AVAILABLE, nextPrimaryKey;
    }

    // ----- changing the table -----

    /** Adds a row, with an entry in each index; refused for another contract's table or a key in use. */
    method Emplace(row: Row, authorized: bool) returns (x: Item?)
      requires Valid() && |row.keys| == indexCount
      modifies this, db
      ensures x == null <==> !authorized || row.pk in old(db.View())
      ensures x == null ==> db.View() == old(db.View()) && items == old(items)
      ensures x != null ==> Valid()
      ensures x != null ==> fresh(x) && x.row == row && items == old(items) + [x]
      ensures x != null ==> db.View() == old(db.View())[row.pk := row]
      ensures x != null ==> forall y :: y in old(items) ==> y.row == old(y.row)
      ensures x == null || row.pk < old(nextPrimaryKey) ==> nextPrimaryKey == old(nextPrimaryKey)
      ensures x != null && row.pk >= old(nextPrimaryKey) ==>
                nextPrimaryKey == if row.pk + 1 < NO_AVAILABLE then row.pk + 1 else NO_AVAILABLE
    {
      hide Tables, CacheOk, NextOk, ItemOk, Consistent, Exact, Records, Handles, Put, Database.Valid;
      TableHandles();
      TableConsistent();
      ghost var rows, indexes := db.rows, db.indexes;
      if !authorized { return null; }
      var itr := db.Store(row);
      if itr < 0 { return null; }
      if row.pk >= nextPrimaryKey {
        nextPrimaryKey := if row.pk >= NO_AVAILABLE then NO_AVAILABLE else row.pk + 1;
      }
      var iters := StoreIndexes(row);
      x := new Item(row, itr, iters);
      items := items + [x];
      PutTables(rows, indexes, db.indexes, row, itr, iters);
      EmplacedCache(x);
      EmplacedNext(row);
      TablesIntro();
    }

    method StoreIndexes(row: Row) returns (iters: seq<int>)
      requires db.Valid() && |row.keys| == indexCount == |db.indexes|
      requires forall n :: 0 <= n < indexCount ==> row.pk !in db.indexes[n]
      modifies db`indexes, db`nextHandle
      ensures db.Valid() && |db.indexes| == indexCount == |iters|
      ensures forall n :: 0 <= n < indexCount ==>
                iters[n] >= 0 && db.indexes[n] == Put(old(db.indexes[n]), row.pk, iters[n], row.keys[n])
    {
      iters := [];
      var n := 0;
      while n < indexCount
        invariant 0 <= n <= indexCount == |db.indexes| && |iters| == n && db.Valid() && db.rows == old(db.rows)
        invariant forall m :: 0 <= m < n ==>
                    iters[m] >= 0 && db.indexes[m] == Put(old(db.indexes[m]), row.pk, iters[m], row.keys[m])
        invariant forall m :: n <= m < indexCount ==> db.indexes[m] == old(db.indexes[m])
      {
        var itr := db.IndexStore(n, row.pk, row.keys[n]);
        iters := iters + [itr];
        n := n + 1;
      }
    }

    twostate lemma EmplacedCache(new x: Item)
      requires old(CacheOk()) && items == old(items) + [x] && x !in old(items) && x.row.pk !in old(db.rows)
      requires |db.indexes| == indexCount && |old(db.indexes)| == indexCount && |x.row.keys| == indexCount
      requires |x.iters| == indexCount
      requires db.rows == old(db.rows)[x.row.pk := Slot(x.primaryItr, x.row)]
      requires forall n :: 0 <= n < indexCount ==>
                 db.indexes[n] == Put(old(db.indexes[n]), x.row.pk, x.iters[n], x.row.keys[n])
      requires forall y :: y in old(items) ==> y.row == old(y.row) && y.iters == old(y.iters)
      ensures CacheOk()
    {
      forall y | y in items ensures ItemOk(y) {
        if y != x { assert old(ItemOk(y)); }
      }
      forall i | 0 <= i < |old(items)| ensures items[i] == old(items)[i] && items[i].row.pk != x.row.pk {
        assert old(ItemOk(items[i]));
      }
    }

    twostate lemma EmplacedNext(row: Row)
      requires old(NextOk()) && db.rows.Keys == old(db.rows.Keys) + {row.pk}
      requires nextPrimaryKey
               == if row.pk >= old(nextPrimaryKey)
                 then (if row.pk >= NO_AVAILABLE then NO_AVAILABLE else row.pk + 1) else old(nextPrimaryKey)
      ensures NextOk()
    {
    }

    /** Replaces a row and its changed index entries; the key must stay the same. */
    method Modify(x: Item, row: Row, authorized: bool) returns (ok: bool)
      requires Valid() && x in items && |row.keys| == indexCount
      modifies `nextPrimaryKey, db`rows, db`indexes, x
      ensures ok <==> authorized && row.pk == old(x.row.pk)
      ensures !ok ==> db.View() == old(db.View())
      ensures ok ==> Valid()
      ensures ok ==> x.row == row && row.pk in old(db.View()) && db.View() == old(db.View())[row.pk := row]
      ensures !ok || row.pk < old(nextPrimaryKey) ==> nextPrimaryKey == old(nextPrimaryKey)
      ensures ok && row.pk >= old(nextPrimaryKey) ==>
                nextPrimaryKey == if row.pk + 1 < NO_AVAILABLE then row.pk + 1 else NO_AVAILABLE
    {
      hide Tables, CacheOk, NextOk, Consistent, Exact, Records, Handles, Put, Database.Valid;
      if !authorized { return false; }
      TableHandles();
      TableConsistent();
      CachedOk(x);
      Indexed(x.row.pk);
      ghost var rows, indexes := db.rows, db.indexes;
      var keys := x.row.keys;
      var pk := x.row.pk;
      x.row := row;
      if row.pk != pk { return false; }
      db.Update(x.primaryItr, row, pk);
      if pk >= nextPrimaryKey {
        nextPrimaryKey := if pk >= NO_AVAILABLE then NO_AVAILABLE else pk + 1;
      }
      UpdateIndexes(x, keys, row);
      PutTables(rows, indexes, db.indexes, row, x.primaryItr, HandlesOf(indexes, pk));
      ModifiedCache(x);
      ModifiedNext(pk);
      TablesIntro();
      ok := true;
    }

    lemma Indexed(pk: nat)
      requires Tables() && pk in db.rows
      ensures |db.rows[pk].value.keys| == indexCount && |db.indexes| == indexCount
      ensures forall n :: 0 <= n < indexCount ==>
                pk in db.indexes[n] && db.indexes[n][pk].value == db.rows[pk].value.keys[n]
    {
      forall n | 0 <= n < indexCount
        ensures pk in db.indexes[n] && db.indexes[n][pk].value == db.rows[pk].value.keys[n]
      {
        assert Exact(db.rows, db.indexes[n], n);
      }
    }

    lemma CachedOk(x: Item)
      requires CacheOk() && x in items
      ensures ItemOk(x)
    {
    }

    method UpdateIndexes(x: Item, keys: seq<nat>, row: Row)
      requires db.Valid() && |db.indexes| == indexCount && |keys| == indexCount && |row.keys| == indexCount
      requires |x.iters| == indexCount && x.row == row
      requires forall n :: 0 <= n < indexCount ==> row.pk in db.indexes[n] && db.indexes[n][row.pk].value == keys[n]
      requires forall n :: 0 <= n < indexCount && x.iters[n] != -1 ==> x.iters[n] == db.indexes[n][row.pk].handle
      modifies db`indexes, x`iters
      ensures db.Valid() && |db.indexes| == indexCount && |x.iters| == indexCount
      ensures forall n :: 0 <= n < indexCount ==>
                && row.pk in old(db.indexes[n])
                && db.indexes[n] == Put(old(db.indexes[n]), row.pk, old(db.indexes[n][row.pk].handle), row.keys[n])
                && (x.iters[n] != -1 ==> x.iters[n] == old(db.indexes[n][row.pk].handle))
    {
      hide Handles, Put, Database.Valid;
      var n := 0;
      while n < indexCount
        invariant 0 <= n <= indexCount && |db.indexes| == indexCount && |x.iters| == indexCount && db.Valid()
        invariant db.rows == old(db.rows)
        invariant forall m :: 0 <= m < n ==>
                    db.indexes[m] == Put(old(db.indexes[m]), row.pk, old(db.indexes[m][row.pk].handle), row.keys[m])
        invariant forall m :: n <= m < indexCount ==> db.indexes[m] == old(db.indexes[m])
        invariant forall m :: 0 <= m < indexCount && x.iters[m] != -1 ==>
                    x.iters[m] == old(db.indexes[m][row.pk].handle)
      {
        PutSame(db.indexes[n], row.pk);
        DatabaseHandles(n);
        if row.keys[n] != keys[n] {
          var itr := x.iters[n];
          if itr < 0 {
            itr := FindPrimary(db.indexes[n], row.pk);
            x.iters := x.iters[n := itr];
          }
          db.IndexUpdate(n, itr, row.keys[n], row.pk);
        }
        n := n + 1;
      }
    }

    lemma DatabaseHandles(n: nat)
      requires db.Valid() && n < |db.indexes|
      ensures Handles(db.indexes[n]) && forall p :: p in db.indexes[n] ==> db.indexes[n][p].handle >= 0
    {
    }

    twostate lemma ModifiedCache(x: Item)
      requires old(CacheOk()) && items == old(items) && x in items && x.row.pk == old(x.row.pk)
      requires |db.indexes| == indexCount && |old(db.indexes)| == indexCount && |x.row.keys| == indexCount
      requires |x.iters| == indexCount
      requires x.row.pk in old(db.rows) && db.rows == old(db.rows)[x.row.pk := Slot(x.primaryItr, x.row)]
      requires forall n :: 0 <= n < indexCount ==>
                 && x.row.pk in old(db.indexes[n])
                 && db.indexes[n] == Put(old(db.indexes[n]), x.row.pk, old(db.indexes[n][x.row.pk].handle),
                                         x.row.keys[n])
                 && (x.iters[n] != -1 ==> x.iters[n] == old(db.indexes[n][x.row.pk].handle))
      requires forall y :: y in items && y != x ==> y.row == old(y.row) && y.iters == old(y.iters)
      ensures CacheOk()
    {
      forall i, j | 0 <= i < j < |items| ensures items[i].row.pk != items[j].row.pk {
        assert old(items[i].row.pk) != old(items[j].row.pk);
      }
      forall y | y in items ensures ItemOk(y) {
        assert old(ItemOk(y)) && old(ItemOk(x));
        if y != x {
          var i, j :| 0 <= i < |items| && 0 <= j < |items| && items[i] == x && items[j] == y;
          assert i < j || j < i;
        }
      }
    }

    twostate lemma ModifiedNext(pk: nat)
      requires old(NextOk()) && db.rows.Keys == old(db.rows.Keys) && pk in db.rows
      requires nextPrimaryKey
               == if pk >= old(nextPrimaryKey)
                 then (if pk >= NO_AVAILABLE then NO_AVAILABLE else pk + 1) else old(nextPrimaryKey)
      ensures NextOk()
    {
    }

    /** Removes a row, its index entries and the cached item. */
    method Erase(x: Item, authorized: bool) returns (ok: bool)
      requires Valid() && x in items
      modifies `items, db`rows, db`indexes
      ensures ok <==> authorized
      ensures !ok ==> db.View() == old(db.View()) && items == old(items)
      ensures ok ==> Valid()
      ensures ok ==> Cached() == old(Cached()) - {x}
      ensures ok ==> db.View() == old(db.View()) - {x.row.pk}
    {
      hide Tables, CacheOk, NextOk, Consistent, Exact, Records, Handles, Database.Valid;
      if !authorized { return false; }
      TableHandles();
      TableConsistent();
      CachedOk(x);
      ghost var rows, indexes := db.rows, db.indexes;
      var pk := x.row.pk;
      var i := |items|;
      while i > 0 && items[i - 1].row.pk != pk
        invariant 0 <= i <= |items|
        invariant forall j :: i <= j < |items| ==> items[j].row.pk != pk
      {
        i := i - 1;
      }
      assert i > 0;
      items := items[..i - 1] + items[i..];
      db.Remove(x.primaryItr, pk);
      RemoveIndexes(x, pk);
      ErasedTables(rows, indexes, db.indexes, pk);
      ErasedCache(x, i - 1);
      ErasedNext();
      TablesIntro();
      ok := true;
    }

    method RemoveIndexes(x: Item, pk: nat)
      requires db.Valid() && |db.indexes| == indexCount && |x.iters| == indexCount && x.row.pk == pk
      requires forall n :: 0 <= n < indexCount ==>
                 pk in db.indexes[n] && (x.iters[n] != -1 ==> x.iters[n] == db.indexes[n][pk].handle)
      modifies db`indexes
      ensures db.Valid() && |db.indexes| == indexCount
      ensures forall n :: 0 <= n < indexCount ==> db.indexes[n] == old(db.indexes[n]) - {pk}
    {
      hide Handles, Database.Valid;
      var n := 0;
      while n < indexCount
        invariant 0 <= n <= indexCount && |db.indexes| == indexCount && db.Valid() && db.rows == old(db.rows)
        invariant forall m :: 0 <= m < n ==> db.indexes[m] == old(db.indexes[m]) - {pk}
        invariant forall m :: n <= m < indexCount ==> db.indexes[m] == old(db.indexes[m])
      {
        DatabaseHandles(n);
        var itr := x.iters[n];
        if itr < 0 { itr := FindPrimary(db.indexes[n], pk); }
        if itr >= 0 { db.IndexRemove(n, itr, pk); }
        n := n + 1;
      }
    }

    twostate lemma ErasedCache(x: Item, new at: nat)
      requires old(CacheOk())
      requires at < |old(items)|
      requires old(items)[at].row.pk == x.row.pk
      requires x in old(items)
      requires items == old(items)[..at] + old(items)[at + 1..]
      requires db.rows == old(db.rows) - {x.row.pk}
      requires |db.indexes| == indexCount && |old(db.indexes)| == indexCount
      requires forall n :: 0 <= n < indexCount ==> db.indexes[n] == old(db.indexes[n]) - {x.row.pk}
      requires forall y :: y in old(items) ==> y.row == old(y.row) && y.iters == old(y.iters)
      ensures CacheOk()
      ensures forall y :: y in items <==> y in old(items) && y != x
    {
      var before := old(items);
      forall i, j | 0 <= i < j < |before| ensures before[i].row.pk != before[j].row.pk {
        assert old(before[i].row.pk) != old(before[j].row.pk);
      }
      assert before[at] == x;
      forall y | y in items ensures ItemOk(y) && y != x && y in before {
        var i :| 0 <= i < |items| && items[i] == y;
        assert y == before[if i < at then i else i + 1];
        assert old(ItemOk(y));
      }
      forall y | y in before && y != x ensures y in items {
        var i :| 0 <= i < |before| && before[i] == y;
        assert y == items[if i < at then i else i - 1];
      }
      forall i, j | 0 <= i < j < |items| ensures items[i].row.pk != items[j].row.pk {
        assert items[i] == before[if i < at then i else i + 1] && items[j] == before[if j < at then j else j + 1];
      }
    }

    twostate lemma ErasedNext()
      requires old(NextOk()) && nextPrimaryKey == old(nextPrimaryKey) && db.rows.Keys <= old(db.rows.Keys)
      ensures NextOk()
    {
    }
  }

  /** Storing or replacing a row and its entry keeps an index exact. */
  lemma ExactPut(rows: Table<Row>, t: Index, n: nat, row: Row, itr: int, h: int)
    requires Exact(rows, t, n) && n < |row.keys|
    ensures Exact(rows[row.pk := Slot(itr, row)], Put(t, row.pk, h, row.keys[n]), n)
  {
  }

  lemma PutRecord(rows: Table<Row>, row: Row, itr: int)
    ensures Records(rows[row.pk := Slot(itr, row)]) == Records(rows)[row.pk := row]
  {
  }

  lemma PutTables(rows: Table<Row>, before: seq<Index>, indexes: seq<Index>, row: Row, itr: int, handles: seq<int>)
    requires Consistent(rows, before, |before|)
    requires |row.keys| == |before| && |indexes| == |before| && |handles| == |before|
    requires forall n :: 0 <= n < |before| ==> indexes[n] == Put(before[n], row.pk, handles[n], row.keys[n])
    ensures Consistent(rows[row.pk := Slot(itr, row)], indexes, |before|)
    ensures Records(rows[row.pk := Slot(itr, row)]) == Records(rows)[row.pk := row]
  {
    hide Exact, Put, Records;
    PutRecord(rows, row, itr);
    forall n | 0 <= n < |before| ensures Exact(rows[row.pk := Slot(itr, row)], indexes[n], n) {
      ExactPut(rows, before[n], n, row, itr, handles[n]);
    }
  }

  ghost function HandlesOf(indexes: seq<Index>, pk: nat): seq<int>
    requires forall n :: 0 <= n < |indexes| ==> pk in indexes[n]
  {
    seq(|indexes|, n requires 0 <= n < |indexes| => indexes[n][pk].handle)
  }

  lemma PutSame(t: Index, pk: nat)
    requires pk in t
    ensures Put(t, pk, t[pk].handle, t[pk].value) == t
  {
  }

  lemma ErasedTables(rows: Table<Row>, before: seq<Index>, indexes: seq<Index>, pk: nat)
    requires Consistent(rows, before, |before|) && |indexes| == |before|
    requires forall n :: 0 <= n < |before| ==> indexes[n] == before[n] - {pk}
    ensures Consistent(rows - {pk}, indexes, |before|) && Records(rows - {pk}) == Records(rows) - {pk}
  {
    forall n | 0 <= n < |before| ensures Exact(rows - {pk}, indexes[n], n) { assert Exact(rows, before[n], n); }
  }
}
