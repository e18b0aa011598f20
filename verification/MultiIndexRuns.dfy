/** Whole iterations and whole sequences of operations on a table. */
module MultiIndexRuns {
  import opened HostDatabase
  import opened MultiIndexTable
  import opened Options
  import TableSums

  // ----- stepping forward and back -----

  lemma Trichotomy(e: Entry, f: Entry)
    ensures e == f || Before(e, f) || !Before(e, After(f))
  {
  }

  lemma PreviousUndoesNext(t: Index, p: nat, q: nat)
    requires p in t && IsFirst(t, After(At(t, p)), q)
    ensures IsLast(t, At(t, q), p)
    ensures forall r :: IsLast(t, At(t, q), r) ==> r == p
  {
    assert !Before(At(t, q), After(At(t, p)));
    forall r | r in t && Before(At(t, r), At(t, q)) ensures r == p || Before(At(t, r), At(t, p)) {
      Trichotomy(At(t, r), At(t, p));
    }
  }

  lemma LastHasNoNext(t: Index, p: nat)
    requires p in t && NoneFrom(t, After(At(t, p)))
    ensures IsGreatest(t, p) && forall r :: IsGreatest(t, r) ==> r == p
  {
    forall r | r in t ensures r == p || Before(At(t, r), At(t, p)) {
      assert Before(At(t, r), After(At(t, p)));
    }
  }

  lemma SameItem(mi: MultiIndex, x: Item, y: Item)
    requires mi.CacheOk() && x in mi.items && y in mi.items && x.row.pk == y.row.pk
    ensures x == y
  {
  }

  /** Row p is the one before q, or before the end. */
  ghost predicate ComesBack(t: Index, p: nat, end: bool, q: nat) {
    p in t && if end then NoneFrom(t, After(At(t, p))) else IsFirst(t, After(At(t, p)), q)
  }

  lemma SteppedBack(t: Index, p: nat, end: bool, q: nat, r: nat)
    requires ComesBack(t, p, end, q) && if end then IsGreatest(t, r) else IsLast(t, At(t, q), r)
    ensures r == p
  {
    if end { LastHasNoNext(t, p); } else { PreviousUndoesNext(t, p, q); }
  }

  lemma CanStepBack(t: Index, p: nat, end: bool, q: nat)
    requires ComesBack(t, p, end, q)
    ensures t.Keys != {} && (!end ==> q in t && !NoneBefore(t, At(t, q)))
  {
    if !end { PreviousUndoesNext(t, p, q); }
  }

  /** Decrementing after incrementing gives back the same cached object, at the end as well. */
  method NextThenPrevious(mi: MultiIndex, n: nat, x: Item) returns (back: Item?)
    requires mi.Valid() && n < mi.indexCount && x in mi.items
    modifies mi`items, mi.Cached()`iters
    ensures mi.Valid() && mi.Grown() && back == x
  {
    hide MultiIndex.Tables, MultiIndex.NextOk, MultiIndex.ItemOk, IsFirst, IsLast, IsGreatest, NoneFrom, NoneBefore, At,
         After, Before, Records, Database.View;
    mi.TableHandles();
    var y := mi.IndexNext(n, x);
    back := BackTo(mi, n, y, x.row.pk);
    SameItem(mi, x, back);
  }

  /** From the row after p, or from the end, back to p. */
  method BackTo(mi: MultiIndex, n: nat, y: Item?, ghost p: nat) returns (b: Item)
    requires mi.Valid() && n < mi.indexCount && n < |mi.db.indexes| && (y == null || y in mi.items)
    requires ComesBack(mi.db.indexes[n], p, y == null, if y == null then 0 else y.row.pk)
    modifies mi`items, mi.Cached()`iters
    ensures mi.Valid() && mi.Grown() && b in mi.items && b.row.pk == p
  {
    hide MultiIndex.Tables, MultiIndex.NextOk, MultiIndex.ItemOk, IsFirst, IsLast, IsGreatest, NoneFrom, NoneBefore, At,
         After, Before, ComesBack, Records, Database.View;
    mi.TableHandles();
    ghost var t, q := mi.db.indexes[n], if y == null then 0 else y.row.pk;
    CanStepBack(t, p, y == null, q);
    var ok, r := mi.IndexPrevious(n, y);
    SteppedBack(t, p, y == null, q, r.row.pk);
    b := r;
  }

  // ----- visiting a whole index -----

  function EntryOf(row: Row, n: nat): Entry
    requires n < |row.keys|
  {
    Entry(row.keys[n], row.pk)
  }

  /** The rows of a table in the order of index n. */
  ghost predicate Listed(out: seq<Row>, view: map<nat, Row>, n: nat) {
    && (forall r :: r in out ==> n < |r.keys| && r.pk in view && view[r.pk] == r)
    && (forall p :: p in view ==> view[p].pk == p && view[p] in out)
    && (forall i, j :: 0 <= i < j < |out| ==> Before(EntryOf(out[i], n), EntryOf(out[j], n)))
  }

  /** What has been seen when the iterator stands at `at`: exactly the rows before it. */
  ghost predicate Seen(out: seq<Row>, view: map<nat, Row>, n: nat, done: bool, at: Entry) {
    && (forall p :: p in view ==> n < |view[p].keys| && view[p].pk == p)
    && (forall r :: r in out ==> r.pk in view && view[r.pk] == r && n < |r.keys| && (done || Before(EntryOf(r, n), at)))
    && (forall p :: p in view && (done || Before(EntryOf(view[p], n), at)) ==> view[p] in out)
    && (forall i, j :: 0 <= i < j < |out| ==>
        n < |out[i].keys| && n < |out[j].keys| && Before(EntryOf(out[i], n), EntryOf(out[j], n)))
  }

  /** A list in strict order has as many rows as the table. */
  lemma {:induction false} ListedLength(out: seq<Row>, view: map<nat, Row>, n: nat)
    requires Listed(out, view, n)
    ensures |out| == |view|
    decreases |out|
  {
    hide Listed;
    ListedLast(out, view, n);
    if out != [] {
      var last := out[|out| - 1];
      ListedLength(out[..|out| - 1], view - {last.pk}, n);
      assert view.Keys == (view - {last.pk}).Keys + {last.pk};
    }
  }

  /** The list goes up by the n-th keys, and by the primary keys among equals. */
  lemma ListedUpward(out: seq<Row>, view: map<nat, Row>, n: nat, i: nat, j: nat)
    requires Listed(out, view, n) && i < j < |out|
    ensures n < |out[i].keys| && n < |out[j].keys|
    ensures out[i].keys[n] < out[j].keys[n] || (out[i].keys[n] == out[j].keys[n] && out[i].pk < out[j].pk)
  {
    assert Before(EntryOf(out[i], n), EntryOf(out[j], n));
  }

  lemma ListedLast(out: seq<Row>, view: map<nat, Row>, n: nat)
    requires Listed(out, view, n)
    ensures out == [] ==> view.Keys == {}
    ensures out != [] ==>
              var last := out[|out| - 1];
              last.pk in view && Listed(out[..|out| - 1], view - {last.pk}, n)
  {
    hide Before, EntryOf;
    if out != [] {
      var k := |out| - 1;
      OtherKeys(out, view, n, k);
      var rest := view - {out[k].pk};
      forall p | p in rest ensures rest[p] in out[..k] {
        assert view[p] in out && view[p] != out[k];
      }
    }
  }

  /** No two of the rows have the same key. */
  lemma OtherKeys(out: seq<Row>, view: map<nat, Row>, n: nat, k: nat)
    requires Listed(out, view, n) && k < |out|
    ensures forall r :: r in out[..k] ==> r.pk != out[k].pk
  {
    forall r | r in out[..k] ensures r.pk != out[k].pk {
      var i :| 0 <= i < k && out[i] == r;
      assert Before(EntryOf(out[i], n), EntryOf(out[k], n));
    }
  }

  /** Index t orders the rows of `view` by their n-th keys. */
  ghost predicate Orders(t: Index, view: map<nat, Row>, n: nat) {
    && t.Keys == view.Keys
    && forall p :: p in view ==> view[p].pk == p && n < |view[p].keys| && At(t, p) == EntryOf(view[p], n)
  }

  lemma IndexOrders(mi: MultiIndex, n: nat)
    requires mi.Valid() && n < mi.indexCount
    ensures n < |mi.db.indexes| && Orders(mi.db.indexes[n], mi.db.View(), n)
  {
    mi.RowKeys(n);
    mi.TableHandles();
  }

  lemma SeenStart(t: Index, view: map<nat, Row>, n: nat, done: bool, pk: nat)
    requires Orders(t, view, n)
    requires if done then NoneFrom(t, Entry(0, 0)) else IsFirst(t, Entry(0, 0), pk)
    ensures !done ==> pk in t
    ensures Seen([], view, n, done, if done then Entry(0, 0) else At(t, pk))
  {
    forall p | p in view ensures !done && !Before(EntryOf(view[p], n), At(t, pk)) {
      assert !Before(At(t, p), Entry(0, 0));
    }
  }

  lemma SeenStep(t: Index, view: map<nat, Row>, n: nat, out: seq<Row>, pk: nat, done: bool, next: nat)
    requires Orders(t, view, n) && pk in t && Seen(out, view, n, false, At(t, pk))
    requires if done then NoneFrom(t, After(At(t, pk))) else IsFirst(t, After(At(t, pk)), next)
    ensures !done ==> next in t
    ensures Seen(out + [view[pk]], view, n, done, if done then Entry(0, 0) else At(t, next))
  {
    var more := out + [view[pk]];
    var at := if done then Entry(0, 0) else At(t, next);
    forall p | p in view && (done || Before(EntryOf(view[p], n), at)) ensures view[p] in more {
      Trichotomy(At(t, p), At(t, pk));
    }
  }

  lemma SeenAll(out: seq<Row>, view: map<nat, Row>, n: nat, at: Entry)
    requires Seen(out, view, n, true, at)
    ensures Listed(out, view, n)
  {
  }

  /** From begin to end: every row once, in the order of the index, whatever was cached before. */
  method VisitAll(mi: MultiIndex, n: nat) returns (out: seq<Row>)
    requires mi.Valid() && n < mi.indexCount
    modifies mi`items, mi.Cached()`iters
    ensures mi.Valid() && fresh(mi.Cached() - old(mi.Cached()))
    ensures Listed(out, mi.db.View(), n) && |out| == |mi.db.View()|
  {
    hide MultiIndex.Valid, MultiIndex.ItemOk, MultiIndex.Tables, MultiIndex.NextOk, IsFirst, NoneFrom, Seen, Listed,
         Orders, Before, After, At, Records, Database.View, AtOrAfter;
    IndexOrders(mi, n);
    ghost var t, view := mi.db.indexes[n], mi.db.View();
    out := [];
    var x := mi.IndexLowerBound(n, 0);
    SeenStart(t, view, n, x == null, if x == null then 0 else x.row.pk);
    while x != null
      invariant mi.Valid() && fresh(mi.Cached() - old(mi.Cached())) && (x != null ==> x in mi.items && x.row.pk in t)
      invariant Seen(out, view, n, x == null, if x == null then Entry(0, 0) else At(t, x.row.pk))
      decreases if x == null then 0 else 1 + |AtOrAfter(t, At(t, x.row.pk))|
    {
      ghost var pk, seen := x.row.pk, out;
      CachedRow(mi, x);
      out := out + [x.row];
      x := mi.IndexNext(n, x);
      ghost var next := if x == null then 0 else x.row.pk;
      SeenStep(t, view, n, seen, pk, x == null, next);
      FewerLeft(t, pk, x == null, next);
    }
    SeenAll(out, view, n, Entry(0, 0));
    ListedLength(out, view, n);
  }

  lemma CachedRow(mi: MultiIndex, x: Item)
    requires mi.Valid() && x in mi.items
    ensures x.row.pk in mi.db.View() && mi.db.View()[x.row.pk] == x.row
  {
    assert mi.ItemOk(x);
  }

  ghost function AtOrAfter(t: Index, e: Entry): set<nat> { set p | p in t && !Before(At(t, p), e) }

  lemma FewerLeft(t: Index, pk: nat, done: bool, next: nat)
    requires pk in t && if done then NoneFrom(t, After(At(t, pk))) else IsFirst(t, After(At(t, pk)), next)
    ensures done || (next in t && |AtOrAfter(t, At(t, next))| < |AtOrAfter(t, At(t, pk))|)
  {
    if !done {
      var a, b := AtOrAfter(t, At(t, next)), AtOrAfter(t, At(t, pk));
      assert pk in b && pk !in a && a <= b - {pk};
      TableSums.Subset(a, b - {pk});
    }
  }

  // ----- any sequence of operations -----

  datatype Op =
    | DoEmplace(row: Row)
    | DoModify(pk: nat, row: Row)
    | DoErase(pk: nat)
    | DoFind(pk: nat)
    | DoIndexFind(n: nat, sk: nat)
    | DoVisit(n: nat)
    | DoAvailable

  datatype Answer = Done | Found(row: Option<Row>) | Rows(rows: seq<Row>) | Key(key: nat)

  /** The table as a map from keys to rows, and the keys that automatic ones must stay above: none are
      known before the first call for one, then all that the table held at that call and got since. */
  datatype Book = Book(rows: map<nat, Row>, taken: Option<set<nat>>)

  /** The keys with one more. A key with the value that stands for "not known" counts at once. */
  function Take(taken: Option<set<nat>>, pk: nat): Option<set<nat>> {
    if taken.Some? then Some(taken.value + {pk}) else if pk >= UNSET then Some({pk}) else None
  }

  /** The keys that a call for an automatic one knows of. */
  function Known(book: Book): set<nat> { if book.taken.Some? then book.taken.value else book.rows.Keys }

  /** No key below the reserved values is left above the known ones. */
  ghost predicate UsedUp(keys: set<nat>) { exists p :: p in keys && p + 1 >= NO_AVAILABLE }

  /** What an operation does to the table; None when the contract's check fails. */
  ghost function Apply(book: Book, op: Op): Option<Book> {
    var view := book.rows;
    match op
    case DoEmplace(row) =>
      if row.pk in view then None else Some(Book(view[row.pk := row], Take(book.taken, row.pk)))
    case DoModify(pk, row) =>
      if pk !in view || row.pk != pk then None else Some(Book(view[pk := row], Take(book.taken, pk)))
    case DoErase(pk) => if pk !in view then None else Some(book.(rows := view - {pk}))
    case DoAvailable => if UsedUp(Known(book)) then None else Some(book.(taken := Some(Known(book))))
    case _ => Some(book)
  }

  /** What an operation answers. */
  ghost predicate Answers(book: Book, op: Op, a: Answer) {
    match op
    case DoFind(pk) => a == Found(if pk in book.rows then Some(book.rows[pk]) else None)
    case DoIndexFind(n, sk) => a.Found? && FoundByIndex(book.rows, n, sk, a.row)
    case DoVisit(n) => a.Rows? && Listed(a.rows, book.rows, n)
    case DoAvailable => a.Key? && OneAbove(Known(book), a.key)
    case _ => a == Done
  }

  /** The row with the smallest primary key among those with the secondary key. */
  ghost predicate FoundByIndex(view: map<nat, Row>, n: nat, sk: nat, r: Option<Row>) {
    match r
    case None => forall p :: p in view ==> n < |view[p].keys| && view[p].keys[n] != sk
    case Some(row) =>
      && row.pk in view && view[row.pk] == row && n < |row.keys| && row.keys[n] == sk
      && forall p :: p in view && n < |view[p].keys| && view[p].keys[n] == sk ==> row.pk <= p
  }

  /** One above the largest of the keys, and 0 when there is none. */
  ghost predicate OneAbove(keys: set<nat>, key: nat) {
    (forall p :: p in keys ==> p < key) && (key == 0 || key - 1 in keys)
  }

  /** The field of the object that remembers the next automatic key, against the keys taken. */
  ghost predicate Remembers(next: nat, taken: Option<set<nat>>) {
    if taken.Some? then NextAbove(taken.value, next) else next == UNSET
  }

  /** Whatever an object remembers is right for some keys taken; for a new object none are known. */
  lemma Remembered(mi: MultiIndex) returns (taken: Option<set<nat>>)
    requires mi.Valid()
    ensures Remembers(mi.nextPrimaryKey, taken)
    ensures mi.nextPrimaryKey == UNSET ==> taken == None
  {
    var next := mi.nextPrimaryKey;
    taken := if next == UNSET then None else if next == 0 then Some({}) else Some({next - 1});
    assert next == NO_AVAILABLE ==> next - 1 in {next - 1};
  }

  ghost function ApplyAll(book: Book, ops: seq<Op>): Option<Book> {
    if ops == [] then Some(book)
    else
      var before := ApplyAll(book, ops[..|ops| - 1]);
      if before.None? then None else Apply(before.value, ops[|ops| - 1])
  }

  predicate Typed(op: Op, k: nat) {
    match op
    case DoEmplace(row) => |row.keys| == k
    case DoModify(_, row) => |row.keys| == k
    case DoIndexFind(n, _) => n < k
    case DoVisit(n) => n < k
    case _ => true
  }

  /** The object stands for the table and the keys taken. */
  ghost predicate StandsFor(mi: MultiIndex, book: Book)
    reads mi, mi.db, mi.Cached()
  {
    mi.Valid() && mi.db.View() == book.rows && Remembers(mi.nextPrimaryKey, book.taken)
  }

  lemma NextTaken(next: nat, taken: Option<set<nat>>, pk: nat, next': nat)
    requires Remembers(next, taken)
    requires pk < next ==> next' == next
    requires pk >= next ==> next' == if pk + 1 < NO_AVAILABLE then pk + 1 else NO_AVAILABLE
    ensures Remembers(next', Take(taken, pk))
  {
    if taken.Some? {
      NextAboveAdd(taken.value, next, pk, next');
    } else if pk >= UNSET {
      assert pk in {pk};
    }
  }

  lemma NextBound(taken: Option<set<nat>>, next: nat)
    requires Remembers(next, taken)
    ensures taken.Some? <==> next != UNSET
  {
    if taken.Some? && next > 0 && next != NO_AVAILABLE { assert next - 1 in taken.value; }
  }

  lemma KeyGiven(keys: set<nat>, next: nat)
    requires NextAbove(keys, next)
    ensures UsedUp(keys) <==> next >= NO_AVAILABLE
    ensures !UsedUp(keys) ==> OneAbove(keys, next)
  {
    if !UsedUp(keys) && next > 0 {
      assert next - 1 in keys;
    }
  }

  method PerformOne(mi: MultiIndex, op: Op, ghost book: Book) returns (ok: bool, a: Answer)
    requires StandsFor(mi, book) && Typed(op, mi.indexCount)
    modifies mi, mi.db, mi.Cached()
    ensures ok <==> Apply(book, op).Some?
    ensures ok ==> StandsFor(mi, Apply(book, op).value) && Answers(book, op, a)
    ensures fresh(mi.Cached() - old(mi.Cached()))
  {
    hide MultiIndex.Tables, MultiIndex.NextOk, MultiIndex.CacheOk, NextAbove, UsedUp, OneAbove, Listed;
    ghost var next := mi.nextPrimaryKey;
    a := Done;
    match op
    case DoEmplace(row) =>
      var x := mi.Emplace(row, true);
      ok := x != null;
      if ok { NextTaken(next, book.taken, row.pk, mi.nextPrimaryKey); }
    case DoModify(pk, row) =>
      var x := mi.Find(pk);
      if x == null { return false, a; }
      ok := mi.Modify(x, row, true);
      if ok { NextTaken(next, book.taken, pk, mi.nextPrimaryKey); }
    case DoErase(pk) =>
      var x := mi.Find(pk);
      if x == null { return false, a; }
      ok := mi.Erase(x, true);
    case DoFind(pk) =>
      var x := mi.Find(pk);
      ok, a := true, Found(if x == null then None else Some(x.row));
    case DoIndexFind(n, sk) =>
      var x := mi.IndexFind(n, sk);
      ok, a := true, Found(if x == null then None else Some(x.row));
    case DoVisit(n) =>
      var out := VisitAll(mi, n);
      ok, a := true, Rows(out);
    case DoAvailable =>
      var key;
      NextBound(book.taken, next);
      ok, key := mi.AvailablePrimaryKey();
      KeyGiven(Known(book), mi.nextPrimaryKey);
      a := Key(key);
  }

  /** Any sequence of operations keeps the cache, the handles and the indexes right; the rows and the
      answers are what the same operations make of a plain map and of the keys taken. */
  method Perform(mi: MultiIndex, ops: seq<Op>, ghost book: Book) returns (ok: bool, answers: seq<Answer>)
    requires StandsFor(mi, book) && forall op :: op in ops ==> Typed(op, mi.indexCount)
    modifies mi, mi.db, mi.Cached()
    ensures ok <==> ApplyAll(book, ops).Some?
    ensures ok ==> StandsFor(mi, ApplyAll(book, ops).value) && |answers| == |ops|
    ensures forall j :: 0 <= j < |answers| ==>
              j < |ops| && ApplyAll(book, ops[..j]).Some? && Answers(ApplyAll(book, ops[..j]).value, ops[j], answers[j])
  {
    hide Apply, Answers, StandsFor;
    var i := 0;
    ghost var now := book;
    answers := [];
    while i < |ops|
      invariant 0 <= i <= |ops| && |answers| == i
      invariant ApplyAll(book, ops[..i]) == Some(now) && StandsFor(mi, now)
      invariant forall j :: 0 <= j < i ==>
                  ApplyAll(book, ops[..j]).Some? && Answers(ApplyAll(book, ops[..j]).value, ops[j], answers[j])
      invariant fresh(mi.Cached() - old(mi.Cached()))
    {
      assert ops[..i + 1][..i] == ops[..i];
      var done, a := PerformOne(mi, ops[i], now);
      if !done {
        StaysFailed(book, ops, i + 1);
        return false, answers;
      }
      answers := answers + [a];
      now := Apply(now, ops[i]).value;
      i := i + 1;
    }
    assert ops[..i] == ops;
    ok := true;
  }

  lemma {:induction false} StaysFailed(book: Book, ops: seq<Op>, i: nat)
    requires i <= |ops| && ApplyAll(book, ops[..i]).None?
    ensures ApplyAll(book, ops).None?
  {
    if i < |ops| {
      assert ops[..|ops| - 1][..i] == ops[..i];
      StaysFailed(book, ops[..|ops| - 1], i);
    } else {
      assert ops[..i] == ops;
    }
  }

  /** The automatic keys of a run grow by one over the largest key taken, erased rows included: no key
      is given that the table has held since the first call. */
  lemma {:induction false} TakenGrows(book: Book, ops: seq<Op>, i: nat)
    requires i <= |ops| && ApplyAll(book, ops).Some?
    ensures ApplyAll(book, ops[..i]).Some?
    ensures var b, c := ApplyAll(book, ops[..i]).value, ApplyAll(book, ops).value;
            b.taken.Some? ==> c.taken.Some? && b.taken.value <= c.taken.value
  {
    if i < |ops| {
      assert ops[..|ops| - 1][..i] == ops[..i];
      TakenGrows(book, ops[..|ops| - 1], i);
    } else {
      assert ops[..i] == ops;
    }
  }
}
