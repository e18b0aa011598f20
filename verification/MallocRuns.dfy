/** Any sequence of malloc, realloc and free calls: what a program owns stays its own. */
module MallocRuns {
  import opened MallocBlocks
  import opened MallocHeap
  import opened MallocManager

  /** A call; `which` is an index into the pointers owned so far, and past its end the null pointer. */
  datatype Request = DoMalloc(bytes: nat) | DoRealloc(which: nat, bytes: nat) | DoFree(which: nat)

  /** A pointer that a program got, with the size it last asked for. */
  datatype Owned = Owned(ptr: int, bytes: nat)

  /** Where its block is: the heap, and the payload address there. */
  datatype Place = Place(heap: nat, at: nat)

  /** Every owned block is live, as large as was asked for, and no two are the same. */
  ghost predicate Backed(lives: seq<map<nat, nat>>, own: seq<Owned>, places: seq<Place>) {
    && |own| == |places|
    && (forall i :: 0 <= i < |own| ==> BackedBy(lives, own[i], places[i]))
    && (forall i, j :: 0 <= i < j < |own| ==> places[i] != places[j])
  }

  ghost predicate BackedBy(lives: seq<map<nat, nat>>, o: Owned, w: Place) {
    w.heap < |lives| && w.at in lives[w.heap] && o.bytes <= WORD_BYTES * lives[w.heap][w.at]
  }

  /** The pointers are the addresses of the places. */
  ghost predicate Addressed(heaps: seq<Memory>, own: seq<Owned>, places: seq<Place>) {
    |own| == |places| && forall i :: 0 <= i < |own| ==> AddressedAt(heaps, own[i], places[i])
  }

  ghost predicate AddressedAt(heaps: seq<Memory>, o: Owned, w: Place) {
    w.heap < |heaps| && o.ptr == Address(heaps[w.heap], w.at)
  }

  /** Heaps are only added at the end. */
  lemma StillAddressed(heaps: seq<Memory>, more: seq<Memory>, own: seq<Owned>, places: seq<Place>)
    requires Addressed(heaps, own, places) && |heaps| <= |more| && more[..|heaps|] == heaps
    ensures Addressed(more, own, places)
  {
    forall i | 0 <= i < |own|
      ensures AddressedAt(more, own[i], places[i])
    {
      assert AddressedAt(heaps, own[i], places[i]);
    }
  }

  lemma AddressedOneMore(heaps: seq<Memory>, own: seq<Owned>, places: seq<Place>, o: Owned, w: Place)
    requires Addressed(heaps, own, places) && AddressedAt(heaps, o, w)
    ensures Addressed(heaps, own + [o], places + [w])
  {
  }

  lemma StillBacked(l0: seq<map<nat, nat>>, l1: seq<map<nat, nat>>, own: seq<Owned>, places: seq<Place>)
    requires Backed(l0, own, places) && |l0| <= |l1| && l1 == Padded(l0, |l1|)
    ensures Backed(l1, own, places)
  {
    forall i | 0 <= i < |own| ensures BackedBy(l1, own[i], places[i]) { assert BackedBy(l0, own[i], places[i]); }
  }

  /** A new block backs one more pointer. */
  lemma OneMore(l0: seq<map<nat, nat>>, l1: seq<map<nat, nat>>, own: seq<Owned>, places: seq<Place>, o: Owned, w: Place,
                n: nat)
    requires Backed(l0, own, places) && Handed(l0, l1, w.heap, w.at, n) && o.bytes <= WORD_BYTES * n
    ensures Backed(l1, own + [o], places + [w])
  {
    forall i | 0 <= i < |own| ensures BackedBy(l1, own[i], places[i]) && places[i] != w {
      assert BackedBy(l0, own[i], places[i]);
    }
  }

  function Drop<T>(s: seq<T>, i: nat): seq<T>
    requires i < |s|
  {
    s[..i] + s[i + 1..]
  }

  /** Without one block and its pointer, the others are backed as before. */
  lemma OneLess(lives: seq<map<nat, nat>>, own: seq<Owned>, places: seq<Place>, i: nat)
    requires Backed(lives, own, places) && i < |own|
    ensures var w := places[i];
            w.heap < |lives| && Backed(lives[w.heap := lives[w.heap] - {w.at}], Drop(own, i), Drop(places, i))
  {
    var w := places[i];
    assert BackedBy(lives, own[i], w);
    var less := lives[w.heap := lives[w.heap] - {w.at}];
    forall j | 0 <= j < |own| && j != i ensures BackedBy(less, own[j], places[j]) {
      assert BackedBy(lives, own[j], places[j]) && places[j] != w;
    }
    var own', places' := Drop(own, i), Drop(places, i);
    forall j | 0 <= j < |own'| ensures BackedBy(less, own'[j], places'[j]) {
      assert own'[j] == own[if j < i then j else j + 1] && places'[j] == places[if j < i then j else j + 1];
    }
  }

  lemma AddressedDrop(heaps: seq<Memory>, own: seq<Owned>, places: seq<Place>, i: nat)
    requires Addressed(heaps, own, places) && i < |own|
    ensures Addressed(heaps, Drop(own, i), Drop(places, i))
  {
    forall j | 0 <= j < |Drop(own, i)| ensures AddressedAt(heaps, Drop(own, i)[j], Drop(places, i)[j]) {
      assert Drop(own, i)[j] == own[if j < i then j else j + 1]
        && Drop(places, i)[j] == places[if j < i then j else j + 1];
    }
  }

  /** What a run of calls keeps. */
  ghost predicate Keeps(m: MemoryManager, own: seq<Owned>, places: seq<Place>)
    reads m, m.Heaps()
  {
    m.Valid() && Backed(m.Lives(), own, places) && Addressed(m.heaps, own, places)
  }

  /** The call is one that is answered as it should be. */
  ghost predicate Proper(m: MemoryManager, r: Request, own: seq<Owned>, places: seq<Place>)
    requires |m.heaps| <= 2 && |own| == |places|
    reads m, m.Heaps()
  {
    match r
    case DoMalloc(bytes) => bytes <= MAX_REQUEST && (bytes == 0 || m.Plain(WordsFor(bytes)))
    case DoFree(_) => true
    case DoRealloc(i, bytes) =>
      && bytes <= MAX_REQUEST
      && if i < |own| then m.Sound(own[i].ptr, bytes, places[i].heap, places[i].at)
         else bytes == 0 || m.Plain(WordsFor(bytes))
  }

  /** The pointers left when one is given up; past their end there is nothing to give up. */
  function Rest(own: seq<Owned>, i: nat): seq<Owned> { if i < |own| then Drop(own, i) else own }

  /** What a program owns after a call; a null pointer for some bytes leaves it as it was. */
  ghost predicate Result(r: Request, own: seq<Owned>, own': seq<Owned>, nothing: bool) {
    match r
    case DoMalloc(bytes) =>
      (own' == own && (bytes == 0 || nothing)) || (bytes > 0 && exists ptr :: own' == own + [Owned(ptr, bytes)])
    case DoFree(i) => own' == Rest(own, i)
    case DoRealloc(i, bytes) =>
      if bytes == 0 then own' == Rest(own, i)
      else (own' == own && nothing) || exists ptr :: own' == Rest(own, i) + [Owned(ptr, bytes)]
  }

  /** The bytes that a call asks for. */
  function Asked(r: Request): nat { if r.DoFree? then 0 else r.bytes }

  /** Nothing of this size fits in any heap, and no more memory can be had. */
  ghost predicate Nothing(m: MemoryManager, bytes: nat)
    requires |m.heaps| <= 2
    reads m, m.Heaps()
  {
    !m.CanGrow() && m.NothingFits(WordsFor(bytes))
  }

  lemma KeepsFew(m: MemoryManager, own: seq<Owned>, places: seq<Place>)
    requires Keeps(m, own, places)
    ensures |m.heaps| <= 2 && |own| == |places|
  {
    m.TwoHeaps();
  }

  /** One call. It is not made, and the result is false, when its bytes are more than can be rounded up or
      it would not be answered as it should; a failed growth that goes unseen gives false as well. */
  method Perform(m: MemoryManager, r: Request, own: seq<Owned>, ghost places: seq<Place>)
    returns (ok: bool, own': seq<Owned>, ghost places': seq<Place>)
    requires Keeps(m, own, places)
    modifies m, m.Heaps()
    ensures |m.heaps| <= 2 && fresh(m.Heaps() - old(m.Heaps()))
    ensures ok ==> Keeps(m, own', places') && Result(r, own, own', Nothing(m, Asked(r)))
    ensures ok ==> |old(m.heaps)| <= 2 && |own| == |places| && old(Proper(m, r, own, places))
    ensures |old(m.heaps)| <= 2 && |own| == |places| && (old(Proper(m, r, own, places)) && m.seesFailure ==> ok)
    ensures !ok && m.seesFailure ==>
              && own' == own && places' == places
              && Keeps(m, own', places') && |own'| == |places'| && !Proper(m, r, own', places')
  {
    hide Memory.Valid, Memory.LiveBlocks, Payloads, Handed, Padded, Backed, Addressed, CopiedWords, WordsFor,
         MemoryManager.Layout, MemoryManager.Reaches, MemoryManager.Cursor, MemoryManager.Plain, MemoryManager.Sound,
         MemoryManager.InOneHeap, Nothing;
    KeepsFew(m, own, places);
    match r
    case DoMalloc(bytes) => ok, own', places' := Obtain(m, bytes, own, places);
    case DoFree(i) =>
      if i < |own| { ok, own', places' := Release(m, i, own, places); } else { ok, own', places' := true, own, places; }
    case DoRealloc(i, bytes) =>
      if i < |own| {
        ok, own', places' := Resize(m, i, bytes, own, places);
      } else {
        ok, own', places' := Obtain(m, bytes, own, places);
      }
  }

  method Obtain(m: MemoryManager, bytes: nat, own: seq<Owned>, ghost places: seq<Place>)
    returns (ok: bool, own': seq<Owned>, ghost places': seq<Place>)
    requires Keeps(m, own, places)
    modifies m, m.Heaps()
    ensures |m.heaps| <= 2 && fresh(m.Heaps() - old(m.Heaps()))
    ensures ok ==> Keeps(m, own', places') && Result(DoMalloc(bytes), own, own', Nothing(m, bytes))
    ensures |old(m.heaps)| <= 2 && (ok ==> bytes <= MAX_REQUEST && (bytes == 0 || old(m.Plain(WordsFor(bytes)))))
    ensures bytes <= MAX_REQUEST && (bytes == 0 || old(m.Plain(WordsFor(bytes)))) && m.seesFailure ==> ok
    ensures !ok && m.seesFailure ==>
              && own' == own && places' == places && Keeps(m, own', places')
              && !(bytes <= MAX_REQUEST && (bytes == 0 || m.Plain(WordsFor(bytes))))
  {
    hide Memory.Valid, Memory.LiveBlocks, Payloads, Handed, Padded, Backed, Addressed, WordsFor, MemoryManager.Layout,
         MemoryManager.Reaches, MemoryManager.Cursor, MemoryManager.Plain, MemoryManager.InOneHeap,
         MemoryManager.CanGrow;
    m.TwoHeaps();
    own', places' := own, places;
    ok := bytes <= MAX_REQUEST && (bytes == 0 || m.Plain(WordsFor(bytes)));
    if !ok { return; }
    ghost var lives, heaps := m.Lives(), m.heaps;
    AdjustedGood(bytes);
    var ptr;
    ghost var k, p;
    ptr, k, p := m.Malloc(bytes);
    ok := !m.stray;
    if !ok { return; }
    StillAddressed(heaps, m.heaps, own, places);
    if ptr == -1 {
      SameLives(lives, m.Lives());
      StillBacked(lives, m.Lives(), own, places);
    } else {
      own', places' := own + [Owned(ptr, bytes)], places + [Place(k, p)];
      OneMore(lives, m.Lives(), own, places, Owned(ptr, bytes), Place(k, p), WordsFor(bytes));
      AddressedOneMore(m.heaps, own, places, Owned(ptr, bytes), Place(k, p));
    }
  }

  lemma SameLives(l0: seq<map<nat, nat>>, l1: seq<map<nat, nat>>)
    ensures l1 == l0 ==> l1 == Padded(l0, |l1|)
  {
  }

  method Release(m: MemoryManager, i: nat, own: seq<Owned>, ghost places: seq<Place>)
    returns (ok: bool, own': seq<Owned>, ghost places': seq<Place>)
    requires Keeps(m, own, places) && i < |own|
    modifies m.Heaps()
    ensures |m.heaps| <= 2 && fresh(m.Heaps() - old(m.Heaps()))
    ensures ok && own' == Drop(own, i) && Keeps(m, own', places')
  {
    hide Memory.Valid, Memory.LiveBlocks, Payloads, Backed, Addressed, MemoryManager.Layout, MemoryManager.Reaches,
         MemoryManager.Cursor;
    m.TwoHeaps();
    OwnedLive(m, own, places, i);
    ghost var lives, w := m.Lives(), places[i];
    OneLess(lives, own, places, i);
    AddressedDrop(m.heaps, own, places, i);
    m.Free(own[i].ptr, w.heap, w.at);
    ok, own', places' := true, Drop(own, i), Drop(places, i);
  }

  lemma OwnedLive(m: MemoryManager, own: seq<Owned>, places: seq<Place>, i: nat)
    requires Keeps(m, own, places) && i < |own|
    ensures |m.heaps| <= 2 && i < |places| && own[i].ptr >= 0 && m.IsLive(own[i].ptr, places[i].heap, places[i].at)
    ensures own[i].bytes <= WORD_BYTES * m.Lives()[places[i].heap][places[i].at]
  {
    assert BackedBy(m.Lives(), own[i], places[i]) && AddressedAt(m.heaps, own[i], places[i]);
  }

  method Resize(m: MemoryManager, i: nat, bytes: nat, own: seq<Owned>, ghost places: seq<Place>)
    returns (ok: bool, own': seq<Owned>, ghost places': seq<Place>)
    requires Keeps(m, own, places) && i < |own|
    modifies m, m.Heaps()
    ensures |m.heaps| <= 2 && fresh(m.Heaps() - old(m.Heaps()))
    ensures ok ==> Keeps(m, own', places') && Result(DoRealloc(i, bytes), own, own', Nothing(m, bytes))
    ensures |old(m.heaps)| <= 2 && i < |places|
    ensures ok ==> bytes <= MAX_REQUEST && old(m.Sound(own[i].ptr, bytes, places[i].heap, places[i].at))
    ensures bytes <= MAX_REQUEST && m.seesFailure && old(m.Sound(own[i].ptr, bytes, places[i].heap, places[i].at)) ==>
              ok
    ensures !ok && m.seesFailure ==>
              && own' == own && places' == places && Keeps(m, own', places')
              && !(bytes <= MAX_REQUEST && m.Sound(own[i].ptr, bytes, places[i].heap, places[i].at))
  {
    hide Memory.Valid, Memory.LiveBlocks, Payloads, Handed, Padded, Backed, Addressed, CopiedWords, WordsFor,
         MemoryManager.Layout, MemoryManager.Reaches, MemoryManager.Cursor, MemoryManager.Plain,
         MemoryManager.InOneHeap, MemoryManager.StaysHere, MemoryManager.Leaves, MemoryManager.CanGrow,
         MemoryManager.NothingFits;
    m.TwoHeaps();
    own', places' := own, places;
    var ptr := own[i].ptr;
    OwnedLive(m, own, places, i);
    ghost var lives, w := m.Lives(), places[i];
    var heap := m.FindHeap(ptr, w.heap, w.at);
    var at := ptr / 4 - m.heaps[heap].base;
    ok := bytes <= MAX_REQUEST && m.Sound(ptr, bytes, heap, at);
    if !ok { return; }
    OneLess(lives, own, places, i);
    AddressedDrop(m.heaps, own, places, i);
    AdjustedGood(bytes);
    ghost var heaps := m.heaps;
    var r;
    ghost var k2, p2, n;
    r, k2, p2, n := m.Realloc(ptr, bytes, w.heap, w.at);
    ok := !m.stray;
    if !ok { return; }
    StillAddressed(heaps, m.heaps, own, places);
    StillAddressed(heaps, m.heaps, Drop(own, i), Drop(places, i));
    if bytes == 0 {
      own', places' := Drop(own, i), Drop(places, i);
    } else if r == -1 {
      StillBacked(lives, m.Lives(), own, places);
    } else {
      own', places' := Drop(own, i) + [Owned(r, bytes)], Drop(places, i) + [Place(k2, p2)];
      OneMore(Without(lives, ptr, w.heap, w.at), m.Lives(), Drop(own, i), Drop(places, i), Owned(r, bytes),
              Place(k2, p2), n);
      AddressedOneMore(m.heaps, Drop(own, i), Drop(places, i), Owned(r, bytes), Place(k2, p2));
    }
  }

  /** What a program owned after each of the calls; a null pointer leaves it as it was. */
  ghost predicate Follows(requests: seq<Request>, trace: seq<seq<Owned>>) {
    && |trace| == |requests| + 1 && trace[0] == []
    && forall n :: 0 <= n < |requests| ==> Result(requests[n], trace[n], trace[n + 1], true)
  }

  lemma FollowsOne(requests: seq<Request>, trace: seq<seq<Owned>>, n: nat, own: seq<Owned>, nothing: bool)
    requires n < |requests| && Follows(requests[..n], trace) && Result(requests[n], trace[n], own, nothing)
    ensures Follows(requests[..n + 1], trace + [own])
  {
    hide Result;
    ResultWeaker(requests[n], trace[n], own, nothing);
    var more := trace + [own];
    forall k | 0 <= k < n + 1 ensures Result(requests[k], more[k], more[k + 1], true) {
      if k < n { assert Result(requests[..n][k], trace[k], trace[k + 1], true); }
    }
  }

  lemma NoCalls(requests: seq<Request>)
    ensures Follows(requests[..0], [[]])
  {
  }

  lemma ResultWeaker(r: Request, own: seq<Owned>, own': seq<Owned>, nothing: bool)
    requires Result(r, own, own', nothing)
    ensures Result(r, own, own', true)
  {
  }

  /** After any calls that were made, the pointers a program owns are to live blocks inside the heaps, as
      large as asked for, and no two of them overlap. Where failed growth is seen, the calls stop only
      before one that would not be answered as it should be. */
  method PerformAll(m: MemoryManager, requests: seq<Request>)
    returns (ok: bool, made: nat, own: seq<Owned>, ghost places: seq<Place>, ghost trace: seq<seq<Owned>>)
    requires m.Valid()
    modifies m, m.Heaps()
    ensures made <= |requests| && (ok ==> made == |requests| && Keeps(m, own, places))
    ensures |trace| == made + 1 && Follows(requests[..made], trace) && (ok || m.seesFailure ==> own == trace[made])
    ensures |m.heaps| <= 2 && (m.seesFailure && !ok ==>
              && made < |requests| && Keeps(m, own, places) && |own| == |places|
              && !Proper(m, requests[made], own, places))
    ensures ok ==> forall i :: 0 <= i < |own| ==> m.initialHeap < own[i].ptr && own[i].ptr + own[i].bytes <= m.sbrkBytes
    ensures ok ==> forall i, j :: 0 <= i < j < |own| ==>
              own[i].ptr + own[i].bytes <= own[j].ptr || own[j].ptr + own[j].bytes <= own[i].ptr
  {
    hide Memory.Valid, Memory.LiveBlocks, MemoryManager.Layout, MemoryManager.Reaches, MemoryManager.Cursor, Follows,
         Result, Proper, Nothing;
    m.TwoHeaps();
    NoCalls(requests);
    own, places, ok, made, trace := [], [], true, 0, [[]];
    while made < |requests| && ok
      invariant 0 <= made <= |requests| && |m.heaps| <= 2 && fresh(m.Heaps() - old(m.Heaps()))
      invariant ok ==> Keeps(m, own, places)
      invariant !ok ==> made < |requests|
      invariant |trace| == made + 1 && Follows(requests[..made], trace) && (ok || m.seesFailure ==> own == trace[made])
      invariant !ok && m.seesFailure ==>
                  Keeps(m, own, places) && |own| == |places| && !Proper(m, requests[made], own, places)
      decreases |requests| - made, ok
    {
      ok, own, places := Perform(m, requests[made], own, places);
      if ok {
        FollowsOne(requests, trace, made, own, Nothing(m, Asked(requests[made])));
        trace := trace + [own];
        made := made + 1;
      }
    }
    if ok { OwnedApart(m, own, places); }
  }

  lemma OwnedApart(m: MemoryManager, own: seq<Owned>, places: seq<Place>)
    requires Keeps(m, own, places)
    ensures forall i :: 0 <= i < |own| ==> m.initialHeap < own[i].ptr && own[i].ptr + own[i].bytes <= m.sbrkBytes
    ensures forall i, j :: 0 <= i < j < |own| ==>
              own[i].ptr + own[i].bytes <= own[j].ptr || own[j].ptr + own[j].bytes <= own[i].ptr
  {
    hide Memory.Valid, Memory.LiveBlocks, MemoryManager.Layout, MemoryManager.Reaches, MemoryManager.Cursor;
    forall i | 0 <= i < |own| ensures m.initialHeap < own[i].ptr && own[i].ptr + own[i].bytes <= m.sbrkBytes {
      OwnedLive(m, own, places, i);
      m.LiveBelow(places[i].heap, places[i].at);
    }
    forall i, j | 0 <= i < j < |own|
      ensures own[i].ptr + own[i].bytes <= own[j].ptr || own[j].ptr + own[j].bytes <= own[i].ptr
    {
      OwnedLive(m, own, places, i);
      OwnedLive(m, own, places, j);
      m.LiveApart(places[i].heap, places[i].at, places[j].heap, places[j].at);
    }
  }
}
