/** The memory manager: a static first heap, heaps grown with sbrk, and malloc, realloc and free over
    all of them. */
module MallocManager {
  import opened MallocBlocks
  import opened MallocHeap
  import opened PowersOfTwo

  const PAGE: nat := 0x1_0000
  const INITIAL_BYTES: nat := 8192
  const INITIAL_WORDS: nat := 2048
  const HEAPS_SIZE: nat := 16
  const INT32_MAX: nat := 0x7FFF_FFFF
  /** The largest request that rounding up leaves as it is; the three above it round to 4. */
  const MAX_REQUEST: nat := 0xFFFF_FFFC

  // ----- several heaps as values -----

  /** Every live block of the old heaps holds the same words. */
  ghost predicate Payloads(m0: seq<seq<Word>>, l0: seq<map<nat, nat>>, m1: seq<seq<Word>>) {
    && |m0| == |l0| <= |m1|
    && forall j :: 0 <= j < |m0| ==> |m0[j]| <= |m1[j]| && SamePayloads(m0[j], m1[j], l0[j])
  }

  /** The live blocks of n heaps, of which the later ones are new. */
  ghost function Padded(l: seq<map<nat, nat>>, n: nat): seq<map<nat, nat>>
    requires |l| <= n
  {
    l + seq(n - |l|, _ => map[])
  }

  ghost predicate Kept(m0: seq<seq<Word>>, l0: seq<map<nat, nat>>, m1: seq<seq<Word>>, l1: seq<map<nat, nat>>) {
    Payloads(m0, l0, m1) && |l1| == |m1| && l1 == Padded(l0, |l1|)
  }

  lemma KeptTrans(m0: seq<seq<Word>>, l0: seq<map<nat, nat>>, m1: seq<seq<Word>>, l1: seq<map<nat, nat>>,
                  m2: seq<seq<Word>>)
    requires Kept(m0, l0, m1, l1) && Payloads(m1, l1, m2)
    ensures Payloads(m0, l0, m2)
  {
    forall j | 0 <= j < |m0| ensures |m0[j]| <= |m2[j]| && SamePayloads(m0[j], m2[j], l0[j]) {
      assert l1[j] == l0[j];
      SamePayloadsChain(m0[j], m1[j], m2[j], l0[j]);
    }
  }

  lemma PaddedTwice(l: seq<map<nat, nat>>, n: nat, m: nat)
    requires |l| <= n <= m
    ensures Padded(Padded(l, n), m) == Padded(l, m)
  {
  }

  lemma KeptRefl(m: seq<seq<Word>>, l: seq<map<nat, nat>>)
    requires |m| == |l|
    ensures Kept(m, l, m, l)
  {
    forall j | 0 <= j < |m| ensures SamePayloads(m[j], m[j], l[j]) { SameMemory(m[j], l[j]); }
  }

  lemma KeptGrow(m: seq<seq<Word>>, l: seq<map<nat, nat>>, x: seq<Word>)
    requires |m| == |l|
    ensures Kept(m, l, m + [x], l + [map[]])
  {
    KeptRefl(m, l);
    forall j | 0 <= j < |m| ensures SamePayloads(m[j], (m + [x])[j], l[j]) { SameMemory(m[j], l[j]); }
    assert Padded(l, |l| + 1) == l + [map[]];
  }

  lemma KeptPair(m0: seq<seq<Word>>, l0: seq<map<nat, nat>>, m1: seq<seq<Word>>, l1: seq<map<nat, nat>>,
                 m2: seq<seq<Word>>, l2: seq<map<nat, nat>>)
    requires Kept(m0, l0, m1, l1) && Kept(m1, l1, m2, l2)
    ensures Kept(m0, l0, m2, l2)
  {
    KeptTrans(m0, l0, m1, l1, m2);
    PaddedTwice(l0, |l1|, |l2|);
  }

  lemma KeptSame(m: seq<seq<Word>>, l: seq<map<nat, nat>>, m': seq<seq<Word>>)
    requires |m| == |l| && Payloads(m, l, m') && |m'| == |m|
    ensures Kept(m, l, m', l)
  {
    assert Padded(l, |l|) == l;
  }

  /** Rounds a size in bytes up, so that with its header it is a multiple of eight, in 32 bits. */
  function AdjustToMemBlock(size: nat): nat {
    var remainder := ((size + 4) % U32) % 8;
    if remainder > 0 then (size + (8 - remainder)) % U32 else size
  }

  /** The adjusted size in words. */
  function WordsFor(bytes: nat): nat { AdjustToMemBlock(bytes) / WORD_BYTES }

  /** Rounding is right for every size but the three largest, which become 4. */
  lemma AdjustedGood(bytes: nat)
    requires bytes < U32
    ensures RequestSize(WordsFor(bytes)) && WORD_BYTES * WordsFor(bytes) == AdjustToMemBlock(bytes)
    ensures bytes <= MAX_REQUEST ==> bytes <= WORD_BYTES * WordsFor(bytes) < bytes + 8
    ensures bytes > MAX_REQUEST ==> WordsFor(bytes) == 1
  {
    hide RequestSize;
    AdjustedIs(bytes);
    var size := AdjustToMemBlock(bytes);
    var blocks := size / 8;
    assert size == 8 * blocks + 4 && WordsFor(bytes) == 2 * blocks + 1;
    RequestSizeOdd(WordsFor(bytes));
  }

  lemma SmallRequest(bytes: nat)
    requires bytes <= 8188
    ensures WordsFor(bytes) <= 2047
  {
    AdjustedGood(bytes);
    RequestSizeOdd(WordsFor(bytes));
  }

  /** The rounding in 32 bits: up by less than 8, or around to 4. */
  lemma AdjustedIs(bytes: nat)
    requires bytes < U32
    ensures AdjustToMemBlock(bytes) % 8 == 4 && AdjustToMemBlock(bytes) < U32
    ensures bytes <= MAX_REQUEST ==> bytes <= AdjustToMemBlock(bytes) < bytes + 8
    ensures bytes > MAX_REQUEST ==> AdjustToMemBlock(bytes) == 4
  {
    if bytes + 4 >= U32 {
      DivUnique(bytes + 4, U32, 1, bytes + 4 - U32);
      DivUnique(bytes + 4 - U32, 8, 0, bytes + 4 - U32);
    } else {
      DivUnique(bytes + 4, U32, 0, bytes + 4);
      var blocks, rest := (bytes + 4) / 8, (bytes + 4) % 8;
      assert bytes + 4 == blocks * 8 + rest && 0 <= rest < 8;
      if rest > 0 {
        DivUnique(blocks * 8 + 4, U32, 0, blocks * 8 + 4);
        DivUnique(blocks * 8 + 4, 8, blocks, 4);
      } else {
        DivUnique(bytes, 8, blocks - 1, 4);
      }
    }
  }

  lemma PagesFor(bytes: nat, pages: nat)
    ensures (bytes + PAGE - 1) / PAGE <= pages <==> bytes <= pages * PAGE
    ensures bytes <= (bytes + PAGE - 1) / PAGE * PAGE
  {
  }

  lemma PageMultiple(pages: nat)
    ensures (pages * PAGE) % 8 == 0
  {
    assert pages * PAGE == 8 * (pages * 8192);
  }

  lemma MultipleSum(a: nat, b: nat)
    requires a % 8 == 0 && b % 8 == 0
    ensures (a + b) % 8 == 0
  {
  }

  lemma Quarters(x: nat)
    requires x % 8 == 0
    ensures WORD_BYTES * (x / 4) == x && (x / 4) % 2 == 0
  {
    var y := x / 8;
    assert x == 8 * y && x / 4 == 2 * y;
  }

  function RoundUp(n: nat): nat { (n + 7) / 8 * 8 }

  lemma RoundedUp(n: nat)
    ensures n <= RoundUp(n) < n + 8 && RoundUp(n) % 8 == 0
  {
  }

  function With(live: map<nat, nat>, p: nat, n: nat): map<nat, nat> { live[p := n] }

  lemma WithIs(live: map<nat, nat>, p: nat, n: nat)
    ensures With(live, p, n) == live[p := n]
  {
  }

  /** n words at p of heap k were handed out, and nothing else changed hands. */
  ghost predicate Handed(l0: seq<map<nat, nat>>, l1: seq<map<nat, nat>>, k: nat, p: nat, n: nat) {
    |l0| <= |l1| && k < |l1| && var l := Padded(l0, |l1|); p !in l[k] && l1 == l[k := With(l[k], p, n)]
  }

  ghost predicate NoRun(bs: seq<Block>, size: nat) { forall h: nat :: !SomeRunFits(bs, h, size) }

  /** The lowest run of free blocks that can hold the size starts with the payload at p. */
  ghost predicate LowestAt(bs: seq<Block>, size: nat, p: int) {
    exists i: nat :: i < |bs| && LowestRun(bs, i, size) && p == StartOf(bs, i, 0)
  }

  /** Heap j comes before heap k when they are visited in turn from `start` on. */
  predicate Earlier(start: nat, j: nat, k: nat) { if start <= k then start <= j < k else start <= j || j < k }

  /** The payload at p of heap k starts the lowest run that can hold the size in the first heap, in turn
      from `start` on, that has any. */
  ghost predicate FirstFound(lists: seq<seq<Block>>, start: nat, size: nat, k: nat, p: int) {
    && k < |lists| && LowestAt(lists[k], size, p)
    && forall j: nat :: j < |lists| && Earlier(start, j, k) ==> NoRun(lists[j], size)
  }

  lemma RunOf(bs: seq<Block>, i: nat, size: nat)
    ensures i < |bs| && LowestRun(bs, i, size) ==> SomeRunFits(bs, i, size)
  {
  }

  lemma HandedIs(l0: seq<map<nat, nat>>, l1: seq<map<nat, nat>>, k: nat, p: nat, n: nat)
    requires Handed(l0, l1, k, p, n)
    ensures k < |l1| && p in l1[k] && l1[k][p] == n
  {
  }

  lemma Replaced(l: seq<map<nat, nat>>, k: nat, p: nat, n: nat)
    requires k < |l|
    ensures var l' := l[k := With(l[k] - {p}, p, n)];
            Handed(l[k := l[k] - {p}], l', k, p, n) && p in l'[k] && l'[k][p] == n
  {
    var rest := l[k := l[k] - {p}];
    HandedOut(rest, k, p, n);
    assert rest[k := With(rest[k], p, n)] == l[k := With(l[k] - {p}, p, n)];
  }

  lemma HandedLater(m0: seq<seq<Word>>, l0: seq<map<nat, nat>>, m1: seq<seq<Word>>, l1: seq<map<nat, nat>>,
                    l2: seq<map<nat, nat>>, k: nat, p: nat, n: nat)
    requires Kept(m0, l0, m1, l1) && Handed(l1, l2, k, p, n)
    ensures Handed(l0, l2, k, p, n)
  {
    PaddedTwice(l0, |l1|, |l2|);
  }

  lemma PayloadsFrom(m0: seq<seq<Word>>, l0: seq<map<nat, nat>>, m1: seq<seq<Word>>, l1: seq<map<nat, nat>>)
    requires Kept(m0, l0, m1, l1)
    ensures Payloads(m0, l0, m1)
  {
  }

  lemma PayloadsPut(m: seq<seq<Word>>, l: seq<map<nat, nat>>, k: nat, x: seq<Word>)
    requires |m| == |l| && k < |m| && |m[k]| <= |x| && SamePayloads(m[k], x, l[k])
    ensures Payloads(m, l, m[k := x])
  {
    KeptRefl(m, l);
  }

  lemma HandedOut(l: seq<map<nat, nat>>, k: nat, p: nat, n: nat)
    requires k < |l| && p !in l[k]
    ensures Handed(l, l[k := With(l[k], p, n)], k, p, n)
  {
    assert Padded(l, |l|) == l;
  }

  lemma Longer(m: seq<Word>, m': seq<Word>, live: map<nat, nat>)
    requires m <= m'
    ensures SamePayloads(m, m', live)
  {
  }

  /** b is the first multiple of d after a. */
  predicate NextMultiple(d: nat, a: nat, b: nat)
    requires d > 0
  {
    b % d == 0 && a < b <= a + d
  }

  /** Where growth moves the break: to the next page, or, with less than 1 KiB left in this one, to the
      next even page. */
  predicate GrowsTo(a: nat, b: nat) { NextMultiple(if a % PAGE <= PAGE - 1024 then PAGE else 2 * PAGE, a, b) }

  lemma OneMultiple(d: nat, a: nat, b: nat, c: nat)
    requires d > 0 && NextMultiple(d, a, b) && NextMultiple(d, a, c)
    ensures b == c
  {
    var q := b / d - c / d;
    assert b - c == q * d;
    MultipleBig(q, d);
  }

  lemma OneGrowth(a: nat, b: nat, c: nat)
    requires GrowsTo(a, b) && GrowsTo(a, c)
    ensures b == c
  {
    OneMultiple(if a % PAGE <= PAGE - 1024 then PAGE else 2 * PAGE, a, b, c);
  }

  /** Growth gives the 1 KiB that it is meant to give except near the end of an odd page, where the next
      even page begins right after it. */
  lemma GrowthEnough(a: nat, b: nat)
    requires GrowsTo(a, b)
    ensures b - a >= 1024 <==> a % PAGE <= PAGE - 1024 || (a / PAGE) % 2 == 0
  {
    var q, r := a / PAGE, a % PAGE;
    assert a == q * PAGE + r;
    if r <= PAGE - 1024 {
      DivUnique((q + 1) * PAGE, PAGE, q + 1, 0);
      OneMultiple(PAGE, a, b, (q + 1) * PAGE);
    } else {
      var h := q / 2;
      DivUnique((h + 1) * (2 * PAGE), 2 * PAGE, h + 1, 0);
      OneMultiple(2 * PAGE, a, b, (h + 1) * (2 * PAGE));
    }
  }

  /** To the end of the page, or of the next one when less than 1 KiB would be left. */
  function HeapAdjustment(current: nat): int {
    if current % PAGE <= PAGE - 1024 then (current + PAGE) - current % PAGE - current
    else (current + PAGE * 2) - current % (PAGE * 2) - current
  }

  lemma AdjustmentIs(current: nat)
    requires current % 8 == 0
    ensures 0 < HeapAdjustment(current) <= 2 * PAGE && HeapAdjustment(current) % 8 == 0
    ensures RoundUp(HeapAdjustment(current)) == HeapAdjustment(current)
    ensures GrowsTo(current, current + HeapAdjustment(current))
  {
    var d := if current % PAGE <= PAGE - 1024 then PAGE / 8 else 2 * PAGE / 8;
    ScaleDiv(8, current / 8, d);
    EightTimes(d - current / 8 % d);
    Aligned(current, 8 * d);
  }

  lemma Aligned(a: nat, d: nat)
    requires d > 0
    ensures NextMultiple(d, a, a + d - a % d)
  {
    var q := a / d;
    assert (q + 1) * d == q * d + d;
    DivUnique(a + d - a % d, d, q + 1, 0);
  }

  lemma EightTimes(k: nat)
    ensures (8 * k) % 8 == 0 && RoundUp(8 * k) == 8 * k
  {
    DivUnique(8 * k, 8, k, 0);
    DivUnique(8 * k + 7, 8, k, 7);
  }

  lemma PayloadsTwice(m0: seq<seq<Word>>, l: seq<map<nat, nat>>, m1: seq<seq<Word>>, m2: seq<seq<Word>>)
    requires Payloads(m0, l, m1) && |m1| == |m0| && Payloads(m1, l, m2)
    ensures Payloads(m0, l, m2)
  {
    KeptSame(m0, l, m1);
    KeptTrans(m0, l, m1, l, m2);
  }

  /** Heap j has been searched, when the search began at `end` and n of `all` heaps are done. */
  predicate Visited(j: nat, end: nat, n: nat, all: nat) { n == all || (n > 0 && j == end) }

  lemma KeptLives(m0: seq<seq<Word>>, l0: seq<map<nat, nat>>, m1: seq<seq<Word>>, l1: seq<map<nat, nat>>)
    requires Kept(m0, l0, m1, l1)
    ensures |l1| >= |l0| && l1 == Padded(l0, |l1|)
  {
  }

  /** The address in bytes of the payload at p of a heap. */
  function Address(h: Memory, p: nat): nat { WORD_BYTES * (h.base + p) }

  /** The n words at p are now at q. */
  ghost predicate CopiedWords(m: seq<Word>, p: nat, m': seq<Word>, q: nat, n: nat) {
    p + n <= |m| && q + n <= |m'| && m'[q..q + n] == m[p..p + n]
  }

  lemma CopyStep(m: seq<Word>, p: nat, m': seq<Word>, q: nat, i: nat)
    requires CopiedWords(m, p, m', q, i) && p + i < |m| && q + i < |m'|
    ensures CopiedWords(m, p, m'[q + i := m[p + i]], q, i + 1)
  {
    var next := m'[q + i := m[p + i]];
    assert next[q..q + (i + 1)] == m'[q..q + i] + [m[p + i]];
    assert m[p..p + (i + 1)] == m[p..p + i] + [m[p + i]];
  }

  lemma SourceKept(m: seq<Word>, m': seq<Word>, live: map<nat, nat>, p: nat, q: nat, i: nat)
    requires SamePayloads(m, m', live - {q}) && p in live && p != q && i < live[p] && p + i < |m| == |m'|
    ensures m'[p + i] == m[p + i]
  {
    assert p in live - {q};
    assert SameWords(m, m', p, live[p]);
  }

  lemma WithBack(live: map<nat, nat>, p: nat, n: nat)
    ensures With(live - {p}, p, n) == live[p := n]
  {
  }

  lemma SameIsCopied(m: seq<Word>, m': seq<Word>, p: nat, n: nat)
    requires SameWords(m, m', p, n) && p + n <= |m| && p + n <= |m'|
    ensures CopiedWords(m, p, m', p, n)
  {
    assert forall j :: p <= j < p + n ==> m'[j] == m[j];
  }

  lemma FewerLive(m: seq<Word>, m': seq<Word>, live: map<nat, nat>, fewer: map<nat, nat>)
    requires SamePayloads(m, m', live) && forall p :: p in fewer ==> p in live && live[p] == fewer[p]
    ensures SamePayloads(m, m', fewer)
  {
    forall p | p in fewer ensures SameWords(m, m', p, fewer[p]) { assert SameWords(m, m', p, live[p]); }
  }

  /** After a block was handed out, another one is still live. */
  lemma StillLive(l0: seq<map<nat, nat>>, l1: seq<map<nat, nat>>, from: nat, p: nat, k: nat, q: nat, n: nat)
    requires Handed(l0, l1, k, q, n) && from < |l0| && p in l0[from]
    ensures from < |l1| && p in l1[from] && l1[from][p] == l0[from][p] && (from != k || p != q)
    ensures q in l1[k] && l1[k][q] == n
  {
  }

  /** Handing out, copying and freeing, put together. */
  lemma Moved(m0: seq<seq<Word>>, l0: seq<map<nat, nat>>, m1: seq<seq<Word>>, l1: seq<map<nat, nat>>,
              m2: seq<seq<Word>>, m3: seq<seq<Word>>, l3: seq<map<nat, nat>>, from: nat, p: nat, k: nat, q: nat,
              n: nat, size: nat)
    requires |m0| == |l0| <= |m1| == |l1| == |m2| == |m3| == |l3|
    requires from < |l0| && p in l0[from] && p + n <= |m0[from]| && n <= l0[from][p] && n <= size && k < |m1|
    requires Payloads(m0, l0, m1) && Handed(l0, l1, k, q, size)
    requires |m2[k]| == |m1[k]| && SamePayloads(m1[k], m2[k], l1[k] - {q})
    requires (forall j :: 0 <= j < |m1| && j != k ==> m2[j] == m1[j])
    requires CopiedWords(m1[from], p, m2[k], q, n)
    requires Payloads(m2, l1, m3) && l3 == l1[from := l1[from] - {p}]
    ensures Handed(l0[from := l0[from] - {p}], l3, k, q, size)
    ensures CopiedWords(m0[from], p, m3[k], q, n)
    ensures Payloads(m0, l0[from := l0[from] - {p}], m3)
  {
    StillLive(l0, l1, from, p, k, q, size);
    MovedLives(l0, l1, l3, from, p, k, q, size);
    MovedWords(m0, l0, m1, m2, m3, l1, from, p, k, q, n);
    MovedPayloads(m0, l0, m1, l1, m2, m3, from, p, k, q, size);
  }

  lemma MovedLives(l0: seq<map<nat, nat>>, l1: seq<map<nat, nat>>, l3: seq<map<nat, nat>>, from: nat, p: nat, k: nat,
                   q: nat, size: nat)
    requires Handed(l0, l1, k, q, size) && from < |l0| && p in l0[from] && l3 == l1[from := l1[from] - {p}]
    ensures Handed(l0[from := l0[from] - {p}], l3, k, q, size)
  {
    var l0' := l0[from := l0[from] - {p}];
    var l, l' := Padded(l0, |l1|), Padded(l0', |l1|);
    assert l' == l[from := l[from] - {p}];
    if from == k {
      assert With(l[k], q, size) - {p} == With(l[k] - {p}, q, size);
    }
    assert l3 == l'[k := With(l'[k], q, size)];
  }

  lemma MovedWords(m0: seq<seq<Word>>, l0: seq<map<nat, nat>>, m1: seq<seq<Word>>, m2: seq<seq<Word>>,
                   m3: seq<seq<Word>>,
                   l1: seq<map<nat, nat>>, from: nat, p: nat, k: nat, q: nat, n: nat)
    requires |m0| == |l0| <= |m1| == |m2| == |m3| == |l1| && from < |l0| && k < |m1|
    requires p in l0[from] && n <= l0[from][p] && p + n <= |m0[from]| && q in l1[k] && n <= l1[k][q]
    requires Payloads(m0, l0, m1) && CopiedWords(m1[from], p, m2[k], q, n) && Payloads(m2, l1, m3)
    ensures CopiedWords(m0[from], p, m3[k], q, n)
  {
    assert SameWords(m0[from], m1[from], p, l0[from][p]);
    assert SameWords(m2[k], m3[k], q, l1[k][q]);
    SameIsCopied(m0[from], m1[from], p, n);
    SameIsCopied(m2[k], m3[k], q, n);
  }

  lemma MovedPayloads(m0: seq<seq<Word>>, l0: seq<map<nat, nat>>, m1: seq<seq<Word>>, l1: seq<map<nat, nat>>,
                      m2: seq<seq<Word>>, m3: seq<seq<Word>>, from: nat, p: nat, k: nat, q: nat, size: nat)
    requires |m0| == |l0| <= |m1| == |l1| == |m2| == |m3| && from < |l0| && k < |m1|
    requires Payloads(m0, l0, m1) && Handed(l0, l1, k, q, size)
    requires |m2[k]| == |m1[k]| && SamePayloads(m1[k], m2[k], l1[k] - {q})
    requires (forall j :: 0 <= j < |m1| && j != k ==> m2[j] == m1[j])
    requires Payloads(m2, l1, m3)
    ensures Payloads(m0, l0[from := l0[from] - {p}], m3)
  {
    var l0' := l0[from := l0[from] - {p}];
    forall j | 0 <= j < |m0| ensures |m0[j]| <= |m3[j]| && SamePayloads(m0[j], m3[j], l0'[j]) {
      assert Padded(l0, |l1|)[j] == l0[j];
      assert forall x :: x in l0[j] ==> x in l1[j] && l1[j][x] == l0[j][x] && (j == k ==> x != q);
      if j != k { SameMemory(m1[j], l0[j]); }
      FewerLive(m1[j], m2[j], if j == k then l1[j] - {q} else l0[j], l0[j]);
      FewerLive(m2[j], m3[j], l1[j], l0[j]);
      SamePayloadsChain(m0[j], m1[j], m2[j], l0[j]);
      SamePayloadsChain(m0[j], m2[j], m3[j], l0[j]);
      FewerLive(m0[j], m3[j], l0[j], l0'[j]);
    }
  }

  /** The live blocks without the one at p of heap k, when there is one. */
  ghost function Without(l: seq<map<nat, nat>>, ptr: int, k: nat, p: nat): seq<map<nat, nat>>
    requires ptr != -1 ==> k < |l|
  {
    if ptr == -1 then l else l[k := l[k] - {p}]
  }

  lemma PayloadsWithout(m0: seq<seq<Word>>, l: seq<map<nat, nat>>, m1: seq<seq<Word>>, ptr: int, k: nat, p: nat)
    requires Payloads(m0, l, m1) && (ptr != -1 ==> k < |l|)
    ensures Payloads(m0, Without(l, ptr, k, p), m1)
  {
    var l' := Without(l, ptr, k, p);
    forall j | 0 <= j < |m0| ensures SamePayloads(m0[j], m1[j], l'[j]) { FewerLive(m0[j], m1[j], l[j], l'[j]); }
  }

  class MemoryManager {
    /** The address of the static array, and the most pages the host gives. */
    const initialHeap: nat
    const maxPages: nat
    /** Whether the widening of a 32-bit pointer makes the -1 of a failed sbrk the 64-bit -1 it is compared
        with: true when the top bit is copied, false when zeros are put in front. */
    const seesFailure: bool
    /** A failed sbrk went unseen, and a heap was set up at its address -1. */
    var stray: bool
    var sbrkBytes: nat
    var pages: nat
    /** The heaps that have been initialised. */
    var heaps: seq<Memory>
    var heapsActualSize: nat
    var activeHeap: nat
    var activeFreeHeap: nat

    /** The heaps, of which there are never more than two. */
    ghost function Heaps(): set<Memory>
      reads `heaps
    {
      if heaps == [] then {} else if |heaps| == 1 then {heaps[0]} else {heaps[0], heaps[1]}
    }

    ghost function Mems(): seq<seq<Word>>
      requires |heaps| <= 2
      reads `heaps, Heaps()
    {
      if heaps == [] then [] else if |heaps| == 1 then [heaps[0].mem] else [heaps[0].mem, heaps[1].mem]
    }

    /** The live blocks of each heap, by payload address inside it. There are never more than two heaps. */
    ghost function Lives(): seq<map<nat, nat>>
      requires |heaps| <= 2
      reads `heaps, Heaps()
    {
      if heaps == [] then []
      else if |heaps| == 1 then [heaps[0].LiveBlocks()]
      else [heaps[0].LiveBlocks(), heaps[1].LiveBlocks()]
    }

    /** The blocks of each heap. */
    ghost function Lists(): seq<seq<Block>>
      requires |heaps| <= 2
      reads `heaps, Heaps()
    {
      if heaps == [] then [] else if |heaps| == 1 then [heaps[0].blocks] else [heaps[0].blocks, heaps[1].blocks]
    }

    /** The length of each heap. */
    ghost function Sizes(): seq<nat>
      requires |heaps| <= 2
      reads `heaps, Heaps()
    {
      if heaps == [] then [] else if |heaps| == 1 then [|heaps[0].mem|] else [|heaps[0].mem|, |heaps[1].mem|]
    }

    ghost function End(k: nat): nat
      requires k < |heaps| <= 2
      reads `heaps, Heaps()
    {
      heaps[k].base + |heaps[k].mem|
    }

    /** The heaps lie one after the other below the break. */
    ghost predicate Layout()
      reads `heaps, `sbrkBytes, `pages, Heaps()
    {
      && maxPages * PAGE < ALLOC_MASK && pages <= maxPages && sbrkBytes % 8 == 0 && sbrkBytes <= pages * PAGE
      && initialHeap % 8 == 0 && initialHeap + INITIAL_BYTES <= sbrkBytes
      && |heaps| <= 2
      && (forall k :: 0 <= k < |heaps| ==> heaps[k].Valid() && WORD_BYTES * End(k) <= sbrkBytes)
      && (heaps != [] ==> WORD_BYTES * heaps[0].base == initialHeap)
      && (|heaps| == 2 ==> heaps[0] != heaps[1] && End(0) <= heaps[1].base)
    }

    /** A second heap reaches up to the break, as nobody else moves it. */
    ghost predicate Reaches(top: nat)
      reads `heaps, Heaps()
    {
      |heaps| == 2 ==> WORD_BYTES * End(1) == top
    }

    /** Growth has failed: the last heap is closed as well. */
    predicate Exhausted()
      reads this
    {
      activeHeap == heapsActualSize == |heaps|
    }

    /** All heaps but the active one are fully carved. */
    ghost predicate Cursor()
      reads this, Heaps()
    {
      && (heaps == [] ==>
            activeHeap == 0 && activeFreeHeap == 0 && (heapsActualSize == 0 || heapsActualSize == HEAPS_SIZE))
      && (heaps != [] ==>
            && activeFreeHeap < |heaps|
            && ((activeHeap == |heaps| - 1 && heapsActualSize == HEAPS_SIZE) || Exhausted()))
      && |heaps| <= 2 && forall k :: 0 <= k < |heaps| && k < activeHeap ==> heaps[k].offset == |heaps[k].mem|
    }

    ghost predicate Valid()
      reads this, Heaps()
    {
      !stray && Layout() && Reaches(sbrkBytes) && Cursor() && (heaps != [] && Exhausted() ==> !CanGrow())
    }

    /** The host still gives the memory that the next growth asks for. */
    ghost predicate CanGrow()
      reads `sbrkBytes
    {
      exists b: nat :: GrowsTo(sbrkBytes, b) && b <= maxPages * PAGE
    }

    lemma CanGrowIs(b: nat)
      requires GrowsTo(sbrkBytes, b)
      ensures CanGrow() <==> b <= maxPages * PAGE
    {
      forall c: nat | GrowsTo(sbrkBytes, c) ensures c == b { OneGrowth(sbrkBytes, b, c); }
    }

    /** The break has moved since it was at `from`, and the block at p of heap k reaches past the place
        where it was before it last moved. */
    ghost predicate Needed(from: nat, k: nat, p: int, size: nat)
      reads `heaps, `sbrkBytes
    {
      k < |heaps| && exists b: nat :: from <= b && GrowsTo(b, sbrkBytes) && WORD_BYTES * (heaps[k].base + p + size) > b
    }

    /** Where the active heap would carve next; 0 before there is one and when all are closed. */
    function ActiveOffset(): nat
      requires |heaps| <= 2
      reads this, Heaps()
    {
      if activeHeap < |heaps| then heaps[activeHeap].offset else 0
    }

    /** Heap k is the static array. */
    predicate StaticAt(k: nat)
      reads `heaps
    {
      k < |heaps| && WORD_BYTES * heaps[k].base == initialHeap
    }

    /** How many words the active heap has left to carve. */
    function Unused(): int
      requires |heaps| <= 2
      reads this, Heaps()
    {
      if activeHeap < |heaps| then |heaps[activeHeap].mem| - heaps[activeHeap].offset else 0
    }

    /** The request is not carved, or its 32-bit sum does not wrap around. */
    predicate Plain(size: nat)
      requires |heaps| <= 2
      reads this, Heaps()
    {
      (heaps != [] && Exhausted()) || !Wraps(ActiveOffset(), size)
    }

    /** No block of four bytes is left, and no memory to make one of. */
    ghost predicate Full()
      requires |heaps| <= 2
      reads this, Heaps()
    {
      heaps != [] && !CanGrow() && NothingFits(1) && (Exhausted() || !HasRoom(activeHeap, 1))
    }

    /** The requests that malloc answers as it should. */
    ghost predicate Answers(bytes: nat)
      requires |heaps| <= 2
      reads this, Heaps()
    {
      bytes == 0 || (if bytes <= MAX_REQUEST then Plain(WordsFor(bytes)) else Full())
    }

    /** The bytes from ptr on lie inside one heap. */
    ghost predicate InOneHeap(ptr: int, bytes: nat)
      requires |heaps| <= 2
      reads this, Heaps()
    {
      exists k :: 0 <= k < |heaps| && WORD_BYTES * heaps[k].base <= ptr && ptr + bytes <= WORD_BYTES * End(k)
    }

    /** All heaps end below the break, and the break below 2 GiB. */
    ghost predicate Bounded()
      reads this, Heaps()
    {
      |heaps| <= 2 && sbrkBytes < ALLOC_MASK && forall k :: 0 <= k < |heaps| ==> WORD_BYTES * End(k) <= sbrkBytes
    }

    /** The block still fits above what heap k has carved. */
    ghost predicate HasRoom(k: nat, size: nat)
      requires |heaps| <= 2
      reads `heaps, Heaps()
    {
      k < |heaps| && heaps[k].offset + SIZE_MARKER + size <= |heaps[k].mem|
    }

    /** No run of free blocks in any heap can hold the size. */
    ghost predicate NothingFits(size: nat)
      requires |heaps| <= 2
      reads `heaps, Heaps()
    {
      forall bs :: bs in Lists() ==> NoRun(bs, size)
    }

    constructor (initialHeap: nat, pages: nat, maxPages: nat, seesFailure: bool)
      requires pages <= maxPages && maxPages * PAGE < ALLOC_MASK && initialHeap % 8 == 0
      requires initialHeap + INITIAL_BYTES <= pages * PAGE
      ensures Valid() && heaps == [] && this.seesFailure == seesFailure
    {
      PageMultiple(pages);
      this.initialHeap, this.maxPages, this.pages, sbrkBytes := initialHeap, maxPages, pages, pages * PAGE;
      this.seesFailure, stray, heaps := seesFailure, false, [];
      heapsActualSize, activeHeap, activeFreeHeap := 0, 0, 0;
    }

    /** The break, moved up by a multiple of eight; false stands for -1. */
    method Sbrk(numBytes: nat) returns (ok: bool, prev: nat)
      requires sbrkBytes % 8 == 0 && sbrkBytes <= pages * PAGE && pages <= maxPages
      modifies `sbrkBytes, `pages
      ensures prev == old(sbrkBytes) && sbrkBytes % 8 == 0 && sbrkBytes <= pages * PAGE && pages <= maxPages
      ensures sbrkBytes == if ok then prev + RoundUp(numBytes) else prev
      ensures ok <==> numBytes <= INT32_MAX && prev + RoundUp(numBytes) <= maxPages * PAGE
    {
      hide RoundUp;
      RoundedUp(numBytes);
      prev := sbrkBytes;
      if numBytes > INT32_MAX { return false, prev; }
      var n := RoundUp(numBytes);
      MultipleSum(sbrkBytes, n);
      PagesFor(sbrkBytes + n, pages);
      PagesFor(sbrkBytes + n, maxPages);
      var desired := (sbrkBytes + n + PAGE - 1) / PAGE;
      if desired > pages {
        if desired > maxPages { return false, prev; }
        pages := desired;
      }
      sbrkBytes := sbrkBytes + n;
      ok := true;
    }

    /** Carves up what is left of the last heap, which will not grow any more. */
    method Close(k: nat)
      requires Layout() && k < |heaps| && k == |heaps| - 1
      modifies heaps[k]
      ensures Layout() && heaps[k].offset == |heaps[k].mem| == |old(heaps[k].mem)|
      ensures old(heaps[k].offset) == |heaps[k].mem| ==> heaps[k].blocks == old(heaps[k].blocks)
      ensures Kept(old(Mems()), old(Lives()), Mems(), Lives())
    {
      hide Memory.Valid, SamePayloads, Memory.LiveBlocks, Kept, Padded, Payloads;
      heaps[k].CleanupRemaining();
      assert Lives() == old(Lives());
      PayloadsPut(old(Mems()), old(Lives()), k, heaps[k].mem);
      assert Mems() == old(Mems())[k := heaps[k].mem];
      KeptSame(old(Mems()), old(Lives()), Mems());
    }

    /** Grows the last heap when the new memory starts where it ends. */
    method Expand(k: nat, start: nat, adj: nat) returns (ok: bool)
      requires Layout() && k < |heaps| && k == |heaps| - 1 && start % 8 == 0 && adj % 8 == 0 && start + adj == sbrkBytes
      requires WORD_BYTES * End(k) <= start
      modifies heaps[k]
      ensures Layout() && heaps[k].offset == old(heaps[k].offset)
      ensures ok <==> start == WORD_BYTES * old(End(k))
      ensures ok ==> WORD_BYTES * End(k) == sbrkBytes
      ensures !ok ==> heaps[k].mem == old(heaps[k].mem)
      ensures Kept(old(Mems()), old(Lives()), Mems(), Lives())
    {
      hide Memory.Valid, SamePayloads, Live, Kept, Padded, Payloads;
      Quarters(start);
      Quarters(adj);
      ok := heaps[k].ExpandMemory(start / 4, adj / 4);
      Longer(old(heaps[k].mem), heaps[k].mem, old(heaps[k].LiveBlocks()));
      assert Lives() == old(Lives());
      PayloadsPut(old(Mems()), old(Lives()), k, heaps[k].mem);
      assert Mems() == old(Mems())[k := heaps[k].mem];
      KeptSame(old(Mems()), old(Lives()), Mems());
    }

    method AddHeap(h: Memory, start: nat, adj: nat)
      requires Layout() && |heaps| == 1 && start + adj == sbrkBytes && WORD_BYTES * End(0) <= start
      requires h != heaps[0] && h.Valid() && WORD_BYTES * h.base == start && WORD_BYTES * |h.mem| == adj
      requires h.LiveBlocks() == map[]
      modifies `heaps
      ensures Layout() && heaps == [old(heaps[0]), h] && Reaches(sbrkBytes)
      ensures Kept(old(Mems()), old(Lives()), Mems(), Lives())
    {
      hide Memory.Valid, SamePayloads, Memory.LiveBlocks, Kept, Padded, Payloads, Layout, Reaches;
      Space();
      KeptGrow(Mems(), Lives(), h.mem);
      var first := heaps[0];
      ghost var end := End(0);
      heaps := [first, h];
      LayoutTwo(start, adj, end);
      assert Mems() == [first.mem] + [h.mem] && Lives() == [first.LiveBlocks()] + [map[]];
    }

    lemma Space()
      requires Layout()
      ensures |heaps| <= 2 && maxPages * PAGE < ALLOC_MASK && pages <= maxPages && sbrkBytes % 8 == 0
      ensures sbrkBytes <= pages * PAGE
      ensures initialHeap % 8 == 0 && initialHeap + INITIAL_BYTES <= sbrkBytes
      ensures heaps != [] ==> heaps[0].Valid() && WORD_BYTES * heaps[0].base == initialHeap
    {
    }

    lemma LayoutTwo(start: nat, adj: nat, end: nat)
      requires maxPages * PAGE < ALLOC_MASK && pages <= maxPages && sbrkBytes % 8 == 0 && sbrkBytes <= pages * PAGE
      requires initialHeap % 8 == 0 && initialHeap + INITIAL_BYTES <= sbrkBytes
      requires |heaps| == 2 && heaps[0] != heaps[1] && heaps[0].Valid() && heaps[1].Valid()
      requires WORD_BYTES * heaps[0].base == initialHeap && WORD_BYTES * heaps[1].base == start
      requires start + adj == sbrkBytes
      requires end == End(0) && WORD_BYTES * end <= start && WORD_BYTES * |heaps[1].mem| == adj
      ensures Layout() && Reaches(sbrkBytes)
    {
      hide Memory.Valid;
    }

    /** The static array becomes the first heap. */
    method FirstHeap(h: Memory)
      requires Valid() && heaps == [] && heapsActualSize == HEAPS_SIZE
      requires h.Valid() && WORD_BYTES * h.base == initialHeap && |h.mem| == INITIAL_WORDS && h.LiveBlocks() == map[]
      modifies `heaps
      ensures Valid() && heaps == [h] && !Exhausted()
      ensures Kept([], [], Mems(), Lives())
    {
      hide Memory.Valid, SamePayloads, Memory.LiveBlocks, Kept, Padded, Payloads;
      KeptGrow([], [], h.mem);
      heaps := [h];
      assert Mems() == [] + [h.mem] && Lives() == [] + [map[]];
    }

    /** The active heap makes room for a new one. */
    method SwitchHeap(start: nat, adj: nat)
      requires Layout() && |heaps| == 1 && activeHeap == 0 && start % 8 == 0 && adj % 8 == 0 && 0 < adj
      requires start + adj == sbrkBytes
      requires WORD_BYTES * End(0) <= start
      modifies `heaps, `activeHeap, heaps[0]
      ensures Layout() && |heaps| == 2 && heaps[0] == old(heaps[0]) && fresh(heaps[1]) && Reaches(sbrkBytes)
      ensures heaps[1].offset == 0 && WORD_BYTES * |heaps[1].mem| == adj
      ensures activeHeap == 1 && heaps[0].offset == |heaps[0].mem|
      ensures Kept(old(Mems()), old(Lives()), Mems(), Lives())
    {
      hide Memory.Valid, Memory.LiveBlocks, Kept, Padded, Payloads;
      Close(0);
      ghost var mems, lives := Mems(), Lives();
      activeHeap := activeHeap + 1;
      Quarters(start);
      Quarters(adj);
      var h := new Memory(start / 4, adj / 4);
      AddHeap(h, start, adj);
      KeptPair(old(Mems()), old(Lives()), mems, lives, Mems(), Lives());
    }

    /** Growth failed: the active heap is closed too. */
    method GiveUp()
      requires Valid() && heaps != [] && !Exhausted() && !CanGrow()
      modifies `activeHeap, `heapsActualSize, Heaps()
      ensures Valid() && Exhausted()
      ensures old(heaps[activeHeap].offset == |heaps[activeHeap].mem|) ==> Lists() == old(Lists())
      ensures Kept(old(Mems()), old(Lives()), Mems(), Lives())
    {
      hide Memory.Valid, Memory.LiveBlocks, Kept, Padded, Payloads, Mems, Lives;
      Close(activeHeap);
      activeHeap := activeHeap + 1;
      heapsActualSize := activeHeap;
    }

    /** Gets more memory: the active heap grown, a new heap, or -1 when there is none. */
    method NextActiveHeap() returns (next: int)
      requires Valid() && heaps != [] && !Exhausted()
      modifies this, Heaps()
      ensures stray <==> !seesFailure && !old(CanGrow())
      ensures stray ==> heaps == old(heaps) && sbrkBytes == old(sbrkBytes)
      ensures !stray ==> Valid()
      ensures heaps != [] && |old(heaps)| <= |heaps| <= 2 && heaps[..|old(heaps)|] == old(heaps)
      ensures fresh(Heaps() - old(Heaps()))
      ensures Kept(old(Mems()), old(Lives()), Mems(), Lives())
      ensures !stray ==> (next == -1 <==> !old(CanGrow()))
      ensures next == -1 ==> Exhausted() && sbrkBytes == old(sbrkBytes) && heaps == old(heaps)
      ensures next == -1 && old(heaps[activeHeap].offset == |heaps[activeHeap].mem|) ==> Lists() == old(Lists())
      ensures next != -1 && !stray ==>
                && !Exhausted() && next == activeHeap
                && GrowsTo(old(sbrkBytes), sbrkBytes) && sbrkBytes == WORD_BYTES * End(activeHeap)
                && old(sbrkBytes) < sbrkBytes <= maxPages * PAGE
                && WORD_BYTES * (heaps[activeHeap].base + heaps[activeHeap].offset + old(Unused())) >= old(sbrkBytes)
                && (heaps == old(heaps) <==> old(WORD_BYTES * End(activeHeap) == sbrkBytes))
                && (heaps[activeHeap].offset == 0 || heaps[activeHeap].offset == old(heaps[activeHeap].offset))
                && HasRoom(activeHeap, 1)
    {
      hide Memory.Valid, Memory.LiveBlocks, HeapAdjustment, GrowsTo, CanGrow, RoundUp, Kept, Padded, Payloads;
      AdjustmentIs(sbrkBytes);
      BreakBound();
      var adj := HeapAdjustment(sbrkBytes);
      CanGrowIs(sbrkBytes + adj);
      var ok, start := Sbrk(adj);
      if !ok {
        if seesFailure {
          GiveUp();
          return -1;
        }
        Close(activeHeap);
        activeHeap := activeHeap + 1;
        stray := true;
        return activeHeap;
      }
      TakeMemory(start, adj);
      next := activeHeap;
    }

    /** New memory below the break: for the active heap when it touches it, or for a heap of its own. */
    method TakeMemory(start: nat, adj: nat)
      requires !stray && Layout() && Reaches(start) && Cursor() && heaps != [] && !Exhausted()
      requires start % 8 == 0 && adj % 8 == 0 && 0 < adj && start + adj == sbrkBytes
      requires WORD_BYTES * End(activeHeap) <= start
      modifies `heaps, `activeHeap, Heaps()
      ensures Valid() && !Exhausted() && heaps != [] && |old(heaps)| <= |heaps| <= 2
      ensures heaps[..|old(heaps)|] == old(heaps)
      ensures fresh(Heaps() - old(Heaps()))
      ensures Kept(old(Mems()), old(Lives()), Mems(), Lives())
      ensures WORD_BYTES * End(activeHeap) == sbrkBytes
      ensures heaps == old(heaps) <==> old(WORD_BYTES * End(activeHeap) == start)
      ensures heaps[activeHeap].offset == 0 || heaps[activeHeap].offset == old(heaps[activeHeap].offset)
      ensures HasRoom(activeHeap, 1)
      ensures WORD_BYTES * (heaps[activeHeap].base + heaps[activeHeap].offset + old(Unused())) >= start
    {
      hide Memory.Valid, Memory.LiveBlocks, HeapAdjustment, RoundUp, Kept, Padded, Payloads, CanGrow;
      HeapInBounds(heaps[activeHeap]);
      ghost var mems, lives := Mems(), Lives();
      var expanded := Expand(activeHeap, start, adj);
      if !expanded {
        ghost var mems1, lives1 := Mems(), Lives();
        SwitchHeap(start, adj);
        KeptPair(mems, lives, mems1, lives1, Mems(), Lives());
      }
    }

    /** A block carved off one heap. */
    method CarveFrom(k: nat, size: nat) returns (p: int)
      requires Valid() && RequestSize(size) && !Exhausted() && k == activeHeap < |heaps|
      modifies heaps[k]
      ensures Sizes() == old(Sizes()) && |heaps[k].mem| == |old(heaps[k].mem)|
      ensures p == -1 <==> !old(HasRoom(k, size)) && !old(Wraps(heaps[k].offset, size))
      ensures p == -1 ==> Mems() == old(Mems()) && Lives() == old(Lives()) && heaps[k].offset == old(heaps[k].offset)
      ensures p == -1 ==> Lists() == old(Lists())
      ensures p != -1 ==> p == old(heaps[k].offset) + SIZE_MARKER
      ensures !old(Wraps(heaps[k].offset, size)) ==> Valid()
      ensures p != -1 && !old(Wraps(heaps[k].offset, size)) ==>
                Handed(old(Lives()), Lives(), k, p, size) && Payloads(old(Mems()), old(Lives()), Mems())
    {
      hide Memory.Valid, SamePayloads, Live, Payloads, Handed, With, HeapAdjustment;
      HeapInBounds(heaps[k]);
      p := heaps[k].Malloc(size);
      if p != -1 && !Wraps(old(heaps[k].offset), size) {
        PayloadsPut(old(Mems()), old(Lives()), k, heaps[k].mem);
        assert Mems() == old(Mems())[k := heaps[k].mem];
        HandedOut(old(Lives()), k, p, size);
        WithIs(old(heaps[k].LiveBlocks()), p, size);
        assert Lives() == old(Lives())[k := heaps[k].LiveBlocks()];
      }
    }

    method TryFreed(k: nat, size: nat) returns (p: int)
      requires Valid() && k < |heaps| && RequestSize(size) && Exhausted()
      modifies heaps[k]
      ensures Valid() && |Lists()| == |old(Lists())|
      ensures forall j :: 0 <= j < |Lists()| && j != k ==> Lists()[j] == old(Lists())[j]
      ensures p == -1 <==> NoRun(old(Lists())[k], size)
      ensures p == -1 ==> Lives() == old(Lives()) && NoRun(Lists()[k], size)
      ensures p != -1 ==> p > 0 && Handed(old(Lives()), Lives(), k, p, size)
      ensures p != -1 ==> LowestAt(old(Lists())[k], size, p)
      ensures Payloads(old(Mems()), old(Lives()), Mems())
    {
      hide Memory.Valid, SamePayloads, FirstFit, SomeRunFits, LowestRun, Live, StartOf, Payloads, Handed, With;
      var i := FirstFitLowest(heaps[k].blocks, size, 0);
      FirstFitLive(heaps[k].blocks, size, 0);
      FirstFitAt(heaps[k].blocks, size, 0);
      RunOf(heaps[k].blocks, i, size);
      p := heaps[k].MallocFromFreed(size);
      PayloadsPut(old(Mems()), old(Lives()), k, heaps[k].mem);
      assert Mems() == old(Mems())[k := heaps[k].mem];
      assert Lives() == old(Lives())[k := heaps[k].LiveBlocks()];
      if p != -1 {
        HandedOut(old(Lives()), k, p, size);
        WithIs(old(heaps[k].LiveBlocks()), p, size);
      } else {
        NothingLeft(old(heaps[k].blocks), size, 0);
      }
    }

    /** Growing until the block fits or the host gives no more. */
    method CarveOrGrow(size: nat) returns (p: int, ghost k: nat)
      requires Valid() && heaps != [] && !Exhausted() && RequestSize(size)
      modifies this, Heaps()
      ensures |old(heaps)| <= |heaps| <= 2 && heaps[..|old(heaps)|] == old(heaps)
      ensures fresh(Heaps() - old(Heaps()))
      ensures stray ==> !seesFailure && p == -1
      ensures !old(Plain(size)) ==>
                && !stray && heaps == old(heaps) && sbrkBytes == old(sbrkBytes) && activeHeap == old(activeHeap)
                && k == activeHeap && p == old(ActiveOffset()) + SIZE_MARKER && Sizes() == old(Sizes())
      ensures old(Plain(size)) && !stray ==> Valid() && Payloads(old(Mems()), old(Lives()), Mems())
      ensures old(Plain(size)) && !stray && p == -1 ==> Exhausted() && Kept(old(Mems()), old(Lives()), Mems(), Lives())
      ensures old(Plain(size)) && p != -1 ==>
                p > 0 && k == activeHeap < |heaps| && Handed(old(Lives()), Lives(), k, p, size)
      ensures old(HasRoom(activeHeap, size)) ==>
                && p == old(ActiveOffset()) + SIZE_MARKER && k == old(activeHeap)
                && heaps == old(heaps) && sbrkBytes == old(sbrkBytes)
      ensures !stray && old(Plain(size)) && old(!CanGrow() && heaps[activeHeap].offset == |heaps[activeHeap].mem|) ==>
                p == -1 && Lists() == old(Lists())
      ensures size == 1 && old(CanGrow()) ==> p != -1
      ensures p != -1 && sbrkBytes != old(sbrkBytes) ==> Needed(old(sbrkBytes), k, p, size)
    {
      hide Memory.Valid, Memory.LiveBlocks, Kept, Padded, Payloads, Handed, Layout, Reaches, CanGrow, RequestSize,
           HeapAdjustment, GrowsTo, Needed;
      TwoHeaps();
      k := activeHeap;
      p := CarveFrom(activeHeap, size);
      if p == -1 {
        p, k := GrowAndCarve(size);
      }
    }

    /** The growth loop, once the active heap has no room. */
    method GrowAndCarve(size: nat) returns (p: int, ghost k: nat)
      requires Valid() && heaps != [] && !Exhausted() && RequestSize(size)
      requires activeHeap < |heaps| <= 2 && !Wraps(heaps[activeHeap].offset, size) && !HasRoom(activeHeap, size)
      modifies this, Heaps()
      ensures |old(heaps)| <= |heaps| <= 2 && heaps[..|old(heaps)|] == old(heaps)
      ensures fresh(Heaps() - old(Heaps()))
      ensures stray ==> !seesFailure && p == -1
      ensures !stray ==> Valid() && Payloads(old(Mems()), old(Lives()), Mems())
      ensures !stray && p == -1 ==> Exhausted() && Kept(old(Mems()), old(Lives()), Mems(), Lives())
      ensures p != -1 ==> p > 0 && k == activeHeap < |heaps| && Handed(old(Lives()), Lives(), k, p, size)
      ensures !stray && old(!CanGrow() && heaps[activeHeap].offset == |heaps[activeHeap].mem|) ==>
                p == -1 && Lists() == old(Lists())
      ensures size == 1 && old(CanGrow()) ==> p != -1
      ensures p != -1 ==> Needed(old(sbrkBytes), k, p, size)
    {
      hide Memory.Valid, Memory.LiveBlocks, Kept, Padded, Payloads, Handed, Layout, Reaches, CanGrow, RequestSize,
           HeapAdjustment, GrowsTo, Needed, Unused, Lists, Wraps;
      k := 0;
      p := -1;
      TwoHeaps();
      BreakBound();
      ghost var mems, lives, lists, grows := Mems(), Lives(), Lists(), CanGrow();
      KeptRefl(mems, lives);
      var current := GrowFor(size, sbrkBytes, mems, lives);
      if stray { return; }
      while current != -1
        invariant Valid() && |heaps| <= 2 && heaps != [] && |old(heaps)| <= |heaps|
        invariant heaps[..|old(heaps)|] == old(heaps)
        invariant fresh(Heaps() - old(Heaps())) && p == -1
        invariant Kept(mems, lives, Mems(), Lives())
        invariant if current == -1 then Exhausted() else !Exhausted() && current == activeHeap
        invariant current != -1 ==> !Wraps(heaps[current].offset, size)
        invariant current != -1 ==> Needed(old(sbrkBytes), current, heaps[current].offset + SIZE_MARKER, size)
        invariant !grows ==> current == -1
        invariant current == -1 && old(heaps[activeHeap].offset == |heaps[activeHeap].mem|) && !grows ==>
                    Lists() == lists
        invariant size == 1 && grows ==> current != -1 && HasRoom(current, 1)
        invariant old(sbrkBytes) <= sbrkBytes <= maxPages * PAGE
        decreases if current == -1 then 0 else 1 + maxPages * PAGE - sbrkBytes
      {
        ghost var mems1, lives1 := Mems(), Lives();
        p := CarveFrom(current, size);
        if p != -1 {
          k := current;
          KeptTrans(mems, lives, mems1, lives1, Mems());
          HandedLater(mems, lives, mems1, lives1, Lives(), k, p, size);
          return;
        }
        current := GrowFor(size, old(sbrkBytes), mems, lives);
        if stray { return; }
      }
      PayloadsFrom(mems, lives, Mems(), Lives());
    }

    /** One growth, for a block that the active heap has no room for. */
    method GrowFor(size: nat, ghost from: nat, ghost mems: seq<seq<Word>>, ghost lives: seq<map<nat, nat>>)
      returns (next: int)
      requires Valid() && heaps != [] && !Exhausted() && from <= sbrkBytes
      requires activeHeap < |heaps| <= 2 && !Wraps(heaps[activeHeap].offset, size) && !HasRoom(activeHeap, size)
      requires Kept(mems, lives, Mems(), Lives())
      modifies this, Heaps()
      ensures |heaps| <= 2 && (stray ==> !seesFailure && !old(CanGrow())) && (!stray ==> Valid())
      ensures heaps != [] && |old(heaps)| <= |heaps| && heaps[..|old(heaps)|] == old(heaps)
      ensures fresh(Heaps() - old(Heaps()))
      ensures Kept(mems, lives, Mems(), Lives())
      ensures !stray ==> (next == -1 <==> !old(CanGrow()))
      ensures next == -1 ==> Exhausted() && sbrkBytes == old(sbrkBytes)
      ensures next == -1 && old(heaps[activeHeap].offset == |heaps[activeHeap].mem|) ==> Lists() == old(Lists())
      ensures next != -1 && !stray ==>
                && !Exhausted() && next == activeHeap < |heaps| && HasRoom(next, 1)
                && old(sbrkBytes) < sbrkBytes <= maxPages * PAGE
                && !Wraps(heaps[next].offset, size)
                && Needed(from, next, heaps[next].offset + SIZE_MARKER, size)
    {
      hide Memory.Valid, Memory.LiveBlocks, Kept, Padded, Payloads, Layout, Reaches, CanGrow, RequestSize,
           HeapAdjustment, GrowsTo, Needed, Unused;
      ghost var last, unused := sbrkBytes, Unused();
      UnusedIs(size);
      ghost var mems1, lives1 := Mems(), Lives();
      next := NextActiveHeap();
      KeptPair(mems, lives, mems1, lives1, Mems(), Lives());
      if !stray { NeededAfter(from, last, unused, size); }
    }

    lemma UnusedIs(size: nat)
      requires |heaps| <= 2 && activeHeap < |heaps|
      ensures Unused() < SIZE_MARKER + size <==> !HasRoom(activeHeap, size)
    {
    }

    lemma NeededAfter(from: nat, last: nat, unused: int, size: nat)
      requires |heaps| <= 2 && from <= last
      requires activeHeap < |heaps| ==>
                 && GrowsTo(last, sbrkBytes)
                 && WORD_BYTES * (heaps[activeHeap].base + heaps[activeHeap].offset + unused) >= last
      ensures unused < SIZE_MARKER + size && activeHeap < |heaps| ==>
                Needed(from, activeHeap, heaps[activeHeap].offset + SIZE_MARKER, size)
    {
    }

    lemma TwoHeaps()
      requires Valid()
      ensures |heaps| <= 2
    {
    }

    lemma BreakBound()
      requires Valid()
      ensures sbrkBytes <= maxPages * PAGE && sbrkBytes % 8 == 0
    {
    }

    /** The next heap to search, after the last one the first again. */
    method TurnToNext()
      requires Valid() && Exhausted() && heaps != []
      modifies `activeFreeHeap
      ensures Valid() && Exhausted()
      ensures activeFreeHeap == if old(activeFreeHeap) + 1 == |heaps| then 0 else old(activeFreeHeap) + 1
    {
      hide Memory.Valid, Memory.LiveBlocks, HeapAdjustment;
      activeFreeHeap := activeFreeHeap + 1;
      if activeFreeHeap == heapsActualSize { activeFreeHeap := 0; }
    }

    /** The search of the closed heaps, round from the one that last had room: it fails only when no run
        of free blocks in any heap can hold the size. */
    method SearchFreed(size: nat) returns (p: int, ghost k: nat)
      requires Valid() && Exhausted() && heaps != [] && RequestSize(size)
      modifies `activeFreeHeap, Heaps()
      ensures Valid() && Exhausted()
      ensures p == -1 <==> old(NothingFits(size))
      ensures p == -1 ==> Lives() == old(Lives()) && NothingFits(size)
      ensures p != -1 ==> p > 0 && k < |heaps| && k == activeFreeHeap && Handed(old(Lives()), Lives(), k, p, size)
      ensures Payloads(old(Mems()), old(Lives()), Mems())
      ensures p != -1 ==> FirstFound(old(Lists()), old(activeFreeHeap), size, k, p)
    {
      hide Memory.Valid, SamePayloads, Memory.LiveBlocks, Kept, Padded, Payloads, Handed, NoRun, Layout, Reaches,
           CanGrow, HeapAdjustment, LowestAt;
      TwoHeaps();
      k := 0;
      p := -1;
      var end := activeFreeHeap;
      var more := true;
      ghost var mems, lives, lists, visited := Mems(), Lives(), Lists(), 0;
      KeptRefl(mems, lives);
      PayloadsFrom(mems, lives, mems, lives);
      while more
        invariant Valid() && Exhausted() && heaps == old(heaps) && |heaps| <= 2 && p == -1
        invariant visited <= |heaps| && (more <==> visited < |heaps|)
        invariant activeFreeHeap == if visited == 1 && |heaps| == 2 then 1 - end else end
        invariant |Lists()| == |lists| && forall j: nat :: j < |lists| ==>
                    if Visited(j, end, visited, |heaps|) then NoRun(lists[j], size) && NoRun(Lists()[j], size)
                    else Lists()[j] == lists[j]
        invariant Lives() == lives && |Mems()| == |mems| && Payloads(mems, lives, Mems())
        decreases |heaps| - visited
      {
        ghost var mems1 := Mems();
        k := activeFreeHeap;
        p := TryFreed(activeFreeHeap, size);
        PayloadsTwice(mems, lives, mems1, Mems());
        if p != -1 { return; }
        TurnToNext();
        visited := visited + 1;
        more := activeFreeHeap != end;
      }
    }

    /** A block from memory that was never carved, in the active heap or a grown one. */
    method MallocCarved(size: nat) returns (p: int, ghost k: nat)
      requires Valid() && RequestSize(size)
      modifies this, Heaps()
      ensures heaps != [] && |old(heaps)| <= |heaps| <= 2 && heaps[..|old(heaps)|] == old(heaps)
      ensures fresh(Heaps() - old(Heaps()))
      ensures stray ==> !seesFailure && p == -1
      ensures !old(Plain(size)) ==>
                && !stray && Bounded() && k == activeHeap < |heaps| && p == old(ActiveOffset()) + SIZE_MARKER
                && old(Sizes()) <= Sizes()
      ensures old(Plain(size)) && !stray ==> Valid() && Payloads(old(Mems()), old(Lives()), Mems())
      ensures old(Plain(size)) && !stray && p == -1 ==> Exhausted() && Kept(old(Mems()), old(Lives()), Mems(), Lives())
      ensures old(Plain(size)) && p != -1 ==>
                p > 0 && k == activeHeap < |heaps| && Handed(old(Lives()), Lives(), k, p, size)
      ensures !stray && old(Plain(size)) &&
              old(heaps != [] && (Exhausted()
                                  || (!CanGrow() && heaps[activeHeap].offset == |heaps[activeHeap].mem|))) ==>
                p == -1 && Lists() == old(Lists())
      ensures old(heaps != [] && Exhausted()) ==> p == -1 && !stray
      ensures old(heaps != [] && !Exhausted() && HasRoom(activeHeap, size)) ==>
                && p == old(ActiveOffset()) + SIZE_MARKER && k == old(activeHeap)
                && heaps == old(heaps) && sbrkBytes == old(sbrkBytes)
      ensures size == 1 && p == -1 && !stray ==>
                old(heaps != [] && !CanGrow() && (Exhausted() || !HasRoom(activeHeap, 1)))
      ensures old(heaps) == [] && size <= 2047 ==> p == 1 && k == 0 && StaticAt(k) && sbrkBytes == old(sbrkBytes)
      ensures old(heaps != [] && Exhausted()) ==> activeFreeHeap == old(activeFreeHeap)
      ensures p != -1 && sbrkBytes != old(sbrkBytes) ==> !Exhausted() && Needed(old(sbrkBytes), k, p, size)
    {
      hide Memory.Valid, Memory.LiveBlocks, Kept, Padded, Payloads, Handed, Layout, Reaches, SomeRunFits,
           HeapAdjustment, GrowsTo, Needed;
      k := 0;
      p := -1;
      TwoHeaps();
      ghost var mems, lives := Mems(), Lives();
      Begin();
      TwoHeaps();
      PayloadsFrom(mems, lives, Mems(), Lives());
      if activeHeap < heapsActualSize {
        ghost var mems1, lives1, plain := Mems(), Lives(), Plain(size);
        InBound();
        p, k := CarveOrGrow(size);
        if plain && !stray {
          KeptTrans(mems, lives, mems1, lives1, Mems());
          if p != -1 {
            HandedLater(mems, lives, mems1, lives1, Lives(), k, p, size);
          } else {
            KeptPair(mems, lives, mems1, lives1, Mems(), Lives());
          }
        }
      }
    }

    /** The first call sets up the heap of the static array. */
    method Begin()
      requires Valid()
      modifies `heaps, `heapsActualSize
      ensures Valid() && heaps != [] && |heaps| <= 2 && fresh(Heaps() - old(Heaps()))
      ensures old(heaps) != [] ==> heaps == old(heaps) && heapsActualSize == old(heapsActualSize)
      ensures old(heaps) == [] ==> !Exhausted() && |heaps| == 1 && ActiveOffset() == 0 && HasRoom(activeHeap, 1)
      ensures old(heaps) == [] ==> HasRoom(0, 2047) && activeHeap == 0 && WORD_BYTES * heaps[0].base == initialHeap
      ensures old(Sizes()) <= Sizes()
      ensures Kept(old(Mems()), old(Lives()), Mems(), Lives())
    {
      hide Memory.Valid, Memory.LiveBlocks, Kept, Padded, Payloads, HeapAdjustment;
      KeptRefl(Mems(), Lives());
      if heapsActualSize == 0 { heapsActualSize := HEAPS_SIZE; }
      if activeHeap < heapsActualSize && activeHeap == 0 && heaps == [] {
        Space();
        Quarters(initialHeap);
        var h := new Memory(initialHeap / 4, INITIAL_WORDS);
        FirstHeap(h);
      }
    }

    lemma InBound()
      requires Valid()
      ensures Bounded() && forall k :: 0 <= k < |heaps| ==> WORD_BYTES * (heaps[k].base + |heaps[k].mem|) <= sbrkBytes
    {
    }

    /** A block for this many bytes: carved, after growth if need be, or from freed blocks; -1 when there
        is no room. The pointer is an address in bytes. */
    method Malloc(bytes: nat) returns (ptr: int, ghost k: nat, ghost p: nat)
      requires Valid() && bytes < U32
      modifies this, Heaps()
      ensures |old(heaps)| <= |heaps| <= 2 && heaps[..|old(heaps)|] == old(heaps) && fresh(Heaps() - old(Heaps()))
      ensures stray ==> !seesFailure
      ensures !stray ==> (old(Answers(bytes)) <==> Valid() && (ptr == -1 || InOneHeap(ptr, bytes)))
      ensures !stray && old(!Plain(WordsFor(bytes))) && bytes > 0 ==>
                && k == activeHeap < |heaps| && ptr == Address(heaps[k], p) && Bounded() && ptr + bytes > U32 - 8
                && old(Sizes()) <= Sizes()
      ensures !stray && old(bytes == 0 || Plain(WordsFor(bytes))) ==>
                && Valid() && Payloads(old(Mems()), old(Lives()), Mems())
                && (bytes == 0 ==> ptr == -1 && Lives() == old(Lives()))
                && (ptr == -1 && bytes > 0 ==>
                      && !CanGrow() && NothingFits(WordsFor(bytes)) && Exhausted()
                      && |Lives()| >= |old(Lives())| && Lives() == Padded(old(Lives()), |Lives()|))
                && (ptr != -1 ==>
                      && k < |heaps| && ptr == Address(heaps[k], p)
                      && Handed(old(Lives()), Lives(), k, p, WordsFor(bytes)))
                && (ALLOC_MASK <= bytes <= MAX_REQUEST ==> ptr == -1)
      ensures bytes > 0 && old(heaps != [] && Exhausted()) ==> (ptr == -1 <==> old(NothingFits(WordsFor(bytes))))
      ensures bytes > 0 && old(heaps != [] && !Exhausted() && HasRoom(activeHeap, WordsFor(bytes))) ==>
                k == old(activeHeap) && p == old(heaps[activeHeap].offset) + SIZE_MARKER && ptr != -1
                  && sbrkBytes == old(sbrkBytes)
      ensures old(heaps) == [] && 0 < bytes <= 8188 ==>
                !stray && ptr == initialHeap + 4 && sbrkBytes == old(sbrkBytes)
      ensures !stray && ptr != -1 && sbrkBytes != old(sbrkBytes) ==>
                Exhausted() || Needed(old(sbrkBytes), k, p, WordsFor(bytes))
      ensures old(heaps != [] && Exhausted()) && ptr != -1 ==>
                FirstFound(old(Lists()), old(activeFreeHeap), WordsFor(bytes), k, p)
    {
      hide Memory.Valid, Memory.LiveBlocks, Kept, Padded, Payloads, Handed, Layout, Reaches, Cursor, WordsFor,
           NothingFits, InOneHeap, Full, HeapAdjustment, CanGrow, Needed, FirstFound, Wraps, HasRoom, Plain;
      k, p, ptr := 0, 0, -1;
      if bytes == 0 {
        TwoHeaps();
        ghost var mems, lives := Mems(), Lives();
        KeptRefl(mems, lives);
        PayloadsFrom(mems, lives, mems, lives);
      } else {
        ptr, k, p := MallocSome(bytes);
      }
    }

    /** malloc of at least one byte. */
    method MallocSome(bytes: nat) returns (ptr: int, ghost k: nat, ghost p: nat)
      requires Valid() && 0 < bytes < U32
      modifies this, Heaps()
      ensures |old(heaps)| <= |heaps| <= 2 && heaps[..|old(heaps)|] == old(heaps) && fresh(Heaps() - old(Heaps()))
      ensures stray ==> !seesFailure
      ensures !stray ==> (old(Answers(bytes)) <==> Valid() && (ptr == -1 || InOneHeap(ptr, bytes)))
      ensures !stray && old(!Plain(WordsFor(bytes))) ==>
                && k == activeHeap < |heaps| && ptr == Address(heaps[k], p) && Bounded() && ptr + bytes > U32 - 8
                && old(Sizes()) <= Sizes()
      ensures !stray && old(Plain(WordsFor(bytes))) ==>
                && Valid() && Payloads(old(Mems()), old(Lives()), Mems())
                && (ptr == -1 ==>
                      && !CanGrow() && NothingFits(WordsFor(bytes)) && Exhausted()
                      && |Lives()| >= |old(Lives())| && Lives() == Padded(old(Lives()), |Lives()|))
                && (ptr != -1 ==>
                      && k < |heaps| && ptr == Address(heaps[k], p)
                      && Handed(old(Lives()), Lives(), k, p, WordsFor(bytes)))
                && (ALLOC_MASK <= bytes <= MAX_REQUEST ==> ptr == -1)
      ensures old(heaps != [] && Exhausted()) ==> (ptr == -1 <==> old(NothingFits(WordsFor(bytes))))
      ensures old(heaps != [] && !Exhausted() && HasRoom(activeHeap, WordsFor(bytes))) ==>
                k == old(activeHeap) && p == old(heaps[activeHeap].offset) + SIZE_MARKER && ptr != -1
                  && sbrkBytes == old(sbrkBytes)
      ensures old(heaps) == [] && bytes <= 8188 ==>
                !stray && ptr == initialHeap + 4 && sbrkBytes == old(sbrkBytes)
      ensures !stray && ptr != -1 && sbrkBytes != old(sbrkBytes) ==>
                Exhausted() || Needed(old(sbrkBytes), k, p, WordsFor(bytes))
      ensures old(heaps != [] && Exhausted()) && ptr != -1 ==>
                FirstFound(old(Lists()), old(activeFreeHeap), WordsFor(bytes), k, p)
    {
      hide Memory.Valid, Memory.LiveBlocks, Kept, Padded, Payloads, Handed, Layout, Reaches, Cursor, WordsFor,
           NothingFits, InOneHeap, Full, HeapAdjustment, GrowsTo, Needed, FirstFound, CanGrow,
           RequestSize, Sizes, Lists, Answers;
      k, p, ptr := 0, 0, -1;
      TwoHeaps();
      ghost var mems, lives := Mems(), Lives();
      AdjustedGood(bytes);
      var size := WordsFor(bytes);
      if bytes <= 8188 { SmallRequest(bytes); }
      ghost var plain := Plain(size);
      AnswersCases(bytes);
      var buffer, at;
      buffer, at, k := Allocate(size);
      if stray { return; }
      TooFar();
      if plain { InBound(); }
      if buffer == -1 { return; }
      p := buffer;
      ptr := Address(heaps[at], buffer);
      if plain {
        HandedIs(lives, Lives(), k, p, size);
        Placed(k, p, size);
      }
    }

    /** malloc of an adjusted size: the heap it is in, and its payload address there. */
    method Allocate(size: nat) returns (p: int, at: nat, ghost k: nat)
      requires Valid() && RequestSize(size)
      modifies this, Heaps()
      ensures |old(heaps)| <= |heaps| <= 2 && heaps[..|old(heaps)|] == old(heaps) && fresh(Heaps() - old(Heaps()))
      ensures stray ==> !seesFailure
      ensures !old(Plain(size)) ==>
                && !stray && Bounded() && at == k == activeHeap < |heaps| && p == old(ActiveOffset()) + SIZE_MARKER
                && old(Sizes()) <= Sizes()
      ensures old(Plain(size)) && !stray ==> Valid() && Payloads(old(Mems()), old(Lives()), Mems())
      ensures old(Plain(size)) && !stray && p == -1 ==>
                && !CanGrow() && NothingFits(size) && Exhausted()
                && |Lives()| >= |old(Lives())| && Lives() == Padded(old(Lives()), |Lives()|)
      ensures old(Plain(size)) && !stray && p != -1 ==>
                p > 0 && at == k < |heaps| && Handed(old(Lives()), Lives(), k, p, size)
      ensures old(heaps != [] && Exhausted()) ==> !stray && (p == -1 <==> old(NothingFits(size)))
      ensures old(heaps != [] && !Exhausted() && HasRoom(activeHeap, size)) ==>
                !stray && p == old(ActiveOffset()) + SIZE_MARKER && k == old(activeHeap) && sbrkBytes == old(sbrkBytes)
      ensures size == 1 && !stray ==> (p == -1 <==> old(Full()))
      ensures old(heaps) == [] && size <= 2047 ==>
                !stray && p == 1 && k == 0 && StaticAt(k) && sbrkBytes == old(sbrkBytes)
      ensures !stray && p != -1 && sbrkBytes != old(sbrkBytes) ==>
                Exhausted() || Needed(old(sbrkBytes), k, p, size)
      ensures old(heaps != [] && Exhausted()) && p != -1 ==>
                FirstFound(old(Lists()), old(activeFreeHeap), size, k, p)
    {
      hide Memory.Valid, Memory.LiveBlocks, Kept, Padded, Payloads, Handed, Layout, Reaches, Cursor, NoRun,
           HeapAdjustment, GrowsTo, Needed, FirstFound;
      TwoHeaps();
      OneWord();
      ghost var mems, lives := Mems(), Lives();
      p, k := MallocCarved(size);
      at := activeHeap;
      if p == -1 && !stray {
        ghost var mems1, lives1 := Mems(), Lives();
        p, k := SearchFreed(size);
        at := activeFreeHeap;
        KeptTrans(mems, lives, mems1, lives1, Mems());
        KeptLives(mems, lives, mems1, lives1);
        if p != -1 { HandedLater(mems, lives, mems1, lives1, Lives(), k, p, size); }
      }
    }

    /** The last block of an even heap: without room for four bytes it is fully carved. */
    lemma AnswersCases(bytes: nat)
      requires Valid() && 0 < bytes < U32
      ensures bytes <= MAX_REQUEST ==> (Answers(bytes) <==> Plain(WordsFor(bytes)))
      ensures bytes > MAX_REQUEST ==> (Answers(bytes) <==> Full()) && WordsFor(bytes) == 1 && Plain(1)
    {
      hide Memory.Valid, WordsFor, Plain, Full, Layout, Reaches, Cursor;
      TwoHeaps();
      AdjustedGood(bytes);
      OneWord();
    }

    lemma OneWord()
      requires Valid()
      ensures Plain(1)
      ensures heaps != [] && !Exhausted() && !HasRoom(activeHeap, 1) ==>
                heaps[activeHeap].offset == |heaps[activeHeap].mem|
    {
      hide Memory.Valid;
      if heaps != [] && !Exhausted() { HeapInBounds(heaps[activeHeap]); }
    }

    lemma Placed(k: nat, p: nat, size: nat)
      requires Valid() && k < |heaps| && p in heaps[k].LiveBlocks() && heaps[k].LiveBlocks()[p] == size
      ensures WORD_BYTES * size < ALLOC_MASK
      ensures forall bytes: nat :: bytes <= WORD_BYTES * size ==> InOneHeap(Address(heaps[k], p), bytes)
    {
      hide Memory.Valid, Memory.LiveBlocks;
      BothValid();
      InBound();
      LiveRange(heaps[k], p);
    }

    /** A block larger than the address at which its heap ends is in no heap. */
    lemma PastOwnHeap(k: nat, p: nat, bytes: nat, size: nat)
      requires Valid() && k < |heaps| && 0 < p < |heaps[k].mem| && size > End(k) && bytes + 8 > WORD_BYTES * size
      ensures !InOneHeap(Address(heaps[k], p), bytes)
    {
      hide Memory.Valid;
      forall j | 0 <= j < |heaps|
        ensures !(WORD_BYTES * heaps[j].base <= Address(heaps[k], p)
                  && Address(heaps[k], p) + bytes <= WORD_BYTES * End(j))
      {
      }
    }

    /** Nothing near the end of the 32-bit addresses is in a heap. */
    lemma TooFar()
      requires |heaps| <= 2
      ensures Bounded() ==> forall ptr: int, bytes: nat :: ptr + bytes > U32 - 8 ==> !InOneHeap(ptr, bytes)
    {
    }

    /** p is a live block of heap k, and ptr its address. */
    ghost predicate IsLive(ptr: int, k: nat, p: nat)
      requires |heaps| <= 2
      reads this, Heaps()
    {
      k < |heaps| && p in heaps[k].LiveBlocks() && ptr == Address(heaps[k], p)
    }

    /** The heap that an address is in. */
    method FindHeap(ptr: nat, ghost k: nat, ghost p: nat) returns (i: nat)
      requires Valid() && IsLive(ptr, k, p)
      ensures i == k
    {
      hide Memory.LiveBlocks, Memory.Valid;
      TwoHeaps();
      LiveRange(heaps[k], p);
      i := 0;
      while i < heapsActualSize && i < |heaps| && !heaps[i].IsInHeap(ptr / 4 - heaps[i].base)
        invariant i <= k
      {
        i := i + 1;
      }
    }

    method Free(ptr: int, ghost k: nat, ghost p: nat)
      requires Valid() && (ptr == -1 || IsLive(ptr, k, p))
      modifies Heaps()
      ensures Valid()
      ensures ptr == -1 ==> Lives() == old(Lives())
      ensures ptr != -1 ==> Lives() == old(Lives())[k := old(Lives())[k] - {p}]
      ensures Payloads(old(Mems()), old(Lives()), Mems())
    {
      hide Memory.Valid, SamePayloads, Payloads, Live;
      TwoHeaps();
      KeptRefl(Mems(), Lives());
      PayloadsFrom(Mems(), Lives(), Mems(), Lives());
      if ptr == -1 { return; }
      var i := FindHeap(ptr, k, p);
      LiveStart(heaps[i], p);
      heaps[i].Free(ptr / 4 - heaps[i].base);
      PayloadsPut(old(Mems()), old(Lives()), k, heaps[k].mem);
      assert Mems() == old(Mems())[k := heaps[k].mem];
      assert Lives() == old(Lives())[k := heaps[k].LiveBlocks()];
    }

    /** memcpy from one block to another, word by word. */
    method CopyPayload(from: nat, p: nat, to: nat, q: nat, n: nat)
      requires Valid() && from < |heaps| && to < |heaps| && (from != to || p != q)
      requires p in heaps[from].LiveBlocks() && n <= heaps[from].LiveBlocks()[p]
      requires q in heaps[to].LiveBlocks() && n <= heaps[to].LiveBlocks()[q]
      modifies heaps[to]
      ensures Valid() && Lives() == old(Lives())
      ensures Mems() == old(Mems())[to := heaps[to].mem]
      ensures |heaps[to].mem| == |old(heaps[to].mem)|
      ensures SamePayloads(old(heaps[to].mem), heaps[to].mem, old(heaps[to].LiveBlocks()) - {q})
      ensures CopiedWords(old(heaps[from].mem), p, heaps[to].mem, q, n)
    {
      hide Memory.Valid, SamePayloads, Live, Layout, Reaches, Cursor;
      TwoHeaps();
      BothValid();
      LiveRange(heaps[from], p);
      LiveRange(heaps[to], q);
      var i := 0;
      ghost var source, live := heaps[from].mem, heaps[to].LiveBlocks();
      SameMemory(heaps[to].mem, live - {q});
      while i < n
        invariant 0 <= i <= n && heaps[to].Valid() && heaps[to].blocks == old(heaps[to].blocks)
        invariant heaps[to].offset == old(heaps[to].offset)
        invariant |heaps[to].mem| == |old(heaps[to].mem)|
        invariant SamePayloads(old(heaps[to].mem), heaps[to].mem, live - {q})
        invariant CopiedWords(source, p, heaps[to].mem, q, i)
      {
        ghost var before := heaps[to].mem;
        if from == to { SourceKept(old(heaps[to].mem), before, live, p, q, i); }
        heaps[to].WriteWord(q, i, heaps[from].mem[p + i]);
        SamePayloadsChain(old(heaps[to].mem), before, heaps[to].mem, live - {q});
        CopyStep(source, p, before, q, i);
        i := i + 1;
      }
      StillValid();
    }

    lemma BothValid()
      requires Valid()
      ensures forall k :: 0 <= k < |heaps| ==> heaps[k].Valid()
      ensures forall j, k :: 0 <= j < k < |heaps| ==> heaps[j] != heaps[k]
    {
    }

    twostate lemma StillValid()
      requires old(Valid()) && heaps == old(heaps) && sbrkBytes == old(sbrkBytes) && pages == old(pages)
      requires stray == old(stray) && activeHeap == old(activeHeap) && activeFreeHeap == old(activeFreeHeap)
      requires heapsActualSize == old(heapsActualSize)
      requires forall k :: 0 <= k < |heaps| ==>
                 && heaps[k].Valid() && |heaps[k].mem| == |old(heaps[k].mem)|
                 && (old(heaps[k].offset == |heaps[k].mem|) ==> heaps[k].offset == |heaps[k].mem|)
      ensures Valid()
    {
    }

    /** The block at p of heap k can be given the size where it is. */
    predicate StaysHere(k: nat, p: nat, size: nat)
      requires |heaps| <= 2
      reads this, Heaps()
    {
      k < |heaps| && heaps[k].Resizes(p, size)
    }

    /** Growing it where it is would walk into memory that was never carved, or past the heap's end. */
    predicate Leaves(k: nat, p: nat, size: nat)
      requires |heaps| <= 2
      reads this, Heaps()
    {
      k < |heaps| && heaps[k].Leaves(p, size)
    }

    /** realloc keeps the heaps as they should be. */
    predicate Sound(ptr: int, bytes: nat, k: nat, p: nat)
      requires |heaps| <= 2
      reads this, Heaps()
    {
      || bytes == 0
      || (if ptr == -1 then Plain(WordsFor(bytes))
          else !Leaves(k, p, WordsFor(bytes)) && (StaysHere(k, p, WordsFor(bytes)) || Plain(WordsFor(bytes))))
    }

    /** The requests that realloc answers as it should. */
    ghost predicate Reanswers(ptr: int, bytes: nat, k: nat, p: nat)
      requires |heaps| <= 2
      reads this, Heaps()
    {
      if ptr == -1 then Answers(bytes) else Sound(ptr, bytes, k, p) && bytes <= MAX_REQUEST
    }

    /** realloc without moving; -1 when there is no room where the block is. */
    method ReallocHere(ptr: nat, size: nat, ghost k: nat, ghost p: nat)
      returns (ok: bool, heap: nat, at: nat, origSize: nat, ghost n: nat)
      requires Valid() && RequestSize(size) && IsLive(ptr, k, p)
      modifies Heaps()
      ensures heap == k && at == p && origSize == old(heaps[k].LiveBlocks()[p]) && Bounded()
      ensures |heaps[k].mem| == |old(heaps[k].mem)|
      ensures ok <==> old(StaysHere(k, p, size)) || old(Leaves(k, p, size))
      ensures old(Leaves(k, p, size)) ==> !Valid() || size > End(k)
      ensures !old(Leaves(k, p, size)) ==> Valid()
      ensures !ok ==> Mems() == old(Mems()) && Lives() == old(Lives()) && ActiveOffset() == old(ActiveOffset())
      ensures n == if origSize > size then origSize else size
      ensures ok && !old(Leaves(k, p, size)) ==>
                && Lives() == old(Lives())[k := With(old(Lives())[k] - {p}, p, n)]
                && p + Min(origSize, size) <= |heaps[k].mem|
                && CopiedWords(old(heaps[k].mem), p, heaps[k].mem, p, Min(origSize, size))
      ensures Payloads(old(Mems()), old(Lives())[k := old(Lives())[k] - {p}], Mems())
      ensures size == 1 ==> ok && !old(Leaves(k, p, size))
    {
      hide Memory.Valid, SamePayloads, Payloads, Live, SameWords, GoodSize, RequestSize, Tiles, Layout, Reaches, Cursor,
           CanGrow, HeapAdjustment, Memory.Resizes, Memory.LeavesCarved, Memory.LeavesHeap, CopiedWords, With;
      TwoHeaps();
      InBound();
      BothValid();
      heap := FindHeap(ptr, k, p);
      at := ptr / 4 - heaps[heap].base;
      LiveRange(heaps[heap], p);
      Told(heaps[heap], p, size);
      var r;
      r, origSize := heaps[heap].ReallocInPlace(at, size);
      ok := r != -1;
      n := if origSize > size then origSize else size;
      PayloadsPut(old(Mems()), old(Lives())[k := old(Lives())[k] - {p}], k, heaps[k].mem);
      assert Mems() == old(Mems())[k := heaps[k].mem];
      assert Lives() == old(Lives())[k := heaps[k].LiveBlocks()];
      if !old(Leaves(k, p, size)) {
        StillValid();
        if ok { Resized(old(heaps[k].mem), old(heaps[k].LiveBlocks()), heaps[k], p, origSize, size, n); }
      } else if old(heaps[k].LeavesCarved(p, size)) {
        NotValid(heaps[k]);
        if Valid() { BothValid(); }
      }
    }

    /** Words written where a wrapped request points, as far as the heap reaches, and the old header freed. */
    method Spill(from: nat, at: nat, to: nat, q: nat, n: nat)
      requires |heaps| <= 2 && from < |heaps| && to < |heaps| && at + n <= |heaps[from].mem| && SIZE_MARKER <= at
      modifies heaps[from], heaps[to]
      ensures old(Bounded()) ==> Bounded()
      ensures forall j :: 0 <= j < |heaps| ==> |heaps[j].mem| == |old(heaps[j].mem)|
    {
      var i := 0;
      while i < n && q + i < |heaps[to].mem|
        invariant 0 <= i <= n && at + n <= |heaps[from].mem|
        invariant forall j :: 0 <= j < |heaps| ==> |heaps[j].mem| == |old(heaps[j].mem)|
      {
        heaps[to].mem := heaps[to].mem[q + i := heaps[from].mem[at + i]];
        i := i + 1;
      }
      heaps[from].MarkFree(at);
      forall j | 0 <= j < |heaps| ensures End(j) == old(End(j)) { }
    }

    /** A new block, the old one's words in it, and the old one freed. */
    method MoveBlock(ptr: int, bytes: nat, from: nat, at: nat, origSize: nat, ghost p: nat)
      returns (r: int, ghost k2: nat, ghost p2: nat)
      requires Valid() && 0 < bytes < U32 && IsLive(ptr, from, p) && at == p && origSize == Lives()[from][p]
      modifies this, Heaps()
      ensures |old(heaps)| <= |heaps| <= 2 && heaps[..|old(heaps)|] == old(heaps) && fresh(Heaps() - old(Heaps()))
      ensures stray ==> !seesFailure
      ensures !stray && !old(Plain(WordsFor(bytes))) ==> r != -1 && !InOneHeap(r, bytes)
      ensures !stray && old(Plain(WordsFor(bytes))) ==> Valid()
      ensures !stray && old(Plain(WordsFor(bytes))) && r == -1 ==>
                && |Lives()| >= |old(Lives())| && Lives() == Padded(old(Lives()), |Lives()|)
                && Payloads(old(Mems()), old(Lives()), Mems())
                && !CanGrow() && NothingFits(WordsFor(bytes))
      ensures !stray && old(Plain(WordsFor(bytes))) && r != -1 ==>
                && k2 < |heaps| && r == Address(heaps[k2], p2) && (k2 != from || p2 != p)
                && Handed(old(Lives())[from := old(Lives())[from] - {p}], Lives(), k2, p2, WordsFor(bytes))
                && CopiedWords(old(heaps[from].mem), p, heaps[k2].mem, p2, Min(origSize, WordsFor(bytes)))
                && Payloads(old(Mems()), old(Lives())[from := old(Lives())[from] - {p}], Mems())
    {
      hide Memory.Valid, SamePayloads, Payloads, Live, Handed, With, CopiedWords, Layout, Reaches, Cursor, WordsFor,
           Padded, InOneHeap, Answers, Plain, HeapAdjustment;
      TwoHeaps();
      ghost var mems, lives := Mems(), Lives();
      BothValid();
      LiveRange(heaps[from], p);
      var plain, size := Plain(WordsFor(bytes)), WordsFor(bytes);
      r, k2, p2 := Malloc(bytes);
      if stray || r == -1 { return; }
      if plain {
        ghost var mems1, lives1 := Mems(), Lives();
        StillLive(lives, lives1, from, p, k2, p2, size);
        ghost var mems2 := CopyAndFree(ptr, from, at, r, Min(origSize, size), p, k2, p2);
        Moved(mems, lives, mems1, lives1, mems2, Mems(), Lives(), from, p, k2, p2, Min(origSize, size), size);
      } else {
        assert old(Sizes())[from] == Sizes()[from];
        Spill(from, at, activeHeap, r / 4 - heaps[activeHeap].base, origSize);
        TooFar();
      }
    }

    /** The words of the old block go to the new one, and the old block is freed. */
    method CopyAndFree(ptr: int, from: nat, at: nat, r: nat, n: nat, ghost p: nat, ghost k2: nat, ghost p2: nat)
      returns (ghost copied: seq<seq<Word>>)
      requires Valid() && IsLive(ptr, from, p) && at == p && IsLive(r, k2, p2) && (k2 != from || p2 != p)
      requires n <= Lives()[from][p] && n <= Lives()[k2][p2]
      modifies Heaps()
      ensures Valid() && Lives() == old(Lives())[from := old(Lives())[from] - {p}]
      ensures |copied| == |old(Mems())| == |Mems()| && Payloads(copied, old(Lives()), Mems())
      ensures forall j :: 0 <= j < |copied| && j != k2 ==> copied[j] == old(Mems())[j]
      ensures |copied[k2]| == |old(Mems())[k2]| && SamePayloads(old(Mems())[k2], copied[k2], old(Lives())[k2] - {p2})
      ensures CopiedWords(old(Mems())[from], p, copied[k2], p2, n)
    {
      hide Memory.Valid, SamePayloads, Payloads, Memory.LiveBlocks, CopiedWords, Layout, Reaches, Cursor,
           HeapAdjustment;
      TwoHeaps();
      var to := FindHeap(r, k2, p2);
      var q := r / 4 - heaps[to].base;
      CopyPayload(from, at, to, q, n);
      copied := Mems();
      Free(ptr, from, p);
    }

    /** realloc: frees for size zero; resizes where the block is; or moves it. The first min(old, new)
        bytes are kept, and no other block changes. */
    method Realloc(ptr: int, bytes: nat, ghost k: nat, ghost p: nat)
      returns (r: int, ghost k2: nat, ghost p2: nat, ghost n: nat)
      requires Valid() && bytes < U32 && (ptr == -1 || IsLive(ptr, k, p))
      modifies this, Heaps()
      ensures |old(heaps)| <= |heaps| <= 2 && heaps[..|old(heaps)|] == old(heaps) && fresh(Heaps() - old(Heaps()))
      ensures stray ==> !seesFailure
      ensures !stray ==> (old(Reanswers(ptr, bytes, k, p)) <==> Valid() && (r == -1 || InOneHeap(r, bytes)))
      ensures !stray && old(Sound(ptr, bytes, k, p)) ==>
                && Valid() && Payloads(old(Mems()), Without(old(Lives()), ptr, k, p), Mems())
                && (bytes == 0 ==> r == -1 && Lives() == Without(old(Lives()), ptr, k, p))
      ensures !stray && old(Sound(ptr, bytes, k, p)) && bytes > 0 && r == -1 ==>
                && |Lives()| >= |old(Lives())| && Lives() == Padded(old(Lives()), |Lives()|)
                && Payloads(old(Mems()), old(Lives()), Mems())
                && !CanGrow() && NothingFits(WordsFor(bytes)) && (ptr != -1 ==> !old(StaysHere(k, p, WordsFor(bytes))))
      ensures !stray && old(Sound(ptr, bytes, k, p)) && r != -1 ==>
                && k2 < |heaps| && r == Address(heaps[k2], p2)
                && Handed(Without(old(Lives()), ptr, k, p), Lives(), k2, p2, n)
                && (ptr == -1 ==> n == WordsFor(bytes))
      ensures !stray && old(Sound(ptr, bytes, k, p)) && r != -1 && ptr != -1 ==>
                var old_size := old(heaps[k].LiveBlocks()[p]);
                && (k2 == k && p2 == p <==> old(StaysHere(k, p, WordsFor(bytes))))
                && n == (if k2 == k && p2 == p && old_size > WordsFor(bytes) then old_size else WordsFor(bytes))
                && CopiedWords(old(heaps[k].mem), p, heaps[k2].mem, p2, Min(old_size, WordsFor(bytes)))
    {
      hide Memory.Valid, SamePayloads, Payloads, Live, Handed, With, CopiedWords, Layout, Reaches, Cursor, WordsFor,
           Padded, InOneHeap, ActiveOffset, Full, StaysHere, Leaves, HeapAdjustment;
      TwoHeaps();
      ghost var mems, lives := Mems(), Lives();
      r, k2, p2, n := -1, k, p, WordsFor(bytes);
      if bytes == 0 {
        Free(ptr, k, p);
        PayloadsWithout(mems, lives, Mems(), ptr, k, p);
        return;
      }
      if ptr == -1 {
        r, k2, p2 := Malloc(bytes);
        return;
      }
      r, k2, p2, n := ReallocLive(ptr, bytes, k, p);
    }

    /** realloc of a block to another size that is not zero. */
    method ReallocLive(ptr: int, bytes: nat, ghost k: nat, ghost p: nat)
      returns (r: int, ghost k2: nat, ghost p2: nat, ghost n: nat)
      requires Valid() && 0 < bytes < U32 && ptr != -1 && IsLive(ptr, k, p)
      modifies this, Heaps()
      ensures |old(heaps)| <= |heaps| <= 2 && heaps[..|old(heaps)|] == old(heaps) && fresh(Heaps() - old(Heaps()))
      ensures stray ==> !seesFailure
      ensures !stray ==> (old(Reanswers(ptr, bytes, k, p)) <==> Valid() && (r == -1 || InOneHeap(r, bytes)))
      ensures !stray && old(Sound(ptr, bytes, k, p)) ==>
                Valid() && Payloads(old(Mems()), Without(old(Lives()), ptr, k, p), Mems())
      ensures !stray && old(Sound(ptr, bytes, k, p)) && r == -1 ==>
                && |Lives()| >= |old(Lives())| && Lives() == Padded(old(Lives()), |Lives()|)
                && Payloads(old(Mems()), old(Lives()), Mems())
                && !CanGrow() && NothingFits(WordsFor(bytes)) && !old(StaysHere(k, p, WordsFor(bytes)))
      ensures !stray && old(Sound(ptr, bytes, k, p)) && r != -1 ==>
                var old_size := old(heaps[k].LiveBlocks()[p]);
                && k2 < |heaps| && r == Address(heaps[k2], p2)
                && Handed(Without(old(Lives()), ptr, k, p), Lives(), k2, p2, n)
                && (k2 == k && p2 == p <==> old(StaysHere(k, p, WordsFor(bytes))))
                && n == (if k2 == k && p2 == p && old_size > WordsFor(bytes) then old_size else WordsFor(bytes))
                && CopiedWords(old(heaps[k].mem), p, heaps[k2].mem, p2, Min(old_size, WordsFor(bytes)))
    {
      hide Memory.Valid, SamePayloads, Payloads, Live, Handed, With, CopiedWords, Layout, Reaches, Cursor, WordsFor,
           Padded, InOneHeap, ActiveOffset, Answers, StaysHere, Leaves, NothingFits, CanGrow, HeapAdjustment;
      TwoHeaps();
      ghost var mems, lives, leaves := Mems(), Lives(), Leaves(k, p, WordsFor(bytes));
      AdjustedGood(bytes);
      BothValid();
      LiveRange(heaps[k], p);
      var ok, from, at, origSize;
      ok, from, at, origSize, n := ReallocHere(ptr, WordsFor(bytes), k, p);
      k2, p2 := k, p;
      if ok {
        r := ptr;
        if !leaves {
          Replaced(lives, k, p, n);
          Placed(k, p, n);
          TooFar();
        } else if Valid() {
          PastOwnHeap(k, p, bytes, WordsFor(bytes));
        }
        return;
      }
      n := WordsFor(bytes);
      ghost var plain := Plain(WordsFor(bytes));
      r, k2, p2 := MoveBlock(ptr, bytes, from, at, origSize, p);
      if r != -1 && !stray && plain {
        HandedIs(Without(lives, ptr, k, p), Lives(), k2, p2, n);
        Placed(k2, p2, n);
      }
      if r == -1 && !stray { PayloadsWithout(mems, lives, Mems(), ptr, k, p); }
    }

    /** In every state, a live block lies between the static array and the break. */
    lemma LiveBelow(j: nat, p: nat)
      requires Valid() && j < |heaps| && p in heaps[j].LiveBlocks()
      ensures initialHeap < Address(heaps[j], p)
      ensures Address(heaps[j], p) + WORD_BYTES * heaps[j].LiveBlocks()[p] <= sbrkBytes
    {
      hide Memory.LiveBlocks, Memory.Valid;
      BothValid();
      LiveRange(heaps[j], p);
    }

    /** In every state, live blocks lie below the break and no two of them overlap, in one heap or in two. */
    lemma LiveApart(j: nat, p: nat, k: nat, q: nat)
      requires Valid() && j < |heaps| && k < |heaps| && p in heaps[j].LiveBlocks() && q in heaps[k].LiveBlocks()
      requires (j != k || p != q)
      ensures var a, b := Address(heaps[j], p), Address(heaps[k], q);
              var m, n := WORD_BYTES * heaps[j].LiveBlocks()[p], WORD_BYTES * heaps[k].LiveBlocks()[q];
              initialHeap < a && a + m <= sbrkBytes && (a + m <= b || b + n <= a)
    {
      hide Memory.LiveBlocks, Memory.Valid;
      BothValid();
      LiveRange(heaps[j], p);
      LiveRange(heaps[k], q);
      if j == k { HeapApart(heaps[j], p, q); }
    }
  }

  /** Some of what the headers of a live block tell about resizing it. */
  lemma Told(h: Memory, p: nat, size: nat)
    requires h.Valid() && p in h.LiveBlocks()
    ensures h.LeavesHeap(p, size) ==> size > h.base + |h.mem|
    ensures size == 1 ==> h.Resizes(p, size) && !h.Leaves(p, size)
  {
    if size == 1 {
      var i := LiveSplit(h.blocks, 0, p);
      hide Memory.Valid, StartOf;
      h.HeadersTell(i, 1);
      LiveRange(h, p);
      HeapInBounds(h);
    }
  }

  /** A block resized in place, as the manager sees it. */
  lemma Resized(m: seq<Word>, live: map<nat, nat>, h: Memory, p: nat, origSize: nat, size: nat, n: nat)
    requires h.Valid() && p in live && p in h.LiveBlocks() && h.LiveBlocks() == live[p := n] && |m| == |h.mem|
    requires n == (if origSize > size then origSize else size) && SameWords(m, h.mem, p, Min(origSize, size))
    ensures h.LiveBlocks() == With(live - {p}, p, n)
    ensures CopiedWords(m, p, h.mem, p, Min(origSize, size))
  {
    hide Memory.Valid, Memory.LiveBlocks;
    LiveRange(h, p);
    WithBack(live, p, n);
    SameIsCopied(m, h.mem, p, Min(origSize, size));
  }

  lemma NotValid(h: Memory)
    requires forall bs :: !Tiles(h.mem, bs, 0, h.offset)
    ensures !h.Valid()
  {
  }

  lemma HeapInBounds(h: Memory)
    requires h.Valid()
    ensures h.InBounds() && h.offset % 2 == 0 && |h.mem| % 2 == 0 && 0 < |h.mem|
  {
    TilesLength(h.mem, h.blocks, 0, h.offset);
    WordsEven(h.blocks);
  }

  lemma LiveRange(h: Memory, p: nat)
    requires h.Valid() && p in h.LiveBlocks()
    ensures 0 < p && 0 < h.LiveBlocks()[p] && p + h.LiveBlocks()[p] <= |h.mem|
  {
    TilesLength(h.mem, h.blocks, 0, h.offset);
    LiveInside(h.blocks, 0);
    var i := LiveSplit(h.blocks, 0, p);
    assert h.blocks[i] in h.blocks;
    GoodSizeOdd(h.blocks[i].size);
  }

  lemma LiveStart(h: Memory, p: nat)
    requires p in h.LiveBlocks()
    ensures exists i :: 0 <= i < |h.blocks| && StartOf(h.blocks, i, 0) == p
  {
    var i := LiveSplit(h.blocks, 0, p);
  }

  lemma HeapApart(h: Memory, p: nat, q: nat)
    requires h.Valid() && p in h.LiveBlocks() && q in h.LiveBlocks() && p != q
    ensures p + h.LiveBlocks()[p] <= q || q + h.LiveBlocks()[q] <= p
  {
    LiveRanges(h.mem, h.blocks, h.offset, p, q);
  }
}
