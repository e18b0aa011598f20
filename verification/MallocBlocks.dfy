/** A heap as a list of blocks: each block is a one-word header and its payload.
    Addresses and sizes are counted in words of size_t, four bytes on wasm32;
    a header holds the payload's size in bytes and, in bit 31, whether it is allocated. */
module MallocBlocks {

  type Word = w: int | 0 <= w < 0x1_0000_0000

  const ALLOC_MASK: int := 0x8000_0000
  const U32: int := 0x1_0000_0000
  const WORD_BYTES: int := 4
  const SIZE_MARKER: nat := 1

  datatype Block = Block(alloc: bool, size: nat)

  /** Sizes keep (bytes + 4) % 8 == 0, and leave bit 31 of the header free. */
  predicate GoodSize(size: nat) { (WORD_BYTES * size + 4) % 8 == 0 && WORD_BYTES * size < ALLOC_MASK }

  /** An adjusted request: any 32-bit size with its header a multiple of eight, bit 31 or not. */
  predicate RequestSize(size: nat) { (WORD_BYTES * size + 4) % 8 == 0 && WORD_BYTES * size < U32 }

  function Header(b: Block): Word
    requires GoodSize(b.size)
  {
    WORD_BYTES * b.size + (if b.alloc then ALLOC_MASK else 0)
  }

  /** The size field of a header: the bits below the flag, here in words. */
  function SizeField(w: Word): nat { (w % ALLOC_MASK) / WORD_BYTES }

  predicate IsAlloc(w: Word) { w >= ALLOC_MASK }

  lemma HeaderFields(b: Block)
    requires GoodSize(b.size)
    ensures SizeField(Header(b)) == b.size && IsAlloc(Header(b)) == b.alloc
  {
  }

  lemma GoodSizeOdd(size: nat)
    ensures GoodSize(size) <==> size % 2 == 1 && WORD_BYTES * size < ALLOC_MASK
  {
  }

  lemma RequestSizeOdd(size: nat)
    ensures RequestSize(size) <==> size % 2 == 1 && WORD_BYTES * size < U32
    ensures GoodSize(size) <==> RequestSize(size) && WORD_BYTES * size < ALLOC_MASK
  {
  }

  // ----- block lists -----

  function Words(bs: seq<Block>): nat {
    if bs == [] then 0 else SIZE_MARKER + bs[0].size + Words(bs[1..])
  }

  predicate AllGood(bs: seq<Block>) { forall b :: b in bs ==> GoodSize(b.size) }

  lemma {:induction false} WordsConcat(a: seq<Block>, b: seq<Block>)
    ensures Words(a + b) == Words(a) + Words(b)
  {
    if a == [] {
      assert a + b == b;
    } else {
      assert (a + b)[1..] == a[1..] + b;
      WordsConcat(a[1..], b);
    }
  }

  lemma {:induction false} WordsEven(bs: seq<Block>)
    requires AllGood(bs)
    ensures Words(bs) % 2 == 0
  {
    hide GoodSize;
    if bs != [] {
      GoodSizeOdd(bs[0].size);
      WordsEven(bs[1..]);
      assert Words(bs) == SIZE_MARKER + bs[0].size + Words(bs[1..]);
    }
  }

  /** The list with block i marked free. */
  function FreedAt(bs: seq<Block>, i: nat): seq<Block>
    requires i < |bs|
  {
    bs[..i] + ([Block(false, bs[i].size)] + bs[i + 1..])
  }

  /** The allocated blocks, by payload address. */
  function Live(bs: seq<Block>, from: nat): map<nat, nat> {
    if bs == [] then map[]
    else
      var rest := Live(bs[1..], from + SIZE_MARKER + bs[0].size);
      if bs[0].alloc then rest[from + SIZE_MARKER := bs[0].size] else rest
  }

  lemma {:induction false} LiveInside(bs: seq<Block>, from: nat)
    ensures forall p :: p in Live(bs, from) ==> from < p && p + Live(bs, from)[p] <= from + Words(bs)
  {
    if bs != [] {
      LiveInside(bs[1..], from + SIZE_MARKER + bs[0].size);
    }
  }

  /** Live payloads never overlap: a header lies between any two of them. */
  lemma {:induction false} LiveDisjoint(bs: seq<Block>, from: nat, p: nat, q: nat)
    requires p in Live(bs, from) && q in Live(bs, from) && p < q
    ensures p + Live(bs, from)[p] < q
  {
    var next := from + SIZE_MARKER + bs[0].size;
    LiveInside(bs[1..], next);
    if bs[0].alloc && p == from + SIZE_MARKER {
      assert q in Live(bs[1..], next);
    } else {
      assert p in Live(bs[1..], next);
      assert q in Live(bs[1..], next) by {
        assert q != from + SIZE_MARKER;
      }
      LiveDisjoint(bs[1..], next, p, q);
    }
  }

  lemma {:induction false} LiveConcat(a: seq<Block>, b: seq<Block>, from: nat)
    ensures Live(a + b, from) == Live(a, from) + Live(b, from + Words(a))
    ensures Live(a, from).Keys !! Live(b, from + Words(a)).Keys
  {
    LiveInside(a, from);
    LiveInside(b, from + Words(a));
    if a == [] {
      assert a + b == b;
    } else {
      assert (a + b)[1..] == a[1..] + b;
      LiveConcat(a[1..], b, from + SIZE_MARKER + a[0].size);
    }
  }

  // ----- merging a block with the free blocks after it -----

  /** How many of the free blocks after a block of the given size are taken to reach `needed`. */
  function Taken(size: nat, post: seq<Block>, needed: nat): (k: nat)
    ensures k <= |post|
    decreases |post|
  {
    if size >= needed || post == [] || post[0].alloc then 0
    else 1 + Taken(size + SIZE_MARKER + post[0].size, post[1..], needed)
  }

  function Possible(size: nat, post: seq<Block>, needed: nat): nat {
    size + Words(post[..Taken(size, post, needed)])
  }

  /** The block list in place of a block and what it took: the block, and what is left over. */
  function Combined(alloc: bool, possible: nat, needed: nat): seq<Block> {
    if possible > needed then [Block(alloc, needed), Block(false, possible - needed - SIZE_MARKER)]
    else [Block(alloc, possible)]
  }

  /** The whole heap searched first fit. */
  datatype Fit = Fit(blocks: seq<Block>, found: bool, at: nat)

  function FirstFit(bs: seq<Block>, needed: nat, from: nat): Fit
    decreases |bs|
  {
    if bs == [] then Fit([], false, 0)
    else if bs[0].alloc then
      var f := FirstFit(bs[1..], needed, from + SIZE_MARKER + bs[0].size);
      f.(blocks := [bs[0]] + f.blocks)
    else
      var k := Taken(bs[0].size, bs[1..], needed);
      var possible := Possible(bs[0].size, bs[1..], needed);
      var rest := bs[1 + k..];
      if possible >= needed then Fit(Combined(true, possible, needed) + rest, true, from + SIZE_MARKER)
      else
        var f := FirstFit(rest, needed, from + SIZE_MARKER + possible);
        f.(blocks := [Block(false, possible)] + f.blocks)
  }

  /** No two blocks start at the same place. */
  lemma OneStart(bs: seq<Block>, i: nat, j: nat)
    requires i < |bs| && j < |bs|
    ensures StartOf(bs, i, 0) == StartOf(bs, j, 0) <==> i == j
  {
    if i != j {
      var a, b := if i < j then i else j, if i < j then j else i;
      assert bs[..b] == bs[..a] + bs[a..b];
      WordsConcat(bs[..a], bs[a..b]);
      assert Words(bs[a..b]) == SIZE_MARKER + bs[a..b][0].size + Words(bs[a..b][1..]);
    }
  }

  // ----- what first fit promises -----

  /** Blocks i..j are free and together, inner headers included, can hold the size. */
  ghost predicate RunFits(bs: seq<Block>, i: nat, j: nat, needed: nat) {
    && i < j <= |bs|
    && (forall k :: i <= k < j ==> !bs[k].alloc)
    && Words(bs[i..j]) - SIZE_MARKER >= needed
  }

  ghost predicate SomeRunFits(bs: seq<Block>, i: nat, needed: nat) {
    exists j: nat :: RunFits(bs, i, j, needed)
  }

  function StartOf(bs: seq<Block>, i: nat, from: nat): nat
    requires i <= |bs|
  {
    from + Words(bs[..i]) + SIZE_MARKER
  }

  lemma {:induction false} TakenFacts(size: nat, post: seq<Block>, needed: nat)
    ensures var k, p := Taken(size, post, needed), Possible(size, post, needed);
            && (forall i :: 0 <= i < k ==> !post[i].alloc)
            && (p >= needed || k == |post| || post[k].alloc)
            && p >= size
            && (size < needed && p >= needed ==> p - Words(post[k - 1..k]) < needed)
    decreases |post|
  {
    if size < needed && post != [] && !post[0].alloc {
      var size1, k1 := size + SIZE_MARKER + post[0].size, Taken(size + SIZE_MARKER + post[0].size, post[1..], needed);
      TakenFacts(size1, post[1..], needed);
      assert post[..1 + k1] == [post[0]] + post[1..][..k1];
      assert Words(post[..1 + k1]) == 1 + post[0].size + Words(post[1..][..k1]) by {
        assert post[..1 + k1][1..] == post[1..][..k1];
      }
      assert k1 > 0 ==> post[1..][k1 - 1..k1] == post[k1..k1 + 1];
      if k1 == 0 {
        assert post[0..1] == [post[0]] && Words([post[0]]) == 1 + post[0].size by { assert [post[0]][1..] == []; }
      }
    } else {
      assert post[..0] == [];
    }
  }

  /** The list found again in pieces: the block, what it took, and the rest. */
  lemma TakenWords(size: nat, post: seq<Block>, needed: nat)
    ensures var k := Taken(size, post, needed);
            Possible(size, post, needed) + Words(post[k..]) == size + Words(post)
  {
    var k := Taken(size, post, needed);
    assert post == post[..k] + post[k..];
    WordsConcat(post[..k], post[k..]);
  }

  lemma FitAlloc(bs: seq<Block>, needed: nat, from: nat)
    requires bs != [] && bs[0].alloc
    ensures var f := FirstFit(bs[1..], needed, from + SIZE_MARKER + bs[0].size);
            FirstFit(bs, needed, from) == Fit([bs[0]] + f.blocks, f.found, f.at)
  {
  }

  lemma FitFree(bs: seq<Block>, needed: nat, from: nat) returns (possible: nat, rest: seq<Block>)
    requires bs != [] && !bs[0].alloc
    ensures possible == Possible(bs[0].size, bs[1..], needed)
    ensures rest == bs[1 + Taken(bs[0].size, bs[1..], needed)..] && |rest| < |bs|
    ensures FirstFit(bs, needed, from) ==
            if possible >= needed then Fit(Combined(true, possible, needed) + rest, true, from + SIZE_MARKER)
            else var f := FirstFit(rest, needed, from + SIZE_MARKER + possible);
                 Fit([Block(false, possible)] + f.blocks, f.found, f.at)
  {
    possible := Possible(bs[0].size, bs[1..], needed);
    rest := bs[1 + Taken(bs[0].size, bs[1..], needed)..];
  }

  lemma Nothing(needed: nat, from: nat)
    ensures FirstFit([], needed, from) == Fit([], false, 0)
    ensures Words([]) == 0 && Live([], from) == map[] && AllGood([])
  {
  }

  lemma Parts(bs: seq<Block>)
    requires bs != []
    ensures Words(bs) == SIZE_MARKER + bs[0].size + Words(bs[1..])
    ensures AllGood(bs) <==> GoodSize(bs[0].size) && AllGood(bs[1..])
    ensures forall b, s :: s == [b] + bs ==> (AllGood(s) <==> GoodSize(b.size) && AllGood(bs))
  {
  }

  lemma AllGoodConcat(a: seq<Block>, b: seq<Block>)
    ensures AllGood(a + b) <==> AllGood(a) && AllGood(b)
  {
  }

  lemma AllGoodOne(b: Block)
    ensures AllGood([b]) <==> GoodSize(b.size)
  {
  }

  /** First fit keeps the heap tiled and every size good. */
  lemma {:induction false} FirstFitTiles(bs: seq<Block>, needed: nat, from: nat)
    requires AllGood(bs) && RequestSize(needed) && WORD_BYTES * Words(bs) < ALLOC_MASK
    ensures var f := FirstFit(bs, needed, from); Words(f.blocks) == Words(bs) && AllGood(f.blocks)
    decreases |bs|
  {
    hide FirstFit, Words, AllGood, GoodSize, RequestSize, Combined, Taken, Possible;
    if bs == [] {
      Nothing(needed, from);
    } else if bs[0].alloc {
      FitAlloc(bs, needed, from);
      Parts(bs);
      var f := FirstFit(bs[1..], needed, from + SIZE_MARKER + bs[0].size);
      FirstFitTiles(bs[1..], needed, from + SIZE_MARKER + bs[0].size);
      WordsCons(bs[0], f.blocks);
      AllGoodOne(bs[0]);
      AllGoodConcat([bs[0]], f.blocks);
    } else {
      var possible, rest := FitFree(bs, needed, from);
      FreeRunTiles(bs, Taken(bs[0].size, bs[1..], needed), needed);
      if possible >= needed {
        var c := Combined(true, possible, needed);
        CombinedFacts(true, possible, needed);
        WordsConcat(c, rest);
        AllGoodConcat(c, rest);
      } else {
        var b, f := Block(false, possible), FirstFit(rest, needed, from + SIZE_MARKER + possible);
        FirstFitTiles(rest, needed, from + SIZE_MARKER + possible);
        WordsCons(b, f.blocks);
        AllGoodOne(b);
        AllGoodConcat([b], f.blocks);
      }
    }
  }

  lemma FreeRunTiles(bs: seq<Block>, k: nat, needed: nat)
    requires AllGood(bs) && bs != [] && WORD_BYTES * Words(bs) < ALLOC_MASK && k == Taken(bs[0].size, bs[1..], needed)
    ensures var possible := Possible(bs[0].size, bs[1..], needed);
            GoodSize(possible) && AllGood(bs[1 + k..]) && SIZE_MARKER + possible + Words(bs[1 + k..]) == Words(bs)
  {
    assert bs[1 + k..] == bs[1..][k..];
    TakenWords(bs[0].size, bs[1..], needed);
    PossibleGood(bs[0].size, bs[1..], needed);
  }

  lemma PossibleGood(size: nat, post: seq<Block>, needed: nat)
    requires GoodSize(size) && AllGood(post) && WORD_BYTES * (size + Words(post)) < ALLOC_MASK
    ensures GoodSize(Possible(size, post, needed))
  {
    hide GoodSize, Words, Taken;
    var k := Taken(size, post, needed);
    WordsEven(post[..k]);
    TakenWords(size, post, needed);
    GoodSizeOdd(size);
    GoodSizeOdd(Possible(size, post, needed));
  }

  lemma WordsOne(b: Block)
    ensures Words([b]) == SIZE_MARKER + b.size
  {
    assert [b][1..] == [];
  }

  lemma WordsCons(b: Block, bs: seq<Block>)
    ensures Words([b] + bs) == SIZE_MARKER + b.size + Words(bs)
  {
    assert ([b] + bs)[1..] == bs;
  }

  lemma CombinedFacts(alloc: bool, possible: nat, needed: nat)
    requires GoodSize(possible) && RequestSize(needed)
    ensures var c := Combined(alloc, possible, needed);
            AllGood(c) && Words(c) == SIZE_MARKER + possible && c != [] && c[0].alloc == alloc
  {
    GoodSizeOdd(possible);
    RequestSizeOdd(needed);
    if possible > needed {
      var left: nat := possible - needed - 1;
      GoodSizeOdd(left);
      assert Combined(alloc, possible, needed) == [Block(alloc, needed)] + [Block(false, left)];
      WordsCons(Block(alloc, needed), [Block(false, left)]);
      WordsOne(Block(false, left));
    } else {
      WordsOne(Block(alloc, possible));
    }
  }

  lemma RunShift(bs: seq<Block>, d: nat, i: nat, j: nat, needed: nat)
    requires d <= |bs|
    ensures RunFits(bs, d + i, d + j, needed) <==> RunFits(bs[d..], i, j, needed)
  {
    if i < j <= |bs| - d {
      assert bs[d..][i..j] == bs[d + i..d + j];
      if RunFits(bs, d + i, d + j, needed) {
        forall k | i <= k < j ensures !bs[d..][k].alloc { assert !bs[d + k].alloc; }
      }
      if RunFits(bs[d..], i, j, needed) {
        forall k | d + i <= k < d + j ensures !bs[k].alloc { assert !bs[d..][k - d].alloc; }
      }
    }
  }

  lemma SomeRunShift(bs: seq<Block>, d: nat, i: nat, needed: nat)
    requires d <= |bs|
    ensures SomeRunFits(bs, d + i, needed) <==> SomeRunFits(bs[d..], i, needed)
  {
    if SomeRunFits(bs, d + i, needed) {
      var j: nat :| RunFits(bs, d + i, j, needed);
      RunShift(bs, d, i, j - d, needed);
    }
    if SomeRunFits(bs[d..], i, needed) {
      var j: nat :| RunFits(bs[d..], i, j, needed);
      RunShift(bs, d, i, j, needed);
    }
  }

  lemma PartWords(bs: seq<Block>, h: nat, j: nat, m: nat)
    requires h <= j <= m <= |bs|
    ensures Words(bs[h..j]) <= Words(bs[..m])
  {
    assert bs[..m] == bs[..h] + (bs[h..j] + bs[j..m]);
    WordsConcat(bs[..h], bs[h..j] + bs[j..m]);
    WordsConcat(bs[h..j], bs[j..m]);
  }

  ghost predicate LowestRun(bs: seq<Block>, i: nat, needed: nat) {
    SomeRunFits(bs, i, needed) && forall h: nat :: h < i ==> !SomeRunFits(bs, h, needed)
  }

  /** First fit finds a block exactly when some run of free blocks can hold the size,
      and then it is the start of the lowest such run. */
  lemma {:induction false} FirstFitLowest(bs: seq<Block>, needed: nat, from: nat) returns (i: nat)
    ensures var f := FirstFit(bs, needed, from);
            && (f.found ==> i < |bs| && LowestRun(bs, i, needed) && f.at == StartOf(bs, i, from))
            && (!f.found ==> forall h: nat :: !SomeRunFits(bs, h, needed))
    decreases |bs|
  {
    hide *;
    i := 0;
    if bs == [] {
      Nothing(needed, from);
      NoRuns(needed);
    } else if bs[0].alloc {
      FitAlloc(bs, needed, from);
      AllocHead(bs, needed);
      i := FirstFitLater(bs, 1, needed, from);
    } else {
      var possible, rest := FitFree(bs, needed, from);
      var k := Taken(bs[0].size, bs[1..], needed);
      TakenLimits(bs, needed);
      FreeHead(bs, k);
      if possible >= needed {
        HeadRunFits(bs, k, needed, from);
      } else {
        forall h: nat | h < 1 + k ensures !SomeRunFits(bs, h, needed) {
          HeadRunTooSmall(bs, k, h, needed);
        }
        i := FirstFitLater(bs, 1 + k, needed, from);
      }
    }
  }

  lemma NoRuns(needed: nat)
    ensures forall h: nat :: !SomeRunFits([], h, needed)
  {
  }

  lemma AllocHead(bs: seq<Block>, needed: nat)
    requires bs != [] && bs[0].alloc
    ensures !SomeRunFits(bs, 0, needed) && Words(bs[..1]) == SIZE_MARKER + bs[0].size
  {
    WordsOne(bs[0]);
    assert bs[..1] == [bs[0]];
    forall j: nat ensures !RunFits(bs, 0, j, needed) { }
  }

  lemma TakenLimits(bs: seq<Block>, needed: nat)
    requires bs != [] && !bs[0].alloc
    ensures var k, possible := Taken(bs[0].size, bs[1..], needed), Possible(bs[0].size, bs[1..], needed);
            && k < |bs|
            && Words(bs[..1 + k]) == SIZE_MARKER + possible
            && (forall i :: 0 <= i < 1 + k ==> !bs[i].alloc)
            && (possible < needed && 1 + k < |bs| ==> bs[1 + k].alloc)
  {
    var k := Taken(bs[0].size, bs[1..], needed);
    TakenFacts(bs[0].size, bs[1..], needed);
    FreeHead(bs, k);
    forall i | 0 <= i < 1 + k ensures !bs[i].alloc {
      if i > 0 { assert !bs[1..][i - 1].alloc; }
    }
  }

  lemma HeadRunFits(bs: seq<Block>, k: nat, needed: nat, from: nat)
    requires k < |bs| && (forall i :: 0 <= i < 1 + k ==> !bs[i].alloc) && Words(bs[..1 + k]) - SIZE_MARKER >= needed
    ensures LowestRun(bs, 0, needed) && StartOf(bs, 0, from) == from + SIZE_MARKER
  {
    assert bs[0..1 + k] == bs[..1 + k];
    assert RunFits(bs, 0, 1 + k, needed);
    assert bs[..0] == [];
  }

  lemma FreeHead(bs: seq<Block>, k: nat)
    requires bs != [] && k < |bs|
    ensures Words(bs[..1 + k]) == SIZE_MARKER + bs[0].size + Words(bs[1..][..k])
  {
    assert bs[..1 + k] == [bs[0]] + bs[1..][..k];
    WordsCons(bs[0], bs[1..][..k]);
  }

  lemma HeadRunTooSmall(bs: seq<Block>, k: nat, h: nat, needed: nat)
    requires h <= k < |bs| && Words(bs[..1 + k]) - SIZE_MARKER < needed
    requires 1 + k < |bs| ==> bs[1 + k].alloc
    ensures !SomeRunFits(bs, h, needed)
  {
    forall j: nat ensures !RunFits(bs, h, j, needed) {
      if h < j <= |bs| && (forall q :: h <= q < j ==> !bs[q].alloc) {
        assert j <= 1 + k;
        PartWords(bs, h, j, 1 + k);
      }
    }
  }

  /** The search goes on behind the first d blocks, none of which starts a fitting run. */
  lemma {:induction false} FirstFitLater(bs: seq<Block>, d: nat, needed: nat, from: nat) returns (i: nat)
    requires 0 < d <= |bs|
    requires forall h: nat :: h < d ==> !SomeRunFits(bs, h, needed)
    ensures var f := FirstFit(bs[d..], needed, from + Words(bs[..d]));
            && (f.found ==> i < |bs| && LowestRun(bs, i, needed) && f.at == StartOf(bs, i, from))
            && (!f.found ==> forall h: nat :: !SomeRunFits(bs, h, needed))
    decreases |bs|, 0
  {
    var f := FirstFit(bs[d..], needed, from + Words(bs[..d]));
    var i' := FirstFitLowest(bs[d..], needed, from + Words(bs[..d]));
    i := d + i';
    forall h: nat ensures h >= d ==> (SomeRunFits(bs, h, needed) <==> SomeRunFits(bs[d..], h - d, needed)) {
      if h >= d { SomeRunShift(bs, d, h - d, needed); }
    }
    forall h: nat | h < d ensures !SomeRunFits(bs, h, needed) { }
    if f.found {
      assert bs[..i] == bs[..d] + bs[d..][..i'];
      WordsConcat(bs[..d], bs[d..][..i']);
    }
  }

  /** What the search does to the live blocks: nothing, but for the one it hands out. */
  lemma {:induction false} FirstFitLive(bs: seq<Block>, needed: nat, from: nat)
    ensures var f := FirstFit(bs, needed, from);
            && (f.found ==> f.at !in Live(bs, from) && Live(f.blocks, from) == Live(bs, from)[f.at := needed])
            && (!f.found ==> Live(f.blocks, from) == Live(bs, from))
    decreases |bs|
  {
    hide FirstFit, Live, Words, Combined, Taken, Possible;
    if bs == [] {
      Nothing(needed, from);
    } else if bs[0].alloc {
      var next := from + SIZE_MARKER + bs[0].size;
      var f := FirstFit(bs[1..], needed, next);
      FitAlloc(bs, needed, from);
      FirstFitLive(bs[1..], needed, next);
      FirstFitAt(bs[1..], needed, next);
      LiveCons(bs[0], f.blocks, from);
      LiveCons(bs[0], bs[1..], from);
      assert [bs[0]] + bs[1..] == bs;
    } else {
      var possible, rest := FitFree(bs, needed, from);
      var next := from + SIZE_MARKER + possible;
      FreeRunLive(bs, Taken(bs[0].size, bs[1..], needed), needed, from);
      LiveInside(rest, next);
      if possible >= needed {
        CombinedLive(true, possible, needed, rest, from);
      } else {
        var f := FirstFit(rest, needed, next);
        FirstFitLive(rest, needed, next);
        LiveCons(Block(false, possible), f.blocks, from);
      }
    }
  }

  lemma LiveCons(b: Block, bs: seq<Block>, from: nat)
    ensures var rest := Live(bs, from + SIZE_MARKER + b.size);
            Live([b] + bs, from) == if b.alloc then rest[from + SIZE_MARKER := b.size] else rest
  {
    assert ([b] + bs)[1..] == bs;
  }

  lemma {:induction false} FirstFitAt(bs: seq<Block>, needed: nat, from: nat)
    ensures var f := FirstFit(bs, needed, from); f.found ==> f.at > from
    decreases |bs|
  {
    if bs != [] {
      if bs[0].alloc {
        FirstFitAt(bs[1..], needed, from + SIZE_MARKER + bs[0].size);
      } else {
        var k, possible := Taken(bs[0].size, bs[1..], needed), Possible(bs[0].size, bs[1..], needed);
        if possible < needed { FirstFitAt(bs[1 + k..], needed, from + SIZE_MARKER + possible); }
      }
    }
  }

  /** Free blocks contribute nothing live. */
  lemma {:induction false} FreeLive(bs: seq<Block>, from: nat)
    requires forall i :: 0 <= i < |bs| ==> !bs[i].alloc
    ensures Live(bs, from) == map[]
  {
    if bs != [] { FreeLive(bs[1..], from + SIZE_MARKER + bs[0].size); }
  }

  lemma FreeRunLive(bs: seq<Block>, k: nat, needed: nat, from: nat)
    requires bs != [] && !bs[0].alloc && k == Taken(bs[0].size, bs[1..], needed)
    ensures Live(bs, from) == Live(bs[1 + k..], from + SIZE_MARKER + Possible(bs[0].size, bs[1..], needed))
  {
    TakenFacts(bs[0].size, bs[1..], needed);
    FreeHead(bs, k);
    assert bs == bs[..1 + k] + bs[1 + k..];
    LiveConcat(bs[..1 + k], bs[1 + k..], from);
    var head := bs[..1 + k];
    forall i | 0 <= i < |head| ensures !head[i].alloc {
      if i > 0 { assert !bs[1..][i - 1].alloc; }
    }
    FreeLive(head, from);
  }

  lemma CombinedLive(alloc: bool, possible: nat, needed: nat, rest: seq<Block>, from: nat)
    requires possible >= needed && from + SIZE_MARKER !in Live(rest, from + SIZE_MARKER + possible)
    ensures Live(Combined(alloc, possible, needed) + rest, from) ==
            if alloc then Live(rest, from + SIZE_MARKER + possible)[from + SIZE_MARKER := needed]
            else Live(rest, from + SIZE_MARKER + possible)
  {
    var c := Combined(alloc, possible, needed) + rest;
    if possible > needed {
      var left: nat := possible - needed - 1;
      assert c == [Block(alloc, needed)] + ([Block(false, left)] + rest);
      assert c[1..] == [Block(false, left)] + rest && c[1..][1..] == rest;
    } else {
      assert c[1..] == rest;
    }
  }

  /** A failed search leaves no two free blocks side by side. */
  ghost predicate Coalesced(bs: seq<Block>) {
    forall i :: 0 <= i < |bs| - 1 ==> bs[i].alloc || bs[i + 1].alloc
  }

  lemma {:induction false} FirstFitCoalesces(bs: seq<Block>, needed: nat, from: nat)
    ensures var f := FirstFit(bs, needed, from);
            && (!f.found ==> Coalesced(f.blocks))
            && (!f.found && bs != [] && bs[0].alloc ==> f.blocks != [] && f.blocks[0].alloc)
            && (!f.found && bs == [] ==> f.blocks == [])
    decreases |bs|
  {
    if bs != [] {
      if bs[0].alloc {
        FirstFitCoalesces(bs[1..], needed, from + SIZE_MARKER + bs[0].size);
      } else {
        var k, possible := Taken(bs[0].size, bs[1..], needed), Possible(bs[0].size, bs[1..], needed);
        TakenFacts(bs[0].size, bs[1..], needed);
        if possible < needed {
          FirstFitCoalesces(bs[1 + k..], needed, from + SIZE_MARKER + possible);
        }
      }
    }
  }

  /** A failed search would fail again: what it leaves has no run that can hold the size. */
  lemma {:induction false} FirstFitStable(bs: seq<Block>, needed: nat, from: nat)
    requires !FirstFit(bs, needed, from).found
    ensures !FirstFit(FirstFit(bs, needed, from).blocks, needed, from).found
    decreases |bs|
  {
    if bs != [] {
      if bs[0].alloc {
        var next := from + SIZE_MARKER + bs[0].size;
        FirstFitStable(bs[1..], needed, next);
        assert ([bs[0]] + FirstFit(bs[1..], needed, next).blocks)[1..] == FirstFit(bs[1..], needed, next).blocks;
      } else {
        var possible, rest := FitFree(bs, needed, from);
        var next := from + SIZE_MARKER + possible;
        TakenFacts(bs[0].size, bs[1..], needed);
        FirstFitStable(rest, needed, next);
        FirstFitCoalesces(rest, needed, next);
        var g := FirstFit(rest, needed, next).blocks;
        assert ([Block(false, possible)] + g)[1..] == g;
        assert Taken(possible, g, needed) == 0 && g[..0] == [] && Possible(possible, g, needed) == possible;
      }
    }
  }

  lemma NothingLeft(bs: seq<Block>, needed: nat, from: nat)
    requires !FirstFit(bs, needed, from).found
    ensures forall h: nat :: !SomeRunFits(FirstFit(bs, needed, from).blocks, h, needed)
  {
    FirstFitStable(bs, needed, from);
    var i := FirstFitLowest(FirstFit(bs, needed, from).blocks, needed, from);
  }
}
