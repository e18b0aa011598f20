/** One heap: in-band headers in raw memory, carved up to `offset`. */
module MallocHeap {
  import opened MallocBlocks

  /** The headers from `from` on are those of bs, and the blocks end exactly at `to`. */
  ghost predicate Tiles(mem: seq<Word>, bs: seq<Block>, from: nat, to: nat)
    decreases |bs|
  {
    if bs == [] then from == to
    else
      && from < |mem|
      && GoodSize(bs[0].size)
      && mem[from] == Header(bs[0])
      && Tiles(mem, bs[1..], from + SIZE_MARKER + bs[0].size, to)
  }

  lemma {:induction false} TilesLength(mem: seq<Word>, bs: seq<Block>, from: nat, to: nat)
    requires Tiles(mem, bs, from, to)
    ensures to == from + Words(bs) && AllGood(bs)
    decreases |bs|
  {
    if bs != [] {
      TilesLength(mem, bs[1..], from + SIZE_MARKER + bs[0].size, to);
      Parts(bs);
    }
  }

  lemma {:induction false} TilesConcat(mem: seq<Word>, a: seq<Block>, b: seq<Block>, from: nat, to: nat)
    ensures Tiles(mem, a + b, from, to) <==>
            Tiles(mem, a, from, from + Words(a)) && Tiles(mem, b, from + Words(a), to)
    decreases |a|
  {
    if a == [] {
      assert a + b == b;
    } else {
      assert (a + b)[1..] == a[1..] + b;
      TilesConcat(mem, a[1..], b, from + SIZE_MARKER + a[0].size, to);
    }
  }

  /** Only the words from `from` to `to` matter. */
  lemma {:induction false} TilesFrame(mem: seq<Word>, mem': seq<Word>, bs: seq<Block>, from: nat, to: nat)
    requires Tiles(mem, bs, from, to) && to <= |mem| && to <= |mem'|
    requires forall i :: from <= i < to ==> mem'[i] == mem[i]
    ensures Tiles(mem', bs, from, to)
    decreases |bs|
  {
    if bs != [] {
      TilesLength(mem, bs, from, to);
      TilesFrame(mem, mem', bs[1..], from + SIZE_MARKER + bs[0].size, to);
    }
  }

  /** Memory determines the blocks: a tiling is found again by following the headers. */
  lemma {:induction false} TilesPrefix(mem: seq<Word>, a: seq<Block>, bs: seq<Block>, from: nat, mid: nat, to: nat)
    requires Tiles(mem, a, from, mid) && Tiles(mem, bs, from, to) && mid < to
    ensures |a| < |bs| && Tiles(mem, bs[|a|..], mid, to)
    decreases |a|
  {
    if a != [] {
      TilesLength(mem, a, from, mid);
      assert bs != [];
      HeaderFields(a[0]);
      HeaderFields(bs[0]);
      TilesPrefix(mem, a[1..], bs[1..], from + SIZE_MARKER + a[0].size, mid, to);
      assert bs[1..][|a[1..]|..] == bs[|a|..];
    }
  }

  /** The words from p on are the same. */
  ghost predicate SameWords(mem: seq<Word>, mem': seq<Word>, p: nat, size: nat) {
    forall i :: p <= i < p + size && i < |mem| && i < |mem'| ==> mem'[i] == mem[i]
  }

  /** The payloads of these live blocks hold the same words. */
  ghost predicate SamePayloads(mem: seq<Word>, mem': seq<Word>, live: map<nat, nat>) {
    forall p :: p in live ==> SameWords(mem, mem', p, live[p])
  }

  lemma {:induction false} LiveSplit(bs: seq<Block>, from: nat, p: nat) returns (i: nat)
    requires p in Live(bs, from)
    ensures i < |bs| && bs[i].alloc && p == StartOf(bs, i, from) && bs[i].size == Live(bs, from)[p]
  {
    if bs[0].alloc && p == from + SIZE_MARKER {
      i := 0;
      assert bs[..0] == [];
      LiveInside(bs[1..], from + SIZE_MARKER + bs[0].size);
    } else {
      var j := LiveSplit(bs[1..], from + SIZE_MARKER + bs[0].size, p);
      i := 1 + j;
      assert bs[..i] == [bs[0]] + bs[1..][..j];
      WordsCons(bs[0], bs[1..][..j]);
    }
  }

  /** A list in three parts around one block, with what each contributes. */
  lemma Around(bs: seq<Block>, i: nat, from: nat)
    requires i < |bs|
    ensures var pre, post := bs[..i], bs[i + 1..];
            && bs == pre + ([bs[i]] + post)
            && Words(bs) == Words(pre) + SIZE_MARKER + bs[i].size + Words(post)
            && Live(bs, from) == Live(pre, from) + Live([bs[i]] + post, from + Words(pre))
  {
    var pre, post := bs[..i], bs[i + 1..];
    assert bs == pre + ([bs[i]] + post);
    WordsConcat(pre, [bs[i]] + post);
    WordsCons(bs[i], post);
    LiveConcat(pre, [bs[i]] + post, from);
  }

  lemma HeaderHere(mem: seq<Word>, bs: seq<Block>, i: nat, to: nat)
    requires Tiles(mem, bs, 0, to) && i < |bs|
    ensures Words(bs[..i]) < |mem| && GoodSize(bs[i].size) && mem[Words(bs[..i])] == Header(bs[i])
  {
    assert bs == bs[..i] + bs[i..];
    TilesConcat(mem, bs[..i], bs[i..], 0, to);
  }

  lemma BlockHere(mem: seq<Word>, bs: seq<Block>, i: nat, to: nat)
    requires Tiles(mem, bs, 0, to) && i < |bs|
    ensures SIZE_MARKER <= StartOf(bs, i, 0) <= |mem| && GoodSize(bs[i].size)
    ensures var w := mem[StartOf(bs, i, 0) - SIZE_MARKER];
            w == Header(bs[i]) && w % ALLOC_MASK == Header(Block(false, bs[i].size))
    ensures Words(bs[..i]) < |mem|
  {
    HeaderHere(mem, bs, i, to);
  }

  lemma Carved(mem: seq<Word>, mem': seq<Word>, bs: seq<Block>, offset: nat, b: Block)
    requires Tiles(mem, bs, 0, offset) && offset < |mem| && GoodSize(b.size)
    requires mem' == mem[offset := Header(b)]
    ensures Tiles(mem', bs + [b], 0, offset + SIZE_MARKER + b.size)
    ensures Live(bs + [b], 0) == if b.alloc then Live(bs, 0)[offset + SIZE_MARKER := b.size] else Live(bs, 0)
    ensures offset + SIZE_MARKER !in Live(bs, 0) && SamePayloads(mem, mem', Live(bs, 0))
  {
    TilesLength(mem, bs, 0, offset);
    TilesFrame(mem, mem', bs, 0, offset);
    TilesOne(mem', b, offset);
    TilesConcat(mem', bs, [b], 0, offset + SIZE_MARKER + b.size);
    LiveConcat(bs, [b], 0);
    LiveInside(bs, 0);
    LiveOne(b, offset);
  }

  /** Replacing the headers of one stretch of blocks by headers for other blocks of the
      same total length keeps the tiling and every payload outside the stretch. */
  lemma Edited(mem: seq<Word>, mem': seq<Word>, pre: seq<Block>, mid: seq<Block>, mid': seq<Block>, post: seq<Block>,
               to: nat)
    requires Tiles(mem, pre + (mid + post), 0, to) && to <= |mem| == |mem'|
    requires Words(mid') == Words(mid)
    requires Tiles(mem', mid', Words(pre), Words(pre) + Words(mid))
    requires forall i :: 0 <= i < |mem| && !(Words(pre) <= i < Words(pre) + Words(mid)) ==> mem'[i] == mem[i]
    ensures Tiles(mem', pre + (mid' + post), 0, to)
    ensures SamePayloads(mem, mem', Live(pre, 0) + Live(post, Words(pre) + Words(mid)))
  {
    hide *;
    var s, w := Words(pre), Words(mid);
    OutsidePayloads(mem, mem', pre, post, s + w);
    TilesConcat(mem, pre, mid + post, 0, to);
    TilesConcat(mem, mid, post, s, to);
    TilesLength(mem, post, s + w, to);
    TilesFrame(mem, mem', pre, 0, s);
    TilesFrame(mem, mem', post, s + w, to);
    TilesConcat(mem', mid', post, s, to);
    TilesConcat(mem', pre, mid' + post, 0, to);
  }

  lemma OutsidePayloads(mem: seq<Word>, mem': seq<Word>, pre: seq<Block>, post: seq<Block>, from: nat)
    requires |mem| == |mem'| && Words(pre) <= from
    requires forall i :: 0 <= i < |mem| && !(Words(pre) <= i < from) ==> mem'[i] == mem[i]
    ensures SamePayloads(mem, mem', Live(pre, 0) + Live(post, from))
  {
    LiveInside(pre, 0);
    LiveInside(post, from);
  }

  lemma LiveThree(pre: seq<Block>, mid: seq<Block>, post: seq<Block>)
    ensures Live(pre + (mid + post), 0) == Live(pre, 0) + Live(mid, Words(pre)) + Live(post, Words(pre) + Words(mid))
    ensures Live(pre, 0).Keys !! Live(mid, Words(pre)).Keys
    ensures Live(post, Words(pre) + Words(mid)).Keys !! Live(pre, 0).Keys + Live(mid, Words(pre)).Keys
  {
    LiveConcat(pre, mid + post, 0);
    LiveConcat(mid, post, Words(pre));
    LiveInside(pre, 0);
    LiveInside(mid, Words(pre));
    LiveInside(post, Words(pre) + Words(mid));
  }

  lemma LiveOne(b: Block, from: nat)
    ensures Live([b], from) == if b.alloc then map[from + SIZE_MARKER := b.size] else map[]
  {
    LiveCons(b, [], from);
    assert [b] + [] == [b];
    Nothing(0, from + SIZE_MARKER + b.size);
  }

  lemma TilesOne(mem: seq<Word>, b: Block, from: nat)
    requires from < |mem| && GoodSize(b.size) && mem[from] == Header(b)
    ensures Tiles(mem, [b], from, from + SIZE_MARKER + b.size)
  {
    assert [b][1..] == [];
  }

  lemma Freed(mem: seq<Word>, mem': seq<Word>, bs: seq<Block>, i: nat, to: nat)
    requires Tiles(mem, bs, 0, to) && i < |bs| && to <= |mem| && GoodSize(bs[i].size) && Words(bs[..i]) < |mem|
    requires mem' == mem[Words(bs[..i]) := Header(Block(false, bs[i].size))]
    ensures var bs' := FreedAt(bs, i);
            && Tiles(mem', bs', 0, to)
            && Live(bs', 0) == Live(bs, 0) - {StartOf(bs, i, 0)}
            && SamePayloads(mem, mem', Live(bs, 0))
  {
    hide Tiles, Live, Words, GoodSize, SamePayloads;
    var pre, a, b, post := bs[..i], [bs[i]], [Block(false, bs[i].size)], bs[i + 1..];
    Around(bs, i, 0);
    WordsOne(bs[i]);
    WordsOne(b[0]);
    TilesOne(mem', b[0], Words(pre));
    Edited(mem, mem', pre, a, b, post, to);
    FreedLive(bs, i);
    HeaderOnly(mem, mem', bs, i, to);
  }

  lemma FreedLive(bs: seq<Block>, i: nat)
    requires i < |bs|
    ensures Live(FreedAt(bs, i), 0) == Live(bs, 0) - {StartOf(bs, i, 0)}
  {
    hide Live, Words;
    var pre, a, b, post := bs[..i], [bs[i]], [Block(false, bs[i].size)], bs[i + 1..];
    var p := StartOf(bs, i, 0);
    Around(bs, i, 0);
    WordsOne(bs[i]);
    WordsOne(b[0]);
    LiveThree(pre, a, post);
    LiveThree(pre, b, post);
    LiveOne(bs[i], Words(pre));
    LiveOne(b[0], Words(pre));
    LiveInside(pre, 0);
    LiveInside(post, Words(pre) + Words(a));
    assert p !in Live(pre, 0) && p !in Live(post, Words(pre) + Words(a));
    assert Live(bs, 0) - {p} == Live(pre, 0) + Live(post, Words(pre) + Words(a));
  }

  /** Changing one header changes no payload. */
  lemma HeaderOnly(mem: seq<Word>, mem': seq<Word>, bs: seq<Block>, i: nat, to: nat)
    requires i < |bs| && |mem'| == |mem|
    requires forall j :: 0 <= j < |mem| && j != Words(bs[..i]) ==> mem'[j] == mem[j]
    ensures SamePayloads(mem, mem', Live(bs, 0))
  {
    hide Live, Words;
    var pre, a, post := bs[..i], [bs[i]], bs[i + 1..];
    Around(bs, i, 0);
    WordsOne(bs[i]);
    LiveThree(pre, a, post);
    LiveOne(bs[i], Words(pre));
    LiveInside(pre, 0);
    LiveInside(post, Words(pre) + Words(a));
  }

  // ----- merge_contiguous on raw memory -----

  /** The size reached by adding free neighbours, header by header, as far as needed. */
  function Reach(mem: seq<Word>, ptr: nat, possible: nat, needed: nat): nat
    decreases |mem| - (ptr + possible)
  {
    if possible >= needed || ptr + possible >= |mem| || IsAlloc(mem[ptr + possible]) then possible
    else Reach(mem, ptr, possible + (SizeField(mem[ptr + possible]) + SIZE_MARKER), needed)
  }

  function Min(a: nat, b: nat): nat { if a < b then a else b }

  function FlagOf(w: Word): int { if IsAlloc(w) then ALLOC_MASK else 0 }

  /** A size in bytes, or-ed with the flag of the header before. */
  function SizeWord(val: nat, before: Word): Word
    requires WORD_BYTES * val < U32
  {
    if WORD_BYTES * val >= ALLOC_MASK then WORD_BYTES * val else WORD_BYTES * val + FlagOf(before)
  }

  lemma HeaderWords(size: nat, before: Word)
    requires GoodSize(size)
    ensures SizeWord(size, before) % ALLOC_MASK == Header(Block(false, size))
    ensures SizeWord(size, before) % ALLOC_MASK + ALLOC_MASK == Header(Block(true, size))
  {
  }

  /** How many words 32-bit addresses reach. */
  const WORDS32: int := 0x4000_0000

  /** Carving a block of this size would pass the end of the 32-bit addresses. */
  predicate Wraps(offset: nat, size: nat) { offset + size + SIZE_MARKER >= WORDS32 }

  /** The words after combining: the block's header and, if something is left over, its header. */
  function CombineWords(mem: seq<Word>, ptr: nat, possible: nat, needed: nat): seq<Word>
    requires SIZE_MARKER <= ptr <= |mem| && WORD_BYTES * Min(possible, needed) < ALLOC_MASK
    requires possible > needed ==> ptr + possible <= |mem| && WORD_BYTES * possible < ALLOC_MASK
  {
    var mem1 := mem[ptr - SIZE_MARKER := WORD_BYTES * Min(possible, needed) + FlagOf(mem[ptr - SIZE_MARKER])];
    if possible > needed then mem1[ptr + needed := WORD_BYTES * (possible - needed - SIZE_MARKER)] else mem1
  }

  /** Below the carved end, following headers is following blocks. */
  lemma {:induction false} ReachBlocks(mem: seq<Word>, ptr: nat, size: nat, post: seq<Block>, needed: nat, to: nat)
    requires Tiles(mem, post, ptr + size, to) && to <= |mem|
    ensures var k, p := Taken(size, post, needed), Possible(size, post, needed);
            Reach(mem, ptr, size, needed) ==
            if p >= needed || k < |post| then p else Reach(mem, ptr, p, needed)
    decreases |post|
  {
    hide Reach, Tiles, Words, Taken, Possible;
    ReachStep(mem, ptr, size, post, needed, to);
    if size < needed && post != [] && !post[0].alloc {
      ReachBlocks(mem, ptr, size + SIZE_MARKER + post[0].size, post[1..], needed, to);
    }
  }

  /** One header of the walk. */
  lemma ReachStep(mem: seq<Word>, ptr: nat, size: nat, post: seq<Block>, needed: nat, to: nat)
    requires Tiles(mem, post, ptr + size, to) && to <= |mem|
    ensures if size < needed && post != [] && !post[0].alloc then
              var size1 := size + SIZE_MARKER + post[0].size;
              && Tiles(mem, post[1..], ptr + size1, to)
              && Reach(mem, ptr, size, needed) == Reach(mem, ptr, size1, needed)
              && Taken(size, post, needed) == 1 + Taken(size1, post[1..], needed)
              && Possible(size, post, needed) == Possible(size1, post[1..], needed)
            else
              && Taken(size, post, needed) == 0 && Possible(size, post, needed) == size
              && (size >= needed || post != [] ==> Reach(mem, ptr, size, needed) == size)
  {
    if size < needed && post != [] && !post[0].alloc {
      HeaderFields(post[0]);
      TilesLength(mem, post, ptr + size, to);
      PossibleStep(size, post, needed);
    } else {
      assert post[..0] == [];
      if post != [] { HeaderFields(post[0]); }
    }
  }

  lemma PossibleStep(size: nat, post: seq<Block>, needed: nat)
    requires size < needed && post != [] && !post[0].alloc
    ensures Possible(size, post, needed) == Possible(size + SIZE_MARKER + post[0].size, post[1..], needed)
  {
    var k1 := Taken(size + SIZE_MARKER + post[0].size, post[1..], needed);
    assert post[..1 + k1] == [post[0]] + post[1..][..k1];
    WordsCons(post[0], post[1..][..k1]);
  }

  /** In memory not yet carved, every zero word reads as a free block of size nothing. */
  lemma {:induction false} ReachZeros(mem: seq<Word>, ptr: nat, possible: nat, needed: nat)
    requires possible <= needed && ptr + possible <= |mem|
    requires forall i :: ptr + possible <= i < |mem| ==> mem[i] == 0
    ensures Reach(mem, ptr, possible, needed) == Min(needed, |mem| - ptr)
    decreases needed - possible
  {
    if possible < needed && ptr + possible < |mem| {
      ReachZeros(mem, ptr, possible + 1, needed);
    }
  }

  /** The headers that combining leaves behind, for a block that starts at s. */
  ghost predicate CombinedHeaders(mem: seq<Word>, mem': seq<Word>, s: nat, possible: nat, needed: nat, alloc: bool) {
    && |mem'| == |mem| && s + SIZE_MARKER + possible <= |mem|
    && GoodSize(possible) && RequestSize(needed)
    && mem'[s] == Header(Block(alloc, Min(possible, needed)))
    && (possible > needed ==>
          && GoodSize((possible - needed - SIZE_MARKER) as nat)
          && mem'[s + SIZE_MARKER + needed] == Header(Block(false, possible - needed - SIZE_MARKER)))
    && (forall i :: 0 <= i < |mem| && i != s && (possible <= needed || i != s + SIZE_MARKER + needed) ==>
        mem'[i] == mem[i])
  }

  lemma CombineHeaders(mem: seq<Word>, ptr: nat, possible: nat, needed: nat)
    requires SIZE_MARKER <= ptr && ptr + possible <= |mem| && WORD_BYTES * |mem| < ALLOC_MASK
    requires GoodSize(possible) && RequestSize(needed)
    ensures CombinedHeaders(mem, CombineWords(mem, ptr, possible, needed), ptr - SIZE_MARKER, possible, needed,
                            IsAlloc(mem[ptr - SIZE_MARKER]))
  {
    GoodSizeOdd(possible);
    RequestSizeOdd(needed);
    if possible > needed {
      GoodSizeOdd((possible - needed - SIZE_MARKER) as nat);
    }
  }

  /** Marking the combined block allocated. */
  lemma CombineThenMark(mem: seq<Word>, mem1: seq<Word>, s: nat, possible: nat, needed: nat)
    requires CombinedHeaders(mem, mem1, s, possible, needed, false) && s < |mem|
    ensures CombinedHeaders(mem, mem1[s := mem1[s] % ALLOC_MASK + ALLOC_MASK], s, possible, needed, true)
  {
  }

  lemma CombinedTiles(mem': seq<Word>, s: nat, mem: seq<Word>, possible: nat, needed: nat, alloc: bool)
    requires CombinedHeaders(mem, mem', s, possible, needed, alloc)
    ensures Tiles(mem', Combined(alloc, possible, needed), s, s + SIZE_MARKER + possible)
  {
    if possible > needed {
      var a, c := Block(alloc, needed), Block(false, possible - needed - SIZE_MARKER);
      TilesOne(mem', a, s);
      TilesOne(mem', c, s + SIZE_MARKER + needed);
      WordsOne(a);
      TilesConcat(mem', [a], [c], s, s + SIZE_MARKER + possible);
      assert [a] + [c] == Combined(alloc, possible, needed);
    } else {
      TilesOne(mem', Block(alloc, possible), s);
    }
  }

  /** What combining does to the blocks and to what is in them. */
  lemma Merged(mem: seq<Word>, mem': seq<Word>, pre: seq<Block>, b: Block, post: seq<Block>, needed: nat, alloc: bool,
               to: nat)
    requires Tiles(mem, pre + ([b] + post), 0, to) && to <= |mem| && WORD_BYTES * |mem| < ALLOC_MASK
    requires CombinedHeaders(mem, mem', Words(pre), Possible(b.size, post, needed), needed, alloc)
    ensures var k, p := Taken(b.size, post, needed), Possible(b.size, post, needed);
            && Tiles(mem', pre + (Combined(alloc, p, needed) + post[k..]), 0, to)
            && SamePayloads(mem, mem', Live(pre, 0) + Live(post[k..], Words(pre) + SIZE_MARKER + p))
  {
    hide *;
    var k, p := Taken(b.size, post, needed), Possible(b.size, post, needed);
    CombinedOutside(mem, mem', Words(pre), p, needed, alloc);
    CombinedFacts(alloc, p, needed);
    CombinedTiles(mem', Words(pre), mem, p, needed, alloc);
    MergedWords(b, post, needed);
    Edited(mem, mem', pre, [b] + post[..k], Combined(alloc, p, needed), post[k..], to);
  }

  lemma CombinedOutside(mem: seq<Word>, mem': seq<Word>, s: nat, possible: nat, needed: nat, alloc: bool)
    requires CombinedHeaders(mem, mem', s, possible, needed, alloc)
    ensures |mem'| == |mem| && GoodSize(possible) && RequestSize(needed)
    ensures forall i :: 0 <= i < |mem| && !(s <= i < s + SIZE_MARKER + possible) ==> mem'[i] == mem[i]
  {
  }

  lemma MergedWords(b: Block, post: seq<Block>, needed: nat)
    ensures var k := Taken(b.size, post, needed);
            && [b] + post == ([b] + post[..k]) + post[k..]
            && Words([b] + post[..k]) == SIZE_MARKER + Possible(b.size, post, needed)
  {
    WordsCons(b, post[..Taken(b.size, post, needed)]);
  }

  /** The size a block can reach is one a header can hold. */
  lemma PossibleOk(mem: seq<Word>, pre: seq<Block>, b: Block, post: seq<Block>, needed: nat, to: nat)
    requires Tiles(mem, pre + ([b] + post), 0, to) && to <= |mem| && WORD_BYTES * |mem| < ALLOC_MASK
    ensures var p := Possible(b.size, post, needed);
            GoodSize(p) && GoodSize(b.size) && Words(pre) + SIZE_MARKER + p <= to
    ensures Words(pre) < |mem| && mem[Words(pre)] == Header(b)
    ensures Tiles(mem, post, Words(pre) + SIZE_MARKER + b.size, to)
  {
    TilesConcat(mem, pre, [b] + post, 0, to);
    assert ([b] + post)[1..] == post;
    TilesLength(mem, post, Words(pre) + SIZE_MARKER + b.size, to);
    PossibleGood(b.size, post, needed);
    TakenWords(b.size, post, needed);
  }

  class Memory {
    const base: nat
    var mem: seq<Word>
    var offset: nat
    ghost var blocks: seq<Block>

    /** The headers tile exactly what has been carved; memory not yet carved is zero. */
    ghost predicate Valid()
      reads this
    {
      && Tiles(mem, blocks, 0, offset)
      && 0 < |mem| && |mem| % 2 == 0 && InBounds()
      && forall i :: offset <= i < |mem| ==> mem[i] == 0
    }

    /** Some of the heap is carved, and all of it lies below 2 GiB. */
    predicate InBounds()
      reads this
    {
      offset <= |mem| && WORD_BYTES * (base + |mem|) < ALLOC_MASK
    }

    ghost function LiveBlocks(): map<nat, nat>
      reads this
    {
      Live(blocks, 0)
    }

    constructor (mem_heap: nat, size: nat)
      requires 0 < size && size % 2 == 0 && WORD_BYTES * (mem_heap + size) < ALLOC_MASK
      ensures Valid() && base == mem_heap && |mem| == size && offset == 0 && blocks == [] && LiveBlocks() == map[]
    {
      base := mem_heap;
      mem := seq(size, _ => 0);
      offset := 0;
      blocks := [];
    }

    /** Is this payload address, relative to the heap, one the heap could have handed out? */
    predicate IsInHeap(ptr: int)
      reads this
    {
      SIZE_MARKER <= ptr < |mem|
    }

    // ----- buffer_ptr: the header in front of a payload address -----

    function HeaderAt(ptr: nat): Word
      requires SIZE_MARKER <= ptr <= |mem|
      reads this
    {
      mem[ptr - SIZE_MARKER]
    }

    /** Keeps the flag; a size of 2 GiB and more sets it, as the two share bit 31. */
    method SetSize(ptr: nat, val: nat)
      requires SIZE_MARKER <= ptr <= |mem| && WORD_BYTES * val < U32
      modifies this`mem
      ensures mem == old(mem)[ptr - SIZE_MARKER := SizeWord(val, old(mem)[ptr - SIZE_MARKER])]
    {
      var memory_state := FlagOf(HeaderAt(ptr));
      var w := WORD_BYTES * val;
      mem := mem[ptr - SIZE_MARKER := if w >= ALLOC_MASK then w else w + memory_state];
    }

    method MarkAlloc(ptr: nat)
      requires SIZE_MARKER <= ptr <= |mem|
      modifies this`mem
      ensures mem == old(mem)[ptr - SIZE_MARKER := old(mem)[ptr - SIZE_MARKER] % ALLOC_MASK + ALLOC_MASK]
    {
      var w := HeaderAt(ptr);
      mem := mem[ptr - SIZE_MARKER := if IsAlloc(w) then w else w + ALLOC_MASK];
    }

    method MarkFree(ptr: nat)
      requires SIZE_MARKER <= ptr <= |mem|
      modifies this`mem
      ensures mem == old(mem)[ptr - SIZE_MARKER := old(mem)[ptr - SIZE_MARKER] % ALLOC_MASK]
    {
      var w := HeaderAt(ptr);
      mem := mem[ptr - SIZE_MARKER := if IsAlloc(w) then w - ALLOC_MASK else w];
    }

    // ----- carving -----

    /** Carves the next block off the unused end. -1 stands for nullptr. The 32-bit sum of a request that
        wraps around always passes the check: the carved end moves down, over blocks still live. */
    method Malloc(size: nat) returns (ptr: int)
      requires InBounds() && RequestSize(size)
      modifies this
      ensures InBounds() && |mem| == |old(mem)|
      ensures ptr == -1 <==> !Wraps(old(offset), size) && old(offset) + size + SIZE_MARKER > |mem|
      ensures ptr == -1 ==> mem == old(mem) && offset == old(offset) && blocks == old(blocks)
      ensures !Wraps(old(offset), size) && old(Valid()) ==> Valid()
      ensures ptr != -1 ==> ptr == old(offset) + SIZE_MARKER
      ensures ptr != -1 && !Wraps(old(offset), size) ==> offset == ptr + size
      ensures ptr != -1 && !Wraps(old(offset), size) && old(Valid()) ==>
                && blocks == old(blocks) + [Block(true, size)]
                && LiveBlocks() == old(LiveBlocks())[ptr := size] && ptr !in old(LiveBlocks())
                && SamePayloads(old(mem), mem, old(LiveBlocks()))
      ensures Wraps(old(offset), size) ==>
                && offset == old(offset) + size + SIZE_MARKER - WORDS32 < old(offset) + SIZE_MARKER
                && mem == if old(offset) < |mem| then old(mem)[old(offset) := WORD_BYTES * size] else old(mem)
    {
      hide Tiles, Live, SamePayloads;
      var used_up_size := (offset + size + SIZE_MARKER) % WORDS32;
      if used_up_size > |mem| {
        return -1;
      }
      ptr := offset + SIZE_MARKER;
      // of a fully carved heap, the header of a wrapped request lands behind it
      if offset < |mem| {
        SetSize(ptr, size);
        MarkAlloc(ptr);
      }
      offset := used_up_size;
      if !Wraps(old(offset), size) {
        if old(Valid()) { Carved(old(mem), mem, blocks, old(offset), Block(true, size)); }
        blocks := blocks + [Block(true, size)];
      }
    }

    /** Takes what is left and makes it a free block. */
    method CleanupRemaining()
      requires Valid()
      modifies this
      ensures Valid() && offset == |mem| && |mem| == |old(mem)|
      ensures old(offset) == |mem| ==> blocks == old(blocks)
      ensures LiveBlocks() == old(LiveBlocks()) && SamePayloads(old(mem), mem, old(LiveBlocks()))
    {
      hide Tiles, Live, SamePayloads, Words, GoodSize, AllGood, SizeWord, IsAlloc, Header;
      SameMemory(mem, LiveBlocks());
      if offset == |mem| {
        return;
      }
      TilesLength(mem, blocks, 0, offset);
      WordsEven(blocks);
      var size := |mem| - offset - SIZE_MARKER;
      GoodSizeOdd(size);
      HeaderWords(size, mem[offset]);
      SetSize(offset + SIZE_MARKER, size);
      MarkFree(offset + SIZE_MARKER);
      Carved(old(mem), mem, blocks, offset, Block(false, size));
      offset := |mem|;
      blocks := blocks + [Block(false, size)];
    }

    /** Growth by memory that starts where the heap ends. */
    method ExpandMemory(exp_mem: nat, size: nat) returns (ok: bool)
      requires Valid() && size % 2 == 0 && WORD_BYTES * (base + |mem| + size) < ALLOC_MASK
      modifies this
      ensures Valid() && blocks == old(blocks) && offset == old(offset)
      ensures ok <==> exp_mem == base + |old(mem)|
      ensures |mem| == |old(mem)| + (if ok then size else 0) && old(mem) <= mem
    {
      if base + |mem| != exp_mem {
        return false;
      }
      mem := mem + seq(size, _ => 0);
      TilesFrame(old(mem), mem, blocks, 0, offset);
      return true;
    }

    method Free(ptr: nat)
      requires Valid()
      requires exists i :: 0 <= i < |blocks| && StartOf(blocks, i, 0) == ptr
      modifies this
      ensures Valid() && |mem| == |old(mem)| && offset == old(offset)
      ensures forall i :: 0 <= i < |old(blocks)| && StartOf(old(blocks), i, 0) == ptr ==>
                blocks == FreedAt(old(blocks), i)
      ensures LiveBlocks() == old(LiveBlocks()) - {ptr}
      ensures SamePayloads(old(mem), mem, old(LiveBlocks()))
    {
      ghost var i :| 0 <= i < |blocks| && StartOf(blocks, i, 0) == ptr;
      hide Tiles, Live, Words, SamePayloads, GoodSize, FreedAt;
      OnlyStart(blocks, i);
      BlockHere(mem, blocks, i, offset);
      MarkFree(ptr);
      Freed(old(mem), mem, blocks, i, offset);
      blocks := FreedAt(blocks, i);
    }

    /** A program writes into its own block. */
    method WriteWord(ptr: nat, at: nat, w: Word)
      requires Valid() && ptr in LiveBlocks() && at < LiveBlocks()[ptr]
      modifies this`mem
      ensures Valid() && ptr + at < |old(mem)| && mem == old(mem)[ptr + at := w]
      ensures SamePayloads(old(mem), mem, LiveBlocks() - {ptr})
    {
      hide Tiles, Live, SamePayloads, Words;
      ghost var i := LiveSplit(blocks, 0, ptr);
      LiveBlockFacts(mem, blocks, i, offset, 0);
      mem := mem[ptr + at := w];
      Shrunk(old(mem), mem, blocks, i, offset, at);
    }

    /** merge_contiguous: grows the block at ptr over free neighbours, or only reports that it could not. */
    method MergeContiguous(ptr: nat, needed_size: nat, all_or_nothing: bool) returns (ok: bool)
      requires SIZE_MARKER <= ptr <= |mem| && WORD_BYTES * needed_size < U32 && WORD_BYTES * |mem| < ALLOC_MASK
      requires var p := Reach(mem, ptr, SizeField(mem[ptr - SIZE_MARKER]), needed_size);
               ptr + p <= |mem| || (all_or_nothing && |mem| - ptr < needed_size)
      modifies this`mem
      ensures |mem| == |old(mem)|
      ensures var p := Reach(old(mem), ptr, SizeField(old(mem)[ptr - SIZE_MARKER]), needed_size);
              if all_or_nothing && (|mem| - ptr < needed_size || p < needed_size) then !ok && mem == old(mem)
              else mem == CombineWords(old(mem), ptr, p, needed_size) && (ok <==> p >= needed_size)
    {
      if all_or_nothing && |mem| - ptr < needed_size {
        return false;
      }
      var possible_size := SizeField(HeaderAt(ptr));
      ghost var p := Reach(mem, ptr, possible_size, needed_size);
      while possible_size < needed_size && ptr + possible_size < |mem|
        invariant Reach(mem, ptr, possible_size, needed_size) == p
        decreases |mem| - (ptr + possible_size)
      {
        var next_mem_flag_size := mem[ptr + possible_size];
        if IsAlloc(next_mem_flag_size) {
          break;
        }
        possible_size := possible_size + (SizeField(next_mem_flag_size) + SIZE_MARKER);
      }
      if all_or_nothing && possible_size < needed_size {
        return false;
      }
      ok := Combine(ptr, possible_size, needed_size);
    }

    /** The end of merge_contiguous: one header, and one for what is left over. */
    method Combine(ptr: nat, possible_size: nat, needed_size: nat) returns (ok: bool)
      requires SIZE_MARKER <= ptr <= |mem| && WORD_BYTES * needed_size < U32 && WORD_BYTES * |mem| < ALLOC_MASK
      requires ptr + possible_size <= |mem|
      modifies this`mem
      ensures mem == CombineWords(old(mem), ptr, possible_size, needed_size)
      ensures ok <==> possible_size >= needed_size
    {
      var new_size := if possible_size < needed_size then possible_size else needed_size;
      SetSize(ptr, new_size);
      if possible_size > needed_size {
        var freed_size := possible_size - needed_size - SIZE_MARKER;
        SetSize(ptr + needed_size + SIZE_MARKER, freed_size);
        MarkFree(ptr + needed_size + SIZE_MARKER);
      }
      return new_size == needed_size;
    }

    /** Takes the first run of free blocks that can hold the size, coalescing as it goes. */
    method MallocFromFreed(size: nat) returns (ptr: int)
      requires Valid() && RequestSize(size) && offset == |mem|
      modifies this`mem, this`blocks
      ensures Valid() && |mem| == |old(mem)|
      ensures var f := FirstFit(old(blocks), size, 0);
              blocks == f.blocks && ptr == if f.found then f.at else -1
      ensures SamePayloads(old(mem), mem, old(LiveBlocks()))
    {
      hide Tiles, Words, Live, SamePayloads, FirstFit, Searching, Reach, CombineWords, CombinedHeaders, Taken, Possible,
           Combined, Header, SizeWord, GoodSize;
      ghost var pre: seq<Block>, post := [], blocks;
      var current: int := SIZE_MARKER;
      Starting(mem, blocks, size);
      while current != -1
        invariant |mem| == |old(mem)|
        invariant if post == [] then current == -1 else current == Words(pre) + SIZE_MARKER
        invariant Tiles(mem, pre + post, 0, |mem|)
        invariant Searching(old(blocks), pre, post, size)
        invariant SamePayloads(old(mem), mem, Live(old(blocks), 0))
        invariant blocks == old(blocks)
        decreases |post|
      {
        ghost var b := post[0];
        assert post == [b] + post[1..];
        ghost var before := mem;
        PossibleOk(mem, pre, b, post[1..], size, |mem|);
        HeaderFields(b);
        if !IsAlloc(HeaderAt(current)) {
          var ok := TryRun(current, size, pre, b, post[1..]);
          if ok {
            Found(old(mem), before, mem, old(blocks), pre, b, post[1..], size);
            blocks := FirstFit(old(blocks), size, 0).blocks;
            return current;
          }
          Passed(old(mem), before, mem, old(blocks), pre, b, post[1..], size);
          pre, post := pre + [Block(false, Possible(b.size, post[1..], size))],
            post[1..][Taken(b.size, post[1..], size)..];
        } else {
          SkipAllocated(old(blocks), pre, b, post[1..], size);
          pre, post := pre + [b], post[1..];
        }
        // next_ptr
        NextBlock(mem, pre, post, current);
        var next := current + SizeField(HeaderAt(current)) + SIZE_MARKER;
        current := if next >= |mem| then -1 else next;
      }
      Exhausted(old(blocks), pre, size);
      blocks := FirstFit(old(blocks), size, 0).blocks;
      return -1;
    }

    /** One step of that walk, at a free block: it becomes as large as it can and needs to be, and is taken
        when that is enough. */
    method TryRun(current: nat, size: nat, ghost pre: seq<Block>, ghost b: Block, ghost post: seq<Block>)
      returns (ok: bool)
      requires RequestSize(size) && WORD_BYTES * |mem| < ALLOC_MASK && !b.alloc
      requires Tiles(mem, pre + ([b] + post), 0, |mem|) && current == Words(pre) + SIZE_MARKER
      modifies this`mem
      ensures |mem| == |old(mem)| && (ok <==> Possible(b.size, post, size) >= size)
      ensures var k, p := Taken(b.size, post, size), Possible(b.size, post, size);
              && Tiles(mem, pre + (Combined(ok, p, size) + post[k..]), 0, |mem|)
              && SamePayloads(old(mem), mem, Live(pre, 0) + Live(post[k..], Words(pre) + SIZE_MARKER + p))
    {
      hide Tiles, Words, Live, SamePayloads, Reach, CombineWords, CombinedHeaders, Taken, Possible, Combined, Header,
           SizeWord, GoodSize;
      ghost var p := Possible(b.size, post, size);
      PossibleOk(mem, pre, b, post, size, |mem|);
      HeaderFields(b);
      ReachBlocks(mem, current, b.size, post, size, |mem|);
      ReachEnd(mem, current, b.size, post, size);
      CombineHeaders(mem, current, p, size);
      ok := MergeContiguous(current, size, false);
      if ok {
        CombineThenMark(old(mem), mem, current - SIZE_MARKER, p, size);
        MarkAlloc(current);
      }
      Merged(old(mem), mem, pre, b, post, size, ok, |mem|);
    }

    /** Resizes the block at ptr where it is, if that can be done.
        Shrinking leaves the block's own size as it was. */
    method ReallocInPlace(ptr: nat, size: nat) returns (r: int, orig_ptr_size: nat)
      requires Valid() && RequestSize(size) && ptr in LiveBlocks()
      modifies this
      ensures orig_ptr_size == old(LiveBlocks())[ptr] && |mem| == |old(mem)|
      ensures r == ptr || r == -1
      ensures r == ptr <==> old(Resizes(ptr, size) || Leaves(ptr, size))
      ensures r == -1 ==> mem == old(mem) && offset == old(offset) && blocks == old(blocks)
      ensures SameWords(old(mem), mem, ptr, Min(orig_ptr_size, size))
      ensures SamePayloads(old(mem), mem, old(LiveBlocks()) - {ptr})
      ensures !old(Leaves(ptr, size)) ==> Valid() && (old(offset) == |mem| ==> offset == old(offset))
      ensures !old(Leaves(ptr, size)) && r == ptr ==>
                LiveBlocks() == old(LiveBlocks())[ptr := if orig_ptr_size > size then orig_ptr_size else size]
      ensures old(LeavesCarved(ptr, size)) ==> forall bs :: !Tiles(mem, bs, 0, offset)
      ensures old(LeavesHeap(ptr, size)) ==> offset == (old(offset) + size - orig_ptr_size) % WORDS32
    {
      hide Tiles, Live, SamePayloads, SameWords, Taken, Possible, Combined, Reach, CombineWords, Words, GoodSize,
           Resizes, LeavesCarved, LeavesHeap;
      ghost var i := LiveSplit(blocks, 0, ptr);
      ghost var b := blocks[i];
      HeadersTell(i, size);
      AllSame(mem, ptr, b.size);
      AllSame(mem, ptr, size);
      LiveBlockFacts(mem, blocks, i, offset, size);
      SameMemory(mem, LiveBlocks() - {ptr});
      orig_ptr_size := SizeField(HeaderAt(ptr));
      var orig_buffer_end := ptr + orig_ptr_size;
      // end_of_buffer - size, in 32 bits
      if base + ptr > (base + |mem| - size) % WORDS32 {
        return -1, orig_ptr_size;
      }
      if orig_ptr_size > size {
        FreeExcess(ptr, orig_ptr_size, size, i);
        return ptr, orig_ptr_size;
      } else if orig_buffer_end == offset {
        ExtendLast(ptr, orig_ptr_size, size, i);
        return ptr, orig_ptr_size;
      }
      if size == orig_ptr_size {
        return ptr, orig_ptr_size;
      }
      var ok := GrowInPlace(ptr, size, i);
      return if ok then ptr else -1, orig_ptr_size;
    }

    // ----- what the headers say before a block is resized -----

    /** The size that free neighbours below the carved end make up, as far as needed. */
    function Growth(ptr: nat, size: nat): nat
      requires SIZE_MARKER <= ptr <= offset <= |mem|
      reads this
    {
      Reach(mem[..offset], ptr, SizeField(HeaderAt(ptr)), size)
    }

    /** The block at ptr can be given the size where it is. */
    predicate Resizes(ptr: nat, size: nat)
      reads this
    {
      && SIZE_MARKER <= ptr <= offset <= |mem| && ptr + size <= |mem|
      && var orig := SizeField(HeaderAt(ptr)); (size <= orig || ptr + orig == offset || Growth(ptr, size) >= size)
    }

    /** Growing it would walk into memory that was never carved. */
    predicate LeavesCarved(ptr: nat, size: nat)
      reads this
    {
      && SIZE_MARKER <= ptr <= offset < |mem| && ptr + size <= |mem| && ptr + SizeField(HeaderAt(ptr)) != offset
      && ptr + Growth(ptr, size) == offset && Growth(ptr, size) < size
    }

    /** Growing it would pass the check for the heap's end by wrapping around. */
    predicate LeavesHeap(ptr: nat, size: nat)
      reads this
    {
      && SIZE_MARKER <= ptr <= offset <= |mem|
      && ptr + SizeField(HeaderAt(ptr)) == offset && size > base + |mem|
    }

    /** Growing it in place would break the heap, which the code does not notice. */
    predicate Leaves(ptr: nat, size: nat)
      reads this
    {
      LeavesCarved(ptr, size) || LeavesHeap(ptr, size)
    }

    /** The headers tell exactly what the block list does. */
    lemma HeadersTell(i: nat, size: nat)
      requires Valid() && i < |blocks| && blocks[i].alloc
      ensures var ptr := StartOf(blocks, i, 0);
              && SIZE_MARKER <= ptr <= offset && SizeField(HeaderAt(ptr)) == blocks[i].size
              && ptr + blocks[i].size <= offset
              && (Resizes(ptr, size) <==> CanResize(blocks, i, |mem|, size))
              && (LeavesCarved(ptr, size) <==> WalksOff(blocks, i, offset, |mem|, size))
              && (LeavesHeap(ptr, size) <==> Overruns(blocks, i, base + |mem|, size))
    {
      hide Tiles, Words, Live, Taken, Possible, Reach, WalksOff;
      LiveBlockFacts(mem, blocks, i, offset, size);
      GrowthIs(mem, blocks, i, offset, size);
      WalksWhen(mem, blocks, i, offset, size);
    }

    /** Shrinking: a free header goes into the block's own payload, whose size is not changed. */
    method FreeExcess(ptr: nat, orig_ptr_size: nat, size: nat, ghost i: nat)
      requires Valid() && i < |blocks| && blocks[i].alloc && ptr == StartOf(blocks, i, 0)
      requires size < orig_ptr_size == blocks[i].size && WORD_BYTES * orig_ptr_size < ALLOC_MASK
      modifies this`mem
      ensures Valid() && |mem| == |old(mem)| && SameWords(old(mem), mem, ptr, size)
      ensures SamePayloads(old(mem), mem, LiveBlocks() - {ptr})
    {
      hide Tiles, Live, SamePayloads, Possible, Words;
      LiveBlockFacts(mem, blocks, i, offset, size);
      var new_ptr := ptr + size + SIZE_MARKER;
      SetSize(new_ptr, orig_ptr_size - size);
      MarkFree(new_ptr);
      Shrunk(old(mem), mem, blocks, i, offset, size);
    }

    /** The case of the last block: the carved end moves with it. */
    method ExtendLast(ptr: nat, orig_ptr_size: nat, size: nat, ghost i: nat)
      requires Valid() && RequestSize(size) && i + 1 == |blocks| && blocks[i].alloc && ptr == StartOf(blocks, i, 0)
      requires orig_ptr_size == blocks[i].size <= size
      requires ptr + size <= |mem| || size > base + |mem|
      modifies this
      ensures |mem| == |old(mem)| && SameWords(old(mem), mem, ptr, orig_ptr_size)
      ensures SamePayloads(old(mem), mem, old(LiveBlocks()) - {ptr})
      ensures size <= base + |mem| ==> Valid() && LiveBlocks() == old(LiveBlocks())[ptr := size]
      ensures size <= base + |mem| && old(offset) == |mem| ==> offset == old(offset)
      ensures offset == (old(offset) + size - orig_ptr_size) % WORDS32
    {
      hide Tiles, Live, SamePayloads, SameWords, Possible, Words;
      LiveBlockFacts(mem, blocks, i, offset, size);
      SetSize(ptr, size);
      offset := (offset + size - orig_ptr_size) % WORDS32;
      LastHeader(old(mem), mem, blocks, i, old(offset), size);
      if size <= base + |mem| {
        RequestSizeOdd(size);
        Extended(old(mem), mem, blocks, i, old(offset), size);
        blocks := blocks[..i] + [Block(true, size)];
      }
    }

    /** The last case of realloc_in_place: take the free neighbours, all or nothing. */
    method GrowInPlace(ptr: nat, size: nat, ghost i: nat) returns (ok: bool)
      requires Valid() && RequestSize(size) && i + 1 < |blocks| && blocks[i].alloc && ptr == StartOf(blocks, i, 0)
      requires blocks[i].size < size
      modifies this
      ensures |mem| == |old(mem)| && offset == old(offset)
      ensures ok <==> CanResize(old(blocks), i, |mem|, size) || WalksOff(old(blocks), i, offset, |mem|, size)
      ensures !ok ==> mem == old(mem) && blocks == old(blocks)
      ensures SameWords(old(mem), mem, ptr, old(blocks)[i].size)
      ensures SamePayloads(old(mem), mem, old(LiveBlocks()) - {ptr})
      ensures !WalksOff(old(blocks), i, offset, |mem|, size) ==> Valid()
      ensures !WalksOff(old(blocks), i, offset, |mem|, size) && ok ==> LiveBlocks() == old(LiveBlocks())[ptr := size]
      ensures WalksOff(old(blocks), i, offset, |mem|, size) ==> forall bs :: !Tiles(mem, bs, 0, offset)
    {
      hide Tiles, Live, SamePayloads, Taken, Possible, Combined, Reach, CombineWords, Words;
      ghost var pre, b, post := blocks[..i], blocks[i], blocks[i + 1..];
      LiveBlockFacts(mem, blocks, i, offset, size);
      SameMemory(mem, LiveBlocks() - {ptr});
      if ptr + size <= |mem| { ReachWhenGrowing(mem, blocks, i, offset, size); }
      ok := MergeContiguous(ptr, size, true);
      if !ok {
        return;
      }
      MarkAlloc(ptr);
      GrownWords(old(mem), mem, ptr, Reach(old(mem), ptr, b.size, size), size);
      if WalksOff(blocks, i, offset, |mem|, size) {
        WalkedOff(old(mem), mem, blocks, i, offset, size);
        FewerPayloads(old(mem), mem, LiveBlocks(), ptr);
      } else {
        Grown(old(mem), mem, blocks, i, offset, size);
        blocks := pre + (Combined(true, Possible(b.size, post, size), size) + post[Taken(b.size, post, size)..]);
      }
    }
  }

  lemma OnlyStart(bs: seq<Block>, i: nat)
    requires i < |bs|
    ensures forall j :: 0 <= j < |bs| && StartOf(bs, j, 0) == StartOf(bs, i, 0) ==> j == i
  {
    forall j | 0 <= j < |bs| && StartOf(bs, j, 0) == StartOf(bs, i, 0) ensures j == i { OneStart(bs, i, j); }
  }

  // ----- steps of the first-fit walk -----

  /** The search of the whole heap is the blocks passed so far and the search of the rest. */
  ghost predicate Searching(all: seq<Block>, pre: seq<Block>, post: seq<Block>, size: nat) {
    var f := FirstFit(post, size, Words(pre));
    && FirstFit(all, size, 0) == Fit(pre + f.blocks, f.found, f.at)
    && Live(pre + post, 0) == Live(all, 0)
  }

  lemma Starting(mem: seq<Word>, bs: seq<Block>, size: nat)
    requires 0 < |mem| && Tiles(mem, bs, 0, |mem|)
    ensures bs != [] && [] + bs == bs && Searching(bs, [], bs, size) && Words([]) == 0
    ensures SamePayloads(mem, mem, Live(bs, 0))
  {
    assert [] + bs == bs;
    var f := FirstFit(bs, size, 0);
    assert [] + f.blocks == f.blocks;
  }

  lemma ReachEnd(mem: seq<Word>, ptr: nat, size: nat, post: seq<Block>, needed: nat)
    requires Tiles(mem, post, ptr + size, |mem|)
    ensures Reach(mem, ptr, Possible(size, post, needed), needed) == Possible(size, post, needed) ||
            Possible(size, post, needed) >= needed || Taken(size, post, needed) < |post|
  {
    var k := Taken(size, post, needed);
    if k == |post| {
      assert post[..k] == post;
      TilesLength(mem, post, ptr + size, |mem|);
    }
  }

  lemma SkipAllocated(all: seq<Block>, pre: seq<Block>, b: Block, post: seq<Block>, size: nat)
    requires b.alloc && Searching(all, pre, [b] + post, size)
    ensures Searching(all, pre + [b], post, size) && pre + ([b] + post) == (pre + [b]) + post
    ensures Words(pre + [b]) == Words(pre) + SIZE_MARKER + b.size
  {
    hide FirstFit, Live, Words;
    assert ([b] + post)[1..] == post;
    FitAlloc([b] + post, size, Words(pre));
    WordsConcat(pre, [b]);
    WordsOne(b);
    AppendAssoc(pre, b, post);
    AppendAssoc(pre, b, FirstFit(post, size, Words(pre) + SIZE_MARKER + b.size).blocks);
  }

  /** A free block that is too small even with its free neighbours. */
  lemma Passed(mem0: seq<Word>, mem: seq<Word>, mem': seq<Word>, all: seq<Block>, pre: seq<Block>, b: Block,
               post: seq<Block>, size: nat)
    requires !b.alloc && Searching(all, pre, [b] + post, size) && Possible(b.size, post, size) < size
    requires var k, p := Taken(b.size, post, size), Possible(b.size, post, size);
             SamePayloads(mem, mem', Live(pre, 0) + Live(post[k..], Words(pre) + SIZE_MARKER + p))
    requires SamePayloads(mem0, mem, Live(all, 0)) && |mem0| == |mem| == |mem'|
    ensures var k, p := Taken(b.size, post, size), Possible(b.size, post, size);
            && Searching(all, pre + [Block(false, p)], post[k..], size)
            && Words(pre + [Block(false, p)]) == Words(pre) + SIZE_MARKER + p
            && SamePayloads(mem0, mem', Live(all, 0))
            && pre + (Combined(false, p, size) + post[k..]) == (pre + [Block(false, p)]) + post[k..]
  {
    hide *;
    PassedSearch(all, pre, b, post, size);
    FreeStepPayloads(mem0, mem, mem', all, pre, b, post, size);
  }

  lemma PassedSearch(all: seq<Block>, pre: seq<Block>, b: Block, post: seq<Block>, size: nat)
    requires !b.alloc && Searching(all, pre, [b] + post, size) && Possible(b.size, post, size) < size
    ensures var k, p := Taken(b.size, post, size), Possible(b.size, post, size);
            && Searching(all, pre + [Block(false, p)], post[k..], size)
            && Words(pre + [Block(false, p)]) == Words(pre) + SIZE_MARKER + p
            && pre + (Combined(false, p, size) + post[k..]) == (pre + [Block(false, p)]) + post[k..]
  {
    hide FirstFit, Words, Live, Taken, Possible, Combined;
    PassedFit(all, pre, b, post, size);
    PassedLive(pre, b, post, size);
    var c, rest := Block(false, Possible(b.size, post, size)), post[Taken(b.size, post, size)..];
    assert pre + ([c] + rest) == (pre + [c]) + rest;
  }

  lemma PassedFit(all: seq<Block>, pre: seq<Block>, b: Block, post: seq<Block>, size: nat)
    requires !b.alloc && Possible(b.size, post, size) < size
    requires var f := FirstFit([b] + post, size, Words(pre));
             FirstFit(all, size, 0) == Fit(pre + f.blocks, f.found, f.at)
    ensures var c, rest := Block(false, Possible(b.size, post, size)), post[Taken(b.size, post, size)..];
            var f := FirstFit(rest, size, Words(pre + [c]));
            && FirstFit(all, size, 0) == Fit((pre + [c]) + f.blocks, f.found, f.at)
            && Words(pre + [c]) == Words(pre) + SIZE_MARKER + c.size
            && Combined(false, c.size, size) == [c]
  {
    hide *;
    var bs, k, p := [b] + post, Taken(b.size, post, size), Possible(b.size, post, size);
    var c, rest := Block(false, p), post[k..];
    TooSmall(p, size);
    WordsConcat(pre, [c]);
    WordsOne(c);
    assert bs[1..] == post && bs[1 + k..] == rest;
    var p', rest' := FitFree(bs, size, Words(pre));
    AppendAssoc(pre, c, FirstFit(rest, size, Words(pre) + SIZE_MARKER + p).blocks);
  }

  lemma TooSmall(possible: nat, needed: nat)
    requires possible < needed
    ensures Combined(false, possible, needed) == [Block(false, possible)]
  {
  }

  lemma AppendAssoc(pre: seq<Block>, c: Block, bs: seq<Block>)
    ensures pre + ([c] + bs) == (pre + [c]) + bs
  {
  }

  lemma PassedLive(pre: seq<Block>, b: Block, post: seq<Block>, size: nat)
    requires !b.alloc
    ensures var k, p := Taken(b.size, post, size), Possible(b.size, post, size);
            && Live(pre + ([Block(false, p)] + post[k..]), 0) == Live(pre + ([b] + post), 0)
            && Live(pre + ([b] + post), 0) == Live(pre, 0) + Live(post[k..], Words(pre) + SIZE_MARKER + p)
  {
    hide Live, Words, Taken, Possible;
    var bs, k, p := [b] + post, Taken(b.size, post, size), Possible(b.size, post, size);
    var c := Block(false, p);
    assert bs[1..] == post && bs[1 + k..] == post[k..];
    FreeRunLive(bs, k, size, Words(pre));
    LiveConcat(pre, bs, 0);
    LiveThree(pre, [c], post[k..]);
    WordsOne(c);
    LiveOne(c, Words(pre));
  }

  /** Combining free blocks leaves every live payload alone. */
  lemma FreeStepPayloads(mem0: seq<Word>, mem: seq<Word>, mem': seq<Word>, all: seq<Block>, pre: seq<Block>, b: Block,
                         post: seq<Block>, size: nat)
    requires !b.alloc && Searching(all, pre, [b] + post, size)
    requires var k, p := Taken(b.size, post, size), Possible(b.size, post, size);
             SamePayloads(mem, mem', Live(pre, 0) + Live(post[k..], Words(pre) + SIZE_MARKER + p))
    requires SamePayloads(mem0, mem, Live(all, 0)) && |mem0| == |mem| == |mem'|
    ensures SamePayloads(mem0, mem', Live(all, 0))
  {
    hide Live, Words, FirstFit, Taken, Possible, SamePayloads;
    PassedLive(pre, b, post, size);
    SamePayloadsChain(mem0, mem, mem', Live(all, 0));
  }

  lemma FewerPayloads(mem: seq<Word>, mem': seq<Word>, live: map<nat, nat>, p: nat)
    requires SamePayloads(mem, mem', live)
    ensures SamePayloads(mem, mem', live - {p})
  {
  }

  lemma AllSame(mem: seq<Word>, p: nat, size: nat)
    ensures SameWords(mem, mem, p, size)
  {
  }

  lemma SameMemory(mem: seq<Word>, live: map<nat, nat>)
    ensures SamePayloads(mem, mem, live)
  {
  }

  lemma SamePayloadsChain(a: seq<Word>, b: seq<Word>, c: seq<Word>, live: map<nat, nat>)
    requires SamePayloads(a, b, live) && SamePayloads(b, c, live) && |a| <= |b| <= |c|
    ensures SamePayloads(a, c, live)
  {
    forall p | p in live ensures SameWords(a, c, p, live[p]) {
      assert SameWords(a, b, p, live[p]) && SameWords(b, c, p, live[p]);
      forall i | p <= i < p + live[p] && i < |a| ensures c[i] == a[i] {
        assert b[i] == a[i];
      }
    }
  }

  lemma Found(mem0: seq<Word>, mem: seq<Word>, mem': seq<Word>, all: seq<Block>, pre: seq<Block>, b: Block,
              post: seq<Block>, size: nat)
    requires !b.alloc && Searching(all, pre, [b] + post, size) && Possible(b.size, post, size) >= size
    requires var k, p := Taken(b.size, post, size), Possible(b.size, post, size);
             SamePayloads(mem, mem', Live(pre, 0) + Live(post[k..], Words(pre) + SIZE_MARKER + p))
    requires SamePayloads(mem0, mem, Live(all, 0)) && |mem0| == |mem| == |mem'|
    ensures var k, p := Taken(b.size, post, size), Possible(b.size, post, size);
            FirstFit(all, size, 0) == Fit(pre + (Combined(true, p, size) + post[k..]), true, Words(pre) + SIZE_MARKER)
    ensures SamePayloads(mem0, mem', Live(all, 0))
  {
    hide FirstFit, Words, Live, Taken, Possible, Combined, SamePayloads;
    FreeStepPayloads(mem0, mem, mem', all, pre, b, post, size);
    var bs, k := [b] + post, Taken(b.size, post, size);
    assert bs[1..] == post && bs[1 + k..] == post[k..];
    var p, rest := FitFree(bs, size, Words(pre));
  }

  lemma Exhausted(all: seq<Block>, pre: seq<Block>, size: nat)
    requires Searching(all, pre, [], size)
    ensures FirstFit(all, size, 0) == Fit(pre, false, 0) && pre + [] == pre
  {
    Nothing(size, Words(pre));
    assert pre + [] == pre;
  }

  /** next_ptr steps from one payload to the next, and ends exactly at the last block. */
  lemma NextBlock(mem: seq<Word>, pre: seq<Block>, post: seq<Block>, ptr: nat)
    requires Tiles(mem, pre + post, 0, |mem|) && pre != []
    requires ptr == Words(pre[..|pre| - 1]) + SIZE_MARKER
    ensures SIZE_MARKER <= ptr <= |mem|
    ensures ptr + SizeField(mem[ptr - SIZE_MARKER]) == Words(pre)
    ensures post == [] <==> Words(pre) + SIZE_MARKER >= |mem|
    ensures post != [] ==> Words(pre) < |mem|
  {
    hide Tiles, Words, GoodSize, AllGood, Header;
    var i := |pre| - 1;
    var b := pre[i];
    HeaderHere(mem, pre + post, i, |mem|);
    assert (pre + post)[..i] == pre[..i];
    HeaderFields(b);
    assert pre == pre[..i] + [b];
    WordsConcat(pre[..i], [b]);
    WordsOne(b);
    TilesConcat(mem, pre, post, 0, |mem|);
    TilesLength(mem, post, Words(pre), |mem|);
    Nothing(0, 0);
    if post != [] {
      Parts(post);
      GoodSizeOdd(post[0].size);
      assert Words(post) >= 2;
    }
  }

  // ----- realloc_in_place -----

  /** Block i can take the size where it is, staying below what has been carved, or, as
      the last block, below the end of the heap. */
  ghost predicate CanResize(bs: seq<Block>, i: nat, heapEnd: nat, size: nat)
    requires i < |bs|
  {
    && StartOf(bs, i, 0) + size <= heapEnd
    && (size <= bs[i].size || i + 1 == |bs| || Possible(bs[i].size, bs[i + 1..], size) >= size)
  }

  /** The first k blocks are free. */
  ghost predicate FreeUpTo(post: seq<Block>, k: nat) { k <= |post| && forall i :: 0 <= i < k ==> !post[i].alloc }

  /** A block of the size and some free blocks right behind it can hold what is needed. */
  ghost predicate RunReaches(size: nat, post: seq<Block>, needed: nat) {
    exists k: nat :: FreeUpTo(post, k) && size + Words(post[..k]) >= needed
  }

  /** Free neighbours are enough exactly when some of them, without a gap, are. */
  lemma PossibleReaches(size: nat, post: seq<Block>, needed: nat)
    ensures Possible(size, post, needed) >= needed <==> RunReaches(size, post, needed)
  {
    hide Taken, Words;
    TakenFacts(size, post, needed);
    var t := Taken(size, post, needed);
    assert FreeUpTo(post, t);
    forall k: nat | FreeUpTo(post, k) && size + Words(post[..k]) >= needed
      ensures Possible(size, post, needed) >= needed
    {
      if k <= t {
        assert post[..t] == post[..k] + post[k..t];
        WordsConcat(post[..k], post[k..t]);
      }
    }
  }

  /** When a block can take a size where it is: below the end of the heap, and it is large enough already, or
      the last one, or the free blocks right behind it make up the difference. */
  lemma CanResizeIs(bs: seq<Block>, i: nat, heapEnd: nat, size: nat)
    requires i < |bs|
    ensures CanResize(bs, i, heapEnd, size) <==>
              && Words(bs[..i]) + 1 + size <= heapEnd
              && (size <= bs[i].size || i == |bs| - 1 || RunReaches(bs[i].size, bs[i + 1..], size))
  {
    hide Taken, Words;
    PossibleReaches(bs[i].size, bs[i + 1..], size);
  }

  /** Block i would grow over free blocks all the way to the carved end and not stop there:
      the header walk goes on into memory that has not been carved. */
  ghost predicate WalksOff(bs: seq<Block>, i: nat, offset: nat, heapEnd: nat, size: nat)
    requires i < |bs|
  {
    var ptr := StartOf(bs, i, 0);
    && offset < heapEnd && ptr + size <= heapEnd
    && i + 1 < |bs| && (forall j :: i < j < |bs| ==> !bs[j].alloc)
    && ptr + size > offset
  }

  /** Block i is the last one and would get a size larger than the address `top` where the heap ends:
      `end - size` wraps around, and the check that the block stays inside the heap passes. */
  predicate Overruns(bs: seq<Block>, i: nat, top: nat, size: nat) { i + 1 == |bs| && size > top }

  /** Where a live block lies and what surrounds it. */
  lemma LiveBlockFacts(mem: seq<Word>, bs: seq<Block>, i: nat, offset: nat, size: nat)
    requires Tiles(mem, bs, 0, offset) && offset <= |mem| && WORD_BYTES * |mem| < ALLOC_MASK && i < |bs| && bs[i].alloc
    ensures var s, b, pre, post := Words(bs[..i]), bs[i], bs[..i], bs[i + 1..];
            && bs == pre + ([b] + post)
            && s < |mem| && GoodSize(b.size) && mem[s] == Header(b) && SizeField(mem[s]) == b.size && IsAlloc(mem[s])
            && s + SIZE_MARKER + b.size + Words(post) == offset
            && (i + 1 == |bs| <==> s + SIZE_MARKER + b.size == offset)
            && Tiles(mem, pre, 0, s) && Tiles(mem, post, s + SIZE_MARKER + b.size, offset)
            && GoodSize(Possible(b.size, post, size)) && s + SIZE_MARKER + Possible(b.size, post, size) <= offset
  {
    var s, b, pre, post := Words(bs[..i]), bs[i], bs[..i], bs[i + 1..];
    hide Tiles, Words, Possible, Header, GoodSize;
    Around(bs, i, 0);
    TilesLength(mem, bs, 0, offset);
    HeaderHere(mem, bs, i, offset);
    HeaderFields(b);
    PossibleOk(mem, pre, b, post, size, offset);
    TilesConcat(mem, pre, [b] + post, 0, offset);
    if post != [] { Parts(post); } else { Nothing(0, 0); }
  }

  lemma Shrunk(mem: seq<Word>, mem': seq<Word>, bs: seq<Block>, i: nat, offset: nat, size: nat)
    requires Tiles(mem, bs, 0, offset) && offset <= |mem| && WORD_BYTES * |mem| < ALLOC_MASK && i < |bs| && bs[i].alloc
    requires size < bs[i].size && |mem'| == |mem|
    requires forall j :: 0 <= j < |mem| && j != StartOf(bs, i, 0) + size ==> mem'[j] == mem[j]
    ensures Tiles(mem', bs, 0, offset)
    ensures SamePayloads(mem, mem', Live(bs, 0) - {StartOf(bs, i, 0)})
  {
    hide Tiles, Live, Words, Possible;
    LiveBlockFacts(mem, bs, i, offset, size);
    var s, b, pre, post := Words(bs[..i]), bs[i], bs[..i], bs[i + 1..];
    WordsOne(b);
    TilesOne(mem', b, s);
    Edited(mem, mem', pre, [b], [b], post, offset);
    LiveButOne(bs, i);
  }

  lemma LiveButOne(bs: seq<Block>, i: nat)
    requires i < |bs| && bs[i].alloc
    ensures var pre, b, post := bs[..i], bs[i], bs[i + 1..];
            var rest := Live(pre, 0) + Live(post, Words(pre) + SIZE_MARKER + b.size);
            && Live(bs, 0) - {StartOf(bs, i, 0)} == rest
            && Live(bs, 0) == rest[StartOf(bs, i, 0) := b.size]
            && StartOf(bs, i, 0) !in rest
  {
    hide Live, Words;
    var pre, b, post := bs[..i], bs[i], bs[i + 1..];
    Around(bs, i, 0);
    WordsOne(b);
    LiveThree(pre, [b], post);
    LiveOne(b, Words(pre));
    LiveInside(pre, 0);
    LiveInside(post, Words(pre) + SIZE_MARKER + b.size);
  }

  /** Writing the last block's header touches no payload, its own included. */
  lemma LastHeader(mem: seq<Word>, mem': seq<Word>, bs: seq<Block>, i: nat, offset: nat, size: nat)
    requires Tiles(mem, bs, 0, offset) && offset <= |mem| && WORD_BYTES * |mem| < ALLOC_MASK && i < |bs| && bs[i].alloc
    requires RequestSize(size) && Words(bs[..i]) < |mem|
    requires mem' == mem[Words(bs[..i]) := SizeWord(size, mem[Words(bs[..i])])]
    ensures SamePayloads(mem, mem', Live(bs, 0) - {StartOf(bs, i, 0)})
    ensures SameWords(mem, mem', StartOf(bs, i, 0), bs[i].size)
    ensures GoodSize(size) ==> mem' == mem[Words(bs[..i]) := Header(Block(true, size))]
  {
    LiveBlockFacts(mem, bs, i, offset, size);
    HeaderOnly(mem, mem', bs, i, offset);
    FewerPayloads(mem, mem', Live(bs, 0), StartOf(bs, i, 0));
  }

  lemma Extended(mem: seq<Word>, mem': seq<Word>, bs: seq<Block>, i: nat, offset: nat, size: nat)
    requires Tiles(mem, bs, 0, offset) && offset <= |mem| && WORD_BYTES * |mem| < ALLOC_MASK && i < |bs| && bs[i].alloc
    requires i + 1 == |bs| && GoodSize(size) && Words(bs[..i]) < |mem|
    requires mem' == mem[Words(bs[..i]) := Header(Block(true, size))]
    ensures var bs' := bs[..i] + [Block(true, size)]; var ptr := StartOf(bs, i, 0);
            && Tiles(mem', bs', 0, ptr + size)
            && Live(bs', 0) == Live(bs, 0)[ptr := size]
            && SamePayloads(mem, mem', Live(bs, 0) - {ptr})
  {
    hide Tiles, Live, Words, Possible, SamePayloads, GoodSize;
    LiveBlockFacts(mem, bs, i, offset, size);
    var s, pre := Words(bs[..i]), bs[..i];
    Carved(mem, mem', pre, s, Block(true, size));
    assert bs[i + 1..] == [] && bs == pre + [bs[i]];
    LiveButOne(bs, i);
    Nothing(0, s + SIZE_MARKER + bs[i].size);
    assert Live(bs, 0) - {StartOf(bs, i, 0)} == Live(pre, 0);
  }

  /** How far the header walk gets when the block grows. */
  lemma ReachWhenGrowing(mem: seq<Word>, bs: seq<Block>, i: nat, offset: nat, size: nat)
    requires Tiles(mem, bs, 0, offset) && offset <= |mem| && WORD_BYTES * |mem| < ALLOC_MASK && i < |bs| && bs[i].alloc
    requires (forall j :: offset <= j < |mem| ==> mem[j] == 0) && i + 1 < |bs| && StartOf(bs, i, 0) + size <= |mem|
    ensures var ptr, p := StartOf(bs, i, 0), Possible(bs[i].size, bs[i + 1..], size);
            Reach(mem, ptr, bs[i].size, size) == if WalksOff(bs, i, offset, |mem|, size) then size else p
    ensures WalksOff(bs, i, offset, |mem|, size) ==> Possible(bs[i].size, bs[i + 1..], size) < size
  {
    LiveBlockFacts(mem, bs, i, offset, size);
    var b, post, ptr := bs[i], bs[i + 1..], StartOf(bs, i, 0);
    var k, p := Taken(b.size, post, size), Possible(b.size, post, size);
    TakenFacts(b.size, post, size);
    TakenWords(b.size, post, size);
    ReachBlocks(mem, ptr, b.size, post, size, offset);
    if WalksOff(bs, i, offset, |mem|, size) {
      forall j | 0 <= j < |post| ensures !post[j].alloc { assert !bs[i + 1 + j].alloc; }
      if p < size {
        assert k == |post| && ptr + p == offset by { Nothing(0, 0); }
        ReachZeros(mem, ptr, p, size);
      }
    } else if k == |post| {
      forall j | i < j < |bs| ensures !bs[j].alloc { assert !post[j - i - 1].alloc; }
      assert ptr + p == offset by { Nothing(0, 0); }
    }
  }

  /** Reading only what has been carved, the walk stays inside and finds what the blocks make up. */
  lemma GrowthIs(mem: seq<Word>, bs: seq<Block>, i: nat, offset: nat, size: nat)
    requires Tiles(mem, bs, 0, offset) && offset <= |mem| && WORD_BYTES * |mem| < ALLOC_MASK && i < |bs| && bs[i].alloc
    ensures Reach(mem[..offset], StartOf(bs, i, 0), bs[i].size, size) == Possible(bs[i].size, bs[i + 1..], size)
  {
    hide Tiles, Words, Possible, Live;
    TilesFrame(mem, mem[..offset], bs, 0, offset);
    LiveBlockFacts(mem[..offset], bs, i, offset, size);
    var b, post, ptr := bs[i], bs[i + 1..], StartOf(bs, i, 0);
    ReachBlocks(mem[..offset], ptr, b.size, post, size, offset);
    ReachEnd(mem[..offset], ptr, b.size, post, size);
  }

  /** Walking off, by how far the free neighbours go. */
  lemma WalksWhen(mem: seq<Word>, bs: seq<Block>, i: nat, offset: nat, size: nat)
    requires Tiles(mem, bs, 0, offset) && offset <= |mem| && WORD_BYTES * |mem| < ALLOC_MASK && i < |bs| && bs[i].alloc
    ensures var ptr, p := StartOf(bs, i, 0), Possible(bs[i].size, bs[i + 1..], size);
            WalksOff(bs, i, offset, |mem|, size) <==>
              offset < |mem| && ptr + size <= |mem| && i + 1 < |bs| && ptr + p == offset && p < size
  {
    hide Tiles, Live;
    LiveBlockFacts(mem, bs, i, offset, size);
    var b, post, ptr := bs[i], bs[i + 1..], StartOf(bs, i, 0);
    var k, p := Taken(b.size, post, size), Possible(b.size, post, size);
    TakenFacts(b.size, post, size);
    TakenWords(b.size, post, size);
    Nothing(0, 0);
    if WalksOff(bs, i, offset, |mem|, size) {
      forall j | 0 <= j < |post| ensures !post[j].alloc { assert !bs[i + 1 + j].alloc; }
    } else if k == |post| {
      forall j | i < j < |bs| ensures !bs[j].alloc { assert !post[j - i - 1].alloc; }
    } else {
      Parts(post[k..]);
    }
  }

  /** Growing over free blocks that are big enough. */
  lemma Grown(mem: seq<Word>, mem': seq<Word>, bs: seq<Block>, i: nat, offset: nat, size: nat)
    requires Tiles(mem, bs, 0, offset) && offset <= |mem| && WORD_BYTES * |mem| < ALLOC_MASK && i < |bs| && bs[i].alloc
    requires GoodSize(size) && bs[i].size < size <= Possible(bs[i].size, bs[i + 1..], size)
    requires var ptr, p := StartOf(bs, i, 0), Possible(bs[i].size, bs[i + 1..], size);
             && ptr <= |mem| && ptr + p <= |mem| && WORD_BYTES * p < ALLOC_MASK
             && var mem1 := CombineWords(mem, ptr, p, size);
             mem' == mem1[ptr - SIZE_MARKER := mem1[ptr - SIZE_MARKER] % ALLOC_MASK + ALLOC_MASK]
    ensures var b, pre, post, ptr := bs[i], bs[..i], bs[i + 1..], StartOf(bs, i, 0);
            var bs' := pre + (Combined(true, Possible(b.size, post, size), size) + post[Taken(b.size, post, size)..]);
            && Tiles(mem', bs', 0, offset)
            && Live(bs', 0) == Live(bs, 0)[ptr := size]
            && SamePayloads(mem, mem', Live(bs, 0) - {ptr})
  {
    hide Tiles, Live, Words, SamePayloads, Taken, Possible, Combined;
    LiveBlockFacts(mem, bs, i, offset, size);
    var b, pre, post, ptr := bs[i], bs[..i], bs[i + 1..], StartOf(bs, i, 0);
    var s, p := Words(pre), Possible(b.size, post, size);
    CombineHeaders(mem, ptr, p, size);
    AlreadyMarked(mem, CombineWords(mem, ptr, p, size), s, p, size);
    hide CombineWords, CombinedHeaders, IsAlloc, Header, SizeField;
    Merged(mem, mem', pre, b, post, size, true, offset);
    GrownLive(bs, i, size);
  }

  /** What growing over neighbours writes: headers, none of them inside the grown payload. */
  lemma GrownWords(mem: seq<Word>, mem': seq<Word>, ptr: nat, possible: nat, size: nat)
    requires SIZE_MARKER <= ptr <= |mem| && GoodSize(size) && size <= possible
    requires possible > size ==> ptr + possible <= |mem| && WORD_BYTES * possible < ALLOC_MASK
    requires var mem1 := CombineWords(mem, ptr, possible, size);
             mem' == mem1[ptr - SIZE_MARKER := mem1[ptr - SIZE_MARKER] % ALLOC_MASK + ALLOC_MASK]
    ensures |mem'| == |mem| && SameWords(mem, mem', ptr, size)
    ensures mem'[ptr - SIZE_MARKER] == Header(Block(true, size))
    ensures forall j :: ptr + possible <= j < |mem| ==> mem'[j] == mem[j]
    ensures possible == size ==> forall j :: 0 <= j < |mem| && j != ptr - SIZE_MARKER ==> mem'[j] == mem[j]
  {
  }

  lemma AlreadyMarked(mem: seq<Word>, mem1: seq<Word>, s: nat, possible: nat, needed: nat)
    requires CombinedHeaders(mem, mem1, s, possible, needed, true) && s < |mem|
    ensures mem1[s := mem1[s] % ALLOC_MASK + ALLOC_MASK] == mem1
  {
  }

  lemma GrownLive(bs: seq<Block>, i: nat, size: nat)
    requires i < |bs| && bs[i].alloc && size <= Possible(bs[i].size, bs[i + 1..], size)
    ensures var b, pre, post, ptr := bs[i], bs[..i], bs[i + 1..], StartOf(bs, i, 0);
            var k, p := Taken(b.size, post, size), Possible(b.size, post, size);
            && Live(pre + (Combined(true, p, size) + post[k..]), 0) == Live(bs, 0)[ptr := size]
            && Live(bs, 0) - {ptr} == Live(pre, 0) + Live(post[k..], Words(pre) + SIZE_MARKER + p)
  {
    hide Live, Words, Combined;
    var b, pre, post, ptr := bs[i], bs[..i], bs[i + 1..], StartOf(bs, i, 0);
    var k, p := Taken(b.size, post, size), Possible(b.size, post, size);
    var s, rest := Words(pre), post[k..];
    LiveButOne(bs, i);
    TakenFacts(b.size, post, size);
    assert post == post[..k] + rest;
    LiveConcat(post[..k], rest, s + SIZE_MARKER + b.size);
    FreeLive(post[..k], s + SIZE_MARKER + b.size);
    hide Taken, Possible;
    assert Live(post, s + SIZE_MARKER + b.size) == Live(rest, s + SIZE_MARKER + p);
    LiveInside(rest, s + SIZE_MARKER + p);
    LiveInside(pre, 0);
    CombinedLive(true, p, size, rest, s);
    var c := Combined(true, p, size) + rest;
    LiveConcat(pre, c, 0);
  }

  /** Growing into memory that has not been carved: no list of blocks tiles the heap any more. */
  lemma WalkedOff(mem: seq<Word>, mem': seq<Word>, bs: seq<Block>, i: nat, offset: nat, size: nat)
    requires Tiles(mem, bs, 0, offset) && offset <= |mem| && WORD_BYTES * |mem| < ALLOC_MASK && i < |bs| && bs[i].alloc
    requires WalksOff(bs, i, offset, |mem|, size) && GoodSize(size) && |mem'| == |mem|
    requires forall j :: 0 <= j < |mem| && j != Words(bs[..i]) ==> mem'[j] == mem[j]
    requires Words(bs[..i]) < |mem| && mem'[Words(bs[..i])] == Header(Block(true, size))
    ensures forall bs' :: !Tiles(mem', bs', 0, offset)
    ensures SamePayloads(mem, mem', Live(bs, 0))
  {
    HeaderOnly(mem, mem', bs, i, offset);
    LiveBlockFacts(mem, bs, i, offset, size);
    var pre, s := bs[..i], Words(bs[..i]);
    hide SamePayloads, Live, Possible;
    TilesFrame(mem, mem', pre, 0, s);
    forall bs' ensures !Tiles(mem', bs', 0, offset) {
      if Tiles(mem', bs', 0, offset) {
        TilesPrefix(mem', pre, bs', 0, s, offset);
        var rest := bs'[i..];
        HeaderFields(rest[0]);
        HeaderFields(Block(true, size));
        TilesLength(mem', rest, s, offset);
        Parts(rest);
      }
    }
  }

  /** Two blocks carved, the second freed, memory left: growing the first walks off, and the headers
      left behind are those of no list of blocks. */
  method WalksOffHappens() returns (h: Memory, r: int)
    ensures r != -1 && forall bs :: !Tiles(h.mem, bs, 0, h.offset)
  {
    hide Memory.Valid, Tiles;
    h := new Memory(0, 8);
    var first := h.Malloc(1);
    var second := h.Malloc(1);
    TwoBlocks(h.blocks);
    h.Free(second);
    assert h.blocks == [Block(true, 1), Block(false, 1)];
    assert first in h.LiveBlocks();
    h.HeadersTell(0, 5);
    var size;
    r, size := h.ReallocInPlace(first, 5);
  }

  lemma TwoBlocks(bs: seq<Block>)
    requires bs == [Block(true, 1), Block(true, 1)]
    ensures StartOf(bs, 0, 0) == 1 && StartOf(bs, 1, 0) == 3
    ensures FreedAt(bs, 1) == [Block(true, 1), Block(false, 1)]
    ensures StartOf(FreedAt(bs, 1), 0, 0) == 1
  {
    assert bs[..0] == [] && bs[..1] == [bs[0]] && FreedAt(bs, 1)[..0] == [];
    WordsOne(bs[0]);
  }

  /** A block of 4 bytes, a request of 0xFFFFFFF4 bytes that wraps around, and another block of 4 bytes:
      the third pointer is the first one, whose block was never freed. */
  method OverlapHappens() returns (h: Memory, first: int, second: int, third: int)
    ensures first != -1 && second != -1 && third == first
  {
    hide Memory.Valid;
    h := new Memory(0, 2048);
    first := h.Malloc(1);
    second := h.Malloc(0xFFFF_FFF4 / 4);
    third := h.Malloc(1);
  }

  /** The last block of a heap that ends at address 40 gets 44 bytes: the carved end passes the heap's. */
  method OverrunHappens() returns (h: Memory, r: int)
    ensures r != -1 && h.offset > |h.mem|
  {
    hide Memory.Valid;
    h := new Memory(2, 8);
    var first := h.Malloc(1);
    assert h.blocks == [Block(true, 1)] && first in h.LiveBlocks();
    h.HeadersTell(0, 11);
    var size;
    r, size := h.ReallocInPlace(first, 11);
  }

  /** The live blocks of a valid heap: in bounds, never overlapping, each behind its own header. */
  lemma LiveRanges(mem: seq<Word>, bs: seq<Block>, offset: nat, p: nat, q: nat)
    requires Tiles(mem, bs, 0, offset) && offset <= |mem|
    requires p in Live(bs, 0) && q in Live(bs, 0) && p != q
    ensures var live := Live(bs, 0);
            && SIZE_MARKER <= p && p + live[p] <= offset
            && (p + live[p] < q || q + live[q] < p)
            && IsAlloc(mem[p - SIZE_MARKER]) && SizeField(mem[p - SIZE_MARKER]) == live[p]
            && (WORD_BYTES * live[p] + 4) % 8 == 0
  {
    TilesLength(mem, bs, 0, offset);
    LiveInside(bs, 0);
    if p < q { LiveDisjoint(bs, 0, p, q); } else { LiveDisjoint(bs, 0, q, p); }
    var i := LiveSplit(bs, 0, p);
    HeaderHere(mem, bs, i, offset);
    HeaderFields(bs[i]);
  }
}
