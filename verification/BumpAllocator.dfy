/** The bump-only allocator, in 32-bit arithmetic over the pages of a wasm memory. */
module BumpAllocator {

  const U32: nat := 0x1_0000_0000
  const PAGE: nat := 0x1_0000
  const MAX_PAGES: nat := 0x1_0000

  /** (ptr + 7) & ~7 in 32 bits. */
  function Align(ptr: nat): nat {
    var x := (ptr + 7) % U32;
    x - x % 8
  }

  /** One block handed out. */
  datatype Block = Block(ptr: nat, size: nat)

  predicate Disjoint(a: Block, b: Block) { a.ptr + a.size <= b.ptr || b.ptr + b.size <= a.ptr }

  /** Blocks in the order of the calls: aligned, one after the other, between two addresses. */
  predicate Laid(blocks: seq<Block>, low: nat, high: nat) {
    && (forall i :: 0 <= i < |blocks| ==>
        blocks[i].ptr % 8 == 0 && low <= blocks[i].ptr && blocks[i].ptr + blocks[i].size <= high)
    && (forall i, j :: 0 <= i < j < |blocks| ==> blocks[i].ptr + blocks[i].size <= blocks[j].ptr)
  }

  lemma AlignUp(x: nat)
    requires x + 7 < U32
    ensures Align(x) % 8 == 0 && x <= Align(x) < x + 8
  {
  }

  /** The shifted page number, in 32 bits. */
  function ShiftPages(n: nat): nat { (n * PAGE) % U32 }

  lemma ShiftedPages(n: nat)
    ensures n < MAX_PAGES ==> ShiftPages(n) == n * PAGE
    ensures n == MAX_PAGES ==> ShiftPages(n) == 0
  {
  }

  /** When the new end wraps around, the pages asked for are too many. */
  lemma WrapFails(last: nat, sz: nat, pages: nat)
    requires last % 8 == 0 && last < pages * PAGE && pages <= MAX_PAGES && sz < U32 && last + sz + 7 >= U32
    ensures pages + sz / PAGE >= MAX_PAGES
  {
    var p := sz / PAGE;
    assert sz < p * PAGE + PAGE;
    assert last + 8 <= pages * PAGE;
  }

  /** One page more than the size holds is enough. */
  lemma OneMorePage(last: nat, sz: nat, pages: nat)
    requires last % 8 == 0 && last < pages * PAGE && last + sz + 7 < U32
    ensures Align(last + sz) < (pages + sz / PAGE + 1) * PAGE
  {
    AlignUp(last + sz);
    assert sz < sz / PAGE * PAGE + PAGE;
    assert last + 8 <= pages * PAGE;
  }

  /** The pages one call asks for: enough and no more than the rule says, or past the largest memory. */
  lemma PagesEnough(last: nat, sz: nat, pages: nat)
    requires last % 8 == 0 && last < pages * PAGE && pages <= MAX_PAGES && sz < U32
    ensures var end, asked := Align((last + sz) % U32), pages + sz / PAGE;
            var more := if ShiftPages(asked % U32) <= end then 1 else 0;
            && (asked >= MAX_PAGES ==> asked + more > MAX_PAGES)
            && (asked < MAX_PAGES ==>
                  && asked % U32 == asked && (asked + 1) % U32 == asked + 1
                  && end % 8 == 0 && last + sz <= end < last + sz + 8
                  && (ShiftPages(asked % U32) <= end <==> asked * PAGE <= end) && end < (asked + more) * PAGE)
  {
    hide Align, ShiftPages;
    var asked := pages + sz / PAGE;
    SmallPages(sz, pages);
    ShiftedPages(asked);
    if last + sz + 7 >= U32 {
      WrapFails(last, sz, pages);
    } else {
      AlignUp(last + sz);
      OneMorePage(last, sz, pages);
    }
  }

  lemma SmallPages(sz: nat, pages: nat)
    requires pages <= MAX_PAGES && sz < U32
    ensures var asked := pages + sz / PAGE; asked % U32 == asked && (asked + 1) % U32 == asked + 1
  {
  }

  class DsMalloc {
    var lastPtr: nat
    var nextPage: nat
    /** The pages that the memory has. */
    var pages: nat

    /** Nobody else has grown the memory, and it reaches past the last block. */
    ghost predicate Valid()
      reads this
    {
      nextPage == pages <= MAX_PAGES && lastPtr % 8 == 0 && lastPtr < nextPage * PAGE
    }

    constructor (heapBase: nat, pages: nat)
      requires heapBase + 7 < pages * PAGE && pages <= MAX_PAGES
      ensures Valid() && this.pages == pages && heapBase <= lastPtr < heapBase + 8
    {
      lastPtr := Align(heapBase);
      nextPage := pages;
      this.pages := pages;
    }

    /** memory.grow: fails past the largest memory. */
    method GrowMemory(n: nat) returns (ok: bool)
      modifies `pages
      ensures ok <==> old(pages) + n <= MAX_PAGES
      ensures pages == if ok then old(pages) + n else old(pages)
    {
      ok := pages + n <= MAX_PAGES;
      if ok { pages := pages + n; }
    }

    /** A block after all earlier ones, inside the memory, or a failed check. Sums that wrap around 32
        bits ask for more pages than there are, so they always fail the check. */
    method Alloc(sz: nat) returns (ok: bool, ret: nat)
      requires Valid() && sz < U32
      modifies this
      ensures sz == 0 ==> ok && ret == 0 && lastPtr == old(lastPtr) && pages == old(pages)
      ensures ok ==> Valid() && pages >= old(pages)
      ensures ok && sz > 0 ==>
                && ret == old(lastPtr) && ret % 8 == 0 && ret + sz <= lastPtr < ret + sz + 8
                && lastPtr < pages * PAGE
                && pages == old(pages) + sz / PAGE + (if (old(pages) + sz / PAGE) * PAGE <= lastPtr then 1 else 0)
      ensures sz > 0 ==> (ok <==> old(pages) + sz / PAGE < MAX_PAGES)
    {
      hide Align, ShiftPages;
      if sz == 0 { return true, 0; }
      PagesEnough(lastPtr, sz, pages);
      ret := lastPtr;
      lastPtr := Align((lastPtr + sz) % U32);
      var pagesToAlloc := sz / PAGE;
      nextPage := (nextPage + pagesToAlloc) % U32;
      if ShiftPages(nextPage) <= lastPtr {
        nextPage := (nextPage + 1) % U32;
        pagesToAlloc := pagesToAlloc + 1;
      }
      ok := GrowMemory(pagesToAlloc);
    }

    /** Over any sequence of calls the blocks are aligned, disjoint and inside the memory. */
    method AllocAll(sizes: seq<nat>) returns (ok: bool, blocks: seq<Block>)
      requires Valid() && forall i :: 0 <= i < |sizes| ==> 0 < sizes[i] < U32
      modifies this
      ensures ok ==> Valid() && |blocks| == |sizes| && Laid(blocks, old(lastPtr), lastPtr) && lastPtr < pages * PAGE
      ensures ok ==> forall i :: 0 <= i < |sizes| ==> blocks[i].size == sizes[i]
      ensures ok ==> forall i, j :: 0 <= i < j < |blocks| ==> Disjoint(blocks[i], blocks[j])
    {
      blocks := [];
      var i := 0;
      while i < |sizes|
        invariant 0 <= i <= |sizes| && Valid() && |blocks| == i && old(lastPtr) <= lastPtr
        invariant Laid(blocks, old(lastPtr), lastPtr) && forall k :: 0 <= k < i ==> blocks[k].size == sizes[k]
      {
        var p;
        ok, p := Alloc(sizes[i]);
        if !ok { return; }
        blocks := blocks + [Block(p, sizes[i])];
        i := i + 1;
      }
      ok := true;
    }
  }
}
