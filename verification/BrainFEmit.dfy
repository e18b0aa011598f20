/** What the compiler emits, as a function from items to blocks. */
module BrainFEmit {
  import opened BrainFSource
  import opened BrainFItems
  import opened BrainFGraph

  /** The builder: the blocks so far, the insertion point, the register that
      holds the head, and the next unused register. */
  datatype Gen = Gen(blocks: seq<Block>, insert: Label, curhead: Reg, next: Reg)

  const ENTRY: Label := 0
  const END: Label := 1
  const ABERROR: Label := 2
  const ARR: Reg := 0
  const ARRMAX: Reg := 1
  const HEAD: Reg := 2

  const END_BLOCK := Block(NoPhi, [Free], Ret)
  const ABERROR_BLOCK := Block(NoPhi, [PutsError], Br(END))

  function Append(g: Gen, instrs: seq<Instr>): Gen
    requires g.insert < |g.blocks|
  {
    g.(blocks := AppendTo(g.blocks, g.insert, instrs))
  }

  function AppendTo(blocks: seq<Block>, b: Label, instrs: seq<Instr>): seq<Block>
    requires b < |blocks|
  {
    blocks[b := blocks[b].(instrs := blocks[b].instrs + instrs)]
  }

  function Terminate(g: Gen, t: Terminator): Gen
    requires g.insert < |g.blocks|
  {
    g.(blocks := g.blocks[g.insert := g.blocks[g.insert].(term := t)])
  }

  function HeaderInstrs(memtotal: nat, checked: bool): seq<Instr> {
    [Malloc(ARR, memtotal), MemSetZero(ARR, memtotal)]
    + (if checked then [Gep(ARRMAX, ARR, memtotal)] else [])
    + [Gep(HEAD, ARR, memtotal / 2)]
  }

  function Header(memtotal: nat, checked: bool): Gen {
    Gen([Block(NoPhi, HeaderInstrs(memtotal, checked), Open), END_BLOCK] + (if checked then [ABERROR_BLOCK] else []),
        ENTRY, HEAD, HEAD + 1)
  }

  function EmitRead(g: Gen): Gen
    requires g.insert < |g.blocks|
  {
    Append(g, [GetChar(g.next), TruncI8(g.next + 1, g.next), Store(g.next + 1, g.curhead)]).(next := g.next + 2)
  }

  function EmitWrite(g: Gen): Gen
    requires g.insert < |g.blocks|
  {
    Append(g, [Load(g.next, g.curhead), SExt(g.next + 1, g.next), PutChar(g.next + 1)]).(next := g.next + 2)
  }

  function EmitChange(g: Gen, n: int): Gen
    requires g.insert < |g.blocks|
  {
    Append(g, [Load(g.next, g.curhead), AddI8(g.next + 1, g.next, n % 256), Store(g.next + 1, g.curhead)])
      .(next := g.next + 2)
  }

  function EmitMove(g: Gen, n: int, checked: bool): Gen
    requires g.insert < |g.blocks|
  {
    var h := g.next;
    var g1 := Append(g, [Gep(h, g.curhead, n)]).(curhead := h, next := h + 1);
    if !checked then g1
    else
      var g2 := Append(g1, [ICmpUge(h + 1, h, ARRMAX), ICmpUlt(h + 2, h, ARR), OrI1(h + 3, h + 1, h + 2)]);
      var g3 := Terminate(g2, CondBr(h + 3, ABERROR, |g.blocks|));
      Gen(g3.blocks + [Block(NoPhi, [], Open)], |g.blocks|, h, h + 4)
  }

  /** The start of a loop: a test block holding a half-made phi, and a body block. */
  function BeginLoop(g: Gen): Gen
    requires g.insert < |g.blocks|
  {
    var test := |g.blocks|;
    var g1 := Terminate(g, Br(test));
    Gen(g1.blocks + [Block(Phi(g.next, [(g.insert, g.curhead)]), [], Open), Block(NoPhi, [], Open)],
        test + 1, g.next, g.next + 1)
  }

  /** The end of a loop: branch back, finish the phi, write the test, open the exit block. */
  function EndLoop(g: Gen, phi: Reg, body: Label, test: Label): Gen
    requires g.insert < |g.blocks| && test < |g.blocks|
  {
    var g1 := Terminate(g, Br(test));
    var t := g1.blocks[test];
    var exit := |g.blocks|;
    var t' := Block(if t.phi.Phi? then t.phi.(incoming := t.phi.incoming + [(g.insert, g.curhead)]) else NoPhi,
                    t.instrs + [Load(g.next, phi), ICmpEqZero(g.next + 1, g.next)],
                    CondBr(g.next + 1, exit, body));
    Gen(g1.blocks[test := t'] + [Block(Phi(g.next + 2, [(test, phi)]), [], Open)],
        exit, g.next + 2, g.next + 3)
  }

  function EmitItem(g: Gen, i: Item, checked: bool): (g': Gen)
    requires g.insert < |g.blocks|
    ensures g'.insert < |g'.blocks| && |g.blocks| <= |g'.blocks|
    decreases i, 1
  {
    match i
    case ReadI => EmitRead(g)
    case WriteI => EmitWrite(g)
    case MoveI(n) => EmitMove(g, n, checked)
    case ChangeI(n) => EmitChange(g, n)
    case LoopI(body) => EndLoop(EmitItems(BeginLoop(g), body, checked), g.next, |g.blocks| + 1, |g.blocks|)
  }

  function EmitItems(g: Gen, items: seq<Item>, checked: bool): (g': Gen)
    requires g.insert < |g.blocks|
    ensures g'.insert < |g'.blocks| && |g.blocks| <= |g'.blocks|
    decreases items, 0
  {
    if items == [] then g else EmitItems(EmitItem(g, items[0], checked), items[1..], checked)
  }

  /** Only the insertion block and new blocks change; the insertion block only gets longer. */
  ghost predicate Grows(g: Gen, g': Gen) {
    && g.insert < |g.blocks| <= |g'.blocks|
    && g'.insert < |g'.blocks|
    && (g'.insert == g.insert || g'.insert >= |g.blocks|)
    && (forall b :: 0 <= b < |g.blocks| && b != g.insert ==> g'.blocks[b] == g.blocks[b])
    && g'.blocks[g.insert].phi == g.blocks[g.insert].phi
    && g.blocks[g.insert].instrs <= g'.blocks[g.insert].instrs
    && (g'.insert == g.insert ==> g'.blocks[g.insert].term == g.blocks[g.insert].term)
    && (g'.insert >= |g.blocks| ==> g'.blocks[g'.insert].term == Open)
    && g.next <= g'.next
    && (g.curhead < g.next ==> g'.curhead < g'.next)
  }

  lemma {:induction false} EmitItemGrows(g: Gen, i: Item, checked: bool)
    requires g.insert < |g.blocks|
    ensures Grows(g, EmitItem(g, i, checked))
    decreases i, 1
  {
    if i.LoopI? {
      var g1 := BeginLoop(g);
      var g2 := EmitItems(g1, i.body, checked);
      EmitItemsGrow(g1, i.body, checked);
      LoopGrows(g, g2);
    }
  }

  lemma LoopGrows(g: Gen, g2: Gen)
    requires g.insert < |g.blocks| && Grows(BeginLoop(g), g2)
    ensures Grows(g, EndLoop(g2, g.next, |g.blocks| + 1, |g.blocks|))
  {
    assert g2.insert > |g.blocks|;
    assert g2.blocks[g.insert] == BeginLoop(g).blocks[g.insert];
  }

  lemma {:induction false} EmitItemsGrow(g: Gen, items: seq<Item>, checked: bool)
    requires g.insert < |g.blocks|
    ensures Grows(g, EmitItems(g, items, checked))
    decreases items, 0
  {
    if items != [] {
      var g1 := EmitItem(g, items[0], checked);
      EmitItemGrows(g, items[0], checked);
      EmitItemsGrow(g1, items[1..], checked);
      GrowsTransitive(g, g1, EmitItems(g1, items[1..], checked));
    }
  }

  lemma GrowsTransitive(a: Gen, b: Gen, c: Gen)
    requires Grows(a, b) && Grows(b, c)
    ensures Grows(a, c)
  {
    assert b.blocks[a.insert].instrs <= c.blocks[a.insert].instrs;
  }

  /** The finished function: after the last item, go to the return block. */
  function Finish(g: Gen): seq<Block>
    requires g.insert < |g.blocks|
  {
    Terminate(g, Br(END)).blocks
  }

  /** The block graph of a program. */
  function Compile(cmds: seq<Cmd>, memtotal: nat, checked: bool): seq<Block> {
    Finish(EmitItems(Header(memtotal, checked), Merge(cmds), checked))
  }

  lemma {:induction false} EmitItemsSnoc(g: Gen, items: seq<Item>, i: Item, checked: bool)
    requires g.insert < |g.blocks|
    ensures EmitItems(g, items + [i], checked) == EmitItem(EmitItems(g, items, checked), i, checked)
    decreases items
  {
    if items == [] {
      assert items + [i] == [i] && [i][1..] == [];
      assert EmitItems(EmitItem(g, i, checked), [], checked) == EmitItem(g, i, checked);
    } else {
      assert (items + [i])[1..] == items[1..] + [i];
      EmitItemsSnoc(EmitItem(g, items[0], checked), items[1..], i, checked);
    }
  }
}
