/** The compiler itself: one pass over the text with a symbol of lookahead,
    appending to the blocks as it goes. */
module BrainFCompiler {
  import opened BrainFSource
  import opened BrainFItems
  import opened BrainFGraph
  import opened BrainFEmit

  datatype Symbol = SymNone | SymRead | SymWrite | SymMove | SymChange | SymLoop | SymEndLoop | SymEof

  // ----- what has been read, in terms of the program -----

  /** The item a complete symbol stands for. */
  function ItemsOf(sym: Symbol, value: int): seq<Item> {
    match sym
    case SymRead => [ReadI]
    case SymWrite => [WriteI]
    case SymMove => [MoveI(value)]
    case SymChange => [ChangeI(value)]
    case _ => []
  }

  /** The bracket a symbol stands for. */
  function BracketOf(sym: Symbol): string {
    match sym
    case SymLoop => "["
    case SymEndLoop => "]"
    case _ => ""
  }

  /** A symbol of lookahead as a command; brackets and the end of the text are none. */
  function CmdsOf(sym: Symbol, value: int): seq<Cmd> {
    match sym
    case SymRead => [Read]
    case SymWrite => [Write]
    case SymMove => [if value < 0 then Left else Right]
    case SymChange => [if value < 0 then Dec else Inc]
    case _ => []
  }

  predicate IsRun(sym: Symbol) { sym.SymMove? || sym.SymChange? }

  /** Nothing a following move or change would merge into. */
  predicate EndsPlain(items: seq<Item>) {
    items == [] || (!items[|items| - 1].MoveI? && !items[|items| - 1].ChangeI?)
  }

  /** `emitted` are the items written out, `cmds` the commands read so far, the
      current symbol included unless it is a bracket. */
  ghost predicate Reading(cmds: seq<Cmd>, emitted: seq<Item>, sym: Symbol, value: int) {
    && Merge(cmds) == emitted + ItemsOf(sym, value)
    && (sym.SymNone? ==> EndsPlain(emitted))
  }

  /** The symbols and the rest of the input spell the text. */
  ghost predicate Spells(text: string, cmds: seq<Cmd>, sym: Symbol, next: Symbol, nextvalue: int, rest: string) {
    text == Flatten(cmds) + BracketOf(sym) + Flatten(CmdsOf(next, nextvalue)) + BracketOf(next) + Commands(rest)
  }

  /** The lookahead is filled exactly while a run is held back, and ends that run. */
  predicate LookaheadOk(sym: Symbol, next: Symbol, nextvalue: int, rest: string) {
    && (IsRun(sym) <==> !next.SymNone?)
    && (next.SymMove? ==> sym.SymChange?)
    && (next.SymChange? ==> sym.SymMove?)
    && (IsRun(next) ==> nextvalue == 1 || nextvalue == -1)
    && (sym.SymEof? || next.SymEof? ==> rest == "")
  }

  lemma TakeIntoRun(cmds: seq<Cmd>, emitted: seq<Item>, sym: Symbol, value: int, d: int)
    requires IsRun(sym) && Reading(cmds, emitted, sym, value) && (d == 1 || d == -1)
    ensures Reading(cmds + CmdsOf(sym, d), emitted, sym, value + d)
  {
    RunOf(sym, d);
    hide Merge, CmdsOf, ItemOf, Snoc;
    var c := CmdsOf(sym, d)[0];
    MergeSnoc(cmds, c);
    GlueRun(emitted, sym, value, d);
  }

  /** A run symbol is one command and one item. */
  lemma RunOf(sym: Symbol, d: int)
    requires IsRun(sym) && (d == 1 || d == -1)
    ensures |CmdsOf(sym, d)| == 1 && CmdsOf(sym, d) == [CmdsOf(sym, d)[0]]
    ensures ItemsOf(sym, d) == [ItemOf(CmdsOf(sym, d)[0])]
  {
  }

  lemma GlueRun(emitted: seq<Item>, sym: Symbol, value: int, d: int)
    requires IsRun(sym)
    ensures Snoc(emitted + ItemsOf(sym, value), ItemsOf(sym, d)[0]) == emitted + ItemsOf(sym, value + d)
  {
    var i := ItemsOf(sym, value)[0];
    SnocBack(emitted, i, ItemsOf(sym, d)[0]);
    assert ItemsOf(sym, value) == [i];
    assert Glue(i, ItemsOf(sym, d)[0]) == ItemsOf(sym, value + d);
  }

  lemma ReadingNothing(cmds: seq<Cmd>, emitted: seq<Item>, value: int)
    requires Reading(cmds, emitted, SymNone, value)
    ensures Merge(cmds) == emitted && EndsPlain(emitted)
    ensures Reading(cmds, emitted, SymEof, value)
  {
    assert emitted + [] == emitted;
  }

  lemma TakeFirst(cmds: seq<Cmd>, emitted: seq<Item>, sym: Symbol, value: int)
    requires Merge(cmds) == emitted
    requires IsRun(sym) ==> value == 1 || value == -1
    requires sym.SymMove? ==> emitted == [] || !emitted[|emitted| - 1].MoveI?
    requires sym.SymChange? ==> emitted == [] || !emitted[|emitted| - 1].ChangeI?
    requires sym.SymNone? ==> EndsPlain(emitted)
    ensures Reading(cmds + CmdsOf(sym, value), emitted, sym, value)
  {
    if CmdsOf(sym, value) == [] {
      assert cmds + [] == cmds && emitted + [] == emitted;
    } else {
      var c := CmdsOf(sym, value)[0];
      assert CmdsOf(sym, value) == [c] && ItemsOf(sym, value) == [ItemOf(c)];
      hide Merge, ItemOf, CmdsOf, Snoc;
      MergeSnoc(cmds, c);
      SnocPlain(emitted, ItemOf(c));
    }
  }

  lemma FlattenOf(cmds: seq<Cmd>, sym: Symbol, value: int)
    ensures Flatten(cmds + CmdsOf(sym, value)) == Flatten(cmds) + Flatten(CmdsOf(sym, value))
  {
    FlattenConcat(cmds, CmdsOf(sym, value));
  }

  /** The symbol and direction of a command character. */
  function SymbolOf(c: char): Symbol {
    match c
    case '-' => SymChange
    case '+' => SymChange
    case '<' => SymMove
    case '>' => SymMove
    case ',' => SymRead
    case '.' => SymWrite
    case '[' => SymLoop
    case ']' => SymEndLoop
    case _ => SymNone
  }

  function DirectionOf(c: char): int { if c == '-' || c == '<' then -1 else 1 }

  lemma SymbolNotEof(c: char)
    ensures !SymbolOf(c).SymEof?
  {
  }

  lemma SymbolText(c: char)
    ensures Keep(c) == Flatten(CmdsOf(SymbolOf(c), DirectionOf(c))) + BracketOf(SymbolOf(c))
    ensures IsCommand(c) <==> !SymbolOf(c).SymNone?
  {
    var s := CmdsOf(SymbolOf(c), DirectionOf(c));
    if s != [] {
      assert s[1..] == [];
      assert Flatten(s) == FlattenOne(s[0]) + Flatten([]);
    }
  }

  lemma AppendThree(blocks: seq<Block>, b: Label, i: Instr, j: Instr, k: Instr)
    requires b < |blocks|
    ensures AppendTo(AppendTo(AppendTo(blocks, b, [i]), b, [j]), b, [k]) == AppendTo(blocks, b, [i, j, k])
  {
    assert ((blocks[b].instrs + [i]) + [j]) + [k] == blocks[b].instrs + [i, j, k];
  }

  /** How reading one character moves it from the input into the symbols. */
  lemma SpellsTake(text: string, cmds: seq<Cmd>, sym: Symbol, rest: string, s: Symbol, d: int)
    requires rest != "" && s == SymbolOf(rest[0]) && d == DirectionOf(rest[0])
    requires BracketOf(sym) == "" && Spells(text, cmds, sym, SymNone, 0, rest)
    ensures s.SymNone? ==> Spells(text, cmds, sym, SymNone, 0, rest[1..])
    ensures Spells(text, cmds, sym, s, d, rest[1..])
    ensures Spells(text, cmds + CmdsOf(s, d), s, SymNone, 0, rest[1..])
  {
    SymbolText(rest[0]);
    FlattenOf(cmds, s, d);
    var f, t, k, more := Flatten(cmds), Flatten(CmdsOf(s, d)), BracketOf(s), Commands(rest[1..]);
    assert Commands(rest) == (t + k) + more;
    assert Flatten(CmdsOf(SymNone, 0)) == "" && BracketOf(SymNone) == "";
    assert s.SymNone? ==> t == "" && k == "";
    hide Commands, Flatten, SymbolOf, CmdsOf, BracketOf;
    Regroup(f, t, k, more);
  }

  lemma Regroup(f: string, t: string, k: string, more: string)
    ensures f + "" + "" + "" + ((t + k) + more) == f + "" + t + k + more
    ensures f + "" + "" + "" + ((t + k) + more) == (f + t) + k + "" + "" + more
  {
  }

  lemma SpellsEof(text: string, cmds: seq<Cmd>, sym: Symbol)
    requires BracketOf(sym) == "" && Spells(text, cmds, sym, SymNone, 0, "")
    ensures Spells(text, cmds, sym, SymEof, 0, "") && Spells(text, cmds, SymEof, SymNone, 0, "")
  {
  }

  // ----- steps of the parser's main loop -----

  /** How far a pair of symbols is from the end when no more text is left. */
  function Rank(sym: Symbol, next: Symbol): nat {
    if IsRun(next) then 3 else if !next.SymNone? then 2 else if sym.SymEof? then 0 else 1
  }

  lemma Begin(g: Gen, input: string, checked: bool)
    requires g.insert < |g.blocks|
    ensures EmitItems(g, [], checked) == g
    ensures Reading([], [], SymNone, 0)
    ensures Spells(Commands(input), [], SymNone, SymNone, 0, input)
    ensures LookaheadOk(SymNone, SymNone, 0, input)
  {
  }

  lemma LoopStartOk(g: Gen)
    requires g.insert < |g.blocks|
    ensures var g1 := BeginLoop(g);
            && |g.blocks| < g1.insert < |g1.blocks| && g1.blocks[|g.blocks|].phi.Phi?
  {
  }

  /** A text that opens a bracket and never closes it. */
  lemma UnclosedBracket(text: string, cmds: seq<Cmd>, rest: string, nextvalue: int)
    requires Spells(text, cmds, SymLoop, SymNone, nextvalue, rest) && Depth(Commands(rest)) >= 0
    ensures Depth(text) > 0 && !Balanced(text)
  {
    var f, r := Flatten(cmds), Commands(rest);
    assert text == f + ("[" + r);
    FlattenBalanced(cmds);
    DepthConcat(f, "[" + r);
    DepthConcat("[", r);
    assert "["[..0] == "" && Depth("[") == 1;
  }

  /** A text that closes a bracket it has not opened. */
  lemma ExtraBracket(text: string, cmds: seq<Cmd>, rest: string)
    requires text == Flatten(cmds) + "]" + Commands(rest)
    ensures !Balanced(text)
  {
    var f := Flatten(cmds);
    FlattenBalanced(cmds);
    DepthConcat(f, "]");
    assert "]"[..0] == "" && Depth("]") == -1;
    assert text[..|f| + 1] == f + "]";
    assert Depth(text[..|f| + 1]) == -1;
  }

  lemma FlattenDepth(cmds: seq<Cmd>)
    ensures Depth(Flatten(cmds)) == 0
  {
    FlattenBalanced(cmds);
  }

  lemma LoopRead(text: string, cmds: seq<Cmd>, rest: string, body: seq<Cmd>, rest1: string, emitted: seq<Item>,
                 value: int, nextvalue: int)
    requires Spells(text, cmds, SymLoop, SymNone, nextvalue, rest) && Reading(cmds, emitted, SymLoop, value)
    requires Commands(rest) == Flatten(body) + "]" + Commands(rest1)
    ensures Merge(cmds) == emitted
    ensures Merge(cmds + [Loop(body)]) == emitted + [LoopI(Merge(body))]
    ensures Spells(text, cmds + [Loop(body)], SymNone, SymNone, nextvalue, rest1)
    ensures EndsPlain(emitted + [LoopI(Merge(body))])
  {
    LoopMerged(cmds, body, emitted, value);
    assert Flatten(CmdsOf(SymNone, 0)) == "" == Flatten(CmdsOf(SymNone, nextvalue));
    hide Merge, Reading;
    FlattenSnoc(cmds, Loop(body));
    var f, b, r := Flatten(cmds), Flatten(body), Commands(rest1);
    assert FlattenOne(Loop(body)) == "[" + b + "]";
    assert Flatten(CmdsOf(SymNone, 0)) == "" && BracketOf(SymNone) == "" && BracketOf(SymLoop) == "[";
    hide Flatten, FlattenOne, Commands, CmdsOf, BracketOf;
    RegroupLoop(f, b, r);
  }

  lemma RegroupLoop(f: string, b: string, r: string)
    ensures f + "[" + "" + "" + (b + "]" + r) == (f + ("[" + b + "]")) + "" + "" + "" + r
  {
  }

  lemma LoopMerged(cmds: seq<Cmd>, body: seq<Cmd>, emitted: seq<Item>, value: int)
    requires Reading(cmds, emitted, SymLoop, value)
    ensures Merge(cmds) == emitted
    ensures Merge(cmds + [Loop(body)]) == emitted + [LoopI(Merge(body))]
  {
    hide *;
    ReadingBracket(cmds, emitted, SymLoop, value);
    MergeSnoc(cmds, Loop(body));
    SnocLoop(emitted, body);
  }

  lemma ReadingBracket(cmds: seq<Cmd>, emitted: seq<Item>, sym: Symbol, value: int)
    requires Reading(cmds, emitted, sym, value) && (sym.SymLoop? || sym.SymEndLoop? || sym.SymEof?)
    ensures Merge(cmds) == emitted
  {
    hide Merge;
    assert emitted + [] == emitted;
  }

  lemma SnocLoop(items: seq<Item>, body: seq<Cmd>)
    ensures Snoc(items, ItemOf(Loop(body))) == items + [LoopI(Merge(body))]
  {
    hide Merge;
    SnocPlain(items, LoopI(Merge(body)));
  }

  /** An item that does not merge with the one before it is appended as it is. */
  lemma SnocPlain(items: seq<Item>, i: Item)
    requires items == [] || Glue(items[|items| - 1], i) == [items[|items| - 1], i]
    ensures Snoc(items, i) == items + [i]
  {
    if items != [] {
      assert items == items[..|items| - 1] + [items[|items| - 1]];
    }
  }

  lemma SymbolEmitted(g0: Gen, emitted: seq<Item>, sym: Symbol, value: int, checked: bool)
    requires g0.insert < |g0.blocks| && BracketOf(sym) == "" && !sym.SymEof?
    ensures EmitItems(g0, emitted + ItemsOf(sym, value), checked) ==
            if sym.SymNone? then EmitItems(g0, emitted, checked)
            else EmitItem(EmitItems(g0, emitted, checked), ItemsOf(sym, value)[0], checked)
  {
    if sym.SymNone? {
      assert emitted + [] == emitted;
    } else {
      EmitItemsSnoc(g0, emitted, ItemsOf(sym, value)[0], checked);
    }
  }

  lemma Written(cmds: seq<Cmd>, emitted: seq<Item>, text: string, sym: Symbol, value: int, next: Symbol, nextvalue: int,
                rest: string)
    requires Reading(cmds, emitted, sym, value) && Spells(text, cmds, sym, next, nextvalue, rest)
    requires BracketOf(sym) == "" && !sym.SymEof?
    ensures var emitted' := emitted + ItemsOf(sym, value);
            && Merge(cmds) == emitted'
            && Spells(text, cmds, SymNone, next, nextvalue, rest)
            && (IsRun(sym) ==> |emitted'| > 0 && emitted'[|emitted'| - 1] == ItemsOf(sym, value)[0])
            && (sym.SymMove? ==> emitted'[|emitted'| - 1].MoveI?)
            && (sym.SymChange? ==> emitted'[|emitted'| - 1].ChangeI?)
            && (!IsRun(sym) ==> EndsPlain(emitted'))
  {
    hide Merge, Flatten, Commands, CmdsOf;
    if sym.SymNone? { assert emitted + [] == emitted; }
  }

  /** The lookahead becomes the current symbol. */
  lemma Advance(cmds: seq<Cmd>, emitted: seq<Item>, text: string, sym: Symbol, next: Symbol, nextvalue: int,
                rest: string)
    requires Merge(cmds) == emitted && Spells(text, cmds, SymNone, next, nextvalue, rest)
    requires IsRun(sym) <==> !next.SymNone?
    requires (next.SymMove? ==> sym.SymChange?) && (next.SymChange? ==> sym.SymMove?)
    requires IsRun(next) ==> nextvalue == 1 || nextvalue == -1
    requires next.SymEof? ==> rest == ""
    requires if IsRun(sym) then |emitted| > 0 && (sym.SymMove? <==> emitted[|emitted| - 1].MoveI?)
             && (sym.SymChange? <==> emitted[|emitted| - 1].ChangeI?)
             else EndsPlain(emitted)
    ensures Reading(cmds + CmdsOf(next, nextvalue), emitted, next, nextvalue)
    ensures Spells(text, cmds + CmdsOf(next, nextvalue), next, SymNone, 0, rest)
    ensures Spells(text, cmds + CmdsOf(next, nextvalue), next, SymNone, nextvalue, rest)
    ensures !IsRun(next) ==> LookaheadOk(next, SymNone, nextvalue, rest)
  {
    assert IsRun(sym) ==> !EndsPlain(emitted);
    TakeFirst(cmds, emitted, next, nextvalue);
    AdvanceText(cmds, text, next, nextvalue, rest);
  }

  lemma AdvanceText(cmds: seq<Cmd>, text: string, next: Symbol, nextvalue: int, rest: string)
    requires Spells(text, cmds, SymNone, next, nextvalue, rest)
    ensures Spells(text, cmds + CmdsOf(next, nextvalue), next, SymNone, 0, rest)
    ensures Spells(text, cmds + CmdsOf(next, nextvalue), next, SymNone, nextvalue, rest)
  {
    FlattenOf(cmds, next, nextvalue);
    assert Flatten(CmdsOf(SymNone, 0)) == Flatten(CmdsOf(SymNone, nextvalue)) == "" && BracketOf(SymNone) == "";
    var f, t, b, r := Flatten(cmds), Flatten(CmdsOf(next, nextvalue)), BracketOf(next), Commands(rest);
    hide Flatten, Commands, CmdsOf, BracketOf;
    assert f + "" + t + b + r == (f + t) + b + "" + "" + r;
  }

  lemma AtEnd(text: string, cmds: seq<Cmd>, emitted: seq<Item>, sym: Symbol, value: int, next: Symbol, nextvalue: int,
              rest: string)
    requires sym.SymEof? || sym.SymEndLoop?
    requires Reading(cmds, emitted, sym, value) && Spells(text, cmds, sym, next, nextvalue, rest)
    requires LookaheadOk(sym, next, nextvalue, rest)
    ensures Merge(cmds) == emitted
    ensures sym.SymEof? ==> text == Flatten(cmds)
    ensures sym.SymEndLoop? ==> text == Flatten(cmds) + "]" + Commands(rest)
  {
    hide Flatten, Merge, Commands;
    assert emitted + [] == emitted;
    EmptyTexts(nextvalue);
    PlainTail(Flatten(cmds), BracketOf(sym), Commands(rest));
  }

  lemma EmptyTexts(value: int)
    ensures Flatten(CmdsOf(SymNone, value)) == "" && BracketOf(SymNone) == "" && BracketOf(SymEof) == ""
    ensures Commands("") == ""
  {
  }

  lemma PlainTail(f: string, b: string, r: string)
    ensures f + b + "" + "" + r == f + b + r
  {
    assert f + b + "" == f + b;
  }

  lemma TestBlockKept(g0: Gen, emitted: seq<Item>, testbb: Label, checked: bool)
    requires g0.insert < |g0.blocks| && testbb < |g0.blocks| && testbb != g0.insert && g0.blocks[testbb].phi.Phi?
    ensures var g := EmitItems(g0, emitted, checked); testbb < |g.blocks| && g.blocks[testbb].phi.Phi?
  {
    EmitItemsGrow(g0, emitted, checked);
  }

  class BrainF {
    var input: string
    var memtotal: nat
    var arraybounds: bool
    var blocks: seq<Block>
    var insert: Label
    var curhead: Reg
    var nextreg: Reg

    constructor () {
      input, memtotal, arraybounds := "", 0, false;
      blocks, insert, curhead, nextreg := [], 0, 0, 0;
    }

    function Builder(): Gen
      reads this
    {
      Gen(blocks, insert, curhead, nextreg)
    }

    // ----- the builder's primitives -----

    method Create(i: Instr)
      requires insert < |blocks|
      modifies this`blocks
      ensures blocks == AppendTo(old(blocks), insert, [i])
    {
      blocks := blocks[insert := blocks[insert].(instrs := blocks[insert].instrs + [i])];
    }

    method CreateTerminator(t: Terminator)
      requires insert < |blocks|
      modifies this`blocks
      ensures Builder() == Terminate(old(Builder()), t)
    {
      blocks := blocks[insert := blocks[insert].(term := t)];
    }

    method CreateBlock(phi: Phi) returns (b: Label)
      modifies this`blocks
      ensures b == old(|blocks|) && blocks == old(blocks) + [Block(phi, [], Open)]
    {
      b := |blocks|;
      blocks := blocks + [Block(phi, [], Open)];
    }

    method FreshReg() returns (r: Reg)
      modifies this`nextreg
      ensures r == old(nextreg) && nextreg == r + 1
    {
      r := nextreg;
      nextreg := nextreg + 1;
    }

    // ----- code for each symbol -----

    method WriteRead()
      requires insert < |blocks|
      modifies this`blocks, this`nextreg
      ensures Builder() == EmitRead(old(Builder()))
    {
      ghost var g := Builder();
      var tape0 := FreshReg();
      Create(GetChar(tape0));
      var tape1 := FreshReg();
      Create(TruncI8(tape1, tape0));
      Create(Store(tape1, curhead));
      AppendThree(g.blocks, insert, GetChar(tape0), TruncI8(tape1, tape0), Store(tape1, curhead));
    }

    method WriteWrite()
      requires insert < |blocks|
      modifies this`blocks, this`nextreg
      ensures Builder() == EmitWrite(old(Builder()))
    {
      ghost var g := Builder();
      var tape0 := FreshReg();
      Create(Load(tape0, curhead));
      var tape1 := FreshReg();
      Create(SExt(tape1, tape0));
      Create(PutChar(tape1));
      AppendThree(g.blocks, insert, Load(tape0, curhead), SExt(tape1, tape0), PutChar(tape1));
    }

    method WriteChange(curvalue: int)
      requires insert < |blocks|
      modifies this`blocks, this`nextreg
      ensures Builder() == EmitChange(old(Builder()), curvalue)
    {
      ghost var g := Builder();
      var tape0 := FreshReg();
      Create(Load(tape0, curhead));
      var tape1 := FreshReg();
      Create(AddI8(tape1, tape0, curvalue % 256));
      Create(Store(tape1, curhead));
      AppendThree(g.blocks, insert, Load(tape0, curhead), AddI8(tape1, tape0, curvalue % 256), Store(tape1, curhead));
    }

    method WriteMove(curvalue: int)
      requires insert < |blocks|
      modifies this`blocks, this`nextreg, this`curhead, this`insert
      ensures Builder() == EmitMove(old(Builder()), curvalue, arraybounds)
    {
      var h := FreshReg();
      Create(Gep(h, curhead, curvalue));
      curhead := h;
      if arraybounds {
        ghost var g1 := Builder();
        var test0 := FreshReg();
        Create(ICmpUge(test0, h, ARRMAX));
        var test1 := FreshReg();
        Create(ICmpUlt(test1, h, ARR));
        var test2 := FreshReg();
        Create(OrI1(test2, test0, test1));
        AppendThree(g1.blocks, insert, ICmpUge(test0, h, ARRMAX), ICmpUlt(test1, h, ARR), OrI1(test2, test0, test1));
        ghost var g2 := Builder();
        var nextbb := CreateBlock(NoPhi);
        CreateTerminator(CondBr(test2, ABERROR, nextbb));
        insert := nextbb;
        assert blocks == Terminate(g2, CondBr(test2, ABERROR, nextbb)).blocks + [Block(NoPhi, [], Open)];
      }
    }

    method WriteLoopStart() returns (phi: Reg, testbb: Label, bodybb: Label)
      requires insert < |blocks|
      modifies this`blocks, this`nextreg, this`curhead, this`insert
      ensures Builder() == BeginLoop(old(Builder()))
      ensures phi == old(nextreg) && testbb == old(|blocks|) && bodybb == testbb + 1
    {
      ghost var g := Builder();
      testbb := CreateBlock(NoPhi);
      CreateTerminator(Br(testbb));
      var bb0 := insert;
      bodybb := CreateBlock(NoPhi);
      insert := bodybb;
      phi := FreshReg();
      blocks := blocks[testbb := blocks[testbb].(phi := Phi(phi, [(bb0, curhead)]))];
      curhead := phi;
      assert blocks == Terminate(g, Br(testbb)).blocks
                       + [Block(Phi(phi, [(g.insert, g.curhead)]), [], Open), Block(NoPhi, [], Open)];
    }

    method WriteLoopEnd(phi: Reg, oldbb: Label, testbb: Label)
      requires insert < |blocks| && testbb < |blocks| && blocks[testbb].phi.Phi?
      modifies this`blocks, this`nextreg, this`curhead, this`insert
      ensures Builder() == EndLoop(old(Builder()), phi, oldbb, testbb) && insert < |blocks|
    {
      ghost var g := Builder();
      CreateTerminator(Br(testbb));
      var t := blocks[testbb];
      t := t.(phi := t.phi.(incoming := t.phi.incoming + [(insert, curhead)]));
      var head0 := phi;
      var tape0 := FreshReg();
      var test0 := FreshReg();
      t := t.(instrs := t.instrs + [Load(tape0, head0), ICmpEqZero(test0, tape0)]);
      var exit := |blocks|;
      t := t.(term := CondBr(test0, exit, oldbb));
      blocks := blocks[testbb := t];
      var phi1 := FreshReg();
      var bb0 := CreateBlock(Phi(phi1, [(testbb, head0)]));
      insert := bb0;
      curhead := phi1;
      assert t == EndLoop(g, phi, oldbb, testbb).blocks[testbb];
    }

    // ----- reading -----

    /** Reads on from a symbol that may still grow, until it is known to be complete. */
    method ReadSymbol(sym: Symbol, value: int, ghost cmds0: seq<Cmd>, ghost emitted: seq<Item>, ghost text: string)
      returns (cursym: Symbol, curvalue: int, nextsym: Symbol, nextvalue: int, ghost cmds: seq<Cmd>)
      requires sym.SymNone? || IsRun(sym)
      requires Reading(cmds0, emitted, sym, value)
      requires Spells(text, cmds0, sym, SymNone, 0, input)
      modifies this`input
      ensures Reading(cmds, emitted, cursym, curvalue)
      ensures Spells(text, cmds, cursym, nextsym, nextvalue, input)
      ensures LookaheadOk(cursym, nextsym, nextvalue, input)
      ensures !cursym.SymNone? && (cursym.SymEof? ==> nextsym.SymNone?)
      ensures |input| <= |old(input)|
      ensures |input| < |old(input)| || cursym.SymEof? || (nextsym.SymEof? && IsRun(sym))
    {
      hide Spells, Reading, Commands, Flatten, CmdsOf, SymbolOf;
      cursym, curvalue, nextsym, nextvalue, cmds := sym, value, SymNone, 0, cmds0;
      var loop := true;
      while loop
        invariant |input| <= |old(input)|
        invariant Reading(cmds, emitted, cursym, curvalue)
        invariant Spells(text, cmds, cursym, nextsym, nextvalue, input)
        invariant loop ==> (cursym.SymNone? || IsRun(cursym)) && nextsym.SymNone? && nextvalue == 0
        invariant !loop ==> LookaheadOk(cursym, nextsym, nextvalue, input) && !cursym.SymNone?
        invariant |input| < |old(input)| || cursym == sym || cursym.SymEof?
        invariant !loop ==> |input| < |old(input)| || cursym.SymEof? || (nextsym.SymEof? && IsRun(sym))
        decreases |input|, loop
      {
        if input == "" {
          SpellsEof(text, cmds, cursym);
          if cursym.SymNone? {
            ReadingNothing(cmds, emitted, curvalue);
            cursym := SymEof;
          } else {
            nextsym := SymEof;
          }
          loop := false;
        } else {
          var c := input[0];
          var direction := DirectionOf(c);
          var s := SymbolOf(c);
          SpellsTake(text, cmds, cursym, input, s, direction);
          input := input[1..];
          SymbolNotEof(c);
          if s.SymNone? {
          } else if IsRun(s) && cursym == s {
            TakeIntoRun(cmds, emitted, s, curvalue, direction);
            curvalue := curvalue + direction;
            cmds := cmds + CmdsOf(s, direction);
          } else if cursym.SymNone? {
            ReadingNothing(cmds, emitted, curvalue);
            TakeFirst(cmds, emitted, s, direction);
            cursym := s;
            curvalue := direction;
            cmds := cmds + CmdsOf(s, direction);
            loop := IsRun(s);
          } else {
            nextsym := s;
            nextvalue := direction;
            loop := false;
          }
        }
      }
    }

    // ----- the parser -----

    /** Writes out a complete symbol that is not a bracket. */
    method WriteSymbol(cursym: Symbol, curvalue: int)
      requires insert < |blocks| && BracketOf(cursym) == "" && !cursym.SymEof?
      modifies this`blocks, this`nextreg, this`curhead, this`insert
      ensures insert < |blocks|
      ensures Builder() == if cursym.SymNone? then old(Builder())
                           else EmitItem(old(Builder()), ItemsOf(cursym, curvalue)[0], arraybounds)
    {
      match cursym
      case SymRead => WriteRead();
      case SymWrite => WriteWrite();
      case SymMove => WriteMove(curvalue);
      case SymChange => WriteChange(curvalue);
      case _ =>
    }

    /** Compiles up to the end of the text, or, inside a loop, up to its closing bracket.
        A false result stands for the call to abort(). */
    method ReadLoop(nested: bool, phi: Reg, oldbb: Label, testbb: Label) returns (ok: bool, ghost cmds: seq<Cmd>)
      requires insert < |blocks|
      requires nested ==> testbb < insert && blocks[testbb].phi.Phi?
      modifies this
      ensures memtotal == old(memtotal) && arraybounds == old(arraybounds)
      ensures insert < |blocks| && |input| <= |old(input)|
      ensures ok && nested ==>
                && Commands(old(input)) == Flatten(cmds) + "]" + Commands(input)
                && testbb < |EmitItems(old(Builder()), Merge(cmds), arraybounds).blocks|
                && Builder() == EndLoop(EmitItems(old(Builder()), Merge(cmds), arraybounds), phi, oldbb, testbb)
      ensures ok && !nested ==>
                && Commands(old(input)) == Flatten(cmds)
                && blocks == Finish(EmitItems(old(Builder()), Merge(cmds), arraybounds))
      ensures !ok && nested ==> Depth(Commands(old(input))) >= 0
      ensures !ok && !nested ==> !Balanced(Commands(old(input)))
      decreases |input|, 0
    {
      hide EmitItems, EmitItem, EndLoop, BeginLoop, Merge, Flatten, Commands, Reading, Spells, Depth, Balanced, CmdsOf,
           ItemsOf, EndsPlain;
      ghost var g0, text := Builder(), Commands(input);
      ghost var emitted: seq<Item> := [];
      var cursym, curvalue, nextsym, nextvalue := SymNone, 0, SymNone, 0;
      cmds := [];
      Begin(g0, input, arraybounds);
      while !cursym.SymEof? && !cursym.SymEndLoop?
        invariant memtotal == old(memtotal) && arraybounds == old(arraybounds)
        invariant insert < |blocks| && Builder() == EmitItems(g0, emitted, arraybounds)
        invariant |input| <= |old(input)|
        invariant cursym.SymNone? || cursym.SymEof? || |input| < |old(input)|
        invariant Reading(cmds, emitted, cursym, curvalue)
        invariant Spells(text, cmds, cursym, nextsym, nextvalue, input)
        invariant LookaheadOk(cursym, nextsym, nextvalue, input)
        decreases |input|, Rank(cursym, nextsym)
      {
        ghost var cur := cursym;
        if cursym.SymLoop? {
          ghost var rest := input;
          var ok1;
          ghost var body;
          ok1, body := ReadNested();
          if !ok1 {
            UnclosedBracket(text, cmds, rest, nextvalue);
            return false, cmds;
          }
          LoopRead(text, cmds, rest, body, input, emitted, curvalue, nextvalue);
          EmitItemsSnoc(g0, emitted, LoopI(Merge(body)), arraybounds);
          cmds := cmds + [Loop(body)];
          emitted := emitted + [LoopI(Merge(body))];
        } else {
          WriteSymbol(cursym, curvalue);
          Written(cmds, emitted, text, cursym, curvalue, nextsym, nextvalue, input);
          SymbolEmitted(g0, emitted, cursym, curvalue, arraybounds);
          emitted := emitted + ItemsOf(cursym, curvalue);
        }
        cursym := nextsym;
        curvalue := nextvalue;
        nextsym := SymNone;
        Advance(cmds, emitted, text, cur, cursym, curvalue, input);
        cmds := cmds + CmdsOf(cursym, curvalue);
        if cursym.SymNone? || cursym.SymMove? || cursym.SymChange? {
          cursym, curvalue, nextsym, nextvalue, cmds := ReadSymbol(cursym, curvalue, cmds, emitted, text);
        }
      }

      AtEnd(text, cmds, emitted, cursym, curvalue, nextsym, nextvalue, input);
      if cursym.SymEndLoop? {
        if !nested {
          ExtraBracket(text, cmds, input);
          return false, cmds;
        }
        TestBlockKept(g0, emitted, testbb, arraybounds);
        WriteLoopEnd(phi, oldbb, testbb);
        return true, cmds;
      }
      CreateTerminator(Br(END));
      FlattenDepth(cmds);
      ok := !nested;
    }

    /** Compiles a loop whose opening bracket has been read, up to its closing bracket. */
    method ReadNested() returns (ok: bool, ghost body: seq<Cmd>)
      requires insert < |blocks|
      modifies this
      ensures memtotal == old(memtotal) && arraybounds == old(arraybounds)
      ensures insert < |blocks| && |input| <= |old(input)|
      ensures ok ==>
                && Commands(old(input)) == Flatten(body) + "]" + Commands(input)
                && Builder() == EmitItem(old(Builder()), LoopI(Merge(body)), arraybounds)
      ensures !ok ==> Depth(Commands(old(input))) >= 0
      decreases |input|, 1
    {
      hide EmitItems, EndLoop, Merge, Flatten, Commands, Depth;
      LoopStartOk(Builder());
      var phi, test, start := WriteLoopStart();
      ok, body := ReadLoop(true, phi, start, test);
    }

    // ----- the function around the program -----

    /** The entry block, the return block and, with bounds checks, the error block. */
    method WriteHeader()
      modifies this`blocks, this`insert, this`curhead, this`nextreg
      ensures Builder() == Header(memtotal, arraybounds)
    {
      blocks, nextreg := [], ARR;
      insert := CreateBlock(NoPhi);
      var arr := FreshReg();
      Create(Malloc(arr, memtotal));
      Create(MemSetZero(arr, memtotal));
      var arrmax := FreshReg();
      if arraybounds {
        Create(Gep(arrmax, arr, memtotal));
      }
      curhead := FreshReg();
      Create(Gep(curhead, arr, memtotal / 2));
      blocks := blocks + [Block(NoPhi, [Free], Ret)];
      if arraybounds {
        blocks := blocks + [Block(NoPhi, [PutsError], Br(END))];
      }
      assert blocks[ENTRY].instrs == HeaderInstrs(memtotal, arraybounds);
    }

    /** Compiles a text. A false result stands for the call to abort(). */
    method Parse(text: string, mem: nat, bounds: bool) returns (ok: bool, ghost cmds: seq<Cmd>)
      modifies this
      ensures ok <==> Balanced(Commands(text))
      ensures ok ==> Flatten(cmds) == Commands(text) && blocks == Compile(cmds, mem, bounds)
    {
      input, memtotal, arraybounds := text, mem, bounds;
      WriteHeader();
      ok, cmds := ReadLoop(false, 0, 0, 0);
      if ok {
        FlattenBalanced(cmds);
      }
    }
  }
}
