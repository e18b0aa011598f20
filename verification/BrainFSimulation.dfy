/** The emitted blocks do what the items mean, from any builder state. */
module BrainFSimulation {
  import opened BrainFSource
  import opened BrainFItems
  import opened BrainFGraph
  import opened BrainFEmit

  /** `f` is `b` with more emitted into it; a terminated block is final. */
  ghost predicate BlockExtends(b: Block, f: Block) {
    if b.term != Open then f == b
    else
      && b.instrs <= f.instrs
      && (b.phi.NoPhi? <==> f.phi.NoPhi?)
      && (b.phi.Phi? ==> b.phi.dst == f.phi.dst && b.phi.incoming <= f.phi.incoming)
  }

  ghost predicate Extends(blocks: seq<Block>, graph: seq<Block>) {
    && |blocks| <= |graph|
    && forall b :: 0 <= b < |blocks| ==> BlockExtends(blocks[b], graph[b])
  }

  lemma ExtendsTransitive(a: seq<Block>, b: seq<Block>, c: seq<Block>)
    requires Extends(a, b) && Extends(b, c)
    ensures Extends(a, c)
  {
    forall i | 0 <= i < |a| ensures BlockExtends(a[i], c[i]) {
      assert BlockExtends(a[i], b[i]) && BlockExtends(b[i], c[i]);
    }
  }

  ghost predicate GenOk(g: Gen, checked: bool) {
    && |g.blocks| >= (if checked then 3 else 2)
    && g.insert < |g.blocks| && g.blocks[g.insert].term == Open
    && g.blocks[END] == END_BLOCK
    && (checked ==> g.blocks[ABERROR] == ABERROR_BLOCK)
    && g.next > HEAD && g.curhead < g.next
  }

  lemma GrowsExtends(g: Gen, g': Gen, checked: bool)
    requires GenOk(g, checked) && Grows(g, g')
    ensures Extends(g.blocks, g'.blocks) && GenOk(g', checked)
  {
    assert g.insert != END;
    assert checked ==> g.insert != ABERROR;
  }

  /** The registers hold what the code emitted from `g` on relies on. */
  ghost predicate Ready(g: Gen, env: Env, m: Machine, checked: bool) {
    && ARR in env && env[ARR] == 0
    && (checked ==> ARRMAX in env && env[ARRMAX] == |m.mem.tape|)
    && g.curhead in env && env[g.curhead] == m.head
  }

  function Here(g: Gen, env: Env, m: Machine): Config
    requires g.insert < |g.blocks|
  {
    At(g.insert, |g.blocks[g.insert].instrs|, env, m.mem)
  }

  /** After n steps from c the graph is where the outcome says. An outcome cut
      short by fuel is matched by a run of at least that many steps. */
  ghost predicate Matches(graph: seq<Block>, c: Config, o: Outcome, g: Gen, checked: bool, fuel: nat, n: nat, env: Env)
    requires g.insert < |g.blocks|
  {
    var d := Steps(graph, c, n);
    match o
    case Done(m) => d == Here(g, env, m) && Ready(g, env, m, checked)
    case Stopped(m) => d == Returned(m.mem)
    case Faulted(m) => d == Config.Faulted(m.mem)
    case Unfinished(m) => d.At? && d.mem == m.mem && n >= fuel
  }

  /** Prefixing k steps keeps a match. */
  lemma MatchesAfter(graph: seq<Block>, c: Config, k: nat, c1: Config, o: Outcome, g: Gen, checked: bool, fuel: nat,
                     n: nat, env: Env)
    requires g.insert < |g.blocks|
    requires Steps(graph, c, k) == c1 && Matches(graph, c1, o, g, checked, fuel, n, env)
    ensures Matches(graph, c, o, g, checked, fuel + k, k + n, env)
  {
    StepsAdd(graph, c, k, n);
  }

  lemma MatchesDone(graph: seq<Block>, c: Config, o: Outcome, g: Gen, checked: bool, fuel: nat, n: nat, env: Env)
    requires g.insert < |g.blocks| && o.Done? && Matches(graph, c, o, g, checked, fuel, n, env)
    ensures Steps(graph, c, n) == Here(g, env, o.m) && Ready(g, env, o.m, checked)
  {
  }

  /** An outcome that is not Done does not depend on what comes after. */
  lemma MatchesHalted(graph: seq<Block>, c: Config, o: Outcome, g: Gen, g': Gen, checked: bool, fuel: nat, n: nat,
                      env: Env)
    requires g.insert < |g.blocks| && g'.insert < |g'.blocks|
    requires !o.Done? && Matches(graph, c, o, g, checked, fuel, n, env)
    ensures Matches(graph, c, o, g', checked, fuel, n, env)
  {
  }

  lemma MatchesThen(graph: seq<Block>, c: Config, k: nat, c1: Config, o: Outcome, g: Gen, checked: bool, fuel: nat,
                    n: nat, env: Env)
    requires g.insert < |g.blocks|
    requires Steps(graph, c, k) == c1 && Matches(graph, c1, o, g, checked, fuel, n, env)
    ensures Matches(graph, c, o, g, checked, fuel, k + n, env)
  {
    StepsAdd(graph, c, k, n);
  }

  // ----- straight-line items -----

  /** Runs freshly appended instructions. */
  lemma RunAppended(g: Gen, instrs: seq<Instr>, graph: seq<Block>, env: Env, m: Machine, checked: bool)
    requires GenOk(g, checked) && Extends(Append(g, instrs).blocks, graph)
    ensures var e := ExecAll(instrs, env, m.mem);
            var c := Steps(graph, Here(g, env, m), |instrs|);
            && (e.Next? ==> c == At(g.insert, |g.blocks[g.insert].instrs| + |instrs|, e.env, e.mem))
            && (e.Fault? ==> c == Config.Faulted(e.mem))
  {
    var b := g.blocks[g.insert];
    assert BlockExtends(Append(g, instrs).blocks[g.insert], graph[g.insert]);
    var all := b.instrs + instrs;
    assert all <= graph[g.insert].instrs;
    assert graph[g.insert].instrs[|b.instrs|..|all|] == all[|b.instrs|..|all|] == instrs;
    StraightLine(graph, g.insert, |b.instrs|, instrs, env, m.mem);
  }

  function ReadInstrs(g: Gen): seq<Instr> {
    [GetChar(g.next), TruncI8(g.next + 1, g.next), Store(g.next + 1, g.curhead)]
  }

  function WriteInstrs(g: Gen): seq<Instr> { [Load(g.next, g.curhead), SExt(g.next + 1, g.next), PutChar(g.next + 1)] }

  function ChangeInstrs(g: Gen, k: int): seq<Instr> {
    [Load(g.next, g.curhead), AddI8(g.next + 1, g.next, k % 256), Store(g.next + 1, g.curhead)]
  }

  /** What a command's instructions do, against what its item means. */
  ghost predicate ExecMatches(e: Effect, o: Outcome, env: Env, env': Env, next: Reg) {
    && (o.Done? ==> e == Next(env', o.m.mem))
    && (o.Faulted? ==> e == Fault(o.m.mem))
    && (forall r :: r in env && r < next ==> r in env' && env'[r] == env[r])
  }

  lemma ExecRead(g: Gen, env: Env, m: Machine, checked: bool, fuel: nat) returns (env': Env)
    requires Ready(g, env, m, checked) && g.curhead < g.next
    ensures ExecMatches(ExecAll(ReadInstrs(g), env, m.mem), RunItem(ReadI, m, checked, fuel), env, env', g.next)
  {
    var r := g.next;
    ExecAll3(GetChar(r), TruncI8(r + 1, r), Store(r + 1, g.curhead), env, m.mem);
    var x := if m.mem.input == [] then -1 else m.mem.input[0];
    env' := env[r := x][r + 1 := x % 256];
    assert ReadByte(m.mem).0 == x % 256;
  }

  lemma ExecWrite(g: Gen, env: Env, m: Machine, checked: bool, fuel: nat) returns (env': Env)
    requires Ready(g, env, m, checked) && g.curhead < g.next
    ensures ExecMatches(ExecAll(WriteInstrs(g), env, m.mem), RunItem(WriteI, m, checked, fuel), env, env', g.next)
  {
    var r := g.next;
    ExecAll3(Load(r, g.curhead), SExt(r + 1, r), PutChar(r + 1), env, m.mem);
    env' := env;
    if m.OnTape() {
      assert Signed(m.Cell()) % 256 == m.Cell();
      env' := env[r := m.Cell()][r + 1 := Signed(m.Cell())];
    }
  }

  lemma ExecChange(g: Gen, k: int, env: Env, m: Machine, checked: bool, fuel: nat) returns (env': Env)
    requires Ready(g, env, m, checked) && g.curhead < g.next
    ensures ExecMatches(ExecAll(ChangeInstrs(g, k), env, m.mem), RunItem(ChangeI(k), m, checked, fuel), env, env',
                        g.next)
  {
    var r := g.next;
    ExecAll3(Load(r, g.curhead), AddI8(r + 1, r, k % 256), Store(r + 1, g.curhead), env, m.mem);
    env' := env;
    if m.OnTape() {
      var x := (m.Cell() + k % 256) % 256;
      assert x == (m.Cell() + k) % 256;
      env' := env[r := m.Cell()][r + 1 := x];
    }
  }

  /** A command that neither moves the head nor branches. */
  lemma SimPlain(g: Gen, i: Item, instrs: seq<Instr>, graph: seq<Block>, env: Env, m: Machine, checked: bool, fuel: nat,
                 env': Env)
    requires GenOk(g, checked) && Ready(g, env, m, checked) && !i.LoopI? && !i.MoveI?
    requires EmitItem(g, i, checked) == Append(g, instrs).(next := g.next + 2)
    requires Extends(EmitItem(g, i, checked).blocks, graph)
    requires ExecMatches(ExecAll(instrs, env, m.mem), RunItem(i, m, checked, fuel), env, env', g.next)
    ensures Matches(graph, Here(g, env, m), RunItem(i, m, checked, fuel), EmitItem(g, i, checked), checked, fuel,
                    |instrs|, env')
  {
    hide EmitItem, RunItem, ExecAll, Extends, Steps;
    PlainOutcome(i, m, checked, fuel);
    assert EmitItem(g, i, checked).blocks[g.insert].instrs == g.blocks[g.insert].instrs + instrs;
    RunAppended(g, instrs, graph, env, m, checked);
  }

  /** A plain command finishes or faults, with the head where it was. */
  lemma PlainOutcome(i: Item, m: Machine, checked: bool, fuel: nat)
    requires !i.LoopI? && !i.MoveI?
    ensures var o := RunItem(i, m, checked, fuel); (o.Done? || o.Faulted?) && o.m.head == m.head
  {
  }

  // ----- moves -----

  lemma SimMoveUnchecked(g: Gen, k: int, graph: seq<Block>, env: Env, m: Machine, fuel: nat) returns (n: nat, env': Env)
    requires GenOk(g, false) && Ready(g, env, m, false) && Extends(EmitMove(g, k, false).blocks, graph)
    ensures Matches(graph, Here(g, env, m), RunItem(MoveI(k), m, false, fuel), EmitMove(g, k, false), false, fuel, n,
                    env')
  {
    var i := Gep(g.next, g.curhead, k);
    RunAppended(g, [i], graph, env, m, false);
    n, env' := 1, env[g.next := m.head + k];
    assert ExecAll([i], env, m.mem) == ExecAll([i][1..], env', m.mem) == Next(env', m.mem);
  }

  /** From the error block the run prints the message, frees the tape and returns. */
  lemma AbortReturns(graph: seq<Block>, env: Env, mem: Mem)
    requires |graph| > 2 && graph[END] == END_BLOCK && graph[ABERROR] == ABERROR_BLOCK
    ensures Steps(graph, At(ABERROR, 0, env, mem), 4) == Returned(PrintError(mem))
  {
    var c0 := At(ABERROR, 0, env, mem);
    var c1 := At(ABERROR, 1, env, PrintError(mem));
    var c2 := At(END, 0, env, PrintError(mem));
    var c3 := At(END, 1, env, PrintError(mem));
    assert Step(graph, c0) == c1;
    assert Step(graph, c1) == c2;
    assert Step(graph, c2) == c3;
    assert Steps(graph, c2, 2) == Steps(graph, c3, 1) == Steps(graph, Returned(PrintError(mem)), 0);
    assert Steps(graph, c0, 4) == Steps(graph, c1, 3) == Steps(graph, c2, 2);
  }

  lemma ExecGep(d: Reg, b: Reg, k: int, env: Env, mem: Mem)
    requires b in env
    ensures Exec(Gep(d, b, k), env, mem) == Next(env[d := env[b] + k], mem)
  {
  }

  lemma ExecCompare(d: Reg, a: Reg, b: Reg, env: Env, mem: Mem)
    requires a in env && b in env
    ensures Exec(ICmpUge(d, a, b), env, mem) == Next(env[d := Bit(env[a] >= env[b])], mem)
    ensures Exec(ICmpUlt(d, a, b), env, mem) == Next(env[d := Bit(env[a] < env[b])], mem)
  {
  }

  lemma ExecOr(d: Reg, a: Reg, b: Reg, env: Env, mem: Mem)
    requires a in env && b in env
    ensures Exec(OrI1(d, a, b), env, mem) == Next(env[d := Bit(env[a] != 0 || env[b] != 0)], mem)
  {
  }

  lemma ExecMoveCheck(g: Gen, k: int, env: Env, m: Machine) returns (env': Env)
    requires Ready(g, env, m, true) && g.next > HEAD
    ensures var h, m1 := g.next, m.(head := m.head + k);
            && ExecAll(MoveCheckInstrs(g, k), env, m.mem) == Next(env', m.mem)
            && ARR in env' && env'[ARR] == 0 && ARRMAX in env' && env'[ARRMAX] == |m.mem.tape|
            && h in env' && env'[h] == m1.head
            && h + 3 in env' && env'[h + 3] == Bit(!m1.OnTape())
  {
    hide Exec;
    var h := g.next;
    var i, a, b, c := Gep(h, g.curhead, k), ICmpUge(h + 1, h, ARRMAX), ICmpUlt(h + 2, h, ARR),
      OrI1(h + 3, h + 1, h + 2);
    var p := m.head + k;
    var env1 := env[h := p];
    var env2 := env1[h + 1 := Bit(p >= |m.mem.tape|)];
    var env3 := env2[h + 2 := Bit(p < 0)];
    env' := env3[h + 3 := Bit(p >= |m.mem.tape| || p < 0)];
    ExecGep(h, g.curhead, k, env, m.mem);
    ExecCompare(h + 1, h, ARRMAX, env1, m.mem);
    ExecCompare(h + 2, h, ARR, env2, m.mem);
    ExecOr(h + 3, h + 1, h + 2, env3, m.mem);
    ExecAll3(a, b, c, env1, m.mem);
    assert [i, a, b, c][1..] == [a, b, c];
  }

  lemma SimMoveChecked(g: Gen, k: int, graph: seq<Block>, env: Env, m: Machine, fuel: nat) returns (n: nat, env': Env)
    requires GenOk(g, true) && Ready(g, env, m, true) && Extends(EmitMove(g, k, true).blocks, graph)
    ensures Matches(graph, Here(g, env, m), RunItem(MoveI(k), m, true, fuel), EmitMove(g, k, true), true, fuel, n, env')
  {
    var m1, c0 := m.(head := m.head + k), Here(g, env, m);
    hide EmitMove, Exec, Extends, Step, Steps;
    MoveCheckBlocks(g, k, graph);
    env' := MoveToBranch(g, k, graph, env, m);
    if m1.OnTape() {
      n := 5;
      StepsAdd(graph, c0, 4, 1);
    } else {
      n := 9;
      StepsAdd(graph, c0, 4, 5);
    }
  }

  /** The move, the two comparisons, and the branch on them. */
  lemma MoveToBranch(g: Gen, k: int, graph: seq<Block>, env: Env, m: Machine) returns (env': Env)
    requires GenOk(g, true) && Ready(g, env, m, true) && Extends(EmitMove(g, k, true).blocks, graph)
    ensures var m1 := m.(head := m.head + k);
            var c := At(g.insert, |g.blocks[g.insert].instrs| + 4, env', m.mem);
            && ARR in env' && env'[ARR] == 0 && ARRMAX in env' && env'[ARRMAX] == |m.mem.tape|
            && g.next in env' && env'[g.next] == m1.head
            && Steps(graph, Here(g, env, m), 4) == c
            && (m1.OnTape() ==> Steps(graph, c, 1) == At(|g.blocks|, 0, env', m.mem))
            && (!m1.OnTape() ==> Steps(graph, c, 5) == Returned(PrintError(m.mem)))
  {
    hide *;
    GenFacts(g, true);
    var instrs := MoveCheckInstrs(g, k);
    MoveCheckBlocks(g, k, graph);
    env' := ExecMoveCheck(g, k, env, m);
    RunAppended(g, instrs, graph, env, m, true);
    var c := At(g.insert, |g.blocks[g.insert].instrs| + 4, env', m.mem);
    MoveBranch(graph, c, g.next + 3, |g.blocks|, m.(head := m.head + k).OnTape());
  }

  lemma GenFacts(g: Gen, checked: bool)
    requires GenOk(g, checked)
    ensures g.insert < |g.blocks| && g.next > HEAD && g.curhead < g.next && |g.blocks| >= if checked then 3 else 2
  {
  }

  /** The branch after a bounds check. */
  lemma MoveBranch(graph: seq<Block>, c: Config, test: Reg, next: Label, onTape: bool)
    requires c.At? && 2 < |graph| && c.block < |graph| && next < |graph| && graph[next].phi.NoPhi?
    requires c.pos == |graph[c.block].instrs| && graph[c.block].term == CondBr(test, ABERROR, next)
    requires graph[END] == END_BLOCK && graph[ABERROR] == ABERROR_BLOCK
    requires test in c.env && c.env[test] == Bit(!onTape)
    ensures onTape ==> Steps(graph, c, 1) == At(next, 0, c.env, c.mem)
    ensures !onTape ==> Steps(graph, c, 5) == Returned(PrintError(c.mem))
  {
    if onTape {
      assert Step(graph, c) == At(next, 0, c.env, c.mem);
      assert Steps(graph, c, 1) == Steps(graph, Step(graph, c), 0);
    } else {
      assert Step(graph, c) == At(ABERROR, 0, c.env, c.mem);
      AbortReturns(graph, c.env, c.mem);
    }
  }

  function MoveCheckInstrs(g: Gen, k: int): (instrs: seq<Instr>)
    ensures |instrs| == 4
  {
    var h := g.next;
    [Gep(h, g.curhead, k), ICmpUge(h + 1, h, ARRMAX), ICmpUlt(h + 2, h, ARR), OrI1(h + 3, h + 1, h + 2)]
  }

  lemma MoveCheckBlocks(g: Gen, k: int, graph: seq<Block>)
    requires GenOk(g, true) && Extends(EmitMove(g, k, true).blocks, graph)
    ensures Extends(Append(g, MoveCheckInstrs(g, k)).blocks, graph)
    ensures var n, b := |g.blocks|, g.blocks[g.insert];
            && EmitMove(g, k, true).insert == n && EmitMove(g, k, true).blocks[n] == Block(NoPhi, [], Open)
            && EmitMove(g, k, true).curhead == g.next
            && |graph| > n && graph[n].phi.NoPhi?
            && graph[g.insert] == Block(b.phi, b.instrs + MoveCheckInstrs(g, k), CondBr(g.next + 3, ABERROR, n))
            && graph[END] == END_BLOCK && graph[ABERROR] == ABERROR_BLOCK
  {
    var h, n, b, g', instrs := g.next, |g.blocks|, g.blocks[g.insert], EmitMove(g, k, true), MoveCheckInstrs(g, k);
    assert (b.instrs + [instrs[0]]) + [instrs[1], instrs[2], instrs[3]] == b.instrs + instrs;
    assert g'.blocks[g.insert] == Block(b.phi, b.instrs + instrs, CondBr(h + 3, ABERROR, n));
    assert g'.blocks[n] == Block(NoPhi, [], Open);
    assert BlockExtends(g'.blocks[g.insert], graph[g.insert]) && BlockExtends(g'.blocks[n], graph[n]);
    assert BlockExtends(g'.blocks[END], graph[END]) && BlockExtends(g'.blocks[ABERROR], graph[ABERROR]);
    var g1 := Append(g, instrs);
    forall j | 0 <= j < n ensures BlockExtends(g1.blocks[j], graph[j]) {
      assert BlockExtends(g'.blocks[j], graph[j]);
      assert j != g.insert ==> g'.blocks[j] == g1.blocks[j] == g.blocks[j];
    }
  }

  // ----- loops and sequences -----

  lemma {:induction false} SimItems(g: Gen, items: seq<Item>, graph: seq<Block>, env: Env, m: Machine, checked: bool,
                                    fuel: nat)
    returns (n: nat, env': Env)
    requires GenOk(g, checked) && Ready(g, env, m, checked) && Extends(EmitItems(g, items, checked).blocks, graph)
    ensures Matches(graph, Here(g, env, m), RunItems(items, m, checked, fuel), EmitItems(g, items, checked), checked,
                    fuel, n, env')
    decreases fuel, items, 1
  {
    n, env' := 0, env;
    if items != [] {
      var g1 := EmitItem(g, items[0], checked);
      var g2 := EmitItems(g1, items[1..], checked);
      EmitSplit(g, items, graph, checked);
      hide EmitItem, RunItem, Extends, GenOk, Ready, Steps, Matches;
      var c, o := Here(g, env, m), RunItem(items[0], m, checked, fuel);
      n, env' := SimItem(g, items[0], graph, env, m, checked, fuel);
      if o.Done? {
        var n1, env1 := n, env';
        MatchesDone(graph, c, o, g1, checked, fuel, n1, env1);
        n, env' := SimItems(g1, items[1..], graph, env1, o.m, checked, fuel);
        MatchesThen(graph, c, n1, Here(g1, env1, o.m), RunItems(items[1..], o.m, checked, fuel), g2, checked, fuel,
                    n, env');
        n := n1 + n;
      } else {
        MatchesHalted(graph, c, o, g1, g2, checked, fuel, n, env');
      }
    }
  }

  lemma EmitSplit(g: Gen, items: seq<Item>, graph: seq<Block>, checked: bool)
    requires GenOk(g, checked) && items != [] && Extends(EmitItems(g, items, checked).blocks, graph)
    ensures var g1 := EmitItem(g, items[0], checked);
            && GenOk(g1, checked)
            && Extends(g1.blocks, graph)
            && Extends(EmitItems(g1, items[1..], checked).blocks, graph)
  {
    var g1 := EmitItem(g, items[0], checked);
    var g2 := EmitItems(g1, items[1..], checked);
    EmitItemGrows(g, items[0], checked);
    EmitItemsGrow(g1, items[1..], checked);
    GrowsExtends(g, g1, checked);
    GrowsExtends(g1, g2, checked);
    ExtendsTransitive(g1.blocks, g2.blocks, graph);
  }

  lemma {:induction false} SimItem(g: Gen, i: Item, graph: seq<Block>, env: Env, m: Machine, checked: bool, fuel: nat)
    returns (n: nat, env': Env)
    requires GenOk(g, checked) && Ready(g, env, m, checked) && Extends(EmitItem(g, i, checked).blocks, graph)
    ensures Matches(graph, Here(g, env, m), RunItem(i, m, checked, fuel), EmitItem(g, i, checked), checked, fuel, n,
                    env')
    decreases fuel, i, 0
  {
    match i
    case ReadI =>
      n := 3;
      env' := ExecRead(g, env, m, checked, fuel);
      SimPlain(g, i, ReadInstrs(g), graph, env, m, checked, fuel, env');
    case WriteI =>
      n := 3;
      env' := ExecWrite(g, env, m, checked, fuel);
      SimPlain(g, i, WriteInstrs(g), graph, env, m, checked, fuel, env');
    case ChangeI(k) =>
      n := 3;
      env' := ExecChange(g, k, env, m, checked, fuel);
      SimPlain(g, i, ChangeInstrs(g, k), graph, env, m, checked, fuel, env');
    case MoveI(k) =>
      if checked {
        n, env' := SimMoveChecked(g, k, graph, env, m, fuel);
      } else {
        n, env' := SimMoveUnchecked(g, k, graph, env, m, fuel);
      }
    case LoopI(body) =>
      hide EmitItem, EmitItems, BeginLoop, EndLoop, Steps, Step, Extends, RunLoopI;
      var env1 := env[g.next := m.head];
      EnterLoop(g, body, graph, env, m, checked);
      ReadyInLoop(g, body, env, m, checked);
      var n1: nat;
      n1, env' := SimLoop(g, body, graph, env1, m, checked, fuel);
      MatchesAfter(graph, Here(g, env, m), 1, At(|g.blocks|, 0, env1, m.mem), RunItem(i, m, checked, fuel),
                   EmitItem(g, i, checked), checked, fuel, n1, env');
      n := 1 + n1;
  }

  lemma ReadyInLoop(g: Gen, body: seq<Item>, env: Env, m: Machine, checked: bool)
    requires GenOk(g, checked) && Ready(g, env, m, checked)
    ensures Ready(Shape(g, body, checked).g1, env[g.next := m.head], m, checked)
  {
  }

  /** The builder states around a loop, and how its blocks sit in the finished graph. */
  datatype LoopShape = LoopShape(g1: Gen, g2: Gen, g3: Gen)

  function Shape(g: Gen, body: seq<Item>, checked: bool): LoopShape
    requires g.insert < |g.blocks|
  {
    var g1 := BeginLoop(g);
    var g2 := EmitItems(g1, body, checked);
    LoopShape(g1, g2, EndLoop(g2, g.next, |g.blocks| + 1, |g.blocks|))
  }

  /** The blocks of a loop before its end is written. */
  lemma LoopOpened(g: Gen, body: seq<Item>, checked: bool)
    requires GenOk(g, checked)
    ensures var g1, g2, test := BeginLoop(g), Shape(g, body, checked).g2, |g.blocks|;
            && Grows(g1, g2) && GenOk(g1, checked) && GenOk(g2, checked)
            && g2.next >= g1.next > g.next && g2.insert > test && g2.insert != g.insert && |g2.blocks| > test + 1
            && g2.blocks[g.insert] == g.blocks[g.insert].(term := Br(test))
            && g2.blocks[test] == Block(Phi(g.next, [(g.insert, g.curhead)]), [], Open)
            && g2.blocks[test + 1].phi == NoPhi
  {
    hide EmitItems, EmitItem;
    var g1 := BeginLoop(g);
    EmitItemsGrow(g1, body, checked);
    GrowsExtends(g1, Shape(g, body, checked).g2, checked);
  }

  /** The blocks of a finished loop. */
  lemma LoopBlocks(g: Gen, body: seq<Item>, checked: bool)
    requires GenOk(g, checked)
    ensures var s, test := Shape(g, body, checked), |g.blocks|;
            && Grows(s.g1, s.g2) && GenOk(s.g1, checked) && GenOk(s.g2, checked)
            && s.g2.next >= s.g1.next > g.next
            && s.g2.insert > test && s.g2.insert != g.insert
            && |s.g3.blocks| > |s.g2.blocks| > test + 1
            && s.g3.blocks[g.insert] == g.blocks[g.insert].(term := Br(test))
            && s.g3.blocks[test] == Block(Phi(g.next, [(g.insert, g.curhead), (s.g2.insert, s.g2.curhead)]),
                                          [Load(s.g2.next, g.next), ICmpEqZero(s.g2.next + 1, s.g2.next)],
                                          CondBr(s.g2.next + 1, |s.g2.blocks|, test + 1))
            && s.g3.blocks[test + 1].phi == NoPhi
            && s.g3.blocks[s.g2.insert] == s.g2.blocks[s.g2.insert].(term := Br(test))
            && s.g3.blocks[|s.g2.blocks|] == Block(Phi(s.g2.next + 2, [(test, g.next)]), [], Open)
            && Extends(s.g2.blocks, s.g3.blocks)
  {
    hide EmitItems, EmitItem;
    LoopOpened(g, body, checked);
    var s, test := Shape(g, body, checked), |g.blocks|;
    var g2, g3 := s.g2, s.g3;
    assert [(g.insert, g.curhead)] + [(g2.insert, g2.curhead)] == [(g.insert, g.curhead), (g2.insert, g2.curhead)];
    assert forall j :: 0 <= j < |g2.blocks| && j != test && j != g2.insert ==> g3.blocks[j] == g2.blocks[j];
  }

  lemma LoopFacts(g: Gen, body: seq<Item>, graph: seq<Block>, checked: bool) returns (s: LoopShape)
    requires GenOk(g, checked) && Extends(EmitItem(g, LoopI(body), checked).blocks, graph)
    ensures s == Shape(g, body, checked) && s.g3 == EmitItem(g, LoopI(body), checked)
    ensures GenOk(s.g1, checked) && GenOk(s.g2, checked)
    ensures Extends(s.g2.blocks, graph)
    ensures var test := |g.blocks|;
            && s.g2.next >= s.g1.next > g.next
            && s.g2.insert > test && s.g2.insert != g.insert
            && |graph| > |s.g2.blocks| > test + 1
            && graph[g.insert].instrs == g.blocks[g.insert].instrs && graph[g.insert].term == Br(test)
            && graph[test] == Block(Phi(g.next, [(g.insert, g.curhead), (s.g2.insert, s.g2.curhead)]),
                                    [Load(s.g2.next, g.next), ICmpEqZero(s.g2.next + 1, s.g2.next)],
                                    CondBr(s.g2.next + 1, |s.g2.blocks|, test + 1))
            && graph[test + 1].phi == NoPhi
            && graph[s.g2.insert].instrs == s.g2.blocks[s.g2.insert].instrs && graph[s.g2.insert].term == Br(test)
            && graph[|s.g2.blocks|].phi.Phi? && graph[|s.g2.blocks|].phi.dst == s.g2.next + 2
            && |graph[|s.g2.blocks|].phi.incoming| > 0 && graph[|s.g2.blocks|].phi.incoming[0] == (test, g.next)
  {
    s := Shape(g, body, checked);
    assert s.g3 == EmitItem(g, LoopI(body), checked);
    LoopBlocks(g, body, checked);
    hide EmitItems, EmitItem, BeginLoop, EndLoop, Shape;
    var g3, test := s.g3, |g.blocks|;
    assert BlockExtends(g3.blocks[g.insert], graph[g.insert]);
    assert BlockExtends(g3.blocks[test], graph[test]);
    assert BlockExtends(g3.blocks[test + 1], graph[test + 1]);
    assert BlockExtends(g3.blocks[s.g2.insert], graph[s.g2.insert]);
    assert BlockExtends(g3.blocks[|s.g2.blocks|], graph[|s.g2.blocks|]);
    ExtendsTransitive(s.g2.blocks, g3.blocks, graph);
  }

  lemma EnterLoop(g: Gen, body: seq<Item>, graph: seq<Block>, env: Env, m: Machine, checked: bool)
    requires GenOk(g, checked) && Ready(g, env, m, checked) && Extends(EmitItem(g, LoopI(body), checked).blocks, graph)
    ensures Steps(graph, Here(g, env, m), 1) == At(|g.blocks|, 0, env[g.next := m.head], m.mem)
  {
    var s := LoopFacts(g, body, graph, checked);
    assert Step(graph, Here(g, env, m)) == At(|g.blocks|, 0, env[g.next := m.head], m.mem);
    assert Steps(graph, Step(graph, Here(g, env, m)), 0) == Step(graph, Here(g, env, m));
  }

  /** The loop test: fault off the tape, leave on zero, enter the body otherwise. */
  lemma LoopTest(g: Gen, body: seq<Item>, graph: seq<Block>, env: Env, m: Machine, checked: bool) returns (env': Env)
    requires GenOk(g, checked) && Extends(EmitItem(g, LoopI(body), checked).blocks, graph)
    requires Ready(Shape(g, body, checked).g1, env, m, checked)
    ensures var c := At(|g.blocks|, 0, env, m.mem); var s := Shape(g, body, checked);
            && (!m.OnTape() ==> Steps(graph, c, 1) == Config.Faulted(m.mem))
            && (m.OnTape() && m.Cell() == 0 ==>
                Steps(graph, c, 3) == Here(s.g3, env', m) && Ready(s.g3, env', m, checked))
            && (m.OnTape() && m.Cell() != 0 ==>
                Steps(graph, c, 3) == Here(s.g1, env', m) && Ready(s.g1, env', m, checked))
  {
    var s := LoopFacts(g, body, graph, checked);
    LoopBlocks(g, body, checked);
    var g1, g2, g3, test, r := s.g1, s.g2, s.g3, |g.blocks|, s.g2.next;
    assert g1.insert == test + 1 && g1.blocks[test + 1].instrs == [] && g1.curhead == g.next;
    assert g3.insert == |g2.blocks| && g3.curhead == r + 2;
    env' := LoopTestSteps(graph, test, g.next, r, |g2.blocks|, test + 1, env, m);
  }

  lemma LoopTestSteps(graph: seq<Block>, test: Label, phi: Reg, r: Reg, exit: Label, body: Label, env: Env, m: Machine)
    returns (env': Env)
    requires test < |graph| && body < |graph| && exit < |graph| && phi < r
    requires graph[test].instrs == [Load(r, phi), ICmpEqZero(r + 1, r)] && graph[test].term == CondBr(r + 1, exit, body)
    requires graph[body].phi.NoPhi? && graph[exit].phi.Phi? && graph[exit].phi.dst == r + 2
    requires |graph[exit].phi.incoming| > 0 && graph[exit].phi.incoming[0] == (test, phi)
    requires phi in env && env[phi] == m.head
    ensures forall q :: q in env && q < r ==> q in env' && env'[q] == env[q]
    ensures var c := At(test, 0, env, m.mem);
            && (!m.OnTape() ==> Steps(graph, c, 1) == Config.Faulted(m.mem))
            && (m.OnTape() && m.Cell() == 0 ==>
                  Steps(graph, c, 3) == At(exit, 0, env', m.mem) && r + 2 in env' && env'[r + 2] == m.head)
            && (m.OnTape() && m.Cell() != 0 ==> Steps(graph, c, 3) == At(body, 0, env', m.mem))
  {
    var c := At(test, 0, env, m.mem);
    env' := env;
    if !m.OnTape() {
      assert Step(graph, c) == Config.Faulted(m.mem);
      assert Steps(graph, Step(graph, c), 0) == Config.Faulted(m.mem);
    } else {
      var env1 := env[r := m.Cell()];
      var env2 := env1[r + 1 := Bit(m.Cell() == 0)];
      env' := if m.Cell() == 0 then env2[r + 2 := m.head] else env2;
      var c3 := At(if m.Cell() == 0 then exit else body, 0, env', m.mem);
      assert Step(graph, c) == At(test, 1, env1, m.mem);
      assert Step(graph, At(test, 1, env1, m.mem)) == At(test, 2, env2, m.mem);
      assert Step(graph, At(test, 2, env2, m.mem)) == c3;
      ThreeSteps(graph, c, At(test, 1, env1, m.mem), At(test, 2, env2, m.mem), c3);
    }
  }

  lemma ThreeSteps(graph: seq<Block>, c0: Config, c1: Config, c2: Config, c3: Config)
    requires Step(graph, c0) == c1 && Step(graph, c1) == c2 && Step(graph, c2) == c3
    ensures Steps(graph, c0, 3) == c3
  {
    hide Step;
    assert Steps(graph, c2, 1) == Steps(graph, c3, 0);
    assert Steps(graph, c1, 2) == Steps(graph, c2, 1);
  }

  lemma BackEdge(g: Gen, body: seq<Item>, graph: seq<Block>, env: Env, m: Machine, checked: bool)
    requires GenOk(g, checked) && Extends(EmitItem(g, LoopI(body), checked).blocks, graph)
    requires Ready(Shape(g, body, checked).g2, env, m, checked)
    ensures Steps(graph, Here(Shape(g, body, checked).g2, env, m), 1) == At(|g.blocks|, 0, env[g.next := m.head], m.mem)
    ensures Ready(Shape(g, body, checked).g1, env[g.next := m.head], m, checked)
  {
    var s := LoopFacts(g, body, graph, checked);
    var c := Here(s.g2, env, m);
    var incoming := graph[|g.blocks|].phi.incoming;
    assert incoming[1..] == [(s.g2.insert, s.g2.curhead)];
    assert Incoming(incoming, s.g2.insert) == Incoming(incoming[1..], s.g2.insert) == s.g2.curhead;
    assert Step(graph, c) == At(|g.blocks|, 0, env[g.next := m.head], m.mem);
    assert Steps(graph, Step(graph, c), 0) == Step(graph, c);
  }

  lemma {:induction false} SimLoop(g: Gen, body: seq<Item>, graph: seq<Block>, env: Env, m: Machine, checked: bool,
                                   fuel: nat)
    returns (n: nat, env': Env)
    requires GenOk(g, checked) && Extends(EmitItem(g, LoopI(body), checked).blocks, graph)
    requires Ready(Shape(g, body, checked).g1, env, m, checked)
    ensures Matches(graph, At(|g.blocks|, 0, env, m.mem), RunLoopI(body, m, checked, fuel),
                    EmitItem(g, LoopI(body), checked), checked, fuel, n, env')
    decreases fuel, body, 0
  {
    hide EmitItems, EmitItem, BeginLoop, EndLoop, Shape, Step, Steps, RunItems, Extends, GenOk, Ready;
    var s := LoopOk(g, body, graph, checked);
    var c := At(|g.blocks|, 0, env, m.mem);
    env' := LoopTest(g, body, graph, env, m, checked);
    if !m.OnTape() {
      n := 1;
    } else if m.Cell() == 0 {
      n := 3;
    } else if fuel == 0 {
      n := 0;
      assert Steps(graph, c, 0) == c by { NoSteps(graph, c); }
    } else {
      var env0, o1 := env', RunItems(body, m, checked, fuel - 1);
      var n1, env1 := SimItems(s.g1, body, graph, env0, m, checked, fuel - 1);
      MatchesAfter(graph, c, 3, Here(s.g1, env0, m), o1, s.g2, checked, fuel - 1, n1, env1);
      n, env' := 3 + n1, env1;
      if o1.Done? {
        var env2 := env1[g.next := o1.m.head];
        BackEdge(g, body, graph, env1, o1.m, checked);
        var n2: nat;
        n2, env' := SimLoop(g, body, graph, env2, o1.m, checked, fuel - 1);
        var o2 := RunLoopI(body, o1.m, checked, fuel - 1);
        MatchesAfter(graph, Here(s.g2, env1, o1.m), 1, At(|g.blocks|, 0, env2, o1.m.mem), o2, s.g3, checked,
                     fuel - 1, n2, env');
        MatchesAfter(graph, c, n, Here(s.g2, env1, o1.m), o2, s.g3, checked, fuel, 1 + n2, env');
        n := n + (1 + n2);
      }
    }
  }

  lemma NoSteps(graph: seq<Block>, c: Config)
    ensures Steps(graph, c, 0) == c
  {
  }

  lemma LoopOk(g: Gen, body: seq<Item>, graph: seq<Block>, checked: bool) returns (s: LoopShape)
    requires GenOk(g, checked) && Extends(EmitItem(g, LoopI(body), checked).blocks, graph)
    ensures s == Shape(g, body, checked) && s.g3 == EmitItem(g, LoopI(body), checked)
    ensures GenOk(s.g1, checked) && GenOk(s.g2, checked) && s.g2 == EmitItems(s.g1, body, checked)
    ensures s.g1.insert < |s.g1.blocks| && s.g2.insert < |s.g2.blocks| && s.g3.insert < |s.g3.blocks|
    ensures Extends(s.g2.blocks, graph)
  {
    s := LoopFacts(g, body, graph, checked);
  }
}
