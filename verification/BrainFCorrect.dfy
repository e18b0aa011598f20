/** Correctness of the compiled program, from the source text to the last byte of output. */
module BrainFCorrect {
  import opened BrainFSource
  import opened BrainFItems
  import opened BrainFGraph
  import opened BrainFEmit
  import opened BrainFSimulation

  /** The run of the compiled function: `malloc` hands out a tape of arbitrary contents. */
  function Start(garbage: seq<Byte>, input: seq<Byte>): Config {
    At(ENTRY, 0, map[], Mem(garbage, input, []))
  }

  /** The state in which the program's first command runs. */
  function Initial(memtotal: nat, input: seq<Byte>): Machine {
    Machine(Mem(seq(memtotal, _ => 0), input, []), memtotal / 2)
  }

  /** A tape of zeros, nothing printed, and the head in the middle: as many cells before it as from it on,
      or one less. */
  lemma StartsInTheMiddle(memtotal: nat, input: seq<Byte>)
    ensures var m := Initial(memtotal, input);
            && |m.mem.tape| == memtotal && (forall i :: 0 <= i < memtotal ==> m.mem.tape[i] == 0)
            && m.mem.input == input && m.mem.output == []
            && memtotal - 1 <= m.head + m.head <= memtotal
  {
  }

  lemma HeaderOk(memtotal: nat, checked: bool)
    ensures GenOk(Header(memtotal, checked), checked)
  {
  }

  lemma HeaderRuns(memtotal: nat, checked: bool, graph: seq<Block>, garbage: seq<Byte>, input: seq<Byte>)
    returns (n: nat, env: Env)
    requires |garbage| == memtotal && Extends(Header(memtotal, checked).blocks, graph)
    ensures var g, m := Header(memtotal, checked), Initial(memtotal, input);
            Steps(graph, Start(garbage, input), n) == Here(g, env, m) && Ready(g, env, m, checked)
  {
    var g, m := Header(memtotal, checked), Initial(memtotal, input);
    var instrs := HeaderInstrs(memtotal, checked);
    var mem0 := Mem(garbage, input, []);
    n := |instrs|;
    assert BlockExtends(g.blocks[ENTRY], graph[ENTRY]);
    assert graph[ENTRY].instrs[0..|instrs|] == instrs;
    StraightLine(graph, ENTRY, 0, instrs, map[], mem0);
    env := HeaderExec(memtotal, checked, garbage, input);
  }

  lemma HeaderExec(memtotal: nat, checked: bool, garbage: seq<Byte>, input: seq<Byte>) returns (env: Env)
    requires |garbage| == memtotal
    ensures ExecAll(HeaderInstrs(memtotal, checked), map[], Mem(garbage, input, []))
            == Next(env, Initial(memtotal, input).mem)
    ensures Ready(Header(memtotal, checked), env, Initial(memtotal, input), checked)
  {
    var instrs, mem0, m := HeaderInstrs(memtotal, checked), Mem(garbage, input, []), Initial(memtotal, input);
    var env1 := map[ARR := 0];
    assert Exec(instrs[0], map[], mem0) == Next(env1, mem0);
    assert Exec(instrs[1], env1, mem0) == Next(env1, m.mem);
    var env2 := if checked then env1[ARRMAX := memtotal] else env1;
    env := env2[HEAD := memtotal / 2];
    assert Exec(Gep(HEAD, ARR, memtotal / 2), env2, m.mem) == Next(env, m.mem);
    assert checked ==> Exec(Gep(ARRMAX, ARR, memtotal), env1, m.mem) == Next(env2, m.mem);
    hide Exec;
    assert ExecAll(instrs, map[], mem0) == ExecAll(instrs[1..], env1, mem0) == ExecAll(instrs[1..][1..], env1, m.mem);
    var last := [Gep(HEAD, ARR, memtotal / 2)];
    assert ExecAll(last, env2, m.mem) == ExecAll(last[1..], env, m.mem) == Next(env, m.mem);
    if checked {
      assert instrs[1..][1..] == [Gep(ARRMAX, ARR, memtotal)] + last;
      assert instrs[1..][1..][1..] == last;
    } else {
      assert instrs[1..][1..] == last;
    }
  }

  /** How a whole run of the compiled function compares with the meaning of the program:
      an outcome cut short by fuel is matched by at least that many steps. */
  ghost predicate Agrees(c: Config, n: nat, o: Outcome, fuel: nat) {
    match o
    case Done(m) => c == Returned(m.mem)
    case Stopped(m) => c == Returned(m.mem)
    case Faulted(m) => c == Config.Faulted(m.mem)
    case Unfinished(m) => c.At? && c.mem == m.mem && n >= fuel
  }

  /** Compiler correctness: tape, input left and output are those of the direct interpreter. */
  lemma CompilerCorrect(cmds: seq<Cmd>, memtotal: nat, checked: bool, garbage: seq<Byte>, input: seq<Byte>, fuel: nat)
    returns (n: nat)
    requires |garbage| == memtotal
    ensures Agrees(Steps(Compile(cmds, memtotal, checked), Start(garbage, input), n), n,
                   Run(cmds, Initial(memtotal, input), checked, fuel), fuel)
  {
    hide *;
    CompiledOk(cmds, memtotal, checked);
    var g, m := Header(memtotal, checked), Initial(memtotal, input);
    var g', graph := EmitItems(g, Merge(cmds), checked), Compile(cmds, memtotal, checked);
    var c, o := Start(garbage, input), Run(cmds, m, checked, fuel);
    var n0, env0 := HeaderRuns(memtotal, checked, graph, garbage, input);
    var n1, env1 := SimItems(g, Merge(cmds), graph, env0, m, checked, fuel);
    MergeCorrect(cmds, m, checked, fuel);
    MatchesThen(graph, c, n0, Here(g, env0, m), o, g', checked, fuel, n1, env1);
    n := n0 + n1;
    if o.Done? {
      MatchesDone(graph, c, o, g', checked, fuel, n, env1);
      FinishReturns(g', graph, env1, o.m, checked);
      StepsAdd(graph, c, n, 3);
      n := n + 3;
      DoneAgrees(Steps(graph, c, n), n, o, fuel);
    } else {
      HaltedAgrees(graph, c, o, g', checked, fuel, n, env1);
    }
  }

  lemma DoneAgrees(d: Config, n: nat, o: Outcome, fuel: nat)
    requires o.Done? && d == Returned(o.m.mem)
    ensures Agrees(d, n, o, fuel)
  {
  }

  lemma HaltedAgrees(graph: seq<Block>, c: Config, o: Outcome, g: Gen, checked: bool, fuel: nat, n: nat, env: Env)
    requires g.insert < |g.blocks| && !o.Done? && Matches(graph, c, o, g, checked, fuel, n, env)
    ensures Agrees(Steps(graph, c, n), n, o, fuel)
  {
  }

  lemma CompiledOk(cmds: seq<Cmd>, memtotal: nat, checked: bool)
    ensures var g, graph := Header(memtotal, checked), Compile(cmds, memtotal, checked);
            g.insert < |g.blocks| &&
            var g' := EmitItems(g, Merge(cmds), checked);
            && GenOk(g, checked) && GenOk(g', checked) && graph == Finish(g')
            && Extends(g.blocks, graph) && Extends(g'.blocks, graph)
  {
    var g, graph := Header(memtotal, checked), Compile(cmds, memtotal, checked);
    var g' := EmitItems(g, Merge(cmds), checked);
    HeaderOk(memtotal, checked);
    EmitItemsGrow(g, Merge(cmds), checked);
    hide Header, Grows;
    GrowsExtends(g, g', checked);
    FinishExtends(g', checked);
    ExtendsTransitive(g.blocks, g'.blocks, graph);
  }

  lemma FinishExtends(g: Gen, checked: bool)
    requires GenOk(g, checked)
    ensures Extends(g.blocks, Finish(g)) && |Finish(g)| == |g.blocks|
    ensures Finish(g)[g.insert].instrs == g.blocks[g.insert].instrs && Finish(g)[g.insert].term == Br(END)
    ensures Finish(g)[END] == END_BLOCK
  {
  }

  lemma FinishReturns(g: Gen, graph: seq<Block>, env: Env, m: Machine, checked: bool)
    requires GenOk(g, checked) && graph == Finish(g)
    ensures Steps(graph, Here(g, env, m), 3) == Returned(m.mem)
  {
    FinishExtends(g, checked);
    var c := Here(g, env, m);
    assert Step(graph, c) == At(END, 0, env, m.mem);
    assert Step(graph, At(END, 0, env, m.mem)) == At(END, 1, env, m.mem);
    assert Step(graph, At(END, 1, env, m.mem)) == Returned(m.mem);
    ThreeSteps(graph, c, At(END, 0, env, m.mem), At(END, 1, env, m.mem), Returned(m.mem));
  }

  /** The other direction: when the compiled function halts, the program does, with the
      same result; so one diverges exactly when the other does. */
  lemma HaltsOnlyWithProgram(cmds: seq<Cmd>, memtotal: nat, checked: bool, garbage: seq<Byte>, input: seq<Byte>, n: nat)
    requires |garbage| == memtotal
    requires !Steps(Compile(cmds, memtotal, checked), Start(garbage, input), n).At?
    ensures var o := Run(cmds, Initial(memtotal, input), checked, n);
            !o.Unfinished? && Agrees(Steps(Compile(cmds, memtotal, checked), Start(garbage, input), n), n, o, n)
  {
    var graph, c := Compile(cmds, memtotal, checked), Start(garbage, input);
    var k := CompilerCorrect(cmds, memtotal, checked, garbage, input, n);
    if k <= n {
      StepsAdd(graph, c, k, n - k);
      if !Steps(graph, c, k).At? { HaltedStays(graph, Steps(graph, c, k), n - k); }
    } else {
      StepsAdd(graph, c, n, k - n);
      HaltedStays(graph, Steps(graph, c, n), k - n);
    }
  }

  /** The emitted graph never gets stuck: phis, registers and branch targets are always there. */
  lemma NeverStuck(cmds: seq<Cmd>, memtotal: nat, checked: bool, garbage: seq<Byte>, input: seq<Byte>, n: nat)
    requires |garbage| == memtotal
    ensures !Steps(Compile(cmds, memtotal, checked), Start(garbage, input), n).Stuck?
  {
    if !Steps(Compile(cmds, memtotal, checked), Start(garbage, input), n).At? {
      HaltsOnlyWithProgram(cmds, memtotal, checked, garbage, input, n);
    }
  }

  /** With bounds checking and a tape of at least one cell, no load or store of any run
      leaves the tape. */
  lemma CheckedRunsStayOnTape(cmds: seq<Cmd>, memtotal: nat, garbage: seq<Byte>, input: seq<Byte>, n: nat)
    requires |garbage| == memtotal && memtotal > 0
    ensures !Steps(Compile(cmds, memtotal, true), Start(garbage, input), n).Faulted?
  {
    if !Steps(Compile(cmds, memtotal, true), Start(garbage, input), n).At? {
      HaltsOnlyWithProgram(cmds, memtotal, true, garbage, input, n);
      var m := Initial(memtotal, input);
      MergeCorrect(cmds, m, true, n);
      CheckedNeverFaults(Merge(cmds), m, n);
    }
  }

  /** One cell is also needed: on an empty tape even a checked program faults. */
  lemma EmptyTapeFaults(input: seq<Byte>)
    ensures Run([Inc], Initial(0, input), true, 0).Faulted?
  {
  }

  /** A text is the text of at most one program. */
  lemma ProgramUnique(a: seq<Cmd>, b: seq<Cmd>)
    requires Flatten(a) == Flatten(b)
    ensures a == b
  {
    assert Flatten(a) + "" == Flatten(b) + "";
    FlattenUnique(a, "", b, "");
  }
}
