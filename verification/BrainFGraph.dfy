/** The block graph the compiler emits: the part of LLVM IR it uses, and how it runs.
    An address is an offset into the tape allocation. */
module BrainFGraph {
  import opened BrainFSource

  type Reg = nat
  type Label = nat

  datatype Instr =
    | Malloc(dst: Reg, size: nat)
    | MemSetZero(addr: Reg, size: nat)
    | GetChar(dst: Reg)
    | TruncI8(dst: Reg, src: Reg)
    | Store(src: Reg, addr: Reg)
    | Load(dst: Reg, addr: Reg)
    | SExt(dst: Reg, src: Reg)
    | PutChar(src: Reg)
    | Gep(dst: Reg, base: Reg, offset: int)
    | AddI8(dst: Reg, src: Reg, amount: Byte)
    | ICmpUge(dst: Reg, a: Reg, b: Reg)
    | ICmpUlt(dst: Reg, a: Reg, b: Reg)
    | OrI1(dst: Reg, a: Reg, b: Reg)
    | ICmpEqZero(dst: Reg, a: Reg)
    | PutsError
    | Free

  datatype Terminator = Open | Br(target: Label) | CondBr(test: Reg, ifTrue: Label, ifFalse: Label) | Ret

  /** A head phi: the register it defines and one incoming register per predecessor. */
  datatype Phi = NoPhi | Phi(dst: Reg, incoming: seq<(Label, Reg)>)

  datatype Block = Block(phi: Phi, instrs: seq<Instr>, term: Terminator)

  type Env = map<Reg, int>

  /** Stuck: the graph is not well formed where the run has got to. */
  datatype Config =
    | At(block: Label, pos: nat, env: Env, mem: Mem)
    | Returned(mem: Mem)
    | Faulted(mem: Mem)
    | Stuck

  datatype Effect = Next(env: Env, mem: Mem) | Fault(mem: Mem) | Bad

  /** A byte as the signed i8 that `sext` reads. */
  function Signed(b: int): int { if b >= 128 then b - 256 else b }

  function Bit(b: bool): int { if b then 1 else 0 }

  function Exec(i: Instr, env: Env, mem: Mem): Effect {
    match i
    case Malloc(d, n) => if n == |mem.tape| then Next(env[d := 0], mem) else Bad
    case MemSetZero(a, n) =>
      if a in env && env[a] == 0 && n == |mem.tape|
      then Next(env, mem.(tape := seq(n, _ => 0))) else Bad
    case GetChar(d) =>
      if mem.input == [] then Next(env[d := -1], mem)
      else Next(env[d := mem.input[0]], mem.(input := mem.input[1..]))
    case TruncI8(d, s) => if s in env then Next(env[d := env[s] % 256], mem) else Bad
    case Store(s, a) =>
      if s !in env || a !in env || !(0 <= env[s] < 256) then Bad
      else if 0 <= env[a] < |mem.tape| then Next(env, mem.(tape := mem.tape[env[a] := env[s]]))
      else Fault(mem)
    case Load(d, a) =>
      if a !in env then Bad
      else if 0 <= env[a] < |mem.tape| then Next(env[d := mem.tape[env[a]]], mem)
      else Fault(mem)
    case SExt(d, s) => if s in env then Next(env[d := Signed(env[s])], mem) else Bad
    case PutChar(s) =>
      if s in env then Next(env, mem.(output := mem.output + [env[s] % 256])) else Bad
    case Gep(d, b, k) => if b in env then Next(env[d := env[b] + k], mem) else Bad
    case AddI8(d, s, k) => if s in env then Next(env[d := (env[s] + k) % 256], mem) else Bad
    case ICmpUge(d, a, b) => if a in env && b in env then Next(env[d := Bit(env[a] >= env[b])], mem) else Bad
    case ICmpUlt(d, a, b) => if a in env && b in env then Next(env[d := Bit(env[a] < env[b])], mem) else Bad
    case OrI1(d, a, b) => if a in env && b in env then Next(env[d := Bit(env[a] != 0 || env[b] != 0)], mem) else Bad
    case ICmpEqZero(d, a) => if a in env then Next(env[d := Bit(env[a] == 0)], mem) else Bad
    case PutsError => Next(env, PrintError(mem))
    case Free => Next(env, mem)
  }

  function Incoming(incoming: seq<(Label, Reg)>, from: Label): (r: int)
    ensures r >= -1
  {
    if incoming == [] then -1
    else if incoming[0].0 == from then incoming[0].1
    else Incoming(incoming[1..], from)
  }

  /** Control passes along the edge from -> to; the target's phi picks its value by the edge. */
  function Enter(graph: seq<Block>, from: Label, to: Label, env: Env, mem: Mem): Config {
    if to >= |graph| then Stuck
    else
      match graph[to].phi
      case NoPhi => At(to, 0, env, mem)
      case Phi(d, incoming) =>
        var r := Incoming(incoming, from);
        if r >= 0 && r in env then At(to, 0, env[d := env[r]], mem) else Stuck
  }

  function Step(graph: seq<Block>, c: Config): Config {
    if !c.At? then c
    else if c.block >= |graph| then Stuck
    else
      var b := graph[c.block];
      if c.pos < |b.instrs| then
        match Exec(b.instrs[c.pos], c.env, c.mem)
        case Next(env, mem) => At(c.block, c.pos + 1, env, mem)
        case Fault(mem) => Config.Faulted(mem)
        case Bad => Stuck
      else
        match b.term
        case Open => Stuck
        case Br(t) => Enter(graph, c.block, t, c.env, c.mem)
        case CondBr(r, t, f) =>
          if r in c.env then Enter(graph, c.block, if c.env[r] != 0 then t else f, c.env, c.mem) else Stuck
        case Ret => Returned(c.mem)
  }

  function Steps(graph: seq<Block>, c: Config, n: nat): Config
    decreases n
  {
    if n == 0 then c else Steps(graph, Step(graph, c), n - 1)
  }

  lemma {:induction false} StepsAdd(graph: seq<Block>, c: Config, n: nat, k: nat)
    ensures Steps(graph, c, n + k) == Steps(graph, Steps(graph, c, n), k)
    decreases n
  {
    if n > 0 {
      StepsAdd(graph, Step(graph, c), n - 1, k);
    }
  }

  /** A halted run stays halted. */
  lemma {:induction false} HaltedStays(graph: seq<Block>, c: Config, n: nat)
    requires !c.At?
    ensures Steps(graph, c, n) == c
    decreases n
  {
    if n > 0 {
      HaltedStays(graph, c, n - 1);
    }
  }

  function ExecAll(instrs: seq<Instr>, env: Env, mem: Mem): Effect {
    if instrs == [] then Next(env, mem)
    else
      match Exec(instrs[0], env, mem)
      case Next(env1, mem1) => ExecAll(instrs[1..], env1, mem1)
      case e => e
  }

  /** Straight-line code inside a block: one step per instruction, unless one faults. */
  lemma {:induction false} StraightLine(graph: seq<Block>, b: Label, pos: nat, instrs: seq<Instr>, env: Env, mem: Mem)
    requires b < |graph| && pos + |instrs| <= |graph[b].instrs|
    requires graph[b].instrs[pos..pos + |instrs|] == instrs
    ensures var e := ExecAll(instrs, env, mem);
            var c := Steps(graph, At(b, pos, env, mem), |instrs|);
            && (e.Next? ==> c == At(b, pos + |instrs|, e.env, e.mem))
            && (e.Fault? ==> c == Config.Faulted(e.mem))
    decreases |instrs|
  {
    if instrs != [] {
      assert graph[b].instrs[pos] == graph[b].instrs[pos..pos + |instrs|][0] == instrs[0];
      assert graph[b].instrs[pos + 1..pos + |instrs|] == instrs[1..];
      match Exec(instrs[0], env, mem)
      case Next(env1, mem1) => StraightLine(graph, b, pos + 1, instrs[1..], env1, mem1);
      case Fault(mem1) => HaltedStays(graph, Config.Faulted(mem1), |instrs| - 1);
      case Bad =>
    }
  }

  lemma ExecAll3(a: Instr, b: Instr, c: Instr, env: Env, mem: Mem)
    ensures ExecAll([a, b, c], env, mem) ==
            match Exec(a, env, mem)
            case Next(env1, mem1) =>
              (match Exec(b, env1, mem1)
               case Next(env2, mem2) => Exec(c, env2, mem2)
               case e => e)
            case e => e
  {
    assert [a, b, c][1..] == [b, c] && [b, c][1..] == [c] && [c][1..] == [];
    hide Exec;
    forall env1, mem1 ensures ExecAll([c], env1, mem1) == Exec(c, env1, mem1) {
      var e := Exec(c, env1, mem1);
      if e.Next? { assert ExecAll([], e.env, e.mem) == e; }
    }
  }
}
