/** The BrainF language: its text, its programs, and a direct interpreter that
    knows nothing about run merging, basic blocks or registers. */
module BrainFSource {

  type Byte = x: int | 0 <= x < 256

  /** What a running program reads and writes, apart from the position of the head. */
  datatype Mem = Mem(tape: seq<Byte>, input: seq<Byte>, output: seq<Byte>)

  datatype Machine = Machine(mem: Mem, head: int) {
    predicate OnTape() { 0 <= head < |mem.tape| }

    function Cell(): Byte
      requires OnTape()
    {
      mem.tape[head]
    }

    function Put(b: Byte): Machine
      requires OnTape()
    {
      this.(mem := mem.(tape := mem.tape[head := b]))
    }
  }

  datatype Cmd = Left | Right | Inc | Dec | Read | Write | Loop(body: seq<Cmd>) {
    predicate IsMove() { Left? || Right? }
    predicate IsChange() { Inc? || Dec? }
  }

  /** Stopped: the bounds check fired and its message was printed.
      Faulted: a load or store touched a cell outside the tape.
      Unfinished: some loop was still running when the fuel ran out. */
  datatype Outcome = Done(m: Machine) | Stopped(m: Machine) | Faulted(m: Machine) | Unfinished(m: Machine)

  const ABERROR_MESSAGE := "Error: The head has left the tape."

  /** What `puts` writes for the error message: its bytes and a newline. */
  function PutsText(): seq<Byte> {
    seq(|ABERROR_MESSAGE|, i requires 0 <= i < |ABERROR_MESSAGE| => (ABERROR_MESSAGE[i] as int) % 256) + [10]
  }

  function PrintError(mem: Mem): Mem { mem.(output := mem.output + PutsText()) }

  /** The net end of a run of moves; with bounds checking the run stops the
      program when that end is off the tape. */
  function Land(m: Machine, check: bool): Outcome {
    if check && !m.OnTape() then Stopped(m.(mem := PrintError(m.mem))) else Done(m)
  }

  function ReadByte(mem: Mem): (Byte, Mem) {
    if mem.input == [] then (255, mem) else (mem.input[0], mem.(input := mem.input[1..]))
  }

  // ----- the direct interpreter -----

  function Run(cmds: seq<Cmd>, m: Machine, checked: bool, fuel: nat): (o: Outcome)
    ensures |o.m.mem.tape| == |m.mem.tape|
    decreases fuel, |cmds|, 1
  {
    if cmds == [] then Done(m)
    else
      match RunOne(cmds, m, checked, fuel)
      case Done(m1) => Run(cmds[1..], m1, checked, fuel)
      case o => o
  }

  /** Runs the first command. A move is the end of its run when no move follows it. */
  function RunOne(cmds: seq<Cmd>, m: Machine, checked: bool, fuel: nat): (o: Outcome)
    requires cmds != []
    ensures |o.m.mem.tape| == |m.mem.tape|
    decreases fuel, |cmds|, 0
  {
    var endOfRun := |cmds| == 1 || !cmds[1].IsMove();
    match cmds[0]
    case Left => Land(m.(head := m.head - 1), checked && endOfRun)
    case Right => Land(m.(head := m.head + 1), checked && endOfRun)
    case Inc => if m.OnTape() then Done(m.Put((m.Cell() + 1) % 256)) else Faulted(m)
    case Dec => if m.OnTape() then Done(m.Put((m.Cell() - 1) % 256)) else Faulted(m)
    case Read =>
      var (b, mem) := ReadByte(m.mem);
      var m1 := m.(mem := mem);
      if m1.OnTape() then Done(m1.Put(b)) else Faulted(m1)
    case Write =>
      if m.OnTape() then Done(m.(mem := m.mem.(output := m.mem.output + [m.Cell()]))) else Faulted(m)
    case Loop(body) => RunLoop(body, m, checked, fuel)
  }

  function RunLoop(body: seq<Cmd>, m: Machine, checked: bool, fuel: nat): (o: Outcome)
    ensures |o.m.mem.tape| == |m.mem.tape|
    decreases fuel, 0, 0
  {
    if !m.OnTape() then Faulted(m)
    else if m.Cell() == 0 then Done(m)
    else if fuel == 0 then Unfinished(m)
    else
      match Run(body, m, checked, fuel - 1)
      case Done(m1) => RunLoop(body, m1, checked, fuel - 1)
      case o => o
  }

  // ----- what a stopped program has printed -----

  /** The output ends with the bytes of this line and a newline. */
  predicate EndsWithLine(output: seq<Byte>, line: string) {
    && |output| > |line| && output[|output| - 1] == 10
    && forall i :: 0 <= i < |line| ==> output[|output| - |line| - 1 + i] == line[i] as int
  }

  lemma MessagePrinted(mem: Mem)
    ensures EndsWithLine(PrintError(mem).output, "Error: The head has left the tape.")
  {
    AsciiMessage();
    LineAppended(mem.output, ABERROR_MESSAGE, PutsText());
  }

  lemma AsciiMessage()
    ensures forall i :: 0 <= i < |ABERROR_MESSAGE| ==> ABERROR_MESSAGE[i] <= 'z'
  {
  }

  lemma LineAppended(output: seq<Byte>, line: string, bytes: seq<Byte>)
    requires |bytes| == |line| + 1 && bytes[|line|] == 10
    requires forall i :: 0 <= i < |line| ==> bytes[i] == line[i] as int % 256 && line[i] <= 'z'
    ensures EndsWithLine(output + bytes, line)
  {
    forall i | 0 <= i < |line| ensures bytes[i] == line[i] as int {
      SmallChar(line[i]);
    }
  }

  lemma SmallChar(c: char)
    requires c <= 'z'
    ensures c as int % 256 == c as int
  {
  }

  /** A program is stopped only with bounds checks and with the head off the tape, and the last thing it
      has written is the message and a newline. */
  lemma {:induction false} StoppedPrints(cmds: seq<Cmd>, m: Machine, checked: bool, fuel: nat)
    ensures var o := Run(cmds, m, checked, fuel);
            o.Stopped? ==>
              checked && !o.m.OnTape() && EndsWithLine(o.m.mem.output, "Error: The head has left the tape.")
    decreases fuel, |cmds|, 1
  {
    hide EndsWithLine, PrintError;
    if cmds != [] {
      match cmds[0] {
        case Left => MessagePrinted(m.mem);
        case Right => MessagePrinted(m.mem);
        case Loop(body) => LoopStoppedPrints(body, m, checked, fuel);
        case _ =>
      }
      var o := RunOne(cmds, m, checked, fuel);
      if o.Done? { StoppedPrints(cmds[1..], o.m, checked, fuel); }
    }
  }

  lemma {:induction false} LoopStoppedPrints(body: seq<Cmd>, m: Machine, checked: bool, fuel: nat)
    ensures var o := RunLoop(body, m, checked, fuel);
            o.Stopped? ==>
              checked && !o.m.OnTape() && EndsWithLine(o.m.mem.output, "Error: The head has left the tape.")
    decreases fuel, 0, 0
  {
    hide EndsWithLine, PrintError;
    if m.OnTape() && m.Cell() != 0 && fuel > 0 {
      StoppedPrints(body, m, checked, fuel - 1);
      var o := Run(body, m, checked, fuel - 1);
      if o.Done? { LoopStoppedPrints(body, o.m, checked, fuel - 1); }
    }
  }

  // ----- program text -----

  predicate IsCommand(c: char) {
    c == '+' || c == '-' || c == '<' || c == '>' || c == ',' || c == '.' || c == '[' || c == ']'
  }

  /** The text without the characters the language ignores. */
  function Commands(text: string): string {
    if text == "" then ""
    else Keep(text[0]) + Commands(text[1..])
  }

  function Keep(c: char): string { if IsCommand(c) then [c] else "" }

  function Flatten(cmds: seq<Cmd>): string {
    if cmds == [] then "" else FlattenOne(cmds[0]) + Flatten(cmds[1..])
  }

  function FlattenOne(cmd: Cmd): string {
    match cmd
    case Left => "<"
    case Right => ">"
    case Inc => "+"
    case Dec => "-"
    case Read => ","
    case Write => "."
    case Loop(body) => "[" + Flatten(body) + "]"
  }

  function Weight(c: char): int { if c == '[' then 1 else if c == ']' then -1 else 0 }

  /** How many more `[` than `]`. */
  function Depth(s: string): int {
    if s == "" then 0 else Depth(s[..|s| - 1]) + Weight(s[|s| - 1])
  }

  ghost predicate Balanced(s: string) {
    Depth(s) == 0 && forall i :: 0 <= i <= |s| ==> Depth(s[..i]) >= 0
  }

  lemma {:induction false} DepthConcat(a: string, b: string)
    ensures Depth(a + b) == Depth(a) + Depth(b)
    decreases |b|
  {
    if b == "" {
      assert a + b == a;
    } else {
      assert (a + b)[..|a + b| - 1] == a + b[..|b| - 1];
      DepthConcat(a, b[..|b| - 1]);
    }
  }

  lemma BalancedConcat(a: string, b: string)
    requires Balanced(a) && Balanced(b)
    ensures Balanced(a + b)
  {
    DepthConcat(a, b);
    forall i | 0 <= i <= |a + b| ensures Depth((a + b)[..i]) >= 0 {
      if i <= |a| {
        assert (a + b)[..i] == a[..i];
      } else {
        assert (a + b)[..i] == a + b[..i - |a|];
        DepthConcat(a, b[..i - |a|]);
      }
    }
  }

  lemma BalancedBracket(a: string)
    requires Balanced(a)
    ensures Balanced("[" + a + "]")
  {
    var s := "[" + a + "]";
    DepthConcat("[", a);
    DepthConcat("[" + a, "]");
    assert Depth("[") == 1 && Depth("]") == -1 by {
      assert "["[..0] == "" && "]"[..0] == "";
    }
    forall i | 0 <= i <= |s| ensures Depth(s[..i]) >= 0 {
      if i == 0 {
      } else if i <= 1 + |a| {
        assert s[..i] == "[" + a[..i - 1];
        DepthConcat("[", a[..i - 1]);
      } else {
        assert s[..i] == s;
      }
    }
  }

  lemma {:induction false} FlattenBalanced(cmds: seq<Cmd>)
    ensures Balanced(Flatten(cmds))
  {
    if cmds != [] {
      FlattenOneBalanced(cmds[0]);
      FlattenBalanced(cmds[1..]);
      BalancedConcat(FlattenOne(cmds[0]), Flatten(cmds[1..]));
    }
  }

  lemma {:induction false} FlattenOneBalanced(cmd: Cmd)
    ensures Balanced(FlattenOne(cmd))
  {
    if cmd.Loop? {
      FlattenBalanced(cmd.body);
      BalancedBracket(Flatten(cmd.body));
    } else {
      var s := FlattenOne(cmd);
      assert |s| == 1 && s[..0] == "" && Depth(s[..0]) == 0;
      assert s[..1] == s;
    }
  }

  lemma {:induction false} FlattenConcat(a: seq<Cmd>, b: seq<Cmd>)
    ensures Flatten(a + b) == Flatten(a) + Flatten(b)
  {
    if a == [] {
      assert a + b == b;
    } else {
      assert (a + b)[1..] == a[1..] + b;
      FlattenConcat(a[1..], b);
    }
  }

  lemma FlattenSnoc(a: seq<Cmd>, c: Cmd)
    ensures Flatten(a + [c]) == Flatten(a) + FlattenOne(c)
  {
    FlattenConcat(a, [c]);
    assert Flatten([c]) == FlattenOne(c) + Flatten([]);
  }

  predicate Closing(s: string) { s == "" || s[0] == ']' }

  lemma Bracketed(body: string, rest: string)
    ensures (("[" + body + "]") + rest)[1..] == body + ("]" + rest)
  {
    var t := ("[" + body + "]") + rest;
    assert t == ["["[0]] + (body + ("]" + rest));
  }

  lemma FlattenFront(a: seq<Cmd>, r: string)
    requires a != []
    ensures Flatten(a) + r == FlattenOne(a[0]) + (Flatten(a[1..]) + r)
    ensures |FlattenOne(a[0])| > 0 && (Flatten(a) + r)[0] == FlattenOne(a[0])[0] && (Flatten(a) + r)[0] != ']'
    ensures (Flatten(a) + r)[1..] == if a[0].Loop? then Flatten(a[0].body) + ("]" + (Flatten(a[1..]) + r))
                                     else Flatten(a[1..]) + r
  {
    var f, rest := FlattenOne(a[0]), Flatten(a[1..]);
    assert Flatten(a) == f + rest && |f| > 0 && f[0] != ']';
    assert (f + rest) + r == f + (rest + r);
    if a[0].Loop? {
      Bracketed(Flatten(a[0].body), rest + r);
    } else {
      assert |f| == 1 && (f + (rest + r))[1..] == rest + r;
    }
  }

  lemma NoCommands(r: string)
    ensures Flatten([]) + r == r
  {
  }

  lemma FirstChar(c: Cmd, d: Cmd)
    requires |FlattenOne(c)| > 0 && |FlattenOne(d)| > 0 && FlattenOne(c)[0] == FlattenOne(d)[0]
    ensures if c.Loop? then d.Loop? else c == d
  {
  }

  /** A text is the text of at most one program. */
  lemma {:induction false} FlattenUnique(a: seq<Cmd>, r: string, b: seq<Cmd>, s: string)
    requires Closing(r) && Closing(s)
    requires Flatten(a) + r == Flatten(b) + s
    ensures a == b && r == s
    decreases a
  {
    hide Flatten, FlattenOne;
    NoCommands(r);
    NoCommands(s);
    if a != [] { FlattenFront(a, r); }
    if b != [] { FlattenFront(b, s); }
    if a != [] && b != [] {
      FirstChar(a[0], b[0]);
      var ra, rb := Flatten(a[1..]) + r, Flatten(b[1..]) + s;
      if a[0].Loop? {
        FlattenUnique(a[0].body, "]" + ra, b[0].body, "]" + rb);
        assert ra == ("]" + ra)[1..] == ("]" + rb)[1..] == rb;
      }
      FlattenUnique(a[1..], r, b[1..], s);
      assert a == [a[0]] + a[1..] && b == [b[0]] + b[1..];
    }
  }

  /** Characters that are not commands are comments, wherever they stand. */
  lemma {:induction false} CommandsSnoc(text: string, c: char)
    ensures Commands(text + [c]) == Commands(text) + Keep(c)
  {
    hide Keep;
    if text == "" {
      assert text + [c] == [c] && [c][1..] == "";
      assert Keep(c) + "" == Keep(c) == "" + Keep(c);
    } else {
      assert (text + [c])[1..] == text[1..] + [c];
      CommandsSnoc(text[1..], c);
      var k := Keep(text[0]);
      assert k + (Commands(text[1..]) + Keep(c)) == (k + Commands(text[1..])) + Keep(c);
    }
  }
}
