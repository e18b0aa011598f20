/** Run merging: maximal runs of `<`/`>` and of `+`/`-` become one net item each. */
module BrainFItems {
  import opened BrainFSource

  datatype Item = ReadI | WriteI | MoveI(n: int) | ChangeI(n: int) | LoopI(body: seq<Item>)

  function RunItems(items: seq<Item>, m: Machine, checked: bool, fuel: nat): (o: Outcome)
    ensures |o.m.mem.tape| == |m.mem.tape|
    decreases fuel, |items|, 1
  {
    if items == [] then Done(m)
    else
      match RunItem(items[0], m, checked, fuel)
      case Done(m1) => RunItems(items[1..], m1, checked, fuel)
      case o => o
  }

  function RunItem(item: Item, m: Machine, checked: bool, fuel: nat): (o: Outcome)
    ensures |o.m.mem.tape| == |m.mem.tape|
    decreases fuel, 1, 0
  {
    match item
    case MoveI(n) => Land(m.(head := m.head + n), checked)
    case ChangeI(n) => if m.OnTape() then Done(m.Put((m.Cell() + n) % 256)) else Faulted(m)
    case ReadI =>
      var (b, mem) := ReadByte(m.mem);
      var m1 := m.(mem := mem);
      if m1.OnTape() then Done(m1.Put(b)) else Faulted(m1)
    case WriteI =>
      if m.OnTape() then Done(m.(mem := m.mem.(output := m.mem.output + [m.Cell()]))) else Faulted(m)
    case LoopI(body) => RunLoopI(body, m, checked, fuel)
  }

  function RunLoopI(body: seq<Item>, m: Machine, checked: bool, fuel: nat): (o: Outcome)
    ensures |o.m.mem.tape| == |m.mem.tape|
    decreases fuel, 0, 0
  {
    if !m.OnTape() then Faulted(m)
    else if m.Cell() == 0 then Done(m)
    else if fuel == 0 then Unfinished(m)
    else
      match RunItems(body, m, checked, fuel - 1)
      case Done(m1) => RunLoopI(body, m1, checked, fuel - 1)
      case o => o
  }

  /** The item a single command stands for. */
  function ItemOf(c: Cmd): Item {
    match c
    case Left => MoveI(-1)
    case Right => MoveI(1)
    case Inc => ChangeI(1)
    case Dec => ChangeI(-1)
    case Read => ReadI
    case Write => WriteI
    case Loop(body) => LoopI(Merge(body))
  }

  /** Two neighbouring items: two moves or two changes become one. */
  function Glue(a: Item, b: Item): seq<Item> {
    match (a, b)
    case (MoveI(p), MoveI(q)) => [MoveI(p + q)]
    case (ChangeI(p), ChangeI(q)) => [ChangeI(p + q)]
    case _ => [a, b]
  }

  /** Puts one item in front of merged items. */
  function Cons(i: Item, items: seq<Item>): seq<Item> {
    if items == [] then [i] else Glue(i, items[0]) + items[1..]
  }

  function Merge(cmds: seq<Cmd>): (items: seq<Item>) {
    if cmds == [] then [] else Cons(ItemOf(cmds[0]), Merge(cmds[1..]))
  }

  lemma MergeHead(cmds: seq<Cmd>)
    ensures cmds == [] <==> Merge(cmds) == []
    ensures cmds != [] ==> (cmds[0].IsMove() <==> Merge(cmds)[0].MoveI?)
    ensures cmds != [] ==> (cmds[0].IsChange() <==> Merge(cmds)[0].ChangeI?)
  {
  }

  /** Merging keeps the meaning of every program, bounds checks and faults included. */
  lemma {:induction false} MergeCorrect(cmds: seq<Cmd>, m: Machine, checked: bool, fuel: nat)
    ensures RunItems(Merge(cmds), m, checked, fuel) == Run(cmds, m, checked, fuel)
    decreases fuel, |cmds|, 1
  {
    hide Cons, Glue;
    if cmds != [] {
      var rest := cmds[1..];
      var o := RunOne(cmds, m, checked, fuel);
      if o.Done? { MergeCorrect(rest, o.m, checked, fuel); }
      MergeHead(rest);
      match cmds[0]
      case Left => ConsMove(-1, Merge(rest), m, checked, fuel);
      case Right => ConsMove(1, Merge(rest), m, checked, fuel);
      case Inc => ConsChange(1, Merge(rest), m, checked, fuel);
      case Dec => ConsChange(-1, Merge(rest), m, checked, fuel);
      case Read => ConsPlain(ReadI, Merge(rest), m, checked, fuel);
      case Write => ConsPlain(WriteI, Merge(rest), m, checked, fuel);
      case Loop(body) =>
        ConsPlain(LoopI(Merge(body)), Merge(rest), m, checked, fuel);
        MergeLoop(body, m, checked, fuel);
    }
  }

  lemma {:induction false} MergeLoop(body: seq<Cmd>, m: Machine, checked: bool, fuel: nat)
    ensures RunLoopI(Merge(body), m, checked, fuel) == RunLoop(body, m, checked, fuel)
    decreases fuel, 0, 0
  {
    if m.OnTape() && m.Cell() != 0 && fuel > 0 {
      MergeCorrect(body, m, checked, fuel - 1);
      var o := Run(body, m, checked, fuel - 1);
      if o.Done? {
        MergeLoop(body, o.m, checked, fuel - 1);
      }
    }
  }

  lemma RunItemsFront(i: Item, rest: seq<Item>, m: Machine, checked: bool, fuel: nat)
    ensures RunItems([i] + rest, m, checked, fuel) ==
            var o := RunItem(i, m, checked, fuel);
            if o.Done? then RunItems(rest, o.m, checked, fuel) else o
  {
    assert ([i] + rest)[1..] == rest;
  }

  lemma ConsPlain(i: Item, rest: seq<Item>, m: Machine, checked: bool, fuel: nat)
    requires !i.MoveI? && !i.ChangeI?
    ensures RunItems(Cons(i, rest), m, checked, fuel) ==
            var o := RunItem(i, m, checked, fuel);
            if o.Done? then RunItems(rest, o.m, checked, fuel) else o
  {
    assert Cons(i, rest) == [i] + rest;
    RunItemsFront(i, rest, m, checked, fuel);
  }

  /** A move in front of a run only checks the end of the longer run. */
  lemma ConsMove(d: int, items: seq<Item>, m: Machine, checked: bool, fuel: nat)
    ensures var m1 := m.(head := m.head + d);
            var endOfRun := items == [] || !items[0].MoveI?;
            var o := Land(m1, checked && endOfRun);
            RunItems(Cons(MoveI(d), items), m, checked, fuel) ==
            if o.Done? then RunItems(items, m1, checked, fuel) else o
  {
    if items != [] && items[0].MoveI? {
      RunItemsFront(MoveI(d + items[0].n), items[1..], m, checked, fuel);
    } else {
      assert Cons(MoveI(d), items) == [MoveI(d)] + items;
      RunItemsFront(MoveI(d), items, m, checked, fuel);
    }
  }

  lemma PutTwice(m: Machine, d: int, n: int)
    requires m.OnTape()
    ensures var m1 := m.Put((m.Cell() + d) % 256);
            m1.OnTape() && m1.Put((m1.Cell() + n) % 256) == m.Put((m.Cell() + (d + n)) % 256)
  {
    assert ((m.Cell() + d) % 256 + n) % 256 == (m.Cell() + (d + n)) % 256;
  }

  /** Adding d and then n modulo 256 is adding d + n modulo 256. */
  lemma ConsChange(d: int, items: seq<Item>, m: Machine, checked: bool, fuel: nat)
    ensures RunItems(Cons(ChangeI(d), items), m, checked, fuel) ==
            if m.OnTape() then RunItems(items, m.Put((m.Cell() + d) % 256), checked, fuel) else Faulted(m)
  {
    hide RunItem, RunItems;
    if items != [] && items[0].ChangeI? {
      var n := items[0].n;
      assert items == [ChangeI(n)] + items[1..];
      ChangeThen(d + n, items[1..], m, checked, fuel);
      if m.OnTape() {
        PutTwice(m, d, n);
        ChangeThen(n, items[1..], m.Put((m.Cell() + d) % 256), checked, fuel);
      }
    } else {
      assert Cons(ChangeI(d), items) == [ChangeI(d)] + items;
      ChangeThen(d, items, m, checked, fuel);
    }
  }

  lemma ChangeThen(d: int, rest: seq<Item>, m: Machine, checked: bool, fuel: nat)
    ensures RunItems([ChangeI(d)] + rest, m, checked, fuel) ==
            if m.OnTape() then RunItems(rest, m.Put((m.Cell() + d) % 256), checked, fuel) else Faulted(m)
  {
    RunItemsFront(ChangeI(d), rest, m, checked, fuel);
  }

  // ----- merging while reading left to right, as the parser does -----

  /** Appends one item to merged items. */
  function Snoc(items: seq<Item>, i: Item): seq<Item> {
    if items == [] then [i] else items[..|items| - 1] + Glue(items[|items| - 1], i)
  }

  lemma ConsFront(x: Item, i: Item, s: seq<Item>)
    ensures Cons(x, [i] + s) == Glue(x, i) + s
  {
    assert ([i] + s)[1..] == s;
  }

  lemma SnocBack(s: seq<Item>, i: Item, y: Item)
    ensures Snoc(s + [i], y) == s + Glue(i, y)
  {
    assert (s + [i])[..|s|] == s;
  }

  lemma GlueBothSides(x: Item, i: Item, y: Item)
    ensures Cons(x, Glue(i, y)) == Snoc(Glue(x, i), y)
  {
    if |Glue(i, y)| == 2 {
      assert Cons(x, Glue(i, y)) == Glue(x, i) + [y];
    } else {
      assert Cons(x, Glue(i, y)) == Glue(x, Glue(i, y)[0]);
    }
    if |Glue(x, i)| == 2 {
      assert Snoc(Glue(x, i), y) == [x] + Glue(i, y);
    } else {
      assert Snoc(Glue(x, i), y) == Glue(Glue(x, i)[0], y);
    }
  }

  lemma ConsSnocMany(x: Item, a: Item, mid: seq<Item>, b: Item, y: Item)
    ensures Cons(x, Snoc([a] + (mid + [b]), y)) == Snoc(Cons(x, [a] + (mid + [b])), y)
  {
    hide Glue, Merge, ItemOf, Cons, Snoc;
    assert [a] + (mid + [b]) == ([a] + mid) + [b];
    SnocBack([a] + mid, b, y);
    assert ([a] + mid) + Glue(b, y) == [a] + (mid + Glue(b, y));
    ConsFront(x, a, mid + Glue(b, y));
    ConsFront(x, a, mid + [b]);
    assert Glue(x, a) + (mid + [b]) == (Glue(x, a) + mid) + [b];
    SnocBack(Glue(x, a) + mid, b, y);
    assert Glue(x, a) + (mid + Glue(b, y)) == (Glue(x, a) + mid) + Glue(b, y);
  }

  lemma ConsSnoc(x: Item, items: seq<Item>, y: Item)
    ensures Cons(x, Snoc(items, y)) == Snoc(Cons(x, items), y)
  {
    hide Glue, Merge, ItemOf;
    if |items| > 1 {
      var k := |items| - 1;
      assert items == [items[0]] + (items[1..k] + [items[k]]);
      ConsSnocMany(x, items[0], items[1..k], items[k], y);
    } else if |items| == 1 {
      var i := items[0];
      assert items == [i] && items[..0] == [] && items[1..] == [];
      assert Snoc(items, y) == [] + Glue(i, y) == Glue(i, y);
      assert Cons(x, items) == Glue(x, i) + [] == Glue(x, i);
      GlueBothSides(x, i, y);
    } else {
      assert Cons(x, [y]) == Glue(x, y) + [y][1..];
    }
  }

  lemma {:induction false} MergeSnoc(cmds: seq<Cmd>, c: Cmd)
    ensures Merge(cmds + [c]) == Snoc(Merge(cmds), ItemOf(c))
  {
    if cmds == [] {
      assert cmds + [c] == [c] && [c][1..] == [];
      assert Merge([c]) == Cons(ItemOf(c), Merge([]));
    } else {
      assert (cmds + [c])[1..] == cmds[1..] + [c];
      MergeSnoc(cmds[1..], c);
      ConsSnoc(ItemOf(cmds[0]), Merge(cmds[1..]), ItemOf(c));
    }
  }

  /** With bounds checking, a head that starts on the tape is on it at every
      load and store. */
  lemma {:induction false} CheckedNeverFaults(items: seq<Item>, m: Machine, fuel: nat)
    requires m.OnTape()
    ensures var o := RunItems(items, m, true, fuel); !o.Faulted? && (o.Done? ==> o.m.OnTape())
    decreases fuel, |items|, 1
  {
    if items != [] {
      if items[0].LoopI? {
        CheckedLoopNeverFaults(items[0].body, m, fuel);
      }
      var o := RunItem(items[0], m, true, fuel);
      if o.Done? {
        CheckedNeverFaults(items[1..], o.m, fuel);
      }
    }
  }

  lemma {:induction false} CheckedLoopNeverFaults(body: seq<Item>, m: Machine, fuel: nat)
    requires m.OnTape()
    ensures var o := RunLoopI(body, m, true, fuel); !o.Faulted? && (o.Done? ==> o.m.OnTape())
    decreases fuel, 0, 0
  {
    if m.Cell() != 0 && fuel > 0 {
      CheckedNeverFaults(body, m, fuel - 1);
      var o := RunItems(body, m, true, fuel - 1);
      if o.Done? {
        CheckedLoopNeverFaults(body, o.m, fuel - 1);
      }
    }
  }
}
