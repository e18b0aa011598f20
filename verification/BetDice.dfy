/** The house dice contract: bets against the house, a liabilities counter and a win limit.
    All amounts are 64-bit words and wrap around. */
module BetDice {
  import opened TableSums
  import opened Options
  import opened PowersOfTwo

  const U64: nat := 0x1_0000_0000_0000_0000
  const MAX_AMOUNT: int := 0x3FFF_FFFF_FFFF_FFFF
  const MINBET: nat := 1000
  const HOUSE_EDGE: nat := 200
  const HOUSE_EDGE_REF: nat := 150

  datatype Bet = Bet(id: nat, bettor: nat, referral: nat, amount: nat, rollUnder: nat)

  /** The four counters that initcontract creates. */
  datatype Globals = Globals(betCount: nat, totalBet: nat, totalWon: nat, liabilities: nat)

  datatype State = State(globals: Option<Globals>, bets: map<nat, Bet>)

  /** The accounts of the contract and of the casino. */
  datatype Parties = Parties(self: nat, casino: nat)

  function Plus(x: nat, y: nat): nat { (x + y) % U64 }

  function Minus(x: nat, y: nat): nat { (x - y) % U64 }

  /** A 64-bit word as an amount. */
  function Signed(x: nat): int { if x >= U64 / 2 then x - U64 else x }

  predicate InRange(amount: int) { -MAX_AMOUNT <= amount <= MAX_AMOUNT }

  /** get_payout_mult_times10000 */
  function Multiplier(rollUnder: nat, edge: nat): nat
    requires rollUnder >= 2 && edge <= 10000
  {
    ((10000 - edge) * 100) / (rollUnder - 1)
  }

  /** The payout of a win, as the contract computes it. */
  function Payout(amount: nat, rollUnder: nat, edge: nat): nat
    requires rollUnder >= 2 && edge <= 10000
  {
    (Product(amount, Multiplier(rollUnder, edge)) % U64) / 10000
  }

  /** get_max_win, from the token balance of the contract. */
  function MaxWin(balance: nat, liabilities: nat): nat { Minus(balance, liabilities) / 25 }

  // ----- actions -----

  datatype Action =
    | Init
    | Transfer(from: nat, quantity: int, rollUnder: nat, possibleRef: nat, refExists: bool, balance: nat, betId: nat)
    | Resolve(betId: nat, roll: nat)
    | Suspend(betId: nat)

  function HasReferral(p: Parties, a: Action): bool
    requires a.Transfer?
  {
    a.possibleRef != p.self && a.possibleRef != a.from && a.refExists
  }

  /** The edge that the win limit is checked with. */
  function EdgeAtPlacement(p: Parties, a: Action): nat
    requires a.Transfer?
  {
    if HasReferral(p, a) then HOUSE_EDGE_REF else HOUSE_EDGE
  }

  /** The edge that the payout is computed with. */
  function EdgeOf(p: Parties, bet: Bet): nat { if bet.referral != p.casino then HOUSE_EDGE_REF else HOUSE_EDGE }

  function BetOf(p: Parties, a: Action): Bet
    requires a.Transfer?
  {
    Bet(a.betId, a.from, if HasReferral(p, a) then a.possibleRef else p.casino, a.quantity % U64, a.rollUnder)
  }

  function PayoutOf(p: Parties, bet: Bet, roll: nat): nat
    requires bet.rollUnder >= 2
  {
    if roll < bet.rollUnder then Payout(bet.amount, bet.rollUnder, EdgeOf(p, bet)) else 0
  }

  /** The state after an action; None when a check fails. */
  function Perform(p: Parties, s: State, a: Action): Option<State> {
    match a
    case Init => if s.globals.Some? then None else Some(s.(globals := Some(Globals(0, 0, 0, 0))))
    case Transfer(from, quantity, rollUnder, _, _, balance, betId) =>
      if from == p.self || from == p.casino then Some(s)
      else if !InRange(quantity) || quantity % U64 < MINBET || s.globals.None? || rollUnder < 2
        || rollUnder > 96 then None
      else
        var bet := BetOf(p, a);
        var g := s.globals.value.(betCount := Plus(s.globals.value.betCount, 1),
                                  liabilities := Plus(s.globals.value.liabilities, bet.amount));
        var win := Minus(Payout(bet.amount, rollUnder, EdgeAtPlacement(p, a)), bet.amount);
        if win > MaxWin(balance, g.liabilities) || betId in s.bets then None
        else Some(State(Some(g), s.bets[betId := bet]))
    case Resolve(betId, roll) =>
      if betId !in s.bets || s.globals.None? || s.bets[betId].rollUnder < 2 then None
      else
        var bet := s.bets[betId];
        var payout := PayoutOf(p, bet, roll);
        if !InRange(Signed(bet.amount)) || !InRange(Signed(payout)) then None
        else Some(State(Some(Settled(s.globals.value, bet.amount, payout)), s.bets - {betId}))
    case Suspend(betId) =>
      if betId !in s.bets || s.globals.None? || !InRange(Signed(s.bets[betId].amount)) then None
      else
        var g := s.globals.value;
        Some(State(Some(g.(liabilities := Minus(g.liabilities, s.bets[betId].amount))), s.bets - {betId}))
  }

  function Settled(g: Globals, amount: nat, payout: nat): Globals {
    g.(totalBet := Plus(g.totalBet, amount),
       totalWon := if payout > 0 then Plus(g.totalWon, payout) else g.totalWon,
       liabilities := Minus(g.liabilities, amount))
  }

  function Step(p: Parties, s: State, a: Action): State {
    var r := Perform(p, s, a);
    if r.Some? then r.value else s
  }

  function Run(p: Parties, actions: seq<Action>): State {
    if actions == [] then State(None, map[]) else Step(p, Run(p, actions[..|actions| - 1]), actions[|actions| - 1])
  }

  // ----- liabilities -----

  function Amounts(bets: map<nat, Bet>): map<nat, int> { map i | i in bets :: bets[i].amount }

  ghost predicate Inv(s: State) {
    && (s.globals.None? ==> s.bets == map[])
    && (s.globals.Some? ==> s.globals.value.liabilities == Sum(Amounts(s.bets)) % U64)
    && forall i :: i in s.bets ==>
         && s.bets[i].id == i && MINBET <= s.bets[i].amount < U64 && InRange(Signed(s.bets[i].amount))
         && 2 <= s.bets[i].rollUnder <= 96
  }

  lemma ModPlus(x: int, y: int)
    ensures (x % U64 + y) % U64 == (x + y) % U64
  {
  }

  lemma ModMinus(x: int, y: int)
    ensures (x % U64 - y) % U64 == (x - y) % U64
  {
  }

  lemma AddBet(bets: map<nat, Bet>, i: nat, bet: Bet)
    requires i !in bets
    ensures Sum(Amounts(bets[i := bet])) == Sum(Amounts(bets)) + bet.amount
  {
    SumPut(Amounts(bets), i, bet.amount);
    assert Amounts(bets[i := bet]) == Amounts(bets)[i := bet.amount];
  }

  lemma RemoveBet(bets: map<nat, Bet>, i: nat)
    requires i in bets
    ensures Sum(Amounts(bets - {i})) == Sum(Amounts(bets)) - bets[i].amount
  {
    SumDrop(Amounts(bets), i);
    assert Amounts(bets - {i}) == Amounts(bets) - {i};
  }

  lemma SignedAmount(quantity: int)
    requires InRange(quantity)
    ensures Signed(quantity % U64) == quantity
  {
  }

  lemma StepKeeps(p: Parties, s: State, a: Action)
    requires Inv(s)
    ensures Inv(Step(p, s, a))
  {
    hide Sum, Payout, Signed;
    var r := Perform(p, s, a);
    if r.Some? {
      match a
      case Init => NoBets();
      case Transfer(_, quantity, _, _, _, _, betId) =>
        if r.value != s && betId !in s.bets {
          SignedAmount(quantity);
          AddBet(s.bets, betId, BetOf(p, a));
          ModPlus(Sum(Amounts(s.bets)), quantity % U64);
        }
      case Resolve(betId, _) =>
        RemoveBet(s.bets, betId);
        ModMinus(Sum(Amounts(s.bets)), s.bets[betId].amount);
      case Suspend(betId) =>
        RemoveBet(s.bets, betId);
        ModMinus(Sum(Amounts(s.bets)), s.bets[betId].amount);
    }
  }

  lemma NoBets()
    ensures Sum(Amounts(map[])) == 0
  {
    assert Amounts(map[]) == map[];
  }

  /** In every run the liabilities are the sum of the active bets, as 64-bit words are added. */
  lemma {:induction false} RunKeeps(p: Parties, actions: seq<Action>)
    ensures Inv(Run(p, actions))
  {
    if actions != [] {
      RunKeeps(p, actions[..|actions| - 1]);
      StepKeeps(p, Run(p, actions[..|actions| - 1]), actions[|actions| - 1]);
    }
  }

  lemma LiabilitiesExact(p: Parties, actions: seq<Action>)
    requires Run(p, actions).globals.Some? && 0 <= Sum(Amounts(Run(p, actions).bets)) < U64
    ensures Run(p, actions).globals.value.liabilities == Sum(Amounts(Run(p, actions).bets))
  {
    hide Run, Sum;
    RunKeeps(p, actions);
  }

  /** In every run, an active bet is never stuck: suspending it goes through. */
  lemma SuspendWorks(p: Parties, actions: seq<Action>, betId: nat)
    ensures Perform(p, Run(p, actions), Suspend(betId)).Some? <==> betId in Run(p, actions).bets
  {
    RunKeeps(p, actions);
  }

  // ----- what the actions do -----

  /** Someone other than the contract and the bettor is named as referrer. */
  predicate NamesReferrer(p: Parties, a: Action)
    requires a.Transfer?
  {
    a.refExists && a.possibleRef != p.self && a.possibleRef != a.from
  }

  /** What the placing of a bet is checked with: the multiplier, the payout of a win, and the win limit. */
  predicate Terms(p: Parties, s: State, a: Action, m: nat, payout: nat, limit: nat)
    requires a.Transfer? && s.globals.Some?
  {
    && FairMultiplier(m, a.rollUnder, if NamesReferrer(p, a) then 150 else 200)
    && 10000 * payout <= Product(a.quantity % U64, m) % U64 < 10000 * (payout + 1)
    && 25 * limit <= (a.balance - s.globals.value.liabilities - a.quantity % U64) % U64 < 25 * (limit + 1)
  }

  /** A bet is placed exactly when its amount is an asset amount and reaches the minimum, the roll is between
      2 and 96, its win, as a 64-bit difference, is within the limit, and its number is new. Then it is
      added to the table, and its amount to the liabilities. */
  lemma PlaceSettles(p: Parties, s: State, a: Action, m: nat, payout: nat, limit: nat)
    requires a.Transfer? && a.from != p.self && a.from != p.casino
    requires s.globals.Some? && a.rollUnder >= 2 ==> Terms(p, s, a, m, payout, limit)
    ensures Perform(p, s, a).Some? <==>
              && s.globals.Some? && -0x3FFF_FFFF_FFFF_FFFF <= a.quantity <= 0x3FFF_FFFF_FFFF_FFFF
              && a.quantity % U64 >= 1000 && 2 <= a.rollUnder <= 96 && a.betId !in s.bets
              && (payout - a.quantity % U64) % U64 <= limit
    ensures Perform(p, s, a).Some? ==>
              var g, t := s.globals.value, Perform(p, s, a).value;
              var referral := if NamesReferrer(p, a) then a.possibleRef else p.casino;
              && t.bets == s.bets[a.betId := Bet(a.betId, a.from, referral, a.quantity % U64, a.rollUnder)]
              && t.globals == Some(Globals((g.betCount + 1) % U64, g.totalBet, g.totalWon,
                                           (g.liabilities + a.quantity % U64) % U64))
  {
    hide Multiplier, Product, FairMultiplier;
    if s.globals.Some? && a.rollUnder >= 2 {
      MultiplierExact(a.rollUnder, EdgeAtPlacement(p, a));
      OneMultiplier(m, Multiplier(a.rollUnder, EdgeAtPlacement(p, a)), a.rollUnder, EdgeAtPlacement(p, a));
      LessTwice(a.balance, s.globals.value.liabilities, a.quantity % U64);
    }
  }

  /** A transfer of the contract itself or of the casino is no bet and changes nothing. */
  lemma HouseTransfers(p: Parties, s: State, a: Action)
    requires a.Transfer? && (a.from == p.self || a.from == p.casino)
    ensures Perform(p, s, a) == Some(s)
  {
  }

  lemma LessTwice(x: int, y: int, z: int)
    ensures (x - (y + z) % U64) % U64 == (x - y - z) % U64
  {
    var q := (y + z) / U64;
    assert y + z == q * U64 + (y + z) % U64;
    var k := (x - y - z) / U64;
    assert x - (y + z) % U64 == (k + q) * U64 + (x - y - z) % U64;
    DivUnique(x - (y + z) % U64, U64, k + q, (x - y - z) % U64);
  }

  /** A bet is resolved or suspended exactly when it is active and its amounts are asset amounts. Then it, and
      no other bet, leaves the table, and its amount leaves the liabilities. */
  lemma BetSettles(p: Parties, s: State, betId: nat, roll: nat)
    requires betId in s.bets ==> s.globals.Some? && 2 <= s.bets[betId].rollUnder && s.bets[betId].amount < U64
    ensures var r := Perform(p, s, Suspend(betId));
            && (r.Some? <==> betId in s.bets && InRange(Signed(s.bets[betId].amount)))
            && (r.Some? ==>
                  var g := s.globals.value;
                  && r.value.bets == s.bets - {betId}
                  && r.value.globals == Some(g.(liabilities := (g.liabilities - s.bets[betId].amount) % U64)))
    ensures var r := Perform(p, s, Resolve(betId, roll));
            && (r.Some? <==> betId in s.bets && InRange(Signed(s.bets[betId].amount)))
            && (r.Some? ==>
                  var g, amount, won := s.globals.value, s.bets[betId].amount, PayoutOf(p, s.bets[betId], roll);
                  && r.value.bets == s.bets - {betId}
                  && r.value.globals == Some(Globals(g.betCount, (g.totalBet + amount) % U64,
                                                     if won == 0 then g.totalWon else (g.totalWon + won) % U64,
                                                     (g.liabilities - amount) % U64)))
  {
    hide Payout;
    if betId in s.bets {
      var bet := s.bets[betId];
      PayoutSmall(bet.amount, bet.rollUnder, EdgeOf(p, bet));
    }
  }

  // ----- payouts -----

  /** m is the whole part of (10000 - edge) * 100 / (rollUnder - 1). */
  predicate FairMultiplier(m: nat, rollUnder: nat, edge: nat) {
    m * (rollUnder - 1) <= (10000 - edge) * 100 < (m + 1) * (rollUnder - 1)
  }

  lemma MultiplierExact(rollUnder: nat, edge: nat)
    requires rollUnder >= 2 && edge <= 10000
    ensures FairMultiplier(Multiplier(rollUnder, edge), rollUnder, edge)
  {
    var x, n := (10000 - edge) * 100, rollUnder - 1;
    assert x == (x / n) * n + x % n;
    assert (x / n + 1) * n == (x / n) * n + n;
  }

  lemma OneMultiplier(m: nat, k: nat, rollUnder: nat, edge: nat)
    requires rollUnder >= 2 && FairMultiplier(m, rollUnder, edge) && FairMultiplier(k, rollUnder, edge)
    ensures m == k
  {
    var x, n := (10000 - edge) * 100, rollUnder - 1;
    assert (m + 1) * n == m * n + n && (k + 1) * n == k * n + n;
    DivUnique(x, n, m, x - m * n);
    DivUnique(x, n, k, x - k * n);
  }

  /** A losing roll pays nothing. A winning one pays the bet times the multiplier as a 64-bit word, divided
      by 10000 and rounded down; the edge is 2%, or 1.5% with a referrer. */
  lemma PayoutIs(p: Parties, bet: Bet, roll: nat, m: nat)
    requires bet.rollUnder >= 2
    requires FairMultiplier(m, bet.rollUnder, if bet.referral == p.casino then 200 else 150)
    ensures roll >= bet.rollUnder ==> PayoutOf(p, bet, roll) == 0
    ensures roll < bet.rollUnder ==>
              var word, payout := Product(bet.amount, m) % 0x1_0000_0000_0000_0000, PayoutOf(p, bet, roll);
              10000 * payout <= word < 10000 * (payout + 1)
  {
    hide Multiplier, Product, FairMultiplier;
    MultiplierExact(bet.rollUnder, EdgeOf(p, bet));
    OneMultiplier(m, Multiplier(bet.rollUnder, EdgeOf(p, bet)), bet.rollUnder, EdgeOf(p, bet));
  }

  lemma MultiplierRange(rollUnder: nat, edge: nat)
    requires 2 <= rollUnder <= 96 && edge <= HOUSE_EDGE
    ensures 10000 <= Multiplier(rollUnder, edge)
    ensures Multiplier(rollUnder, edge) * (rollUnder - 1) <= (10000 - edge) * 100
  {
    MultiplierExact(rollUnder, edge);
    QuotientAtLeast((10000 - edge) * 100, rollUnder - 1, 10000);
  }

  /** The payout is the exact fraction of the bet if and only if the product fits a word. */
  lemma PayoutExact(amount: nat, rollUnder: nat, edge: nat)
    requires 2 <= rollUnder <= 96 && edge <= HOUSE_EDGE
    ensures Payout(amount, rollUnder, edge) == Product(amount, Multiplier(rollUnder, edge)) / 10000
            <==> Product(amount, Multiplier(rollUnder, edge)) < U64
  {
    hide Product, Multiplier;
    var x := Product(amount, Multiplier(rollUnder, edge));
    assert x >= U64 ==> x % U64 + U64 <= x;
  }

  /** A win never pays less than the bet, for bets small enough not to wrap. */
  lemma WinPaysBet(amount: nat, rollUnder: nat, edge: nat)
    requires 2 <= rollUnder <= 96 && edge <= HOUSE_EDGE && Product(amount, Multiplier(rollUnder, edge)) < U64
    ensures Payout(amount, rollUnder, edge) >= amount
  {
    MultiplierRange(rollUnder, edge);
    PayoutExact(amount, rollUnder, edge);
    ProductLe(amount, 10000, Multiplier(rollUnder, edge));
  }

  lemma ProductLe(x: nat, y: nat, z: nat)
    requires y <= z
    ensures x * y <= Product(x, z)
  {
    assert x * z == x * y + x * (z - y);
  }

  /** What a bet pays over the rolls 1 to n. */
  function PaidOver(p: Parties, bet: Bet, n: nat): nat
    requires bet.rollUnder >= 2
  {
    if n == 0 then 0 else PaidOver(p, bet, n - 1) + PayoutOf(p, bet, n)
  }

  lemma {:induction false} PaidOverIs(p: Parties, bet: Bet, n: nat)
    requires bet.rollUnder >= 2
    ensures PaidOver(p, bet, n)
            == (if n < bet.rollUnder then n else bet.rollUnder - 1) * Payout(bet.amount, bet.rollUnder, EdgeOf(p, bet))
  {
    hide Payout;
    if n > 0 {
      PaidOverIs(p, bet, n - 1);
      var y := Payout(bet.amount, bet.rollUnder, EdgeOf(p, bet));
      assert n * y == (n - 1) * y + y;
    }
  }

  /** Over the hundred rolls a bet never pays more than the house edge leaves. */
  lemma EdgeKept(p: Parties, bet: Bet)
    requires 2 <= bet.rollUnder <= 96
    ensures 10000 * PaidOver(p, bet, 100) <= 100 * bet.amount * (10000 - EdgeOf(p, bet))
  {
    hide Payout, Multiplier;
    PaidOverIs(p, bet, 100);
    var e, n := EdgeOf(p, bet), bet.rollUnder - 1;
    MultiplierRange(bet.rollUnder, e);
    WrappedLess(bet.amount, bet.rollUnder, e);
    Scaled(n, Payout(bet.amount, bet.rollUnder, e), bet.amount, Multiplier(bet.rollUnder, e), (10000 - e) * 100);
  }

  lemma WrappedLess(amount: nat, rollUnder: nat, edge: nat)
    requires 2 <= rollUnder && edge <= 10000
    ensures 10000 * Payout(amount, rollUnder, edge) <= amount * Multiplier(rollUnder, edge)
  {
    hide Multiplier;
  }

  lemma Scaled(n: nat, y: nat, x: nat, m: nat, c: nat)
    requires 10000 * y <= x * m && m * n <= c
    ensures 10000 * (n * y) <= x * c
  {
    assert n * (10000 * y) <= n * (x * m) by { assert n * (x * m) - n * (10000 * y) == n * (x * m - 10000 * y); }
    assert n * (x * m) == x * (m * n);
    assert x * c - x * (m * n) == x * (c - m * n);
  }

  // ----- the counters -----

  /** The transfers of a run that placed a bet. */
  function PlacedCount(p: Parties, actions: seq<Action>): nat {
    if actions == [] then 0
    else
      var front, a := actions[..|actions| - 1], actions[|actions| - 1];
      PlacedCount(p, front) + if Placed(p, Run(p, front), a) then 1 else 0
  }

  /** The action settles a bet. */
  predicate Settles(p: Parties, s: State, a: Action) {
    a.Resolve? && a.betId in s.bets && s.bets[a.betId].rollUnder >= 2 && Perform(p, s, a).Some?
  }

  /** The sum of the bets that a run has settled. */
  function Wagered(p: Parties, actions: seq<Action>): nat {
    if actions == [] then 0
    else
      var front, a := actions[..|actions| - 1], actions[|actions| - 1];
      var s := Run(p, front);
      Wagered(p, front) + if Settles(p, s, a) then s.bets[a.betId].amount else 0
  }

  /** The sum of what it has paid for them. */
  function Won(p: Parties, actions: seq<Action>): nat {
    if actions == [] then 0
    else
      var front, a := actions[..|actions| - 1], actions[|actions| - 1];
      var s := Run(p, front);
      Won(p, front) + if Settles(p, s, a) then PayoutOf(p, s.bets[a.betId], a.roll) else 0
  }

  ghost predicate Counted(g: Globals, placed: nat, wagered: nat, won: nat) {
    g.betCount == placed % U64 && g.totalBet == wagered % U64 && g.totalWon == won % U64
  }

  /** In every run the counters are the number of bets placed, and the sums of the bets settled and of the
      wins paid, modulo 2^64. */
  lemma {:induction false} TotalsAre(p: Parties, actions: seq<Action>)
    ensures var g := Run(p, actions).globals;
            if g.Some? then Counted(g.value, PlacedCount(p, actions), Wagered(p, actions), Won(p, actions))
            else PlacedCount(p, actions) == Wagered(p, actions) == Won(p, actions) == 0
  {
    hide Payout, Counted;
    if actions != [] {
      var front, a := actions[..|actions| - 1], actions[|actions| - 1];
      TotalsAre(p, front);
      CountedStep(p, Run(p, front), a, PlacedCount(p, front), Wagered(p, front), Won(p, front));
    }
  }

  lemma CountedStep(p: Parties, s: State, a: Action, placed: nat, wagered: nat, won: nat)
    requires if s.globals.Some? then Counted(s.globals.value, placed, wagered, won) else placed == wagered == won == 0
    ensures var placed' := placed + if Placed(p, s, a) then 1 else 0;
            var wagered' := wagered + if Settles(p, s, a) then s.bets[a.betId].amount else 0;
            var won' := won + if Settles(p, s, a) then PayoutOf(p, s.bets[a.betId], a.roll) else 0;
            var g := Step(p, s, a).globals;
            if g.Some? then Counted(g.value, placed', wagered', won') else placed' == wagered' == won' == 0
  {
    hide Payout;
    ModPlus(placed, 1);
    if Settles(p, s, a) {
      ModPlus(wagered, s.bets[a.betId].amount);
      ModPlus(won, PayoutOf(p, s.bets[a.betId], a.roll));
    }
  }

  // ----- the win limit -----

  /** The action puts a bet into the table. */
  predicate Placed(p: Parties, s: State, a: Action) {
    a.Transfer? && a.from != p.self && a.from != p.casino && Perform(p, s, a).Some?
  }

  /** The payout that the win limit is checked with. */
  function Checked(p: Parties, a: Action): nat
    requires a.Transfer? && a.rollUnder >= 2
  {
    Payout(a.quantity % U64, a.rollUnder, EdgeAtPlacement(p, a))
  }

  /** The win limit at placement, with the new bet among the liabilities. */
  function LimitAt(s: State, a: Action): nat
    requires a.Transfer? && s.globals.Some?
  {
    MaxWin(a.balance, Plus(s.globals.value.liabilities, a.quantity % U64))
  }

  /** A placed bet of a positive quantity is resolved for at most what was checked, and no subtraction
      or wrapped product lets it win more than the limit. Unless the referrer named is the casino
      itself, what it wins is what was checked, for any quantity. */
  lemma ResolvedAsChecked(p: Parties, s: State, a: Action, roll: nat)
    requires Placed(p, s, a)
    ensures s.globals.Some? && a.rollUnder >= 2
    ensures a.quantity > 0 ==>
              && BetOf(p, a).amount == a.quantity
              && PayoutOf(p, BetOf(p, a), roll) <= Checked(p, a) <= a.quantity + LimitAt(s, a)
    ensures roll < a.rollUnder && !(HasReferral(p, a) && a.possibleRef == p.casino) ==>
              PayoutOf(p, BetOf(p, a), roll) == Checked(p, a)
  {
    hide Payout, Multiplier;
    if a.quantity > 0 {
      DivUnique(a.quantity, U64, 0, a.quantity);
      PayoutSmall(a.quantity, a.rollUnder, EdgeAtPlacement(p, a));
      LimitSmall(a.balance, Plus(s.globals.value.liabilities, a.quantity));
      WinFits(Checked(p, a), a.quantity, LimitAt(s, a));
      if roll < a.rollUnder && HasReferral(p, a) && a.possibleRef == p.casino { SmallerEdge(a.quantity, a.rollUnder); }
    }
  }

  /** The limit is a 25th of what the balance leaves above the liabilities, rounded down. */
  lemma LimitIs(balance: nat, liabilities: nat)
    ensures 25 * MaxWin(balance, liabilities) <= (balance - liabilities) % 0x1_0000_0000_0000_0000
    ensures (balance - liabilities) % 0x1_0000_0000_0000_0000 < 25 * (MaxWin(balance, liabilities) + 1)
  {
    var x := Minus(balance, liabilities);
    assert x == 25 * (x / 25) + x % 25;
  }

  /** In every run an active bet is the one that its transfer asked for. The referrer is the account named,
      if there is one and it is neither the contract nor the bettor, and the casino otherwise; so nobody
      refers himself. */
  lemma BetAsAsked(p: Parties, actions: seq<Action>, betId: nat) returns (k: nat)
    requires betId in Run(p, actions).bets
    ensures k < |actions| && actions[k].Transfer? && actions[k].betId == betId
    ensures var bet, a := Run(p, actions).bets[betId], actions[k];
            && bet.bettor == a.from != bet.referral && bet.rollUnder == a.rollUnder
            && bet.amount == a.quantity % 0x1_0000_0000_0000_0000
            && (a.refExists && a.possibleRef != a.from && a.possibleRef != p.self ==> bet.referral == a.possibleRef)
            && (!a.refExists || a.possibleRef == a.from || a.possibleRef == p.self ==> bet.referral == p.casino)
  {
    hide Run, Payout;
    k := PlacedEarlier(p, actions, betId);
  }

  lemma PayoutSmall(amount: nat, rollUnder: nat, edge: nat)
    requires rollUnder >= 2 && edge <= 10000
    ensures Payout(amount, rollUnder, edge) <= U64 / 10000
  {
    hide Product, Multiplier;
  }

  lemma LimitSmall(balance: nat, liabilities: nat)
    ensures MaxWin(balance, liabilities) <= U64 / 25
  {
  }

  /** A win that passes the limit is a true difference. */
  lemma WinFits(payout: nat, amount: nat, limit: nat)
    requires payout <= U64 / 10000 && 0 < amount <= MAX_AMOUNT && limit <= U64 / 25 && Minus(payout, amount) <= limit
    ensures amount <= payout <= amount + limit
  {
    if payout < amount {
      DivUnique(payout - amount, U64, -1, payout - amount + U64);
    } else {
      DivUnique(payout - amount, U64, 0, payout - amount);
    }
  }

  /** With the larger edge a bet pays no more, even where the products wrap, as long as with the
      smaller edge it does not pay less than the bet. */
  lemma SmallerEdge(amount: nat, rollUnder: nat)
    requires 2 <= rollUnder <= 96 && amount <= Payout(amount, rollUnder, HOUSE_EDGE_REF)
    ensures Payout(amount, rollUnder, HOUSE_EDGE) <= Payout(amount, rollUnder, HOUSE_EDGE_REF)
  {
    hide Multiplier;
    var x, y := Multiplier(rollUnder, HOUSE_EDGE), Multiplier(rollUnder, HOUSE_EDGE_REF);
    MultipliersClose(rollUnder);
    SmallerRest(amount, x, y);
    Quotients(Product(amount, x) % U64, Product(amount, y) % U64);
  }

  lemma MultipliersClose(rollUnder: nat)
    requires 2 <= rollUnder <= 96
    ensures Multiplier(rollUnder, HOUSE_EDGE) <= Multiplier(rollUnder, HOUSE_EDGE_REF)
            <= Multiplier(rollUnder, HOUSE_EDGE) + 10000
  {
    QuotientsClose(980000, 985000, 10000, rollUnder - 1);
  }

  lemma QuotientsClose(x: nat, y: nat, d: nat, n: nat)
    requires x <= y <= x + d && n > 0
    ensures x / n <= y / n <= x / n + d
  {
    var q, h := x / n, y / n;
    assert x == q * n + x % n && y == h * n + y % n;
    QuotientAtLeast(y, n, q);
    MulLe(1, n, d);
    assert (h - d) * n == h * n - d * n;
    QuotientAtLeast(x, n, h - d);
  }

  lemma QuotientAtLeast(x: int, n: nat, q: int)
    requires n > 0 && q * n <= x
    ensures x / n >= q
  {
    MultipleBig(q - x / n, n);
    assert x == (x / n) * n + x % n;
    assert (q - x / n) * n == q * n - (x / n) * n;
  }

  lemma SmallerRest(amount: nat, x: nat, y: nat)
    requires x <= y <= x + 10000 && 10000 * amount <= Product(amount, y) % U64
    ensures Product(amount, x) % U64 <= Product(amount, y) % U64
  {
    var k, r, d := (amount * y) / U64, (amount * y) % U64, amount * (y - x);
    assert amount * x == amount * y - d;
    MulLe(0, amount, y - x);
    MulLe(y - x, 10000, amount);
    DivUnique(amount * x, U64, k, r - d);
  }

  lemma Quotients(x: nat, y: nat)
    requires x <= y
    ensures x / 10000 <= y / 10000
  {
  }

  /** In every run, each active bet was placed by a transfer of the run. */
  lemma {:induction false} PlacedEarlier(p: Parties, actions: seq<Action>, betId: nat) returns (k: nat)
    requires betId in Run(p, actions).bets
    ensures k < |actions| && Placed(p, Run(p, actions[..k]), actions[k])
    ensures actions[k].betId == betId && Run(p, actions).bets[betId] == BetOf(p, actions[k])
  {
    var n := |actions| - 1;
    assert n >= 0;
    var s, a := Run(p, actions[..n]), actions[n];
    if betId in s.bets && s.bets[betId] == Step(p, s, a).bets[betId] {
      k := PlacedEarlier(p, actions[..n], betId);
      assert actions[..n][..k] == actions[..k];
    } else {
      k := n;
    }
  }

  /** In every run, whatever is rolled, an active bet of a positive quantity can be resolved, and wins at
      most the limit that held when it was placed. */
  lemma WinWithinLimit(p: Parties, actions: seq<Action>, betId: nat, roll: nat) returns (k: nat)
    requires betId in Run(p, actions).bets
    ensures k < |actions| && Placed(p, Run(p, actions[..k]), actions[k]) && actions[k].betId == betId
    ensures Perform(p, Run(p, actions), Resolve(betId, roll)).Some?
    ensures var bet, s := Run(p, actions).bets[betId], Run(p, actions[..k]);
            && s.globals.Some? && bet.rollUnder >= 2
            && (actions[k].quantity > 0 ==> PayoutOf(p, bet, roll) <= bet.amount + LimitAt(s, actions[k]))
  {
    hide Run, Payout, Multiplier;
    k := PlacedEarlier(p, actions, betId);
    RunKeeps(p, actions);
    var bet := Run(p, actions).bets[betId];
    PayoutSmall(bet.amount, bet.rollUnder, EdgeOf(p, bet));
    ResolvedAsChecked(p, Run(p, actions[..k]), actions[k], roll);
  }

  /** A negative quantity, read as a large word, can be resolved for more than was checked when the
      casino is named as the referrer. */
  lemma NegativeQuantity(p: Parties, from: nat, betId: nat)
    requires from != p.self && from != p.casino && p.self != p.casino
    ensures var a := Transfer(from, -2000, 2, p.casino, true, 0x4000_0000_0000_0000, betId);
            && Placed(p, Run(p, [Init]), a) && PayoutOf(p, BetOf(p, a), 1) > Checked(p, a)
  {
    hide Payout;
    var a := Transfer(from, -2000, 2, p.casino, true, 0x4000_0000_0000_0000, betId);
    var s := Step(p, Run(p, []), Init);
    assert [Init][..0] == [] && Run(p, [Init]) == s;
    NegativePayouts();
  }

  lemma NegativePayouts()
    ensures Payout(U64 - 2000, 2, HOUSE_EDGE) == (U64 - 1960000000) / 10000
    ensures Payout(U64 - 2000, 2, HOUSE_EDGE_REF) == (U64 - 1970000000) / 10000
  {
    DivUnique((U64 - 2000) * 980000, U64, 979999, U64 - 1960000000);
    DivUnique((U64 - 2000) * 985000, U64, 984999, U64 - 1970000000);
  }

  // ----- the contract -----

  class Contract {
    const parties: Parties
    var globals: Option<Globals>
    var bets: map<nat, Bet>

    function Tables(): State
      reads this
    {
      State(globals, bets)
    }

    constructor (parties: Parties)
      ensures this.parties == parties && Tables() == Run(parties, [])
    {
      this.parties := parties;
      globals, bets := None, map[];
    }

    method InitContract() returns (ok: bool)
      modifies this
      ensures Tables() == Step(parties, old(Tables()), Init) && (ok <==> Perform(parties, old(Tables()), Init).Some?)
    {
      if globals.Some? { return false; }
      globals := Some(Globals(0, 0, 0, 0));
      ok := true;
    }

    method IncrementLiabilitiesBetId(amount: nat)
      requires globals.Some?
      modifies `globals
      ensures globals == Some(old(globals).value.(betCount := Plus(old(globals).value.betCount, 1),
                                                  liabilities := Plus(old(globals).value.liabilities, amount)))
    {
      var g := globals.value;
      globals := Some(g.(betCount := Plus(g.betCount, 1)));
      g := globals.value;
      globals := Some(g.(liabilities := Plus(g.liabilities, amount)));
    }

    method DecrementLiabilities(amount: nat)
      requires globals.Some?
      modifies `globals
      ensures globals == Some(old(globals).value.(liabilities := Minus(old(globals).value.liabilities, amount)))
    {
      var g := globals.value;
      globals := Some(g.(liabilities := Minus(g.liabilities, amount)));
    }

    method IncrementGameStats(amount: nat, won: nat)
      requires globals.Some?
      modifies `globals
      ensures globals == Some(old(globals).value.(totalBet := Plus(old(globals).value.totalBet, amount),
                                                  totalWon := if won > 0 then Plus(old(globals).value.totalWon, won)
                                                              else old(globals).value.totalWon))
    {
      var g := globals.value;
      globals := Some(g.(totalBet := Plus(g.totalBet, amount)));
      if won > 0 {
        g := globals.value;
        globals := Some(g.(totalWon := Plus(g.totalWon, won)));
      }
    }

    /** A transfer to the contract with a bet in its memo. */
    method Place(a: Action) returns (ok: bool)
      requires a.Transfer?
      modifies this
      ensures Tables() == Step(parties, old(Tables()), a) && (ok <==> Perform(parties, old(Tables()), a).Some?)
    {
      hide Payout, Minus, Plus, MaxWin, Multiplier;
      var before := globals;
      if a.from == parties.self || a.from == parties.casino { return true; }
      if !InRange(a.quantity) { return false; }
      var amount := a.quantity % U64;
      if amount < MINBET || globals.None? { return false; }
      IncrementLiabilitiesBetId(amount);
      var referral, edge := parties.casino, HOUSE_EDGE;
      if a.possibleRef != parties.self && a.possibleRef != a.from && a.refExists {
        referral, edge := a.possibleRef, HOUSE_EDGE_REF;
      }
      if a.rollUnder < 2 || a.rollUnder > 96 {
        globals := before;
        return false;
      }
      var win := Minus(Payout(amount, a.rollUnder, edge), amount);
      if win > MaxWin(a.balance, globals.value.liabilities) || a.betId in bets {
        globals := before;
        return false;
      }
      bets := bets[a.betId := Bet(a.betId, a.from, referral, amount, a.rollUnder)];
      ok := true;
    }

    method ResolveBet(betId: nat, roll: nat) returns (ok: bool)
      modifies this
      ensures Tables() == Step(parties, old(Tables()), Resolve(betId, roll))
      ensures ok <==> Perform(parties, old(Tables()), Resolve(betId, roll)).Some?
    {
      hide Payout, Minus, Plus;
      var before := globals;
      if betId !in bets || globals.None? || bets[betId].rollUnder < 2 { return false; }
      var bet := bets[betId];
      var edge, payout := HOUSE_EDGE, 0;
      if bet.referral != parties.casino { edge := HOUSE_EDGE_REF; }
      if roll < bet.rollUnder { payout := Payout(bet.amount, bet.rollUnder, edge); }
      IncrementGameStats(bet.amount, payout);
      DecrementLiabilities(bet.amount);
      if !InRange(Signed(bet.amount)) || !InRange(Signed(payout)) {
        globals := before;
        return false;
      }
      bets := bets - {betId};
      ok := true;
    }

    method SuspendBet(betId: nat) returns (ok: bool)
      modifies this
      ensures Tables() == Step(parties, old(Tables()), Suspend(betId))
      ensures ok <==> Perform(parties, old(Tables()), Suspend(betId)).Some?
    {
      var before := globals;
      if betId !in bets || globals.None? { return false; }
      var amount := bets[betId].amount;
      DecrementLiabilities(amount);
      if !InRange(Signed(amount)) {
        globals := before;
        return false;
      }
      bets := bets - {betId};
      ok := true;
    }
  }
}
