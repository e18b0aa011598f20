/** The dice contract as a state machine over its tables. A failed check is a step that
    leaves the state as it was; amounts are of the one token the contract accepts. */
module DiceState {

  type Name = nat
  type Hash = nat

  const MAX_AMOUNT: int := 0x3FFF_FFFF_FFFF_FFFF
  const NO_AVAILABLE_KEY: nat := 0xFFFF_FFFF_FFFF_FFFE
  const FIVE_MINUTES: nat := 300
  const U32: nat := 0x1_0000_0000
  const U64: nat := 0x1_0000_0000_0000_0000

  datatype Offer = Offer(id: nat, owner: Name, bet: int, commitment: Hash, gameid: nat)
  datatype Player = Player(commitment: Hash, revealed: Hash)
  datatype Game = Game(id: nat, bet: int, deadline: nat, player1: Player, player2: Player)

  datatype Account = Account(owner: Name, balance: int, openOffers: nat, openGames: nat) {
    predicate IsEmpty() { balance == 0 && openOffers == 0 && openGames == 0 }
  }

  datatype State = State(offers: map<nat, Offer>, games: map<nat, Game>, globals: map<nat, nat>,
                         accounts: map<Name, Account>)

  datatype Result = Abort | Next(s: State)

  function IsZero(h: Hash): bool { h == 0 }

  predicate InRange(amount: int) { -MAX_AMOUNT <= amount <= MAX_AMOUNT }

  function Inc32(x: nat): nat { (x + 1) % U32 }

  function Dec32(x: nat): nat { if x == 0 then U32 - 1 else x - 1 }

  function NextGameId(s: State): nat { if 0 in s.globals then s.globals[0] else 0 }

  // ----- queries on the offers table -----

  predicate HasOffer(offers: map<nat, Offer>, c: Hash) { exists i :: i in offers && offers[i].commitment == c }

  /** The commitment index finds the smallest primary key with that commitment. */
  predicate FindsCommitment(offers: map<nat, Offer>, c: Hash, i: nat) {
    i in offers && offers[i].commitment == c && forall j :: j in offers && offers[j].commitment == c ==> i <= j
  }

  predicate Largest(offers: map<nat, Offer>, i: nat) { i in offers && forall j :: j in offers ==> j <= i }

  /** The lower bound in the bet index: least (bet, id) with at least this bet. */
  predicate IsLowerBound(offers: map<nat, Offer>, bet: int, i: nat) {
    && i in offers && offers[i].bet >= bet
    && forall j :: j in offers && offers[j].bet >= bet ==>
      offers[i].bet < offers[j].bet || (offers[i].bet == offers[j].bet && i <= j)
  }

  lemma LargestExists(offers: map<nat, Offer>)
    requires offers.Keys != {}
    ensures exists i: nat :: Largest(offers, i)
    decreases offers.Keys
  {
    var k :| k in offers;
    var rest := offers - {k};
    if rest.Keys == {} {
      assert Largest(offers, k) by {
        forall j | j in offers ensures j <= k { assert j in rest || j == k; }
      }
    } else {
      assert rest.Keys < offers.Keys;
      LargestExists(rest);
      var m :| Largest(rest, m);
      var best := if k > m then k else m;
      forall j | j in offers ensures j <= best { assert j in rest || j == k; }
      assert Largest(offers, best);
    }
  }

  lemma CommitmentExists(offers: map<nat, Offer>, c: Hash)
    requires HasOffer(offers, c)
    ensures exists i :: FindsCommitment(offers, c, i)
    decreases offers.Keys
  {
    var k :| k in offers && offers[k].commitment == c;
    var rest := offers - {k};
    assert rest.Keys < offers.Keys;
    if HasOffer(rest, c) {
      CommitmentExists(rest, c);
      var m :| FindsCommitment(rest, c, m);
      var best := if k < m then k else m;
      forall j | j in offers && offers[j].commitment == c ensures best <= j { assert j in rest || j == k; }
      assert FindsCommitment(offers, c, best);
    } else {
      forall j | j in offers && offers[j].commitment == c ensures k <= j { assert j in rest || j == k; }
      assert FindsCommitment(offers, c, k);
    }
  }

  lemma LowerBoundExists(offers: map<nat, Offer>, bet: int, w: nat)
    requires w in offers && offers[w].bet >= bet
    ensures exists i :: IsLowerBound(offers, bet, i)
    decreases offers.Keys
  {
    var rest := offers - {w};
    assert rest.Keys < offers.Keys;
    if v :| v in rest && rest[v].bet >= bet {
      LowerBoundExists(rest, bet, v);
      var m :| IsLowerBound(rest, bet, m);
      var best := if offers[w].bet < offers[m].bet || (offers[w].bet == offers[m].bet && w < m) then w else m;
      forall j | j in offers && offers[j].bet >= bet
        ensures offers[best].bet < offers[j].bet || (offers[best].bet == offers[j].bet && best <= j)
      {
        assert j in rest || j == w;
      }
      assert IsLowerBound(offers, bet, best);
    } else {
      forall j | j in offers && offers[j].bet >= bet ensures j == w { assert j in rest || j == w; }
      assert IsLowerBound(offers, bet, w);
    }
  }

  /** available_primary_key of a fresh table object: one more than the largest key. */
  ghost function AvailableKey(offers: map<nat, Offer>): (key: nat)
    ensures key !in offers
  {
    if offers.Keys == {} then 0
    else
      LargestExists(offers);
      var m: nat :| Largest(offers, m);
      m + 1
  }

  ghost function ByCommitment(offers: map<nat, Offer>, c: Hash): (i: nat)
    requires HasOffer(offers, c)
    ensures FindsCommitment(offers, c, i)
  {
    CommitmentExists(offers, c);
    var i :| FindsCommitment(offers, c, i);
    i
  }

  ghost function LowerBound(offers: map<nat, Offer>, bet: int, w: nat): (i: nat)
    requires w in offers && offers[w].bet >= bet
    ensures IsLowerBound(offers, bet, i)
  {
    LowerBoundExists(offers, bet, w);
    var i :| IsLowerBound(offers, bet, i);
    i
  }

  // ----- the actions -----

  ghost function OfferBet(s: State, bet: int, player: Name, c: Hash): Result {
    if !InRange(bet) || bet <= 0 || HasOffer(s.offers, c) || player !in s.accounts then Abort
    else
      var id := AvailableKey(s.offers);
      if id >= NO_AVAILABLE_KEY || s.accounts[player].balance < bet then Abort
      else
        var offers := s.offers[id := Offer(id, player, bet, c, 0)];
        var m := LowerBound(offers, bet, id);
        var paid := s.accounts[player].(balance := s.accounts[player].balance - bet);
        if offers[m].bet != bet || offers[m].owner == player then
          Next(s.(offers := offers, accounts := s.accounts[player := paid.(openOffers := Inc32(paid.openOffers))]))
        else
          Match(s, offers, m, id, player, paid)
  }

  /** A matching offer was found: both offers go into a new game. */
  ghost function Match(s: State, offers: map<nat, Offer>, m: nat, id: nat, player: Name, paid: Account): Result
    requires m in offers && id in offers
  {
    var gid := (NextGameId(s) + 1) % U64;
    var owner := offers[m].owner;
    if gid in s.games || owner !in s.accounts then Abort
    else
      var other := s.accounts[owner];
      var game := Game(gid, offers[id].bet, 0, Player(offers[m].commitment, 0), Player(offers[id].commitment, 0));
      Next(State(
        offers[m := offers[m].(bet := 0, gameid := gid)][id := offers[id].(bet := 0, gameid := gid)],
        s.games[gid := game],
        s.globals[0 := gid],
        s.accounts[owner := other.(openOffers := Dec32(other.openOffers), openGames := Inc32(other.openGames))]
                  [player := paid.(openGames := Inc32(paid.openGames))]))
  }

  ghost function CancelOffer(s: State, c: Hash): Result {
    if !HasOffer(s.offers, c) then Abort
    else
      var i := ByCommitment(s.offers, c);
      var o := s.offers[i];
      if o.gameid != 0 || o.owner !in s.accounts then Abort
      else
        var a := s.accounts[o.owner];
        if !InRange(a.balance + o.bet) then Abort
        else
          Next(s.(offers := s.offers - {i},
                  accounts := s.accounts[o.owner :=
                                         a.(openOffers := Dec32(a.openOffers), balance := a.balance + o.bet)]))
  }

  /** Pays both stakes to the winner and removes the game, its offers and an emptied account. */
  ghost function PayAndClean(s: State, g: Game, winner: Offer, loser: Offer): Result {
    if winner.owner !in s.accounts || loser.owner !in s.accounts || !InRange(2 * g.bet) then Abort
    else
      var w := s.accounts[winner.owner];
      if !InRange(w.balance + 2 * g.bet) then Abort
      else
        var accounts1 := s.accounts[winner.owner :=
                                    w.(balance := w.balance + 2 * g.bet, openGames := Dec32(w.openGames))];
        var l := accounts1[loser.owner].(openGames := Dec32(accounts1[loser.owner].openGames));
        var accounts2 := accounts1[loser.owner := l];
        Next(State(s.offers - {winner.id} - {loser.id}, s.games - {g.id}, s.globals,
                   if l.IsEmpty() then accounts2 - {loser.owner} else accounts2))
  }

  ghost function Reveal(s: State, c: Hash, source: Hash, hashOk: bool, currWins: bool, now: nat): Result {
    if !hashOk || !HasOffer(s.offers, c) then Abort
    else
      var i := ByCommitment(s.offers, c);
      var gid := s.offers[i].gameid;
      if gid == 0 || gid !in s.games then Abort
      else
        var g := s.games[gid];
        var first := g.player1.commitment == c;
        var curr := if first then g.player1 else g.player2;
        var prev := if first then g.player2 else g.player1;
        if !IsZero(curr.revealed) then Abort
        else if !IsZero(prev.revealed) then
          if !HasOffer(s.offers, prev.commitment) then Abort
          else
            var j := ByCommitment(s.offers, prev.commitment);
            if currWins then PayAndClean(s, g, s.offers[i], s.offers[j])
              else PayAndClean(s, g, s.offers[j], s.offers[i])
        else
          var g1 := if curr.commitment == g.player1.commitment then g.(player1 := g.player1.(revealed := source))
                    else g.(player2 := g.player2.(revealed := source));
          Next(s.(games := s.games[gid := g1.(deadline := (now + FIVE_MINUTES) % U32)]))
  }

  ghost function ClaimExpired(s: State, gid: nat, now: nat): Result {
    if gid !in s.games then Abort
    else
      var g := s.games[gid];
      if g.deadline == 0 || now <= g.deadline || !HasOffer(s.offers, g.player1.commitment)
        || !HasOffer(s.offers, g.player2.commitment) then Abort
      else
        var o1, o2 := s.offers[ByCommitment(s.offers, g.player1.commitment)],
          s.offers[ByCommitment(s.offers, g.player2.commitment)];
        if !IsZero(g.player1.revealed) then
          if GameError(g) then Abort else PayAndClean(s, g, o1, o2)
        else PayAndClean(s, g, o2, o1)
  }

  /** The "game error" check of claimexpired. */
  predicate GameError(g: Game) { !IsZero(g.player1.revealed) && !IsZero(g.player2.revealed) }

  ghost function Deposit(s: State, from: Name, quantity: int): Result {
    if !InRange(quantity) || quantity <= 0 then Abort
    else
      var a := if from in s.accounts then s.accounts[from] else Account(from, 0, 0, 0);
      if !InRange(a.balance + quantity) then Abort
      else Next(s.(accounts := s.accounts[from := a.(balance := a.balance + quantity)]))
  }

  ghost function Withdraw(s: State, to: Name, quantity: int): Result {
    if !InRange(quantity) || quantity <= 0 || to !in s.accounts || s.accounts[to].balance < quantity then Abort
    else
      var a := s.accounts[to].(balance := s.accounts[to].balance - quantity);
      Next(s.(accounts := if a.IsEmpty() then s.accounts - {to} else s.accounts[to := a]))
  }

  // ----- runs -----

  datatype Action =
    | DoOffer(bet: int, player: Name, commitment: Hash)
    | DoCancel(commitment: Hash)
    | DoReveal(commitment: Hash, source: Hash, hashOk: bool, currWins: bool, now: nat)
    | DoClaim(gid: nat, now: nat)
    | DoDeposit(from: Name, quantity: int)
    | DoWithdraw(to: Name, quantity: int)

  ghost function Perform(s: State, a: Action): Result {
    match a
    case DoOffer(bet, player, c) => OfferBet(s, bet, player, c)
    case DoCancel(c) => CancelOffer(s, c)
    case DoReveal(c, source, hashOk, currWins, now) => Reveal(s, c, source, hashOk, currWins, now)
    case DoClaim(gid, now) => ClaimExpired(s, gid, now)
    case DoDeposit(from, q) => Deposit(s, from, q)
    case DoWithdraw(to, q) => Withdraw(s, to, q)
  }

  ghost function Step(s: State, a: Action): State {
    match Perform(s, a)
    case Abort => s
    case Next(t) => t
  }

  const EMPTY := State(map[], map[], map[], map[])

  ghost function Run(actions: seq<Action>): State {
    if actions == [] then EMPTY else Step(Run(actions[..|actions| - 1]), actions[|actions| - 1])
  }
}
