/** The dice contract's actions as they update its tables, proved against the state machine. */
module DiceContract {
  import opened DiceState

  /** A failed check undoes the whole action; `ok` says whether the action went through. */
  class Dice {
    var offers: map<nat, Offer>
    var games: map<nat, Game>
    var globals: map<nat, nat>
    var accounts: map<Name, Account>

    function Tables(): State
      reads this
    {
      State(offers, games, globals, accounts)
    }

    constructor ()
      ensures Tables() == EMPTY
    {
      offers, games, globals, accounts := map[], map[], map[], map[];
    }

    method Rollback(before: State)
      modifies this
      ensures Tables() == before
    {
      offers, games, globals, accounts := before.offers, before.games, before.globals, before.accounts;
    }

    method AvailablePrimaryKey() returns (id: nat)
      ensures id == AvailableKey(offers)
    {
      if offers.Keys == {} { return 0; }
      LargestExists(offers);
      var m :| m in offers && Largest(offers, m);
      id := m + 1;
    }

    method FindCommitment(c: Hash) returns (i: nat)
      requires HasOffer(offers, c)
      ensures i == ByCommitment(offers, c)
    {
      CommitmentExists(offers, c);
      i :| i in offers && FindsCommitment(offers, c, i);
    }

    method LowerBoundByBet(bet: int, w: nat) returns (i: nat)
      requires w in offers && offers[w].bet >= bet
      ensures i == LowerBound(offers, bet, w)
    {
      LowerBoundExists(offers, bet, w);
      i :| i in offers && IsLowerBound(offers, bet, i);
    }

    method OfferBet(bet: int, player: Name, c: Hash) returns (ok: bool)
      modifies this
      ensures Tables() == Step(old(Tables()), DoOffer(bet, player, c))
      ensures ok <==> Perform(old(Tables()), DoOffer(bet, player, c)).Next?
    {
      hide HasOffer, Largest, IsLowerBound, DiceState.CancelOffer, DiceState.Reveal, DiceState.ClaimExpired,
           DiceState.Deposit, DiceState.Withdraw, AvailableKey, LowerBound, ByCommitment;
      var before := Tables();
      if !InRange(bet) || bet <= 0 || HasOffer(offers, c) || player !in accounts { return false; }
      var id := AvailablePrimaryKey();
      if id >= NO_AVAILABLE_KEY { return false; }
      offers := offers[id := Offer(id, player, bet, c, 0)];
      var m := LowerBoundByBet(bet, id);
      LowerBoundIn(offers, bet, id);
      if offers[m].bet != bet || offers[m].owner == player {
        if accounts[player].balance < bet { Rollback(before); return false; }
        var a := accounts[player].(balance := accounts[player].balance - bet);
        accounts := accounts[player := a.(openOffers := Inc32(a.openOffers))];
      } else {
        var matched := MatchOffers(m, id, bet, player);
        if !matched { Rollback(before); return false; }
      }
      ok := true;
    }

    /** The branch of offerbet that turns two equal bets of different players into a game. */
    method MatchOffers(m: nat, id: nat, bet: int, player: Name) returns (ok: bool)
      requires m in offers && id in offers && offers[m].owner != player && player in accounts && m != id
      requires offers[id].bet == bet
      modifies this
      ensures var s, a := old(Tables()), old(accounts[player]);
              var r := Match(s, s.offers, m, id, player, a.(balance := a.balance - bet));
              && (ok <==> a.balance >= bet && r.Next?)
              && (ok ==> Tables() == r.s)
    {
      if 0 !in globals { globals := globals[0 := 0]; }
      globals := globals[0 := (globals[0] + 1) % U64];
      var gid := globals[0];
      if gid in games { return false; }
      games := games[gid := Game(gid, bet, 0, Player(offers[m].commitment, 0), Player(offers[id].commitment, 0))];
      offers := offers[m := offers[m].(bet := 0, gameid := gid)];
      offers := offers[id := offers[id].(bet := 0, gameid := gid)];
      var owner := offers[m].owner;
      if owner !in accounts { return false; }
      var w := accounts[owner];
      accounts := accounts[owner := w.(openOffers := Dec32(w.openOffers), openGames := Inc32(w.openGames))];
      var p := accounts[player];
      if p.balance < bet { return false; }
      accounts := accounts[player := p.(balance := p.balance - bet, openGames := Inc32(p.openGames))];
      ok := true;
    }

    method CancelOffer(c: Hash) returns (ok: bool)
      modifies this
      ensures Tables() == Step(old(Tables()), DoCancel(c))
      ensures ok <==> Perform(old(Tables()), DoCancel(c)).Next?
    {
      hide HasOffer, DiceState.OfferBet, DiceState.Reveal, DiceState.ClaimExpired, DiceState.Deposit,
           DiceState.Withdraw, FindsCommitment, ByCommitment;
      if !HasOffer(offers, c) { return false; }
      var i := FindCommitment(c);
      FoundIn(offers, c);
      if offers[i].gameid != 0 || offers[i].owner !in accounts { return false; }
      var owner := offers[i].owner;
      var a := accounts[owner].(openOffers := Dec32(accounts[owner].openOffers));
      if !InRange(a.balance + offers[i].bet) { return false; }
      accounts := accounts[owner := a.(balance := a.balance + offers[i].bet)];
      offers := offers - {i};
      ok := true;
    }

    method PayAndClean(g: Game, winner: Offer, loser: Offer) returns (ok: bool)
      modifies this
      ensures var r := DiceState.PayAndClean(old(Tables()), g, winner, loser);
              (ok <==> r.Next?) && Tables() == if r.Next? then r.s else old(Tables())
    {
      var before := Tables();
      if winner.owner !in accounts || !InRange(2 * g.bet) { return false; }
      var w := accounts[winner.owner];
      if !InRange(w.balance + 2 * g.bet) { return false; }
      w := w.(balance := w.balance + 2 * g.bet);
      accounts := accounts[winner.owner := w.(openGames := Dec32(w.openGames))];
      if loser.owner !in accounts { Rollback(before); return false; }
      var l := accounts[loser.owner];
      l := l.(openGames := Dec32(l.openGames));
      accounts := accounts[loser.owner := l];
      if l.IsEmpty() { accounts := accounts - {loser.owner}; }
      games := games - {g.id};
      offers := offers - {winner.id};
      offers := offers - {loser.id};
      ok := true;
    }

    method Reveal(c: Hash, source: Hash, hashOk: bool, currWins: bool, now: nat) returns (ok: bool)
      modifies this
      ensures Tables() == Step(old(Tables()), DoReveal(c, source, hashOk, currWins, now))
      ensures ok <==> Perform(old(Tables()), DoReveal(c, source, hashOk, currWins, now)).Next?
    {
      hide HasOffer, DiceState.OfferBet, DiceState.CancelOffer, DiceState.ClaimExpired, DiceState.Deposit,
           DiceState.Withdraw, FindsCommitment, ByCommitment, DiceState.PayAndClean;
      if !hashOk || !HasOffer(offers, c) { return false; }
      var i := FindCommitment(c);
      FoundIn(offers, c);
      if offers[i].gameid == 0 || offers[i].gameid !in games { return false; }
      var game := games[offers[i].gameid];
      var curr, prev := game.player1, game.player2;
      if curr.commitment != c { curr, prev := prev, curr; }
      if !IsZero(curr.revealed) { return false; }
      if !IsZero(prev.revealed) {
        if !HasOffer(offers, prev.commitment) { return false; }
        var j := FindCommitment(prev.commitment);
        FoundIn(offers, prev.commitment);
        if currWins {
          ok := PayAndClean(game, offers[i], offers[j]);
        } else {
          ok := PayAndClean(game, offers[j], offers[i]);
        }
      } else {
        if curr.commitment == game.player1.commitment {
          game := game.(player1 := game.player1.(revealed := source));
        } else {
          game := game.(player2 := game.player2.(revealed := source));
        }
        games := games[offers[i].gameid := game.(deadline := (now + FIVE_MINUTES) % U32)];
        ok := true;
      }
    }

    method ClaimExpired(gid: nat, now: nat) returns (ok: bool)
      modifies this
      ensures Tables() == Step(old(Tables()), DoClaim(gid, now))
      ensures ok <==> Perform(old(Tables()), DoClaim(gid, now)).Next?
    {
      hide HasOffer, DiceState.OfferBet, DiceState.CancelOffer, DiceState.Reveal, DiceState.Deposit, DiceState.Withdraw,
           FindsCommitment, ByCommitment, DiceState.PayAndClean;
      if gid !in games { return false; }
      var game := games[gid];
      if game.deadline == 0 || now <= game.deadline { return false; }
      if !HasOffer(offers, game.player1.commitment) || !HasOffer(offers, game.player2.commitment) { return false; }
      var i := FindCommitment(game.player1.commitment);
      var j := FindCommitment(game.player2.commitment);
      FoundIn(offers, game.player1.commitment);
      FoundIn(offers, game.player2.commitment);
      if !IsZero(game.player1.revealed) {
        if !IsZero(game.player2.revealed) { return false; }
        ok := PayAndClean(game, offers[i], offers[j]);
      } else {
        ok := PayAndClean(game, offers[j], offers[i]);
      }
    }

    method Deposit(from: Name, quantity: int) returns (ok: bool)
      modifies this
      ensures Tables() == Step(old(Tables()), DoDeposit(from, quantity))
      ensures ok <==> Perform(old(Tables()), DoDeposit(from, quantity)).Next?
    {
      hide HasOffer, DiceState.OfferBet, DiceState.CancelOffer, DiceState.Reveal, DiceState.ClaimExpired,
           DiceState.Withdraw;
      var before := Tables();
      if !InRange(quantity) || quantity <= 0 { return false; }
      if from !in accounts { accounts := accounts[from := Account(from, 0, 0, 0)]; }
      var a := accounts[from];
      if !InRange(a.balance + quantity) { Rollback(before); return false; }
      accounts := accounts[from := a.(balance := a.balance + quantity)];
      ok := true;
    }

    method Withdraw(to: Name, quantity: int) returns (ok: bool)
      modifies this
      ensures Tables() == Step(old(Tables()), DoWithdraw(to, quantity))
      ensures ok <==> Perform(old(Tables()), DoWithdraw(to, quantity)).Next?
    {
      hide HasOffer, DiceState.OfferBet, DiceState.CancelOffer, DiceState.Reveal, DiceState.ClaimExpired,
           DiceState.Deposit;
      if !InRange(quantity) || quantity <= 0 || to !in accounts || accounts[to].balance < quantity { return false; }
      var a := accounts[to].(balance := accounts[to].balance - quantity);
      accounts := accounts[to := a];
      if a.IsEmpty() { accounts := accounts - {to}; }
      ok := true;
    }
  }

  lemma FoundIn(offers: map<nat, Offer>, c: Hash)
    requires HasOffer(offers, c)
    ensures ByCommitment(offers, c) in offers && offers[ByCommitment(offers, c)].commitment == c
  {
  }

  lemma LowerBoundIn(offers: map<nat, Offer>, bet: int, w: nat)
    requires w in offers && offers[w].bet >= bet
    ensures LowerBound(offers, bet, w) in offers
  {
  }
}
