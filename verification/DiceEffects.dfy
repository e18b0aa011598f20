/** What each action of the dice contract does to every table, and when it goes through. */
module DiceEffects {
  import opened DiceState
  import opened DiceInvariants
  import opened DiceOutcomes

  /** Nothing but the account of o differs. */
  ghost predicate OnlyAccount(s: State, t: State, o: Name) {
    && t.offers == s.offers && t.games == s.games && t.globals == s.globals
    && OthersKept(s, t, {o})
  }

  /** The accounts of all others are there as before, and no new ones. */
  ghost predicate OthersKept(s: State, t: State, who: set<Name>) {
    forall o :: o !in who ==>
      (o in t.accounts <==> o in s.accounts) && (o in s.accounts ==> t.accounts[o] == s.accounts[o])
  }

  /** An account before and after: what its balance and its two counters gain. */
  predicate Gains(a: Account, b: Account, balance: int, offers: int, games: int) {
    && b.owner == a.owner && b.balance == a.balance + balance
    && b.openOffers == a.openOffers + offers && b.openGames == a.openGames + games
  }

  /** The balance of an account; one that does not exist has none. */
  function Balance(s: State, o: Name): int { if o in s.accounts then s.accounts[o].balance else 0 }

  // ----- deposits and withdrawals -----

  /** A deposit goes through exactly for a positive amount that the balance can take, with or without an
      account before, and adds it to that account and to no other. */
  lemma DepositSettles(s: State, from: Name, quantity: int, n: nat)
    requires Inv(s, n)
    ensures var r := Deposit(s, from, quantity);
            && (r.Next? <==> quantity > 0 && Balance(s, from) + quantity <= MAX_AMOUNT)
            && (r.Next? ==>
                  && OnlyAccount(s, r.s, from) && from in r.s.accounts
                  && r.s.accounts[from] ==
                     if from in s.accounts then s.accounts[from].(balance := Balance(s, from) + quantity)
                     else Account(from, quantity, 0, 0))
  {
    hide OfferOk, GameOk, OpenOf, GamesOf;
    if from in s.accounts { GoodAccount(s, from, n); }
  }

  /** A withdrawal goes through exactly for a positive amount that the account holds, up to all of it, and
      takes it from that account and from no other. The account goes exactly when nothing is left in it. */
  lemma WithdrawSettles(s: State, to: Name, quantity: int, n: nat)
    requires Inv(s, n)
    ensures var r := Withdraw(s, to, quantity);
            && (r.Next? <==> to in s.accounts && 0 < quantity <= s.accounts[to].balance)
            && (r.Next? ==>
                  var a := s.accounts[to];
                  && OnlyAccount(s, r.s, to)
                  && (to !in r.s.accounts <==> quantity == a.balance && a.openOffers == 0 && a.openGames == 0)
                  && (to in r.s.accounts ==> r.s.accounts[to] == a.(balance := a.balance - quantity)))
  {
    hide OfferOk, GameOk, OpenOf, GamesOf;
    if to in s.accounts { GoodAccount(s, to, n); }
  }

  /** What is deposited can be withdrawn at once, all of it; that leaves the tables as they were, without the
      account if it was not there before. */
  lemma DepositThenWithdraw(s: State, o: Name, quantity: int, n: nat)
    requires Inv(s, n) && Deposit(s, o, quantity).Next?
    requires o in s.accounts ==> !s.accounts[o].IsEmpty()
    ensures Withdraw(Deposit(s, o, quantity).s, o, quantity) == Next(s)
  {
    hide Inv;
    DepositSettles(s, o, quantity, n);
    if o in s.accounts { SmallCounts(s, o, n); }
    BackAgain(s.accounts, o, Deposit(s, o, quantity).s.accounts);
  }

  lemma BackAgain(before: map<Name, Account>, o: Name, after: map<Name, Account>)
    requires o in after && after == before[o := after[o]]
    ensures o in before ==> after[o := before[o]] == before
    ensures o !in before ==> after - {o} == before
  {
  }

  // ----- offers -----

  /** A cancelled offer leaves the table, and its bet goes back to its owner and to no one else. */
  lemma CancelSettles(s: State, i: nat, n: nat)
    requires Inv(s, n) && n < U32 && i in s.offers
    ensures var o, r := s.offers[i], CancelOffer(s, s.offers[i].commitment);
            && o.owner in s.accounts
            && (r.Next? <==> o.gameid == 0 && s.accounts[o.owner].balance + o.bet <= MAX_AMOUNT)
            && (r.Next? ==>
                  && r.s.offers == s.offers - {i} && r.s.games == s.games && r.s.globals == s.globals
                  && OthersKept(s, r.s, {o.owner}) && o.owner in r.s.accounts
                  && Gains(s.accounts[o.owner], r.s.accounts[o.owner], o.bet, -1, 0))
  {
    hide Inv, HasOffer, FindsCommitment, OpenOf, GamesOf;
    OfferHere(s, i, n);
    SmallCounts(s, s.offers[i].owner, n);
    if s.offers[i].gameid == 0 { CountedOpen(s, i); }
  }

  lemma OfferHere(s: State, i: nat, n: nat)
    requires Inv(s, n) && i in s.offers
    ensures HasOffer(s.offers, s.offers[i].commitment) && ByCommitment(s.offers, s.offers[i].commitment) == i
    ensures s.offers[i].owner in s.accounts && 0 <= s.offers[i].bet <= MAX_AMOUNT
  {
    assert OfferOk(s, i);
    ByCommitmentIs(s.offers, s.offers[i].commitment, i);
  }

  lemma CountedOpen(s: State, i: nat)
    requires i in s.offers && s.offers[i].gameid == 0
    ensures |OpenOf(s, s.offers[i].owner)| > 0
  {
    assert i in OpenOf(s, s.offers[i].owner);
  }

  lemma CountedGame(s: State, i: nat)
    requires i in s.offers && s.offers[i].gameid != 0
    ensures |GamesOf(s, s.offers[i].owner)| > 0
  {
    assert i in GamesOf(s, s.offers[i].owner);
  }

  /** An offer's key is one above the largest in the table, 0 for the first. */
  lemma KeyAboveAll(offers: map<nat, Offer>)
    ensures forall j :: j in offers ==> j < AvailableKey(offers)
    ensures AvailableKey(offers) == 0 || AvailableKey(offers) - 1 in offers
  {
    if offers.Keys != {} { LargestExists(offers); } else { assert forall j :: j !in offers.Keys; }
  }

  /** The accounts after an offer: the player pays the bet; unmatched, it counts as an open offer; matched,
      it and the older one count as games. No other account changes. */
  lemma OfferAccounts(s: State, bet: int, player: Name, c: Hash, n: nat)
    requires Inv(s, n) && n + 1 < U32 && OfferBet(s, bet, player, c).Next?
    ensures player in s.accounts
    ensures var t, a := OfferBet(s, bet, player, c).s, s.accounts[player];
            && (forall m :: OldestWith(s.offers, bet, m) && s.offers[m].owner != player ==>
                  var other := s.offers[m].owner;
                  && t.globals == s.globals[0 := (if 0 in s.globals then s.globals[0] else 0) + 1]
                  && OthersKept(s, t, {player, other})
                  && other in s.accounts && other in t.accounts && player in t.accounts
                  && Gains(s.accounts[other], t.accounts[other], 0, -1, 1)
                  && Gains(a, t.accounts[player], -bet, 0, 1))
            && ((forall m :: OldestWith(s.offers, bet, m) ==> s.offers[m].owner == player) ==>
                  && t.globals == s.globals && OthersKept(s, t, {player})
                  && player in t.accounts && Gains(a, t.accounts[player], -bet, 1, 0))
  {
    hide Inv, HasOffer, Largest, IsLowerBound, Match, OpenOf, GamesOf;
    var id := AvailableKey(s.offers);
    var offers := s.offers[id := Offer(id, player, bet, c, 0)];
    var m := LowerBound(offers, bet, id);
    LowerBoundFacts(s, offers, bet, id, m, n);
    OldestIs(s.offers, offers, bet, id, m);
    SmallCounts(s, player, n);
    if m != id && offers[m].owner != player {
      MatchIs(s, m, id, bet, player, c, n);
      SmallCounts(s, offers[m].owner, n);
      CountedOpen(s, m);
      MatchedAccounts(s, m, id, bet, player, c);
    }
  }

  lemma SmallCounts(s: State, o: Name, n: nat)
    requires Inv(s, n) && o in s.accounts
    ensures s.accounts[o].owner == o
    ensures s.accounts[o].openOffers == |OpenOf(s, o)| <= n && s.accounts[o].openGames == |GamesOf(s, o)| <= n
    ensures 0 <= s.accounts[o].balance <= MAX_AMOUNT
  {
    hide OfferOk, GameOk, OpenOf, GamesOf;
    GoodAccount(s, o, n);
    CountsBounded(s, o);
  }

  lemma MatchedAccounts(s: State, m: nat, id: nat, bet: int, player: Name, c: Hash)
    requires CanMatch(s, m, id, bet, player, c)
    requires s.accounts[s.offers[m].owner].openOffers > 0 && s.accounts[s.offers[m].owner].openGames + 1 < U32
    requires s.accounts[player].openGames + 1 < U32
    ensures var t, a, other := Matched(s, m, id, bet, player, c), s.accounts[player], s.offers[m].owner;
            && t.globals == s.globals[0 := NextGameId(s) + 1] && OthersKept(s, t, {player, other})
            && other in s.accounts && other in t.accounts && player in t.accounts
            && Gains(s.accounts[other], t.accounts[other], 0, -1, 1)
            && Gains(a, t.accounts[player], -bet, 0, 1)
  {
  }

  // ----- payments -----

  /** The game and its two offers are gone, the winner has both stakes, and the loser's account is gone
      exactly when nothing is left in it. */
  ghost predicate PaidOut(s: State, t: State, gid: nat, w: nat, l: nat)
    requires gid in s.games && w in s.offers && l in s.offers
    requires s.offers[w].owner in s.accounts && s.offers[l].owner in s.accounts
  {
    var winner, loser := s.offers[w].owner, s.offers[l].owner;
    var a, b := s.accounts[winner], s.accounts[loser];
    && t.games == s.games - {gid} && t.offers == s.offers - {w, l} && t.globals == s.globals
    && OthersKept(s, t, {winner, loser})
    && winner in t.accounts && Gains(a, t.accounts[winner], 2 * s.games[gid].bet, 0, -1)
    && (loser !in t.accounts <==> b.balance == 0 && b.openOffers == 0 && b.openGames == 1)
    && (loser in t.accounts ==> Gains(b, t.accounts[loser], 0, 0, -1))
  }

  lemma PaySettles(s: State, gid: nat, w: nat, l: nat, n: nat)
    requires Inv(s, n) && n < U32 && Sides(s, gid, w, l)
    ensures gid in s.games && w in s.offers && l in s.offers
    ensures s.offers[w].owner in s.accounts && s.offers[l].owner in s.accounts
    ensures var r := PayAndClean(s, s.games[gid], s.offers[w], s.offers[l]);
            && (r.Next? <==> CanPay(s, s.games[gid].bet, s.offers[w].owner))
            && (r.Next? ==> PaidOut(s, r.s, gid, w, l))
  {
    hide Inv, Sides, CanPay, OpenOf, GamesOf;
    PayRange(s, gid, w, l, n);
    SidesFacts(s, gid, w, l, n);
    SmallCounts(s, s.offers[w].owner, n);
    SmallCounts(s, s.offers[l].owner, n);
    CountedGame(s, w);
    CountedGame(s, l);
    assert s.offers - {w} - {l} == s.offers - {w, l};
  }

  /** The second reveal of a game pays the winner of the draw. */
  lemma RevealPays(s: State, gid: nat, i: nat, j: nat, first: bool, source: Hash, currWins: bool, now: nat, n: nat)
    requires Inv(s, n) && n < U32 && gid in s.games && Seats(s, gid, i, j)
    requires !IsZero(if first then s.games[gid].player2.revealed else s.games[gid].player1.revealed)
    ensures s.offers[i].owner in s.accounts && s.offers[j].owner in s.accounts
    ensures var c := if first then s.games[gid].player1.commitment else s.games[gid].player2.commitment;
            var r := Reveal(s, c, source, true, currWins, now);
            r.Next? ==> if first == currWins then PaidOut(s, r.s, gid, i, j) else PaidOut(s, r.s, gid, j, i)
  {
    hide Inv, HasOffer, PayAndClean, PaidOut;
    BothFound(s, gid, i, j, n);
    PaySettles(s, gid, i, j, n);
    PaySettles(s, gid, j, i, n);
  }

  /** A claim pays the player of the first seat if that one has revealed, and the other one otherwise. */
  lemma ClaimPays(s: State, gid: nat, i: nat, j: nat, now: nat, n: nat)
    requires Inv(s, n) && n < U32 && gid in s.games && Seats(s, gid, i, j)
    ensures s.offers[i].owner in s.accounts && s.offers[j].owner in s.accounts
    ensures var r := ClaimExpired(s, gid, now);
            r.Next? ==>
              && 0 != s.games[gid].deadline < now
              && if s.games[gid].player1.revealed != 0 then PaidOut(s, r.s, gid, i, j) else PaidOut(s, r.s, gid, j, i)
  {
    hide Inv, HasOffer, PayAndClean, PaidOut;
    BothFound(s, gid, i, j, n);
    PaySettles(s, gid, i, j, n);
    PaySettles(s, gid, j, i, n);
  }

  /** A reveal needs the right hash and an offer in a game, and a claim a game. */
  lemma NeedsGame(s: State, c: Hash, source: Hash, hashOk: bool, currWins: bool, gid: nat, now: nat, n: nat)
    requires Inv(s, n)
    ensures Reveal(s, c, source, hashOk, currWins, now).Next? ==>
              hashOk && exists i :: i in s.offers && s.offers[i].commitment == c && s.offers[i].gameid != 0
    ensures ClaimExpired(s, gid, now).Next? ==> gid in s.games
  {
    hide PayAndClean, Inv;
  }
}
