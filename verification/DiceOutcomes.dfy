/** When the actions of the dice contract go through, and whom an expired game pays. */
module DiceOutcomes {
  import opened DiceState
  import opened DiceInvariants

  /** The payment to `winner` stays within an asset's range. */
  ghost predicate CanPay(s: State, bet: int, winner: Name)
    requires winner in s.accounts
  {
    2 * bet <= MAX_AMOUNT && s.accounts[winner].balance + 2 * bet <= MAX_AMOUNT
  }

  lemma CancelSucceeds(s: State, c: Hash, n: nat)
    requires Inv(s, n)
    ensures CancelOffer(s, c).Next? <==>
            exists i :: i in s.offers && s.offers[i].commitment == c && s.offers[i].gameid == 0
                        && s.offers[i].owner in s.accounts
                        && s.accounts[s.offers[i].owner].balance + s.offers[i].bet <= MAX_AMOUNT
  {
    hide Inv, OfferOk, AccountOk, FindsCommitment;
    OneOffer(s, c, n);
    if HasOffer(s.offers, c) {
      var i := ByCommitment(s.offers, c);
      RichEnough(s, s.offers[i].owner, n);
    }
  }

  lemma OneOffer(s: State, c: Hash, n: nat)
    requires Inv(s, n)
    ensures HasOffer(s.offers, c) ==>
              var i := ByCommitment(s.offers, c);
              && i in s.offers && s.offers[i].commitment == c && s.offers[i].owner in s.accounts && s.offers[i].bet >= 0
              && forall j :: j in s.offers && s.offers[j].commitment == c ==> j == i
  {
    hide AllGames, AllAccounts;
    if HasOffer(s.offers, c) {
      FoundOffer(s, c);
      assert OfferOk(s, ByCommitment(s.offers, c));
    }
  }

  /** An expired game always pays out: the games, offers and accounts it needs are there. */
  lemma ClaimSucceeds(s: State, gid: nat, i: nat, j: nat, now: nat, n: nat)
    requires Inv(s, n) && n < U32 && gid in s.games && Seats(s, gid, i, j)
    ensures var w := if IsZero(s.games[gid].player1.revealed) then j else i;
            && s.offers[w].owner in s.accounts
            && (ClaimExpired(s, gid, now).Next? <==>
                  0 != s.games[gid].deadline < now && CanPay(s, s.games[gid].bet, s.offers[w].owner))
  {
    hide Inv, Seats, HasOffer, PayAndClean;
    BothFound(s, gid, i, j, n);
    PayRange(s, gid, i, j, n);
    PayRange(s, gid, j, i, n);
  }

  lemma BothFound(s: State, gid: nat, i: nat, j: nat, n: nat)
    requires Inv(s, n) && gid in s.games && Seats(s, gid, i, j)
    ensures var g := s.games[gid];
            && HasOffer(s.offers, g.player1.commitment) && ByCommitment(s.offers, g.player1.commitment) == i
            && HasOffer(s.offers, g.player2.commitment) && ByCommitment(s.offers, g.player2.commitment) == j
            && g.player1.commitment != g.player2.commitment && !GameError(g) && gid != 0
  {
    hide AllOffers, AllAccounts, KeysOk;
    ByCommitmentIs(s.offers, s.games[gid].player1.commitment, i);
    ByCommitmentIs(s.offers, s.games[gid].player2.commitment, j);
    assert GameOk(s, gid);
  }

  lemma PayRange(s: State, gid: nat, w: nat, l: nat, n: nat)
    requires Inv(s, n) && n < U32 && Sides(s, gid, w, l)
    ensures w in s.offers && l in s.offers && gid in s.games && s.offers[w].owner in s.accounts
    ensures PayAndClean(s, s.games[gid], s.offers[w], s.offers[l]).Next?
            <==> CanPay(s, s.games[gid].bet, s.offers[w].owner)
  {
    hide Inv, Sides;
    SidesFacts(s, gid, w, l, n);
    PayKeeps(s, gid, w, l, n);
    RichEnough(s, s.offers[w].owner, n);
  }

  lemma RichEnough(s: State, o: Name, n: nat)
    requires Inv(s, n) && o in s.accounts
    ensures 0 <= s.accounts[o].balance <= MAX_AMOUNT
  {
  }

  // ----- what an offer does -----

  /** The oldest offer with this bet; only unmatched offers still have one. */
  ghost predicate OldestWith(offers: map<nat, Offer>, bet: int, m: nat) {
    m in offers && offers[m].bet == bet && forall j :: j in offers && offers[j].bet == bet ==> m <= j
  }

  /** When an offer goes through, and what it does: it is matched with the oldest offer of the same bet,
      if that is another player's, and stays open otherwise. The older offer takes the first seat. */
  lemma OfferSettles(s: State, bet: int, player: Name, c: Hash, n: nat)
    requires Inv(s, n) && n + 1 < U32
    ensures OfferBet(s, bet, player, c).Next? <==>
            && 0 < bet <= MAX_AMOUNT && !HasOffer(s.offers, c) && player in s.accounts
            && s.accounts[player].balance >= bet
            && AvailableKey(s.offers) < NO_AVAILABLE_KEY
    ensures var r, id, gid := OfferBet(s, bet, player, c), AvailableKey(s.offers), NextGameId(s) + 1;
            r.Next? ==>
              && player in r.s.accounts && r.s.accounts[player].balance == s.accounts[player].balance - bet
              && (forall m :: OldestWith(s.offers, bet, m) && s.offers[m].owner != player ==>
                    && r.s.games == s.games[gid := Game(gid, bet, 0, Player(s.offers[m].commitment, 0), Player(c, 0))]
                    && r.s.offers == s.offers[m := s.offers[m].(bet := 0, gameid := gid)]
                                             [id := Offer(id, player, 0, c, gid)])
              && ((forall m :: OldestWith(s.offers, bet, m) ==> s.offers[m].owner == player) ==>
                    r.s.games == s.games && r.s.offers == s.offers[id := Offer(id, player, bet, c, 0)])
  {
    hide Inv, HasOffer, Largest, IsLowerBound, Match;
    if player in s.accounts && 0 < bet <= s.accounts[player].balance && !HasOffer(s.offers, c) {
      var id := AvailableKey(s.offers);
      var offers := s.offers[id := Offer(id, player, bet, c, 0)];
      var m := LowerBound(offers, bet, id);
      LowerBoundFacts(s, offers, bet, id, m, n);
      OldestIs(s.offers, offers, bet, id, m);
      if m != id && offers[m].owner != player {
        MatchIs(s, m, id, bet, player, c, n);
      }
    }
  }

  lemma OldestIs(before: map<nat, Offer>, offers: map<nat, Offer>, bet: int, id: nat, m: nat)
    requires id == AvailableKey(before) && id in offers && offers == before[id := offers[id]] && offers[id].bet == bet
    requires IsLowerBound(offers, bet, m) && offers[m].bet == bet
    ensures m != id ==> OldestWith(before, bet, m) && forall k :: OldestWith(before, bet, k) ==> k == m
    ensures m == id ==> forall k :: !OldestWith(before, bet, k)
  {
    forall j | j in before && before[j].bet == bet ensures m <= j && (m == id ==> id > j) {
      assert offers[j].bet >= bet;
      if before.Keys != {} {
        LargestExists(before);
      }
    }
  }

  /** A second reveal pays both stakes to the winner of the draw, and the first one is only recorded. */
  lemma RevealSettles(s: State, gid: nat, i: nat, j: nat, first: bool, source: Hash, currWins: bool, now: nat, n: nat)
    requires Inv(s, n) && n < U32 && gid in s.games && Seats(s, gid, i, j)
    ensures var g := s.games[gid];
            var c, mine, theirs := if first then g.player1.commitment else g.player2.commitment,
                                   if first then g.player1.revealed else g.player2.revealed,
                                   if first then g.player2.revealed else g.player1.revealed;
            var w := if first == currWins then i else j;
            var r := Reveal(s, c, source, true, currWins, now);
            && s.offers[w].owner in s.accounts
            && (r.Next? <==> IsZero(mine) && (IsZero(theirs) || CanPay(s, g.bet, s.offers[w].owner)))
            && (r.Next? && IsZero(theirs) ==>
                  r.s == s.(games := s.games[gid := Game(g.id, g.bet, (now + 5 * 60) % U32,
                                                         if first then Player(c, source) else g.player1,
                                                         if first then g.player2 else Player(c, source))]))
            && (r.Next? && !IsZero(theirs) ==>
                  && s.offers[w].owner in r.s.accounts
                  && r.s.accounts[s.offers[w].owner].balance == s.accounts[s.offers[w].owner].balance + 2 * g.bet
                  && gid !in r.s.games && i !in r.s.offers && j !in r.s.offers)
  {
    hide Inv, HasOffer, PayAndClean;
    BothFound(s, gid, i, j, n);
    SettlePays(s, gid, i, j, n);
    SettlePays(s, gid, j, i, n);
  }

  lemma SettlePays(s: State, gid: nat, w: nat, l: nat, n: nat)
    requires Inv(s, n) && n < U32 && Sides(s, gid, w, l)
    ensures w in s.offers && l in s.offers && gid in s.games && s.offers[w].owner in s.accounts
    ensures var r := PayAndClean(s, s.games[gid], s.offers[w], s.offers[l]);
            && (r.Next? <==> CanPay(s, s.games[gid].bet, s.offers[w].owner))
            && (r.Next? ==>
                  && s.offers[w].owner in r.s.accounts
                  && r.s.accounts[s.offers[w].owner].balance
                    == s.accounts[s.offers[w].owner].balance + 2 * s.games[gid].bet
                  && gid !in r.s.games && w !in r.s.offers && l !in r.s.offers)
  {
    hide Inv, Sides, CanPay, PayAndClean;
    PayRange(s, gid, w, l, n);
    SidesFacts(s, gid, w, l, n);
    PayKeeps(s, gid, w, l, n);
  }

  // ----- whom a claim pays -----

  /** Who is paid when the second player never reveals, for every source and both seats: the one
      who revealed, unless that was the first seat with the all-zero source. */
  lemma ClaimAfterReveal(s: State, gid: nat, i: nat, j: nat, first: bool, source: Hash, t: nat, now: nat, n: nat)
    requires Inv(s, n) && n < U32 && gid in s.games && Seats(s, gid, i, j)
    requires IsZero(s.games[gid].player1.revealed) && IsZero(s.games[gid].player2.revealed)
    requires (t + FIVE_MINUTES) % U32 != 0 && now > (t + FIVE_MINUTES) % U32
    ensures var c := if first then s.games[gid].player1.commitment else s.games[gid].player2.commitment;
            var mine, other := if first then s.offers[i] else s.offers[j], if first then s.offers[j] else s.offers[i];
            var r := Reveal(s, c, source, true, true, t);
            && mine.commitment == c && mine.owner != other.owner
            && r.Next? && gid in r.s.games
            && ClaimExpired(r.s, gid, now) ==
                 if source != 0 || !first then PayAndClean(r.s, r.s.games[gid], mine, other)
                 else PayAndClean(r.s, r.s.games[gid], other, mine)
  {
    hide Inv, HasOffer, PayAndClean;
    BothFound(s, gid, i, j, n);
  }

  // ----- deadlines in runs -----

  /** Nonzero sources, and a clock that does not wrap to zero. */
  ghost predicate Honest(a: Action) {
    a.DoReveal? ==> a.source != 0 && (a.now + FIVE_MINUTES) % U32 != 0
  }

  ghost predicate DeadlineOk(g: Game) {
    g.deadline != 0 <==> !IsZero(g.player1.revealed) || !IsZero(g.player2.revealed)
  }

  ghost predicate Deadlines(s: State) { forall g :: g in s.games ==> DeadlineOk(s.games[g]) }

  lemma PayDeadlines(s: State, g: Game, winner: Offer, loser: Offer)
    requires Deadlines(s)
    ensures var r := PayAndClean(s, g, winner, loser); r.Next? ==> Deadlines(r.s)
  {
  }

  lemma RevealDeadlines(s: State, c: Hash, source: Hash, hashOk: bool, currWins: bool, now: nat)
    requires Deadlines(s) && source != 0 && (now + FIVE_MINUTES) % U32 != 0
    ensures var r := Reveal(s, c, source, hashOk, currWins, now); r.Next? ==> Deadlines(r.s)
  {
    hide PayAndClean;
    forall g, w, l ensures var r := PayAndClean(s, g, w, l); r.Next? ==> Deadlines(r.s) {
      PayDeadlines(s, g, w, l);
    }
  }

  lemma StepDeadlines(s: State, a: Action)
    requires Deadlines(s) && Honest(a)
    ensures Deadlines(Step(s, a))
  {
    hide PayAndClean, Reveal;
    match a
    case DoReveal(c, source, hashOk, currWins, now) => RevealDeadlines(s, c, source, hashOk, currWins, now);
    case DoClaim(gid, now) =>
      forall g, w, l ensures var r := PayAndClean(s, g, w, l); r.Next? ==> Deadlines(r.s) {
        PayDeadlines(s, g, w, l);
      }
    case _ =>
  }

  lemma {:induction false} RunDeadlines(actions: seq<Action>)
    requires forall a :: a in actions ==> Honest(a)
    ensures Deadlines(Run(actions))
  {
    if actions != [] {
      RunDeadlines(actions[..|actions| - 1]);
      StepDeadlines(Run(actions[..|actions| - 1]), actions[|actions| - 1]);
    }
  }

  /** In a run of nonzero sources, a claim that succeeds finds exactly one reveal and pays that player. */
  lemma ClaimPaysRevealer(actions: seq<Action>, gid: nat, now: nat)
    requires |actions| < U32 && (forall a :: a in actions ==> Honest(a))
    requires ClaimExpired(Run(actions), gid, now).Next?
    ensures var s := Run(actions);
            && gid in s.games
            && var g := s.games[gid];
               && (IsZero(g.player1.revealed) <==> !IsZero(g.player2.revealed))
               && exists w, l :: Sides(s, gid, w, l)
                                 && (if IsZero(g.player1.revealed) then g.player2 else g.player1).commitment
                                    == s.offers[w].commitment
                                 && ClaimExpired(s, gid, now) == PayAndClean(s, g, s.offers[w], s.offers[l])
  {
    hide Inv, Run, HasOffer, PayAndClean;
    var s := Run(actions);
    RunKeeps(actions);
    RunDeadlines(actions);
    assert DeadlineOk(s.games[gid]);
    var i, j := PlayersFound(s, gid, |actions|);
    var second := IsZero(s.games[gid].player1.revealed);
    var w, l := if second then j else i, if second then i else j;
    assert Sides(s, gid, w, l);
  }
}
