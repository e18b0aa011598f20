/** What every run of the dice contract keeps. */
module DiceInvariants {
  import opened DiceState
  import opened TableSums

  // ----- sums over tables -----

  function Balances(accounts: map<Name, Account>): map<nat, int> { map o | o in accounts :: accounts[o].balance }

  function Bets(offers: map<nat, Offer>): map<nat, int> { map i | i in offers :: offers[i].bet }

  function Stakes(games: map<nat, Game>): map<nat, int> { map g | g in games :: 2 * games[g].bet }

  /** The tokens the contract's tables account for. */
  ghost function Total(s: State): int { Sum(Balances(s.accounts)) + Sum(Bets(s.offers)) + Sum(Stakes(s.games)) }

  lemma PutAccount(accounts: map<Name, Account>, o: Name, a: Account)
    ensures Sum(Balances(accounts[o := a])) == Sum(Balances(accounts)) - At(Balances(accounts), o) + a.balance
  {
    SumPut(Balances(accounts), o, a.balance);
    assert Balances(accounts[o := a]) == Balances(accounts)[o := a.balance];
  }

  lemma DropAccount(accounts: map<Name, Account>, o: Name)
    ensures Sum(Balances(accounts - {o})) == Sum(Balances(accounts)) - At(Balances(accounts), o)
  {
    SumDrop(Balances(accounts), o);
    assert Balances(accounts - {o}) == Balances(accounts) - {o};
  }

  lemma PutOffer(offers: map<nat, Offer>, i: nat, o: Offer)
    ensures Sum(Bets(offers[i := o])) == Sum(Bets(offers)) - At(Bets(offers), i) + o.bet
  {
    SumPut(Bets(offers), i, o.bet);
    assert Bets(offers[i := o]) == Bets(offers)[i := o.bet];
  }

  lemma DropOffer(offers: map<nat, Offer>, i: nat)
    ensures Sum(Bets(offers - {i})) == Sum(Bets(offers)) - At(Bets(offers), i)
  {
    SumDrop(Bets(offers), i);
    assert Bets(offers - {i}) == Bets(offers) - {i};
  }

  lemma PutGame(games: map<nat, Game>, i: nat, g: Game)
    ensures Sum(Stakes(games[i := g])) == Sum(Stakes(games)) - At(Stakes(games), i) + 2 * g.bet
  {
    SumPut(Stakes(games), i, 2 * g.bet);
    assert Stakes(games[i := g]) == Stakes(games)[i := 2 * g.bet];
  }

  lemma DropGame(games: map<nat, Game>, i: nat)
    ensures Sum(Stakes(games - {i})) == Sum(Stakes(games)) - At(Stakes(games), i)
  {
    SumDrop(Stakes(games), i);
    assert Stakes(games - {i}) == Stakes(games) - {i};
  }

  // ----- the invariant -----

  ghost predicate KeysOk(s: State) {
    && (forall i :: i in s.offers ==> s.offers[i].id == i)
    && (forall g :: g in s.games ==> s.games[g].id == g)
    && (forall o :: o in s.accounts ==> s.accounts[o].owner == o)
  }

  ghost predicate OfferOk(s: State, i: nat)
    requires i in s.offers
  {
    var o := s.offers[i];
    && o.owner in s.accounts
    && (if o.gameid == 0 then 0 < o.bet <= MAX_AMOUNT else o.bet == 0 && o.gameid in s.games)
  }

  ghost predicate Unique(offers: map<nat, Offer>) {
    forall i, j :: i in offers && j in offers && offers[i].commitment == offers[j].commitment ==> i == j
  }

  /** Offers i and j are the two sides of game g, and no other offer is in it. */
  ghost predicate Seats(s: State, g: nat, i: nat, j: nat)
    requires g in s.games
  {
    && i in s.offers && j in s.offers && i != j
    && s.offers[i].gameid == g && s.offers[j].gameid == g
    && s.offers[i].commitment == s.games[g].player1.commitment
    && s.offers[j].commitment == s.games[g].player2.commitment
    && s.offers[i].owner != s.offers[j].owner
    && forall k :: k in s.offers && s.offers[k].gameid == g ==> k == i || k == j
  }

  ghost predicate GameOk(s: State, g: nat)
    requires g in s.games
  {
    && 0 < g <= NextGameId(s)
    && 0 < s.games[g].bet <= MAX_AMOUNT
    && !GameError(s.games[g])
    && exists i, j :: Seats(s, g, i, j)
  }

  function OpenOf(s: State, o: Name): set<nat> {
    set i | i in s.offers && s.offers[i].owner == o && s.offers[i].gameid == 0
  }

  function GamesOf(s: State, o: Name): set<nat> {
    set i | i in s.offers && s.offers[i].owner == o && s.offers[i].gameid != 0
  }

  ghost predicate AccountOk(s: State, o: Name)
    requires o in s.accounts
  {
    && 0 <= s.accounts[o].balance <= MAX_AMOUNT
    && s.accounts[o].openOffers == |OpenOf(s, o)|
    && s.accounts[o].openGames == |GamesOf(s, o)|
  }

  ghost predicate AllOffers(s: State) { forall i :: i in s.offers ==> OfferOk(s, i) }

  ghost predicate AllGames(s: State) { forall g :: g in s.games ==> GameOk(s, g) }

  ghost predicate AllAccounts(s: State) { forall o :: o in s.accounts ==> AccountOk(s, o) }

  /** n bounds the rows and game numbers, so that 32- and 64-bit counters do not wrap. */
  ghost predicate Inv(s: State, n: nat) {
    && KeysOk(s) && Unique(s.offers) && AllOffers(s) && AllGames(s) && AllAccounts(s)
    && |s.offers| <= n && NextGameId(s) <= n
  }

  lemma CountsBounded(s: State, o: Name)
    ensures |OpenOf(s, o)| <= |s.offers| && |GamesOf(s, o)| <= |s.offers|
  {
    Subset(OpenOf(s, o), s.offers.Keys);
    Subset(GamesOf(s, o), s.offers.Keys);
  }

  lemma ByCommitmentIs(offers: map<nat, Offer>, c: Hash, i: nat)
    requires Unique(offers) && i in offers && offers[i].commitment == c
    ensures HasOffer(offers, c) && ByCommitment(offers, c) == i
  {
  }

  // ----- changing one account -----

  lemma NoRows(s: State, o: Name)
    ensures (forall i :: i in s.offers ==> s.offers[i].owner != o) <==> OpenOf(s, o) == {} && GamesOf(s, o) == {}
  {
    if OpenOf(s, o) == {} && GamesOf(s, o) == {} {
      forall i | i in s.offers ensures s.offers[i].owner != o {
        assert i !in OpenOf(s, o) && i !in GamesOf(s, o);
      }
    }
  }

  lemma NobodysRows(s: State, o: Name, n: nat)
    requires Inv(s, n) && o !in s.accounts
    ensures OpenOf(s, o) == {} && GamesOf(s, o) == {} && At(Balances(s.accounts), o) == 0
  {
    forall i | i in s.offers ensures s.offers[i].owner != o { assert OfferOk(s, i); }
    NoRows(s, o);
  }

  /** Changing accounts only keeps what is said about offers and games. */
  lemma SameTables(s: State, t: State)
    requires t.offers == s.offers && t.games == s.games && t.globals == s.globals
    requires AllOffers(s) && AllGames(s)
    requires forall i :: i in s.offers ==> s.offers[i].owner in t.accounts
    ensures AllOffers(t) && AllGames(t)
    ensures forall o :: OpenOf(t, o) == OpenOf(s, o) && GamesOf(t, o) == GamesOf(s, o)
  {
    forall i | i in t.offers ensures OfferOk(t, i) { assert OfferOk(s, i); }
    SameSeats(s, t);
  }

  /** Games stay as they are when the offers in them do. */
  lemma SameSeats(s: State, t: State)
    requires AllGames(s) && t.games == s.games && NextGameId(t) >= NextGameId(s)
    requires forall i :: i in s.offers && s.offers[i].gameid != 0 ==> i in t.offers && t.offers[i] == s.offers[i]
    requires forall i :: i in t.offers && t.offers[i].gameid != 0 ==> i in s.offers
    requires forall i :: i in t.offers && i in s.offers && t.offers[i].gameid != 0 ==> s.offers[i] == t.offers[i]
    ensures AllGames(t)
  {
    forall g | g in t.games ensures GameOk(t, g) {
      assert GameOk(s, g);
      var i, j :| Seats(s, g, i, j);
      assert Seats(t, g, i, j);
    }
  }

  lemma PutKeeps(s: State, o: Name, a: Account, n: nat)
    requires Inv(s, n) && a.owner == o && 0 <= a.balance <= MAX_AMOUNT
    requires a.openOffers == |OpenOf(s, o)| && a.openGames == |GamesOf(s, o)|
    ensures Inv(s.(accounts := s.accounts[o := a]), n)
    ensures Total(s.(accounts := s.accounts[o := a])) == Total(s) - At(Balances(s.accounts), o) + a.balance
  {
    hide Sum, Balances, OpenOf, GamesOf, AllGames, AllOffers, Unique;
    var t := s.(accounts := s.accounts[o := a]);
    PutAccount(s.accounts, o, a);
    OwnersIn(s);
    SameTables(s, t);
    OtherAccounts(s, t, {o});
    assert AccountOk(t, o);
  }

  lemma OwnersIn(s: State)
    requires AllOffers(s)
    ensures forall i :: i in s.offers ==> s.offers[i].owner in s.accounts
  {
    forall i | i in s.offers ensures s.offers[i].owner in s.accounts { assert OfferOk(s, i); }
  }

  /** Accounts whose row and offers have not changed are still right. */
  lemma OtherAccounts(s: State, t: State, changed: set<Name>)
    requires AllAccounts(s)
    requires forall p :: p in t.accounts && p !in changed ==>
               p in s.accounts && t.accounts[p] == s.accounts[p] && OpenOf(t, p) == OpenOf(s, p)
                 && GamesOf(t, p) == GamesOf(s, p)
    ensures forall p :: p in t.accounts && p !in changed ==> AccountOk(t, p)
  {
    forall p | p in t.accounts && p !in changed ensures AccountOk(t, p) { assert AccountOk(s, p); }
  }

  lemma DropKeeps(s: State, o: Name, n: nat)
    requires Inv(s, n) && o in s.accounts && s.accounts[o].IsEmpty()
    ensures Inv(s.(accounts := s.accounts - {o}), n) && Total(s.(accounts := s.accounts - {o})) == Total(s)
  {
    hide Sum, Total, OpenOf, GamesOf, AllGames, AllOffers, AccountOk, Unique;
    var t := s.(accounts := s.accounts - {o});
    EmptyAccount(s, o);
    DropTotal(s, o);
    SameTables(s, t);
    OtherAccounts(s, t, {});
  }

  lemma DropTotal(s: State, o: Name)
    requires o in s.accounts && s.accounts[o].balance == 0
    ensures Total(s.(accounts := s.accounts - {o})) == Total(s)
  {
    DropAccount(s.accounts, o);
    hide Sum;
  }

  /** An empty account has no offers and no games, so nothing refers to it. */
  lemma EmptyAccount(s: State, o: Name)
    requires AllOffers(s) && AllAccounts(s) && o in s.accounts && s.accounts[o].IsEmpty()
    ensures forall i :: i in s.offers ==> s.offers[i].owner in s.accounts - {o}
  {
    assert AccountOk(s, o);
    OwnersIn(s);
    NoRows(s, o);
  }

  // ----- deposit and withdraw -----

  lemma DepositKeeps(s: State, from: Name, quantity: int, n: nat)
    requires Inv(s, n)
    ensures var r := Deposit(s, from, quantity);
            r.Next? ==> Inv(r.s, n) && Total(r.s) == Total(s) + quantity
  {
    hide OpenOf, GamesOf, Inv, Total, Balances;
    var r := Deposit(s, from, quantity);
    if r.Next? {
      if from in s.accounts {
        GoodAccount(s, from, n);
      } else {
        NobodysRows(s, from, n);
      }
      PutKeeps(s, from, r.s.accounts[from], n);
    }
  }

  lemma WithdrawKeeps(s: State, to: Name, quantity: int, n: nat)
    requires Inv(s, n)
    ensures var r := Withdraw(s, to, quantity);
            r.Next? ==> Inv(r.s, n) && Total(r.s) == Total(s) - quantity
  {
    hide OpenOf, GamesOf, Inv, Total, Balances;
    var r := Withdraw(s, to, quantity);
    if r.Next? {
      var a := s.accounts[to].(balance := s.accounts[to].balance - quantity);
      var s1 := s.(accounts := s.accounts[to := a]);
      GoodAccount(s, to, n);
      PutKeeps(s, to, a, n);
      if a.IsEmpty() {
        assert s1.accounts - {to} == s.accounts - {to};
        DropKeeps(s1, to, n);
      }
    }
  }

  lemma GoodAccount(s: State, o: Name, n: nat)
    requires Inv(s, n) && o in s.accounts
    ensures s.accounts[o].owner == o && 0 <= s.accounts[o].balance <= MAX_AMOUNT
    ensures s.accounts[o].openOffers == |OpenOf(s, o)| && s.accounts[o].openGames == |GamesOf(s, o)|
    ensures At(Balances(s.accounts), o) == s.accounts[o].balance
  {
  }

  // ----- offers -----

  /** A new offer that finds no match. */
  lemma OpenKeeps(s: State, id: nat, bet: int, player: Name, c: Hash, n: nat)
    requires Inv(s, n) && n + 1 < U32 && id !in s.offers && !HasOffer(s.offers, c) && player in s.accounts
    requires 0 < bet <= s.accounts[player].balance
    ensures var a := s.accounts[player];
            var t := s.(offers := s.offers[id := Offer(id, player, bet, c, 0)],
                        accounts := s.accounts[player := a.(balance := a.balance - bet,
                                                            openOffers := Inc32(a.openOffers))]);
            Inv(t, n + 1) && Total(t) == Total(s)
  {
    hide Sum, Total, OpenOf, GamesOf, AllGames, AllOffers, AllAccounts, Unique, HasOffer, KeysOk, Bets, Balances;
    var a := s.accounts[player];
    var o, a' := Offer(id, player, bet, c, 0), a.(balance := a.balance - bet, openOffers := Inc32(a.openOffers));
    var t := s.(offers := s.offers[id := o], accounts := s.accounts[player := a']);
    GoodAccount(s, player, n);
    CountsBounded(s, player);
    AddedTotal(s, id, o, player, a');
    AddedKeys(s, id, o, player, a');
    AddedOffer(s, t, id, player);
    AddedAccounts(s, t, id, player);
  }

  lemma AddedKeys(s: State, id: nat, o: Offer, player: Name, a: Account)
    requires KeysOk(s) && o.id == id && a.owner == player
    ensures KeysOk(s.(offers := s.offers[id := o], accounts := s.accounts[player := a]))
  {
  }

  lemma AddedAccounts(s: State, t: State, id: nat, player: Name)
    requires AllAccounts(s) && AllGames(s) && id !in s.offers && player in s.accounts
    requires id in t.offers && t.offers == s.offers[id := t.offers[id]] && t.games == s.games && t.globals == s.globals
    requires t.offers[id].gameid == 0 && t.offers[id].owner == player
    requires player in t.accounts && t.accounts == s.accounts[player := t.accounts[player]]
    requires 0 <= t.accounts[player].balance <= MAX_AMOUNT
    requires t.accounts[player].openOffers == |OpenOf(s, player)| + 1
    requires t.accounts[player].openGames == |GamesOf(s, player)|
    ensures AllAccounts(t) && AllGames(t)
  {
    hide OpenOf, GamesOf, GameOk;
    AddedOpen(s, t, id, player);
    SameSeats(s, t);
    OtherAccounts(s, t, {player});
  }

  lemma AddedTotal(s: State, id: nat, o: Offer, player: Name, a: Account)
    requires id !in s.offers && player in s.accounts && a.balance == s.accounts[player].balance - o.bet
    ensures Total(s.(offers := s.offers[id := o], accounts := s.accounts[player := a])) == Total(s)
  {
    PutAccount(s.accounts, player, a);
    PutOffer(s.offers, id, o);
    hide Sum;
  }

  lemma AddedOffer(s: State, t: State, id: nat, player: Name)
    requires AllOffers(s) && Unique(s.offers) && id !in s.offers && player in s.accounts
    requires id in t.offers && t.offers == s.offers[id := t.offers[id]] && t.games == s.games
    requires t.accounts.Keys == s.accounts.Keys
    requires t.offers[id].owner == player && t.offers[id].gameid == 0 && 0 < t.offers[id].bet <= MAX_AMOUNT
    requires !HasOffer(s.offers, t.offers[id].commitment)
    ensures AllOffers(t) && Unique(t.offers)
  {
    forall i | i in t.offers ensures OfferOk(t, i) { if i != id { assert OfferOk(s, i); } }
    NewCommitment(s.offers, t.offers[id].commitment);
  }

  lemma NewCommitment(offers: map<nat, Offer>, c: Hash)
    requires !HasOffer(offers, c)
    ensures forall i :: i in offers ==> offers[i].commitment != c
  {
  }

  lemma AddedOpen(s: State, t: State, id: nat, player: Name)
    requires id !in s.offers && id in t.offers && t.offers == s.offers[id := t.offers[id]]
    requires t.offers[id].gameid == 0 && t.offers[id].owner == player
    ensures forall p :: GamesOf(t, p) == GamesOf(s, p)
    ensures forall p :: p != player ==> OpenOf(t, p) == OpenOf(s, p)
    ensures |OpenOf(t, player)| == |OpenOf(s, player)| + 1
  {
    assert OpenOf(t, player) == OpenOf(s, player) + {id};
  }

  // ----- a match -----

  /** The state after offer `id` was matched with the older offer `m`. */
  function Matched(s: State, m: nat, id: nat, bet: int, player: Name, c: Hash): State
    requires m in s.offers && s.offers[m].owner in s.accounts && player in s.accounts
  {
    var gid := NextGameId(s) + 1;
    var owner := s.offers[m].owner;
    var w, p := s.accounts[owner], s.accounts[player];
    State(s.offers[m := s.offers[m].(bet := 0, gameid := gid)][id := Offer(id, player, 0, c, gid)],
          s.games[gid := Game(gid, bet, 0, Player(s.offers[m].commitment, 0), Player(c, 0))],
          s.globals[0 := gid],
          s.accounts[owner := w.(openOffers := Dec32(w.openOffers), openGames := Inc32(w.openGames))]
                    [player := p.(balance := p.balance - bet, openGames := Inc32(p.openGames))])
  }

  ghost predicate CanMatch(s: State, m: nat, id: nat, bet: int, player: Name, c: Hash) {
    && m in s.offers && s.offers[m].bet == bet && s.offers[m].owner != player && s.offers[m].owner in s.accounts
    && id !in s.offers && player in s.accounts && 0 < bet <= s.accounts[player].balance
    && !HasOffer(s.offers, c)
  }

  lemma MatchedTotal(s: State, m: nat, id: nat, bet: int, player: Name, c: Hash)
    requires CanMatch(s, m, id, bet, player, c) && NextGameId(s) + 1 !in s.games
    ensures Total(Matched(s, m, id, bet, player, c)) == Total(s)
  {
    hide Sum, HasOffer;
    var t := Matched(s, m, id, bet, player, c);
    var owner, gid := s.offers[m].owner, NextGameId(s) + 1;
    PutOffer(s.offers, m, t.offers[m]);
    PutOffer(s.offers[m := t.offers[m]], id, t.offers[id]);
    PutGame(s.games, gid, t.games[gid]);
    PutAccount(s.accounts, owner, t.accounts[owner]);
    PutAccount(s.accounts[owner := t.accounts[owner]], player, t.accounts[player]);
  }

  lemma MatchedCounts(s: State, m: nat, id: nat, bet: int, player: Name, c: Hash)
    requires CanMatch(s, m, id, bet, player, c) && s.offers[m].gameid == 0
    ensures var t, owner := Matched(s, m, id, bet, player, c), s.offers[m].owner;
            && (forall p :: p != owner ==> OpenOf(t, p) == OpenOf(s, p))
            && (forall p :: p != owner && p != player ==> GamesOf(t, p) == GamesOf(s, p))
            && |OpenOf(t, owner)| == |OpenOf(s, owner)| - 1 && |OpenOf(s, owner)| > 0
            && |GamesOf(t, owner)| == |GamesOf(s, owner)| + 1
            && |GamesOf(t, player)| == |GamesOf(s, player)| + 1
  {
    hide HasOffer;
    var t, owner := Matched(s, m, id, bet, player, c), s.offers[m].owner;
    assert m in OpenOf(s, owner);
    assert OpenOf(t, owner) == OpenOf(s, owner) - {m};
    assert GamesOf(t, owner) == GamesOf(s, owner) + {m};
    assert GamesOf(t, player) == GamesOf(s, player) + {id};
  }

  lemma MatchedOffers(s: State, m: nat, id: nat, bet: int, player: Name, c: Hash)
    requires CanMatch(s, m, id, bet, player, c) && AllOffers(s) && Unique(s.offers) && KeysOk(s)
    ensures var t := Matched(s, m, id, bet, player, c); AllOffers(t) && Unique(t.offers) && KeysOk(t)
  {
    var t := Matched(s, m, id, bet, player, c);
    NewCommitment(s.offers, c);
    forall i | i in t.offers ensures OfferOk(t, i) {
      if i != id && i != m { assert OfferOk(s, i); }
    }
  }

  lemma MatchedGames(s: State, m: nat, id: nat, bet: int, player: Name, c: Hash)
    requires CanMatch(s, m, id, bet, player, c) && AllOffers(s) && AllGames(s) && s.offers[m].gameid == 0
    requires bet <= MAX_AMOUNT
    ensures AllGames(Matched(s, m, id, bet, player, c))
  {
    hide HasOffer, Matched, AllOffers, AllGames, GameOk, NextGameId;
    var t, gid := Matched(s, m, id, bet, player, c), NextGameId(s) + 1;
    NoSuchGame(s, gid);
    forall g | g in t.games ensures GameOk(t, g) {
      if g == gid {
        NewGame(s, m, id, bet, player, c);
      } else {
        OldGame(s, m, id, bet, player, c, g);
      }
    }
    AllGamesFrom(t);
  }

  lemma AllGamesFrom(s: State)
    requires forall g :: g in s.games ==> GameOk(s, g)
    ensures AllGames(s)
  {
  }

  lemma NewGame(s: State, m: nat, id: nat, bet: int, player: Name, c: Hash)
    requires CanMatch(s, m, id, bet, player, c) && s.offers[m].gameid == 0 && bet <= MAX_AMOUNT
    requires forall i :: i in s.offers ==> s.offers[i].gameid != NextGameId(s) + 1
    ensures var t, gid := Matched(s, m, id, bet, player, c), NextGameId(s) + 1; gid in t.games && GameOk(t, gid)
  {
    hide HasOffer;
    assert Seats(Matched(s, m, id, bet, player, c), NextGameId(s) + 1, m, id);
  }

  lemma OldGame(s: State, m: nat, id: nat, bet: int, player: Name, c: Hash, g: nat)
    requires CanMatch(s, m, id, bet, player, c) && AllGames(s) && s.offers[m].gameid == 0
    requires g in Matched(s, m, id, bet, player, c).games && g != NextGameId(s) + 1
    ensures GameOk(Matched(s, m, id, bet, player, c), g)
  {
    hide HasOffer;
    assert g in s.games && GameOk(s, g);
    var i, j :| Seats(s, g, i, j);
    assert Seats(Matched(s, m, id, bet, player, c), g, i, j);
  }

  lemma NoSuchGame(s: State, gid: nat)
    requires AllOffers(s) && AllGames(s) && gid > NextGameId(s)
    ensures gid !in s.games && forall i :: i in s.offers ==> s.offers[i].gameid != gid
  {
    forall g | g in s.games ensures g != gid { assert GameOk(s, g); }
    forall i | i in s.offers ensures s.offers[i].gameid != gid { assert OfferOk(s, i); }
  }

  lemma MatchedAccounts(s: State, m: nat, id: nat, bet: int, player: Name, c: Hash, n: nat)
    requires CanMatch(s, m, id, bet, player, c) && s.offers[m].gameid == 0 && Inv(s, n) && n + 1 < U32
    ensures AllAccounts(Matched(s, m, id, bet, player, c))
  {
    hide HasOffer, OpenOf, GamesOf, AllOffers, AllGames, Unique, KeysOk;
    var t, owner := Matched(s, m, id, bet, player, c), s.offers[m].owner;
    MatchedCounts(s, m, id, bet, player, c);
    GoodAccount(s, owner, n);
    GoodAccount(s, player, n);
    CountsBounded(s, owner);
    CountsBounded(s, player);
    OtherAccounts(s, t, {owner, player});
    assert AccountOk(t, owner) && AccountOk(t, player);
  }

  lemma MatchKeeps(s: State, m: nat, id: nat, bet: int, player: Name, c: Hash, n: nat)
    requires CanMatch(s, m, id, bet, player, c) && Inv(s, n) && n + 1 < U32 && s.offers[m].gameid == 0
    requires bet <= MAX_AMOUNT
    ensures Inv(Matched(s, m, id, bet, player, c), n + 1) && Total(Matched(s, m, id, bet, player, c)) == Total(s)
  {
    hide HasOffer, Total, AllOffers, AllGames, AllAccounts, Unique, KeysOk;
    NoSuchGame(s, NextGameId(s) + 1);
    MatchedTotal(s, m, id, bet, player, c);
    MatchedOffers(s, m, id, bet, player, c);
    MatchedGames(s, m, id, bet, player, c);
    MatchedAccounts(s, m, id, bet, player, c, n);
  }

  // ----- leaving the tables -----

  lemma CancelKeeps(s: State, c: Hash, n: nat)
    requires Inv(s, n) && n < U32
    ensures var r := CancelOffer(s, c); r.Next? ==> Inv(r.s, n) && Total(r.s) == Total(s)
  {
    hide HasOffer, FindsCommitment, Total, AllOffers, AllGames, AllAccounts, Unique, KeysOk;
    var r := CancelOffer(s, c);
    if r.Next? {
      var i := ByCommitment(s.offers, c);
      FoundOffer(s, c);
      CancelledTotal(s, i);
      CancelledTables(s, i, n);
    }
  }

  lemma FoundOffer(s: State, c: Hash)
    requires HasOffer(s.offers, c)
    ensures var i := ByCommitment(s.offers, c); i in s.offers && s.offers[i].commitment == c
  {
  }

  function Cancelled(s: State, i: nat): State
    requires i in s.offers && s.offers[i].owner in s.accounts
  {
    var o := s.offers[i];
    var a := s.accounts[o.owner];
    s.(offers := s.offers - {i},
       accounts := s.accounts[o.owner := a.(openOffers := Dec32(a.openOffers), balance := a.balance + o.bet)])
  }

  lemma CancelledTotal(s: State, i: nat)
    requires i in s.offers && s.offers[i].owner in s.accounts
    ensures Total(Cancelled(s, i)) == Total(s)
  {
    hide Sum;
    var t, owner := Cancelled(s, i), s.offers[i].owner;
    DropOffer(s.offers, i);
    PutAccount(s.accounts, owner, t.accounts[owner]);
  }

  lemma CancelledTables(s: State, i: nat, n: nat)
    requires Inv(s, n) && n < U32 && i in s.offers && s.offers[i].owner in s.accounts && s.offers[i].gameid == 0
    requires InRange(s.accounts[s.offers[i].owner].balance + s.offers[i].bet)
    ensures Inv(Cancelled(s, i), n)
  {
    hide OpenOf, GamesOf, GameOk, Unique, AllOffers, OfferOk;
    var t, owner := Cancelled(s, i), s.offers[i].owner;
    OwnersIn(s);
    RemovedOffers(s, t, {i});
    RemovedOpen(s, t, i);
    GoodAccount(s, owner, n);
    CountsBounded(s, owner);
    SameSeats(s, t);
    OtherAccounts(s, t, {owner});
    BetPositive(s, i);
    assert AccountOk(t, owner);
  }

  lemma BetPositive(s: State, i: nat)
    requires AllOffers(s) && i in s.offers
    ensures s.offers[i].bet >= 0 && (s.offers[i].bet > 0 <==> s.offers[i].gameid == 0)
  {
    assert OfferOk(s, i);
  }

  /** Removing offers that are in no remaining game. */
  lemma RemovedOffers(s: State, t: State, gone: set<nat>)
    requires AllOffers(s) && Unique(s.offers) && KeysOk(s) && t.offers == s.offers - gone
    requires forall g :: g in t.games ==> t.games[g].id == g
    requires forall o :: o in t.accounts ==> t.accounts[o].owner == o
    requires forall i :: i in t.offers ==> s.offers[i].owner in t.accounts
    requires forall i :: i in t.offers && s.offers[i].gameid in s.games ==> s.offers[i].gameid in t.games
    ensures AllOffers(t) && Unique(t.offers) && KeysOk(t) && |t.offers| <= |s.offers|
  {
    forall i | i in t.offers ensures OfferOk(t, i) { assert OfferOk(s, i); }
    Subset(t.offers.Keys, s.offers.Keys);
  }

  lemma RemovedOpen(s: State, t: State, i: nat)
    requires i in s.offers && t.offers == s.offers - {i} && s.offers[i].gameid == 0
    ensures forall p :: GamesOf(t, p) == GamesOf(s, p)
    ensures forall p :: p != s.offers[i].owner ==> OpenOf(t, p) == OpenOf(s, p)
    ensures |OpenOf(t, s.offers[i].owner)| == |OpenOf(s, s.offers[i].owner)| - 1
  {
    assert i in OpenOf(s, s.offers[i].owner);
    assert OpenOf(t, s.offers[i].owner) == OpenOf(s, s.offers[i].owner) - {i};
  }

  // ----- paying out a game -----

  /** Offers i and j of game gid, in either order. */
  ghost predicate Sides(s: State, gid: nat, i: nat, j: nat) {
    gid in s.games && (Seats(s, gid, i, j) || Seats(s, gid, j, i))
  }

  /** The tables after paying the owner of offer w, with the loser's account still there. */
  function Paid(s: State, gid: nat, w: nat, l: nat): State
    requires gid in s.games && w in s.offers && l in s.offers
    requires s.offers[w].owner in s.accounts && s.offers[l].owner in s.accounts
    requires s.offers[w].owner != s.offers[l].owner
  {
    var a, b := s.accounts[s.offers[w].owner], s.accounts[s.offers[l].owner];
    State(s.offers - {w} - {l}, s.games - {gid}, s.globals,
          s.accounts[s.offers[w].owner := a.(balance := a.balance + 2 * s.games[gid].bet,
                                             openGames := Dec32(a.openGames))]
                    [s.offers[l].owner := b.(openGames := Dec32(b.openGames))])
  }

  lemma SidesFacts(s: State, gid: nat, w: nat, l: nat, n: nat)
    requires Inv(s, n) && Sides(s, gid, w, l)
    ensures gid in s.games && w in s.offers && l in s.offers && w != l && s.offers[w].owner != s.offers[l].owner
    ensures s.offers[w].owner in s.accounts && s.offers[l].owner in s.accounts
    ensures s.offers[w].bet == 0 && s.offers[l].bet == 0 && s.offers[w].gameid == gid && s.offers[l].gameid == gid
    ensures gid != 0 && s.games[gid].id == gid && s.offers[w].id == w && s.offers[l].id == l
    ensures 0 < s.games[gid].bet <= MAX_AMOUNT
    ensures forall k :: k in s.offers && k != w && k != l ==> s.offers[k].gameid != gid
  {
    assert OfferOk(s, w) && OfferOk(s, l) && GameOk(s, gid);
  }

  lemma PaidTotal(s: State, gid: nat, w: nat, l: nat, n: nat)
    requires Inv(s, n) && Sides(s, gid, w, l)
    ensures (SidesFacts(s, gid, w, l, n); Total(Paid(s, gid, w, l)) == Total(s))
  {
    hide Sum, Inv, Sides;
    SidesFacts(s, gid, w, l, n);
    var t, wo, lo := Paid(s, gid, w, l), s.offers[w].owner, s.offers[l].owner;
    DropOffer(s.offers, w);
    DropOffer(s.offers - {w}, l);
    DropGame(s.games, gid);
    PutAccount(s.accounts, wo, t.accounts[wo]);
    PutAccount(s.accounts[wo := t.accounts[wo]], lo, t.accounts[lo]);
  }

  lemma PaidCounts(s: State, gid: nat, w: nat, l: nat, n: nat)
    requires Inv(s, n) && Sides(s, gid, w, l)
    ensures (SidesFacts(s, gid, w, l, n);
            var t, wo, lo := Paid(s, gid, w, l), s.offers[w].owner, s.offers[l].owner;
            && (forall p :: OpenOf(t, p) == OpenOf(s, p))
            && (forall p :: p != wo && p != lo ==> GamesOf(t, p) == GamesOf(s, p))
            && |GamesOf(t, wo)| == |GamesOf(s, wo)| - 1 && |GamesOf(t, lo)| == |GamesOf(s, lo)| - 1
            && |GamesOf(s, wo)| > 0 && |GamesOf(s, lo)| > 0)
  {
    hide Inv, Sides;
    SidesFacts(s, gid, w, l, n);
    var t, wo, lo := Paid(s, gid, w, l), s.offers[w].owner, s.offers[l].owner;
    assert w in GamesOf(s, wo) && l in GamesOf(s, lo);
    assert GamesOf(t, wo) == GamesOf(s, wo) - {w};
    assert GamesOf(t, lo) == GamesOf(s, lo) - {l};
  }

  lemma PaidGames(s: State, gid: nat, w: nat, l: nat, n: nat)
    requires Inv(s, n) && Sides(s, gid, w, l)
    ensures (SidesFacts(s, gid, w, l, n); AllGames(Paid(s, gid, w, l)))
  {
    hide Sides, GameOk, AllGames, AllOffers, AllAccounts, Unique, KeysOk;
    SidesFacts(s, gid, w, l, n);
    OtherSeats(s, Paid(s, gid, w, l), gid);
  }

  /** The other games keep their seats when one game and its offers go. */
  lemma OtherSeats(s: State, t: State, gid: nat)
    requires AllGames(s) && t.games == s.games - {gid} && NextGameId(t) == NextGameId(s)
    requires forall k :: k in t.offers ==> k in s.offers && t.offers[k] == s.offers[k]
    requires forall k :: k in s.offers && s.offers[k].gameid != gid ==> k in t.offers
    ensures AllGames(t)
  {
    forall g | g in t.games ensures GameOk(t, g) {
      assert GameOk(s, g);
      var i, j :| Seats(s, g, i, j);
      assert Seats(t, g, i, j);
    }
  }

  lemma PaidTables(s: State, gid: nat, w: nat, l: nat, n: nat)
    requires Inv(s, n) && Sides(s, gid, w, l)
    ensures (SidesFacts(s, gid, w, l, n);
             var t := Paid(s, gid, w, l);
             AllOffers(t) && Unique(t.offers) && KeysOk(t) && |t.offers| <= |s.offers|)
  {
    hide Sides, AllOffers, AllGames, AllAccounts, Unique;
    SidesFacts(s, gid, w, l, n);
    var t := Paid(s, gid, w, l);
    OwnersIn(s);
    assert t.offers == s.offers - {w, l};
    RemovedOffers(s, t, {w, l});
  }

  lemma PaidAccounts(s: State, gid: nat, w: nat, l: nat, n: nat)
    requires Inv(s, n) && n < U32 && Sides(s, gid, w, l)
    requires (SidesFacts(s, gid, w, l, n); InRange(s.accounts[s.offers[w].owner].balance + 2 * s.games[gid].bet))
    ensures (SidesFacts(s, gid, w, l, n); AllAccounts(Paid(s, gid, w, l)))
  {
    hide OpenOf, GamesOf, Sides, AllOffers, AllGames, Unique, KeysOk;
    SidesFacts(s, gid, w, l, n);
    var t, wo, lo := Paid(s, gid, w, l), s.offers[w].owner, s.offers[l].owner;
    PaidCounts(s, gid, w, l, n);
    GoodAccount(s, wo, n);
    GoodAccount(s, lo, n);
    CountsBounded(s, wo);
    CountsBounded(s, lo);
    OtherAccounts(s, t, {wo, lo});
    assert AccountOk(t, wo) && AccountOk(t, lo);
  }

  lemma PaidKeeps(s: State, gid: nat, w: nat, l: nat, n: nat)
    requires Inv(s, n) && n < U32 && Sides(s, gid, w, l)
    requires (SidesFacts(s, gid, w, l, n); InRange(s.accounts[s.offers[w].owner].balance + 2 * s.games[gid].bet))
    ensures (SidesFacts(s, gid, w, l, n); Inv(Paid(s, gid, w, l), n) && Total(Paid(s, gid, w, l)) == Total(s))
  {
    hide Total, AllOffers, AllGames, AllAccounts, Unique, KeysOk, Sides;
    SidesFacts(s, gid, w, l, n);
    PaidTotal(s, gid, w, l, n);
    PaidTables(s, gid, w, l, n);
    PaidGames(s, gid, w, l, n);
    PaidAccounts(s, gid, w, l, n);
  }

  /** Paying out keeps everything, and moves exactly the two stakes to the winner. */
  lemma PayKeeps(s: State, gid: nat, w: nat, l: nat, n: nat)
    requires Inv(s, n) && n < U32 && Sides(s, gid, w, l)
    ensures (SidesFacts(s, gid, w, l, n);
            var r := PayAndClean(s, s.games[gid], s.offers[w], s.offers[l]);
            && (r.Abort? <==>
                  || !InRange(2 * s.games[gid].bet)
                  || !InRange(s.accounts[s.offers[w].owner].balance + 2 * s.games[gid].bet))
            && (r.Next? ==>
                  && Inv(r.s, n) && Total(r.s) == Total(s)
                  && s.offers[w].owner in r.s.accounts
                  && r.s.accounts[s.offers[w].owner].balance
                    == s.accounts[s.offers[w].owner].balance + 2 * s.games[gid].bet
                  && gid !in r.s.games && w !in r.s.offers && l !in r.s.offers))
  {
    hide Total, Inv, Sides;
    SidesFacts(s, gid, w, l, n);
    var r := PayAndClean(s, s.games[gid], s.offers[w], s.offers[l]);
    if r.Next? {
      PaidKeeps(s, gid, w, l, n);
      var t, lo := Paid(s, gid, w, l), s.offers[l].owner;
      if t.accounts[lo].IsEmpty() {
        DropKeeps(t, lo, n);
      }
    }
  }

  // ----- reveal and expiry -----

  /** In a reachable state an offer that is in a game finds the game and its other offer. */
  lemma PlayersFound(s: State, gid: nat, n: nat) returns (i: nat, j: nat)
    requires Inv(s, n) && gid in s.games
    ensures var g := s.games[gid];
            && HasOffer(s.offers, g.player1.commitment) && ByCommitment(s.offers, g.player1.commitment) == i
            && HasOffer(s.offers, g.player2.commitment) && ByCommitment(s.offers, g.player2.commitment) == j
            && Seats(s, gid, i, j) && Sides(s, gid, i, j) && Sides(s, gid, j, i)
            && g.player1.commitment != g.player2.commitment && !GameError(g)
  {
    assert GameOk(s, gid);
    i, j :| Seats(s, gid, i, j);
    var g := s.games[gid];
    ByCommitmentIs(s.offers, g.player1.commitment, i);
    ByCommitmentIs(s.offers, g.player2.commitment, j);
  }

  lemma ClaimKeeps(s: State, gid: nat, now: nat, n: nat)
    requires Inv(s, n) && n < U32
    ensures var r := ClaimExpired(s, gid, now); r.Next? ==> Inv(r.s, n) && Total(r.s) == Total(s)
  {
    hide Inv, Total, Sides, Seats, HasOffer, PayAndClean;
    if gid in s.games {
      var i, j := PlayersFound(s, gid, n);
      SidesFacts(s, gid, i, j, n);
      PayKeeps(s, gid, i, j, n);
      PayKeeps(s, gid, j, i, n);
    }
  }

  /** The state after one player of game gid has revealed. */
  function Revealed(s: State, gid: nat, first: bool, source: Hash, now: nat): State
    requires gid in s.games
  {
    var g := s.games[gid];
    var g1 := if first then g.(player1 := g.player1.(revealed := source))
      else g.(player2 := g.player2.(revealed := source));
    s.(games := s.games[gid := g1.(deadline := (now + FIVE_MINUTES) % U32)])
  }

  lemma RevealedKeeps(s: State, gid: nat, first: bool, source: Hash, now: nat, n: nat)
    requires Inv(s, n) && gid in s.games
    requires IsZero(if first then s.games[gid].player2.revealed else s.games[gid].player1.revealed)
    ensures Inv(Revealed(s, gid, first, source, now), n) && Total(Revealed(s, gid, first, source, now)) == Total(s)
  {
    hide Total, Unique, AllOffers, AllGames, AccountOk, OpenOf, GamesOf;
    var t := Revealed(s, gid, first, source, now);
    RevealedTotal(s, gid, first, source, now);
    RevealedGames(s, gid, first, source, now);
    RevealedOffers(s, t, gid);
    OtherAccounts(s, t, {});
  }

  lemma RevealedTotal(s: State, gid: nat, first: bool, source: Hash, now: nat)
    requires gid in s.games
    ensures Total(Revealed(s, gid, first, source, now)) == Total(s)
  {
    hide Sum;
    PutGame(s.games, gid, Revealed(s, gid, first, source, now).games[gid]);
  }

  lemma RevealedOffers(s: State, t: State, gid: nat)
    requires AllOffers(s) && t.offers == s.offers && t.accounts == s.accounts && t.games.Keys == s.games.Keys
    ensures AllOffers(t) && forall p :: OpenOf(t, p) == OpenOf(s, p) && GamesOf(t, p) == GamesOf(s, p)
  {
    forall i | i in t.offers ensures OfferOk(t, i) { assert OfferOk(s, i); }
  }

  lemma RevealedGames(s: State, gid: nat, first: bool, source: Hash, now: nat)
    requires AllGames(s) && gid in s.games
    requires IsZero(if first then s.games[gid].player2.revealed else s.games[gid].player1.revealed)
    ensures AllGames(Revealed(s, gid, first, source, now))
  {
    var t := Revealed(s, gid, first, source, now);
    forall g | g in t.games ensures GameOk(t, g) {
      assert GameOk(s, g);
      var i, j :| Seats(s, g, i, j);
      assert Seats(t, g, i, j);
    }
  }

  lemma RevealKeeps(s: State, c: Hash, source: Hash, hashOk: bool, currWins: bool, now: nat, n: nat)
    requires Inv(s, n) && n < U32
    ensures var r := Reveal(s, c, source, hashOk, currWins, now); r.Next? ==> Inv(r.s, n) && Total(r.s) == Total(s)
  {
    hide Inv, Total, Sides, HasOffer, PayAndClean;
    if HasOffer(s.offers, c) {
      FoundOffer(s, c);
      var i := ByCommitment(s.offers, c);
      var gid := s.offers[i].gameid;
      if gid != 0 && gid in s.games {
        var p, q := PlayersFound(s, gid, n);
        SidesFacts(s, gid, p, q, n);
        assert i == p || i == q;
        PayKeeps(s, gid, p, q, n);
        PayKeeps(s, gid, q, p, n);
        var g := s.games[gid];
        var first := g.player1.commitment == c;
        if IsZero(if first then g.player2.revealed else g.player1.revealed) {
          RevealedKeeps(s, gid, first, source, now, n);
        }
      }
    }
  }

  lemma OfferKeeps(s: State, bet: int, player: Name, c: Hash, n: nat)
    requires Inv(s, n) && n + 1 < U32
    ensures var r := OfferBet(s, bet, player, c); r.Next? ==> Inv(r.s, n + 1) && Total(r.s) == Total(s)
  {
    hide Inv, Total, HasOffer, Largest, IsLowerBound;
    var r := OfferBet(s, bet, player, c);
    if r.Next? {
      var id := AvailableKey(s.offers);
      var offers := s.offers[id := Offer(id, player, bet, c, 0)];
      var m := LowerBound(offers, bet, id);
      GoodAccount(s, player, n);
      LowerBoundFacts(s, offers, bet, id, m, n);
      if offers[m].bet != bet || offers[m].owner == player {
        OpenKeeps(s, id, bet, player, c, n);
      } else {
        MatchKeeps(s, m, id, bet, player, c, n);
        MatchIs(s, m, id, bet, player, c, n);
      }
    }
  }

  lemma LowerBoundFacts(s: State, offers: map<nat, Offer>, bet: int, id: nat, m: nat, n: nat)
    requires Inv(s, n) && id !in s.offers && id in offers && offers == s.offers[id := offers[id]]
    requires IsLowerBound(offers, bet, m)
    requires offers[id].bet == bet > 0
    ensures m in offers && offers[m].bet == bet
    ensures m != id ==> m in s.offers && s.offers[m].gameid == 0 && s.offers[m].owner in s.accounts
  {
    if m != id { assert OfferOk(s, m); }
  }

  lemma MatchIs(s: State, m: nat, id: nat, bet: int, player: Name, c: Hash, n: nat)
    requires CanMatch(s, m, id, bet, player, c) && Inv(s, n) && n + 1 < U32
    ensures Match(s, s.offers[id := Offer(id, player, bet, c, 0)], m, id, player,
                  s.accounts[player].(balance := s.accounts[player].balance - bet))
            == Next(Matched(s, m, id, bet, player, c))
  {
    hide HasOffer, Unique, AllOffers, AllGames, AllAccounts;
    NoSuchGame(s, NextGameId(s) + 1);
    PutTwice(s.offers, id, m, Offer(id, player, bet, c, 0), s.offers[m].(bet := 0, gameid := NextGameId(s) + 1),
             Offer(id, player, 0, c, NextGameId(s) + 1));
  }

  lemma PutTwice(offers: map<nat, Offer>, id: nat, m: nat, o: Offer, m': Offer, o': Offer)
    requires id != m
    ensures offers[id := o][m := m'][id := o'] == offers[m := m'][id := o']
  {
  }

  // ----- every run -----

  /** The tokens an action moves into the contract. */
  ghost function Flow(s: State, a: Action): int {
    if Perform(s, a).Abort? then 0
    else
      match a
      case DoDeposit(_, q) => q
      case DoWithdraw(_, q) => -q
      case _ => 0
  }

  ghost function NetDeposits(actions: seq<Action>): int {
    if actions == [] then 0
    else
      var before := actions[..|actions| - 1];
      NetDeposits(before) + Flow(Run(before), actions[|actions| - 1])
  }

  lemma InvWeaker(s: State, n: nat)
    requires Inv(s, n)
    ensures Inv(s, n + 1)
  {
  }

  lemma StepKeeps(s: State, a: Action, n: nat)
    requires Inv(s, n) && n + 1 < U32
    ensures Inv(Step(s, a), n + 1) && Total(Step(s, a)) == Total(s) + Flow(s, a)
  {
    hide Inv, Total, OfferBet, CancelOffer, Reveal, ClaimExpired, Deposit, Withdraw;
    InvWeaker(s, n);
    match a
    case DoOffer(bet, player, c) => OfferKeeps(s, bet, player, c, n);
    case DoCancel(c) => CancelKeeps(s, c, n + 1);
    case DoReveal(c, source, hashOk, currWins, now) => RevealKeeps(s, c, source, hashOk, currWins, now, n + 1);
    case DoClaim(gid, now) => ClaimKeeps(s, gid, now, n + 1);
    case DoDeposit(from, q) => DepositKeeps(s, from, q, n + 1);
    case DoWithdraw(to, q) => WithdrawKeeps(s, to, q, n + 1);
  }

  /** Every run keeps the invariant, and the tables hold exactly deposits minus withdrawals. */
  lemma {:induction false} RunKeeps(actions: seq<Action>)
    requires |actions| < U32
    ensures Inv(Run(actions), |actions|) && Total(Run(actions)) == NetDeposits(actions)
  {
    if actions == [] {
      EmptyKeeps();
    } else {
      var before := actions[..|actions| - 1];
      RunKeeps(before);
      StepKeeps(Run(before), actions[|actions| - 1], |before|);
    }
  }

  lemma EmptyKeeps()
    ensures Inv(EMPTY, 0) && Total(EMPTY) == 0
  {
    assert Balances(EMPTY.accounts) == map[] && Bets(EMPTY.offers) == map[] && Stakes(EMPTY.games) == map[];
  }
}
