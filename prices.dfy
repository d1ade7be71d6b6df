/**
  The price list and portfolio valuation: every coin's price in CLASSUSD,
  implied by the greedily chosen transfer pairs of Matching where the coin
  has any, taken from the teacher's `prices` table otherwise, and a user's
  holdings valued at those stored prices.

  Prices are exact reals here; the server computes them in floating point.
 */
module Prices {
  import opened Wrappers
  import opened Types
  import opened Store
  import opened Matching

  /** The `trade_type` that `do_transfer` stores for a user-to-user send. */
  const TransferText: string := KindText(Transfer)

  /** The literal the candidate query compares `trade_type` with. */
  const FilterAsWritten: string := "TRANSFER"

  // ---------------------------------------------------------------------------
  // The reserve coin
  // ---------------------------------------------------------------------------

  /** `SELECT coin_id FROM coins WHERE symbol = ?`, looking from position i on. */
  function FindSymbol(coins: seq<Coin>, sym: string, i: nat): (r: Option<CoinId>)
    requires i <= |coins|
    ensures r.Some? ==> i < r.value <= |coins| && coins[r.value - 1].symbol == sym
    ensures r.None? <==> forall k :: i <= k < |coins| ==> coins[k].symbol != sym
    decreases |coins| - i
  {
    if i == |coins| then None
    else if coins[i].symbol == sym then Some(i + 1)
    else FindSymbol(coins, sym, i + 1)
  }

  /** `get_reserve_id`: the coin_id of CLASSUSD. */
  function ReserveId(coins: seq<Coin>): Option<CoinId> {
    FindSymbol(coins, ReserveSymbol, 0)
  }

  /** In a well-formed registry the lookup finds the reserve, and only the reserve has its symbol. */
  lemma ReserveIdFound(coins: seq<Coin>, id: CoinId)
    requires RegistryOk(coins)
    ensures ReserveId(coins).Some?
    ensures id <= |coins| ==> (coins[id - 1].symbol == ReserveSymbol <==> ReserveId(coins) == Some(id))
  {
  }

  // ---------------------------------------------------------------------------
  // The price list
  // ---------------------------------------------------------------------------

  /** A row of the `prices` table: the teacher's reference price and when it was set. */
  datatype Quote = Quote(price: real, updatedAt: string)

  type Quotes = map<CoinId, Quote>

  /** The `method` field of a price row (how its price was found). */
  datatype Basis = Reserve | Implied | Fallback

  /** One row of the price list (the name column is not modelled). */
  datatype PriceRow = PriceRow(
    coin: CoinId,
    symbol: string,
    price: real,
    basis: Basis,
    matches: nat,
    updatedAt: Option<string>)

  /**
    The base query's rows: every coin exactly once, in increasing symbol
    order (`ORDER BY c.symbol`).
   */
  predicate BaseRows(coins: seq<Coin>, base: seq<CoinId>) {
    && (forall k :: 0 <= k < |base| ==> base[k] <= |coins|)
    && (forall id: CoinId :: id <= |coins| ==> id in base)
    && (forall k, l :: 0 <= k < l < |base| ==> TextLess(coins[base[k] - 1].symbol, coins[base[l] - 1].symbol))
  }

  /** The candidate query with the reserve's id, a `trade_type` literal and the window. */
  function ChosenWith(coins: seq<Coin>, trades: seq<Trade>, reserve: CoinId, kindText: string, window: int,
                      seconds: string -> int): seq<Candidate>
  {
    Select(Candidates(coins, trades, Query(reserve, kindText, window, seconds)))
  }

  /** The price of one base row: par for the reserve, implied when matched, the stored price otherwise. */
  function Resolve(coins: seq<Coin>, implied: map<CoinId, Stats>, quotes: Quotes, id: CoinId, now: string): PriceRow
    requires id <= |coins|
  {
    var symbol := coins[id - 1].symbol;
    if symbol == ReserveSymbol then PriceRow(id, symbol, 1.0, Reserve, 0, Some(now))
    else if id in implied && implied[id].sumCoin > 0 then
      var st := implied[id];
      PriceRow(id, symbol, st.sumCash as real / st.sumCoin as real, Implied, st.matches, Some(st.updatedAt))
    else if id in quotes then PriceRow(id, symbol, quotes[id].price, Fallback, 0, Some(quotes[id].updatedAt))
    else PriceRow(id, symbol, 0.0, Fallback, 0, None)
  }

  /** The output list: one resolved row per base row, in the base order. */
  function ResolveAll(coins: seq<Coin>, implied: map<CoinId, Stats>, quotes: Quotes, base: seq<CoinId>, now: string)
    : (rows: seq<PriceRow>)
    requires forall k :: 0 <= k < |base| ==> base[k] <= |coins|
    ensures |rows| == |base|
    ensures forall k :: 0 <= k < |base| ==> rows[k] == Resolve(coins, implied, quotes, base[k], now)
    decreases |base|
  {
    if |base| == 0 then []
    else ResolveAll(coins, implied, quotes, base[..|base| - 1], now) + [Resolve(coins, implied, quotes, base[|base| - 1], now)]
  }

  /**
    `get_implied_prices` with the candidate query filtering on `kindText`:
    None when there is no reserve coin (the lookup fails).
   */
  function PriceListWith(coins: seq<Coin>, trades: seq<Trade>, quotes: Quotes, kindText: string, window: int,
                         seconds: string -> int, base: seq<CoinId>, now: string): Option<seq<PriceRow>>
    requires BaseRows(coins, base)
  {
    match ReserveId(coins)
    case None => None
    case Some(reserve) =>
      Some(ResolveAll(coins, Tally(ChosenWith(coins, trades, reserve, kindText, window, seconds)), quotes, base, now))
  }

  /** `get_implied_prices`, filtering on the stored transfer type. */
  function PriceList(coins: seq<Coin>, trades: seq<Trade>, quotes: Quotes, window: int, seconds: string -> int,
                     base: seq<CoinId>, now: string): Option<seq<PriceRow>>
    requires BaseRows(coins, base)
  {
    PriceListWith(coins, trades, quotes, TransferText, window, seconds, base, now)
  }

  /** `get_implied_prices` as written, filtering on the upper-case literal. */
  function PriceListAsWritten(coins: seq<Coin>, trades: seq<Trade>, quotes: Quotes, window: int, seconds: string -> int,
                              base: seq<CoinId>, now: string): Option<seq<PriceRow>>
    requires BaseRows(coins, base)
  {
    PriceListWith(coins, trades, quotes, FilterAsWritten, window, seconds, base, now)
  }

  /**
    The loop over the candidate rows: skip a row that reuses a coin trade or
    a cash trade already used, otherwise mark both used and add the pair to
    its coin's tallies.
   */
  method ChoosePairs(cands: seq<Candidate>) returns (implied: map<CoinId, Stats>)
    ensures implied == Tally(Select(cands))
  {
    var usedCoin: set<Id> := {};
    var usedCash: set<Id> := {};
    implied := map[];
    ghost var chosen: seq<Candidate> := [];
    assert cands[0..] == cands;
    for k := 0 to |cands|
      invariant Greedy(chosen, cands[k..]) == Select(cands)
      invariant usedCoin == CoinTids(chosen) && usedCash == CashTids(chosen)
      invariant implied == Tally(chosen)
    {
      var row := cands[k];
      ghost var next := if Conflicts(row, chosen) then chosen else chosen + [row];
      assert Greedy(next, cands[k + 1..]) == Select(cands) by {
        assert cands[k..][0] == row && cands[k..][1..] == cands[k + 1..];
      }
      if !(row.coinTid in usedCoin || row.cashTid in usedCash) {
        assert CoinTids(chosen + [row]) == usedCoin + {row.coinTid} && CashTids(chosen + [row]) == usedCash + {row.cashTid} by {
          ChooseOneMore(chosen, row);
        }
        ghost var before := implied;
        usedCoin := usedCoin + {row.coinTid};
        usedCash := usedCash + {row.cashTid};
        var st := if row.coin in implied then implied[row.coin] else Stats(0, 0, 0, row.matchedAt);
        var latest := if row.matchedAt != "" && (st.updatedAt == "" || TextLess(st.updatedAt, row.matchedAt))
          then row.matchedAt else st.updatedAt;
        implied := implied[row.coin := Stats(st.sumCoin + row.coinAmount, st.sumCash + row.cashAmount, st.matches + 1, latest)];
        assert implied == Tally(chosen + [row]) by {
          TallyOneMore(chosen, before, row);
        }
        chosen := chosen + [row];
      }
    }
  }

  /** The loop over the base rows, resolving each row's price in turn. */
  method ResolveRows(coins: seq<Coin>, implied: map<CoinId, Stats>, quotes: Quotes, base: seq<CoinId>, now: string)
    returns (rows: seq<PriceRow>)
    requires forall k :: 0 <= k < |base| ==> base[k] <= |coins|
    ensures rows == ResolveAll(coins, implied, quotes, base, now)
  {
    rows := [];
    for k := 0 to |base|
      invariant rows == ResolveAll(coins, implied, quotes, base[..k], now)
    {
      var id := base[k];
      var symbol := coins[id - 1].symbol;
      var row;
      if symbol == ReserveSymbol {
        row := PriceRow(id, symbol, 1.0, Reserve, 0, Some(now));
      } else if id in implied && implied[id].sumCoin > 0 {
        var st := implied[id];
        row := PriceRow(id, symbol, st.sumCash as real / st.sumCoin as real, Implied, st.matches, Some(st.updatedAt));
      } else if id in quotes {
        row := PriceRow(id, symbol, quotes[id].price, Fallback, 0, Some(quotes[id].updatedAt));
      } else {
        row := PriceRow(id, symbol, 0.0, Fallback, 0, None);
      }
      assert row == Resolve(coins, implied, quotes, id, now);
      assert base[..k + 1][..k] == base[..k];
      rows := rows + [row];
    }
    assert base[..|base|] == base;
  }

  /**
    `get_implied_prices`: run the candidate query with `kindText` as the
    `trade_type` literal, walk its rows keeping the pairs that reuse no trade
    and tallying them per coin, then resolve each base row. The server passes
    `FilterAsWritten`; `TransferText` is the type `do_transfer` stores.
   */
  method ImpliedPrices(coins: seq<Coin>, trades: seq<Trade>, quotes: Quotes, kindText: string, window: int,
                       seconds: string -> int, base: seq<CoinId>, now: string) returns (out: Option<seq<PriceRow>>)
    requires BaseRows(coins, base)
    ensures out == PriceListWith(coins, trades, quotes, kindText, window, seconds, base, now)
  {
    var reserve := ReserveId(coins);
    if reserve.None? {
      return None;
    }
    var cands := Candidates(coins, trades, Query(reserve.value, kindText, window, seconds));
    var implied := ChoosePairs(cands);
    var rows := ResolveRows(coins, implied, quotes, base, now);
    out := Some(rows);
  }

  // ---------------------------------------------------------------------------
  // What the price list means
  // ---------------------------------------------------------------------------

  /** The trade CHECK `amount > 0`, which every stored trade meets. */
  predicate AmountsPositive(trades: seq<Trade>) {
    forall i :: 0 <= i < |trades| ==> trades[i].amount > 0
  }

  /**
    Every chosen pair is a row of the candidate query, so an admitted pair:
    its coin is a listed coin other than the reserve and, trades being
    positive, it moved a positive amount of that coin.
   */
  lemma ChosenPairFacts(coins: seq<Coin>, trades: seq<Trade>, q: Query, s: Candidate)
    requires s in Select(Candidates(coins, trades, q))
    ensures s.coin <= |coins| && s.coin != q.reserve
    ensures AmountsPositive(trades) ==> s.coinAmount > 0
  {
    var cands := Candidates(coins, trades, q);
    SelectFromCandidates(cands);
    assert s in multiset(Select(cands));
    assert s in multiset(Pairs(coins, trades, q, |trades|));
    PairsExact(coins, trades, q, |trades|, s);
    var i: nat, j: nat :| i < |trades| && Matching.RowOf(coins, trades, q, i, j, s);
  }

  /** A pair the WHERE clause admits makes the candidate query return rows. */
  lemma CandidatesNonEmpty(coins: seq<Coin>, trades: seq<Trade>, q: Query, i: nat, j: nat)
    requires i < |trades| && j < |trades| && IsPair(coins, trades, q, i, j)
    ensures |Candidates(coins, trades, q)| > 0
  {
    var c := MakeCandidate(trades, q, i, j);
    PairsExact(coins, trades, q, |trades|, c);
    assert Matching.RowOf(coins, trades, q, i, j, c);
    assert c in multiset(Candidates(coins, trades, q));
  }

  lemma {:induction false} SumCoinPositive(sel: seq<Candidate>)
    requires |sel| > 0 && forall s :: s in sel ==> s.coinAmount > 0
    ensures SumCoin(sel) > 0
    decreases |sel|
  {
    if |sel| > 1 {
      SumCoinPositive(sel[..|sel| - 1]);
    }
  }

  /** The reserve row is at par and is the only row so marked. */
  lemma ReserveRowAtPar(coins: seq<Coin>, trades: seq<Trade>, quotes: Quotes, window: int, seconds: string -> int,
                        base: seq<CoinId>, now: string, k: nat)
    requires BaseRows(coins, base) && k < |base|
    requires PriceList(coins, trades, quotes, window, seconds, base, now).Some?
    ensures var row := PriceList(coins, trades, quotes, window, seconds, base, now).value[k];
      && row.coin == base[k]
      && row.symbol == coins[base[k] - 1].symbol
      && (row.basis == Reserve <==> row.symbol == ReserveSymbol)
      && (row.basis == Reserve ==> row.price == 1.0 && row.matches == 0 && row.updatedAt == Some(now))
  {
  }

  /**
    A coin's price is implied exactly when some chosen pair is of that coin,
    and is then the cash it fetched over the coin it moved across those
    pairs, with `matches` counting them and `updated_at` the latest of their
    times; otherwise it is the stored price, or zero without one.
   */
  lemma PriceRowMeans(coins: seq<Coin>, trades: seq<Trade>, quotes: Quotes, window: int, seconds: string -> int,
                      base: seq<CoinId>, now: string, k: nat)
    requires BaseRows(coins, base) && k < |base| && AmountsPositive(trades)
    requires PriceList(coins, trades, quotes, window, seconds, base, now).Some?
    ensures var row := PriceList(coins, trades, quotes, window, seconds, base, now).value[k];
      var sel := ChosenWith(coins, trades, ReserveId(coins).value, TransferText, window, seconds);
      var mine := OfCoin(sel, base[k]);
      && (row.basis == Implied <==> row.symbol != ReserveSymbol && |mine| > 0)
      && (row.basis == Implied ==>
            && SumCoin(mine) > 0
            && row.price == SumCash(mine) as real / SumCoin(mine) as real
            && row.matches == |mine|
            && row.updatedAt.Some?
            && (exists s :: s in mine && s.matchedAt == row.updatedAt.value)
            && (forall s :: s in mine ==> !TextLess(row.updatedAt.value, s.matchedAt)))
      && (row.basis == Fallback ==>
            && row.matches == 0
            && row.price == (if base[k] in quotes then quotes[base[k]].price else 0.0)
            && row.updatedAt == (if base[k] in quotes then Some(quotes[base[k]].updatedAt) else None))
  {
    var reserve := ReserveId(coins).value;
    var q := Query(reserve, TransferText, window, seconds);
    var sel := Select(Candidates(coins, trades, q));
    var c := base[k];
    var mine := OfCoin(sel, c);
    TallyKeys(sel, c);
    if |mine| > 0 {
      TallyCounts(sel, c);
      TallySums(sel, c);
      TallyLatest(sel, c);
      forall s | s in mine ensures s.coinAmount > 0 {
        ChosenPairFacts(coins, trades, q, s);
      }
      SumCoinPositive(mine);
    }
  }

  // ---------------------------------------------------------------------------
  // The upper-case filter
  // ---------------------------------------------------------------------------

  /** No stored trade_type equals the upper-case literal, so the WHERE clause as written admits no pair. */
  lemma UppercaseFilterAdmitsNothing(coins: seq<Coin>, trades: seq<Trade>, q: Query, i: nat, j: nat, c: Candidate)
    requires q.kindText == FilterAsWritten
    ensures !Matching.RowOf(coins, trades, q, i, j, c)
  {
    if i < |trades| {
      assert KindText(trades[i].kind)[0] != FilterAsWritten[0];
    }
  }

  /** So the candidate query as written returns no rows. */
  lemma UppercaseFilterMatchesNothing(coins: seq<Coin>, trades: seq<Trade>, q: Query, n: nat)
    requires q.kindText == FilterAsWritten && n <= |trades|
    ensures Pairs(coins, trades, q, n) == []
  {
    forall c, i: nat, j: nat ensures !Matching.RowOf(coins, trades, q, i, j, c) {
      UppercaseFilterAdmitsNothing(coins, trades, q, i, j, c);
    }
    if Pairs(coins, trades, q, n) != [] {
      var c := Pairs(coins, trades, q, n)[0];
      PairsExact(coins, trades, q, n, c);
      assert false;
    }
  }

  /** As written, no coin ever gets an implied price: every row is the reserve or a fallback. */
  lemma AsWrittenNeverImplies(coins: seq<Coin>, trades: seq<Trade>, quotes: Quotes, window: int, seconds: string -> int,
                              base: seq<CoinId>, now: string)
    requires BaseRows(coins, base)
    requires PriceListAsWritten(coins, trades, quotes, window, seconds, base, now).Some?
    ensures var rows := PriceListAsWritten(coins, trades, quotes, window, seconds, base, now).value;
      forall k :: 0 <= k < |rows| ==> rows[k].basis != Implied
  {
    var reserve := ReserveId(coins).value;
    var q := Query(reserve, FilterAsWritten, window, seconds);
    UppercaseFilterMatchesNothing(coins, trades, q, |trades|);
    assert Candidates(coins, trades, q) == [];
  }

  /**
    With the stored type in the filter, two transfers between the same users
    within the window, one of a listed coin and one of the reserve, give some
    coin an implied price.
   */
  lemma TransferPairImpliesPrice(coins: seq<Coin>, trades: seq<Trade>, quotes: Quotes, window: int, seconds: string -> int,
                                 base: seq<CoinId>, now: string, i: nat, j: nat)
    requires RegistryOk(coins) && BaseRows(coins, base) && AmountsPositive(trades)
    requires i < |trades| && j < |trades|
    requires IsPair(coins, trades, Query(ReserveId(coins).value, TransferText, window, seconds), i, j)
    ensures PriceList(coins, trades, quotes, window, seconds, base, now).Some?
    ensures var rows := PriceList(coins, trades, quotes, window, seconds, base, now).value;
      exists k :: 0 <= k < |rows| && rows[k].basis == Implied
  {
    ReserveIdFound(coins, 1);
    var q := Query(ReserveId(coins).value, TransferText, window, seconds);
    var cands := Candidates(coins, trades, q);
    var sel := Select(cands);
    assert |sel| > 0 by {
      CandidatesNonEmpty(coins, trades, q, i, j);
      SelectNonEmpty(cands);
    }
    var s := sel[0];
    var c := s.coin;
    assert c <= |coins| && c != q.reserve by {
      ChosenPairFacts(coins, trades, q, s);
    }
    assert c in base;
    var k :| 0 <= k < |base| && base[k] == c;
    assert |OfCoin(sel, c)| > 0 by {
      assert s in OfCoin(sel, c);
    }
    ReserveIdFound(coins, c);
    PriceRowMeans(coins, trades, quotes, window, seconds, base, now, k);
  }

  // ---------------------------------------------------------------------------
  // Portfolio value
  // ---------------------------------------------------------------------------

  /** `amount + staked`, in ten-thousandths. */
  function Units(bal: Balance): int {
    bal.amount + bal.staked
  }

  /**
    One balance row's worth in CLASSUSD: the reserve at par, any other coin
    at its stored price, or at zero without one.
   */
  function RowValue(coins: seq<Coin>, b: Balances, quotes: Quotes, u: UserId, c: CoinId): real {
    var units := Units(GetBalance(b, u, c)) as real / 10000.0;
    if c <= |coins| && coins[c - 1].symbol == ReserveSymbol then units
    else units * (if c in quotes then quotes[c].price else 0.0)
  }

  /** The worth of every row of user u. */
  function Valuation(coins: seq<Coin>, b: Balances, quotes: Quotes, u: UserId): CoinId -> real {
    (c: CoinId) => RowValue(coins, b, quotes, u, c)
  }

  /** The running total over the rows `held`, in order. */
  function Total(value: CoinId -> real, held: seq<CoinId>): real
    decreases |held|
  {
    if |held| == 0 then 0.0 else Total(value, held[..|held| - 1]) + value(held[|held| - 1])
  }

  predicate NoDuplicates(held: seq<CoinId>) {
    forall k, l :: 0 <= k < l < |held| ==> held[k] != held[l]
  }

  /** The rows of the holdings query: the user's balance rows of listed coins, each once, in any order. */
  predicate HeldBy(coins: seq<Coin>, b: Balances, u: UserId, held: seq<CoinId>) {
    && NoDuplicates(held)
    && (forall k :: 0 <= k < |held| ==> held[k] <= |coins| && (u, held[k]) in b)
    && (forall c: CoinId :: c <= |coins| && (u, c) in b ==> c in held)
  }

  /** `compute_portfolio_value`: the reserve cash (spendable plus staked) and the whole holding's worth. */
  function Portfolio(coins: seq<Coin>, b: Balances, quotes: Quotes, u: UserId, held: seq<CoinId>): Option<(int, real)> {
    match ReserveId(coins)
    case None => None
    case Some(reserve) => Some((Units(GetBalance(b, u, reserve)), Total(Valuation(coins, b, quotes, u), held)))
  }

  /**
    `compute_portfolio_value`: look up the reserve and the user's cash, then
    walk the holdings rows adding each one's worth.
   */
  method PortfolioValue(coins: seq<Coin>, b: Balances, quotes: Quotes, u: UserId, held: seq<CoinId>)
    returns (r: Option<(int, real)>)
    requires HeldBy(coins, b, u, held)
    ensures r == Portfolio(coins, b, quotes, u, held)
  {
    var reserve := ReserveId(coins);
    if reserve.None? {
      return None;
    }
    var bal := GetBalance(b, u, reserve.value);
    var cash := bal.amount + bal.staked;
    var total := 0.0;
    ghost var value := Valuation(coins, b, quotes, u);
    for k := 0 to |held|
      invariant total == Total(value, held[..k])
    {
      var c := held[k];
      var row := GetBalance(b, u, c);
      var units := (row.amount + row.staked) as real / 10000.0;
      var price := if c in quotes then quotes[c].price else 0.0;
      var worth := if coins[c - 1].symbol == ReserveSymbol then units else units * price;
      assert worth == value(c);
      assert Total(value, held[..k + 1]) == Total(value, held[..k]) + value(c) by {
        assert held[..k + 1][..k] == held[..k];
      }
      total := total + worth;
    }
    assert held[..|held|] == held;
    r := Some((cash, total));
  }

  /** Every stored price is at least zero. */
  predicate QuotesNonNegative(quotes: Quotes) {
    forall c :: c in quotes ==> quotes[c].price >= 0.0
  }

  /** Non-negative balances at non-negative prices: every row is worth at least nothing. */
  lemma RowValueNonNegative(coins: seq<Coin>, b: Balances, quotes: Quotes, u: UserId, c: CoinId)
    requires BalancesOk(b) && QuotesNonNegative(quotes)
    ensures RowValue(coins, b, quotes, u, c) >= 0.0
  {
    var n := Units(GetBalance(b, u, c));
    assert n >= 0;
    var price := if c in quotes then quotes[c].price else 0.0;
    ProductNonNegative(n as real / 10000.0, price);
  }

  lemma ProductNonNegative(x: real, y: real)
    requires x >= 0.0 && y >= 0.0
    ensures x * y >= 0.0
  {
  }

  lemma {:induction false} TotalNonNegative(value: CoinId -> real, held: seq<CoinId>)
    requires forall c :: value(c) >= 0.0
    ensures Total(value, held) >= 0.0
    decreases |held|
  {
    if |held| > 0 {
      TotalNonNegative(value, held[..|held| - 1]);
    }
  }

  /** Taking row k out of the total leaves the other rows' total. */
  lemma {:induction false} TotalRemove(value: CoinId -> real, held: seq<CoinId>, k: nat)
    requires k < |held|
    ensures Total(value, held) == value(held[k]) + Total(value, held[..k] + held[k + 1..])
    decreases |held|
  {
    var n := |held| - 1;
    var rest := held[..k] + held[k + 1..];
    if k < n {
      TotalRemove(value, held[..n], k);
      assert held[..n][..k] + held[..n][k + 1..] == rest[..|rest| - 1];
      assert rest[|rest| - 1] == held[n];
    } else {
      assert rest == held[..n];
    }
  }

  /** Taking the last row of h1 out of both lists keeps them permutations of each other. */
  lemma RemoveMatching(h1: seq<CoinId>, h2: seq<CoinId>, k: nat)
    requires multiset(h1) == multiset(h2) && |h1| > 0 && k < |h2| && h2[k] == h1[|h1| - 1]
    ensures multiset(h1[..|h1| - 1]) == multiset(h2[..k] + h2[k + 1..])
  {
    var n := |h1| - 1;
    var x := h1[n];
    assert h1 == h1[..n] + [x];
    assert h2 == h2[..k] + [x] + h2[k + 1..];
    calc {
      multiset(h1[..n]);
      multiset(h1) - multiset{x};
      multiset(h2) - multiset{x};
      multiset(h2[..k]) + multiset(h2[k + 1..]);
      multiset(h2[..k] + h2[k + 1..]);
    }
  }

  /** The total does not depend on the order the rows come in. */
  lemma {:induction false} TotalOrderFree(value: CoinId -> real, h1: seq<CoinId>, h2: seq<CoinId>)
    requires multiset(h1) == multiset(h2)
    ensures Total(value, h1) == Total(value, h2)
    decreases |h1|
  {
    if |h1| > 0 {
      var n := |h1| - 1;
      assert h1[n] in multiset(h2);
      var k :| 0 <= k < |h2| && h2[k] == h1[n];
      RemoveMatching(h1, h2, k);
      TotalOrderFree(value, h1[..n], h2[..k] + h2[k + 1..]);
      TotalRemove(value, h2, k);
    } else {
      assert |multiset(h2)| == 0;
    }
  }

  lemma {:induction false} NoDuplicatesCount(held: seq<CoinId>, c: CoinId)
    requires NoDuplicates(held)
    ensures multiset(held)[c] == if c in held then 1 else 0
    decreases |held|
  {
    if |held| > 0 {
      var n := |held| - 1;
      assert held == held[..n] + [held[n]];
      NoDuplicatesCount(held[..n], c);
      if held[n] == c {
        assert c !in held[..n];
      }
    }
  }

  /** However the holdings query orders its rows, the portfolio comes out the same. */
  lemma PortfolioOrderFree(coins: seq<Coin>, b: Balances, quotes: Quotes, u: UserId, h1: seq<CoinId>, h2: seq<CoinId>)
    requires HeldBy(coins, b, u, h1) && HeldBy(coins, b, u, h2)
    ensures Portfolio(coins, b, quotes, u, h1) == Portfolio(coins, b, quotes, u, h2)
  {
    forall c ensures multiset(h1)[c] == multiset(h2)[c] {
      NoDuplicatesCount(h1, c);
      NoDuplicatesCount(h2, c);
    }
    assert multiset(h1) == multiset(h2);
    TotalOrderFree(Valuation(coins, b, quotes, u), h1, h2);
  }

  lemma ValuationNonNegative(coins: seq<Coin>, b: Balances, quotes: Quotes, u: UserId)
    requires BalancesOk(b) && QuotesNonNegative(quotes)
    ensures forall c :: Valuation(coins, b, quotes, u)(c) >= 0.0
  {
    forall c ensures Valuation(coins, b, quotes, u)(c) >= 0.0 {
      RowValueNonNegative(coins, b, quotes, u, c);
    }
  }

  /** With no row worth less than nothing, the total is at least any one row's worth. */
  lemma TotalAtLeastRow(value: CoinId -> real, held: seq<CoinId>, k: nat)
    requires forall c :: value(c) >= 0.0
    requires k < |held|
    ensures Total(value, held) >= value(held[k])
  {
    TotalRemove(value, held, k);
    TotalNonNegative(value, held[..k] + held[k + 1..]);
  }

  /** The reserve row is counted at par, so the total is at least the cash. */
  lemma ReserveWithinTotal(coins: seq<Coin>, b: Balances, quotes: Quotes, u: UserId, held: seq<CoinId>, reserve: CoinId)
    requires HeldBy(coins, b, u, held) && BalancesOk(b) && QuotesNonNegative(quotes)
    requires ReserveId(coins) == Some(reserve)
    ensures Total(Valuation(coins, b, quotes, u), held) >= Units(GetBalance(b, u, reserve)) as real / 10000.0
  {
    var value := Valuation(coins, b, quotes, u);
    ValuationNonNegative(coins, b, quotes, u);
    if (u, reserve) in b {
      assert reserve in held;
      var k :| 0 <= k < |held| && held[k] == reserve;
      TotalAtLeastRow(value, held, k);
    } else {
      TotalNonNegative(value, held);
    }
  }

  /** With non-negative balances the cash figure is non-negative. */
  lemma CashNonNegative(coins: seq<Coin>, b: Balances, quotes: Quotes, u: UserId, held: seq<CoinId>)
    requires BalancesOk(b) && ReserveId(coins).Some?
    ensures Portfolio(coins, b, quotes, u, held).Some?
    ensures Portfolio(coins, b, quotes, u, held).value.0 >= 0
  {
    var reserve := ReserveId(coins).value;
    assert (u, reserve) in b ==> b[(u, reserve)].amount >= 0 && b[(u, reserve)].staked >= 0;
    assert Portfolio(coins, b, quotes, u, held) == Some((Units(GetBalance(b, u, reserve)), Total(Valuation(coins, b, quotes, u), held)));
  }

  /**
    With non-negative balances and prices the portfolio is worth at least
    the cash, which it counts at par.
   */
  lemma CashWithinWorth(coins: seq<Coin>, b: Balances, quotes: Quotes, u: UserId, held: seq<CoinId>)
    requires HeldBy(coins, b, u, held) && BalancesOk(b) && QuotesNonNegative(quotes)
    requires ReserveId(coins).Some?
    ensures Portfolio(coins, b, quotes, u, held).value.1 >= Portfolio(coins, b, quotes, u, held).value.0 as real / 10000.0
  {
    var reserve := ReserveId(coins).value;
    assert Portfolio(coins, b, quotes, u, held) == Some((Units(GetBalance(b, u, reserve)), Total(Valuation(coins, b, quotes, u), held)));
    ReserveWithinTotal(coins, b, quotes, u, held, reserve);
  }
}
