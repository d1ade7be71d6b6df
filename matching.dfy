/**
  The matcher behind implied prices: the candidate query that pairs a
  transfer of some coin with a transfer of the reserve coin between the same
  two users close in time, its ORDER BY, the greedy one-to-one choice of
  pairs, and the per-coin tallies built from the chosen pairs.
 */
module Matching {
  import opened Types

  // ---------------------------------------------------------------------------
  // Text order
  // ---------------------------------------------------------------------------

  /**
    `a < b` on text, as SQLite's default BINARY collation and Python's `<` on
    `str` both compare: character by character, a proper prefix first.
   */
  predicate TextLess(a: string, b: string)
    decreases |a|
  {
    if |a| == 0 then |b| > 0
    else if |b| == 0 then false
    else if a[0] != b[0] then a[0] < b[0]
    else TextLess(a[1..], b[1..])
  }

  lemma {:induction false} TextLessIrreflexive(a: string)
    ensures !TextLess(a, a)
    decreases |a|
  {
    if |a| > 0 {
      TextLessIrreflexive(a[1..]);
    }
  }

  lemma {:induction false} TextLessTransitive(a: string, b: string, c: string)
    requires TextLess(a, b) && TextLess(b, c)
    ensures TextLess(a, c)
    decreases |a|
  {
    if |a| > 0 && |b| > 0 && |c| > 0 && a[0] == b[0] && b[0] == c[0] {
      TextLessTransitive(a[1..], b[1..], c[1..]);
    }
  }

  lemma {:induction false} TextLessTotal(a: string, b: string)
    ensures a == b || TextLess(a, b) || TextLess(b, a)
    decreases |a|
  {
    if |a| > 0 && |b| > 0 && a[0] == b[0] {
      TextLessTotal(a[1..], b[1..]);
      if a[1..] == b[1..] {
        assert a == [a[0]] + a[1..] && b == [b[0]] + b[1..];
      }
    }
  }

  // ---------------------------------------------------------------------------
  // The candidate query
  // ---------------------------------------------------------------------------

  /**
    The parameters of the candidate query: the reserve's coin_id, the
    trade_type literal both trades must carry, the window in seconds, and
    `strftime('%s', ·)`, which turns a stored timestamp into seconds.
   */
  datatype Query = Query(reserve: CoinId, kindText: string, window: int, seconds: string -> int)

  /** One result row: a coin trade and a reserve (cash) trade, their gap, and the later timestamp. */
  datatype Candidate = Candidate(
    coinTid: Id,
    coin: CoinId,
    coinAmount: int,
    cashTid: Id,
    cashAmount: int,
    gap: nat,
    matchedAt: string)

  function Abs(x: int): nat {
    if x < 0 then -x else x
  }

  /** The same two users, in the same or the opposite direction. */
  predicate SameUsers(ct: Trade, rt: Trade) {
    || (ct.from == rt.from && ct.to == rt.to)
    || (ct.from == Account(rt.to) && rt.from == Account(ct.to))
  }

  /** The WHERE clause for coin trade i+1 and cash trade j+1. */
  predicate IsPair(coins: seq<Coin>, trades: seq<Trade>, q: Query, i: nat, j: nat)
    requires i < |trades| && j < |trades|
  {
    var ct, rt := trades[i], trades[j];
    && ct.coin <= |coins|
    && rt.coin == q.reserve
    && KindText(ct.kind) == q.kindText
    && KindText(rt.kind) == q.kindText
    && ct.coin != q.reserve
    && ct.from.Account?
    && rt.from.Account?
    && SameUsers(ct, rt)
    && Abs(q.seconds(ct.executedAt) - q.seconds(rt.executedAt)) <= q.window
  }

  /** The SELECT list for coin trade i+1 and cash trade j+1. */
  function MakeCandidate(trades: seq<Trade>, q: Query, i: nat, j: nat): Candidate
    requires i < |trades| && j < |trades|
  {
    var ct, rt := trades[i], trades[j];
    Candidate(i + 1, ct.coin, ct.amount, j + 1, rt.amount,
      Abs(q.seconds(ct.executedAt) - q.seconds(rt.executedAt)),
      if !TextLess(ct.executedAt, rt.executedAt) then ct.executedAt else rt.executedAt)
  }

  /** The pairs of coin trade i+1 with the cash trades among the first m. */
  function PairsWith(coins: seq<Coin>, trades: seq<Trade>, q: Query, i: nat, m: nat): seq<Candidate>
    requires i < |trades| && m <= |trades|
  {
    if m == 0 then []
    else PairsWith(coins, trades, q, i, m - 1)
         + if IsPair(coins, trades, q, i, m - 1) then [MakeCandidate(trades, q, i, m - 1)] else []
  }

  /** The pairs whose coin trade is among the first n, before ordering. */
  function Pairs(coins: seq<Coin>, trades: seq<Trade>, q: Query, n: nat): seq<Candidate>
    requires n <= |trades|
  {
    if n == 0 then [] else Pairs(coins, trades, q, n - 1) + PairsWith(coins, trades, q, n - 1, |trades|)
  }

  /** Every pair the WHERE clause admits is a result row. */
  lemma {:induction false} PairsWithComplete(coins: seq<Coin>, trades: seq<Trade>, q: Query, i: nat, m: nat, j: nat)
    requires i < |trades| && j < m <= |trades| && IsPair(coins, trades, q, i, j)
    ensures MakeCandidate(trades, q, i, j) in PairsWith(coins, trades, q, i, m)
  {
    if j < m - 1 {
      PairsWithComplete(coins, trades, q, i, m - 1, j);
    }
  }

  /** Every result row comes from a pair the WHERE clause admits. */
  lemma {:induction false} PairsWithSound(coins: seq<Coin>, trades: seq<Trade>, q: Query, i: nat, m: nat, c: Candidate)
    requires i < |trades| && m <= |trades| && c in PairsWith(coins, trades, q, i, m)
    ensures exists j :: 0 <= j < m && IsPair(coins, trades, q, i, j) && c == MakeCandidate(trades, q, i, j)
  {
    if c !in PairsWith(coins, trades, q, i, m - 1) {
      assert IsPair(coins, trades, q, i, m - 1) && c == MakeCandidate(trades, q, i, m - 1);
    } else {
      PairsWithSound(coins, trades, q, i, m - 1, c);
    }
  }

  /** Row `c` is the SELECT list of an admitted pair (coin trade i+1, cash trade j+1). */
  predicate RowOf(coins: seq<Coin>, trades: seq<Trade>, q: Query, i: nat, j: nat, c: Candidate) {
    i < |trades| && j < |trades| && IsPair(coins, trades, q, i, j) && c == MakeCandidate(trades, q, i, j)
  }

  /**
    The candidate rows are exactly the pairs (coin trade i+1, cash trade j+1)
    the WHERE clause admits.
   */
  lemma {:induction false} PairsExact(coins: seq<Coin>, trades: seq<Trade>, q: Query, n: nat, c: Candidate)
    requires n <= |trades|
    ensures c in Pairs(coins, trades, q, n) <==> exists i: nat, j: nat :: i < n && RowOf(coins, trades, q, i, j, c)
  {
    if n > 0 {
      var k := n - 1;
      PairsExact(coins, trades, q, k, c);
      var mine := PairsWith(coins, trades, q, k, |trades|);
      assert Pairs(coins, trades, q, n) == Pairs(coins, trades, q, k) + mine;
      if c in mine {
        PairsWithSound(coins, trades, q, k, |trades|, c);
        var j :| 0 <= j < |trades| && IsPair(coins, trades, q, k, j) && c == MakeCandidate(trades, q, k, j);
        assert RowOf(coins, trades, q, k, j, c);
      }
      if exists i: nat, j: nat :: i < n && RowOf(coins, trades, q, i, j, c) {
        var i: nat, j: nat :| i < n && RowOf(coins, trades, q, i, j, c);
        if i == k {
          PairsWithComplete(coins, trades, q, k, |trades|, j);
        }
      }
    }
  }

  // ---------------------------------------------------------------------------
  // ORDER BY time_gap_s ASC, ct.trade_id DESC, rt.trade_id DESC
  // ---------------------------------------------------------------------------

  /** `a` sorts strictly before `b`. */
  predicate KeyBefore(a: Candidate, b: Candidate) {
    || a.gap < b.gap
    || (a.gap == b.gap && a.coinTid > b.coinTid)
    || (a.gap == b.gap && a.coinTid == b.coinTid && a.cashTid > b.cashTid)
  }

  predicate SortedByKey(s: seq<Candidate>) {
    forall i, j :: 0 <= i < j < |s| ==> !KeyBefore(s[j], s[i])
  }

  /** Places `c` before the first row it sorts before. */
  function Insert(c: Candidate, s: seq<Candidate>): (r: seq<Candidate>)
    ensures multiset(r) == multiset(s) + multiset{c}
    ensures |r| == |s| + 1
  {
    if |s| == 0 then [c]
    else
      assert s == [s[0]] + s[1..];
      if KeyBefore(s[0], c) then [s[0]] + Insert(c, s[1..]) else [c] + s
  }

  lemma {:induction false} InsertSorted(c: Candidate, s: seq<Candidate>)
    requires SortedByKey(s)
    ensures SortedByKey(Insert(c, s))
  {
    if |s| > 0 && KeyBefore(s[0], c) {
      InsertSorted(c, s[1..]);
      var r := Insert(c, s);
      var t := Insert(c, s[1..]);
      assert r == [s[0]] + t;
      assert multiset(t) == multiset(s[1..]) + multiset{c};
      forall j | 1 <= j < |r| ensures !KeyBefore(r[j], r[0]) {
        assert r[j] in multiset(t);
        if r[j] != c {
          assert r[j] in multiset(s[1..]);
          var m :| 0 <= m < |s[1..]| && s[1..][m] == r[j];
          assert s[m + 1] == r[j];
        }
      }
    }
  }

  /** The ORDER BY, by insertion. */
  function SortByKey(s: seq<Candidate>): (r: seq<Candidate>)
    ensures multiset(r) == multiset(s)
    ensures SortedByKey(r)
  {
    if |s| == 0 then []
    else
      var rest := SortByKey(s[..|s| - 1]);
      InsertSorted(s[|s| - 1], rest);
      assert s == s[..|s| - 1] + [s[|s| - 1]];
      Insert(s[|s| - 1], rest)
  }

  /** The rows of the candidate query, in its order. */
  function Candidates(coins: seq<Coin>, trades: seq<Trade>, q: Query): seq<Candidate> {
    SortByKey(Pairs(coins, trades, q, |trades|))
  }

  // ---------------------------------------------------------------------------
  // The greedy choice
  // ---------------------------------------------------------------------------

  /** The coin trades the pairs `sel` use. */
  function CoinTids(sel: seq<Candidate>): set<Id>
    decreases |sel|
  {
    if |sel| == 0 then {} else CoinTids(sel[..|sel| - 1]) + {sel[|sel| - 1].coinTid}
  }

  /** The cash trades the pairs `sel` use. */
  function CashTids(sel: seq<Candidate>): set<Id>
    decreases |sel|
  {
    if |sel| == 0 then {} else CashTids(sel[..|sel| - 1]) + {sel[|sel| - 1].cashTid}
  }

  /** The used trades are exactly those of the pairs. */
  lemma {:induction false} UsedTids(sel: seq<Candidate>, t: Id)
    ensures t in CoinTids(sel) <==> exists i :: 0 <= i < |sel| && sel[i].coinTid == t
    ensures t in CashTids(sel) <==> exists i :: 0 <= i < |sel| && sel[i].cashTid == t
    decreases |sel|
  {
    if |sel| > 0 {
      var n := |sel| - 1;
      UsedTids(sel[..n], t);
      if exists i :: 0 <= i < |sel| && sel[i].coinTid == t {
        var i :| 0 <= i < |sel| && sel[i].coinTid == t;
        if i < n {
          assert sel[..n][i] == sel[i];
        }
      }
      if exists i :: 0 <= i < |sel| && sel[i].cashTid == t {
        var i :| 0 <= i < |sel| && sel[i].cashTid == t;
        if i < n {
          assert sel[..n][i] == sel[i];
        }
      }
    }
  }

  /** `c` reuses a coin trade or a cash trade of an already chosen pair. */
  predicate Conflicts(c: Candidate, sel: seq<Candidate>) {
    c.coinTid in CoinTids(sel) || c.cashTid in CashTids(sel)
  }

  /**
    The loop's choice from the rows `rest` on, `chosen` being the pairs kept
    so far: walking the rows in order, keep each that reuses no trade of a
    pair already kept.
   */
  function Greedy(chosen: seq<Candidate>, rest: seq<Candidate>): seq<Candidate>
    decreases |rest|
  {
    if |rest| == 0 then chosen
    else Greedy(if Conflicts(rest[0], chosen) then chosen else chosen + [rest[0]], rest[1..])
  }

  /** The pairs the loop keeps from all the query's rows. */
  function Select(cands: seq<Candidate>): seq<Candidate> {
    Greedy([], cands)
  }

  /** No trade is used twice: the pairs are one-to-one on coin trades and on cash trades. */
  predicate OneToOne(sel: seq<Candidate>) {
    forall i, j :: 0 <= i < j < |sel| ==> sel[i].coinTid != sel[j].coinTid && sel[i].cashTid != sel[j].cashTid
  }

  lemma OneToOneAppend(sel: seq<Candidate>, c: Candidate)
    requires OneToOne(sel) && !Conflicts(c, sel)
    ensures OneToOne(sel + [c])
  {
    var ext := sel + [c];
    forall i, j | 0 <= i < j < |ext| ensures ext[i].coinTid != ext[j].coinTid && ext[i].cashTid != ext[j].cashTid {
      assert ext[i] == sel[i];
      if j < |sel| {
        assert ext[j] == sel[j];
      } else {
        UsedTids(sel, sel[i].coinTid);
        UsedTids(sel, sel[i].cashTid);
      }
    }
  }

  lemma {:induction false} GreedyOneToOne(chosen: seq<Candidate>, rest: seq<Candidate>)
    requires OneToOne(chosen)
    ensures OneToOne(Greedy(chosen, rest))
    decreases |rest|
  {
    if |rest| > 0 {
      if !Conflicts(rest[0], chosen) {
        OneToOneAppend(chosen, rest[0]);
      }
      GreedyOneToOne(if Conflicts(rest[0], chosen) then chosen else chosen + [rest[0]], rest[1..]);
    }
  }

  /** The greedy choice never uses a trade twice. */
  lemma SelectOneToOne(cands: seq<Candidate>)
    ensures OneToOne(Select(cands))
  {
    GreedyOneToOne([], cands);
  }

  /** Walking the rows a + b is walking a, then b from where a left off. */
  lemma {:induction false} GreedyConcat(chosen: seq<Candidate>, a: seq<Candidate>, b: seq<Candidate>)
    ensures Greedy(chosen, a + b) == Greedy(Greedy(chosen, a), b)
    decreases |a|
  {
    if |a| > 0 {
      assert (a + b)[0] == a[0] && (a + b)[1..] == a[1..] + b;
      GreedyConcat(if Conflicts(a[0], chosen) then chosen else chosen + [a[0]], a[1..], b);
    } else {
      assert a + b == b;
    }
  }

  /** A pair once kept stays kept. */
  lemma {:induction false} GreedyKeeps(chosen: seq<Candidate>, rest: seq<Candidate>)
    ensures chosen <= Greedy(chosen, rest)
    decreases |rest|
  {
    if |rest| > 0 {
      GreedyKeeps(if Conflicts(rest[0], chosen) then chosen else chosen + [rest[0]], rest[1..]);
    }
  }

  /**
    Each row of the query is either chosen or skipped for reusing a trade
    of a pair chosen before it, and the choices never look ahead: the pairs
    chosen among the first k rows start the pairs chosen among them all.
   */
  lemma SelectGreedy(cands: seq<Candidate>, k: nat)
    requires k < |cands|
    ensures var before := Select(cands[..k]);
      && (Conflicts(cands[k], before) ==> Select(cands[..k + 1]) == before)
      && (!Conflicts(cands[k], before) ==> Select(cands[..k + 1]) == before + [cands[k]])
      && Select(cands[..k + 1]) <= Select(cands)
  {
    assert cands[..k + 1] == cands[..k] + [cands[k]];
    GreedyConcat([], cands[..k], [cands[k]]);
    assert cands == cands[..k + 1] + cands[k + 1..];
    GreedyConcat([], cands[..k + 1], cands[k + 1..]);
    GreedyKeeps(Select(cands[..k + 1]), cands[k + 1..]);
  }

  lemma {:induction false} GreedyFrom(chosen: seq<Candidate>, rest: seq<Candidate>)
    ensures multiset(Greedy(chosen, rest)) <= multiset(chosen) + multiset(rest)
    decreases |rest|
  {
    if |rest| > 0 {
      var next := if Conflicts(rest[0], chosen) then chosen else chosen + [rest[0]];
      GreedyFrom(next, rest[1..]);
      assert rest == [rest[0]] + rest[1..];
    }
  }

  /** Only query rows are chosen, each at most once. */
  lemma SelectFromCandidates(cands: seq<Candidate>)
    ensures multiset(Select(cands)) <= multiset(cands)
  {
    GreedyFrom([], cands);
  }

  /** The first row is always chosen, so rows in give pairs out. */
  lemma SelectNonEmpty(cands: seq<Candidate>)
    requires |cands| > 0
    ensures |Select(cands)| > 0 && Select(cands)[0] == cands[0]
  {
    assert !Conflicts(cands[0], []);
    assert [] + [cands[0]] == [cands[0]];
    assert Select(cands) == Greedy([cands[0]], cands[1..]);
    GreedyKeeps([cands[0]], cands[1..]);
    assert [cands[0]] <= Select(cands);
  }

  // ---------------------------------------------------------------------------
  // Per-coin tallies
  // ---------------------------------------------------------------------------

  /** The `implied_by_coin` entry of a coin. */
  datatype Stats = Stats(sumCoin: int, sumCash: int, matches: nat, updatedAt: string)

  /**
    The update test of `updated_at`: the new time is non-empty and the stored
    one is empty or earlier.
   */
  predicate Later(matchedAt: string, updatedAt: string) {
    matchedAt != "" && (updatedAt == "" || TextLess(updatedAt, matchedAt))
  }

  /** The emptiness tests add nothing: the update happens exactly when the new time sorts after the stored one. */
  lemma LaterIsTextLess(m: string, u: string)
    ensures Later(m, u) <==> TextLess(u, m)
  {
    if m == "" {
      assert !TextLess(u, m);
    }
  }

  /** One chosen pair added to its coin's entry, the entry created on first use. */
  function AddPair(implied: map<CoinId, Stats>, s: Candidate): map<CoinId, Stats> {
    var st := if s.coin in implied then implied[s.coin] else Stats(0, 0, 0, s.matchedAt);
    implied[s.coin := Stats(st.sumCoin + s.coinAmount, st.sumCash + s.cashAmount, st.matches + 1,
                            if Later(s.matchedAt, st.updatedAt) then s.matchedAt else st.updatedAt)]
  }

  /** `implied_by_coin` after the chosen pairs `sel`, in order. */
  function Tally(sel: seq<Candidate>): map<CoinId, Stats>
    decreases |sel|
  {
    if |sel| == 0 then map[] else AddPair(Tally(sel[..|sel| - 1]), sel[|sel| - 1])
  }

  /** Choosing one more pair marks its two trades used. */
  lemma ChooseOneMore(sel: seq<Candidate>, s: Candidate)
    ensures CoinTids(sel + [s]) == CoinTids(sel) + {s.coinTid}
    ensures CashTids(sel + [s]) == CashTids(sel) + {s.cashTid}
  {
    assert (sel + [s])[..|sel|] == sel;
  }

  /**
    Choosing one more pair adds it to its coin's entry, created on first
    use: the entry as the loop over the candidate rows writes it.
   */
  lemma TallyOneMore(sel: seq<Candidate>, implied: map<CoinId, Stats>, s: Candidate)
    requires implied == Tally(sel)
    ensures var st := if s.coin in implied then implied[s.coin] else Stats(0, 0, 0, s.matchedAt);
      Tally(sel + [s]) == implied[s.coin := Stats(st.sumCoin + s.coinAmount, st.sumCash + s.cashAmount, st.matches + 1,
        if s.matchedAt != "" && (st.updatedAt == "" || TextLess(st.updatedAt, s.matchedAt)) then s.matchedAt else st.updatedAt)]
  {
    assert (sel + [s])[..|sel|] == sel;
  }

  /** The chosen pairs of coin c, in order. */
  function OfCoin(sel: seq<Candidate>, c: CoinId): (r: seq<Candidate>)
    ensures forall s :: s in r <==> s in sel && s.coin == c
    decreases |sel|
  {
    if |sel| == 0 then []
    else OfCoin(sel[..|sel| - 1], c) + if sel[|sel| - 1].coin == c then [sel[|sel| - 1]] else []
  }

  function SumCoin(sel: seq<Candidate>): int
    decreases |sel|
  {
    if |sel| == 0 then 0 else SumCoin(sel[..|sel| - 1]) + sel[|sel| - 1].coinAmount
  }

  function SumCash(sel: seq<Candidate>): int
    decreases |sel|
  {
    if |sel| == 0 then 0 else SumCash(sel[..|sel| - 1]) + sel[|sel| - 1].cashAmount
  }

  /** A coin has an entry exactly when some chosen pair is of that coin. */
  lemma {:induction false} TallyKeys(sel: seq<Candidate>, c: CoinId)
    ensures c in Tally(sel) <==> |OfCoin(sel, c)| > 0
    decreases |sel|
  {
    if |sel| > 0 {
      var n := |sel| - 1;
      var front, s := sel[..n], sel[n];
      TallyKeys(front, c);
      assert Tally(sel) == AddPair(Tally(front), s);
      if s.coin == c {
        assert OfCoin(sel, c) == OfCoin(front, c) + [s];
      } else {
        assert OfCoin(sel, c) == OfCoin(front, c);
      }
    }
  }

  /** One more chosen pair for coin c: its entry grows by the pair, the rest stay. */
  lemma AddPairEntry(m: map<CoinId, Stats>, s: Candidate, c: CoinId)
    requires c in m || s.coin == c
    ensures c in AddPair(m, s)
    ensures var st := if c in m then m[c] else Stats(0, 0, 0, s.matchedAt);
      s.coin == c ==>
        && AddPair(m, s)[c].matches == st.matches + 1
        && AddPair(m, s)[c].sumCoin == st.sumCoin + s.coinAmount
        && AddPair(m, s)[c].sumCash == st.sumCash + s.cashAmount
    ensures s.coin != c ==> AddPair(m, s)[c] == m[c]
  {
  }

  /** `matches` counts a coin's chosen pairs. */
  lemma {:induction false} TallyCounts(sel: seq<Candidate>, c: CoinId)
    requires c in Tally(sel)
    ensures Tally(sel)[c].matches == |OfCoin(sel, c)|
    decreases |sel|
  {
    var n := |sel| - 1;
    var front, s := sel[..n], sel[n];
    var m := Tally(front);
    assert Tally(sel) == AddPair(m, s);
    AddPairEntry(m, s, c);
    if s.coin == c {
      assert OfCoin(sel, c) == OfCoin(front, c) + [s];
      if c in m {
        TallyCounts(front, c);
      } else {
        TallyKeys(front, c);
      }
    } else {
      assert OfCoin(sel, c) == OfCoin(front, c);
      TallyCounts(front, c);
    }
  }

  /** `sum_coin` and `sum_cash` add up the two amounts of a coin's chosen pairs. */
  lemma {:induction false} TallySums(sel: seq<Candidate>, c: CoinId)
    requires c in Tally(sel)
    ensures Tally(sel)[c].sumCoin == SumCoin(OfCoin(sel, c))
    ensures Tally(sel)[c].sumCash == SumCash(OfCoin(sel, c))
    decreases |sel|
  {
    var n := |sel| - 1;
    var front, s := sel[..n], sel[n];
    var m := Tally(front);
    assert Tally(sel) == AddPair(m, s);
    AddPairEntry(m, s, c);
    var prior, mine := OfCoin(front, c), OfCoin(sel, c);
    if s.coin == c {
      assert mine == prior + [s];
      assert mine[..|mine| - 1] == prior;
      if c in m {
        TallySums(front, c);
      } else {
        TallyKeys(front, c);
      }
    } else {
      assert mine == prior;
      TallySums(front, c);
    }
  }

  /** A coin's `updated_at` is the latest time among its chosen pairs. */
  lemma {:induction false} TallyLatest(sel: seq<Candidate>, c: CoinId)
    requires c in Tally(sel)
    ensures var st, mine := Tally(sel)[c], OfCoin(sel, c);
      && (exists s :: s in mine && s.matchedAt == st.updatedAt)
      && (forall s :: s in mine ==> !TextLess(st.updatedAt, s.matchedAt))
    decreases |sel|
  {
    var n := |sel| - 1;
    var front, s := sel[..n], sel[n];
    var m := Tally(front);
    if s.coin != c {
      TallyLatest(front, c);
      assert OfCoin(sel, c) == OfCoin(front, c);
    } else {
      var st := if c in m then m[c] else Stats(0, 0, 0, s.matchedAt);
      var u := Tally(sel)[c].updatedAt;
      LaterIsTextLess(s.matchedAt, st.updatedAt);
      TextLessIrreflexive(s.matchedAt);
      assert s in OfCoin(sel, c);
      if c in m {
        TallyLatest(front, c);
        forall x | x in OfCoin(sel, c) ensures !TextLess(u, x.matchedAt) {
          if x != s {
            assert x in OfCoin(front, c);
            if TextLess(st.updatedAt, s.matchedAt) && TextLess(s.matchedAt, x.matchedAt) {
              TextLessTransitive(st.updatedAt, s.matchedAt, x.matchedAt);
            }
          }
        }
        var w :| w in OfCoin(front, c) && w.matchedAt == st.updatedAt;
        assert w in OfCoin(sel, c);
      } else {
        TallyKeys(front, c);
        assert |OfCoin(front, c)| == 0;
        forall x | x in OfCoin(sel, c) ensures x == s {
          assert x !in OfCoin(front, c);
        }
      }
    }
  }
}
