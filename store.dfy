/**
  The exchange's three mutable tables as one value: the balance rows keyed by
  (user, coin), the append-only trade table and the append-only ledger_blocks
  table. This module gives the lookups (`get_balance`, `get_prev_hash`, the
  verifier's JOIN) and the invariant that every stored chain verifies; the
  transitions built on them are in Engine, and LedgerImpl performs them in
  place.
 */
module Store {
  import opened Wrappers
  import opened Types
  import opened Chain

  type Balances = map<(UserId, CoinId), Balance>

  datatype State = State(balances: Balances, trades: seq<Trade>, blocks: seq<Block>)

  /** `get_balance`: the stored row, or (0, 0) when the user holds no row for the coin. */
  function GetBalance(b: Balances, u: UserId, c: CoinId): Balance {
    if (u, c) in b then b[(u, c)] else Balance(0, 0)
  }

  /**
    `set_balance`: upserts the (user, coin) row. Without a new staked value
    the stored one is kept. Amounts are whole ten-thousandths already, so the
    rounding to four places leaves them unchanged.
   */
  function SetBalance(b: Balances, u: UserId, c: CoinId, amount: int, staked: Option<int>): Balances {
    b[(u, c) := Balance(amount, staked.GetOr(GetBalance(b, u, c).staked))]
  }

  /** After `set_balance` the row holds the new amount, keeps its staked value unless one is given, and no other row moves. */
  lemma GetAfterSet(b: Balances, u: UserId, c: CoinId, amount: int, staked: Option<int>, v: UserId, d: CoinId)
    ensures GetBalance(SetBalance(b, u, c, amount, staked), u, c).amount == amount
    ensures staked.None? ==> GetBalance(SetBalance(b, u, c, amount, staked), u, c).staked == GetBalance(b, u, c).staked
    ensures staked.Some? ==> GetBalance(SetBalance(b, u, c, amount, staked), u, c).staked == staked.value
    ensures (v, d) != (u, c) ==> GetBalance(SetBalance(b, u, c, amount, staked), v, d) == GetBalance(b, v, d)
  {
  }

  /** `get_prev_hash`: this_hash of the coin's block with the highest block_id, or the sentinel. */
  function Tip(blocks: seq<Block>, c: CoinId): string
    decreases |blocks|
  {
    if |blocks| == 0 then Genesis
    else if blocks[|blocks| - 1].coin == c then blocks[|blocks| - 1].thisHash
    else Tip(blocks[..|blocks| - 1], c)
  }

  /** Block i is the coin's block with the highest block_id. */
  predicate IsLatest(blocks: seq<Block>, c: CoinId, i: int) {
    0 <= i < |blocks| && blocks[i].coin == c && forall j :: i < j < |blocks| ==> blocks[j].coin != c
  }

  predicate HasBlock(blocks: seq<Block>, c: CoinId) {
    exists i :: 0 <= i < |blocks| && blocks[i].coin == c
  }

  /**
    The tip is what `ORDER BY block_id DESC LIMIT 1` finds: the sentinel for a
    coin without blocks, otherwise the hash of the coin's latest block.
   */
  lemma {:induction false} TipIsLatest(blocks: seq<Block>, c: CoinId)
    ensures !HasBlock(blocks, c) ==> Tip(blocks, c) == Genesis
    ensures HasBlock(blocks, c) ==> exists i :: IsLatest(blocks, c, i) && Tip(blocks, c) == blocks[i].thisHash
    decreases |blocks|
  {
    if |blocks| > 0 {
      var n := |blocks| - 1;
      var front := blocks[..n];
      TipIsLatest(front, c);
      if blocks[n].coin == c {
        assert IsLatest(blocks, c, n);
      } else {
        if HasBlock(blocks, c) {
          var i :| 0 <= i < |blocks| && blocks[i].coin == c;
          assert front[i] == blocks[i];
          var k :| IsLatest(front, c, k) && Tip(front, c) == front[k].thisHash;
          assert IsLatest(blocks, c, k);
        } else {
          assert !HasBlock(front, c) by {
            forall i | 0 <= i < n ensures front[i].coin != c {
              assert front[i] == blocks[i];
            }
          }
        }
      }
    }
  }

  /** Appending a block moves its own coin's tip to the block's hash and no other coin's tip. */
  lemma TipAfterAppend(blocks: seq<Block>, b: Block, c: CoinId)
    ensures Tip(blocks + [b], c) == if b.coin == c then b.thisHash else Tip(blocks, c)
  {
    assert (blocks + [b])[..|blocks|] == blocks;
  }

  /** One row of the verifier's query: block number `blockId` joined with its trade. */
  function RowOf(blockId: Id, b: Block, t: Trade): ChainRow {
    ChainRow(blockId, b.tradeId, b.prevHash, b.thisHash, b.coin, t.from, t.to, t.amount, t.executedAt)
  }

  /**
    The verifier's query for coin c: the coin's blocks in block_id order,
    each joined with the trade it references (a block whose trade is missing
    drops out of the inner JOIN).
   */
  function ChainRows(blocks: seq<Block>, trades: seq<Trade>, c: CoinId): seq<ChainRow>
    decreases |blocks|
  {
    if |blocks| == 0 then []
    else
      var n := |blocks| - 1;
      var b := blocks[n];
      var rest := ChainRows(blocks[..n], trades, c);
      if b.coin == c && b.tradeId <= |trades| then rest + [RowOf(n + 1, b, trades[b.tradeId - 1])] else rest
  }

  lemma ChainRowsAppend(blocks: seq<Block>, b: Block, trades: seq<Trade>, c: CoinId)
    ensures ChainRows(blocks + [b], trades, c) ==
      ChainRows(blocks, trades, c) + if b.coin == c && b.tradeId <= |trades| then [RowOf(|blocks| + 1, b, trades[b.tradeId - 1])] else []
  {
    assert (blocks + [b])[..|blocks|] == blocks;
  }

  /** Every block references an existing trade (the FOREIGN KEY on trade_id). */
  predicate TradesExist(blocks: seq<Block>, trades: seq<Trade>) {
    forall i :: 0 <= i < |blocks| ==> blocks[i].tradeId <= |trades|
  }

  /** Recording a new trade does not change the rows of blocks that already exist. */
  lemma {:induction false} ChainRowsExtendTrades(blocks: seq<Block>, trades: seq<Trade>, t: Trade, c: CoinId)
    requires TradesExist(blocks, trades)
    ensures ChainRows(blocks, trades + [t], c) == ChainRows(blocks, trades, c)
    decreases |blocks|
  {
    if |blocks| > 0 {
      var n := |blocks| - 1;
      assert TradesExist(blocks[..n], trades);
      ChainRowsExtendTrades(blocks[..n], trades, t, c);
      if blocks[n].tradeId <= |trades| {
        assert (trades + [t])[blocks[n].tradeId - 1] == trades[blocks[n].tradeId - 1];
      }
    }
  }

  /** When every block's trade exists, the tip is the stored hash of the coin chain's last row. */
  lemma {:induction false} TipIsLastRow(blocks: seq<Block>, trades: seq<Trade>, c: CoinId)
    requires TradesExist(blocks, trades)
    ensures Tip(blocks, c) == LastHash(ChainRows(blocks, trades, c))
    decreases |blocks|
  {
    if |blocks| > 0 {
      var n := |blocks| - 1;
      assert TradesExist(blocks[..n], trades);
      TipIsLastRow(blocks[..n], trades, c);
    }
  }

  /**
    The tables as `do_transfer` and the coin creation keep them: block i+1
    was written together with trade i+1 and belongs to the same coin.
   */
  predicate Lockstep(st: State) {
    && |st.blocks| == |st.trades|
    && forall i :: 0 <= i < |st.blocks| ==> st.blocks[i].tradeId == i + 1 && st.blocks[i].coin == st.trades[i].coin
  }

  /** The balances CHECKs: neither bucket is ever negative. */
  predicate BalancesOk(b: Balances) {
    forall k :: k in b ==> b[k].amount >= 0 && b[k].staked >= 0
  }

  /**
    The engine's invariant: the balance and trade CHECKs hold, blocks and
    trades are in lockstep, and every coin's chain passes both checks of the
    verifier.
   */
  ghost predicate Inv(H: string -> string, st: State) {
    && BalancesOk(st.balances)
    && (forall i :: 0 <= i < |st.trades| ==> st.trades[i].amount > 0)
    && Lockstep(st)
    && forall c: CoinId :: Sound(H, ChainRows(st.blocks, st.trades, c))
  }

  /** A fresh database satisfies the invariant. */
  lemma EmptyInv(H: string -> string)
    ensures Inv(H, State(map[], [], []))
  {
  }

  lemma LockstepTradesExist(st: State)
    requires Lockstep(st)
    ensures TradesExist(st.blocks, st.trades)
  {
  }

  /**
    The round trip from `add_block` to `verify_chain`: in a state reached
    through the engine's transitions, the verifier reports every coin's chain
    valid, with one block per row.
   */
  lemma StoredChainsVerify(H: string -> string, st: State, c: CoinId)
    requires Inv(H, st)
    ensures VerifyChain(H, ChainRows(st.blocks, st.trades, c)) == Intact(|ChainRows(st.blocks, st.trades, c)|)
  {
    assert Sound(H, ChainRows(st.blocks, st.trades, c));
  }

  /** `add_block`: the block linking trade `tid` to the coin's tip, hashed over its fields. */
  function NewBlock(H: string -> string, blocks: seq<Block>, tid: Id, c: CoinId, from: Issuer, to: UserId, amount: int, ts: string): Block {
    var prev := Tip(blocks, c);
    Block(c, tid, prev, ComputeHash(H, prev, tid, from, to, c, amount, ts))
  }

  /** The INSERT into trades followed by `add_block` for the new trade_id. */
  function Record(H: string -> string, st: State, t: Trade): State {
    var tid := |st.trades| + 1;
    State(st.balances, st.trades + [t], st.blocks + [NewBlock(H, st.blocks, tid, t.coin, t.from, t.to, t.amount, t.executedAt)])
  }

  /**
    `add_block` keeps the verifier's view consistent: the new block
    links to the coin's tip and carries the hash of its own fields, so every
    chain that was sound stays sound and the coin's tip becomes the new hash.
   */
  lemma RecordKeepsChainsSound(H: string -> string, st: State, t: Trade, c: CoinId)
    requires Lockstep(st) && Sound(H, ChainRows(st.blocks, st.trades, c))
    ensures Lockstep(Record(H, st, t))
    ensures Sound(H, ChainRows(Record(H, st, t).blocks, Record(H, st, t).trades, c))
    ensures Tip(Record(H, st, t).blocks, c) == if c == t.coin then Record(H, st, t).blocks[|st.blocks|].thisHash else Tip(st.blocks, c)
  {
    var st' := Record(H, st, t);
    var tid := |st.trades| + 1;
    var b := NewBlock(H, st.blocks, tid, t.coin, t.from, t.to, t.amount, t.executedAt);
    var rows := ChainRows(st.blocks, st.trades, c);
    LockstepTradesExist(st);
    ChainRowsExtendTrades(st.blocks, st.trades, t, c);
    ChainRowsAppend(st.blocks, b, st.trades + [t], c);
    TipAfterAppend(st.blocks, b, c);
    if c == t.coin {
      TipIsLastRow(st.blocks, st.trades, c);
      assert (st.trades + [t])[tid - 1] == t;
      SoundAppend(H, rows, RowOf(|st.blocks| + 1, b, t));
    }
  }

  /** Recording a trade of positive amount preserves the invariant, whatever happened to the balances. */
  lemma RecordKeepsInv(H: string -> string, st: State, b: Balances, t: Trade)
    requires Inv(H, st) && BalancesOk(b) && t.amount > 0
    ensures Inv(H, Record(H, st.(balances := b), t))
  {
    var st1 := st.(balances := b);
    var st' := Record(H, st1, t);
    forall c: CoinId
      ensures Sound(H, ChainRows(st'.blocks, st'.trades, c))
    {
      assert Sound(H, ChainRows(st1.blocks, st1.trades, c));
      RecordKeepsChainsSound(H, st1, t, c);
    }
    RecordKeepsChainsSound(H, st1, t, 1);
  }

  /** `row` is the JOIN of a block of coin c with the trade that block references. */
  predicate JoinedRow(blocks: seq<Block>, trades: seq<Trade>, c: CoinId, row: ChainRow) {
    && 1 <= row.blockId <= |blocks|
    && blocks[row.blockId - 1].coin == c
    && blocks[row.blockId - 1].tradeId <= |trades|
    && row == RowOf(row.blockId, blocks[row.blockId - 1], trades[blocks[row.blockId - 1].tradeId - 1])
  }

  /** Every row of the query is a block of the coin joined with its own trade. */
  lemma {:induction false} ChainRowsJoined(blocks: seq<Block>, trades: seq<Trade>, c: CoinId)
    ensures forall k :: 0 <= k < |ChainRows(blocks, trades, c)| ==> JoinedRow(blocks, trades, c, ChainRows(blocks, trades, c)[k])
    decreases |blocks|
  {
    if |blocks| > 0 {
      var n := |blocks| - 1;
      var front := blocks[..n];
      var rows := ChainRows(blocks, trades, c);
      var rest := ChainRows(front, trades, c);
      ChainRowsJoined(front, trades, c);
      forall k | 0 <= k < |rows| ensures JoinedRow(blocks, trades, c, rows[k]) {
        if k < |rest| {
          assert rows[k] == rest[k];
          assert JoinedRow(front, trades, c, rest[k]);
          assert front[rest[k].blockId - 1] == blocks[rest[k].blockId - 1];
        }
      }
    }
  }

  /** Rows come in strictly increasing block_id order. */
  lemma {:induction false} ChainRowsIncreasing(blocks: seq<Block>, trades: seq<Trade>, c: CoinId)
    ensures forall k :: 0 <= k < |ChainRows(blocks, trades, c)| ==> ChainRows(blocks, trades, c)[k].blockId <= |blocks|
    ensures forall k, m :: 0 <= k < m < |ChainRows(blocks, trades, c)| ==>
      ChainRows(blocks, trades, c)[k].blockId < ChainRows(blocks, trades, c)[m].blockId
    decreases |blocks|
  {
    if |blocks| > 0 {
      var n := |blocks| - 1;
      var rows := ChainRows(blocks, trades, c);
      var rest := ChainRows(blocks[..n], trades, c);
      ChainRowsIncreasing(blocks[..n], trades, c);
      assert forall k :: 0 <= k < |rest| ==> rows[k] == rest[k];
    }
  }

  /** Every block of the coin whose trade exists appears as a row. */
  lemma {:induction false} ChainRowsCover(blocks: seq<Block>, trades: seq<Trade>, c: CoinId, i: nat)
    requires i < |blocks| && blocks[i].coin == c && blocks[i].tradeId <= |trades|
    ensures exists k :: 0 <= k < |ChainRows(blocks, trades, c)| && ChainRows(blocks, trades, c)[k].blockId == i + 1
    decreases |blocks|
  {
    var n := |blocks| - 1;
    var rows := ChainRows(blocks, trades, c);
    if i == n {
      assert rows[|rows| - 1].blockId == i + 1;
    } else {
      var front := blocks[..n];
      assert front[i] == blocks[i];
      ChainRowsCover(front, trades, c, i);
      var rest := ChainRows(front, trades, c);
      var k :| 0 <= k < |rest| && rest[k].blockId == i + 1;
      assert rows[k] == rest[k];
    }
  }

  /** A row with its trade-side fields taken from `t` instead. */
  function Rejoin(row: ChainRow, t: Trade): ChainRow {
    row.(from := t.from, to := t.to, amount := t.amount, executedAt := t.executedAt)
  }

  /** Rewriting trade rows leaves the block side of every row alone and re-reads the trade side. */
  lemma {:induction false} ChainRowsRetrade(blocks: seq<Block>, trades: seq<Trade>, trades2: seq<Trade>, c: CoinId)
    requires |trades2| == |trades|
    ensures |ChainRows(blocks, trades2, c)| == |ChainRows(blocks, trades, c)|
    ensures forall k :: 0 <= k < |ChainRows(blocks, trades, c)| ==>
      && ChainRows(blocks, trades, c)[k].tradeId <= |trades|
      && ChainRows(blocks, trades2, c)[k] == Rejoin(ChainRows(blocks, trades, c)[k], trades2[ChainRows(blocks, trades, c)[k].tradeId - 1])
    decreases |blocks|
  {
    if |blocks| > 0 {
      var n := |blocks| - 1;
      var rows, rows2 := ChainRows(blocks, trades, c), ChainRows(blocks, trades2, c);
      var rest, rest2 := ChainRows(blocks[..n], trades, c), ChainRows(blocks[..n], trades2, c);
      ChainRowsRetrade(blocks[..n], trades, trades2, c);
      assert forall k :: 0 <= k < |rest| ==> rows[k] == rest[k] && rows2[k] == rest2[k];
    }
  }

  /** Trade i+1 with its hashed fields (sender, recipient, amount, time) replaced by those of t. */
  predicate HashedFieldsDiffer(a: Trade, b: Trade) {
    a.from != b.from || a.to != b.to || a.amount != b.amount || a.executedAt != b.executedAt
  }

  /**
    Tamper detection on the stored tables: with H injective, rewriting any
    hashed field of trade i+1 makes the verifier report exactly block i+1 of
    that trade's coin as tampered, every earlier block of the coin passing.
   */
  lemma TamperedTradeInStore(H: string -> string, st: State, i: nat, t: Trade)
    requires Inv(H, st) && Injective(H)
    requires i < |st.trades| && HashedFieldsDiffer(t, st.trades[i])
    ensures VerifyChain(H, ChainRows(st.blocks, st.trades[i := t], st.trades[i].coin)) == Tampered(i + 1)
  {
    var c := st.trades[i].coin;
    var rows := ChainRows(st.blocks, st.trades, c);
    ChainRowsCover(st.blocks, st.trades, c, i);
    var k :| 0 <= k < |rows| && rows[k].blockId == i + 1;
    RetradeOneRow(st, i, t, k);
    assert Sound(H, rows);
    TamperedTradeDetected(H, rows, k, Rejoin(rows[k], t));
  }

  /** Rewriting trade i+1 changes only the row of its block, and there only the trade side. */
  lemma RetradeOneRow(st: State, i: nat, t: Trade, k: nat)
    requires Lockstep(st) && i < |st.trades|
    requires k < |ChainRows(st.blocks, st.trades, st.trades[i].coin)|
    requires ChainRows(st.blocks, st.trades, st.trades[i].coin)[k].blockId == i + 1
    ensures var c := st.trades[i].coin;
      var rows := ChainRows(st.blocks, st.trades, c);
      && ChainRows(st.blocks, st.trades[i := t], c) == rows[k := Rejoin(rows[k], t)]
      && rows[k] == Rejoin(rows[k], st.trades[i])
  {
    var c := st.trades[i].coin;
    var trades2 := st.trades[i := t];
    var rows, rows2 := ChainRows(st.blocks, st.trades, c), ChainRows(st.blocks, trades2, c);
    ChainRowsJoined(st.blocks, st.trades, c);
    ChainRowsIncreasing(st.blocks, st.trades, c);
    ChainRowsRetrade(st.blocks, st.trades, trades2, c);
    assert JoinedRow(st.blocks, st.trades, c, rows[k]);
    forall m | 0 <= m < |rows| && m != k ensures rows2[m] == rows[m] {
      assert JoinedRow(st.blocks, st.trades, c, rows[m]);
      assert rows[m].blockId != i + 1 by {
        if m < k { assert rows[m].blockId < rows[k].blockId; }
        else { assert rows[k].blockId < rows[m].blockId; }
      }
      assert trades2[rows[m].tradeId - 1] == st.trades[rows[m].tradeId - 1];
    }
  }

  /**
    The limit of the chain: trade columns outside the preimage (burned
    amount, trade type, note, coin) can be rewritten without the verifier
    noticing.
   */
  lemma UnhashedFieldsUndetected(H: string -> string, st: State, i: nat, t: Trade, c: CoinId)
    requires Inv(H, st)
    requires i < |st.trades| && !HashedFieldsDiffer(t, st.trades[i])
    ensures VerifyChain(H, ChainRows(st.blocks, st.trades[i := t], c)) == Intact(|ChainRows(st.blocks, st.trades, c)|)
  {
    var trades2 := st.trades[i := t];
    var rows, rows2 := ChainRows(st.blocks, st.trades, c), ChainRows(st.blocks, trades2, c);
    ChainRowsJoined(st.blocks, st.trades, c);
    ChainRowsRetrade(st.blocks, st.trades, trades2, c);
    forall m | 0 <= m < |rows| ensures rows2[m] == rows[m] {
      assert JoinedRow(st.blocks, st.trades, c, rows[m]);
    }
    assert rows2 == rows;
    assert Sound(H, rows);
  }
}
