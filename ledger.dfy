/**
  The engine as the server runs it: one object holding the three tables,
  whose methods write them row by row in the order the server does, reading
  between writes. Each method is proved to end in the state, and return the
  answer, that the matching transition of Engine describes, and to keep the
  engine's invariant.
 */
module LedgerImpl {
  import opened Wrappers
  import opened Types
  import opened Policy
  import opened Chain
  import opened Store
  import opened Engine

  class Ledger {
    /** SHA-256 as the engine calls it. */
    const H: string -> string
    /** The coins table, read-only for these operations. */
    const coins: seq<Coin>
    var balances: Balances
    var trades: seq<Trade>
    var blocks: seq<Block>

    /** The tables as a value. */
    function Tables(): State
      reads this
    {
      State(balances, trades, blocks)
    }

    ghost predicate Valid()
      reads this
    {
      BurnRatesOk(coins) && Inv(H, Tables())
    }

    /** A fresh database: no balances, trades or blocks yet. */
    constructor (H: string -> string, coins: seq<Coin>)
      requires BurnRatesOk(coins)
      ensures Valid()
      ensures this.H == H && this.coins == coins && Tables() == State(map[], [], [])
    {
      this.H := H;
      this.coins := coins;
      balances, trades, blocks := map[], [], [];
      new;
      EmptyInv(H);
    }

    /** `set_balance`: upsert the row; without a new staked value the stored one is kept. */
    method SetBalance(u: UserId, c: CoinId, amount: int, staked: Option<int>)
      modifies this
      ensures balances == Store.SetBalance(old(balances), u, c, amount, staked)
      ensures trades == old(trades) && blocks == old(blocks)
    {
      var keep := GetBalance(balances, u, c).staked;
      var s := if staked.Some? then staked.value else keep;
      balances := balances[(u, c) := Balance(amount, s)];
    }

    /**
      `add_block`: link a block for trade `tid` to the coin's tip, hash it,
      append it and return its hash, which becomes the coin's tip.
     */
    method AddBlock(tid: Id, c: CoinId, from: Issuer, to: UserId, amount: int, ts: string) returns (h: string)
      modifies this
      ensures blocks == old(blocks) + [NewBlock(H, old(blocks), tid, c, from, to, amount, ts)]
      ensures h == ComputeHash(H, Tip(old(blocks), c), tid, from, to, c, amount, ts)
      ensures Tip(blocks, c) == h
      ensures forall d :: d != c ==> Tip(blocks, d) == Tip(old(blocks), d)
      ensures balances == old(balances) && trades == old(trades)
    {
      var prev := Tip(blocks, c);
      h := ComputeHash(H, prev, tid, from, to, c, amount, ts);
      var b := Block(c, tid, prev, h);
      TipAfterAppend(blocks, b, c);
      forall d | d != c ensures Tip(blocks + [b], d) == Tip(blocks, d) {
        TipAfterAppend(blocks, b, d);
      }
      blocks := blocks + [b];
    }

    /**
      `do_transfer`: the checks, in the server's order, then the writes.
     */
    method DoTransfer(from: Issuer, to: UserId, c: CoinId, amount: int, kind: TradeKind, note: string, ts: string)
      returns (r: Result<Receipt, TransferError>)
      requires Valid()
      modifies this
      ensures Valid()
      ensures (Tables(), r) == TransferOp(H, coins, old(Tables()), from, to, c, amount, kind, note, ts)
    {
      ghost var st0 := Tables();
      if c > |coins| {
        return Err(CoinNotFound);
      }
      var coin := coins[c - 1];
      var burned := Burned(amount, coin, kind);
      var received := amount - burned;
      if CapActive(coin) {
        var current := GetBalance(balances, to, c).amount;
        if current + received > coin.maxHolding.value {
          return Err(AntiWhaleLimit);
        }
      }
      if from.Account? {
        var sender := GetBalance(balances, from.user, c);
        if sender.amount < amount {
          return Err(InsufficientBalance);
        }
      }
      TransferPasses(H, coins, st0, from, to, c, amount, kind, note, ts);
      TransferKeepsInv(H, coins, st0, from, to, c, amount, kind, note, ts);
      var t := Trade(from, to, c, amount, burned, kind, note, ts);
      ghost var settled := Settled(st0.balances, from, to, c, amount, received);
      var tid := Settle(t, received);
      r := if tid.Some? then Ok(Receipt(tid.value, burned, received)) else Err(StorageRejected);
      ghost var out := TransferOp(H, coins, st0, from, to, c, amount, kind, note, ts);
      if amount > 0 {
        assert out.0 == Record(H, State(settled, st0.trades, st0.blocks), t);
        assert out.1 == Ok(Receipt(|st0.trades| + 1, burned, received));
        assert tid == Some(|st0.trades| + 1);
      } else {
        assert out == (st0, Err(StorageRejected));
      }
      assert Tables() == out.0 && r == out.1;
      assert Inv(H, Tables());
    }

    /**
      The writes of a transfer that passed its checks: debit the sender
      (unless it is the system), credit the recipient on a fresh read of its
      row, insert the trade and add its block. When the trade row is refused
      (an amount of zero or less) the request fails before its commit and the
      balance writes already made are discarded.
     */
    method Settle(t: Trade, received: int) returns (tid: Option<Id>)
      modifies this
      ensures t.amount <= 0 ==> tid.None? && Tables() == old(Tables())
      ensures t.amount > 0 ==>
        && Tables() == Record(H, State(Settled(old(balances), t.from, t.to, t.coin, t.amount, received), old(trades), old(blocks)), t)
        && tid == Some(|trades|)
    {
      var saved := balances;
      if t.from.Account? {
        var sender := GetBalance(balances, t.from.user, t.coin);
        SetBalance(t.from.user, t.coin, sender.amount - t.amount, None);
      }
      ghost var debited := balances;
      assert debited == Debit(saved, t.from, t.coin, t.amount);
      var recipient := GetBalance(balances, t.to, t.coin);
      SetBalance(t.to, t.coin, recipient.amount + received, None);
      ghost var credited := balances;
      assert credited == Settled(saved, t.from, t.to, t.coin, t.amount, received);
      if t.amount <= 0 {
        balances := saved;
        return None;
      }
      trades := trades + [t];
      var id := |trades|;
      ghost var blocks0 := blocks;
      var _ := AddBlock(id, t.coin, t.from, t.to, t.amount, t.executedAt);
      tid := Some(id);
      assert blocks == blocks0 + [NewBlock(H, blocks0, id, t.coin, t.from, t.to, t.amount, t.executedAt)];
      assert Tables() == State(credited, old(trades) + [t], blocks);
    }

    /** The staking endpoint after the credentials check: stake, unstake or claim. */
    method ApplyStake(u: UserId, c: CoinId, action: StakeAction, amount: int, note: string, ts: string)
      returns (r: Result<StakeOk, StakeError>)
      requires Valid()
      modifies this
      ensures Valid()
      ensures (Tables(), r) == StakeOp(H, coins, old(Tables()), u, c, action, amount, note, ts)
    {
      ghost var st0 := Tables();
      if c > |coins| {
        return Err(StakeCoinNotFound);
      }
      var coin := coins[c - 1];
      if !coin.stakingEnabled {
        return Err(StakingNotSupported);
      }
      var bal := GetBalance(balances, u, c);
      match action {
        case Stake =>
          if amount <= 0 {
            return Err(EnterAmount);
          }
          if bal.amount < amount {
            return Err(NotEnoughToStake);
          }
          SetBalance(u, c, bal.amount - amount, Some(bal.staked + amount));
          r := Ok(NowStaked(bal.staked + amount));
        case Unstake =>
          if amount <= 0 {
            return Err(EnterAmount);
          }
          if bal.staked < amount {
            return Err(NotEnoughStaked);
          }
          SetBalance(u, c, bal.amount + amount, Some(bal.staked - amount));
          r := Ok(NowStaked(bal.staked - amount));
        case Claim =>
          if bal.staked <= 0 {
            return Err(NothingStaked);
          }
          var reward := StakingReward(bal.staked);
          var paid := DoTransfer(System, u, c, reward, StakeReward, note, ts);
          if paid.Err? {
            return Err(RewardFailed(paid.error));
          }
          r := Ok(Rewarded(reward));
        case Other(_) =>
          return Err(UnknownAction);
      }
      StakeKeepsInv(H, coins, st0, u, c, action, amount, note, ts);
    }

    /**
      The airdrop endpoint after the credentials check: the creator's coin
      is sent, by the system, to each user of `holders` (the rows of the
      holders query, in the order they come back), counting the transfers
      that go through.
     */
    method ApplyAirdrop(u: UserId, c: CoinId, holders: seq<UserId>, note: string, ts: string)
      returns (r: Result<AirdropReport, AirdropError>)
      requires Valid()
      modifies this
      ensures Valid()
      ensures (Tables(), r) == AirdropOp(H, coins, old(Tables()), u, c, holders, note, ts)
    {
      ghost var st0 := Tables();
      if c > |coins| || coins[c - 1].creator != Some(u) {
        return Err(NotCreator);
      }
      var coin := coins[c - 1];
      if coin.airdropAmount <= 0 {
        return Err(NoAirdropAmount);
      }
      if |holders| == 0 {
        return Err(NoHolders);
      }
      var count := SendAll(c, holders, coin.airdropAmount, note, ts);
      assert CoinAt(coins, c) == Some(coin);
      r := Ok(AirdropReport(count, count * coin.airdropAmount));
    }

    /** The airdrop loop: the system sends `amount` to each listed user in turn, counting the transfers that go through. */
    method SendAll(c: CoinId, holders: seq<UserId>, amount: int, note: string, ts: string) returns (count: nat)
      requires Valid()
      modifies this
      ensures Valid()
      ensures (Tables(), count) == DropAll(H, coins, old(Tables()), c, holders, amount, note, ts)
    {
      ghost var st0 := Tables();
      ghost var done: (State, nat) := (st0, 0);
      count := 0;
      for i := 0 to |holders|
        invariant Valid()
        invariant done == DropAll(H, coins, st0, c, holders[..i], amount, note, ts)
        invariant Tables() == done.0 && count == done.1
      {
        var sent := DoTransfer(System, holders[i], c, amount, Airdrop, note, ts);
        DropAllStep(H, coins, st0, c, holders, i, amount, note, ts, done, (Tables(), sent));
        if sent.Ok? {
          count := count + 1;
        }
        done := (Tables(), count);
      }
      assert holders[..|holders|] == holders;
    }
  }
}
