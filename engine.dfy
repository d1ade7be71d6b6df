/**
  The engine's transitions on the tables: `do_transfer`, and the state
  changes behind the staking and airdrop endpoints. Each is a function from
  the old tables to the new ones together with what the server reports.
  Every rejection leaves the tables as they were, including a transfer the
  database refuses at the INSERT: the request then fails before its commit
  and nothing it wrote survives.
 */
module Engine {
  import opened Wrappers
  import opened Types
  import opened Policy
  import opened Chain
  import opened Store

  datatype TransferError =
    | CoinNotFound          // no coin row with the id
    | AntiWhaleLimit        // the recipient would pass the coin's max_holding
    | InsufficientBalance   // a user sender holds less than the amount
    | StorageRejected       // the trades CHECK(amount > 0) aborts the INSERT

  /** What `do_transfer` returns on success: the trade_id, the burn and the recipient's share. */
  datatype Receipt = Receipt(tradeId: Id, burned: int, received: int)

  /** The sender's side: a user is debited the gross amount, the system sender never. */
  function Debit(b: Balances, from: Issuer, c: CoinId, amount: int): Balances {
    if from.Account? then SetBalance(b, from.user, c, GetBalance(b, from.user, c).amount - amount, None) else b
  }

  /** The balances after a transfer's writes: the debit, then the credit on a fresh read of the recipient's row. */
  function Settled(b: Balances, from: Issuer, to: UserId, c: CoinId, amount: int, received: int): Balances {
    var debited := Debit(b, from, c, amount);
    SetBalance(debited, to, c, GetBalance(debited, to, c).amount + received, None)
  }

  /**
    `do_transfer`: burn on ordinary transfers, the anti-whale check on the
    post-burn amount, the sender check (skipped for the system), the debit,
    the credit on a fresh read of the recipient's row, then one trade row and
    one block. Every rejection returns before the first write.
   */
  function TransferOp(H: string -> string, coins: seq<Coin>, st: State, from: Issuer, to: UserId, c: CoinId,
                    amount: int, kind: TradeKind, note: string, ts: string): (r: (State, Result<Receipt, TransferError>))
    requires BurnRatesOk(coins)
    ensures r.1.Err? ==> r.0 == st
    ensures r.1.Ok? ==> |r.0.trades| == |st.trades| + 1 && r.1.value.tradeId == |r.0.trades|
  {
    match CoinAt(coins, c)
    case None => (st, Err(CoinNotFound))
    case Some(coin) =>
      var burned := Burned(amount, coin, kind);
      var received := amount - burned;
      if CapExceeded(coin, GetBalance(st.balances, to, c).amount, received) then (st, Err(AntiWhaleLimit))
      else if from.Account? && GetBalance(st.balances, from.user, c).amount < amount then (st, Err(InsufficientBalance))
      else if amount <= 0 then (st, Err(StorageRejected))
      else
        var t := Trade(from, to, c, amount, burned, kind, note, ts);
        (Record(H, st.(balances := Settled(st.balances, from, to, c, amount, received)), t), Ok(Receipt(|st.trades| + 1, burned, received)))
  }

  /**
    The order of the checks: a missing coin first, then the anti-whale cap,
    then the sender's balance (never for the system sender), then the
    trades CHECK; the transfer goes through exactly when none fires.
   */
  lemma TransferVerdict(H: string -> string, coins: seq<Coin>, st: State, from: Issuer, to: UserId, c: CoinId,
                        amount: int, kind: TradeKind, note: string, ts: string)
    requires BurnRatesOk(coins)
    ensures TransferOp(H, coins, st, from, to, c, amount, kind, note, ts).1 == Err(CoinNotFound) <==> c > |coins|
    ensures c <= |coins| ==>
      var coin := coins[c - 1];
      var capped := CapExceeded(coin, GetBalance(st.balances, to, c).amount, amount - Burned(amount, coin, kind));
      var short := from.Account? && GetBalance(st.balances, from.user, c).amount < amount;
      var r := TransferOp(H, coins, st, from, to, c, amount, kind, note, ts).1;
      && (r == Err(AntiWhaleLimit) <==> capped)
      && (r == Err(InsufficientBalance) <==> !capped && short)
      && (r == Err(StorageRejected) <==> !capped && !short && amount <= 0)
      && (r.Ok? <==> !capped && !short && amount > 0)
  {
  }

  /** Once the coin exists and neither the cap nor the sender check fires, only the trades CHECK decides. */
  lemma TransferPasses(H: string -> string, coins: seq<Coin>, st: State, from: Issuer, to: UserId, c: CoinId,
                       amount: int, kind: TradeKind, note: string, ts: string)
    requires BurnRatesOk(coins) && 1 <= c <= |coins|
    requires var coin := coins[c - 1];
      !CapExceeded(coin, GetBalance(st.balances, to, c).amount, amount - Burned(amount, coin, kind))
    requires !(from.Account? && GetBalance(st.balances, from.user, c).amount < amount)
    ensures var coin := coins[c - 1];
      var burned := Burned(amount, coin, kind);
      var received := amount - burned;
      TransferOp(H, coins, st, from, to, c, amount, kind, note, ts) ==
        if amount > 0 then
          (Record(H, State(Settled(st.balances, from, to, c, amount, received), st.trades, st.blocks),
                  Trade(from, to, c, amount, burned, kind, note, ts)),
           Ok(Receipt(|st.trades| + 1, burned, received)))
        else (st, Err(StorageRejected))
  {
  }

  /**
    What a successful transfer reports: the burn is 0 for anything but an
    ordinary transfer and never more than the amount, and the recipient's
    share is the amount less the burn.
   */
  lemma TransferReceipt(H: string -> string, coins: seq<Coin>, st: State, from: Issuer, to: UserId, c: CoinId,
                        amount: int, kind: TradeKind, note: string, ts: string)
    requires BurnRatesOk(coins)
    requires TransferOp(H, coins, st, from, to, c, amount, kind, note, ts).1.Ok?
    ensures var rc := TransferOp(H, coins, st, from, to, c, amount, kind, note, ts).1.value;
      && 0 <= rc.burned <= amount
      && rc.received == amount - rc.burned
      && (kind != TradeKind.Transfer ==> rc.burned == 0 && rc.received == amount)
  {
    BurnedWithinAmount(amount, coins[c - 1], kind);
  }

  /**
    The balance effect of a successful transfer: the sender's amount drops by
    the gross amount, the recipient's rises by the share it receives (a
    self-transfer nets to minus the burn), no staked value moves and no other
    row changes.
   */
  lemma TransferBalances(H: string -> string, coins: seq<Coin>, st: State, from: Issuer, to: UserId, c: CoinId,
                         amount: int, kind: TradeKind, note: string, ts: string, v: UserId, d: CoinId)
    requires BurnRatesOk(coins)
    requires TransferOp(H, coins, st, from, to, c, amount, kind, note, ts).1.Ok?
    ensures var out := TransferOp(H, coins, st, from, to, c, amount, kind, note, ts);
      var before, after := GetBalance(st.balances, v, d), GetBalance(out.0.balances, v, d);
      var received := out.1.value.received;
      && after.staked == before.staked
      && (d != c || (v != to && from != Account(v)) ==> after == before)
      && (d == c && from == Account(v) && v != to ==> after.amount == before.amount - amount)
      && (d == c && v == to && from != Account(to) ==> after.amount == before.amount + received)
      && (d == c && v == to && from == Account(to) ==> after.amount == before.amount + received - amount)
  {
  }

  /**
    Between two distinct users nothing is created: what the sender loses
    and the recipient does not gain is exactly the burn. From the system
    sender the recipient gains the full share and nobody loses.
   */
  lemma TransferBurnsTheDifference(H: string -> string, coins: seq<Coin>, st: State, from: Issuer, to: UserId, c: CoinId,
                                   amount: int, kind: TradeKind, note: string, ts: string)
    requires BurnRatesOk(coins)
    requires TransferOp(H, coins, st, from, to, c, amount, kind, note, ts).1.Ok?
    ensures var out := TransferOp(H, coins, st, from, to, c, amount, kind, note, ts);
      var gain := GetBalance(out.0.balances, to, c).amount - GetBalance(st.balances, to, c).amount;
      && (from.Account? && from.user != to ==>
           (GetBalance(st.balances, from.user, c).amount - GetBalance(out.0.balances, from.user, c).amount) - gain == out.1.value.burned)
      && (from.System? ==> gain == amount - out.1.value.burned)
  {
    TransferBalances(H, coins, st, from, to, c, amount, kind, note, ts, to, c);
    if from.Account? {
      TransferBalances(H, coins, st, from, to, c, amount, kind, note, ts, from.user, c);
    }
  }

  /**
    A successful transfer appends exactly one trade row (the one it reports)
    and one block for it, linked to the coin's previous tip and hashed over
    the trade; the coin's tip moves to that block and no other coin's does.
   */
  lemma TransferRecords(H: string -> string, coins: seq<Coin>, st: State, from: Issuer, to: UserId, c: CoinId,
                        amount: int, kind: TradeKind, note: string, ts: string, d: CoinId)
    requires BurnRatesOk(coins)
    requires TransferOp(H, coins, st, from, to, c, amount, kind, note, ts).1.Ok?
    ensures var out := TransferOp(H, coins, st, from, to, c, amount, kind, note, ts);
      var tid := out.1.value.tradeId;
      && tid == |st.trades| + 1
      && out.0.trades == st.trades + [Trade(from, to, c, amount, out.1.value.burned, kind, note, ts)]
      && out.0.blocks == st.blocks + [Block(c, tid, Tip(st.blocks, c), ComputeHash(H, Tip(st.blocks, c), tid, from, to, c, amount, ts))]
      && Tip(out.0.blocks, d) == if d == c then ComputeHash(H, Tip(st.blocks, c), tid, from, to, c, amount, ts) else Tip(st.blocks, d)
  {
    var out := TransferOp(H, coins, st, from, to, c, amount, kind, note, ts);
    TipAfterAppend(st.blocks, out.0.blocks[|st.blocks|], d);
  }

  /** A transfer, accepted or not, keeps the engine's invariant. */
  lemma TransferKeepsInv(H: string -> string, coins: seq<Coin>, st: State, from: Issuer, to: UserId, c: CoinId,
                         amount: int, kind: TradeKind, note: string, ts: string)
    requires BurnRatesOk(coins) && Inv(H, st)
    ensures Inv(H, TransferOp(H, coins, st, from, to, c, amount, kind, note, ts).0)
  {
    var out := TransferOp(H, coins, st, from, to, c, amount, kind, note, ts);
    if out.1.Ok? {
      var coin := coins[c - 1];
      var burned := Burned(amount, coin, kind);
      BurnedWithinAmount(amount, coin, kind);
      var debited := Debit(st.balances, from, c, amount);
      var credited := Settled(st.balances, from, to, c, amount, amount - burned);
      assert BalancesOk(debited);
      assert BalancesOk(credited);
      RecordKeepsInv(H, st, credited, Trade(from, to, c, amount, burned, kind, note, ts));
    }
  }

  /** The `action` field of a staking request; anything else is kept by name. */
  datatype StakeAction = Stake | Unstake | Claim | Other(name: string)

  datatype StakeError =
    | StakeCoinNotFound
    | StakingNotSupported
    | EnterAmount                     // a stake or unstake of zero or less
    | NotEnoughToStake
    | NotEnoughStaked
    | NothingStaked
    | RewardFailed(cause: TransferError)
    | UnknownAction

  /** A successful staking request: the new staked total, or the reward credited. */
  datatype StakeOk = NowStaked(staked: int) | Rewarded(reward: int)

  /**
    The transition of the staking endpoint for user u and coin c, after the
    credentials check. `stake` moves the amount from the free bucket to the
    staked one, `unstake` moves it back, `claim` pays 2% of the stake as a
    system transfer of kind stake_reward. A claim ignores `amount`.
   */
  function StakeOp(H: string -> string, coins: seq<Coin>, st: State, u: UserId, c: CoinId, action: StakeAction,
                   amount: int, note: string, ts: string): (r: (State, Result<StakeOk, StakeError>))
    requires BurnRatesOk(coins)
    ensures r.1.Err? ==> r.0 == st
  {
    match CoinAt(coins, c)
    case None => (st, Err(StakeCoinNotFound))
    case Some(coin) =>
      if !coin.stakingEnabled then (st, Err(StakingNotSupported))
      else
        var bal := GetBalance(st.balances, u, c);
        match action
        case Stake =>
          if amount <= 0 then (st, Err(EnterAmount))
          else if bal.amount < amount then (st, Err(NotEnoughToStake))
          else (st.(balances := SetBalance(st.balances, u, c, bal.amount - amount, Some(bal.staked + amount))),
                Ok(NowStaked(bal.staked + amount)))
        case Unstake =>
          if amount <= 0 then (st, Err(EnterAmount))
          else if bal.staked < amount then (st, Err(NotEnoughStaked))
          else (st.(balances := SetBalance(st.balances, u, c, bal.amount + amount, Some(bal.staked - amount))),
                Ok(NowStaked(bal.staked - amount)))
        case Claim =>
          if bal.staked <= 0 then (st, Err(NothingStaked))
          else
            var reward := StakingReward(bal.staked);
            var out := TransferOp(H, coins, st, System, u, c, reward, StakeReward, note, ts);
            if out.1.Err? then (st, Err(RewardFailed(out.1.error))) else (out.0, Ok(Rewarded(reward)))
        case Other(_) => (st, Err(UnknownAction))
  }

  /** A coin without staking refuses every action, whatever its amount. */
  lemma StakingDisabledRefuses(H: string -> string, coins: seq<Coin>, st: State, u: UserId, c: CoinId, action: StakeAction,
                               amount: int, note: string, ts: string)
    requires BurnRatesOk(coins) && c <= |coins| && !coins[c - 1].stakingEnabled
    ensures StakeOp(H, coins, st, u, c, action, amount, note, ts) == (st, Err(StakingNotSupported))
  {
  }

  /**
    The checks of stake and unstake on a staking coin: an amount of zero or
    less is refused first, then an amount above the bucket it leaves (the
    free amount for stake, the staked one for unstake); the request goes
    through exactly when neither fires, reporting the new stake.
   */
  lemma StakeVerdict(H: string -> string, coins: seq<Coin>, st: State, u: UserId, c: CoinId, action: StakeAction,
                     amount: int, note: string, ts: string)
    requires BurnRatesOk(coins) && c <= |coins| && coins[c - 1].stakingEnabled
    requires action == Stake || action == Unstake
    ensures var bal := GetBalance(st.balances, u, c);
      var bucket := if action == Stake then bal.amount else bal.staked;
      var r := StakeOp(H, coins, st, u, c, action, amount, note, ts).1;
      && (r == Err(EnterAmount) <==> amount <= 0)
      && (r == Err(if action == Stake then NotEnoughToStake else NotEnoughStaked) <==> 0 < amount && bucket < amount)
      && (r.Ok? <==> 0 < amount <= bucket)
      && (r.Ok? ==> r.value == NowStaked(if action == Stake then bal.staked + amount else bal.staked - amount))
  {
  }

  /**
    The checks of a claim on a staking coin: nothing staked is refused, and
    otherwise the claim goes through exactly when the reward transfer does.
   */
  lemma ClaimVerdict(H: string -> string, coins: seq<Coin>, st: State, u: UserId, c: CoinId,
                     amount: int, note: string, ts: string)
    requires BurnRatesOk(coins) && c <= |coins| && coins[c - 1].stakingEnabled
    ensures var staked := GetBalance(st.balances, u, c).staked;
      var r := StakeOp(H, coins, st, u, c, Claim, amount, note, ts).1;
      var paid := TransferOp(H, coins, st, System, u, c, StakingReward(staked), StakeReward, note, ts).1;
      && (r == Err(NothingStaked) <==> staked <= 0)
      && (staked > 0 ==> (r.Ok? <==> paid.Ok?) && (paid.Err? ==> r == Err(RewardFailed(paid.error))))
  {
  }

  /**
    A successful stake or unstake moves exactly `amount` between the two
    buckets of the user's row: the sum is preserved, no other row moves, and
    no trade or block is written.
   */
  lemma StakeMovesBetweenBuckets(H: string -> string, coins: seq<Coin>, st: State, u: UserId, c: CoinId, action: StakeAction,
                                 amount: int, note: string, ts: string, v: UserId, d: CoinId)
    requires BurnRatesOk(coins) && (action == Stake || action == Unstake)
    requires StakeOp(H, coins, st, u, c, action, amount, note, ts).1.Ok?
    ensures var out := StakeOp(H, coins, st, u, c, action, amount, note, ts);
      var before, after := GetBalance(st.balances, u, c), GetBalance(out.0.balances, u, c);
      && amount > 0
      && after.amount + after.staked == before.amount + before.staked
      && after.staked == (if action == Stake then before.staked + amount else before.staked - amount)
      && out.1.value == NowStaked(after.staked)
      && out.0.trades == st.trades && out.0.blocks == st.blocks
      && ((v, d) != (u, c) ==> GetBalance(out.0.balances, v, d) == GetBalance(st.balances, v, d))
  {
  }

  /** Unstaking what was just staked restores the tables exactly. */
  lemma UnstakeUndoesStake(H: string -> string, coins: seq<Coin>, st: State, u: UserId, c: CoinId,
                           amount: int, note: string, ts: string)
    requires BurnRatesOk(coins) && BalancesOk(st.balances)
    requires StakeOp(H, coins, st, u, c, Stake, amount, note, ts).1.Ok?
    ensures var st1 := StakeOp(H, coins, st, u, c, Stake, amount, note, ts).0;
      StakeOp(H, coins, st1, u, c, Unstake, amount, note, ts) == (st, Ok(NowStaked(GetBalance(st.balances, u, c).staked)))
  {
    var st1 := StakeOp(H, coins, st, u, c, Stake, amount, note, ts).0;
    assert (u, c) in st.balances;
    assert st1.balances[(u, c) := st.balances[(u, c)]] == st.balances;
  }

  /** Staking again what was just unstaked restores the tables exactly. */
  lemma StakeUndoesUnstake(H: string -> string, coins: seq<Coin>, st: State, u: UserId, c: CoinId,
                           amount: int, note: string, ts: string)
    requires BurnRatesOk(coins) && BalancesOk(st.balances)
    requires StakeOp(H, coins, st, u, c, Unstake, amount, note, ts).1.Ok?
    ensures var st1 := StakeOp(H, coins, st, u, c, Unstake, amount, note, ts).0;
      StakeOp(H, coins, st1, u, c, Stake, amount, note, ts) == (st, Ok(NowStaked(GetBalance(st.balances, u, c).staked)))
  {
    var st1 := StakeOp(H, coins, st, u, c, Unstake, amount, note, ts).0;
    assert (u, c) in st.balances;
    assert st1.balances[(u, c) := st.balances[(u, c)]] == st.balances;
  }

  /**
    A successful claim credits the rounded 2% of the stake, a positive
    amount, to the free bucket through one system-sent stake_reward trade;
    the stake itself stays.
   */
  lemma ClaimPaysReward(H: string -> string, coins: seq<Coin>, st: State, u: UserId, c: CoinId,
                        amount: int, note: string, ts: string)
    requires BurnRatesOk(coins)
    requires StakeOp(H, coins, st, u, c, Claim, amount, note, ts).1.Ok?
    ensures var out := StakeOp(H, coins, st, u, c, Claim, amount, note, ts);
      var before, after := GetBalance(st.balances, u, c), GetBalance(out.0.balances, u, c);
      var reward := StakingReward(before.staked);
      && before.staked > 0 && reward > 0
      && out.1.value == Rewarded(reward)
      && after == Balance(before.amount + reward, before.staked)
      && out.0.trades == st.trades + [Trade(System, u, c, reward, 0, StakeReward, note, ts)]
  {
    var reward := StakingReward(GetBalance(st.balances, u, c).staked);
    TransferReceipt(H, coins, st, System, u, c, reward, StakeReward, note, ts);
    TransferBalances(H, coins, st, System, u, c, reward, StakeReward, note, ts, u, c);
    TransferRecords(H, coins, st, System, u, c, reward, StakeReward, note, ts, c);
  }

  /**
    A stake of 0.0025 or less earns a reward that rounds to zero, and the
    claim fails: the zero-amount reward trade is refused by the database
    unless the anti-whale cap refuses it first.
   */
  lemma ClaimOnTinyStakeFails(H: string -> string, coins: seq<Coin>, st: State, u: UserId, c: CoinId,
                              amount: int, note: string, ts: string)
    requires BurnRatesOk(coins) && c <= |coins| && coins[c - 1].stakingEnabled
    requires 0 < GetBalance(st.balances, u, c).staked <= 25
    ensures StakeOp(H, coins, st, u, c, Claim, amount, note, ts).1 == Err(RewardFailed(StorageRejected))
         || StakeOp(H, coins, st, u, c, Claim, amount, note, ts).1 == Err(RewardFailed(AntiWhaleLimit))
    ensures StakeOp(H, coins, st, u, c, Claim, amount, note, ts).0 == st
  {
    TinyStakeEarnsNothing(GetBalance(st.balances, u, c).staked);
  }

  /** Every staking request keeps the engine's invariant. */
  lemma StakeKeepsInv(H: string -> string, coins: seq<Coin>, st: State, u: UserId, c: CoinId, action: StakeAction,
                      amount: int, note: string, ts: string)
    requires BurnRatesOk(coins) && Inv(H, st)
    ensures Inv(H, StakeOp(H, coins, st, u, c, action, amount, note, ts).0)
  {
    if c <= |coins| && action == Claim {
      var reward := StakingReward(GetBalance(st.balances, u, c).staked);
      TransferKeepsInv(H, coins, st, System, u, c, reward, StakeReward, note, ts);
    }
  }

  datatype AirdropError =
    | NotCreator        // no such coin, or the caller did not create it
    | NoAirdropAmount   // the coin's airdrop_amount is zero or less
    | NoHolders         // nobody but the creator holds the coin

  /** What the airdrop endpoint reports: how many holders were paid and the total paid out. */
  datatype AirdropReport = AirdropReport(recipients: nat, totalDropped: int)

  /** The holders query: users other than the creator holding a positive amount of the coin. */
  predicate IsHolder(b: Balances, c: CoinId, creator: UserId, v: UserId) {
    v != creator && GetBalance(b, v, c).amount > 0
  }

  /** `holders` is that query's result: every holder exactly once, in the order SQLite returns them. */
  ghost predicate ListsHolders(b: Balances, c: CoinId, creator: UserId, holders: seq<UserId>) {
    && (forall i, j :: 0 <= i < j < |holders| ==> holders[i] != holders[j])
    && (forall i :: 0 <= i < |holders| ==> IsHolder(b, c, creator, holders[i]))
    && (forall v: UserId :: IsHolder(b, c, creator, v) ==> v in holders)
  }

  /** The airdrop loop: one system transfer of kind airdrop per holder, counting those that succeed. */
  function DropAll(H: string -> string, coins: seq<Coin>, st: State, c: CoinId, holders: seq<UserId>,
                   amount: int, note: string, ts: string): (State, nat)
    requires BurnRatesOk(coins)
    decreases |holders|
  {
    if |holders| == 0 then (st, 0)
    else
      var prev := DropAll(H, coins, st, c, holders[..|holders| - 1], amount, note, ts);
      var out := TransferOp(H, coins, prev.0, System, holders[|holders| - 1], c, amount, Airdrop, note, ts);
      (out.0, prev.1 + if out.1.Ok? then 1 else 0)
  }

  /** One more turn of the airdrop loop: the next listed user is sent the amount. */
  lemma DropAllStep(H: string -> string, coins: seq<Coin>, st: State, c: CoinId, holders: seq<UserId>, i: nat,
                    amount: int, note: string, ts: string, prev: (State, nat), out: (State, Result<Receipt, TransferError>))
    requires BurnRatesOk(coins) && i < |holders|
    requires prev == DropAll(H, coins, st, c, holders[..i], amount, note, ts)
    requires out == TransferOp(H, coins, prev.0, System, holders[i], c, amount, Airdrop, note, ts)
    ensures DropAll(H, coins, st, c, holders[..i + 1], amount, note, ts) == (out.0, prev.1 + if out.1.Ok? then 1 else 0)
  {
    assert holders[..i + 1][..i] == holders[..i];
  }

  /**
    The transition of the airdrop endpoint for the authenticated user u and
    coin c: only the creator may drop, the coin must have a positive
    airdrop_amount and at least one other holder; then every holder is sent
    that amount by the system, a holder the anti-whale cap refuses being
    skipped.
   */
  function AirdropOp(H: string -> string, coins: seq<Coin>, st: State, u: UserId, c: CoinId, holders: seq<UserId>,
                     note: string, ts: string): (r: (State, Result<AirdropReport, AirdropError>))
    requires BurnRatesOk(coins)
    ensures r.1.Err? ==> r.0 == st
  {
    match CoinAt(coins, c)
    case None => (st, Err(NotCreator))
    case Some(coin) =>
      if coin.creator != Some(u) then (st, Err(NotCreator))
      else if coin.airdropAmount <= 0 then (st, Err(NoAirdropAmount))
      else if |holders| == 0 then (st, Err(NoHolders))
      else
        var out := DropAll(H, coins, st, c, holders, coin.airdropAmount, note, ts);
        (out.0, Ok(AirdropReport(out.1, out.1 * coin.airdropAmount)))
  }

  /** Holder v's own row leaves room under the cap for `amount` more. */
  predicate Fits(coin: Coin, b: Balances, c: CoinId, v: UserId, amount: int) {
    !CapExceeded(coin, GetBalance(b, v, c).amount, amount)
  }

  /** The listed users an airdrop of `amount` pays. */
  function Recipients(coin: Coin, b: Balances, c: CoinId, holders: seq<UserId>, amount: int): set<UserId> {
    set v | v in holders && Fits(coin, b, c, v, amount)
  }

  /** Holder v's row for coin d after an airdrop of `amount` to the listed users, computed from the rows before it. */
  function Credited(coin: Coin, b: Balances, c: CoinId, holders: seq<UserId>, amount: int, v: UserId, d: CoinId): Balance {
    var old_ := GetBalance(b, v, d);
    if d == c && v in holders && Fits(coin, b, c, v, amount) then old_.(amount := old_.amount + amount) else old_
  }

  /** A system airdrop transfer goes through exactly when the recipient's row leaves room under the cap. */
  lemma AirdropTransferOk(H: string -> string, coins: seq<Coin>, s: State, h: UserId, c: CoinId,
                          amount: int, note: string, ts: string)
    requires BurnRatesOk(coins) && c <= |coins| && amount > 0
    ensures TransferOp(H, coins, s, System, h, c, amount, Airdrop, note, ts).1.Ok? <==> Fits(coins[c - 1], s.balances, c, h, amount)
  {
    NoBurnOutsideTransfers(amount, coins[c - 1], Airdrop);
    TransferVerdict(H, coins, s, System, h, c, amount, Airdrop, note, ts);
  }

  /** One airdrop transfer: the recipient gains `amount` of the coin when its row leaves room, and nothing else moves. */
  lemma DropOne(H: string -> string, coins: seq<Coin>, s: State, h: UserId, c: CoinId,
                amount: int, note: string, ts: string, v: UserId, d: CoinId)
    requires BurnRatesOk(coins) && c <= |coins| && amount > 0
    ensures var old_ := GetBalance(s.balances, v, d);
      GetBalance(TransferOp(H, coins, s, System, h, c, amount, Airdrop, note, ts).0.balances, v, d)
      == if v == h && d == c && Fits(coins[c - 1], s.balances, c, h, amount) then old_.(amount := old_.amount + amount) else old_
  {
    AirdropTransferOk(H, coins, s, h, c, amount, note, ts);
    if TransferOp(H, coins, s, System, h, c, amount, Airdrop, note, ts).1.Ok? {
      NoBurnOutsideTransfers(amount, coins[c - 1], Airdrop);
      TransferBalances(H, coins, s, System, h, c, amount, Airdrop, note, ts, v, d);
    }
  }

  /**
    The loop's effect on the balances: every listed user whose own row leaves
    room under the cap gains `amount` of the coin, and nothing else moves.
   */
  lemma {:induction false} DropAllBalances(H: string -> string, coins: seq<Coin>, st: State, c: CoinId, holders: seq<UserId>,
                                           amount: int, note: string, ts: string)
    requires BurnRatesOk(coins) && c <= |coins| && amount > 0
    requires forall i, j :: 0 <= i < j < |holders| ==> holders[i] != holders[j]
    ensures forall v, d :: GetBalance(DropAll(H, coins, st, c, holders, amount, note, ts).0.balances, v, d)
                           == Credited(coins[c - 1], st.balances, c, holders, amount, v, d)
    decreases |holders|
  {
    if |holders| > 0 {
      var n := |holders| - 1;
      var front, h := holders[..n], holders[n];
      var coin := coins[c - 1];
      assert holders == front + [h];
      DropAllBalances(H, coins, st, c, front, amount, note, ts);
      var prev := DropAll(H, coins, st, c, front, amount, note, ts);
      assert h !in front;
      assert GetBalance(prev.0.balances, h, c) == GetBalance(st.balances, h, c) by {
        assert GetBalance(prev.0.balances, h, c) == Credited(coin, st.balances, c, front, amount, h, c);
      }
      forall v, d ensures GetBalance(DropAll(H, coins, st, c, holders, amount, note, ts).0.balances, v, d)
                          == Credited(coin, st.balances, c, holders, amount, v, d) {
        assert GetBalance(prev.0.balances, v, d) == Credited(coin, st.balances, c, front, amount, v, d);
        DropOne(H, coins, prev.0, h, c, amount, note, ts, v, d);
      }
    }
  }

  /** The loop's count is the number of listed users the cap lets through. */
  lemma {:induction false} DropAllCount(H: string -> string, coins: seq<Coin>, st: State, c: CoinId, holders: seq<UserId>,
                                        amount: int, note: string, ts: string)
    requires BurnRatesOk(coins) && c <= |coins| && amount > 0
    requires forall i, j :: 0 <= i < j < |holders| ==> holders[i] != holders[j]
    ensures DropAll(H, coins, st, c, holders, amount, note, ts).1 == |Recipients(coins[c - 1], st.balances, c, holders, amount)|
    decreases |holders|
  {
    if |holders| > 0 {
      var n := |holders| - 1;
      var front, h := holders[..n], holders[n];
      var coin := coins[c - 1];
      DropAllCount(H, coins, st, c, front, amount, note, ts);
      DropAllBalances(H, coins, st, c, front, amount, note, ts);
      var prev := DropAll(H, coins, st, c, front, amount, note, ts);
      assert h !in front;
      assert GetBalance(prev.0.balances, h, c) == GetBalance(st.balances, h, c) by {
        assert GetBalance(prev.0.balances, h, c) == Credited(coin, st.balances, c, front, amount, h, c);
      }
      AirdropTransferOk(H, coins, prev.0, h, c, amount, note, ts);
      var before := Recipients(coin, st.balances, c, front, amount);
      var after := Recipients(coin, st.balances, c, holders, amount);
      if Fits(coin, st.balances, c, h, amount) {
        assert after == before + {h};
        assert h !in before;
      } else {
        assert after == before;
      }
    }
  }

  /**
    The loop's trades: one system airdrop trade of the coin and amount is
    appended per user paid, the earlier trades untouched.
   */
  lemma {:induction false} DropAllTrades(H: string -> string, coins: seq<Coin>, st: State, c: CoinId, holders: seq<UserId>,
                                         amount: int, note: string, ts: string)
    requires BurnRatesOk(coins)
    ensures var out := DropAll(H, coins, st, c, holders, amount, note, ts);
      && |out.0.trades| == |st.trades| + out.1
      && out.0.trades[..|st.trades|] == st.trades
      && forall i :: |st.trades| <= i < |out.0.trades| ==>
           out.0.trades[i].from == System && out.0.trades[i].kind == Airdrop
           && out.0.trades[i].coin == c && out.0.trades[i].amount == amount
    decreases |holders|
  {
    if |holders| > 0 {
      var n := |holders| - 1;
      DropAllTrades(H, coins, st, c, holders[..n], amount, note, ts);
      var prev := DropAll(H, coins, st, c, holders[..n], amount, note, ts);
      var out := TransferOp(H, coins, prev.0, System, holders[n], c, amount, Airdrop, note, ts);
      if out.1.Ok? {
        TransferRecords(H, coins, prev.0, System, holders[n], c, amount, Airdrop, note, ts, c);
        assert out.0.trades[..|st.trades|] == prev.0.trades[..|st.trades|];
      }
    }
  }

  /**
    A successful airdrop pays exactly the holders the cap lets through,
    each the coin's airdrop_amount, reports their number, and appends one
    airdrop trade per recipient; no other row changes.
   */
  lemma AirdropPays(H: string -> string, coins: seq<Coin>, st: State, u: UserId, c: CoinId, holders: seq<UserId>,
                    note: string, ts: string, v: UserId, d: CoinId)
    requires BurnRatesOk(coins) && ListsHolders(st.balances, c, u, holders)
    requires AirdropOp(H, coins, st, u, c, holders, note, ts).1.Ok?
    ensures var out := AirdropOp(H, coins, st, u, c, holders, note, ts);
      var coin := coins[c - 1];
      var paid := d == c && IsHolder(st.balances, c, u, v) && Fits(coin, st.balances, c, v, coin.airdropAmount);
      && coin.creator == Some(u) && coin.airdropAmount > 0
      && GetBalance(out.0.balances, v, d) ==
           (if paid then GetBalance(st.balances, v, d).(amount := GetBalance(st.balances, v, d).amount + coin.airdropAmount)
            else GetBalance(st.balances, v, d))
      && out.1.value.recipients == |Recipients(coin, st.balances, c, holders, coin.airdropAmount)|
      && out.1.value.totalDropped == out.1.value.recipients * coin.airdropAmount
      && |out.0.trades| == |st.trades| + out.1.value.recipients
  {
    var coin := coins[c - 1];
    DropAllBalances(H, coins, st, c, holders, coin.airdropAmount, note, ts);
    DropAllCount(H, coins, st, c, holders, coin.airdropAmount, note, ts);
    DropAllTrades(H, coins, st, c, holders, coin.airdropAmount, note, ts);
    if d == c && v in holders {
      var i :| 0 <= i < |holders| && holders[i] == v;
      assert IsHolder(st.balances, c, u, holders[i]);
    }
  }

  /** The order in which SQLite lists the holders changes no balance and not the count. */
  lemma AirdropOrderFree(H: string -> string, coins: seq<Coin>, st: State, u: UserId, c: CoinId,
                         holders1: seq<UserId>, holders2: seq<UserId>, note: string, ts: string, v: UserId, d: CoinId)
    requires BurnRatesOk(coins)
    requires ListsHolders(st.balances, c, u, holders1) && ListsHolders(st.balances, c, u, holders2)
    requires AirdropOp(H, coins, st, u, c, holders1, note, ts).1.Ok?
    ensures AirdropOp(H, coins, st, u, c, holders2, note, ts).1 == AirdropOp(H, coins, st, u, c, holders1, note, ts).1
    ensures GetBalance(AirdropOp(H, coins, st, u, c, holders2, note, ts).0.balances, v, d)
         == GetBalance(AirdropOp(H, coins, st, u, c, holders1, note, ts).0.balances, v, d)
  {
    var coin := coins[c - 1];
    var amt := coin.airdropAmount;
    assert holders2 != [] by {
      var w := holders1[0];
      assert IsHolder(st.balances, c, u, w);
      assert w in holders2;
    }
    AirdropPays(H, coins, st, u, c, holders1, note, ts, v, d);
    AirdropPays(H, coins, st, u, c, holders2, note, ts, v, d);
    forall w ensures w in holders1 <==> w in holders2 {
      if w in holders1 {
        var i :| 0 <= i < |holders1| && holders1[i] == w;
        assert IsHolder(st.balances, c, u, holders1[i]);
      }
      if w in holders2 {
        var i :| 0 <= i < |holders2| && holders2[i] == w;
        assert IsHolder(st.balances, c, u, holders2[i]);
      }
    }
    assert Recipients(coin, st.balances, c, holders1, amt) == Recipients(coin, st.balances, c, holders2, amt);
  }

  lemma {:induction false} DropAllKeepsInv(H: string -> string, coins: seq<Coin>, st: State, c: CoinId, holders: seq<UserId>,
                                           amount: int, note: string, ts: string)
    requires BurnRatesOk(coins) && Inv(H, st)
    ensures Inv(H, DropAll(H, coins, st, c, holders, amount, note, ts).0)
    decreases |holders|
  {
    if |holders| > 0 {
      var n := |holders| - 1;
      DropAllKeepsInv(H, coins, st, c, holders[..n], amount, note, ts);
      var prev := DropAll(H, coins, st, c, holders[..n], amount, note, ts);
      TransferKeepsInv(H, coins, prev.0, System, holders[n], c, amount, Airdrop, note, ts);
    }
  }

  /** Every airdrop request keeps the engine's invariant. */
  lemma AirdropKeepsInv(H: string -> string, coins: seq<Coin>, st: State, u: UserId, c: CoinId, holders: seq<UserId>,
                        note: string, ts: string)
    requires BurnRatesOk(coins) && Inv(H, st)
    ensures Inv(H, AirdropOp(H, coins, st, u, c, holders, note, ts).0)
  {
    if c <= |coins| {
      DropAllKeepsInv(H, coins, st, c, holders, coins[c - 1].airdropAmount, note, ts);
    }
  }
}
