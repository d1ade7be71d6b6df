/**
  The rows of the exchange's tables, as values: users and coins are referred
  to by their integer keys, trades and blocks are records, and a balance is
  the (amount, staked) pair stored per (user, coin).

  Amounts are fixed-point integers counting ten-thousandths of a coin. The
  balance writes round to four decimal places; a trade amount is taken to
  lie on that grid already (a coin's airdrop_amount is stored as given).
 */
module Types {
  import opened Wrappers

  /** A row key: SQLite's AUTOINCREMENT hands out 1, 2, 3, ... and never reuses one. */
  type Id = n: int | n >= 1 witness 1

  type UserId = Id
  type CoinId = Id

  /** The sender of a trade: a user, or the system (a NULL `from_user_id`). */
  datatype Issuer = System | Account(user: UserId)

  /** The `trade_type` column. */
  datatype TradeKind = Transfer | Airdrop | StakeReward | Welcome

  /** The text stored in the `trade_type` column for each kind. */
  function KindText(k: TradeKind): (s: string)
    ensures |s| > 0 && 'a' <= s[0] <= 'z'
  {
    match k
    case Transfer => "transfer"
    case Airdrop => "airdrop"
    case StakeReward => "stake_reward"
    case Welcome => "welcome"
  }

  /** A row of `trades`; its trade_id is its position in the table plus one. */
  datatype Trade = Trade(
    from: Issuer,
    to: UserId,
    coin: CoinId,
    amount: int,
    burned: int,
    kind: TradeKind,
    note: string,
    executedAt: string)

  /**
    A row of `ledger_blocks`; its block_id is its position in the table plus one.
    The JSON `block_data` column is not part of the model.
   */
  datatype Block = Block(coin: CoinId, tradeId: Id, prevHash: string, thisHash: string)

  /** A row of `balances`. */
  datatype Balance = Balance(amount: int, staked: int)

  /**
    A row of `coins`. The burn rate is the fraction burnNum / burnDen;
    `maxHolding` is the anti-whale cap (NULL is None).
   */
  datatype Coin = Coin(
    symbol: string,
    creator: Option<UserId>,
    burnNum: nat,
    burnDen: nat,
    airdropAmount: int,
    maxHolding: Option<int>,
    stakingEnabled: bool)

  /** Symbol of the reserve coin every price is quoted in. */
  const ReserveSymbol: string := "CLASSUSD"

  /** The table's CHECK: 0 <= burn_rate <= 0.5. */
  predicate CoinOk(coin: Coin) {
    coin.burnDen > 0 && 2 * coin.burnNum <= coin.burnDen
  }

  /** Every coin's burn rate within its CHECK. */
  predicate BurnRatesOk(coins: seq<Coin>) {
    forall i :: 0 <= i < |coins| ==> CoinOk(coins[i])
  }

  /**
    The coin registry as the engine finds it: every burn rate within its
    CHECK, symbols UNIQUE, and the reserve coin seeded.
   */
  predicate RegistryOk(coins: seq<Coin>) {
    && BurnRatesOk(coins)
    && (forall i, j :: 0 <= i < j < |coins| ==> coins[i].symbol != coins[j].symbol)
    && (exists i :: 0 <= i < |coins| && coins[i].symbol == ReserveSymbol)
  }

  /** The coin whose coin_id is `id`, if any. */
  function CoinAt(coins: seq<Coin>, id: CoinId): (r: Option<Coin>)
    ensures r.Some? <==> id <= |coins|
    ensures r.Some? ==> r.value == coins[id - 1]
  {
    if id <= |coins| then Some(coins[id - 1]) else None
  }
}
