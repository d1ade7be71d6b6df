# Classroom exchange: ledger integrity engine

A model of the classroom crypto exchange's core: the server's balance,
transfer, staking and airdrop operations, which write the per-coin hash chain
of `ledger_blocks`; the students' chain verifier, which replays that chain;
the implied-price estimator, which matches coin transfers with CLASSUSD
transfers; and the portfolio valuation.

- `wrappers.dfy` (Wrappers): Option and Result.
- `text.dfy` (Text): how Python's `str` renders the fields of the hash preimage: integer ids, float amounts, the `None` sender. The lemmas show these renderings are injective and never contain `|`.
- `types.dfy` (Types): the table rows as values: coins, balances, trades and blocks.
- `policy.dfy` (Policy): `round(x, 4)` as round-half-even on exact amounts, the burn, the anti-whale cap and the staking reward.
- `chain.dfy` (Chain):
  - `compute_block_hash` / `compute_hash`;
  - `verify_chain` as a recursive function;
  - the `/api/chain` handler's loop as a method proved equal to it;
  - the round-trip and tamper-detection lemmas.
- `store.dfy` (Store):
  - the three mutable tables as one value;
  - `get_balance`, `set_balance` and `get_prev_hash`;
  - the verifier's JOIN of blocks with trades;
  - the engine's invariant: every coin's chain verifies.
- `engine.dfy` (Engine): `do_transfer`, the staking actions and the airdrop as transitions on the tables, with their lemmas.
- `ledger.dfy` (LedgerImpl): a class `Ledger` holding the tables as fields. Its methods write them step by step in the server's order, and each is proved to end in the state Engine describes while keeping the invariant.
- `matching.dfy` (Matching): the candidate query of `get_implied_prices` and its ORDER BY, the greedy one-to-one choice of pairs, and the per-coin tallies.
- `prices.dfy` (Prices):
  - `get_implied_prices` and `compute_portfolio_value` as methods, proved against specification functions;
  - the lemmas about what the price list and the portfolio mean;
  - the upper-case filter finding.

Numbers are modelled as follows:
- Amounts are integers counting ten-thousandths of a coin. `set_balance` rounds every balance to four places; a trade amount is taken to lie on that grid already.
- Prices and portfolio values are exact reals.
- SHA-256 is the parameter `H: string -> string`. Two lemmas assume it is injective: `Chain.TamperedTradeDetected` and `Store.TamperedTradeInStore`.

## Model

| member | source | states |
|---|---|---|
| Text.NatToString | server.py:189 | `str` of an id is a non-empty run of decimal digits |
| Text.NatToStringInjective | server.py:189 | two ids with the same text are the same id |
| Text.StripZeros | server.py:189 | dropping trailing zeros keeps a prefix and removes only '0's, the last kept character not being '0' |
| Text.StripZerosRestores | server.py:189 | two fractional digit strings of the same length that strip to the same text are equal |
| Text.FracTextInjective | server.py:189 | the printed fractional part determines the four decimals |
| Text.SplitAt | server.py:189 | a text joined at a separator absent from its head splits back uniquely |
| Text.UnsignedAmountTextInjective | server.py:189 | `str` of a non-negative amount determines the amount |
| Text.AmountTextHead | server.py:189 | a rendered amount starts with '-' exactly when it is negative |
| Text.AmountTextInjective | server.py:189 | `str` of an amount determines the amount |
| Text.AmountTextFree | server.py:189 | a rendered amount holds no character but digits, '.' and '-', in particular no pipe separator |
| Types.KindText | server.py:97-98 | every stored trade_type starts with a lower-case letter |
| Policy.RoundHalfEven | server.py:388-389 | the rounded value is within half a unit of the exact one, ties going to the even neighbour |
| Policy.RoundHalfEvenWithin | server.py:388-389 | rounding a value between 0 and half of m stays within 0..m |
| Policy.BurnedWithinAmount | server.py:68-69 | with the burn_rate CHECK, the burn is between 0 and the amount |
| Policy.NoBurnOutsideTransfers | server.py:388 | airdrops, rewards and welcome grants burn nothing; the recipient gets the whole amount |
| Policy.TinyStakeEarnsNothing | server.py:699 | a stake of 0.0025 or less earns a reward that rounds to 0 |
| Policy.StakingRewardBounds | server.py:699 | the reward is between 0 and the stake |
| Chain.IssuerText | server.py:189 | a sender renders without the pipe separator |
| Chain.IssuerTextHead | server.py:189 | only the system sender renders as text starting with 'N' (`None`) |
| Chain.IssuerTextInjective | server.py:189 | the sender text determines the sender, `None` included |
| Chain.RenderFree | server.py:189 | every non-text preimage field renders without the pipe separator |
| Chain.RenderInjective | server.py:189 | fields of one kind with the same text are equal |
| Chain.JoinInjective | server.py:189 | pipe-joined field lists of one length with separator-free heads are equal field by field |
| Chain.PreimageInjective | student/verify_chain.py:31-40 | with the prev_hash fixed, the preimage determines trade id, sender, recipient, coin, amount and time |
| Chain.VerifyFromIntact | student/verify_chain.py:77-100 | the scan from block i reports valid exactly when every block from i on passes both checks |
| Chain.VerifyChain | student/verify_chain.py:47-100 | valid exactly when every block links to its predecessor (or the 64-zero sentinel) and carries the hash of its own fields; a valid chain reports its block count |
| Chain.VerifyFromSkips | student/verify_chain.py:77-98 | past passing blocks, the scan reports the first failing block, link check first |
| Chain.VerifyChainFirstFailure | student/verify_chain.py:81-98 | if blocks before k pass, a link break at k reports k as severed, and a good link with a bad hash at k reports k as tampered |
| Chain.VerdictNamesFirstFailure | student/verify_chain.py:81-98 | a reported bad block really fails the reported check and every block before it passes both checks |
| Chain.EmptyChainIntact | student/verify_chain.py:72-73 | an empty chain is valid with no blocks |
| Chain.ChainHandler | server.py:885-901 | the handler's loop reports is_valid and first_bad_block exactly as the verifier does |
| Chain.SoundAppend | server.py:362-376 | appending a block linked to the last hash and hashed over its own fields keeps a valid chain valid, one block longer |
| Chain.TamperedTradeDetected | student/verify_chain.py:89-98 | with H injective, changing any trade field of block k in a valid chain makes the verifier report exactly block k as tampered |
| Chain.RelinkedBlockDetected | student/verify_chain.py:81-87 | overwriting block k's prev_hash in a valid chain makes the verifier report exactly block k as a severed link |
| Store.GetAfterSet | server.py:337-353 | after `set_balance` the row holds the new amount and keeps its staked value unless one is given; no other row changes |
| Store.TipIsLatest | server.py:355-360 | the coin's tip is the sentinel when it has no block, otherwise the hash of its block with the highest block_id |
| Store.TipAfterAppend | server.py:355-376 | appending a block moves only that coin's tip, to the new hash |
| Store.ChainRowsExtendTrades | student/verify_chain.py:54-70 | inserting a trade leaves every coin's JOIN unchanged until its block is added |
| Store.TipIsLastRow | server.py:355-360 | `get_prev_hash` is the last hash the verifier reads for the coin |
| Store.StoredChainsVerify | student/verify_chain.py:47-100 | in any state meeting the invariant, every coin's chain verifies as valid with one block per row |
| Store.RecordKeepsChainsSound | server.py:412-420 | inserting a trade and its block keeps every valid chain valid and moves only the coin's tip |
| Store.RecordKeepsInv | server.py:412-420 | a recorded positive trade with non-negative balances keeps the invariant |
| Store.ChainRowsJoined | student/verify_chain.py:54-70 | each verifier row is a block of the coin joined with the trade its trade_id names |
| Store.ChainRowsIncreasing | student/verify_chain.py:68 | the verifier's rows come in increasing block_id order |
| Store.ChainRowsCover | student/verify_chain.py:54-70 | every block of the coin appears among the verifier's rows |
| Store.ChainRowsRetrade | student/verify_chain.py:54-70 | rewriting trade rows re-reads only the trade side of each row |
| Store.RetradeOneRow | student/verify_chain.py:54-70 | rewriting one trade changes only its block's row |
| Store.TamperedTradeInStore | student/verify_chain.py:89-98 | with H injective, rewriting a hashed field of trade i+1 in the stored tables makes the verifier report block i+1 tampered |
| Store.UnhashedFieldsUndetected | server.py:188-190 | rewriting trade columns outside the preimage (burned amount, type, note) leaves every chain valid |
| Engine.TransferOp | server.py:378-421 | a rejected transfer writes nothing; an accepted one appends exactly one trade, whose id it returns |
| Engine.TransferVerdict | server.py:384-404 | the outcome in the source's order: missing coin, then anti-whale cap, then the sender's balance (never checked for the system), then the amount CHECK; each error exactly when its test fires first |
| Engine.TransferReceipt | server.py:388-389 | the reported burn is between 0 and the amount, zero outside transfers, and received is amount minus burn |
| Engine.TransferBalances | server.py:400-410 | the sender loses the amount and the recipient gains its share (a self-transfer nets to minus the burn); staked values and other rows stay the same |
| Engine.TransferBurnsTheDifference | server.py:388-410 | between two users, the sender's loss minus the recipient's gain is exactly the burn; from the system, the recipient gains the whole share |
| Engine.TransferRecords | server.py:412-420 | a success appends its trade and one block linked to the coin's previous tip and hashed over the trade; only that coin's tip moves |
| Engine.TransferKeepsInv | server.py:378-421 | every transfer, accepted or not, keeps the CHECKs and every chain valid |
| Engine.StakeOp | server.py:652-706 | a refused staking request writes nothing |
| Engine.StakingDisabledRefuses | server.py:674-675 | a coin without staking refuses every action |
| Engine.StakeVerdict | server.py:681-695 | on a staking coin, stake and unstake refuse an amount of 0 or less first, then an amount above the free (stake) or staked (unstake) bucket; they succeed exactly when 0 < amount <= bucket, reporting the new stake |
| Engine.ClaimVerdict | server.py:697-704 | a claim with nothing staked is refused; otherwise it succeeds exactly when the system reward transfer does, and reports that transfer's error when it fails |
| Engine.StakeMovesBetweenBuckets | server.py:681-695 | stake and unstake move exactly the amount between the free and staked buckets, keep their sum, report the new stake and write no trade |
| Engine.UnstakeUndoesStake | server.py:681-695 | unstaking what was just staked restores the tables |
| Engine.StakeUndoesUnstake | server.py:681-695 | staking what was just unstaked restores the tables |
| Engine.ClaimPaysReward | server.py:697-704 | a successful claim credits the rounded 2% reward (positive) to the free bucket through one system stake_reward trade; the stake stays |
| Engine.ClaimOnTinyStakeFails | server.py:697-704 | a claim on a stake of 0.0025 or less fails without writing anything |
| Engine.StakeKeepsInv | server.py:652-706 | every staking request keeps the invariant |
| Engine.AirdropOp | server.py:608-649 | a refused airdrop writes nothing |
| Engine.AirdropTransferOk | server.py:391-398 | a system airdrop transfer succeeds exactly when the recipient's row leaves room under the cap |
| Engine.DropOne | server.py:639-645 | one airdrop transfer credits the recipient when it fits and moves nothing else |
| Engine.DropAllBalances | server.py:638-645 | the loop credits every listed user whose row leaves room, and nothing else |
| Engine.DropAllCount | server.py:638-645 | the count is the number of listed users the cap lets through |
| Engine.DropAllTrades | server.py:638-645 | one system airdrop trade of the coin and amount is appended per user paid; earlier trades stay |
| Engine.AirdropPays | server.py:608-649 | a successful airdrop is the creator's, pays exactly the non-creator holders that fit, reports their number and the total, and appends one trade each |
| Engine.AirdropOrderFree | server.py:630-645 | the order in which the holders query returns rows changes neither the report nor any balance |
| Engine.DropAllKeepsInv | server.py:638-645 | the airdrop loop keeps the invariant |
| Engine.AirdropKeepsInv | server.py:608-649 | every airdrop request keeps the invariant |
| LedgerImpl.Ledger.constructor | server.py:78-113 | a fresh database has empty tables and satisfies the invariant |
| LedgerImpl.Ledger.SetBalance | server.py:344-353 | the upsert as `set_balance` performs it; trades and blocks stay |
| LedgerImpl.Ledger.AddBlock | server.py:362-376 | appends the block linked to the coin's tip, returns its hash, moves only that coin's tip |
| LedgerImpl.Ledger.DoTransfer | server.py:378-421 | the checks and writes in the server's order give exactly the transition and answer of `Engine.TransferOp`, keeping the invariant |
| LedgerImpl.Ledger.Settle | server.py:400-420 | debit, credit on a fresh read, trade insert and block; an amount of 0 or less is refused with nothing kept |
| LedgerImpl.Ledger.ApplyStake | server.py:652-706 | the staking endpoint's writes equal `Engine.StakeOp`, keeping the invariant |
| LedgerImpl.Ledger.ApplyAirdrop | server.py:608-649 | the airdrop endpoint's writes equal `Engine.AirdropOp`, keeping the invariant |
| LedgerImpl.Ledger.SendAll | server.py:638-645 | the airdrop loop's writes and count equal `Engine.DropAll`, keeping the invariant |
| Matching.TextLessIrreflexive | server.py:260 | no text sorts before itself |
| Matching.TextLessTransitive | server.py:260 | text order is transitive |
| Matching.TextLessTotal | server.py:260 | any two different texts are ordered |
| Matching.PairsWithComplete | server.py:221-235 | every pair the WHERE clause admits is a candidate row |
| Matching.PairsWithSound | server.py:221-235 | every candidate row is the SELECT list of an admitted pair |
| Matching.PairsExact | server.py:208-235 | the candidate rows are exactly the admitted pairs |
| Matching.Insert | server.py:236 | insertion adds the row to the multiset |
| Matching.InsertSorted | server.py:236 | insertion keeps the ORDER BY |
| Matching.SortByKey | server.py:236 | the rows come out as a permutation, ordered by gap ascending, then coin trade id descending, then cash trade id descending |
| Matching.UsedTids | server.py:239-248 | the used sets hold exactly the trades of the chosen pairs |
| Matching.OneToOneAppend | server.py:245-248 | adding a non-conflicting pair keeps the choice one-to-one |
| Matching.GreedyOneToOne | server.py:242-248 | the loop's choice from any one-to-one start stays one-to-one |
| Matching.SelectOneToOne | server.py:239-248 | no coin trade and no cash trade is used twice |
| Matching.GreedyConcat | server.py:242-248 | walking rows a then b is walking a + b |
| Matching.GreedyKeeps | server.py:242-248 | a chosen pair is never dropped |
| Matching.SelectGreedy | server.py:242-248 | each row is chosen exactly when it reuses no trade of the pairs chosen before it, and later rows never change earlier choices |
| Matching.GreedyFrom | server.py:242-248 | the choice draws only from the start and the rows |
| Matching.SelectFromCandidates | server.py:242-248 | only candidate rows are chosen, each at most once |
| Matching.SelectNonEmpty | server.py:242-248 | the first row is always chosen |
| Matching.LaterIsTextLess | server.py:260-261 | `updated_at` moves exactly when the new time sorts after the stored one |
| Matching.OfCoin | server.py:250 | the pairs of a coin are the chosen pairs of that coin |
| Matching.TallyKeys | server.py:251-256 | a coin has an entry exactly when some chosen pair is of it |
| Matching.AddPairEntry | server.py:251-261 | one pair updates only its coin's entry |
| Matching.TallyCounts | server.py:259 | `matches` counts the coin's chosen pairs |
| Matching.TallySums | server.py:257-258 | `sum_coin` and `sum_cash` add up the coin's chosen pairs |
| Matching.TallyLatest | server.py:255-261 | `updated_at` is a time of one of the coin's chosen pairs, and no later one exists |
| Prices.FindSymbol | server.py:192-194 | the lookup finds a coin with the symbol, or reports there is none |
| Prices.ReserveIdFound | server.py:192-194 | with unique symbols and the reserve seeded, the reserve is found and only its row has its symbol |
| Prices.ResolveAll | server.py:272-306 | one resolved row per base row, in order |
| Prices.ChoosePairs | server.py:239-261 | the loop's tallies are the tally of the greedy choice |
| Prices.ResolveRows | server.py:272-306 | the loop over base rows builds the resolved list |
| Prices.ImpliedPrices | server.py:197-306 | the method, given the `trade_type` literal the candidate query filters on, returns the price list `PriceListWith` defines for that literal: with the server's `TRANSFER` no row is implied (`Prices.AsWrittenNeverImplies`), with the stored `transfer` rows are implied as `Prices.PriceRowMeans` states |
| Prices.ChosenPairFacts | server.py:221-235 | a chosen pair is of a listed, non-reserve coin and moved a positive amount of it |
| Prices.CandidatesNonEmpty | server.py:221-235 | an admitted pair makes the candidate query return rows |
| Prices.ReserveRowAtPar | server.py:276-285 | the reserve row, and only it, is marked reserve, priced 1.0 with no matches at the current time |
| Prices.PriceRowMeans | server.py:287-305 | a row is implied exactly when some chosen pair is of its coin; its price is cash over coin across those pairs, with their count and latest time; otherwise the stored price or 0 |
| Prices.UppercaseFilterAdmitsNothing | server.py:224-225 | as written, no pair passes the WHERE clause |
| Prices.UppercaseFilterMatchesNothing | server.py:224-225 | as written, the candidate query returns no rows |
| Prices.AsWrittenNeverImplies | server.py:224-305 | as written, no row is ever implied |
| Prices.TransferPairImpliesPrice | server.py:197-306 | with the stored type in the filter, any admitted pair makes some coin implied |
| Prices.PortfolioValue | server.py:309-334 | the method returns the cash (amount plus staked) and the total worth that `Portfolio` defines |
| Prices.RowValueNonNegative | server.py:325-333 | a row with non-negative buckets at a non-negative price is worth at least 0 |
| Prices.TotalNonNegative | server.py:325-333 | a total of non-negative worths is at least 0 |
| Prices.TotalRemove | server.py:325-333 | the total is one row's worth plus the total of the rest |
| Prices.TotalOrderFree | server.py:317-333 | the total does not depend on row order |
| Prices.NoDuplicatesCount | server.py:85 | a user's rows list each coin once |
| Prices.PortfolioOrderFree | server.py:317-334 | any order of the holdings query gives the same portfolio |
| Prices.ValuationNonNegative | server.py:325-333 | every row is worth at least 0 |
| Prices.TotalAtLeastRow | server.py:325-333 | the total is at least any one row's worth |
| Prices.ReserveWithinTotal | server.py:312-333 | the total is at least the cash, counted at par |
| Prices.CashNonNegative | server.py:312-315 | with the reserve present, the cash figure is at least 0 |
| Prices.CashWithinWorth | server.py:309-334 | the portfolio is worth at least its cash |

## Left out

- The HTTP layer: routes, request parsing, credentials checks, JSON responses and error texts. The transitions start after authentication, and errors are datatype values.
- Users, registration, the welcome grant, coin creation, leaderboards and the teacher's price-setting routes. The coin registry is a fixed parameter.
- The `name`, `total_supply`, `description`, `created_at`, `block_data` and `last_staked` columns. None of them is read by the core's checks or hashed.
- Floating point:
  - Amounts are exact ten-thousandths. Python's `round(x, 4)` is round-half-even on the exact value, and float representation error is not modelled.
  - `str` of an amount is assumed to print at most fifteen significant digits without exponent notation. Larger amounts would print in scientific form, which the model does not cover.
  - Prices and portfolio values are exact reals.
- Time:
  - `now_iso` is the parameter `ts` (or `now`).
  - `strftime('%s', ·)` is the parameter `Query.seconds`.
- SHA-256 is the parameter `H`. The detection lemmas assume it is injective.
- The SQLite transaction: a write that raises (the trades `amount > 0` CHECK) discards the request's earlier writes. The model returns `StorageRejected` with the tables unchanged, where the server answers with an internal error.
- Prices.ImpliedPrices: the base query's `ORDER BY c.symbol` is the `BaseRows` requirement on the `base` parameter rather than a sort inside the model.
- Prices.PortfolioValue: the holdings query's order is the `held` parameter; `Prices.PortfolioOrderFree` shows the result does not depend on it.
- Prices.ImpliedPrices and Prices.PortfolioValue: a missing CLASSUSD row returns None, where the server fails with a lookup error.
- Prices.PortfolioValue: the cash figure is in ten-thousandths, not a float. A balance row of a coin missing from the registry is never returned by the holdings JOIN.
- Engine.AirdropOp: the holders query's result is the `holders` parameter. `Engine.ListsHolders` says what it must contain, and `Engine.AirdropOrderFree` shows its order does not matter.
- Engine.AirdropOp: a coin's `airdrop_amount` is taken to be a whole number of ten-thousandths. `create_coin` stores it unrounded, and an amount off that grid (say 0.00005, which Python prints as `5e-05`) is not modelled.
- Engine.DropAll: every transfer of one airdrop carries the same timestamp `ts`, where the server reads the clock inside each `do_transfer`; the model does not capture trades and block preimages of one airdrop whose times differ.
- Concurrency between requests: each transition runs on its own.

## Findings

| source | as written | input that shows it | evidently intended | confidence | as-written member | corrected member |
|---|---|---|---|---|---|---|
| server.py:224-225 | the candidate query keeps trades whose `trade_type = 'TRANSFER'`, but `do_transfer` stores `'transfer'` (server.py:97-98, 378-379), and SQLite's `=` on text is case-sensitive | users A and B; A sends B 10 of coin X, and B sends A 5 CLASSUSD within 60 seconds; the candidate query returns no rows, so X keeps its fallback price | match on the stored `'transfer'` type, so the pair gives X the implied price 0.5 | not executed | Prices.AsWrittenNeverImplies | Prices.TransferPairImpliesPrice |
