/**
  The per-coin hash chain and its verifier.

  A block's hash is H applied to the pipe-joined preimage
  prev_hash|trade_id|from_user_id|to_user_id|coin_id|amount|executed_at.
  H is SHA-256 in the system; here it is a parameter about which nothing is
  assumed, except where a lemma asks for it to be injective.

  The verifier replays one coin's blocks in block_id order, each joined with
  the fields of its trade, and stops at the first block whose prev_hash does
  not link to its predecessor (a link break) or whose stored hash does not
  match the hash recomputed from its own fields (tampering).
 */
module Chain {
  import opened Wrappers
  import opened Types
  import opened Text

  /** prev_hash of a coin's first block: sixty-four '0' characters. */
  const Genesis: string := "0000000000000000000000000000000000000000000000000000000000000000"

  /** A sender as it appears in the preimage: its id, or the literal `None`. */
  function IssuerText(from: Issuer): (s: string)
    ensures Free(s, '|')
  {
    match from
    case System => NoneText
    case Account(u) => (DigitsFree(NatToString(u), '|'); NatToString(u))
  }

  /** One value of the preimage, before Python's `str` renders it. */
  datatype Field = Str(s: string) | Num(n: nat) | Sender(from: Issuer) | Units(units: int)

  /** `str` of a field. */
  function Render(f: Field): string {
    match f
    case Str(s) => s
    case Num(n) => NatToString(n)
    case Sender(from) => IssuerText(from)
    case Units(units) => AmountText(units)
  }

  /** `'|'.join(str(f) for f in fields)`. */
  function Join(fields: seq<Field>): string
    requires |fields| > 0
  {
    if |fields| == 1 then Render(fields[0]) else Render(fields[0]) + "|" + Join(fields[1..])
  }

  /** The seven preimage fields, in hashing order. */
  function Fields(prevHash: string, tradeId: Id, from: Issuer, to: Id, coin: Id, amount: int, executedAt: string): seq<Field>
  {
    [Str(prevHash), Num(tradeId), Sender(from), Num(to), Num(coin), Units(amount), Str(executedAt)]
  }

  /** The text that is hashed for a block: the seven fields joined by '|'. */
  function Preimage(prevHash: string, tradeId: Id, from: Issuer, to: Id, coin: Id, amount: int, executedAt: string): string
  {
    Join(Fields(prevHash, tradeId, from, to, coin, amount, executedAt))
  }

  /** `compute_block_hash` on the server and `compute_hash` in the verifier. */
  function ComputeHash(H: string -> string, prevHash: string, tradeId: Id, from: Issuer, to: Id, coin: Id, amount: int, executedAt: string): string
  {
    H(Preimage(prevHash, tradeId, from, to, coin, amount, executedAt))
  }

  /**
    One row the verifier reads: a block joined with its trade. The trade
    fields (from, to, amount, executed_at) come from `trades`; the rest from
    `ledger_blocks`.
   */
  datatype ChainRow = ChainRow(
    blockId: Id,
    tradeId: Id,
    prevHash: string,
    thisHash: string,
    coin: Id,
    from: Issuer,
    to: Id,
    amount: int,
    executedAt: string)

  function RowHash(H: string -> string, row: ChainRow): string {
    ComputeHash(H, row.prevHash, row.tradeId, row.from, row.to, row.coin, row.amount, row.executedAt)
  }

  /** Check 1: block i's prev_hash is the sentinel (i = 0) or block i-1's stored hash. */
  predicate LinkOk(rows: seq<ChainRow>, i: nat)
    requires i < |rows|
  {
    rows[i].prevHash == if i == 0 then Genesis else rows[i - 1].thisHash
  }

  /** Check 2: block i's stored hash is the hash of its own fields. */
  predicate HashOk(H: string -> string, rows: seq<ChainRow>, i: nat)
    requires i < |rows|
  {
    rows[i].thisHash == RowHash(H, rows[i])
  }

  predicate BlockOk(H: string -> string, rows: seq<ChainRow>, i: nat)
    requires i < |rows|
  {
    LinkOk(rows, i) && HashOk(H, rows, i)
  }

  /** Every block before position k passes both checks. */
  predicate PassesBefore(H: string -> string, rows: seq<ChainRow>, k: nat)
    requires k <= |rows|
  {
    forall j :: 0 <= j < k ==> BlockOk(H, rows, j)
  }

  /** Every block passes both checks. */
  predicate Sound(H: string -> string, rows: seq<ChainRow>) {
    PassesBefore(H, rows, |rows|)
  }

  /**
    What `verify_chain` reports: valid (with the number of blocks; 0 is the
    "no blocks yet" message), or the block_id of the first bad block and why.
   */
  datatype Verdict = Intact(blocks: nat) | LinkBroken(blockId: Id) | Tampered(blockId: Id)

  /** The first bad block's id, None for a valid chain. */
  function FirstBadBlock(v: Verdict): Option<Id> {
    if v.Intact? then None else Some(v.blockId)
  }

  /** The scan from position i on: the first block that fails a check, link check first. */
  function VerifyFrom(H: string -> string, rows: seq<ChainRow>, i: nat): Verdict
    requires i <= |rows|
    decreases |rows| - i
  {
    if i == |rows| then Intact(|rows|)
    else if !LinkOk(rows, i) then LinkBroken(rows[i].blockId)
    else if !HashOk(H, rows, i) then Tampered(rows[i].blockId)
    else VerifyFrom(H, rows, i + 1)
  }

  /** The scan from i reports a valid chain exactly when every block from i on passes. */
  lemma {:induction false} VerifyFromIntact(H: string -> string, rows: seq<ChainRow>, i: nat)
    requires i <= |rows|
    ensures VerifyFrom(H, rows, i).Intact? <==> forall j :: i <= j < |rows| ==> BlockOk(H, rows, j)
    ensures VerifyFrom(H, rows, i).Intact? ==> VerifyFrom(H, rows, i).blocks == |rows|
    decreases |rows| - i
  {
    if i < |rows| {
      if BlockOk(H, rows, i) {
        VerifyFromIntact(H, rows, i + 1);
        assert VerifyFrom(H, rows, i) == VerifyFrom(H, rows, i + 1);
      } else {
        assert !VerifyFrom(H, rows, i).Intact?;
      }
    }
  }

  /**
    `verify_chain`: the chain is valid exactly when every block passes both
    checks, and then the verifier reports its number of blocks.
   */
  function VerifyChain(H: string -> string, rows: seq<ChainRow>): (v: Verdict)
    ensures v.Intact? <==> Sound(H, rows)
    ensures v.Intact? ==> v.blocks == |rows|
  {
    VerifyFromIntact(H, rows, 0);
    VerifyFrom(H, rows, 0)
  }

  /** When blocks i..k-1 pass, the scan from i reports what block k reports. */
  lemma {:induction false} VerifyFromSkips(H: string -> string, rows: seq<ChainRow>, i: nat, k: nat)
    requires i <= k < |rows|
    requires forall j :: i <= j < k ==> BlockOk(H, rows, j)
    ensures !LinkOk(rows, k) ==> VerifyFrom(H, rows, i) == LinkBroken(rows[k].blockId)
    ensures LinkOk(rows, k) && !HashOk(H, rows, k) ==> VerifyFrom(H, rows, i) == Tampered(rows[k].blockId)
    decreases k - i
  {
    if i < k {
      assert BlockOk(H, rows, i);
      VerifyFromSkips(H, rows, i + 1, k);
    }
  }

  /**
    The verdict is set by the first block that fails a check, the link
    check taking precedence over the hash check on the same block.
   */
  lemma VerifyChainFirstFailure(H: string -> string, rows: seq<ChainRow>, k: nat)
    requires k < |rows| && PassesBefore(H, rows, k)
    ensures !LinkOk(rows, k) ==> VerifyChain(H, rows) == LinkBroken(rows[k].blockId)
    ensures LinkOk(rows, k) && !HashOk(H, rows, k) ==> VerifyChain(H, rows) == Tampered(rows[k].blockId)
  {
    VerifyFromSkips(H, rows, 0, k);
  }

  /**
    A reported bad block is a real one: it fails the reported check and
    every block before it passes both.
   */
  lemma {:induction false} VerdictNamesFirstFailure(H: string -> string, rows: seq<ChainRow>, i: nat)
    requires i <= |rows| && PassesBefore(H, rows, i)
    ensures VerifyFrom(H, rows, i).LinkBroken? ==>
      exists k :: i <= k < |rows| && PassesBefore(H, rows, k) && !LinkOk(rows, k)
        && rows[k].blockId == VerifyFrom(H, rows, i).blockId
    ensures VerifyFrom(H, rows, i).Tampered? ==>
      exists k :: i <= k < |rows| && PassesBefore(H, rows, k) && LinkOk(rows, k) && !HashOk(H, rows, k)
        && rows[k].blockId == VerifyFrom(H, rows, i).blockId
    decreases |rows| - i
  {
    if i < |rows| {
      if BlockOk(H, rows, i) {
        assert PassesBefore(H, rows, i + 1);
        VerdictNamesFirstFailure(H, rows, i + 1);
      } else {
        // Block i itself is the witness.
        assert VerifyFrom(H, rows, i).blockId == rows[i].blockId;
      }
    }
  }

  /** The empty chain is valid ("No blocks yet"). */
  lemma EmptyChainIntact(H: string -> string)
    ensures VerifyChain(H, []) == Intact(0)
  {
  }

  /**
    The inline verification loop of the `/api/chain` handler: the same two
    checks in the same order, leaving the loop at the first failure.
   */
  method ChainHandler(H: string -> string, rows: seq<ChainRow>) returns (valid: bool, bad: Option<Id>)
    ensures valid <==> VerifyChain(H, rows).Intact?
    ensures bad == FirstBadBlock(VerifyChain(H, rows))
  {
    valid, bad := true, None;
    var i := 0;
    while i < |rows|
      invariant 0 <= i <= |rows|
      invariant valid && bad == None
      invariant PassesBefore(H, rows, i)
      invariant VerifyFrom(H, rows, i) == VerifyChain(H, rows)
    {
      var expectedPrev := if i > 0 then rows[i - 1].thisHash else Genesis;
      if rows[i].prevHash != expectedPrev {
        valid, bad := false, Some(rows[i].blockId);
        break;
      }
      var expectedHash := ComputeHash(H, rows[i].prevHash, rows[i].tradeId, rows[i].from, rows[i].to,
                                      rows[i].coin, rows[i].amount, rows[i].executedAt);
      if rows[i].thisHash != expectedHash {
        valid, bad := false, Some(rows[i].blockId);
        break;
      }
      i := i + 1;
    }
  }

  /** The hash of the last block, or the sentinel for an empty chain: the next block's prev_hash. */
  function LastHash(rows: seq<ChainRow>): string {
    if |rows| == 0 then Genesis else rows[|rows| - 1].thisHash
  }

  /**
    Appending a block that links to the last hash and carries the hash of
    its own fields keeps a sound chain sound: the step of the round trip
    from `add_block` to `verify_chain`.
   */
  lemma SoundAppend(H: string -> string, rows: seq<ChainRow>, row: ChainRow)
    requires Sound(H, rows)
    requires row.prevHash == LastHash(rows)
    requires row.thisHash == RowHash(H, row)
    ensures Sound(H, rows + [row])
    ensures VerifyChain(H, rows + [row]) == Intact(|rows| + 1)
  {
    var rs := rows + [row];
    forall j | 0 <= j < |rs| ensures BlockOk(H, rs, j) {
      if j < |rows| {
        assert rs[j] == rows[j];
        assert BlockOk(H, rows, j);
        if j > 0 {
          assert rs[j - 1] == rows[j - 1];
        }
      }
    }
  }

  /** H never maps two different texts to the same hash. */
  ghost predicate Injective(H: string -> string) {
    forall x, y :: H(x) == H(y) ==> x == y
  }

  /** Every rendered field but a free text is free of '|'. */
  lemma RenderFree(f: Field)
    requires !f.Str?
    ensures Free(Render(f), '|')
  {
    match f
    case Num(n) => DigitsFree(NatToString(n), '|');
    case Sender(_) =>
    case Units(units) => AmountTextFree(units, '|');
  }

  /** Fields of one kind render to one text only when they are equal. */
  lemma RenderInjective(f: Field, g: Field)
    requires f.Str? == g.Str? && f.Num? == g.Num? && f.Sender? == g.Sender? && f.Units? == g.Units?
    requires Render(f) == Render(g)
    ensures f == g
  {
    match f
    case Str(_) =>
    case Num(n) => NatToStringInjective(n, g.n);
    case Sender(from) => IssuerTextInjective(from, g.from);
    case Units(units) => AmountTextInjective(units, g.units);
  }

  /**
    Joining is injective on field lists of one length whose fields, all
    but the last, render free of the separator.
   */
  lemma {:induction false} JoinInjective(fs: seq<Field>, gs: seq<Field>)
    requires |fs| == |gs| > 0
    requires forall i :: 0 <= i < |fs| - 1 ==> !fs[i].Str? && !gs[i].Str?
    requires Join(fs) == Join(gs)
    ensures forall i :: 0 <= i < |fs| ==> Render(fs[i]) == Render(gs[i])
  {
    if |fs| > 1 {
      RenderFree(fs[0]);
      RenderFree(gs[0]);
      SplitAt(Render(fs[0]), Join(fs[1..]), Render(gs[0]), Join(gs[1..]), '|');
      JoinInjective(fs[1..], gs[1..]);
      forall i | 1 <= i < |fs| ensures Render(fs[i]) == Render(gs[i]) {
        assert fs[i] == fs[1..][i - 1] && gs[i] == gs[1..][i - 1];
      }
    }
  }

  /** With the previous hash fixed, the preimage determines every field it renders. */
  lemma PreimageInjective(p: string, t1: Id, f1: Issuer, to1: Id, c1: Id, a1: int, e1: string,
                                     t2: Id, f2: Issuer, to2: Id, c2: Id, a2: int, e2: string)
    requires Preimage(p, t1, f1, to1, c1, a1, e1) == Preimage(p, t2, f2, to2, c2, a2, e2)
    ensures t1 == t2 && f1 == f2 && to1 == to2 && c1 == c2 && a1 == a2 && e1 == e2
  {
    var fs, gs := Fields(p, t1, f1, to1, c1, a1, e1)[1..], Fields(p, t2, f2, to2, c2, a2, e2)[1..];
    assert fs == [Num(t1), Sender(f1), Num(to1), Num(c1), Units(a1), Str(e1)];
    assert gs == [Num(t2), Sender(f2), Num(to2), Num(c2), Units(a2), Str(e2)];
    var r1, r2 := Join(fs), Join(gs);
    assert p + "|" + r1 == p + "|" + r2;
    assert r1 == (p + "|" + r1)[|p| + 1..] == (p + "|" + r2)[|p| + 1..] == r2;
    JoinInjective(fs, gs);
    assert Render(fs[0]) == Render(gs[0]) && Render(fs[1]) == Render(gs[1]) && Render(fs[2]) == Render(gs[2]);
    assert Render(fs[3]) == Render(gs[3]) && Render(fs[4]) == Render(gs[4]) && Render(fs[5]) == Render(gs[5]);
    RenderInjective(Num(t1), Num(t2));
    RenderInjective(Sender(f1), Sender(f2));
    RenderInjective(Num(to1), Num(to2));
    RenderInjective(Num(c1), Num(c2));
    RenderInjective(Units(a1), Units(a2));
  }

  lemma IssuerTextInjective(f1: Issuer, f2: Issuer)
    requires IssuerText(f1) == IssuerText(f2)
    ensures f1 == f2
  {
    IssuerTextHead(f1);
    IssuerTextHead(f2);
    if f1.Account? && f2.Account? {
      NatToStringInjective(f1.user, f2.user);
    }
  }

  /** Only the absent sender renders as text starting with a letter. */
  lemma IssuerTextHead(f: Issuer)
    ensures |IssuerText(f)| > 0
    ensures IssuerText(f)[0] == 'N' <==> f.System?
  {
    if f.Account? {
      assert IsDigit(NatToString(f.user)[0]);
    }
  }

  /** Two rows that agree on everything the block itself stores. */
  predicate SameBlockFields(a: ChainRow, b: ChainRow) {
    a.blockId == b.blockId && a.tradeId == b.tradeId && a.prevHash == b.prevHash
    && a.thisHash == b.thisHash && a.coin == b.coin
  }

  /**
    Tamper detection: in a valid chain, changing any field of the trade
    behind block k (sender, recipient, amount or time) makes the verifier
    report exactly block k as tampered, all blocks before it still passing.
   */
  lemma TamperedTradeDetected(H: string -> string, rows: seq<ChainRow>, k: nat, row: ChainRow)
    requires Injective(H)
    requires Sound(H, rows)
    requires k < |rows| && SameBlockFields(rows[k], row) && row != rows[k]
    ensures PassesBefore(H, rows[k := row], k)
    ensures VerifyChain(H, rows[k := row]) == Tampered(rows[k].blockId)
  {
    var rs := rows[k := row];
    forall j | 0 <= j < k ensures BlockOk(H, rs, j) {
      assert BlockOk(H, rows, j);
    }
    assert BlockOk(H, rows, k);
    assert LinkOk(rs, k);
    if HashOk(H, rs, k) {
      PreimageInjective(row.prevHash, row.tradeId, row.from, row.to, row.coin, row.amount, row.executedAt,
        rows[k].tradeId, rows[k].from, rows[k].to, rows[k].coin, rows[k].amount, rows[k].executedAt);
    }
    VerifyChainFirstFailure(H, rs, k);
  }

  /**
    Link-break detection: in a valid chain, overwriting block k's stored
    prev_hash with any other value makes the verifier report block k as a
    broken link, all blocks before it still passing.
   */
  lemma RelinkedBlockDetected(H: string -> string, rows: seq<ChainRow>, k: nat, prevHash: string)
    requires Sound(H, rows)
    requires k < |rows| && prevHash != rows[k].prevHash
    ensures PassesBefore(H, rows[k := rows[k].(prevHash := prevHash)], k)
    ensures VerifyChain(H, rows[k := rows[k].(prevHash := prevHash)]) == LinkBroken(rows[k].blockId)
  {
    var rs := rows[k := rows[k].(prevHash := prevHash)];
    forall j | 0 <= j < k ensures BlockOk(H, rs, j) {
      assert BlockOk(H, rows, j);
    }
    assert BlockOk(H, rows, k);
    assert !LinkOk(rs, k);
    VerifyChainFirstFailure(H, rs, k);
  }
}
