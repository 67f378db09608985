/** Buying gas, running the message, settling fees, and applying a whole block. */
module Transactions {
  import opened Prelude
  import opened EvmTypes
  import opened Frames
  import opened Supply
  import opened Accrual

  const GAS_TX: nat := 21000
  const GAS_TXCREATE: nat := 32000
  const GAS_TXDATAZERO: nat := 4
  const GAS_TXDATANONZERO: nat := 68

  /** `to` is None for contract creation. */
  datatype Transaction = Transaction(
    nonce: nat, gasPrice: nat, gas: nat, to: Option<Address>, value: nat, data: Bytes, sender: Address)

  function DataGas(data: Bytes): nat {
    if data == [] then 0
    else (if data[0] == 0 then GAS_TXDATAZERO else GAS_TXDATANONZERO) + DataGas(data[1..])
  }

  function IntrinsicGas(fork: Fork, tx: Transaction): nat {
    GAS_TX + DataGas(tx.data) + (if tx.to.None? && !fork.Frontier? then GAS_TXCREATE else 0)
  }

  function GasFee(tx: Transaction): nat {
    tx.gas * tx.gasPrice
  }

  /** What the executor checks before it touches any account. */
  predicate Valid(fork: Fork, w: World, tx: Transaction) {
    && IntrinsicGas(fork, tx) <= tx.gas
    && GasFee(tx) <= Get(w, tx.sender).balance
    && tx.value + GasFee(tx) <= Get(w, tx.sender).balance
    && Get(w, tx.sender).nonce == tx.nonce
  }

  /** A transaction starts with a fresh log counter and an empty substate. */
  function Fresh(w: World, tx: Transaction): Sys {
    Sys(TxContext(tx.sender, tx.gasPrice), w, 0, false, Substate([], 0, {}))
  }

  function BuyGas(s: Sys, tx: Transaction): (r: Sys)
    ensures Get(r.world, tx.sender).nonce > 0
  {
    var s1 := DeltaBalance(s, tx.sender, -(GasFee(tx) as int));
    s1.(world := IncrementNonce(s1.world, tx.sender))
  }

  /** The message of a transaction, built from the state after the gas has been bought. */
  function BuildMessage(i: Interpreter, w: World, tx: Transaction): Message
    requires IntrinsicGas(i.fork, tx) <= tx.gas && Get(w, tx.sender).nonce > 0
  {
    var gas := tx.gas - IntrinsicGas(i.fork, tx);
    match tx.to
    case None =>
      var address := i.contractAddress(tx.sender, Get(w, tx.sender).nonce - 1);
      Message(gas, tx.sender, address, address, tx.value, [], tx.data, 0, true, true, false)
    case Some(to) =>
      Message(gas, tx.sender, to, to, tx.value, tx.data, Get(w, to).code, 0, false, true, false)
  }

  predicate Collides(w: World, msg: Message) {
    msg.isCreate && HasCodeOrNonce(w, msg.storageAddress)
  }

  /** A creation that hits an existing contract fails without running. */
  function BuildComputation(i: Interpreter, s: Sys, msg: Message): Outcome {
    if Collides(s.world, msg) then
      Outcome(s, NewComputation(msg).(status := Failed(true)))
    else
      Apply(i, s, msg)
  }

  /** The root computation once the refund for destroyed accounts has been added. */
  function WithDeletionRefund(c: Computation): Computation {
    c.(refunded := c.refunded + REFUND_SELFDESTRUCT * |AccountsForDeletion(c)|)
  }

  function Min(a: nat, b: nat): nat {
    if a < b then a else b
  }

  /** The refund that is granted: at most half of the gas used. */
  function GrantedRefund(tx: Transaction, c: Computation): nat
    requires GasRemaining(c) <= tx.gas
  {
    Min(GasRefund(c), (tx.gas - GasRemaining(c)) / 2)
  }

  /** Gas that the transaction finally pays for. */
  function GasCharged(tx: Transaction, c: Computation): nat
    requires GasRemaining(c) <= tx.gas
  {
    tx.gas - GasRemaining(c) - GrantedRefund(tx, c)
  }

  /** What the sender gets back for unused and refunded gas. */
  function HandedBack(tx: Transaction, c: Computation): nat
    requires GasRemaining(c) <= tx.gas
  {
    (GrantedRefund(tx, c) + GasRemaining(c)) * tx.gasPrice
  }

  function MinerFee(tx: Transaction, c: Computation): nat
    requires GasRemaining(c) <= tx.gas
  {
    GasCharged(tx, c) * tx.gasPrice
  }

  function Credit(s: Sys, sender: Address, back: nat, coinbase: Address, fee: nat): Sys {
    DeltaBalance(if back != 0 then DeltaBalance(s, sender, back) else s, coinbase, fee)
  }

  function Settle(s: Sys, coinbase: Address, tx: Transaction, c: Computation): Sys
    requires GasRemaining(c) <= tx.gas
  {
    Credit(s, tx.sender, HandedBack(tx, c), coinbase, MinerFee(tx, c))
  }

  function Purged(s: Sys, c: Computation): Sys {
    s.(world := s.world - AccountsForDeletion(c).Keys)
  }

  /** State and root computation after settlement and deletion of destroyed accounts. */
  function Finalize(s: Sys, coinbase: Address, tx: Transaction, c: Computation): Outcome
    requires GasRemaining(c) <= tx.gas
  {
    var c1 := WithDeletionRefund(c);
    var s1 := Settle(s, coinbase, tx, c1);
    Outcome(Purged(s1, c1), c1)
  }

  /** The transaction's message run after buying gas, before settlement. */
  function RunTransaction(i: Interpreter, w: World, tx: Transaction): (r: Outcome)
    requires Valid(i.fork, w, tx)
    ensures GasRemaining(r.c) <= tx.gas - IntrinsicGas(i.fork, tx)
  {
    var s := BuyGas(Fresh(w, tx), tx);
    BuildComputation(i, s, BuildMessage(i, s.world, tx))
  }

  /** None is the ValidationError raised before anything happens. */
  function ExecuteTransaction(i: Interpreter, w: World, coinbase: Address, tx: Transaction): (r: Option<Outcome>)
    ensures r.Some? <==> Valid(i.fork, w, tx)
    ensures r.Some? ==> GasRemaining(r.value.c) <= tx.gas - IntrinsicGas(i.fork, tx)
  {
    if !Valid(i.fork, w, tx) then None
    else
      var r := RunTransaction(i, w, tx);
      Some(Finalize(r.s, coinbase, tx, r.c))
  }

  // --- Conservation across a transaction ---

  lemma {:induction false} DeletionSupply(w: World, keys: set<Address>)
    ensures TotalSupply(w - keys) <= TotalSupply(w)
    decreases |keys|
  {
    if keys == {} {
      assert w - keys == w;
    } else {
      var a :| a in keys;
      DeletionSupply(w, keys - {a});
      var rest := w - (keys - {a});
      assert rest - {a} == w - keys;
      SupplyAt(rest, a);
    }
  }

  /** What is handed back and what the miner earns add up to the gas that was bought. */
  lemma FeesAddUp(tx: Transaction, c: Computation)
    requires GasRemaining(c) <= tx.gas
    ensures HandedBack(tx, c) + MinerFee(tx, c) == GasFee(tx)
  {
    var back, charged := GrantedRefund(tx, c) + GasRemaining(c), GasCharged(tx, c);
    assert back + charged == tx.gas;
    assert back * tx.gasPrice + charged * tx.gasPrice == (back + charged) * tx.gasPrice;
  }

  /** Paid in full unless the write is refused, and never refused while the sum fits uint256. */
  ghost predicate PaidIn(s: Sys, amount: nat, r: Sys) {
    && TotalSupply(r.world) <= TotalSupply(s.world) + amount
    && (!r.fault ==> !s.fault && TotalSupply(r.world) == TotalSupply(s.world) + amount)
    && (!s.fault && TotalSupply(s.world) + amount < UINT256_CEILING ==> !r.fault)
  }

  lemma DeltaSupply(s: Sys, a: Address, amount: nat)
    ensures PaidIn(s, amount, DeltaBalance(s, a, amount))
  {
    SetBalanceSupply(s, a, Get(s.world, a).balance + amount);
  }

  lemma CreditSupply(s: Sys, sender: Address, back: nat, coinbase: Address, fee: nat)
    ensures PaidIn(s, back + fee, Credit(s, sender, back, coinbase, fee))
  {
    DeltaSupply(s, sender, back);
    DeltaSupply(if back != 0 then DeltaBalance(s, sender, back) else s, coinbase, fee);
  }

  lemma {:induction false} BuyGasSupply(fork: Fork, w: World, tx: Transaction)
    requires Valid(fork, w, tx)
    ensures
      var s := BuyGas(Fresh(w, tx), tx);
      && !s.fault && s.live == Fresh(w, tx).live && s.nextLog == 0
      && TotalSupply(s.world) == TotalSupply(w) - GasFee(tx)
      && Get(s.world, tx.sender).balance >= tx.value
      && Get(s.world, tx.sender).nonce == tx.nonce + 1
  {
    var s := Fresh(w, tx);
    var paid := Get(w, tx.sender).balance - GasFee(tx);
    var s1 := SetBalance(s, tx.sender, paid);
    SetBalanceSupply(s, tx.sender, paid);
    SupplyUpdate(s1.world, tx.sender, Get(IncrementNonce(s1.world, tx.sender), tx.sender));
  }

  /** The message of a valid transaction is never refused. */
  lemma MessageRuns(i: Interpreter, s: Sys, tx: Transaction)
    requires IntrinsicGas(i.fork, tx) <= tx.gas
    requires !s.fault && s.live == Substate([], 0, {}) && s.nextLog == 0
    requires Get(s.world, tx.sender).balance >= tx.value && Get(s.world, tx.sender).nonce > 0
    ensures
      var r := BuildComputation(i, s, BuildMessage(i, s.world, tx));
      && Conserves(s, r.s) && (Safe(s) ==> Safe(r.s))
      && r.s.live == Substate(LogEntries(r.c), GasRefund(r.c), AccountsForDeletion(r.c).Keys)
      && Emitted(LogEntries(r.c), 0, r.s.nextLog)
  {
    var msg := BuildMessage(i, s.world, tx);
    ApplyConserves(i, s, msg);
    ApplyAccrues(i, s, msg);
  }

  lemma FaultStays(s: Sys, coinbase: Address, tx: Transaction, c: Computation)
    requires s.fault && GasRemaining(c) <= tx.gas
    ensures Finalize(s, coinbase, tx, c).s.fault
  {
  }

  lemma {:induction false} RefundKeepsDeletions(c: Computation)
    ensures AccountsForDeletion(WithDeletionRefund(c)) == AccountsForDeletion(c)
  {
  }

  /** Settlement brings the price of the gas back, less what deleted accounts still owned. */
  lemma {:induction false} FinalizeSupply(s: Sys, coinbase: Address, tx: Transaction, c: Computation)
    requires GasRemaining(c) <= tx.gas
    ensures
      var r := Finalize(s, coinbase, tx, c);
      && AccountsForDeletion(r.c) == AccountsForDeletion(c)
      && TotalSupply(r.s.world) <= TotalSupply(s.world) + GasFee(tx)
      && (AccountsForDeletion(c) == map[] && !r.s.fault ==>
            !s.fault && TotalSupply(r.s.world) == TotalSupply(s.world) + GasFee(tx))
      && (!s.fault && TotalSupply(s.world) + GasFee(tx) < UINT256_CEILING ==> !r.s.fault)
  {
    var c1 := WithDeletionRefund(c);
    RefundKeepsDeletions(c);
    FeesAddUp(tx, c1);
    CreditSupply(s, tx.sender, HandedBack(tx, c1), coinbase, MinerFee(tx, c1));
    var settled := Settle(s, coinbase, tx, c1);
    var keys := AccountsForDeletion(c1).Keys;
    DeletionSupply(settled.world, keys);
    if AccountsForDeletion(c) == map[] {
      assert settled.world - keys == settled.world;
    }
  }

  /**
   * For every valid transaction and every nested run, gas purchase, transfers, refund and miner
   * fee included: the supply never rises, a run in which every write succeeds leaves it exactly
   * unchanged when no account ends up scheduled for deletion, and below 2^255 every write does.
   */
  lemma {:induction false} TransactionConserves(i: Interpreter, w: World, coinbase: Address, tx: Transaction)
    requires Valid(i.fork, w, tx)
    ensures
      var r := ExecuteTransaction(i, w, coinbase, tx).value;
      && TotalSupply(r.s.world) <= TotalSupply(w)
      && (AccountsForDeletion(r.c) == map[] && !r.s.fault ==> TotalSupply(r.s.world) == TotalSupply(w))
      && (TotalSupply(w) < SAFE_SUPPLY ==> !r.s.fault)
  {
    BuyGasSupply(i.fork, w, tx);
    MessageRuns(i, BuyGas(Fresh(w, tx), tx), tx);
    var run := RunTransaction(i, w, tx);
    FinalizeSupply(run.s, coinbase, tx, run.c);
  }

  // --- Blocks ---

  datatype Header = Header(gasUsed: nat, gasLimit: nat, coinbase: Address)

  datatype Receipt = Receipt(gasUsed: nat, logs: seq<LogEntry>)

  function MakeReceipt(header: Header, tx: Transaction, c: Computation): Receipt
    requires GasRemaining(c) <= tx.gas
  {
    Receipt(header.gasUsed
            + (tx.gas - GasRemaining(c)) - Min(GasRefund(c), (tx.gas - GasRemaining(c)) / 2),
            LogEntries(c))
  }

  datatype Applied = Applied(world: World, fault: bool, header: Header, receipt: Receipt, c: Computation)

  /** The new header and the receipt for what a transaction left behind. */
  function AppliedTo(header: Header, tx: Transaction, w: World, fault: bool, c: Computation): Applied
    requires GasRemaining(c) <= tx.gas
  {
    var receipt := MakeReceipt(header, tx, c);
    Applied(w, fault, header.(gasUsed := receipt.gasUsed), receipt, c)
  }

  /** None when the transaction does not fit the block or is invalid. */
  function ApplyTransaction(i: Interpreter, w: World, header: Header, tx: Transaction): Option<Applied> {
    if header.gasUsed + tx.gas > header.gasLimit then None
    else
      match ExecuteTransaction(i, w, header.coinbase, tx)
      case None => None
      case Some(r) =>
        Some(AppliedTo(header, tx, r.s.world, r.s.fault, r.c))
  }

  lemma AppliedFrom(i: Interpreter, w: World, header: Header, tx: Transaction, end: Outcome)
    requires header.gasUsed + tx.gas <= header.gasLimit
    requires ExecuteTransaction(i, w, header.coinbase, tx) == Some(end)
    ensures GasRemaining(end.c) <= tx.gas
    ensures ApplyTransaction(i, w, header, tx) == Some(AppliedTo(header, tx, end.s.world, end.s.fault, end.c))
  {
  }

  /** At least half of the gas used is charged, and never more than the gas bought. */
  lemma ChargeBounds(tx: Transaction, c: Computation)
    requires GasRemaining(c) + GAS_TX <= tx.gas
    ensures 2 * GrantedRefund(tx, c) <= tx.gas - GasRemaining(c)
    ensures GAS_TX / 2 <= GasCharged(tx, c) <= tx.gas
  {
  }

  /** The block's gas counter strictly grows, by the gas charged, and stays within the limit. */
  lemma CounterGrows(i: Interpreter, w: World, header: Header, tx: Transaction)
    requires ApplyTransaction(i, w, header, tx).Some?
    ensures
      var a := ApplyTransaction(i, w, header, tx).value;
      && GasRemaining(a.c) <= tx.gas
      && 2 * GrantedRefund(tx, a.c) <= tx.gas - GasRemaining(a.c)
      && a.receipt.gasUsed == header.gasUsed + GasCharged(tx, a.c)
      && header.gasUsed + GAS_TX / 2 <= a.receipt.gasUsed <= header.gasLimit
      && a.header == header.(gasUsed := a.receipt.gasUsed)
  {
    ChargeBounds(tx, ApplyTransaction(i, w, header, tx).value.c);
  }

  /** The fee credited to the miner is the price of exactly the increment the receipt records. */
  lemma ReceiptMatchesFee(header: Header, tx: Transaction, c: Computation)
    requires GasRemaining(c) <= tx.gas
    ensures
      var increment := MakeReceipt(header, tx, c).gasUsed - header.gasUsed;
      && MinerFee(tx, c) == increment * tx.gasPrice
      && HandedBack(tx, c) == (tx.gas - increment) * tx.gasPrice
  {
    var increment := MakeReceipt(header, tx, c).gasUsed - header.gasUsed;
    assert increment == GasCharged(tx, c);
    assert tx.gas - increment == GrantedRefund(tx, c) + GasRemaining(c);
  }

  /** The miner is paid for `charged` gas and the sender gets the price of the rest back. */
  function PaidFor(s: Sys, coinbase: Address, tx: Transaction, charged: nat): Sys
    requires charged <= tx.gas
  {
    Credit(s, tx.sender, (tx.gas - charged) * tx.gasPrice, coinbase, charged * tx.gasPrice)
  }

  lemma SettleIsPaidFor(s: Sys, header: Header, tx: Transaction, c: Computation)
    requires GasRemaining(c) <= tx.gas
    ensures
      var after := MakeReceipt(header, tx, c).gasUsed;
      && header.gasUsed <= after <= header.gasUsed + tx.gas
      && Settle(s, header.coinbase, tx, c) == PaidFor(s, header.coinbase, tx, after - header.gasUsed)
  {
    ReceiptMatchesFee(header, tx, c);
  }

  /** Whatever the run was: it is settled by what the receipt of its computation says. */
  lemma SettledByReceipt(run: Outcome, header: Header, tx: Transaction, c: Computation)
    requires GasRemaining(run.c) <= tx.gas && c == WithDeletionRefund(run.c)
    ensures
      var after := MakeReceipt(header, tx, c).gasUsed;
      && header.gasUsed <= after <= header.gasUsed + tx.gas
      && Finalize(run.s, header.coinbase, tx, run.c)
         == Outcome(Purged(PaidFor(run.s, header.coinbase, tx, after - header.gasUsed), c), c)
  {
    SettleIsPaidFor(run.s, header, tx, c);
  }

  /**
   * Whatever the block so far: sender and miner are credited by what the receipt for the
   * resulting computation says, before the doomed accounts go.
   */
  lemma FeesFollowReceipt(i: Interpreter, w: World, header: Header, tx: Transaction, run: Outcome, c: Computation)
    requires Valid(i.fork, w, tx) && run == RunTransaction(i, w, tx) && c == WithDeletionRefund(run.c)
    ensures
      var after := MakeReceipt(header, tx, c).gasUsed;
      && header.gasUsed <= after <= header.gasUsed + tx.gas
      && ExecuteTransaction(i, w, header.coinbase, tx)
         == Some(Outcome(Purged(PaidFor(run.s, header.coinbase, tx, after - header.gasUsed), c), c))
  {
    SettledByReceipt(run, header, tx, c);
    assert ExecuteTransaction(i, w, header.coinbase, tx) == Some(Finalize(run.s, header.coinbase, tx, run.c));
  }

  lemma {:induction false} AppliedConserves(i: Interpreter, w: World, header: Header, tx: Transaction)
    requires ApplyTransaction(i, w, header, tx).Some?
    ensures
      var a := ApplyTransaction(i, w, header, tx).value;
      && TotalSupply(a.world) <= TotalSupply(w) && (TotalSupply(w) < SAFE_SUPPLY ==> !a.fault)
      && (AccountsForDeletion(a.c) == map[] && !a.fault ==> TotalSupply(a.world) == TotalSupply(w))
  {
    TransactionConserves(i, w, header.coinbase, tx);
  }

  datatype BlockRun = BlockRun(world: World, fault: bool, header: Header, receipts: seq<Receipt>)

  /** How one transaction is applied, given the accounts and the header so far. */
  type TxStep = (World, Header, Transaction) -> Option<Applied>

  function StepOf(i: Interpreter): TxStep {
    (w: World, header: Header, tx: Transaction) => ApplyTransaction(i, w, header, tx)
  }

  /** One more transaction of a block that has not been aborted yet. */
  function ApplyNext(step: TxStep, b: Option<BlockRun>, tx: Transaction): Option<BlockRun> {
    match b
    case None => None
    case Some(b) =>
      match step(b.world, b.header, tx)
      case None => None
      case Some(a) => Some(BlockRun(a.world, b.fault || a.fault, a.header, b.receipts + [a.receipt]))
  }

  /** Applies the transactions in order; the first one that is refused aborts the block. */
  function ApplyEach(step: TxStep, w: World, header: Header, txs: seq<Transaction>): Option<BlockRun> {
    if txs == [] then Some(BlockRun(w, false, header, []))
    else ApplyNext(step, ApplyEach(step, w, header, txs[..|txs| - 1]), txs[|txs| - 1])
  }

  function ApplyAll(i: Interpreter, w: World, header: Header, txs: seq<Transaction>): Option<BlockRun> {
    ApplyEach(StepOf(i), w, header, txs)
  }

  lemma {:induction false} ApplyEachNext(step: TxStep, w: World, header: Header, txs: seq<Transaction>, n: nat)
    requires n < |txs|
    ensures ApplyEach(step, w, header, txs[..n + 1]) == ApplyNext(step, ApplyEach(step, w, header, txs[..n]), txs[n])
  {
    var upTo := txs[..n + 1];
    assert upTo != [] && upTo[..|upTo| - 1] == txs[..n] && upTo[|upTo| - 1] == txs[n];
  }

  /** A block that went through went through up to every transaction, with the same receipts so far. */
  lemma {:induction false} ApplyEachPrefix(step: TxStep, w: World, header: Header, txs: seq<Transaction>, n: nat)
    requires n <= |txs| && ApplyEach(step, w, header, txs).Some?
    ensures ApplyEach(step, w, header, txs[..n]).Some?
    ensures
      var b, all := ApplyEach(step, w, header, txs[..n]).value, ApplyEach(step, w, header, txs).value.receipts;
      |all| == |txs| && b.receipts == all[..n]
    decreases |txs|
  {
    if n == |txs| {
      assert txs[..n] == txs;
      if n > 0 {
        ApplyEachPrefix(step, w, header, txs[..n - 1], n - 1);
      }
    } else {
      ApplyEachPrefix(step, w, header, txs[..|txs| - 1], n);
      assert txs[..|txs| - 1][..n] == txs[..n];
    }
  }

  /** Once a transaction was refused the block stays aborted. */
  lemma {:induction false} RefusedStays(step: TxStep, w: World, header: Header, txs: seq<Transaction>, n: nat)
    requires n <= |txs| && ApplyEach(step, w, header, txs[..n]).None?
    ensures ApplyEach(step, w, header, txs).None?
    decreases |txs| - n
  {
    if n == |txs| {
      assert txs[..n] == txs;
    } else {
      ApplyEachNext(step, w, header, txs, n);
      RefusedStays(step, w, header, txs, n + 1);
    }
  }

  ghost predicate ReceiptsGrow(start: nat, receipts: seq<Receipt>) {
    && (forall k | 0 <= k < |receipts| :: start < receipts[k].gasUsed)
    && (forall j, k | 0 <= j < k < |receipts| :: receipts[j].gasUsed < receipts[k].gasUsed)
  }

  /** What holds of a block after any number of transactions. */
  ghost predicate BlockHolds(w: World, header: Header, b: BlockRun) {
    && ReceiptsGrow(header.gasUsed, b.receipts)
    && b.header == header.(gasUsed :=
         if b.receipts == [] then header.gasUsed else b.receipts[|b.receipts| - 1].gasUsed)
    && b.header.gasUsed <= header.gasLimit
    && TotalSupply(b.world) <= TotalSupply(w)
    && (TotalSupply(w) < SAFE_SUPPLY ==> !b.fault)
  }

  lemma BlockExtends(w: World, header: Header, b: BlockRun, a: Applied)
    requires BlockHolds(w, header, b)
    requires TotalSupply(a.world) <= TotalSupply(b.world) && (TotalSupply(b.world) < SAFE_SUPPLY ==> !a.fault)
    requires b.header.gasUsed < a.receipt.gasUsed <= b.header.gasLimit
    requires a.header == b.header.(gasUsed := a.receipt.gasUsed)
    ensures BlockHolds(w, header, BlockRun(a.world, b.fault || a.fault, a.header, b.receipts + [a.receipt]))
  {
  }

  /** A whole block: one receipt each, gas strictly growing within the limit, supply kept. */
  lemma {:induction false} BlockInvariant(i: Interpreter, w: World, header: Header, txs: seq<Transaction>)
    requires header.gasUsed <= header.gasLimit
    requires ApplyAll(i, w, header, txs).Some?
    ensures
      var b := ApplyAll(i, w, header, txs).value;
      |b.receipts| == |txs| && BlockHolds(w, header, b)
    decreases |txs|
  {
    if txs != [] {
      var last := |txs| - 1;
      BlockInvariant(i, w, header, txs[..last]);
      var b := ApplyAll(i, w, header, txs[..last]).value;
      CounterGrows(i, b.world, b.header, txs[last]);
      AppliedConserves(i, b.world, b.header, txs[last]);
      BlockExtends(w, header, b, ApplyTransaction(i, b.world, b.header, txs[last]).value);
    }
  }

  /** No transaction of the block leaves an account scheduled for deletion. */
  ghost predicate NothingDeleted(i: Interpreter, w: World, header: Header, txs: seq<Transaction>)
    decreases |txs|
  {
    txs == [] ||
    var init, last := txs[..|txs| - 1], txs[|txs| - 1];
    match ApplyAll(i, w, header, init)
    case None => false
    case Some(b) =>
      && NothingDeleted(i, w, header, init)
      && match ApplyTransaction(i, b.world, b.header, last)
         case None => false
         case Some(a) => AccountsForDeletion(a.c) == map[]
  }

  /** A block in which nothing is deleted and nothing faults keeps the supply exactly. */
  lemma {:induction false} BlockKeepsSupply(i: Interpreter, w: World, header: Header, txs: seq<Transaction>)
    requires ApplyAll(i, w, header, txs).Some? && !ApplyAll(i, w, header, txs).value.fault
    requires NothingDeleted(i, w, header, txs)
    ensures TotalSupply(ApplyAll(i, w, header, txs).value.world) == TotalSupply(w)
    decreases |txs|
  {
    if txs != [] {
      var last := |txs| - 1;
      var b := ApplyAll(i, w, header, txs[..last]).value;
      AppliedConserves(i, b.world, b.header, txs[last]);
      BlockKeepsSupply(i, w, header, txs[..last]);
    }
  }

  /** The gas counter of the block before its transaction `k`. */
  function CounterBefore(header: Header, receipts: seq<Receipt>, k: nat): nat
    requires k <= |receipts|
  {
    if k == 0 then header.gasUsed else receipts[k - 1].gasUsed
  }

  lemma {:induction false} LastCounter(i: Interpreter, w: World, header: Header, txs: seq<Transaction>)
    requires ApplyAll(i, w, header, txs).Some?
    ensures
      var b := ApplyAll(i, w, header, txs).value;
      b.header == header.(gasUsed := CounterBefore(header, b.receipts, |b.receipts|))
    decreases |txs|
  {
    if txs != [] {
      LastCounter(i, w, header, txs[..|txs| - 1]);
    }
  }

  /** `granted` is as much of the refund counter as half of the gas used allows. */
  ghost predicate LargestRefund(used: nat, counter: nat, granted: int) {
    0 <= granted <= counter && 2 * granted <= used && (granted == counter || 2 * (granted + 1) > used)
  }

  lemma {:induction false} RefundIsLargest(tx: Transaction, c: Computation)
    requires GasRemaining(c) <= tx.gas
    ensures LargestRefund(tx.gas - GasRemaining(c), GasRefund(c), GrantedRefund(tx, c))
  {
  }

  /** What a receipt says about the charge for its transaction, when the counter stood at `before`. */
  ghost predicate Accounts(before: nat, tx: Transaction, c: Computation, receipt: Receipt) {
    && GasRemaining(c) <= tx.gas && receipt.logs == LogEntries(c)
    && before < receipt.gasUsed && receipt.gasUsed - before == GasCharged(tx, c)
    && LargestRefund(tx.gas - GasRemaining(c), GasRefund(c), tx.gas - GasRemaining(c) - (receipt.gasUsed - before))
    && MinerFee(tx, c) == (receipt.gasUsed - before) * tx.gasPrice
    && HandedBack(tx, c) + MinerFee(tx, c) == GasFee(tx)
  }

  lemma AppliedAccounts(i: Interpreter, w: World, header: Header, tx: Transaction)
    requires ApplyTransaction(i, w, header, tx).Some?
    ensures
      var a := ApplyTransaction(i, w, header, tx).value;
      Accounts(header.gasUsed, tx, a.c, a.receipt)
  {
    ReceiptAccounts(header, tx, ApplyTransaction(i, w, header, tx).value.c);
  }

  lemma ReceiptAccounts(header: Header, tx: Transaction, c: Computation)
    requires GasRemaining(c) + GAS_TX <= tx.gas
    ensures Accounts(header.gasUsed, tx, c, MakeReceipt(header, tx, c))
  {
    ChargeBounds(tx, c);
    RefundIsLargest(tx, c);
    ReceiptMatchesFee(header, tx, c);
    FeesAddUp(tx, c);
  }

  /**
   * Over every list of transactions: each receipt's increment over the one before is the gas
   * charged for its own transaction, whose refund is at most half of the gas used; the miner
   * earns exactly the price of that increment and the sender gets the rest back.
   */
  lemma BlockFees(i: Interpreter, w: World, header: Header, txs: seq<Transaction>, k: nat)
    requires k < |txs| && ApplyAll(i, w, header, txs).Some?
    ensures ApplyAll(i, w, header, txs[..k]).Some? && |ApplyAll(i, w, header, txs).value.receipts| == |txs|
    ensures
      var b, receipts := ApplyAll(i, w, header, txs[..k]).value, ApplyAll(i, w, header, txs).value.receipts;
      var a := ApplyTransaction(i, b.world, b.header, txs[k]);
      a.Some? && Accounts(CounterBefore(header, receipts, k), txs[k], a.value.c, receipts[k])
  {
    ApplyEachPrefix(StepOf(i), w, header, txs, k);
    ApplyEachPrefix(StepOf(i), w, header, txs, k + 1);
    ApplyEachNext(StepOf(i), w, header, txs, k);
    LastCounter(i, w, header, txs[..k]);
    var b := ApplyAll(i, w, header, txs[..k]).value;
    AppliedAccounts(i, b.world, b.header, txs[k]);
    SameReceipt(ApplyAll(i, w, header, txs).value.receipts, b.receipts, k,
                ApplyTransaction(i, b.world, b.header, txs[k]).value.receipt);
  }

  lemma SameReceipt(all: seq<Receipt>, init: seq<Receipt>, k: nat, last: Receipt)
    requires k < |all| && init == all[..k] && init + [last] == all[..k + 1]
    ensures all[k] == last
  {
    assert all[..k + 1][k] == (init + [last])[k];
  }
}
