/** The transaction executor and the block loop over the journaled machine. */
module Executor {
  import opened Prelude
  import opened EvmTypes
  import opened Frames
  import opened Supply
  import opened Accrual
  import opened Machine
  import opened Transactions

  /** The checks before execution; reading accounts is all it does. */
  method Validate(vm: Vm, tx: Transaction) returns (ok: bool)
    requires vm.Valid()
    modifies vm.accounts.journal.db`cached
    ensures vm.Valid() && vm.Nested() && vm.Abs() == old(vm.Abs())
    ensures ok == Transactions.Valid(vm.i.fork, vm.accounts.world, tx)
  {
    if IntrinsicGas(vm.i.fork, tx) > tx.gas {
      return false;
    }
    var sender := vm.accounts.GetAccount(tx.sender);
    var cost := tx.gas * tx.gasPrice;
    if sender.balance < cost || sender.balance < tx.value + cost {
      return false;
    }
    ok := sender.nonce == tx.nonce;
  }

  method PayUpfront(vm: Vm, tx: Transaction)
    requires vm.Valid()
    modifies vm, vm.accounts, vm.accounts.journal, vm.accounts.journal.db
    ensures vm.Valid() && vm.Nested() && vm.Abs() == BuyGas(old(vm.Abs()), tx)
  {
    var cost := tx.gas * tx.gasPrice;
    vm.DeltaBalance(tx.sender, -(cost as int));
    vm.accounts.IncrementNonce(tx.sender);
  }

  method MakeMessage(vm: Vm, tx: Transaction) returns (msg: Message)
    requires vm.Valid() && IntrinsicGas(vm.i.fork, tx) <= tx.gas && Get(vm.accounts.world, tx.sender).nonce > 0
    modifies vm.accounts.journal.db`cached
    ensures vm.Valid() && vm.Nested() && vm.Abs() == old(vm.Abs())
    ensures msg == BuildMessage(vm.i, vm.accounts.world, tx)
  {
    var gas := tx.gas - IntrinsicGas(vm.i.fork, tx);
    match tx.to {
      case None =>
        var sender := vm.accounts.GetAccount(tx.sender);
        var address := vm.i.contractAddress(tx.sender, sender.nonce - 1);
        msg := Message(gas, tx.sender, address, address, tx.value, [], tx.data, 0, true, true, false);
      case Some(to) =>
        var target := vm.accounts.GetAccount(to);
        msg := Message(gas, tx.sender, to, to, tx.value, tx.data, target.code, 0, false, true, false);
    }
  }

  /** Null stands for the exception raised when the message is refused. */
  method RunMessage(vm: Vm, msg: Message) returns (frame: Frame?)
    requires vm.Valid()
    modifies vm, vm.accounts, vm.accounts.journal, vm.accounts.journal.db
    ensures vm.Valid()
    ensures frame == null <==> !Collides(old(vm.accounts.world), msg) && Refused(old(vm.accounts.world), msg)
    ensures frame != null ==>
      && fresh(frame) && fresh(frame.meter)
      && Outcome(vm.Abs(), frame.Value()) == BuildComputation(vm.i, old(vm.Abs()), msg)
  {
    if msg.isCreate {
      var occupant := vm.accounts.GetAccount(msg.storageAddress);
      if occupant.nonce != 0 || occupant.code != [] {
        frame := new Frame(msg);
        frame.status := Failed(true);
        return;
      }
    }
    frame := vm.ApplyAny(msg);
  }

  method PayOut(vm: Vm, coinbase: Address, tx: Transaction, c: Computation)
    requires vm.Valid() && GasRemaining(c) <= tx.gas
    modifies vm, vm.accounts, vm.accounts.journal, vm.accounts.journal.db
    ensures vm.Valid() && vm.Abs() == Settle(old(vm.Abs()), coinbase, tx, c)
  {
    var remaining := GasRemaining(c);
    var used := tx.gas - remaining;
    var refund := Min(GasRefund(c), used / 2);
    var back := (refund + remaining) * tx.gasPrice;
    if back != 0 {
      vm.DeltaBalance(tx.sender, back);
    }
    vm.DeltaBalance(coinbase, (used - refund) * tx.gasPrice);
  }

  method DeleteOne(vm: Vm, a: Address)
    requires vm.Valid()
    modifies vm, vm.accounts, vm.accounts.journal, vm.accounts.journal.db
    ensures vm.Valid() && vm.Abs() == old(vm.Abs()).(world := old(vm.Abs()).world - {a})
  {
    ghost var w := vm.accounts.world;
    vm.SetBalance(a, 0);
    vm.accounts.DeleteAccount(a);
    assert vm.accounts.world == w - {a};
  }

  lemma RemoveOneMore(w: World, gone: set<Address>, a: Address)
    ensures (w - gone) - {a} == w - (gone + {a})
  {
  }

  method DeleteAll(vm: Vm, doomed: set<Address>)
    requires vm.Valid()
    modifies vm, vm.accounts, vm.accounts.journal, vm.accounts.journal.db
    ensures vm.Valid() && vm.Abs() == old(vm.Abs()).(world := old(vm.Abs()).world - doomed)
  {
    var pending, gone := doomed, {};
    ghost var start := vm.Abs();
    assert start.world - {} == start.world;
    while pending != {}
      invariant vm.Valid() && gone + pending == doomed
      invariant vm.Abs() == start.(world := start.world - gone)
      decreases pending
    {
      var a :| a in pending;
      DeleteOne(vm, a);
      RemoveOneMore(start.world, gone, a);
      gone := gone + {a};
      pending := pending - {a};
    }
    assert gone == doomed;
  }

  /** finalize_computation: refunds, miner fee, and the accounts that were destroyed. */
  method FinalizeComputation(vm: Vm, coinbase: Address, tx: Transaction, frame: Frame)
    requires vm.Valid() && GasRemaining(frame.Value()) <= tx.gas
    modifies vm, vm.accounts, vm.accounts.journal, vm.accounts.journal.db, frame.meter
    ensures vm.Valid()
    ensures Outcome(vm.Abs(), frame.Value())
         == Finalize(old(vm.Abs()), coinbase, tx, old(frame.Value()))
  {
    ghost var before := frame.Value();
    var doomed := AccountsForDeletion(frame.Value()).Keys;
    RefundForDeletions(frame);
    RefundKeepsDeletions(before);
    PayOut(vm, coinbase, tx, frame.Value());
    DeleteAll(vm, doomed);
  }

  method RefundForDeletions(frame: Frame)
    modifies frame.meter`refunded
    ensures frame.Value() == WithDeletionRefund(old(frame.Value()))
  {
    var deletions := AccountsForDeletion(frame.Value());
    if |deletions| != 0 {
      frame.meter.Refund(REFUND_SELFDESTRUCT * |deletions|);
    }
  }

  /** Null stands for the ValidationError of an invalid transaction. */
  method Transact(vm: Vm, coinbase: Address, tx: Transaction) returns (frame: Frame?)
    requires vm.Valid() && !vm.fault
    modifies vm, vm.accounts, vm.accounts.journal, vm.accounts.journal.db
    ensures vm.Valid()
    ensures frame == null <==> !Transactions.Valid(vm.i.fork, old(vm.accounts.world), tx)
    ensures frame == null ==> vm.accounts.world == old(vm.accounts.world) && !vm.fault
    ensures frame != null ==>
      && fresh(frame) && fresh(frame.meter)
      && Some(Outcome(vm.Abs(), frame.Value()))
         == ExecuteTransaction(vm.i, old(vm.accounts.world), coinbase, tx)
  {
    vm.context, vm.nextLog := TxContext(tx.sender, tx.gasPrice), 0;
    vm.live := Substate([], 0, {});
    assert vm.Abs() == Fresh(vm.accounts.world, tx);
    var ok := Validate(vm, tx);
    if !ok {
      return null;
    }
    ghost var world := vm.accounts.world;
    PayUpfront(vm, tx);
    PaidUpfront(vm.i.fork, world, tx);
    var msg := MakeMessage(vm, tx);
    frame := RunMessage(vm, msg);
    FinalizeComputation(vm, coinbase, tx, frame);
  }

  /** After buying gas a valid sender can still pay the value it sends. */
  lemma PaidUpfront(fork: Fork, w: World, tx: Transaction)
    requires Transactions.Valid(fork, w, tx)
    ensures
      var s := BuyGas(Fresh(w, tx), tx);
      Get(s.world, tx.sender).balance >= tx.value && Get(s.world, tx.sender).nonce > 0
  {
  }

  /**
   * _apply_all_transactions: None when a transaction is refused. No exception escapes while the
   * supply is below 2^255, and the supply never rises.
   */
  method ApplyAllTransactions(vm: Vm, header: Header, txs: seq<Transaction>)
    returns (r: Option<(Header, seq<Receipt>)>)
    requires vm.Valid() && !vm.fault
    modifies vm, vm.accounts, vm.accounts.journal, vm.accounts.journal.db
    ensures vm.Valid()
    ensures !vm.fault ==>
      match ApplyAll(vm.i, old(vm.accounts.world), header, txs)
      case None => r.None?
      case Some(b) => r == Some((b.header, b.receipts)) && vm.accounts.world == b.world && !b.fault
    ensures TotalSupply(vm.accounts.world) <= TotalSupply(old(vm.accounts.world))
    ensures TotalSupply(old(vm.accounts.world)) < SAFE_SUPPLY ==> !vm.fault
  {
    var current, receipts := header, [];
    ghost var w := vm.accounts.world;
    for n := 0 to |txs|
      invariant vm.Valid() && !vm.fault && TotalSupply(vm.accounts.world) <= TotalSupply(w)
      invariant ApplyAll(vm.i, w, header, txs[..n])
             == Some(BlockRun(vm.accounts.world, false, current, receipts))
    {
      ApplyEachNext(StepOf(vm.i), w, header, txs, n);
      ghost var before := vm.accounts.world;
      var frame := ApplyOne(vm, current, txs[n]);
      if frame == null {
        RefusedStays(StepOf(vm.i), w, header, txs, n + 1);
        return None;
      }
      AppliedConserves(vm.i, before, current, txs[n]);
      if vm.fault {
        return None;
      }
      var receipt := MakeReceipt(current, txs[n], frame.Value());
      current := current.(gasUsed := receipt.gasUsed);
      receipts := receipts + [receipt];
    }
    assert txs[..|txs|] == txs;
    r := Some((current, receipts));
  }

  method CommitRoot(vm: Vm)
    requires vm.Valid()
    modifies vm.accounts.journal, vm.accounts.journal.db
    ensures vm.Valid() && vm.Abs() == old(vm.Abs())
  {
    var _ := vm.accounts.MakeStateRoot();
  }

  /** One transaction of a block, and the state root after it. */
  method ApplyOne(vm: Vm, header: Header, tx: Transaction) returns (frame: Frame?)
    requires vm.Valid() && !vm.fault
    modifies vm, vm.accounts, vm.accounts.journal, vm.accounts.journal.db
    ensures vm.Valid()
    ensures frame == null ==>
      && vm.accounts.world == old(vm.accounts.world) && !vm.fault
      && ApplyTransaction(vm.i, vm.accounts.world, header, tx) == None
    ensures frame != null ==>
      && GasRemaining(frame.Value()) <= tx.gas
      && ApplyTransaction(vm.i, old(vm.accounts.world), header, tx)
         == Some(AppliedTo(header, tx, vm.accounts.world, vm.fault, frame.Value()))
  {
    if header.gasUsed + tx.gas > header.gasLimit {
      return null;
    }
    frame := Transact(vm, header.coinbase, tx);
    if frame != null {
      AppliedFrom(vm.i, old(vm.accounts.world), header, tx, Outcome(vm.Abs(), frame.Value()));
      CommitRoot(vm);
    }
  }
}
