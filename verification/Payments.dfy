/** What a transaction leaves in the accounts, read back account by account. */
module Payments {
  import opened Prelude
  import opened EvmTypes
  import opened Frames
  import opened Accrual
  import opened Effects
  import opened Transactions

  // --- Admission ---

  /** 4 gas for each zero byte and 68 for each other one. */
  lemma {:induction false} DataGasCounts(data: Bytes)
    ensures DataGas(data) == 4 * multiset(data)[0] + 68 * (|data| - multiset(data)[0])
  {
    if data != [] {
      DataGasCounts(data[1..]);
      assert data == [data[0]] + data[1..];
    }
  }

  /**
   * A transaction is executed exactly when its gas covers 21000, the data and, from Homestead on,
   * 32000 for a creation, when the sender can pay value and gas, and when its nonce is the sender's.
   */
  lemma Admission(i: Interpreter, w: World, coinbase: Address, tx: Transaction)
    ensures
      var zeros := multiset(tx.data)[0];
      var creation := if tx.to.None? && !i.fork.Frontier? then 32000 else 0;
      ExecuteTransaction(i, w, coinbase, tx).Some?
      <==> && 21000 + 4 * zeros + 68 * (|tx.data| - zeros) + creation <= tx.gas
           && tx.value + tx.gas * tx.gasPrice <= Get(w, tx.sender).balance
           && Get(w, tx.sender).nonce == tx.nonce
  {
    DataGasCounts(tx.data);
  }

  /** A block takes a transaction exactly when its whole gas still fits and it is valid. */
  lemma BlockAdmission(i: Interpreter, w: World, header: Header, tx: Transaction)
    ensures ApplyTransaction(i, w, header, tx).Some?
       <==> header.gasUsed + tx.gas <= header.gasLimit && ExecuteTransaction(i, w, header.coinbase, tx).Some?
  {
  }

  // --- The message ---

  /** Buying gas takes its price and one nonce from the sender and nothing from anyone else. */
  lemma BuyGasReads(fork: Fork, w: World, tx: Transaction)
    requires Valid(fork, w, tx)
    ensures
      var v := BuyGas(Fresh(w, tx), tx).world;
      && OnlyAt(w, v, tx.sender) && !BuyGas(Fresh(w, tx), tx).fault
      && Get(v, tx.sender)
         == Get(w, tx.sender).(nonce := tx.nonce + 1, balance := Get(w, tx.sender).balance - GasFee(tx))
  {
  }

  /**
   * The root frame: a creation's address comes from the nonce before the increment and it runs
   * the data; a call runs the recipient's code on the data.
   */
  lemma RootMessage(i: Interpreter, w: World, tx: Transaction)
    requires Valid(i.fork, w, tx)
    ensures
      var m := RunTransaction(i, w, tx).c.msg;
      && m.sender == tx.sender && m.value == tx.value && m.transfersValue && m.depth == 0 && !m.isStatic
      && m.gas == tx.gas - IntrinsicGas(i.fork, tx) && m.storageAddress == m.codeAddress
      && match tx.to
         case None =>
           && m.isCreate && m.storageAddress == i.contractAddress(tx.sender, tx.nonce)
           && m.code == tx.data && m.data == []
         case Some(to) =>
           && !m.isCreate && m.storageAddress == to && m.code == Get(w, to).code && m.data == tx.data
  {
    BuyGasReads(i.fork, w, tx);
  }

  /** In every frame ORIGIN is the sender and GASPRICE the price of the transaction. */
  lemma RootContext(i: Interpreter, w: World, tx: Transaction)
    requires Valid(i.fork, w, tx)
    ensures RunTransaction(i, w, tx).s.context == TxContext(tx.sender, tx.gasPrice)
  {
    var s := BuyGas(Fresh(w, tx), tx);
    ApplyContext(i, s, BuildMessage(i, s.world, tx));
  }

  /** A creation at a taken address fails without running: all its gas is gone, nothing else changes. */
  lemma CollisionEffect(i: Interpreter, s: Sys, msg: Message)
    requires msg.isCreate
    requires Get(s.world, msg.storageAddress).nonce != 0 || Get(s.world, msg.storageAddress).code != []
    ensures
      var r := BuildComputation(i, s, msg);
      r.s == s && IsError(r.c) && GasRemaining(r.c) == 0 && r.c.children == []
  {
  }

  // --- Settlement ---

  /** 24000 gas for each account that was destroyed, on top of what was collected. */
  lemma {:induction false} DeletionRefund(c: Computation)
    requires !IsError(c)
    ensures GasRefund(WithDeletionRefund(c)) == GasRefund(c) + 24000 * |AccountsForDeletion(c)|
  {
  }

  /** Sender and miner are richer by their amounts, also when they are one account; no one else is. */
  lemma CreditReads(s: Sys, sender: Address, back: nat, coinbase: Address, fee: nat)
    requires !Credit(s, sender, back, coinbase, fee).fault
    ensures
      var v := Credit(s, sender, back, coinbase, fee).world;
      && OnlyBalancesDiffer(s.world, v)
      && forall a: Address ::
           Get(v, a).balance
           == Get(s.world, a).balance + (if a == sender then back else 0) + (if a == coinbase then fee else 0)
  {
    var paid := if back != 0 then DeltaBalance(s, sender, back) else s;
    DeltaReads(paid, coinbase, fee);
    if back != 0 {
      DeltaReads(s, sender, back);
    }
  }

  /** How one account ends: gone, or with its part of what is paid out and otherwise unchanged. */
  ghost predicate SettledAt(w: World, v: World, sender: Address, back: nat, coinbase: Address, fee: nat,
                            doomed: set<Address>, a: Address)
  {
    if a in doomed then a !in v
    else
      && Get(v, a).(balance := Get(w, a).balance) == Get(w, a)
      && Get(v, a).balance
         == Get(w, a).balance + (if a == sender then back else 0) + (if a == coinbase then fee else 0)
  }

  /**
   * From `w` to `v`: `doomed` accounts are gone, the sender has `back` more and the miner `fee`,
   * and every other balance and every other field is the same.
   */
  ghost predicate SettledAs(w: World, v: World, sender: Address, back: nat, coinbase: Address, fee: nat,
                            doomed: set<Address>)
  {
    forall a: Address :: SettledAt(w, v, sender, back, coinbase, fee, doomed, a)
  }

  lemma {:induction false} PurgedReads(
      w: World, s: Sys, c: Computation, sender: Address, back: nat, coinbase: Address, fee: nat)
    requires SettledAs(w, s.world, sender, back, coinbase, fee, {})
    ensures SettledAs(w, Purged(s, c).world, sender, back, coinbase, fee, AccountsForDeletion(c).Keys)
  {
    forall a: Address
      ensures SettledAt(w, Purged(s, c).world, sender, back, coinbase, fee, AccountsForDeletion(c).Keys, a)
    {
      assert SettledAt(w, s.world, sender, back, coinbase, fee, {}, a);
    }
  }

  lemma FinalizeReads(s: Sys, coinbase: Address, tx: Transaction, c: Computation)
    requires GasRemaining(c) <= tx.gas && !Finalize(s, coinbase, tx, c).s.fault
    ensures
      var end := Finalize(s, coinbase, tx, c);
      && end.c == WithDeletionRefund(c)
      && SettledAs(s.world, end.s.world, tx.sender, HandedBack(tx, end.c), coinbase, MinerFee(tx, end.c),
                   AccountsForDeletion(end.c).Keys)
  {
    var c1 := WithDeletionRefund(c);
    var back, fee := HandedBack(tx, c1), MinerFee(tx, c1);
    CreditReads(s, tx.sender, back, coinbase, fee);
    PurgedReads(s.world, Settle(s, coinbase, tx, c1), c1, tx.sender, back, coinbase, fee);
  }

  function Price(tx: Transaction, gas: nat): nat {
    gas * tx.gasPrice
  }

  lemma BackIs(tx: Transaction, c: Computation)
    requires GasRemaining(c) <= tx.gas
    ensures GasCharged(tx, c) <= tx.gas && HandedBack(tx, c) == Price(tx, tx.gas - GasCharged(tx, c))
    ensures MinerFee(tx, c) == Price(tx, GasCharged(tx, c))
  {
    assert tx.gas - GasCharged(tx, c) == GrantedRefund(tx, c) + GasRemaining(c);
  }

  /** The outcome of a settlement, in terms of the gas that is charged. */
  ghost predicate SettledFor(w: World, coinbase: Address, tx: Transaction, end: Outcome) {
    && GasRemaining(end.c) <= tx.gas && GasCharged(tx, end.c) <= tx.gas
    && SettledAs(w, end.s.world, tx.sender, Price(tx, tx.gas - GasCharged(tx, end.c)),
                 coinbase, Price(tx, GasCharged(tx, end.c)), AccountsForDeletion(end.c).Keys)
  }

  /**
   * Every account that is not deleted ends with what the run left it, the sender with the price of
   * the gas that was not charged and the miner with the price of the gas that was; deleted
   * accounts are gone.
   */
  lemma SettlementReads(s: Sys, coinbase: Address, tx: Transaction, c: Computation)
    requires GasRemaining(c) <= tx.gas && !Finalize(s, coinbase, tx, c).s.fault
    ensures SettledFor(s.world, coinbase, tx, Finalize(s, coinbase, tx, c))
  {
    FinalizeReads(s, coinbase, tx, c);
    BackIs(tx, WithDeletionRefund(c));
  }

  /** A valid transaction is its run, settled that way. */
  lemma TransactionReads(i: Interpreter, w: World, coinbase: Address, tx: Transaction)
    requires Valid(i.fork, w, tx) && !ExecuteTransaction(i, w, coinbase, tx).value.s.fault
    ensures SettledFor(RunTransaction(i, w, tx).s.world, coinbase, tx, ExecuteTransaction(i, w, coinbase, tx).value)
  {
    var run := RunTransaction(i, w, tx);
    SettlementReads(run.s, coinbase, tx, run.c);
  }

  // --- A plain payment ---

  /** After buying gas a valid sender can pay the value, so the message is accepted. */
  lemma MessageAccepted(i: Interpreter, w: World, tx: Transaction)
    requires Valid(i.fork, w, tx)
    ensures
      var s := BuyGas(Fresh(w, tx), tx);
      !Refused(s.world, BuildMessage(i, s.world, tx))
  {
    BuyGasReads(i.fork, w, tx);
  }

  /** The recipient's code stops before it has done anything, as empty code does. */
  ghost predicate Plain(i: Interpreter, w: World, tx: Transaction)
    requires Valid(i.fork, w, tx)
  {
    && tx.to.Some?
    && var s := BuyGas(Fresh(w, tx), tx);
       var msg := BuildMessage(i, s.world, tx);
       StopsAtOnce(i, Entered(s, msg), msg)
  }

  lemma PlainRun(i: Interpreter, w: World, tx: Transaction, s: Sys, msg: Message)
    requires Valid(i.fork, w, tx) && Plain(i, w, tx)
    requires s == BuyGas(Fresh(w, tx), tx) && msg == BuildMessage(i, s.world, tx)
    ensures RunTransaction(i, w, tx) == Outcome(Entered(s, msg), NewComputation(msg).(status := Succeeded))
  {
    MessageAccepted(i, w, tx);
    StoppingMessage(i, s, msg);
  }

  /** Nothing is used beyond the intrinsic gas and nothing is refunded or deleted. */
  lemma PlainCharge(fork: Fork, tx: Transaction, msg: Message)
    requires IntrinsicGas(fork, tx) <= tx.gas && msg.gas == tx.gas - IntrinsicGas(fork, tx)
    ensures
      var c := WithDeletionRefund(NewComputation(msg).(status := Succeeded));
      GasRemaining(c) == msg.gas && GasCharged(tx, c) == IntrinsicGas(fork, tx) && AccountsForDeletion(c) == map[]
  {
    var c := NewComputation(msg).(status := Succeeded);
    assert c.children == [] && ChildRefunds([]) == 0 && ChildDeletions([]) == map[];
    assert GasRefund(c) == 0 && AccountsForDeletion(c) == map[];
    assert WithDeletionRefund(c) == c;
  }

  lemma PriceSplits(tx: Transaction, gas: nat)
    requires gas <= tx.gas
    ensures GasFee(tx) == Price(tx, gas) + Price(tx, tx.gas - gas)
  {
    assert tx.gas * tx.gasPrice == gas * tx.gasPrice + (tx.gas - gas) * tx.gasPrice;
  }

  /** What a payment leaves: value and fee change hands, the sender's nonce goes up, nothing else. */
  ghost predicate Paid(w: World, v: World, tx: Transaction, to: Address, coinbase: Address, fee: nat) {
    forall a: Address ::
      && Get(v, a).code == Get(w, a).code && Get(v, a).storage == Get(w, a).storage
      && Get(v, a).nonce == Get(w, a).nonce + (if a == tx.sender then 1 else 0)
      && Get(v, a).balance
         == Get(w, a).balance - (if a == tx.sender then tx.value + fee else 0)
            + (if a == to then tx.value else 0) + (if a == coinbase then fee else 0)
  }

  /** The pieces, account by account. */
  lemma PaidInSteps(w: World, bought: World, entered: World, v: World, tx: Transaction, to: Address,
                    coinbase: Address, fee: nat, back: nat)
    requires OnlyAt(w, bought, tx.sender) && fee + back <= Get(w, tx.sender).balance
    requires Get(bought, tx.sender) == Get(w, tx.sender).(nonce := Get(w, tx.sender).nonce + 1,
                                                          balance := Get(w, tx.sender).balance - (fee + back))
    requires OnlyBalancesDiffer(bought, entered)
    requires forall a: Address ::
      Get(entered, a).balance
      == Get(bought, a).balance - (if a == tx.sender then tx.value else 0) + (if a == to then tx.value else 0)
    requires SettledAs(entered, v, tx.sender, back, coinbase, fee, {})
    ensures Paid(w, v, tx, to, coinbase, fee)
  {
    forall a: Address
      ensures
        && Get(v, a).code == Get(w, a).code && Get(v, a).storage == Get(w, a).storage
        && Get(v, a).nonce == Get(w, a).nonce + (if a == tx.sender then 1 else 0)
        && Get(v, a).balance
           == Get(w, a).balance - (if a == tx.sender then tx.value + fee else 0)
              + (if a == to then tx.value else 0) + (if a == coinbase then fee else 0)
    {
      assert Get(entered, a).(balance := Get(bought, a).balance) == Get(bought, a);
      assert SettledAt(entered, v, tx.sender, back, coinbase, fee, {}, a);
      if a != tx.sender {
        assert Get(bought, a) == Get(w, a);
      }
    }
  }

  /**
   * A payment to code that stops at once, whoever of sender, recipient and miner coincide: the
   * value goes from sender to recipient, the price of the intrinsic gas from sender to miner, the
   * sender's nonce goes up by one, and every other account and field is as before.
   */
  lemma PlainPayment(i: Interpreter, w: World, coinbase: Address, tx: Transaction)
    requires Valid(i.fork, w, tx) && Plain(i, w, tx) && !ExecuteTransaction(i, w, coinbase, tx).value.s.fault
    ensures Paid(w, ExecuteTransaction(i, w, coinbase, tx).value.s.world, tx, tx.to.value, coinbase,
                 Price(tx, IntrinsicGas(i.fork, tx)))
  {
    var s := BuyGas(Fresh(w, tx), tx);
    var msg := BuildMessage(i, s.world, tx);
    PlainRun(i, w, tx, s, msg);
    BuyGasReads(i.fork, w, tx);
    PlainPaid(i.fork, w, coinbase, tx, s, msg);
  }

  /** The same from the steps: gas bought, message entered, settled. */
  lemma PlainPaid(fork: Fork, w: World, coinbase: Address, tx: Transaction, s: Sys, msg: Message)
    requires IntrinsicGas(fork, tx) <= tx.gas && msg.gas == tx.gas - IntrinsicGas(fork, tx)
    requires tx.to.Some? && msg.sender == tx.sender && msg.value == tx.value && msg.transfersValue
    requires msg.storageAddress == tx.to.value
    requires OnlyAt(w, s.world, tx.sender) && GasFee(tx) <= Get(w, tx.sender).balance
    requires Get(s.world, tx.sender)
          == Get(w, tx.sender).(nonce := Get(w, tx.sender).nonce + 1, balance := Get(w, tx.sender).balance - GasFee(tx))
    requires !Finalize(Entered(s, msg), coinbase, tx, NewComputation(msg).(status := Succeeded)).s.fault
    ensures
      var end := Finalize(Entered(s, msg), coinbase, tx, NewComputation(msg).(status := Succeeded));
      Paid(w, end.s.world, tx, tx.to.value, coinbase, Price(tx, IntrinsicGas(fork, tx)))
  {
    var entered, c, gas := Entered(s, msg), NewComputation(msg).(status := Succeeded), IntrinsicGas(fork, tx);
    if entered.fault {
      FaultStays(entered, coinbase, tx, c);
    }
    var v, fee, back := Finalize(entered, coinbase, tx, c).s.world, Price(tx, gas), Price(tx, tx.gas - gas);
    PlainSettled(fork, coinbase, tx, msg, entered, v, fee, back);
    PriceSplits(tx, gas);
    PaidByMessage(w, s, msg, v, tx, coinbase, GasFee(tx), fee, back);
  }

  lemma PaidByMessage(w: World, s: Sys, msg: Message, v: World, tx: Transaction, coinbase: Address,
                      cost: nat, fee: nat, back: nat)
    requires tx.to.Some? && msg.sender == tx.sender && msg.value == tx.value && msg.transfersValue
    requires msg.storageAddress == tx.to.value && !Entered(s, msg).fault
    requires OnlyAt(w, s.world, tx.sender) && cost <= Get(w, tx.sender).balance && cost == fee + back
    requires Get(s.world, tx.sender)
          == Get(w, tx.sender).(nonce := Get(w, tx.sender).nonce + 1, balance := Get(w, tx.sender).balance - cost)
    requires SettledAs(Entered(s, msg).world, v, tx.sender, back, coinbase, fee, {})
    ensures Paid(w, v, tx, tx.to.value, coinbase, fee)
  {
    EntryEffect(s, msg);
    PaidInSteps(w, s.world, Entered(s, msg).world, v, tx, tx.to.value, coinbase, fee, back);
  }

  lemma PlainAmounts(fork: Fork, tx: Transaction, msg: Message)
    requires IntrinsicGas(fork, tx) <= tx.gas && msg.gas == tx.gas - IntrinsicGas(fork, tx)
    ensures
      var c := WithDeletionRefund(NewComputation(msg).(status := Succeeded));
      && GasRemaining(c) <= tx.gas && AccountsForDeletion(c).Keys == {}
      && HandedBack(tx, c) == Price(tx, tx.gas - IntrinsicGas(fork, tx))
      && MinerFee(tx, c) == Price(tx, IntrinsicGas(fork, tx))
  {
    PlainCharge(fork, tx, msg);
    BackIs(tx, WithDeletionRefund(NewComputation(msg).(status := Succeeded)));
  }

  lemma PlainSettled(fork: Fork, coinbase: Address, tx: Transaction, msg: Message, entered: Sys, v: World,
                     fee: nat, back: nat)
    requires IntrinsicGas(fork, tx) <= tx.gas && msg.gas == tx.gas - IntrinsicGas(fork, tx)
    requires !Finalize(entered, coinbase, tx, NewComputation(msg).(status := Succeeded)).s.fault
    requires v == Finalize(entered, coinbase, tx, NewComputation(msg).(status := Succeeded)).s.world
    requires fee == Price(tx, IntrinsicGas(fork, tx)) && back == Price(tx, tx.gas - IntrinsicGas(fork, tx))
    ensures SettledAs(entered.world, v, tx.sender, back, coinbase, fee, {})
  {
    PlainAmounts(fork, tx, msg);
    FinalizeReads(entered, coinbase, tx, NewComputation(msg).(status := Succeeded));
  }

  // --- No replay ---

  /** Once executed, a transaction is never valid again while its sender's account exists. */
  lemma NoReplay(i: Interpreter, w: World, coinbase: Address, tx: Transaction, fork: Fork)
    requires Valid(i.fork, w, tx) && !ExecuteTransaction(i, w, coinbase, tx).value.s.fault
    requires tx.sender !in AccountsForDeletion(ExecuteTransaction(i, w, coinbase, tx).value.c)
    ensures !Valid(fork, ExecuteTransaction(i, w, coinbase, tx).value.s.world, tx)
  {
    BuyGasReads(i.fork, w, tx);
    var s := BuyGas(Fresh(w, tx), tx);
    ApplyNonces(i, s, BuildMessage(i, s.world, tx));
    TransactionReads(i, w, coinbase, tx);
    NonceSettled(RunTransaction(i, w, tx).s.world, coinbase, tx, ExecuteTransaction(i, w, coinbase, tx).value);
  }

  lemma NonceSettled(w: World, coinbase: Address, tx: Transaction, end: Outcome)
    requires SettledFor(w, coinbase, tx, end) && tx.sender !in AccountsForDeletion(end.c)
    ensures Get(end.s.world, tx.sender).nonce == Get(w, tx.sender).nonce
  {
    var charge := GasCharged(tx, end.c);
    assert SettledAt(w, end.s.world, tx.sender, Price(tx, tx.gas - charge), coinbase, Price(tx, charge),
                     AccountsForDeletion(end.c).Keys, tx.sender);
  }
}
