/** The sum of all balances over every nested run. */
module Supply {
  import opened EvmTypes
  import opened Frames

  /** Half of the uint256 range: the supply below which no balance write can overflow. */
  const SAFE_SUPPLY: nat := UINT256_CEILING / 2

  ghost function TotalSupply(w: World): nat
    decreases |w|
  {
    if w == map[] then 0
    else
      var a: Address :| a in w;
      w[a].balance + TotalSupply(w - {a})
  }

  /** The supply does not depend on the order in which accounts are summed. */
  lemma {:induction false} SupplySplit(w: World, a: Address)
    requires a in w
    ensures TotalSupply(w) == w[a].balance + TotalSupply(w - {a})
    decreases |w|
  {
    var b: Address :| b in w && TotalSupply(w) == w[b].balance + TotalSupply(w - {b});
    if a != b {
      SupplySplit(w - {b}, a);
      SupplySplit(w - {a}, b);
      assert w - {b} - {a} == w - {a} - {b};
    }
  }

  lemma {:induction false} SupplyAt(w: World, a: Address)
    ensures TotalSupply(w) == Get(w, a).balance + TotalSupply(w - {a})
  {
    if a in w {
      SupplySplit(w, a);
    } else {
      assert w - {a} == w;
    }
  }

  lemma SupplyUpdate(w: World, a: Address, account: Account)
    ensures TotalSupply(w[a := account]) == TotalSupply(w) - Get(w, a).balance + account.balance
    ensures Get(w, a).balance <= TotalSupply(w)
  {
    SupplyAt(w, a);
    SupplyAt(w[a := account], a);
    assert w[a := account] - {a} == w - {a};
  }

  lemma {:induction false} TwoBalances(w: World, a: Address, b: Address)
    requires a != b
    ensures Get(w, a).balance + Get(w, b).balance <= TotalSupply(w)
  {
    SupplyAt(w, a);
    SupplyAt(w - {a}, b);
    assert Get(w - {a}, b) == Get(w, b);
  }

  /**
   * `to` follows from `from` without minting: nothing is created, nothing is lost unless an
   * account is scheduled for deletion, and a safe supply never faults.
   */
  ghost predicate Conserves(from: Sys, to: Sys) {
    && TotalSupply(to.world) <= TotalSupply(from.world)
    && (from.fault ==> to.fault)
    && (to.live.deletions == {} && !to.fault ==>
          from.live.deletions == {} && TotalSupply(to.world) == TotalSupply(from.world))
  }

  ghost predicate Safe(s: Sys) {
    !s.fault && TotalSupply(s.world) < SAFE_SUPPLY
  }

  lemma SetBalanceSupply(s: Sys, a: Address, balance: int)
    ensures
      var r := SetBalance(s, a, balance);
      && r.live == s.live
      && (0 <= balance < UINT256_CEILING ==>
            && r.fault == s.fault
            && TotalSupply(r.world) == TotalSupply(s.world) - Get(s.world, a).balance + balance
            && balance <= TotalSupply(r.world))
      && (!(0 <= balance < UINT256_CEILING) ==> r.fault && r.world == s.world)
    ensures Get(s.world, a).balance <= TotalSupply(s.world)
  {
    var r := SetBalance(s, a, balance);
    SupplyUpdate(s.world, a, Get(r.world, a));
    SupplyUpdate(r.world, a, Get(r.world, a));
  }

  lemma {:induction false} TouchSupply(w: World, a: Address)
    ensures TotalSupply(Touch(w, a)) == TotalSupply(w)
  {
    SupplyUpdate(w, a, Get(w, a));
  }

  lemma TransferConserves(s: Sys, msg: Message)
    requires !Unfunded(s.world, msg)
    ensures Conserves(s, Entered(s, msg))
    ensures Safe(s) ==> Safe(Entered(s, msg))
  {
    if msg.transfersValue && msg.value != 0 {
      PaymentConserves(s, msg.sender, msg.storageAddress, msg.value);
    }
    TouchSupply(Transfer(s, msg).world, msg.storageAddress);
  }

  /** A debit that the payer can afford, then the credit, which a safe supply never overflows. */
  lemma PaymentConserves(s: Sys, from: Address, to: Address, value: nat)
    requires value <= Get(s.world, from).balance
    ensures
      var r := DeltaBalance(DeltaBalance(s, from, -(value as int)), to, value);
      Conserves(s, r) && (Safe(s) ==> Safe(r))
  {
    var debited := DeltaBalance(s, from, -(value as int));
    SetBalanceSupply(s, from, Get(s.world, from).balance - value);
    SetBalanceSupply(debited, to, Get(debited.world, to).balance + value);
  }

  /** Only a contract that names itself loses its balance, and only it can be over-credited. */
  lemma MoveOutSupply(s: Sys, self: Address, beneficiary: Address)
    requires !s.fault && TotalSupply(s.world) < UINT256_CEILING
    ensures
      var r := MoveOut(s, self, beneficiary);
      && (r.fault <==> self == beneficiary && 2 * Get(s.world, self).balance >= UINT256_CEILING)
      && TotalSupply(r.world)
         == TotalSupply(s.world) - (if self == beneficiary then Get(s.world, self).balance else 0)
  {
    if self != beneficiary {
      MoveOutToOther(s, self, beneficiary);
    } else {
      MoveOutToSelf(s, self);
    }
  }

  lemma MoveOutToOther(s: Sys, self: Address, beneficiary: Address)
    requires !s.fault && TotalSupply(s.world) < UINT256_CEILING && self != beneficiary
    ensures
      var r := MoveOut(s, self, beneficiary);
      !r.fault && TotalSupply(r.world) == TotalSupply(s.world)
  {
    var total := Get(s.world, self).balance + Get(s.world, beneficiary).balance;
    TwoBalances(s.world, self, beneficiary);
    SetBalanceSupply(s, beneficiary, total);
    SetBalanceSupply(SetBalance(s, beneficiary, total), self, 0);
  }

  lemma MoveOutToSelf(s: Sys, self: Address)
    requires !s.fault
    ensures
      var r := MoveOut(s, self, self);
      && (r.fault <==> 2 * Get(s.world, self).balance >= UINT256_CEILING)
      && TotalSupply(r.world) == TotalSupply(s.world) - Get(s.world, self).balance
  {
    var twice := 2 * Get(s.world, self).balance;
    SetBalanceSupply(s, self, twice);
    SetBalanceSupply(SetBalance(s, self, twice), self, 0);
  }

  lemma MoveOutNeverMints(s: Sys, self: Address, beneficiary: Address)
    ensures TotalSupply(MoveOut(s, self, beneficiary).world) <= TotalSupply(s.world)
  {
    var credited :=
      SetBalance(s, beneficiary, Get(s.world, self).balance + Get(s.world, beneficiary).balance);
    SupplyUpdate(s.world, beneficiary, Get(credited.world, beneficiary));
    SupplyUpdate(credited.world, self, Get(credited.world, self).(balance := 0));
  }

  lemma SelfDestructConserves(fork: Fork, s: Sys, c: Computation, beneficiary: Address)
    ensures Conserves(s, DispatchSelfDestruct(fork, s, c, beneficiary).s)
    ensures Safe(s) ==> Safe(DispatchSelfDestruct(fork, s, c, beneficiary).s)
  {
    var self := c.msg.storageAddress;
    MoveOutNeverMints(s, self, beneficiary);
    if Safe(s) {
      MoveOutSupply(s, self, beneficiary);
      SupplyAt(s.world, self);
    }
  }

  lemma SstoreConserves(fork: Fork, s: Sys, c: Computation, slot: nat, value: nat, next: Local)
    ensures Conserves(s, DispatchSstore(fork, s, c, slot, value, next).s)
    ensures Safe(s) ==> Safe(DispatchSstore(fork, s, c, slot, value, next).s)
  {
    var self := c.msg.storageAddress;
    SupplyUpdate(s.world, self, Get(SetStorage(s.world, self, slot, value), self));
  }

  /** A message that CALL or CREATE sends is never refused. */
  lemma SpawnConserves(i: Interpreter, s: Sys, c: Computation, op: Op)
    requires c.status.Running? && (op.CallOp? || op.CreateOp?)
    ensures
      var r := if op.CallOp? then DispatchCall(i, s, c, op) else DispatchCreate(i, s, c, op);
      && Conserves(s, r.s)
      && (Safe(s) ==> Safe(r.s))
      && (r.Spawn? ==> !Refused(r.s.world, r.msg))
  {
    var self := c.msg.storageAddress;
    SupplyUpdate(s.world, self, Get(IncrementNonce(s.world, self), self));
  }

  lemma StepConserves(i: Interpreter, s: Sys, c: Computation)
    requires c.status.Running?
    ensures Conserves(s, Step(i, s, c).s)
    ensures Safe(s) ==> Safe(Step(i, s, c).s)
    ensures Step(i, s, c).Spawn? ==> !Refused(Step(i, s, c).s.world, Step(i, s, c).msg)
  {
    var op := i.decide(s.context, c.msg, c.local, s.world, c.gas);
    match op
    case Sstore(slot, value, next) => SstoreConserves(i.fork, s, c, slot, value, next);
    case SelfDestruct(beneficiary) => SelfDestructConserves(i.fork, s, c, beneficiary);
    case CallOp(_, _, _, _, _, _, _) => SpawnConserves(i, s, c, op);
    case CreateOp(_, _, _, _) => SpawnConserves(i, s, c, op);
    case _ =>
  }

  lemma DepositConserves(fork: Fork, s: Sys, c: Computation)
    requires DepositCode(fork, s, c).Keep?
    ensures Conserves(s, DepositCode(fork, s, c).s)
    ensures Safe(s) ==> Safe(DepositCode(fork, s, c).s)
  {
    var a := c.msg.storageAddress;
    SupplyUpdate(s.world, a, Get(SetCode(s.world, a, Output(c)), a));
  }

  /** The induction over the frame tree, along the gas. */
  lemma {:induction false} ExecuteConserves(i: Interpreter, s: Sys, c: Computation)
    ensures Conserves(s, Execute(i, s, c).s)
    ensures Safe(s) ==> Safe(Execute(i, s, c).s)
    decreases c.gas, 1
  {
    if c.status.Running? {
      StepConserves(i, s, c);
      match Step(i, s, c)
      case Done(s1, c1) =>
        if c1.status.Running? {
          ExecuteConserves(i, s1, c1);
        }
      case Spawn(s1, c1, msg) =>
        ApplyConserves(i, s1, msg);
        var child := Apply(i, s1, msg);
        ExecuteConserves(i, child.s, Absorb(i, c1, child.c));
    }
  }

  lemma {:induction false} ApplyMessageConserves(i: Interpreter, s: Sys, msg: Message)
    ensures Conserves(s, ApplyMessage(i, s, msg).s)
    ensures Safe(s) && !Refused(s.world, msg) ==> Safe(ApplyMessage(i, s, msg).s)
    decreases msg.gas, 2
  {
    if !Refused(s.world, msg) {
      TransferConserves(s, msg);
      ExecuteConserves(i, Entered(s, msg), NewComputation(msg));
    }
  }

  /**
   * For every interpreter, every state and every message, over all nested runs: the supply
   * never rises, it is unchanged when nothing is scheduled for deletion, and below half of
   * the uint256 range no exception ever escapes the frames.
   */
  lemma {:induction false} ApplyConserves(i: Interpreter, s: Sys, msg: Message)
    ensures Conserves(s, Apply(i, s, msg).s)
    ensures Safe(s) && !Refused(s.world, msg) ==> Safe(Apply(i, s, msg).s)
    decreases msg.gas, 4
  {
    if msg.isCreate && Eip161(i.fork) {
      var s1 := s.(world := IncrementNonce(s.world, msg.storageAddress));
      SupplyUpdate(s.world, msg.storageAddress, Get(s1.world, msg.storageAddress));
      ApplyMessageConserves(i, s1, msg);
      CreateConserves(i, s, s1, msg);
    } else {
      ApplyMessageConserves(i, s, msg);
      if msg.isCreate {
        CreateConserves(i, s, s, msg);
      }
    }
  }

  lemma {:induction false} CreateConserves(i: Interpreter, s: Sys, s1: Sys, msg: Message)
    requires s1 == if Eip161(i.fork) then s.(world := IncrementNonce(s.world, msg.storageAddress)) else s
    requires Conserves(s, s1) && Conserves(s1, ApplyMessage(i, s1, msg).s)
    requires Safe(s) && !Refused(s.world, msg) ==> Safe(ApplyMessage(i, s1, msg).s)
    ensures Conserves(s, ApplyCreateMessage(i, s, msg).s)
    ensures Safe(s) && !Refused(s.world, msg) ==> Safe(ApplyCreateMessage(i, s, msg).s)
  {
    var r := ApplyMessage(i, s1, msg);
    if !IsError(r.c) && DepositCode(i.fork, r.s, r.c).Keep? {
      DepositConserves(i.fork, r.s, r.c);
    }
  }
}
