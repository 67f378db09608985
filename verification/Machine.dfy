/**
 * The machine as the program runs it: frames that change step by step, over a journaled account
 * store with snapshots. Every method is proved against the value-level semantics.
 */
module Machine {
  import opened Prelude
  import opened EvmTypes
  import opened CallGas
  import opened Frames
  import Journal
  import opened AccountDb

  class GasMeter {
    var remaining: nat
    var refunded: nat

    constructor (startGas: nat)
      ensures remaining == startGas && refunded == 0
    {
      remaining, refunded := startGas, 0;
    }

    /** False is the OutOfGas exception; nothing is consumed then. */
    method Consume(amount: nat) returns (ok: bool)
      modifies this`remaining
      ensures ok == (amount <= old(remaining))
      ensures remaining == if ok then old(remaining) - amount else old(remaining)
    {
      ok := amount <= remaining;
      if ok {
        remaining := remaining - amount;
      }
    }

    method Return(amount: nat)
      modifies this`remaining
      ensures remaining == old(remaining) + amount
    {
      remaining := remaining + amount;
    }

    method Refund(amount: nat)
      modifies this`refunded
      ensures refunded == old(refunded) + amount
    {
      refunded := refunded + amount;
    }
  }

  /** A running computation. Children are finished and never change again. */
  class Frame {
    const msg: Message
    const meter: GasMeter
    var local: Local
    var logs: seq<LogEntry>
    var deletions: map<Address, Address>
    var children: seq<Computation>
    var status: Status
    var output: Bytes

    constructor (msg: Message)
      ensures Value() == NewComputation(msg) && fresh(meter)
    {
      this.msg := msg;
      meter := new GasMeter(msg.gas);
      local, logs, deletions, children := EMPTY_LOCAL, [], map[], [];
      status, output := Running, [];
    }

    function Value(): Computation
      reads this, meter
    {
      Computation(msg, local, meter.remaining, meter.refunded, logs, deletions, children, status, output)
    }

    /** Leaving the frame with a VMError: the gas that is left is consumed. */
    method Fail()
      modifies this`status, meter`remaining
      ensures Value() == Raise(old(Value()))
    {
      status := Failed(true);
      var _ := meter.Consume(meter.remaining);
    }

    /** A finished child: its gas comes back, its result goes to the stack. */
    method Absorbs(i: Interpreter, child: Computation)
      modifies this`children, this`local, meter`remaining
      ensures Value() == Absorb(i, old(Value()), child)
    {
      children := children + [child];
      local := i.resume(local, ChildResult(child), ChildReturnData(child));
      meter.Return(GasRemaining(child));
    }
  }

  /** A dispatch together with the child it may wait for. */
  function Complete(i: Interpreter, d: Dispatch): Outcome {
    match d
    case Done(s, c) => Outcome(s, c)
    case Spawn(s, c, msg) =>
      var child := Apply(i, s, msg);
      Outcome(child.s, Absorb(i, c, child.c))
  }

  class Vm {
    const i: Interpreter
    const accounts: AccountDB
    /** Of the transaction that is being executed. */
    var context: TxContext
    var nextLog: nat
    /** An exception that no frame handles was raised. */
    var fault: bool
    ghost var live: Substate

    constructor (i: Interpreter, context: TxContext, root: World)
      ensures Valid() && Abs() == Sys(context, root, 0, false, Substate([], 0, {}))
      ensures this.i == i && fresh(accounts) && fresh(accounts.journal) && fresh(accounts.journal.db)
    {
      this.i := i;
      accounts := new AccountDB(root);
      this.context, nextLog, fault, live := context, 0, false, Substate([], 0, {});
    }

    ghost predicate Valid()
      reads this, accounts, accounts.journal, accounts.journal.db
    {
      accounts.Valid()
    }

    ghost function Abs(): Sys
      reads this, accounts
    {
      Sys(context, accounts.world, nextLog, fault, live)
    }

    /** The trie stays, and of the changesets only the latest one is written to. */
    twostate predicate Nested()
      reads this, accounts, accounts.journal, accounts.journal.db
    {
      && accounts.journal.db.contents == old(accounts.journal.db.contents)
      && TopOnly(old(accounts.journal.sets), accounts.journal.sets)
    }

    method SetBalance(a: Address, balance: int)
      requires Valid()
      modifies this`fault, accounts`world, accounts.journal`sets, accounts.journal.db`cached
      ensures Valid() && Nested() && Abs() == EvmTypes.SetBalance(old(Abs()), a, balance)
    {
      var ok := accounts.SetBalance(a, balance);
      if !ok {
        fault := true;
      }
    }

    method DeltaBalance(a: Address, delta: int)
      requires Valid()
      modifies this`fault, accounts`world, accounts.journal`sets, accounts.journal.db`cached
      ensures Valid() && Nested() && Abs() == EvmTypes.DeltaBalance(old(Abs()), a, delta)
    {
      var account := accounts.GetAccount(a);
      SetBalance(a, account.balance + delta);
    }

    /** The charge for a storage write: false when it is not allowed or cannot be paid. */
    method ChargeSstore(frame: Frame, current: nat, value: nat) returns (ok: bool)
      requires frame.status.Running?
      modifies this`live, frame.meter
      ensures ok == !(WriteProtected(i.fork, old(frame.Value()))
                      || SstoreCost(current, value) > old(frame.meter.remaining))
      ensures ok ==>
        && frame.Value() == old(frame.Value()).(gas := old(frame.meter.remaining) - SstoreCost(current, value),
                                                refunded := old(frame.meter.refunded) + SstoreRefund(current, value))
        && live == old(live).(refund := old(live).refund + SstoreRefund(current, value))
      ensures !ok ==> live == old(live) && frame.Value() == old(frame.Value())
    {
      if i.fork.Byzantium? && frame.msg.isStatic {
        return false;
      }
      ok := frame.meter.Consume(if current == 0 && value != 0 then GAS_SSET else GAS_SRESET);
      if ok && current != 0 && value == 0 {
        frame.meter.Refund(REFUND_SCLEAR);
        live := live.(refund := live.refund + REFUND_SCLEAR);
      }
    }

    method StoreSlot(frame: Frame, slot: nat, value: nat, next: Local)
      requires Valid()
      modifies accounts`world, accounts.journal`sets, accounts.journal.db`cached, frame`local
      ensures Valid() && Nested() && frame.Value() == old(frame.Value()).(local := next)
      ensures Abs() == old(Abs()).(world :=
        EvmTypes.SetStorage(old(accounts.world), frame.msg.storageAddress, slot, value))
    {
      frame.local := next;
      accounts.SetStorage(frame.msg.storageAddress, slot, value);
    }

    method Sstore(frame: Frame, slot: nat, value: nat, next: Local)
      requires Valid() && frame.status.Running?
      modifies this`live, accounts`world, accounts.journal`sets, accounts.journal.db`cached, frame, frame.meter
      ensures Valid() && Nested()
      ensures Done(Abs(), frame.Value())
           == DispatchSstore(i.fork, old(Abs()), old(frame.Value()), slot, value, next)
    {
      var current := accounts.GetStorage(frame.msg.storageAddress, slot);
      var ok := ChargeSstore(frame, current, value);
      if ok {
        StoreSlot(frame, slot, value, next);
      } else {
        frame.Fail();
      }
    }

    method Log(frame: Frame, op: Op)
      requires Valid() && frame.status.Running? && op.Log?
      modifies this`live, this`nextLog, frame, frame.meter
      ensures Valid() && Nested()
      ensures Done(Abs(), frame.Value()) == DispatchLog(i.fork, old(Abs()), old(frame.Value()), op)
    {
      var charged := frame.meter.Consume(GAS_LOG);
      if !charged || (i.fork.Byzantium? && frame.msg.isStatic) {
        frame.Fail();
        return;
      }
      var ok := frame.meter.Consume(GAS_LOGDATA * |op.data| + GAS_LOGTOPIC * |op.topics| + op.memoryCost);
      if !ok {
        frame.Fail();
        return;
      }
      var entry := LogEntry(nextLog, frame.msg.storageAddress, op.topics, op.data);
      nextLog := nextLog + 1;
      frame.logs := frame.logs + [entry];
      live := live.(logs := live.logs + [entry]);
      frame.local := op.next;
    }

    method ComputeSelfDestructCost(self: Address, beneficiary: Address) returns (cost: nat)
      requires Valid()
      modifies accounts.journal.db`cached
      ensures Valid() && Nested()
      ensures cost == SelfDestructCost(i.fork, accounts.world, self, beneficiary)
    {
      cost := if Eip150(i.fork) then GAS_SELFDESTRUCT_EIP150 else 0;
      if Eip161(i.fork) {
        var own := accounts.GetAccount(self);
        var dead := accounts.IsDead(beneficiary);
        if dead && own.balance != 0 {
          cost := cost + GAS_SELFDESTRUCT_NEWACCOUNT;
        }
      } else if Eip150(i.fork) {
        var known := accounts.AccountExists(beneficiary);
        if !known {
          cost := cost + GAS_SELFDESTRUCT_NEWACCOUNT;
        }
      }
    }

    method CreditBeneficiary(self: Address, beneficiary: Address)
      requires Valid()
      modifies this`fault, accounts`world, accounts.journal`sets, accounts.journal.db`cached
      ensures Valid() && Nested()
      ensures Abs() == Credited(old(Abs()), self, beneficiary)
    {
      var own := accounts.GetAccount(self);
      var other := accounts.GetAccount(beneficiary);
      SetBalance(beneficiary, own.balance + other.balance);
    }

    method MoveBalance(self: Address, beneficiary: Address)
      requires Valid()
      modifies this`fault, accounts`world, accounts.journal`sets, accounts.journal.db`cached
      ensures Valid() && Nested() && Abs() == MoveOut(old(Abs()), self, beneficiary)
    {
      CreditBeneficiary(self, beneficiary);
      ghost var sets := accounts.journal.sets;
      SetBalance(self, 0);
      TopOnlyTwice(old(accounts.journal.sets), sets, accounts.journal.sets);
    }

    /** Moves the balance out and registers the account for deletion, which ends the frame. */
    method Destroy(frame: Frame, beneficiary: Address)
      requires Valid()
      modifies this`live, this`fault, accounts`world, accounts.journal`sets, accounts.journal.db`cached
      modifies frame`deletions, frame`status
      ensures Valid() && Nested()
      ensures
        var self := frame.msg.storageAddress;
        var s1 := MoveOut(old(Abs()), self, beneficiary);
        && Abs() == s1.(live := s1.live.(deletions := s1.live.deletions + {self}))
        && frame.deletions == old(frame.deletions)[self := beneficiary]
        && frame.status == Succeeded
    {
      var self := frame.msg.storageAddress;
      MoveBalance(self, beneficiary);
      frame.deletions := frame.deletions[self := beneficiary];
      live := live.(deletions := live.deletions + {self});
      frame.status := Succeeded;
    }

    method SelfDestruct(frame: Frame, beneficiary: Address)
      requires Valid() && frame.status.Running?
      modifies this`live, this`fault, accounts`world, accounts.journal`sets, accounts.journal.db`cached
      modifies frame, frame.meter
      ensures Valid() && Nested()
      ensures Done(Abs(), frame.Value())
           == DispatchSelfDestruct(i.fork, old(Abs()), old(frame.Value()), beneficiary)
    {
      var cost := ComputeSelfDestructCost(frame.msg.storageAddress, beneficiary);
      var ok := frame.meter.Consume(cost);
      if !ok || (i.fork.Byzantium? && frame.msg.isStatic) {
        frame.Fail();
      } else {
        Destroy(frame, beneficiary);
      }
    }

    /** The charge on top of the allowance: transfer and new-account fees. */
    method ComputeExtraGas(kind: CallKind, target: Address, value: nat) returns (extra: nat)
      requires Valid()
      modifies accounts.journal.db`cached
      ensures Valid() && Nested() && Abs() == old(Abs())
      ensures extra == ExtraGas(i.fork, kind, accounts.world, target, value)
    {
      extra := if value != 0 && !kind.DelegateCall? then GAS_CALLVALUE else 0;
      if kind.StaticCall? || (kind.Call? && Eip161(i.fork)) {
        var dead := accounts.IsDead(target);
        if dead && value != 0 {
          extra := extra + GAS_NEWACCOUNT;
        }
      } else if kind.Call? {
        var known := accounts.AccountExists(target);
        if !known {
          extra := extra + GAS_NEWACCOUNT;
        }
      }
    }

    /** Base cost, then memory; false when they cannot both be paid. */
    static method ChargeOpcode(frame: Frame, base: nat, memory: nat) returns (ok: bool)
      modifies frame.meter`remaining
      ensures ok == (base + memory <= old(frame.meter.remaining))
      ensures ok ==> frame.Value() == old(frame.Value()).(gas := old(frame.meter.remaining) - (base + memory))
    {
      ok := frame.meter.Consume(base);
      if ok {
        ok := frame.meter.Consume(memory);
      }
    }

    /** The message fee; None when it cannot be paid. */
    method ChargeMessage(frame: Frame, op: Op, value: nat) returns (g: Option<MessageGas>)
      requires Valid() && op.CallOp? && value == CallValue(frame.Value(), op.kind, op.value)
      modifies accounts.journal.db`cached, frame.meter`remaining
      ensures Valid() && Nested() && Abs() == old(Abs())
      ensures g == MessageCharge(i.fork, old(accounts.world), old(frame.Value()), op)
      ensures g.Some? ==> frame.meter.remaining == old(frame.meter.remaining) - g.value.fee
    {
      var to := if op.kind.Call? || op.kind.StaticCall? then op.target else frame.msg.storageAddress;
      var extra := ComputeExtraGas(op.kind, to, value);
      g := ComputeMessageGas(i.fork, op.kind, frame.meter.remaining, op.gas, extra, value);
      if g.Some? {
        var paid := frame.meter.Consume(g.value.fee);
        if !paid {
          g := None;
        }
      }
    }

    /** Base cost, memory and message fee; None when any of them cannot be paid. */
    method ChargeCall(frame: Frame, op: Op, value: nat) returns (g: Option<MessageGas>)
      requires Valid() && op.CallOp? && value == CallValue(frame.Value(), op.kind, op.value)
      modifies accounts.journal.db`cached, frame.meter`remaining
      ensures Valid() && Nested() && Abs() == old(Abs())
      ensures g == CallCharge(i.fork, old(accounts.world), old(frame.Value()), op)
      ensures g.Some? ==> frame.meter.remaining == old(frame.meter.remaining) - g.value.fee
    {
      var upfront := ChargeOpcode(frame, BaseCost(i.fork), op.memoryCost);
      if !upfront {
        return None;
      }
      g := ChargeMessage(frame, op, value);
      if g.Some? {
        g := Some(MessageGas(g.value.child, BaseCost(i.fork) + op.memoryCost + g.value.fee));
      }
    }

    method MakeCallMessage(frame: Frame, op: Op, value: nat, gas: nat) returns (msg: Message)
      requires Valid() && op.CallOp? && value == CallValue(frame.Value(), op.kind, op.value)
      modifies accounts.journal.db`cached
      ensures Valid() && Nested() && msg == CallMessage(accounts.world, frame.Value(), op, gas)
    {
      var self := frame.msg.storageAddress;
      var target := accounts.GetAccount(op.target);
      msg := Message(
        gas,
        if op.kind.DelegateCall? then frame.msg.sender else self,
        if op.kind.Call? || op.kind.StaticCall? then op.target else self,
        op.target, value, op.data, target.code, frame.msg.depth + 1, false,
        op.kind.Call? || op.kind.CallCode?,
        op.kind.StaticCall? || frame.msg.isStatic);
    }

    /** The checks that come before the charges: the opcode exists and may move value. */
    predicate CallAllowed(c: Computation, kind: CallKind, value: nat) {
      Available(i.fork, kind) && !(kind.Call? && WriteProtected(i.fork, c) && value != 0)
    }

    method CallOpcode(frame: Frame, op: Op)
      requires Valid() && frame.status.Running? && op.CallOp?
      modifies this, accounts, accounts.journal, accounts.journal.db, frame, frame.meter
      ensures Valid() && Nested()
      ensures Outcome(Abs(), frame.Value())
           == Complete(i, DispatchCall(i, old(Abs()), old(frame.Value()), op))
      decreases frame.meter.remaining, 0
    {
      var value := CallValue(frame.Value(), op.kind, op.value);
      if !CallAllowed(frame.Value(), op.kind, value) {
        frame.Fail();
        return;
      }
      ghost var s, c := Abs(), frame.Value();
      var charge := ChargeCall(frame, op, value);
      if charge.None? {
        frame.Fail();
        return;
      }
      StartCall(frame, op, value, charge.value.child);
      assert DispatchCall(i, s, c, op)
          == AfterCharge(i, s, c.(gas := c.gas - charge.value.fee), op, charge.value.child);
    }

    /** Once the call is paid for: send the message, or hand its gas back. */
    method StartCall(frame: Frame, op: Op, value: nat, childGas: nat)
      requires Valid() && frame.status.Running? && op.CallOp?
      requires value == CallValue(frame.Value(), op.kind, op.value)
      modifies this, accounts, accounts.journal, accounts.journal.db, frame, frame.meter
      ensures Valid() && Nested()
      ensures Outcome(Abs(), frame.Value())
           == Complete(i, AfterCharge(i, old(Abs()), old(frame.Value()), op, childGas))
      decreases childGas, 11
    {
      var own := accounts.GetAccount(frame.msg.storageAddress);
      var transfers := op.kind.Call? || op.kind.CallCode?;
      if (transfers && own.balance < value) || frame.msg.depth + 1 > STACK_DEPTH_LIMIT {
        frame.meter.Return(childGas);
        frame.local := i.resume(op.next, 0, []);
      } else {
        var msg := MakeCallMessage(frame, op, value, childGas);
        frame.local := op.next;
        RunChild(frame, msg);
      }
    }

    /** Base cost and memory of CREATE; false when it is not allowed or cannot be paid. */
    method ChargeCreate(frame: Frame, memory: nat) returns (ok: bool)
      modifies frame.meter`remaining
      ensures ok == !(WriteProtected(i.fork, old(frame.Value())) || GAS_CREATE + memory > old(frame.meter.remaining))
      ensures ok ==> frame.Value() == old(frame.Value()).(gas := old(frame.meter.remaining) - (GAS_CREATE + memory))
      ensures !ok ==> Raise(frame.Value()) == Raise(old(frame.Value()))
    {
      ok := false;
      if !(i.fork.Byzantium? && frame.msg.isStatic) {
        ok := ChargeOpcode(frame, GAS_CREATE, memory);
      }
    }

    method CreateOpcode(frame: Frame, op: Op)
      requires Valid() && frame.status.Running? && op.CreateOp?
      modifies this, accounts, accounts.journal, accounts.journal.db, frame, frame.meter
      ensures Valid() && Nested()
      ensures Outcome(Abs(), frame.Value())
           == Complete(i, DispatchCreate(i, old(Abs()), old(frame.Value()), op))
      decreases frame.meter.remaining, 0
    {
      var charged := ChargeCreate(frame, op.memoryCost);
      if charged {
        CreatePaid(frame, op);
      } else {
        frame.Fail();
      }
    }

    /** Once the opcode is paid for: go on unless funds are missing or the stack is too deep. */
    method CreatePaid(frame: Frame, op: Op)
      requires Valid() && frame.status.Running? && op.CreateOp?
      modifies this, accounts, accounts.journal, accounts.journal.db, frame, frame.meter
      ensures Valid() && Nested()
      ensures Outcome(Abs(), frame.Value())
           == Complete(i, AfterCreateCharge(i, old(Abs()), old(frame.Value()), op))
      decreases frame.meter.remaining, 13
    {
      var own := accounts.GetAccount(frame.msg.storageAddress);
      if own.balance < op.value || frame.msg.depth + 1 > STACK_DEPTH_LIMIT {
        frame.local := i.resume(op.next, 0, frame.local.returnData);
      } else {
        UseNonce(frame, op, own.nonce);
      }
    }

    /** Sets the child's gas aside and uses up the nonce that gives the address. */
    method UseNonce(frame: Frame, op: Op, nonce: nat)
      requires Valid() && frame.status.Running? && op.CreateOp?
      requires nonce == Get(accounts.world, frame.msg.storageAddress).nonce
      requires op.value <= Get(accounts.world, frame.msg.storageAddress).balance
      requires frame.msg.depth + 1 <= STACK_DEPTH_LIMIT
      modifies this, accounts, accounts.journal, accounts.journal.db, frame, frame.meter
      ensures Valid() && Nested()
      ensures Outcome(Abs(), frame.Value())
           == Complete(i, WithChildGas(i, old(Abs()), old(frame.Value()), op))
      decreases frame.meter.remaining, 12
    {
      ghost var s, c := Abs(), frame.Value();
      var address := i.contractAddress(frame.msg.storageAddress, nonce);
      var childGas := if Eip150(i.fork) then MaxChildGas(frame.meter.remaining) else frame.meter.remaining;
      SetAside(frame, childGas);
      assert WithChildGas(i, s, c, op) == AfterNonce(i, Abs(), frame.Value(), op, address, childGas);
      ghost var sets := accounts.journal.sets;
      StartCreate(frame, op, address, childGas);
      TopOnlyTwice(old(accounts.journal.sets), sets, accounts.journal.sets);
    }

    /** The child's gas leaves the frame, and the frame's account uses up a nonce. */
    method SetAside(frame: Frame, childGas: nat)
      requires Valid() && childGas <= frame.meter.remaining
      modifies accounts`world, accounts.journal`sets, accounts.journal.db`cached, frame.meter`remaining
      ensures Valid() && Nested() && frame.Value() == old(frame.Value()).(gas := old(frame.meter.remaining) - childGas)
      ensures Abs() == old(Abs()).(world :=
        EvmTypes.IncrementNonce(old(accounts.world), frame.msg.storageAddress))
    {
      var _ := frame.meter.Consume(childGas);
      accounts.IncrementNonce(frame.msg.storageAddress);
    }

    /** The nonce is used up: run the init code unless the address is taken. */
    method StartCreate(frame: Frame, op: Op, address: Address, childGas: nat)
      requires Valid() && frame.status.Running? && op.CreateOp?
      requires op.value <= Get(accounts.world, frame.msg.storageAddress).balance
      requires frame.msg.depth + 1 <= STACK_DEPTH_LIMIT
      modifies this, accounts, accounts.journal, accounts.journal.db, frame, frame.meter
      ensures Valid() && Nested()
      ensures Outcome(Abs(), frame.Value())
           == Complete(i, AfterNonce(i, old(Abs()), old(frame.Value()), op, address, childGas))
      decreases childGas, 11
    {
      var occupant := accounts.GetAccount(address);
      if occupant.nonce != 0 || occupant.code != [] {
        frame.local := i.resume(op.next, 0, frame.local.returnData);
      } else {
        frame.local := op.next;
        RunChild(frame, Message(childGas, frame.msg.storageAddress, address, address, op.value, [], op.initCode,
                                frame.msg.depth + 1, true, true, false));
      }
    }

    /** Runs a child message that the opcode has paid for and checked. */
    method RunChild(frame: Frame, msg: Message)
      requires Valid() && frame.status.Running? && !Refused(accounts.world, msg)
      modifies this, accounts, accounts.journal, accounts.journal.db, frame, frame.meter
      ensures Valid() && Nested()
      ensures Outcome(Abs(), frame.Value())
           == Complete(i, Spawn(old(Abs()), old(frame.Value()), msg))
      decreases msg.gas, 10
    {
      var child := ApplyAny(msg);
      frame.Absorbs(i, child.Value());
    }

    /** Opcodes that touch neither accounts nor children. */
    method DispatchPlain(frame: Frame, op: Op)
      requires frame.status.Running?
      requires op.Other? || op.Fault? || op.Stop? || op.Return? || op.Revert?
      modifies frame, frame.meter
      ensures Done(Abs(), frame.Value()) == StepPlain(i.fork, old(Abs()), old(frame.Value()), op)
    {
      var cost := if op.Other? then op.cost else if op.Return? || op.Revert? then op.memoryCost else 0;
      var ok := frame.meter.Consume(cost);
      if !ok || op.Fault? || (op.Revert? && !i.fork.Byzantium?) {
        frame.Fail();
        return;
      }
      if op.Other? {
        frame.local := op.next;
        return;
      }
      if op.Return? || op.Revert? {
        frame.output := op.output;
      }
      frame.status := if op.Revert? then Failed(false) else Succeeded;
    }

    /** Opcodes that need no child. */
    method DispatchAlone(frame: Frame, op: Op)
      requires Valid() && frame.status.Running? && !op.CallOp? && !op.CreateOp?
      modifies this`live, this`nextLog, this`fault, accounts`world, accounts.journal`sets, accounts.journal.db`cached
      modifies frame, frame.meter
      ensures Valid() && Nested()
      ensures Done(Abs(), frame.Value()) == StepAlone(i.fork, old(Abs()), old(frame.Value()), op)
    {
      if op.Sstore? {
        Sstore(frame, op.slot, op.value, op.next);
      } else if op.Log? {
        Log(frame, op);
      } else if op.SelfDestruct? {
        SelfDestruct(frame, op.beneficiary);
      } else {
        DispatchPlain(frame, op);
      }
    }

    /** One opcode of a running frame. */
    method DispatchNext(frame: Frame)
      requires Valid() && frame.status.Running?
      modifies this, accounts, accounts.journal, accounts.journal.db, frame, frame.meter
      ensures Valid() && Nested()
      ensures Outcome(Abs(), frame.Value()) == Complete(i, Step(i, old(Abs()), old(frame.Value())))
      decreases frame.meter.remaining, 1
    {
      var op := i.decide(context, frame.msg, frame.local, accounts.AllAccounts(), frame.meter.remaining);
      match op {
        case CallOp(_, _, _, _, _, _, _) => CallOpcode(frame, op);
        case CreateOp(_, _, _, _) => CreateOpcode(frame, op);
        case _ => DispatchAlone(frame, op);
      }
    }

    /** apply_computation: opcodes until the frame halts or fails. */
    method ApplyComputation(msg: Message) returns (frame: Frame)
      requires Valid()
      modifies this, accounts, accounts.journal, accounts.journal.db
      ensures Valid() && Nested() && fresh(frame) && fresh(frame.meter)
      ensures Outcome(Abs(), frame.Value()) == Execute(i, old(Abs()), NewComputation(msg))
      decreases msg.gas, 2
    {
      frame := new Frame(msg);
      while frame.status.Running?
        invariant Valid() && Nested() && fresh(frame) && fresh(frame.meter)
        invariant frame.meter.remaining <= msg.gas
        invariant Execute(i, Abs(), frame.Value()) == Execute(i, old(Abs()), NewComputation(msg))
        decreases frame.status.Running?, frame.meter.remaining
      {
        ghost var s, c := Abs(), frame.Value();
        label before:
        DispatchNext(frame);
        CompleteProgress(i, s, c);
        assert accounts.journal.db.contents == old@before(accounts.journal.db.contents);
      }
    }

    /** Transfer and touch; false when the sender cannot pay. */
    method Enter(msg: Message) returns (ok: bool)
      requires Valid()
      modifies this`fault, accounts`world, accounts.journal`sets, accounts.journal.db`cached
      ensures Valid() && Nested() && ok == !Unfunded(old(accounts.world), msg)
      ensures Abs() == if ok then Entered(old(Abs()), msg) else old(Abs())
    {
      if msg.transfersValue && msg.value != 0 {
        var sender := accounts.GetAccount(msg.sender);
        if sender.balance < msg.value {
          return false;
        }
        DeltaBalance(msg.sender, -(msg.value as int));
        DeltaBalance(msg.storageAddress, msg.value);
      }
      accounts.TouchAccount(msg.storageAddress);
      ok := true;
    }

    /** The latest changeset belongs to `snapshot`, which was taken over `sets`. */
    ghost predicate Over(snapshot: Snapshot, sets: AccountSets)
      reads this, accounts, accounts.journal, accounts.journal.db
    {
      && sets != []
      && snapshot.root == accounts.journal.db.contents
      && TopOnly(sets + [Journal.Labelled(snapshot.id, map[])], accounts.journal.sets)
    }

    /** Revert to the snapshot after an error, commit it otherwise. */
    method Leave(failed: bool, snapshot: Snapshot, ghost entry: Sys, ghost sets: AccountSets)
      requires Valid() && Over(snapshot, sets) && entry.world == Journal.Reads(snapshot.root, sets)
      modifies this`live, accounts`world, accounts.journal, accounts.journal.db
      ensures Valid() && accounts.journal.db.contents == snapshot.root && TopOnly(sets, accounts.journal.sets)
      ensures Abs() == if failed then Rollback(old(Abs()), entry) else old(Abs())
      ensures failed ==> accounts.journal.sets == sets
    {
      if failed {
        DiscardLatest(accounts.journal.Model(), snapshot.id, sets);
        var _ := accounts.Revert(snapshot);
        live := entry.live;
      } else {
        CommitLatest(accounts.journal.Model(), snapshot.id, sets);
        var _ := accounts.Commit(snapshot);
      }
    }

    /** Transfer, touch and run; null when the sender cannot pay. */
    method EnterAndRun(msg: Message) returns (frame: Frame?)
      requires Valid()
      modifies this, accounts, accounts.journal, accounts.journal.db
      ensures Valid() && (frame == null <==> Unfunded(old(accounts.world), msg))
      ensures frame == null ==> Abs() == old(Abs())
      ensures frame != null ==>
        && Nested() && fresh(frame) && fresh(frame.meter)
        && Outcome(Abs(), frame.Value()) == Execute(i, Entered(old(Abs()), msg), NewComputation(msg))
      decreases msg.gas, 3
    {
      var funded := Enter(msg);
      if !funded {
        return null;
      }
      frame := ApplyComputation(msg);
    }

    /** apply_message. Null stands for the exception raised when the message is refused. */
    method ApplyMessage(msg: Message) returns (frame: Frame?)
      requires Valid()
      modifies this, accounts, accounts.journal, accounts.journal.db
      ensures Valid() && (frame == null <==> Refused(old(accounts.world), msg))
      ensures frame != null ==>
        && Nested() && fresh(frame) && fresh(frame.meter)
        && Outcome(Abs(), frame.Value()) == Frames.ApplyMessage(i, old(Abs()), msg)
        && (IsError(frame.Value()) ==>
              accounts.world == old(accounts.world) && accounts.journal.sets == old(accounts.journal.sets))
      ensures frame == null ==> Abs() == old(Abs())
      decreases msg.gas, 4
    {
      ghost var entry, sets := Abs(), accounts.journal.sets;
      var snapshot := accounts.TakeSnapshot();
      if msg.depth > STACK_DEPTH_LIMIT {
        return null;
      }
      frame := EnterAndRun(msg);
      if frame != null {
        Leave(frame.status.Failed?, snapshot, entry, sets);
      }
    }

    /** Charges for the returned code and stores it; a creation may fail here. */
    method Deposit(frame: Frame)
      requires Valid() && frame.status.Succeeded?
      modifies accounts`world, accounts.journal`sets, accounts.journal.db`cached, frame, frame.meter
      ensures Valid() && Nested()
      ensures match DepositCode(i.fork, old(Abs()), old(frame.Value()))
              case Keep(s, c) => Abs() == s && frame.Value() == c
              case Reject(c) => Abs() == old(Abs()) && frame.Value() == c
    {
      if frame.output == [] {
        return;
      }
      if Eip161(i.fork) && |frame.output| >= EIP170_CODE_SIZE_LIMIT {
        frame.status := Failed(true);
        return;
      }
      var ok := frame.meter.Consume(|frame.output| * GAS_CODEDEPOSIT);
      if ok {
        accounts.SetCode(frame.msg.storageAddress, frame.output);
      } else if i.fork.Frontier? {
        frame.output := [];
      } else {
        frame.status := Failed(true);
      }
    }

    /**
     * Runs the init code and deposits what it returns; a failure is left for the caller to undo.
     * Null, here and below, stands for the exception raised when the message is refused.
     */
    method Initialise(msg: Message) returns (frame: Frame?)
      requires Valid()
      modifies this, accounts, accounts.journal, accounts.journal.db
      ensures Valid() && (frame == null <==> Refused(old(accounts.world), msg))
      ensures frame == null ==> Abs() == old(Abs())
      ensures frame != null ==>
        && Nested() && fresh(frame) && fresh(frame.meter)
        && Outcome(Abs(), frame.Value()) == AfterInit(i.fork, Frames.ApplyMessage(i, old(Abs()), msg))
        && (i.fork.Frontier? && IsError(frame.Value()) ==> accounts.journal.sets == old(accounts.journal.sets))
      decreases msg.gas, 5
    {
      frame := ApplyMessage(msg);
      if frame != null && !frame.status.Failed? {
        ghost var r, sets := Outcome(Abs(), frame.Value()), accounts.journal.sets;
        Deposit(frame);
        TopOnlyTwice(old(accounts.journal.sets), sets, accounts.journal.sets);
        assert AfterInit(i.fork, r) == Outcome(Abs(), frame.Value());
      }
    }

    /** The nonce that EIP-161 gives a new contract, then its init code. */
    method Populate(msg: Message) returns (frame: Frame?)
      requires Valid()
      modifies this, accounts, accounts.journal, accounts.journal.db
      ensures Valid() && (frame == null <==> Refused(old(accounts.world), msg))
      ensures frame == null ==> Abs() == WithNonce(i.fork, old(Abs()), msg)
      ensures frame != null ==>
        && Nested() && fresh(frame) && fresh(frame.meter)
        && Outcome(Abs(), frame.Value())
           == AfterInit(i.fork, Frames.ApplyMessage(i, WithNonce(i.fork, old(Abs()), msg), msg))
      decreases msg.gas, 6
    {
      if Eip161(i.fork) {
        accounts.IncrementNonce(msg.storageAddress);
      }
      frame := Initialise(msg);
    }

    /** From Homestead on an outer snapshot undoes a creation that fails. */
    method SnapshotCreate(msg: Message) returns (frame: Frame?)
      requires Valid()
      modifies this, accounts, accounts.journal, accounts.journal.db
      ensures Valid() && (frame == null <==> Refused(old(accounts.world), msg))
      ensures frame == null ==> Abs() == WithNonce(i.fork, old(Abs()), msg)
      ensures frame != null ==>
        && Nested() && fresh(frame) && fresh(frame.meter)
        && Outcome(Abs(), frame.Value()) == Frames.ApplyCreateMessage(i, old(Abs()), msg)
        && (IsError(frame.Value()) ==> accounts.journal.sets == old(accounts.journal.sets))
      decreases msg.gas, 7
    {
      ghost var entry, sets := Abs(), accounts.journal.sets;
      var snapshot := accounts.TakeSnapshot();
      frame := Populate(msg);
      if frame != null {
        Leave(frame.status.Failed?, snapshot, entry, sets);
      }
    }

    /** apply_create_message of every fork; Frontier takes no snapshot of its own. */
    method ApplyCreateMessage(msg: Message) returns (frame: Frame?)
      requires Valid()
      modifies this, accounts, accounts.journal, accounts.journal.db
      ensures Valid() && (frame == null <==> Refused(old(accounts.world), msg))
      ensures frame == null ==> Abs() == WithNonce(i.fork, old(Abs()), msg)
      ensures frame != null ==>
        && Nested() && fresh(frame) && fresh(frame.meter)
        && Outcome(Abs(), frame.Value()) == Frames.ApplyCreateMessage(i, old(Abs()), msg)
        && (IsError(frame.Value()) ==>
              accounts.world == old(accounts.world) && accounts.journal.sets == old(accounts.journal.sets))
      decreases msg.gas, 8
    {
      if i.fork.Frontier? {
        frame := Initialise(msg);
      } else {
        frame := SnapshotCreate(msg);
      }
    }

    /** A frame that fails leaves accounts and changesets as they were; any other keeps the ids. */
    method ApplyAny(msg: Message) returns (frame: Frame?)
      requires Valid()
      modifies this, accounts, accounts.journal, accounts.journal.db
      ensures Valid() && (frame == null <==> Refused(old(accounts.world), msg))
      ensures frame != null ==>
        && Nested() && fresh(frame) && fresh(frame.meter)
        && Outcome(Abs(), frame.Value()) == Apply(i, old(Abs()), msg)
        && (IsError(frame.Value()) ==>
              accounts.world == old(accounts.world) && accounts.journal.sets == old(accounts.journal.sets))
        && Ids(accounts.journal.sets) == Ids(old(accounts.journal.sets))
      decreases msg.gas, 9
    {
      if msg.isCreate {
        frame := ApplyCreateMessage(msg);
      } else {
        frame := ApplyMessage(msg);
      }
      if frame != null {
        TopOnlyIds(old(accounts.journal.sets), accounts.journal.sets);
      }
    }
  }

  /** A completed dispatch is one turn of the loop, and it uses gas up. */
  lemma {:induction false} CompleteProgress(i: Interpreter, s: Sys, c: Computation)
    requires c.status.Running?
    ensures
      var r := Complete(i, Step(i, s, c));
      && r.c.msg == c.msg && r.c.gas <= c.gas
      && (r.c.status.Running? ==> r.c.gas < c.gas)
      && Execute(i, r.s, r.c) == Execute(i, s, c)
  {
  }
}
