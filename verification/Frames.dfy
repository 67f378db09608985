/**
 * The frame tree: opcodes that touch accounts, messages, contract creation. This is the
 * value-level semantics that the journaled machine is proved against.
 */
module Frames {
  import opened Prelude
  import opened EvmTypes
  import opened CallGas

  /** One dispatch either finishes by itself or waits for a child message. */
  datatype Dispatch =
    | Done(s: Sys, c: Computation)
    | Spawn(s: Sys, c: Computation, msg: Message)

  function Fail(s: Sys, c: Computation): Dispatch {
    Done(s, Raise(c))
  }

  function SstoreCost(current: nat, value: nat): nat {
    if current == 0 && value != 0 then GAS_SSET else GAS_SRESET
  }

  function SstoreRefund(current: nat, value: nat): nat {
    if current != 0 && value == 0 then REFUND_SCLEAR else 0
  }

  predicate WriteProtected(fork: Fork, c: Computation) {
    fork.Byzantium? && c.msg.isStatic
  }

  function DispatchSstore(fork: Fork, s: Sys, c: Computation, slot: nat, value: nat, next: Local): Dispatch {
    var current := GetStorage(s.world, c.msg.storageAddress, slot);
    var cost := SstoreCost(current, value);
    var refund := SstoreRefund(current, value);
    if WriteProtected(fork, c) || cost > c.gas then
      Fail(s, c)
    else
      Done(s.(world := SetStorage(s.world, c.msg.storageAddress, slot, value),
              live := s.live.(refund := s.live.refund + refund)),
           c.(gas := c.gas - cost, refunded := c.refunded + refund, local := next))
  }

  function LogCost(topics: seq<nat>, data: Bytes, memoryCost: nat): nat {
    GAS_LOG + GAS_LOGDATA * |data| + GAS_LOGTOPIC * |topics| + memoryCost
  }

  function DispatchLog(fork: Fork, s: Sys, c: Computation, op: Op): Dispatch
    requires op.Log?
  {
    var cost := LogCost(op.topics, op.data, op.memoryCost);
    if WriteProtected(fork, c) || cost > c.gas then
      Fail(s, c)
    else
      var entry := LogEntry(s.nextLog, c.msg.storageAddress, op.topics, op.data);
      Done(s.(nextLog := s.nextLog + 1, live := s.live.(logs := s.live.logs + [entry])),
           c.(gas := c.gas - cost, logs := c.logs + [entry], local := op.next))
  }

  function SelfDestructCost(fork: Fork, w: World, self: Address, beneficiary: Address): nat {
    if Eip161(fork) then
      GAS_SELFDESTRUCT_EIP150
      + (if IsDead(w, beneficiary) && Get(w, self).balance != 0 then GAS_SELFDESTRUCT_NEWACCOUNT else 0)
    else if Eip150(fork) then
      GAS_SELFDESTRUCT_EIP150 + (if beneficiary !in w then GAS_SELFDESTRUCT_NEWACCOUNT else 0)
    else
      0
  }

  function Credited(s: Sys, self: Address, beneficiary: Address): Sys {
    SetBalance(s, beneficiary, Get(s.world, self).balance + Get(s.world, beneficiary).balance)
  }

  /** The beneficiary is credited before the destroyed account is emptied. */
  function MoveOut(s: Sys, self: Address, beneficiary: Address): Sys {
    SetBalance(Credited(s, self, beneficiary), self, 0)
  }

  function DispatchSelfDestruct(fork: Fork, s: Sys, c: Computation, beneficiary: Address): Dispatch {
    var self := c.msg.storageAddress;
    var cost := SelfDestructCost(fork, s.world, self, beneficiary);
    if WriteProtected(fork, c) || cost > c.gas then
      Fail(s, c)
    else
      var s1 := MoveOut(s, self, beneficiary);
      Done(s1.(live := s1.live.(deletions := s1.live.deletions + {self})),
           c.(gas := c.gas - cost, deletions := c.deletions[self := beneficiary], status := Succeeded))
  }

  /** Operands a CALL-like opcode takes from the running frame rather than from the stack. */
  function CallValue(c: Computation, kind: CallKind, value: nat): nat {
    match kind
    case Call => value
    case CallCode => value
    case DelegateCall => c.msg.value
    case StaticCall => 0
  }

  function CallMessage(w: World, c: Computation, op: Op, gas: nat): Message
    requires op.CallOp?
  {
    var self := c.msg.storageAddress;
    var code := Get(w, op.target).code;
    var value := CallValue(c, op.kind, op.value);
    match op.kind
    case Call =>
      Message(gas, self, op.target, op.target, value, op.data, code, c.msg.depth + 1, false, true, c.msg.isStatic)
    case CallCode =>
      Message(gas, self, self, op.target, value, op.data, code, c.msg.depth + 1, false, true, c.msg.isStatic)
    case DelegateCall =>
      Message(gas, c.msg.sender, self, op.target, value, op.data, code, c.msg.depth + 1, false, false, c.msg.isStatic)
    case StaticCall =>
      Message(gas, self, op.target, op.target, value, op.data, code, c.msg.depth + 1, false, false, true)
  }

  /** Where the new-account charge looks: the account whose storage the child will use. */
  function CallTo(c: Computation, op: Op): Address
    requires op.CallOp?
  {
    if op.kind.Call? || op.kind.StaticCall? then op.target else c.msg.storageAddress
  }

  /** What the message costs a frame that has already paid for the opcode itself. */
  function MessageCharge(fork: Fork, w: World, c: Computation, op: Op): (r: Option<MessageGas>)
    requires op.CallOp?
    ensures r.Some? ==> r.value.child <= r.value.fee <= c.gas
  {
    var value := CallValue(c, op.kind, op.value);
    var extra := ExtraGas(fork, op.kind, w, CallTo(c, op), value);
    match ComputeMessageGas(fork, op.kind, c.gas, op.gas, extra, value)
    case None => None
    case Some(g) => if g.fee > c.gas then None else Some(g)
  }

  /** The charges of a CALL-like opcode: None when the gas does not suffice. */
  function CallCharge(fork: Fork, w: World, c: Computation, op: Op): (r: Option<MessageGas>)
    requires op.CallOp?
    ensures r.Some? ==>
              && r.value.fee <= c.gas
              && c.gas - r.value.fee + r.value.child < c.gas
  {
    var upfront := BaseCost(fork) + op.memoryCost;
    if upfront > c.gas then None
    else
      match MessageCharge(fork, w, c.(gas := c.gas - upfront), op)
      case None => None
      case Some(g) => Some(MessageGas(g.child, upfront + g.fee))
  }

  /** A call that has been paid for: send the message, or hand its gas back. */
  function AfterCharge(i: Interpreter, s: Sys, c: Computation, op: Op, childGas: nat): Dispatch
    requires op.CallOp?
  {
    var value := CallValue(c, op.kind, op.value);
    var transfers := op.kind.Call? || op.kind.CallCode?;
    var insufficientFunds := transfers && Get(s.world, c.msg.storageAddress).balance < value;
    var tooDeep := c.msg.depth + 1 > STACK_DEPTH_LIMIT;
    if insufficientFunds || tooDeep then
      Done(s, c.(gas := c.gas + childGas, local := i.resume(op.next, 0, [])))
    else
      Spawn(s, c.(local := op.next), CallMessage(s.world, c, op, childGas))
  }

  function DispatchCall(i: Interpreter, s: Sys, c: Computation, op: Op): (r: Dispatch)
    requires op.CallOp?
    requires c.status.Running?
    ensures Progress(c, r)
  {
    var value := CallValue(c, op.kind, op.value);
    if !Available(i.fork, op.kind) then Fail(s, c)
    else if op.kind.Call? && WriteProtected(i.fork, c) && value != 0 then Fail(s, c)
    else
      match CallCharge(i.fork, s.world, c, op)
      case None => Fail(s, c)
      case Some(g) => AfterCharge(i, s, c.(gas := c.gas - g.fee), op, g.child)
  }

  /** A creation whose nonce is used up: run the init code unless the address is taken. */
  function AfterNonce(i: Interpreter, s: Sys, c: Computation, op: Op, address: Address, childGas: nat): Dispatch
    requires op.CreateOp?
  {
    if HasCodeOrNonce(s.world, address) then
      Done(s, c.(local := i.resume(op.next, 0, c.local.returnData)))
    else
      Spawn(s, c.(local := op.next),
            Message(childGas, c.msg.storageAddress, address, address, op.value, [], op.initCode, c.msg.depth + 1,
                    true, true, false))
  }

  /** Sets the child's gas aside and uses up the nonce that gives the address. */
  function WithChildGas(i: Interpreter, s: Sys, c: Computation, op: Op): Dispatch
    requires op.CreateOp?
  {
    var self := c.msg.storageAddress;
    var childGas := if Eip150(i.fork) then MaxChildGas(c.gas) else c.gas;
    var address := i.contractAddress(self, Get(s.world, self).nonce);
    AfterNonce(i, s.(world := IncrementNonce(s.world, self)), c.(gas := c.gas - childGas), op, address, childGas)
  }

  /** A creation that has been paid for: set gas aside and use up the nonce, or give up. */
  function AfterCreateCharge(i: Interpreter, s: Sys, c: Computation, op: Op): Dispatch
    requires op.CreateOp?
  {
    var self := c.msg.storageAddress;
    var insufficientFunds := Get(s.world, self).balance < op.value;
    var tooDeep := c.msg.depth + 1 > STACK_DEPTH_LIMIT;
    if insufficientFunds || tooDeep then
      Done(s, c.(local := i.resume(op.next, 0, c.local.returnData)))
    else
      WithChildGas(i, s, c, op)
  }

  function DispatchCreate(i: Interpreter, s: Sys, c: Computation, op: Op): (r: Dispatch)
    requires op.CreateOp?
    requires c.status.Running?
    ensures Progress(c, r)
  {
    var upfront := GAS_CREATE + op.memoryCost;
    if WriteProtected(i.fork, c) || upfront > c.gas then Fail(s, c)
    else AfterCreateCharge(i, s, c.(gas := c.gas - upfront), op)
  }

  /** What one dispatch may do to the gas of a running frame. */
  predicate Progress(c: Computation, r: Dispatch) {
    && r.c.msg == c.msg
    && r.c.gas <= c.gas
    && (r.Done? && r.c.status.Running? ==> r.c.gas < c.gas)
    && (r.Spawn? ==> r.c.status.Running? && r.c.gas + r.msg.gas < c.gas)
  }

  /** Opcodes that touch neither accounts nor children. */
  function StepPlain(fork: Fork, s: Sys, c: Computation, op: Op): (r: Dispatch)
    requires c.status.Running?
    requires op.Other? || op.Fault? || op.Stop? || op.Return? || op.Revert?
    ensures Progress(c, r)
  {
    match op
    case Other(cost, next) =>
      if cost > c.gas then Fail(s, c) else Done(s, c.(gas := c.gas - cost, local := next))
    case Fault => Fail(s, c)
    case Stop => Done(s, c.(status := Succeeded))
    case Return(cost, output) =>
      if cost > c.gas then Fail(s, c)
      else Done(s, c.(gas := c.gas - cost, output := output, status := Succeeded))
    case Revert(cost, output) =>
      if !fork.Byzantium? || cost > c.gas then Fail(s, c)
      else Done(s, c.(gas := c.gas - cost, output := output, status := Failed(false)))
  }

  /** Opcodes that send no message. */
  function StepAlone(fork: Fork, s: Sys, c: Computation, op: Op): (r: Dispatch)
    requires c.status.Running? && !op.CallOp? && !op.CreateOp?
    ensures Progress(c, r) && r.Done?
  {
    if op.Sstore? then DispatchSstore(fork, s, c, op.slot, op.value, op.next)
    else if op.Log? then DispatchLog(fork, s, c, op)
    else if op.SelfDestruct? then DispatchSelfDestruct(fork, s, c, op.beneficiary)
    else StepPlain(fork, s, c, op)
  }

  /**
   * One opcode. Every dispatch ends the frame or leaves strictly less gas, and a child is
   * paid for: what parent and child hold together is strictly less than before.
   */
  function Step(i: Interpreter, s: Sys, c: Computation): (r: Dispatch)
    requires c.status.Running?
    ensures Progress(c, r)
  {
    var op := i.decide(s.context, c.msg, c.local, s.world, c.gas);
    match op
    case CallOp(_, _, _, _, _, _, _) => DispatchCall(i, s, c, op)
    case CreateOp(_, _, _, _) => DispatchCreate(i, s, c, op)
    case _ => StepAlone(i.fork, s, c, op)
  }

  /** What the parent finds as return data once the child is done. */
  function ChildReturnData(child: Computation): Bytes {
    if child.msg.isCreate && !IsError(child) then [] else Output(child)
  }

  /** The stack item a finished child leaves: a flag, or the address of the new contract. */
  function ChildResult(child: Computation): nat {
    if IsError(child) then 0
    else if child.msg.isCreate then child.msg.storageAddress
    else 1
  }

  function Absorb(i: Interpreter, c: Computation, child: Computation): Computation {
    c.(gas := c.gas + GasRemaining(child),
       children := c.children + [child],
       local := i.resume(c.local, ChildResult(child), ChildReturnData(child)))
  }

  function Transfer(s: Sys, msg: Message): Sys {
    if msg.transfersValue && msg.value != 0 then
      DeltaBalance(DeltaBalance(s, msg.sender, -(msg.value as int)), msg.storageAddress, msg.value)
    else
      s
  }

  predicate Unfunded(w: World, msg: Message) {
    msg.transfersValue && msg.value != 0 && Get(w, msg.sender).balance < msg.value
  }

  /** A message that apply_message refuses by raising outside of any frame. */
  predicate Refused(w: World, msg: Message) {
    msg.depth > STACK_DEPTH_LIMIT || Unfunded(w, msg)
  }

  function Entered(s: Sys, msg: Message): Sys {
    var moved := Transfer(s, msg);
    moved.(world := Touch(moved.world, msg.storageAddress))
  }

  function CodeDepositCost(code: Bytes): nat {
    |code| * GAS_CODEDEPOSIT
  }

  /** What contract creation still does after the init code has run without error. */
  datatype Deposit = Keep(s: Sys, c: Computation) | Reject(c: Computation)

  function DepositCode(fork: Fork, s: Sys, c: Computation): (r: Deposit)
    ensures r.c.msg == c.msg && r.c.gas <= c.gas
    ensures !IsError(c) && r.Keep? ==> !IsError(r.c)
    ensures r.Reject? ==> BurnsGas(r.c)
  {
    var code := Output(c);
    var cost := CodeDepositCost(code);
    if code == [] then Keep(s, c)
    else if Eip161(fork) && |code| >= EIP170_CODE_SIZE_LIMIT then
      Reject(c.(status := Failed(true)))
    else if cost > c.gas then
      if fork.Frontier? then Keep(s, c.(output := [])) else Reject(c.(status := Failed(true)))
    else
      Keep(s.(world := SetCode(s.world, c.msg.storageAddress, code)), c.(gas := c.gas - cost))
  }

  /** A finished child together with the state it leaves. */
  datatype Outcome = Outcome(s: Sys, c: Computation)

  ghost predicate Finished(msg: Message, r: Outcome) {
    r.c.msg == msg && !r.c.status.Running? && GasRemaining(r.c) <= msg.gas
  }

  /** Dispatch until the frame ends. The gas left in the frame is the termination measure. */
  function Execute(i: Interpreter, s: Sys, c: Computation): (r: Outcome)
    ensures r.c.msg == c.msg && !r.c.status.Running? && r.c.gas <= c.gas
    decreases c.gas, 1
  {
    if !c.status.Running? then Outcome(s, c)
    else
      match Step(i, s, c)
      case Done(s1, c1) =>
        if c1.status.Running? then Execute(i, s1, c1) else Outcome(s1, c1)
      case Spawn(s1, c1, msg) =>
        var child := Apply(i, s1, msg);
        Execute(i, child.s, Absorb(i, c1, child.c))
  }

  /** apply_message: transfer, touch, run, and keep the effects only on success. */
  function ApplyMessage(i: Interpreter, s: Sys, msg: Message): (r: Outcome)
    ensures Finished(msg, r)
    ensures r.c.gas <= msg.gas
    decreases msg.gas, 2
  {
    if Refused(s.world, msg) then
      Outcome(s.(fault := true), Raise(NewComputation(msg)))
    else
      var r := Execute(i, Entered(s, msg), NewComputation(msg));
      if IsError(r.c) then Outcome(Rollback(r.s, s), r.c) else r
  }

  /** The init code has run: deposit its code, or fail without undoing anything yet. */
  function AfterInit(fork: Fork, r: Outcome): Outcome {
    if IsError(r.c) then r
    else
      match DepositCode(fork, r.s, r.c)
      case Keep(s, c) => Outcome(s, c)
      case Reject(c) => Outcome(r.s, c)
  }

  /** EIP-161 gives a new contract the nonce 1 before its init code runs. */
  function WithNonce(fork: Fork, s: Sys, msg: Message): Sys {
    if Eip161(fork) then s.(world := IncrementNonce(s.world, msg.storageAddress)) else s
  }

  /** apply_create_message of every fork. */
  function ApplyCreateMessage(i: Interpreter, s: Sys, msg: Message): (r: Outcome)
    ensures Finished(msg, r)
    decreases msg.gas, 3
  {
    var r := AfterInit(i.fork, ApplyMessage(i, WithNonce(i.fork, s, msg), msg));
    if IsError(r.c) then Outcome(Rollback(r.s, s), r.c) else r
  }

  function Apply(i: Interpreter, s: Sys, msg: Message): (r: Outcome)
    ensures Finished(msg, r)
    decreases msg.gas, 4
  {
    if msg.isCreate then ApplyCreateMessage(i, s, msg) else ApplyMessage(i, s, msg)
  }
}
