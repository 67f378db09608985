/**
 * What each operation leaves behind: which accounts, storage slots, logs and messages, read back
 * without the functions that wrote them, and what it costs.
 */
module Effects {
  import opened Prelude
  import opened EvmTypes
  import opened CallGas
  import opened Frames

  // --- Writes to one account ---

  /** All accounts read the same, except possibly this one. */
  ghost predicate OnlyAt(w: World, v: World, a: Address) {
    forall b: Address | b != a :: Get(v, b) == Get(w, b)
  }

  /** The account reads as before except for the field that is written. */
  lemma StorageReads(w: World, a: Address, slot: nat, value: nat)
    ensures
      var v := SetStorage(w, a, slot, value);
      && (forall b: Address, k: nat ::
            GetStorage(v, b, k) == if b == a && k == slot then value else GetStorage(w, b, k))
      && OnlyAt(w, v, a) && Get(v, a).(storage := Get(w, a).storage) == Get(w, a)
  {
  }

  lemma CodeReads(w: World, a: Address, code: Bytes)
    ensures
      var v := SetCode(w, a, code);
      OnlyAt(w, v, a) && Get(v, a).code == code && Get(v, a).(code := Get(w, a).code) == Get(w, a)
  {
  }

  lemma NonceReads(w: World, a: Address)
    ensures
      var v := IncrementNonce(w, a);
      && OnlyAt(w, v, a) && Get(v, a).nonce == Get(w, a).nonce + 1
      && Get(v, a).(nonce := Get(w, a).nonce) == Get(w, a)
  {
  }

  /** A balance in range is written, and nothing else; any other balance is refused. */
  lemma BalanceReads(s: Sys, a: Address, balance: int)
    ensures
      var r := SetBalance(s, a, balance);
      && r.live == s.live && r.nextLog == s.nextLog && r.context == s.context
      && (0 <= balance < UINT256_CEILING ==>
            && r.fault == s.fault && OnlyAt(s.world, r.world, a) && Get(r.world, a).balance == balance
            && Get(r.world, a).(balance := Get(s.world, a).balance) == Get(s.world, a))
      && (!(0 <= balance < UINT256_CEILING) ==> r.fault && r.world == s.world)
  {
  }

  // --- SSTORE, LOG, SELFDESTRUCT ---

  /** The frame is at this opcode. */
  ghost predicate Runs(i: Interpreter, s: Sys, c: Computation, op: Op) {
    c.status.Running? && i.decide(s.context, c.msg, c.local, s.world, c.gas) == op
  }

  /** The frame failed with all its gas gone, and nothing else happened. */
  ghost predicate Fails(s: Sys, c: Computation, r: Dispatch) {
    r == Done(s, c.(status := Failed(true), gas := 0))
  }

  /** Under Byzantium rules a static frame may not write. */
  predicate Forbidden(fork: Fork, c: Computation) {
    fork.Byzantium? && c.msg.isStatic
  }

  /**
   * SSTORE: the slot reads as the value afterwards, every other slot of every account as before;
   * 20000 gas from zero to non-zero and 5000 otherwise, 15000 refunded for clearing.
   */
  lemma SstoreEffect(i: Interpreter, s: Sys, c: Computation, slot: nat, value: nat, next: Local)
    requires Runs(i, s, c, Sstore(slot, value, next))
    ensures
      var r := Step(i, s, c);
      var self := c.msg.storageAddress;
      var current := GetStorage(s.world, self, slot);
      var cost := if current == 0 && value != 0 then 20000 else 5000;
      var refund := if current != 0 && value == 0 then 15000 else 0;
      if Forbidden(i.fork, c) || cost > c.gas then Fails(s, c, r)
      else
        && r.Done? && r.c == c.(gas := c.gas - cost, refunded := c.refunded + refund, local := next)
        && (forall b: Address, k: nat ::
              GetStorage(r.s.world, b, k) == if b == self && k == slot then value else GetStorage(s.world, b, k))
        && OnlyAt(s.world, r.s.world, self)
        && Get(r.s.world, self).(storage := Get(s.world, self).storage) == Get(s.world, self)
        && r.s.fault == s.fault && r.s.nextLog == s.nextLog
  {
    StorageReads(s.world, c.msg.storageAddress, slot, value);
  }

  /**
   * LOG: one entry, with the frame's account, the topics and the data given, numbered by the
   * shared counter; 375 gas, 8 a byte, 375 a topic, and the memory.
   */
  lemma LogEffect(i: Interpreter, s: Sys, c: Computation, op: Op)
    requires op.Log? && Runs(i, s, c, op)
    ensures
      var r := Step(i, s, c);
      var cost := 375 + 8 * |op.data| + 375 * |op.topics| + op.memoryCost;
      var entry := LogEntry(s.nextLog, c.msg.storageAddress, op.topics, op.data);
      if Forbidden(i.fork, c) || cost > c.gas then Fails(s, c, r)
      else
        && r.Done? && r.c == c.(gas := c.gas - cost, logs := c.logs + [entry], local := op.next)
        && r.s.world == s.world && r.s.nextLog == s.nextLog + 1 && r.s.fault == s.fault
        && r.s.live == s.live.(logs := s.live.logs + [entry])
  {
  }

  /** Missing, or without nonce, code and balance. */
  predicate Nobody(w: World, a: Address) {
    a !in w || (w[a].nonce == 0 && w[a].code == [] && w[a].balance == 0)
  }

  /** The beneficiary is richer by the whole balance, the account is empty, no one else changes. */
  lemma MoveOutReads(s: Sys, self: Address, beneficiary: Address)
    requires !MoveOut(s, self, beneficiary).fault
    ensures
      var w, v := s.world, MoveOut(s, self, beneficiary).world;
      && Get(v, self) == Get(w, self).(balance := 0)
      && (self != beneficiary ==>
            Get(v, beneficiary)
            == Get(w, beneficiary).(balance := Get(w, beneficiary).balance + Get(w, self).balance))
      && forall b: Address | b != self && b != beneficiary :: Get(v, b) == Get(w, b)
  {
  }

  /** SELFDESTRUCT: the balance moves, the account is registered, the frame ends well. */
  lemma SelfDestructEffect(i: Interpreter, s: Sys, c: Computation, beneficiary: Address)
    requires Runs(i, s, c, SelfDestruct(beneficiary)) && !s.fault
    ensures
      var r, fork, self := Step(i, s, c), i.fork, c.msg.storageAddress;
      var surcharge :=
        if fork.Frontier? || fork.Homestead? then 0
        else if fork.TangerineWhistle? then (if beneficiary !in s.world then 25000 else 0)
        else if Nobody(s.world, beneficiary) && Get(s.world, self).balance != 0 then 25000 else 0;
      var cost := (if fork.Frontier? || fork.Homestead? then 0 else 5000) + surcharge;
      if Forbidden(fork, c) || cost > c.gas then Fails(s, c, r)
      else
        && r.Done?
        && r.c == c.(gas := c.gas - cost, deletions := c.deletions[self := beneficiary], status := Succeeded)
        && r.s.nextLog == s.nextLog && r.s.live == s.live.(deletions := s.live.deletions + {self})
        && (!r.s.fault ==>
              var w, v := s.world, r.s.world;
              && Get(v, self) == Get(w, self).(balance := 0)
              && (self != beneficiary ==>
                    Get(v, beneficiary)
                    == Get(w, beneficiary).(balance := Get(w, beneficiary).balance + Get(w, self).balance))
              && forall b: Address | b != self && b != beneficiary :: Get(v, b) == Get(w, b))
  {
    var self := c.msg.storageAddress;
    if !MoveOut(s, self, beneficiary).fault {
      MoveOutReads(s, self, beneficiary);
    }
  }

  // --- RETURN, REVERT, STOP ---

  /** RETURN and REVERT hand over the output; REVERT keeps the gas that is left although it fails. */
  lemma HaltEffect(i: Interpreter, s: Sys, c: Computation, op: Op)
    requires Runs(i, s, c, op) && (op.Stop? || op.Return? || op.Revert?)
    ensures
      var r := Step(i, s, c);
      match op
      case Stop => r == Done(s, c.(status := Succeeded))
      case Return(cost, output) =>
        if cost > c.gas then Fails(s, c, r)
        else r.Done? && r.s == s && r.c == c.(gas := c.gas - cost, output := output, status := Succeeded)
      case Revert(cost, output) =>
        if !i.fork.Byzantium? || cost > c.gas then Fails(s, c, r)
        else r.Done? && r.s == s && IsError(r.c) && GasRemaining(r.c) == c.gas - cost && Output(r.c) == output
      case _ => true
  {
  }

  /** Any other opcode is charged for and changes the frame's local state only. */
  lemma OtherEffect(i: Interpreter, s: Sys, c: Computation, cost: Positive, next: Local)
    requires Runs(i, s, c, Other(cost, next))
    ensures
      var r := Step(i, s, c);
      if cost > c.gas then Fails(s, c, r) else r == Done(s, c.(gas := c.gas - cost, local := next))
  {
  }

  /** An opcode that raises of its own accord fails the frame. */
  lemma FaultEffect(i: Interpreter, s: Sys, c: Computation)
    requires Runs(i, s, c, Fault)
    ensures Fails(s, c, Step(i, s, c))
  {
  }

  /** Every other failure returns neither gas nor output. */
  lemma FailureEffect(c: Computation)
    ensures IsError(Raise(c)) && GasRemaining(Raise(c)) == 0 && Output(Raise(c)) == []
  {
  }

  // --- Messages of the CALL family ---

  /** The child that a frame with message `parent` sends by each kind of call. */
  ghost predicate Sends(parent: Message, kind: CallKind, target: Address, value: nat, child: Message) {
    && child.depth == parent.depth + 1 && !child.isCreate && child.codeAddress == target
    && match kind
       case Call =>
         && child.sender == parent.storageAddress && child.storageAddress == target
         && child.value == value && child.transfersValue && child.isStatic == parent.isStatic
       case CallCode =>
         && child.sender == parent.storageAddress && child.storageAddress == parent.storageAddress
         && child.value == value && child.transfersValue && child.isStatic == parent.isStatic
       case DelegateCall =>
         && child.sender == parent.sender && child.storageAddress == parent.storageAddress
         && child.value == parent.value && !child.transfersValue && child.isStatic == parent.isStatic
       case StaticCall =>
         && child.sender == parent.storageAddress && child.storageAddress == target
         && child.value == 0 && !child.transfersValue && child.isStatic
  }

  /** What the kind of call asks for beyond its base cost and the gas it passes on. */
  function Surcharge(fork: Fork, kind: CallKind, w: World, target: Address, value: nat): nat {
    if kind.DelegateCall? || kind.StaticCall? then 0
    else
      (if value != 0 then 9000 else 0)
      + (if kind.CallCode? then 0
         else if fork.SpuriousDragon? || fork.Byzantium? then (if Nobody(w, target) && value != 0 then 25000 else 0)
         else if target !in w then 25000 else 0)
  }

  /** The gas that leaves the frame for the child, before the stipend. */
  function PassedOn(fork: Fork, left: nat, gas: nat): nat {
    if fork.Frontier? || fork.Homestead? then gas
    else if gas <= left - left / 64 then gas else left - left / 64
  }

  ghost predicate Offered(fork: Fork, kind: CallKind) {
    match kind
    case Call => true
    case CallCode => true
    case DelegateCall => !fork.Frontier?
    case StaticCall => fork.Byzantium?
  }

  /** The value a kind of call names. */
  function ValueOf(c: Computation, op: Op): nat
    requires op.CallOp?
  {
    if op.kind.DelegateCall? then c.msg.value else if op.kind.StaticCall? then 0 else op.value
  }

  /** Base cost, memory and surcharges. */
  function FixedCost(fork: Fork, w: World, c: Computation, op: Op): nat
    requires op.CallOp?
  {
    (if fork.Frontier? || fork.Homestead? then 40 else 700) + op.memoryCost
    + Surcharge(fork, op.kind, w, op.target, ValueOf(c, op))
  }

  function StipendOf(c: Computation, op: Op): nat
    requires op.CallOp?
  {
    if (op.kind.Call? || op.kind.CallCode?) && op.value != 0 then 2300 else 0
  }

  lemma SurchargeIs(fork: Fork, w: World, c: Computation, op: Op)
    requires op.CallOp?
    ensures ExtraGas(fork, op.kind, w, CallTo(c, op), CallValue(c, op.kind, op.value))
         == Surcharge(fork, op.kind, w, op.target, ValueOf(c, op))
  {
  }

  /** What a child gets and its parent pays, given the gas at hand and the charges still to come. */
  function Charged(fork: Fork, gas: nat, charges: nat, asked: nat, stipend: nat): Option<MessageGas> {
    var passed := if charges <= gas then PassedOn(fork, gas - charges, asked) else 0;
    if charges + passed > gas then None else Some(MessageGas(passed + stipend, charges + passed))
  }

  lemma MessageCost(fork: Fork, w: World, c: Computation, op: Op, extra: nat)
    requires op.CallOp? && extra == ExtraGas(fork, op.kind, w, CallTo(c, op), CallValue(c, op.kind, op.value))
    ensures MessageCharge(fork, w, c, op) == Charged(fork, c.gas, extra, op.gas, StipendOf(c, op))
  {
  }

  /** Paying the opcode first and the message from what is left comes to the same. */
  lemma ChargedInTwo(fork: Fork, gas: nat, upfront: nat, extra: nat, asked: nat, stipend: nat)
    requires upfront <= gas
    ensures
      var rest := Charged(fork, gas - upfront, extra, asked, stipend);
      Charged(fork, gas, upfront + extra, asked, stipend)
      == if rest.None? then None else Some(MessageGas(rest.value.child, upfront + rest.value.fee))
  {
    assert (gas - upfront) - extra == gas - (upfront + extra);
  }

  /**
   * A call is paid for exactly when the gas covers the fixed charges and what is passed on; the
   * child gets that and, with value, the stipend of 2300.
   */
  lemma CallCost(fork: Fork, w: World, c: Computation, op: Op)
    requires op.CallOp?
    ensures CallCharge(fork, w, c, op)
         == Charged(fork, c.gas, FixedCost(fork, w, c, op), op.gas, StipendOf(c, op))
  {
    var upfront, extra := BaseCost(fork) + op.memoryCost, Surcharge(fork, op.kind, w, op.target, ValueOf(c, op));
    assert FixedCost(fork, w, c, op) == upfront + extra;
    if upfront <= c.gas {
      PaidInTwo(fork, w, c, op, upfront, extra);
      ChargedInTwo(fork, c.gas, upfront, extra, op.gas, StipendOf(c, op));
    }
  }

  lemma PaidInTwo(fork: Fork, w: World, c: Computation, op: Op, upfront: nat, extra: nat)
    requires op.CallOp? && upfront == BaseCost(fork) + op.memoryCost <= c.gas
    requires extra == Surcharge(fork, op.kind, w, op.target, ValueOf(c, op))
    ensures
      var rest := Charged(fork, c.gas - upfront, extra, op.gas, StipendOf(c, op));
      CallCharge(fork, w, c, op)
      == if rest.None? then None else Some(MessageGas(rest.value.child, upfront + rest.value.fee))
  {
    var c1 := c.(gas := c.gas - upfront);
    SurchargeIs(fork, w, c1, op);
    MessageCost(fork, w, c1, op, extra);
    AfterUpfront(fork, w, c, op, upfront);
  }

  lemma AfterUpfront(fork: Fork, w: World, c: Computation, op: Op, upfront: nat)
    requires op.CallOp? && upfront == BaseCost(fork) + op.memoryCost <= c.gas
    ensures
      var rest := MessageCharge(fork, w, c.(gas := c.gas - upfront), op);
      CallCharge(fork, w, c, op)
      == if rest.None? then None else Some(MessageGas(rest.value.child, upfront + rest.value.fee))
  {
  }

  /** The frame is one that may use the opcode at all. */
  ghost predicate MayCall(fork: Fork, c: Computation, op: Op)
    requires op.CallOp?
  {
    Offered(fork, op.kind) && !(op.kind.Call? && Forbidden(fork, c) && op.value != 0)
  }

  /** Too poor for the value it would transfer, or too deep. */
  ghost predicate CannotSend(s: Sys, c: Computation, op: Op)
    requires op.CallOp?
  {
    || ((op.kind.Call? || op.kind.CallCode?) && Get(s.world, c.msg.storageAddress).balance < op.value)
    || c.msg.depth + 1 > 1024
  }

  /**
   * CALL, CALLCODE, DELEGATECALL and STATICCALL: it fails when it is not offered, not allowed or
   * not paid for; a call that cannot be sent gets the child's gas back, stipend included, and a
   * zero; any other sends exactly the message of its kind, with the target's code and the data.
   */
  lemma CallEffect(i: Interpreter, s: Sys, c: Computation, op: Op)
    requires op.CallOp? && Runs(i, s, c, op)
    ensures
      var r := Step(i, s, c);
      var charge := CallCharge(i.fork, s.world, c, op);
      if !MayCall(i.fork, c, op) || charge.None? then Fails(s, c, r)
      else if CannotSend(s, c, op) then
        r == Done(s, c.(gas := c.gas - charge.value.fee + charge.value.child, local := i.resume(op.next, 0, [])))
      else
        && r.Spawn? && r.s == s && r.c == c.(gas := c.gas - charge.value.fee, local := op.next)
        && Sends(c.msg, op.kind, op.target, op.value, r.msg)
        && r.msg.gas == charge.value.child && r.msg.data == op.data && r.msg.code == Get(s.world, op.target).code
  {
  }

  // --- CREATE ---

  /**
   * CREATE: 32000 gas and the memory; when funds or depth do not allow it, a zero and nothing
   * else; otherwise the creator's nonce goes up by one and gives the address, all the gas (from
   * EIP-150 on, all but a 64th) leaves the frame, and unless the address is taken the init code
   * runs there with the value and no data.
   */
  lemma CreateEffect(i: Interpreter, s: Sys, c: Computation, op: Op)
    requires op.CreateOp? && Runs(i, s, c, op)
    ensures
      var r := Step(i, s, c);
      var self := c.msg.storageAddress;
      var cost := 32000 + op.memoryCost;
      if Forbidden(i.fork, c) || cost > c.gas then Fails(s, c, r)
      else
        var left := c.gas - cost;
        var refused := c.(gas := left, local := i.resume(op.next, 0, c.local.returnData));
        if Get(s.world, self).balance < op.value || c.msg.depth + 1 > 1024 then r == Done(s, refused)
        else
          var passed := if i.fork.Frontier? || i.fork.Homestead? then left else left - left / 64;
          var address := i.contractAddress(self, Get(s.world, self).nonce);
          && OnlyAt(s.world, r.s.world, self)
          && Get(r.s.world, self) == Get(s.world, self).(nonce := Get(s.world, self).nonce + 1)
          && r.s == s.(world := r.s.world)
          && if Get(r.s.world, address).nonce != 0 || Get(r.s.world, address).code != [] then
               r == Done(r.s, refused.(gas := left - passed))
             else
               && r.Spawn? && r.c == c.(gas := left - passed, local := op.next)
               && r.msg == Message(passed, self, address, address, op.value, [], op.initCode, c.msg.depth + 1,
                                   true, true, false)
  {
    NonceReads(s.world, c.msg.storageAddress);
  }

  // --- What the parent finds ---

  /** Gas that is left comes back; the stack gets 0 for an error, the address for a creation, else 1. */
  lemma AbsorbEffect(i: Interpreter, c: Computation, child: Computation)
    ensures
      var r := Absorb(i, c, child);
      var flag := if IsError(child) then 0 else if child.msg.isCreate then child.msg.storageAddress else 1;
      var data := if BurnsGas(child) || (child.msg.isCreate && !IsError(child)) then [] else child.output;
      r == c.(gas := c.gas + (if BurnsGas(child) then 0 else child.gas),
              children := c.children + [child], local := i.resume(c.local, flag, data))
  {
  }

  // --- Entering a frame ---

  /** Everything but the balance of each account is the same. */
  ghost predicate OnlyBalancesDiffer(w: World, v: World) {
    forall a: Address :: Get(v, a).(balance := Get(w, a).balance) == Get(w, a)
  }

  /** A change of balance that is not refused shows in one account and nowhere else. */
  lemma DeltaReads(s: Sys, a: Address, delta: int)
    requires !DeltaBalance(s, a, delta).fault
    ensures
      var v := DeltaBalance(s, a, delta).world;
      && OnlyBalancesDiffer(s.world, v) && !s.fault
      && forall b: Address :: Get(v, b).balance == Get(s.world, b).balance + (if b == a then delta else 0)
  {
  }

  /** What a message moves. */
  function ValueMoved(msg: Message): nat {
    if msg.transfersValue then msg.value else 0
  }

  /**
   * On entry the sender has the value less and the recipient the value more, also when the two
   * are one account; every other balance and every other field reads as before, and the
   * recipient exists.
   */
  lemma EntryEffect(s: Sys, msg: Message)
    requires !Entered(s, msg).fault
    ensures
      var v := Entered(s, msg).world;
      && OnlyBalancesDiffer(s.world, v) && msg.storageAddress in v
      && forall a: Address ::
           Get(v, a).balance
           == Get(s.world, a).balance - (if a == msg.sender then ValueMoved(msg) else 0)
              + (if a == msg.storageAddress then ValueMoved(msg) else 0)
  {
    if msg.transfersValue && msg.value != 0 {
      DeltaReads(DeltaBalance(s, msg.sender, -(msg.value as int)), msg.storageAddress, msg.value);
      DeltaReads(s, msg.sender, -(msg.value as int));
    }
  }

  /** The frame's code stops before it has done anything. */
  ghost predicate StopsAtOnce(i: Interpreter, s: Sys, msg: Message) {
    i.decide(s.context, msg, EMPTY_LOCAL, s.world, msg.gas) == Stop
  }

  /** A message to code that stops at once does nothing but the transfer, and keeps its gas. */
  lemma {:induction false} StoppingMessage(i: Interpreter, s: Sys, msg: Message)
    requires !msg.isCreate && !Refused(s.world, msg) && StopsAtOnce(i, Entered(s, msg), msg)
    ensures
      var r := Apply(i, s, msg);
      r.s == Entered(s, msg) && !IsError(r.c) && GasRemaining(r.c) == msg.gas
      && r.c == NewComputation(msg).(status := Succeeded)
  {
    var entered, c := Entered(s, msg), NewComputation(msg);
    assert Step(i, entered, c) == Done(entered, c.(status := Succeeded));
    assert Execute(i, entered, c) == Outcome(entered, c.(status := Succeeded));
  }

  /** So A pays B: the recipient has the value more, the sender the value less, all else is the same. */
  lemma {:induction false} PaymentEffect(i: Interpreter, s: Sys, msg: Message)
    requires !msg.isCreate && !Refused(s.world, msg) && StopsAtOnce(i, Entered(s, msg), msg)
    requires msg.transfersValue && msg.sender != msg.storageAddress && !Apply(i, s, msg).s.fault
    ensures
      var w, v := s.world, Apply(i, s, msg).s.world;
      && Get(v, msg.sender) == Get(w, msg.sender).(balance := Get(v, msg.sender).balance)
      && Get(v, msg.sender).balance == Get(w, msg.sender).balance - msg.value
      && Get(v, msg.storageAddress) == Get(w, msg.storageAddress).(balance := Get(v, msg.storageAddress).balance)
      && Get(v, msg.storageAddress).balance == Get(w, msg.storageAddress).balance + msg.value
      && forall a: Address | a != msg.sender && a != msg.storageAddress :: Get(v, a) == Get(w, a)
  {
    StoppingMessage(i, s, msg);
    EntryEffect(s, msg);
  }

  /** A frame that fails leaves accounts and substate exactly as it found them. */
  lemma {:induction false} FailedFrame(i: Interpreter, s: Sys, msg: Message)
    requires IsError(Apply(i, s, msg).c)
    ensures Apply(i, s, msg).s.world == s.world && Apply(i, s, msg).s.live == s.live
  {
  }

  // --- Contract creation ---

  /** The init code has run and left this to be stored. */
  ghost predicate Stores(w: World, v: World, a: Address, code: Bytes) {
    OnlyAt(w, v, a) && Get(v, a) == Get(w, a).(code := code)
  }

  lemma DepositEffect(fork: Fork, s: Sys, c: Computation)
    requires !IsError(c)
    ensures
      var r, out := DepositCode(fork, s, c), c.output;
      var fee := 200 * |out|;
      if out == [] || (fork.Frontier? && fee > c.gas) then
        r.Keep? && r.s == s && r.c == c.(output := [])
      else if ((fork.SpuriousDragon? || fork.Byzantium?) && |out| >= 24577) || fee > c.gas then
        r.Reject? && BurnsGas(r.c)
      else
        && r.Keep? && r.c == c.(gas := c.gas - fee)
        && r.s == s.(world := r.s.world) && Stores(s.world, r.s.world, c.msg.storageAddress, out)
  {
    CodeReads(s.world, c.msg.storageAddress, c.output);
  }

  /** The run of the init code that a creation builds on. */
  ghost function InitRun(i: Interpreter, s: Sys, msg: Message): Outcome {
    ApplyMessage(i, WithNonce(i.fork, s, msg), msg)
  }

  /**
   * Creation, for every fork. Without error the new contract's code is exactly what the init code
   * returned, if anything, at 200 gas a byte; the deposit touches no other account and no other
   * field. With an error nothing is left of it.
   */
  lemma {:induction false} CreationEffect(i: Interpreter, s: Sys, msg: Message)
    ensures
      var run, r := InitRun(i, s, msg), ApplyCreateMessage(i, s, msg);
      var out := Output(run.c);
      var fee := 200 * |out|;
      var unpaid := fee > run.c.gas;
      var tooLong := (i.fork.SpuriousDragon? || i.fork.Byzantium?) && |out| >= 24577;
      && (IsError(r.c) <==> IsError(run.c) || (out != [] && (tooLong || (unpaid && !i.fork.Frontier?))))
      && (IsError(r.c) ==> r.s.world == s.world && r.s.live == s.live)
      && (IsError(r.c) && !IsError(run.c) ==> GasRemaining(r.c) == 0)
      && (!IsError(r.c) && out != [] && !unpaid ==>
            && Stores(run.s.world, r.s.world, msg.storageAddress, out)
            && GasRemaining(r.c) == GasRemaining(run.c) - fee && Output(r.c) == out)
      && (!IsError(r.c) && (out == [] || unpaid) ==>
            r.s == run.s && GasRemaining(r.c) == GasRemaining(run.c) && Output(r.c) == [])
  {
    var run := InitRun(i, s, msg);
    if !IsError(run.c) {
      DepositEffect(i.fork, run.s, run.c);
    }
  }

  /** From Spurious Dragon on the init code finds the new account with a nonce one higher. */
  lemma WithNonceEffect(fork: Fork, s: Sys, msg: Message)
    ensures
      var v := WithNonce(fork, s, msg);
      if fork.SpuriousDragon? || fork.Byzantium? then
        && v == s.(world := v.world) && OnlyAt(s.world, v.world, msg.storageAddress)
        && Get(v.world, msg.storageAddress)
           == Get(s.world, msg.storageAddress).(nonce := Get(s.world, msg.storageAddress).nonce + 1)
      else v == s
  {
    NonceReads(s.world, msg.storageAddress);
  }

  // --- Who sees what, over whole runs ---

  /** A message that a frame with message `parent` can have sent. */
  ghost predicate Sent(parent: Message, child: Message) {
    || (child.isCreate && child.sender == parent.storageAddress && child.depth == parent.depth + 1
        && child.storageAddress == child.codeAddress && child.transfersValue && child.data == [])
    || exists kind :: Sends(parent, kind, child.codeAddress, child.value, child)
  }

  /** Every frame of the tree was sent by the frame above it in one of the five ways. */
  ghost predicate WellSent(c: Computation)
    decreases c
  {
    forall k | 0 <= k < |c.children| :: Sent(c.msg, c.children[k].msg) && WellSent(c.children[k])
  }

  lemma StepSends(i: Interpreter, s: Sys, c: Computation)
    requires c.status.Running?
    ensures
      var r := Step(i, s, c);
      r.c.children == c.children && (r.Spawn? ==> Sent(c.msg, r.msg))
  {
    var op := i.decide(s.context, c.msg, c.local, s.world, c.gas);
    match op
    case CallOp(kind, _, target, value, _, _, _) =>
      CallEffect(i, s, c, op);
      var r := Step(i, s, c);
      if r.Spawn? {
        assert Sends(c.msg, kind, r.msg.codeAddress, r.msg.value, r.msg);
      }
    case CreateOp(_, _, _, _) => CreateEffect(i, s, c, op);
    case _ =>
  }

  lemma {:induction false} ExecuteSends(i: Interpreter, s: Sys, c: Computation)
    requires WellSent(c)
    ensures WellSent(Execute(i, s, c).c)
    decreases c.gas, 1
  {
    if c.status.Running? {
      StepSends(i, s, c);
      match Step(i, s, c)
      case Done(s1, c1) =>
        if c1.status.Running? {
          ExecuteSends(i, s1, c1);
        }
      case Spawn(s1, c1, msg) =>
        ApplySends(i, s1, msg);
        var child := Apply(i, s1, msg);
        ExecuteSends(i, child.s, Absorb(i, c1, child.c));
    }
  }

  /**
   * Over every run: whom a frame sees as its caller, whose storage it uses, with what value and at
   * what depth follows from the frame above it by the kind of call, all the way down.
   */
  lemma {:induction false} ApplySends(i: Interpreter, s: Sys, msg: Message)
    ensures WellSent(Apply(i, s, msg).c)
    decreases msg.gas, 4
  {
    var s1 := if msg.isCreate then WithNonce(i.fork, s, msg) else s;
    if !Refused(s1.world, msg) {
      ExecuteSends(i, Entered(s1, msg), NewComputation(msg));
    }
    SameChildren(i, s, s1, msg);
  }

  lemma {:induction false} SameChildren(i: Interpreter, s: Sys, s1: Sys, msg: Message)
    requires s1 == if msg.isCreate then WithNonce(i.fork, s, msg) else s
    ensures Apply(i, s, msg).c.children
         == if Refused(s1.world, msg) then [] else Execute(i, Entered(s1, msg), NewComputation(msg)).c.children
  {
    var r := ApplyMessage(i, s1, msg);
    assert msg.isCreate && !IsError(r.c) ==> DepositCode(i.fork, r.s, r.c).c.children == r.c.children;
  }

  /** Some frame with message `parent` sends `child` by DELEGATECALL. */
  ghost predicate Delegates(i: Interpreter, parent: Message, child: Message) {
    exists s: Sys, c: Computation :: DelegatesAt(i, s, c, parent, child)
  }

  ghost predicate DelegatesAt(i: Interpreter, s: Sys, c: Computation, parent: Message, child: Message) {
    && c.msg == parent && c.status.Running?
    && var op := i.decide(s.context, c.msg, c.local, s.world, c.gas);
       op.CallOp? && op.kind.DelegateCall? && Step(i, s, c).Spawn? && Step(i, s, c).msg == child
  }

  /** The same caller, the same value, the same storage. */
  ghost predicate OnBehalf(first: Message, last: Message) {
    && last.sender == first.sender && last.value == first.value
    && last.storageAddress == first.storageAddress && last.isStatic == first.isStatic
  }

  lemma DelegatesOnBehalf(i: Interpreter, parent: Message, child: Message)
    requires Delegates(i, parent, child)
    ensures OnBehalf(parent, child) && child.depth == parent.depth + 1 && !child.transfersValue
  {
    var s: Sys, c: Computation :| DelegatesAt(i, s, c, parent, child);
    CallEffect(i, s, c, i.decide(s.context, c.msg, c.local, s.world, c.gas));
  }

  /** Along every chain of DELEGATECALLs the code acts on behalf of the frame that started it. */
  lemma {:induction false} DelegationChain(i: Interpreter, chain: seq<Message>, k: nat)
    requires k < |chain| && forall j | 0 < j < |chain| :: Delegates(i, chain[j - 1], chain[j])
    ensures OnBehalf(chain[0], chain[k]) && chain[k].depth == chain[0].depth + k
  {
    if k > 0 {
      DelegationChain(i, chain, k - 1);
      DelegatesOnBehalf(i, chain[k - 1], chain[k]);
    }
  }

  // --- Nonces never fall ---

  ghost predicate NoncesKept(w: World, v: World) {
    forall a: Address :: Get(v, a).nonce >= Get(w, a).nonce
  }

  lemma StepNonces(i: Interpreter, s: Sys, c: Computation)
    requires c.status.Running?
    ensures NoncesKept(s.world, Step(i, s, c).s.world)
  {
    var op := i.decide(s.context, c.msg, c.local, s.world, c.gas);
    match op
    case CallOp(_, _, _, _, _, _, _) => CallEffect(i, s, c, op);
    case CreateOp(_, _, _, _) => CreateNonces(i, s, c, op);
    case _ =>
  }

  lemma CreateNonces(i: Interpreter, s: Sys, c: Computation, op: Op)
    requires c.status.Running? && op.CreateOp?
    ensures NoncesKept(s.world, DispatchCreate(i, s, c, op).s.world)
  {
    NonceReads(s.world, c.msg.storageAddress);
  }

  lemma {:induction false} ExecuteNonces(i: Interpreter, s: Sys, c: Computation)
    ensures NoncesKept(s.world, Execute(i, s, c).s.world)
    decreases c.gas, 1
  {
    if c.status.Running? {
      StepNonces(i, s, c);
      match Step(i, s, c)
      case Done(s1, c1) =>
        if c1.status.Running? {
          ExecuteNonces(i, s1, c1);
        }
      case Spawn(s1, c1, msg) =>
        ApplyNonces(i, s1, msg);
        var child := Apply(i, s1, msg);
        ExecuteNonces(i, child.s, Absorb(i, c1, child.c));
    }
  }

  lemma {:induction false} ApplyMessageNonces(i: Interpreter, s: Sys, msg: Message)
    ensures NoncesKept(s.world, ApplyMessage(i, s, msg).s.world)
    decreases msg.gas, 2
  {
    if !Refused(s.world, msg) {
      ExecuteNonces(i, Entered(s, msg), NewComputation(msg));
    }
  }

  /** Over every run, failed or not, no nonce goes down. */
  lemma {:induction false} ApplyNonces(i: Interpreter, s: Sys, msg: Message)
    ensures NoncesKept(s.world, Apply(i, s, msg).s.world)
    decreases msg.gas, 4
  {
    if msg.isCreate {
      var s1 := WithNonce(i.fork, s, msg);
      WithNonceEffect(i.fork, s, msg);
      ApplyMessageNonces(i, s1, msg);
      var run := ApplyMessage(i, s1, msg);
      if !IsError(run.c) {
        DepositEffect(i.fork, run.s, run.c);
      }
    } else {
      ApplyMessageNonces(i, s, msg);
    }
  }

  // --- ORIGIN and GASPRICE ---

  lemma StepContext(i: Interpreter, s: Sys, c: Computation)
    requires c.status.Running?
    ensures Step(i, s, c).s.context == s.context
  {
    var op := i.decide(s.context, c.msg, c.local, s.world, c.gas);
    match op
    case CallOp(_, _, _, _, _, _, _) => assert DispatchCall(i, s, c, op).s.context == s.context;
    case CreateOp(_, _, _, _) => assert DispatchCreate(i, s, c, op).s.context == s.context;
    case _ =>
  }

  lemma {:induction false} ExecuteContext(i: Interpreter, s: Sys, c: Computation)
    ensures Execute(i, s, c).s.context == s.context
    decreases c.gas, 1
  {
    if c.status.Running? {
      StepContext(i, s, c);
      match Step(i, s, c)
      case Done(s1, c1) =>
        if c1.status.Running? {
          ExecuteContext(i, s1, c1);
        }
      case Spawn(s1, c1, msg) =>
        ApplyContext(i, s1, msg);
        var child := Apply(i, s1, msg);
        ExecuteContext(i, child.s, Absorb(i, c1, child.c));
    }
  }

  lemma {:induction false} ApplyMessageContext(i: Interpreter, s: Sys, msg: Message)
    ensures ApplyMessage(i, s, msg).s.context == s.context
    decreases msg.gas, 2
  {
    if !Refused(s.world, msg) {
      ExecuteContext(i, Entered(s, msg), NewComputation(msg));
    }
  }

  /** Every frame of a run sees the same transaction context. */
  lemma {:induction false} ApplyContext(i: Interpreter, s: Sys, msg: Message)
    ensures Apply(i, s, msg).s.context == s.context
    decreases msg.gas, 4
  {
    if msg.isCreate {
      var s1 := WithNonce(i.fork, s, msg);
      ApplyMessageContext(i, s1, msg);
      var run := ApplyMessage(i, s1, msg);
      if !IsError(run.c) {
        DepositEffect(i.fork, run.s, run.c);
      }
    } else {
      ApplyMessageContext(i, s, msg);
    }
  }
}
