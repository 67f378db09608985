/** When a balance write can leave uint256: the exact bound, for messages and for transactions. */
module Overflow {
  import opened Prelude
  import opened EvmTypes
  import opened CallGas
  import opened Frames
  import opened Supply
  import opened Transactions
  import opened Bytecode

  /** The same accounts up to their code. */
  ghost predicate SameButCode(w: World, v: World) {
    forall a: Address :: Get(v, a) == Get(w, a).(code := Get(v, a).code)
  }

  /** Whatever code the accounts carry, no message that is accepted can fault from this state. */
  ghost predicate NeverFaults(fork: Fork, s: Sys) {
    forall i: Interpreter, v: World, msg: Message ::
      i.fork == fork && FollowsCode(i) && SameButCode(s.world, v) && !Refused(v, msg) ==>
        !Apply(i, s.(world := v), msg).s.fault
  }

  /** Whatever code the accounts carry, no valid transaction can fault. */
  ghost predicate TransactionsNeverFault(fork: Fork, w: World) {
    forall i: Interpreter, v: World, coinbase: Address, tx: Transaction ::
      i.fork == fork && FollowsCode(i) && SameButCode(w, v) && Valid(fork, v, tx) ==>
        !ExecuteTransaction(i, v, coinbase, tx).value.s.fault
  }

  /** Everything of value sits at addresses whose code is run. */
  ghost predicate Reachable(w: World) {
    forall a | a in w && w[a].balance != 0 :: RunsCode(a) && a < ADDRESS_CEILING
  }

  lemma {:induction false} SameSupply(w: World, v: World)
    requires SameButCode(w, v)
    ensures TotalSupply(w) == TotalSupply(v)
    decreases |w| + |v|
  {
    if w == map[] && v == map[] {
    } else {
      var a: Address :| a in w || a in v;
      SupplyAt(w, a);
      SupplyAt(v, a);
      assert Get(v, a) == Get(w, a).(code := Get(v, a).code);
      WithoutBoth(w, v, a);
      Smaller(w, v, a);
      SameSupply(w - {a}, v - {a});
    }
  }

  lemma WithoutBoth(w: World, v: World, a: Address)
    requires SameButCode(w, v)
    ensures SameButCode(w - {a}, v - {a})
  {
    forall b: Address
      ensures Get(v - {a}, b) == Get(w - {a}, b).(code := Get(v - {a}, b).code)
    {
      assert Get(v, b) == Get(w, b).(code := Get(v, b).code);
    }
  }

  lemma Smaller(w: World, v: World, a: Address)
    requires a in w || a in v
    ensures |w - {a}| + |v - {a}| < |w| + |v|
  {
    assert (w - {a}).Keys == w.Keys - {a} && (v - {a}).Keys == v.Keys - {a};
    assert |(w - {a}).Keys| == |w - {a}| && |w.Keys| == |w|;
    assert |(v - {a}).Keys| == |v - {a}| && |v.Keys| == |v|;
  }

  // --- Running code on the fragment ---

  lemma OneOther(i: Interpreter, s: Sys, c: Computation, cost: Positive, next: Local)
    requires FollowsCode(i) && c.status.Running? && cost <= c.gas && Decode(c.msg, c.local) == Some(Other(cost, next))
    ensures Execute(i, s, c) == Execute(i, s, c.(gas := c.gas - cost, local := next))
  {
    assert i.decide(s.context, c.msg, c.local, s.world, c.gas) == Other(cost, next);
    assert Step(i, s, c) == Done(s, c.(gas := c.gas - cost, local := next));
  }

  /** The outcome of running a frame to its end, as a function of its own. */
  type Runner = (Sys, Computation) -> Outcome

  ghost predicate RunsAt(run: Runner, i: Interpreter, s: Sys, c: Computation) {
    run(s, c) == Execute(i, s, c)
  }

  /** `run` is what the interpreter does; the quantifier is only used where it is asked for. */
  ghost predicate RunsAs(run: Runner, i: Interpreter) {
    forall s, c {:trigger RunsAt(run, i, s, c)} :: RunsAt(run, i, s, c)
  }

  lemma OneLeads(run: Runner, i: Interpreter, s: Sys, c: Computation, cost: Positive, next: Local)
    requires RunsAs(run, i) && FollowsCode(i) && c.status.Running? && cost <= c.gas
    requires Decode(c.msg, c.local) == Some(Other(cost, next))
    ensures run(s, c) == run(s, c.(gas := c.gas - cost, local := next))
  {
    OneOther(i, s, c, cost, next);
    assert RunsAt(run, i, s, c) && RunsAt(run, i, s, c.(gas := c.gas - cost, local := next));
  }

  lemma {:induction false} PlainLeads(
      run: Runner, i: Interpreter, s: Sys, c: Computation, n: nat, end: Local, gas: nat)
    requires RunsAs(run, i) && FollowsCode(i) && c.status.Running? && gas <= c.gas
    requires Plain(c.msg, c.local, n, end, gas)
    ensures run(s, c) == run(s, c.(gas := c.gas - gas, local := end))
    decreases n
  {
    if n > 0 {
      var op := Decode(c.msg, c.local).value;
      OneLeads(run, i, s, c, op.cost, op.next);
      PlainLeads(run, i, s, c.(gas := c.gas - op.cost, local := op.next), n - 1, end, gas - op.cost);
    } else {
      assert c == c.(gas := c.gas - gas, local := end);
    }
  }

  /** The account exists and has code, so no fork charges for a new account. */
  ghost predicate Settled(w: World, a: Address) {
    a in w && w[a].code != []
  }

  const DESTROY_GAS: nat := 5000

  lemma DestroyRuns(run: Runner, i: Interpreter, s: Sys, c: Computation, beneficiary: Address)
    requires RunsAs(run, i) && FollowsCode(i) && c.status.Running? && !c.msg.isStatic && c.gas >= DESTROY_GAS
    requires Decode(c.msg, c.local) == Some(SelfDestruct(beneficiary)) && Settled(s.world, beneficiary)
    ensures
      var r, moved := run(s, c), MoveOut(s, c.msg.storageAddress, beneficiary);
      && r.s.world == moved.world && r.s.fault == moved.fault && r.c.status.Succeeded?
      && r.c.gas >= c.gas - DESTROY_GAS
  {
    assert i.decide(s.context, c.msg, c.local, s.world, c.gas) == SelfDestruct(beneficiary);
    assert SelfDestructCost(i.fork, s.world, c.msg.storageAddress, beneficiary) <= DESTROY_GAS;
    assert Step(i, s, c) == DispatchSelfDestruct(i.fork, s, c, beneficiary);
    assert RunsAt(run, i, s, c);
  }

  // --- Code that collects everything ---

  /** The code of a donor: everything goes to the caller. */
  const DONOR: Bytes := [CALLER, SELFDESTRUCT]

  /** The gas a donor is given. */
  const REQUEST: nat := 10000

  /** No memory and no value, the address, the gas. */
  function Arguments(a: Address): seq<Bytes> {
    [[0], [0], [0], [0], [0], ToBytes(a, 20), [0x27, 0x10]]
  }

  /** A call to `a`; the flag it leaves is dropped. */
  function CallTo(a: Address): Bytes {
    Pushes(Arguments(a)) + [CALL, POP]
  }

  /** The code of the hub: a call to every donor, then ADDRESS, SELFDESTRUCT. */
  function HubCode(donors: seq<Address>): Bytes {
    if donors == [] then [ADDRESS, SELFDESTRUCT] else CallTo(donors[0]) + HubCode(donors[1..])
  }

  lemma AddressFits()
    ensures Ceiling(20) == ADDRESS_CEILING
  {
    assert Ceiling(4) == 0x1_0000_0000;
    assert Ceiling(8) == 0x1_0000_0000 * Ceiling(4);
    assert Ceiling(12) == 0x1_0000_0000 * Ceiling(8);
    assert Ceiling(16) == 0x1_0000_0000 * Ceiling(12);
    assert Ceiling(20) == 0x1_0000_0000 * Ceiling(16);
  }

  lemma ArgumentValues(a: Address)
    requires a < ADDRESS_CEILING
    ensures Values(Arguments(a)) == [0, 0, 0, 0, 0, a, REQUEST]
  {
    AddressFits();
    BytesRoundTrip(a, 20);
    LastArguments(a);
    var rest := [ToBytes(a, 20), [0x27, 0x10]];
    assert BigEndian([0]) == 0;
    ValuesCons([0], rest);
    ValuesCons([0], [[0]] + rest);
    ValuesCons([0], [[0]] + ([[0]] + rest));
    ValuesCons([0], [[0]] + ([[0]] + ([[0]] + rest)));
    ValuesCons([0], [[0]] + ([[0]] + ([[0]] + ([[0]] + rest))));
    assert Arguments(a) == [[0]] + ([[0]] + ([[0]] + ([[0]] + ([[0]] + rest))));
  }

  lemma {:induction false} LastArguments(a: Address)
    requires BigEndian(ToBytes(a, 20)) == a
    ensures Values([ToBytes(a, 20), [0x27, 0x10]]) == [a, REQUEST]
  {
    assert [0x27, 0x10][..1] == [0x27] && BigEndian([0x27]) == 0x27;
    assert BigEndian([0x27, 0x10]) == REQUEST;
    ValuesCons([0x27, 0x10], []);
    ValuesCons(ToBytes(a, 20), [[0x27, 0x10]]);
    assert [[0x27, 0x10]] == [[0x27, 0x10]] + [];
    assert [ToBytes(a, 20), [0x27, 0x10]] == [ToBytes(a, 20)] + [[0x27, 0x10]];
  }

  // --- One donor ---

  ghost function DonorMessage(hub: Address, a: Address): Message {
    Message(REQUEST, hub, a, a, 0, [], DONOR, 1, false, true, false)
  }

  /** The frame of a donor hands its balance to the hub. */
  lemma {:induction false} DonorRuns(run: Runner, i: Interpreter, s: Sys, hub: Address, a: Address)
    requires RunsAs(run, i) && FollowsCode(i) && a in s.world && RunsCode(a)
    requires hub < ADDRESS_CEILING && Settled(s.world, hub)
    ensures
      var r, moved := Apply(i, s, DonorMessage(hub, a)), MoveOut(s, a, hub);
      r.s.world == moved.world && r.s.fault == moved.fault
  {
    var msg := DonorMessage(hub, a);
    DonorExecutes(run, i, s, msg);
    AppliesTo(i, s, msg);
    assert RunsAt(run, i, s, NewComputation(msg));
  }

  lemma DonorExecutes(run: Runner, i: Interpreter, s: Sys, msg: Message)
    requires RunsAs(run, i) && FollowsCode(i) && msg.code == DONOR
    requires RunsCode(msg.codeAddress) && msg.sender < ADDRESS_CEILING
    requires msg.gas == REQUEST && !msg.isStatic && Settled(s.world, msg.sender)
    ensures
      var r, moved := run(s, NewComputation(msg)), MoveOut(s, msg.storageAddress, msg.sender);
      r.s.world == moved.world && r.s.fault == moved.fault && r.c.status.Succeeded?
  {
    var c := NewComputation(msg);
    var next := Push(EMPTY_LOCAL, 1, msg.sender);
    LastTwo(msg, EMPTY_LOCAL, CALLER, msg.sender);
    PlainLeads(run, i, s, c, 1, next, GAS_BASE);
    DestroyRuns(run, i, s, c.(gas := REQUEST - GAS_BASE, local := next), msg.sender);
  }

  /** A message without value to an existing account only runs its code. */
  lemma {:induction false} AppliesTo(i: Interpreter, s: Sys, msg: Message)
    requires !msg.isCreate && msg.value == 0 && msg.depth <= STACK_DEPTH_LIMIT && msg.storageAddress in s.world
    ensures
      var r := Execute(i, s, NewComputation(msg));
      Apply(i, s, msg) == if IsError(r.c) then Outcome(Rollback(r.s, s), r.c) else r
  {
    assert Entered(s, msg).world == s.world;
    assert Entered(s, msg) == s;
  }

  /** A frame of the hub, at the given point of its code, with an empty stack. */
  ghost predicate HubAt(c: Computation, rest: Bytes) {
    HubFrame(c) && c.local.stack == [] && Ahead(c.msg, c.local.pc, rest)
  }

  ghost predicate HubFrame(c: Computation) {
    c.status.Running? && c.msg.depth == 0 && !c.msg.isStatic && c.msg.storageAddress < ADDRESS_CEILING
  }

  /** A frame of the hub that has pushed the arguments of its call to `a`. */
  ghost predicate AtCall(c: Computation, a: Address) {
    && HubFrame(c) && c.local.stack == [0, 0, 0, 0, 0, a, REQUEST]
    && Decode(c.msg, c.local) == DecodeCall(c.local)
  }

  /** An account whose code gives everything to the caller. */
  ghost predicate IsDonor(w: World, a: Address) {
    a in w && w[a].code == DONOR && a < ADDRESS_CEILING && RunsCode(a)
  }

  lemma HubCharge(fork: Fork, w: World, c: Computation, op: Op)
    requires op.CallOp? && op.kind.Call? && op.value == 0 && op.memoryCost == 0 && op.gas == REQUEST && op.target in w
    requires c.gas >= 2 * REQUEST - 1000
    ensures CallCharge(fork, w, c, op) == Some(MessageGas(REQUEST, BaseCost(fork) + REQUEST))
  {
  }

  lemma HubCalls(i: Interpreter, s: Sys, c: Computation, a: Address)
    requires FollowsCode(i) && AtCall(c, a) && IsDonor(s.world, a) && c.gas >= 2 * REQUEST - 1000
    ensures Step(i, s, c)
         == Spawn(s, c.(gas := c.gas - BaseCost(i.fork) - REQUEST, local := Pop(c.local, 7)),
                  DonorMessage(c.msg.storageAddress, a))
  {
    var op := CallOp(Call, REQUEST, a, 0, 0, [], Pop(c.local, 7));
    assert DecodeCall(c.local) == Some(op);
    assert i.decide(s.context, c.msg, c.local, s.world, c.gas) == op;
    HubCharge(i.fork, s.world, c, op);
    assert Step(i, s, c) == DispatchCall(i, s, c, op);
  }

  /** The state after the donation of `a`. */
  ghost predicate After(s: Sys, a: Address, hub: Address, s1: Sys) {
    s1.world == MoveOut(s, a, hub).world && s1.fault == MoveOut(s, a, hub).fault
  }

  /** The call returns with some gas and leaves a flag on the stack. */
  lemma CallReturns(run: Runner, i: Interpreter, s: Sys, c: Computation, a: Address)
    returns (s1: Sys, c1: Computation)
    requires RunsAs(run, i) && FollowsCode(i) && AtCall(c, a) && IsDonor(s.world, a) && c.gas >= 2 * REQUEST - 1000
    requires Settled(s.world, c.msg.storageAddress)
    ensures run(s, c) == run(s1, c1) && After(s, a, c.msg.storageAddress, s1)
    ensures c1.msg == c.msg && c1.status.Running? && c1.gas >= c.gas - 700 - REQUEST
    ensures c1.local.pc == c.local.pc + 1 && |c1.local.stack| == 1
  {
    var hub := c.msg.storageAddress;
    HubCalls(i, s, c, a);
    DonorRuns(run, i, s, hub, a);
    var child := Apply(i, s, DonorMessage(hub, a));
    s1 := child.s;
    c1 := Absorb(i, c.(gas := c.gas - BaseCost(i.fork) - REQUEST, local := Pop(c.local, 7)), child.c);
    assert RunsAt(run, i, s, c) && RunsAt(run, i, s1, c1);
  }

  /** What a donor costs the hub at most. */
  const PER_DONOR: nat := 11000

  lemma ArgumentsRun(c: Computation, a: Address, tail: Bytes) returns (end: Local)
    requires HubAt(c, CallTo(a) + tail) && a < ADDRESS_CEILING
    ensures Plain(c.msg, c.local, |Arguments(a)|, end, 21) && end.stack == [0, 0, 0, 0, 0, a, REQUEST]
    ensures Decode(c.msg, end) == DecodeCall(end) && Ahead(c.msg, end.pc + 1, [POP] + tail)
  {
    var items, rest := Arguments(a), [CALL] + ([POP] + tail);
    assert [CALL, POP] + tail == rest;
    Regroup(Pushes(items), [CALL, POP], tail);
    end := PushesRun(c.msg, c.local, items, rest);
    ArgumentValues(a);
    PlainDecoded(c.msg, end, CALL, [POP] + tail);
  }

  lemma {:induction false} PopLocal(msg: Message, local: Local, tail: Bytes)
    requires |local.stack| == 1 && Ahead(msg, local.pc, [POP] + tail)
    ensures
      var next := Pop(local, 1);
      Plain(msg, local, 1, next, GAS_BASE) && next.stack == [] && Ahead(msg, next.pc, tail)
  {
    PlainDecoded(msg, local, POP, tail);
    PlainOne(msg, local, GAS_BASE, Pop(local, 1));
  }

  lemma PopRuns(run: Runner, i: Interpreter, s: Sys, c: Computation, tail: Bytes) returns (c1: Computation)
    requires RunsAs(run, i) && FollowsCode(i) && c.status.Running? && c.gas >= GAS_BASE
    requires |c.local.stack| == 1 && Ahead(c.msg, c.local.pc, [POP] + tail)
    ensures c1 == c.(gas := c.gas - GAS_BASE, local := Pop(c.local, 1))
    ensures run(s, c) == run(s, c1) && c1.local.stack == [] && Ahead(c.msg, c1.local.pc, tail)
  {
    PopLocal(c.msg, c.local, tail);
    c1 := c.(gas := c.gas - GAS_BASE, local := Pop(c.local, 1));
    PlainLeads(run, i, s, c, 1, Pop(c.local, 1), GAS_BASE);
  }

  lemma ReachesCall(c: Computation, a: Address, end: Local)
    requires HubFrame(c) && c.gas >= 21
    requires end.stack == [0, 0, 0, 0, 0, a, REQUEST] && Decode(c.msg, end) == DecodeCall(end)
    ensures AtCall(c.(gas := c.gas - 21, local := end), a)
  {
  }

  /** The hub's code for one donor, from beginning to end. */
  lemma OneDonor(run: Runner, i: Interpreter, s: Sys, c: Computation, a: Address, tail: Bytes)
    returns (s1: Sys, c1: Computation)
    requires RunsAs(run, i) && FollowsCode(i) && HubAt(c, CallTo(a) + tail) && c.gas >= 2 * PER_DONOR
    requires IsDonor(s.world, a) && Settled(s.world, c.msg.storageAddress)
    ensures run(s, c) == run(s1, c1) && After(s, a, c.msg.storageAddress, s1)
    ensures c1.msg == c.msg && HubAt(c1, tail) && c1.gas >= c.gas - PER_DONOR
  {
    var end := ArgumentsRun(c, a, tail);
    PlainLeads(run, i, s, c, |Arguments(a)|, end, 21);
    ReachesCall(c, a, end);
    var c3: Computation;
    s1, c3 := CallReturns(run, i, s, c.(gas := c.gas - 21, local := end), a);
    c1 := PopRuns(run, i, s1, c3, tail);
  }

  // --- All donors ---

  /** Every account that owns something is the hub or a donor, and all carry their code. */
  ghost predicate Prepared(w: World, hub: Address, donors: seq<Address>) {
    && Settled(w, hub)
    && (forall a | a in donors :: a != hub && IsDonor(w, a))
    && (forall a | a in w && a != hub && w[a].balance != 0 :: a in donors)
  }

  lemma {:induction false} NothingOwned(w: World)
    requires forall a | a in w :: w[a].balance == 0
    ensures TotalSupply(w) == 0
    decreases |w|
  {
    if w != map[] {
      var a: Address :| a in w;
      SupplySplit(w, a);
      NothingOwned(w - {a});
    }
  }

  /** Without donors the hub owns the whole supply. */
  lemma {:induction false} AllInHub(w: World, hub: Address)
    requires Prepared(w, hub, [])
    ensures TotalSupply(w) == Get(w, hub).balance
  {
    SupplyAt(w, hub);
    NothingOwned(w - {hub});
  }

  /** A donation that does not overflow keeps the supply, and the donor owns nothing afterwards. */
  lemma Donated(s: Sys, hub: Address, donors: seq<Address>)
    requires donors != [] && Prepared(s.world, hub, donors) && !MoveOut(s, donors[0], hub).fault
    ensures TotalSupply(MoveOut(s, donors[0], hub).world) == TotalSupply(s.world)
    ensures Prepared(MoveOut(s, donors[0], hub).world, hub, donors[1..])
  {
    var a := donors[0];
    assert a in donors && a != hub && IsDonor(s.world, a);
    DonationKeeps(s, a, hub);
    MovedFrom(s, a, hub);
    StillPrepared(s.world, MoveOut(s, a, hub).world, hub, donors);
  }

  lemma DonationKeeps(s: Sys, a: Address, hub: Address)
    requires a != hub && !MoveOut(s, a, hub).fault
    ensures TotalSupply(MoveOut(s, a, hub).world) == TotalSupply(s.world)
  {
    var total := Get(s.world, a).balance + Get(s.world, hub).balance;
    var credited := SetBalance(s, hub, total);
    SetBalanceSupply(s, hub, total);
    SetBalanceSupply(credited, a, 0);
    assert Get(credited.world, a) == Get(s.world, a);
  }

  /** What a donation changes: two balances. */
  lemma MovedFrom(s: Sys, a: Address, hub: Address)
    requires a in s.world && hub in s.world && a != hub && !MoveOut(s, a, hub).fault
    ensures OnlyBalances(s.world, MoveOut(s, a, hub).world, a, hub)
  {
  }

  ghost predicate OnlyBalances(w: World, v: World, a: Address, hub: Address) {
    && v.Keys == w.Keys && a in w && v[a].balance == 0
    && forall b | b in w :: v[b].code == w[b].code && (b != hub && b != a ==> v[b] == w[b])
  }

  lemma StillPrepared(w: World, v: World, hub: Address, donors: seq<Address>)
    requires donors != [] && Prepared(w, hub, donors) && OnlyBalances(w, v, donors[0], hub)
    ensures Prepared(v, hub, donors[1..])
  {
    assert donors == [donors[0]] + donors[1..];
    forall a | a in donors[1..]
      ensures a != hub && IsDonor(v, a)
    {
      assert a in donors && IsDonor(w, a);
    }
  }

  /** Once nothing is left to collect, the hub writes twice the supply. */
  lemma HubOverflows(run: Runner, i: Interpreter, s: Sys, c: Computation)
    requires RunsAs(run, i) && FollowsCode(i) && HubAt(c, [ADDRESS, SELFDESTRUCT]) && c.gas >= PER_DONOR
    requires Prepared(s.world, c.msg.storageAddress, []) && TotalSupply(s.world) >= SAFE_SUPPLY
    ensures run(s, c).s.fault
  {
    var hub := c.msg.storageAddress;
    var next := Push(c.local, 1, hub);
    LastTwo(c.msg, c.local, ADDRESS, hub);
    PlainLeads(run, i, s, c, 1, next, GAS_BASE);
    DestroyRuns(run, i, s, c.(gas := c.gas - GAS_BASE, local := next), hub);
    SelfOverflows(s, hub);
  }

  lemma SelfOverflows(s: Sys, hub: Address)
    requires Prepared(s.world, hub, []) && TotalSupply(s.world) >= SAFE_SUPPLY
    ensures MoveOut(s, hub, hub).fault
  {
    AllInHub(s.world, hub);
  }

  /** An address, and SELFDESTRUCT in its favour. */
  lemma {:induction false} LastTwo(msg: Message, local: Local, opcode: Byte, beneficiary: Address)
    requires local.stack == [] && Ahead(msg, local.pc, [opcode, SELFDESTRUCT]) && beneficiary < ADDRESS_CEILING
    requires
      || (opcode == ADDRESS && beneficiary == msg.storageAddress)
      || (opcode == CALLER && beneficiary == msg.sender)
    ensures
      var next := Push(local, 1, beneficiary);
      && Plain(msg, local, 1, next, GAS_BASE)
      && Decode(msg, next) == Some(SelfDestruct(beneficiary))
  {
    var next := Push(local, 1, beneficiary);
    assert [opcode, SELFDESTRUCT] == [opcode] + [SELFDESTRUCT] && [SELFDESTRUCT] == [SELFDESTRUCT] + [];
    PlainDecoded(msg, local, opcode, [SELFDESTRUCT]);
    PlainOne(msg, local, GAS_BASE, next);
    PlainDecoded(msg, next, SELFDESTRUCT, []);
  }

  /**
   * For every fork and every interpreter that follows the code: with half of the uint256 range in
   * the hub and its donors, the hub's code writes a balance out of range.
   */
  lemma {:induction false} CollectorFaults(
      run: Runner, i: Interpreter, s: Sys, c: Computation, donors: seq<Address>)
    requires RunsAs(run, i) && FollowsCode(i) && HubAt(c, HubCode(donors))
    requires Prepared(s.world, c.msg.storageAddress, donors)
    requires TotalSupply(s.world) >= SAFE_SUPPLY && c.gas >= PER_DONOR * (|donors| + 1)
    ensures run(s, c).s.fault
    decreases |donors|
  {
    if donors == [] {
      HubOverflows(run, i, s, c);
    } else {
      var hub, a := c.msg.storageAddress, donors[0];
      assert a in donors;
      var s1, c1 := OneDonor(run, i, s, c, a, HubCode(donors[1..]));
      if s1.fault {
        FaultLeads(run, i, s1, c1);
      } else {
        Donated(s, hub, donors);
        CollectorFaults(run, i, s1, c1, donors[1..]);
      }
    }
  }

  /** A fault that was raised stays. */
  lemma FaultLeads(run: Runner, i: Interpreter, s: Sys, c: Computation)
    requires RunsAs(run, i) && s.fault
    ensures run(s, c).s.fault
  {
    ExecuteConserves(i, s, c);
    assert RunsAt(run, i, s, c);
  }

  // --- Accounts with this code ---

  ghost function Listed(addresses: set<Address>): (r: seq<Address>)
    ensures forall a :: a in r <==> a in addresses
  {
    if addresses == {} then []
    else
      var a: Address :| a in addresses;
      [a] + Listed(addresses - {a})
  }

  /** Everyone but the hub who owns something. */
  ghost function Donors(w: World, hub: Address): seq<Address> {
    Listed(set a | a in w && a != hub && w[a].balance != 0)
  }

  /** The same accounts, with the hub's code at the hub and the donor's code at all donors. */
  ghost function Armed(w: World, hub: Address): World {
    map a | a in w.Keys + {hub} ::
      if a == hub then Get(w, hub).(code := HubCode(Donors(w, hub)))
      else if a in Donors(w, hub) then w[a].(code := DONOR)
      else w[a]
  }

  lemma {:induction false} HubCodeNonempty(donors: seq<Address>)
    ensures HubCode(donors) != []
  {
  }

  lemma Arming(w: World, hub: Address)
    requires Reachable(w)
    ensures SameButCode(w, Armed(w, hub)) && Prepared(Armed(w, hub), hub, Donors(w, hub))
    ensures hub in Armed(w, hub) && Armed(w, hub)[hub].code == HubCode(Donors(w, hub))
  {
    HubCodeNonempty(Donors(w, hub));
    ArmedDonors(w, hub);
    forall a: Address
      ensures Get(Armed(w, hub), a) == Get(w, a).(code := Get(Armed(w, hub), a).code)
    {
    }
  }

  lemma ArmedDonors(w: World, hub: Address)
    requires Reachable(w)
    ensures forall a | a in Donors(w, hub) :: a != hub && IsDonor(Armed(w, hub), a)
    ensures forall a | a in Armed(w, hub) && a != hub && Armed(w, hub)[a].balance != 0 :: a in Donors(w, hub)
  {
  }

  ghost function RunOf(i: Interpreter): Runner {
    (s: Sys, c: Computation) => Execute(i, s, c)
  }

  lemma RunOfRuns(i: Interpreter)
    ensures RunsAs(RunOf(i), i)
  {
    forall s, c
      ensures RunsAt(RunOf(i), i, s, c)
    {
      assert RunOf(i)(s, c) == Execute(i, s, c);
    }
  }

  /** A frame that starts to run the hub's code on prepared accounts ends in a fault. */
  lemma {:induction false} HubFaults(i: Interpreter, s: Sys, msg: Message, donors: seq<Address>)
    requires FollowsCode(i) && Prepared(s.world, msg.storageAddress, donors) && TotalSupply(s.world) >= SAFE_SUPPLY
    requires msg.depth == 0 && !msg.isStatic && msg.storageAddress == msg.codeAddress == 0
    requires msg.code == HubCode(donors) && msg.gas >= PER_DONOR * (|donors| + 1)
    ensures Execute(i, s, NewComputation(msg)).s.fault
  {
    var run, c := RunOf(i), NewComputation(msg);
    RunOfRuns(i);
    assert msg.code[0..] == msg.code;
    CollectorFaults(run, i, s, c, donors);
    assert RunsAt(run, i, s, c);
  }

  // --- Messages ---

  ghost function HubMessage(donors: seq<Address>): Message {
    Message(PER_DONOR * (|donors| + 1), 1, 0, 0, 0, [], HubCode(donors), 0, false, true, false)
  }

  lemma HubMessageFaults(fork: Fork, s: Sys)
    requires Reachable(s.world) && TotalSupply(s.world) >= SAFE_SUPPLY
    ensures !NeverFaults(fork, s)
  {
    var i, v, donors := Fragment(fork), Armed(s.world, 0), Donors(s.world, 0);
    FragmentFollows(fork);
    Arming(s.world, 0);
    SameSupply(s.world, v);
    var armed, msg := s.(world := v), HubMessage(donors);
    HubFaults(i, armed, msg, donors);
    AppliesTo(i, armed, msg);
    assert !Refused(v, msg) && Apply(i, armed, msg).s.fault;
  }

  lemma SafeMessages(fork: Fork, s: Sys)
    requires !s.fault && TotalSupply(s.world) < SAFE_SUPPLY
    ensures NeverFaults(fork, s)
  {
    forall i: Interpreter, v: World, msg: Message
      | i.fork == fork && FollowsCode(i) && SameButCode(s.world, v) && !Refused(v, msg)
      ensures !Apply(i, s.(world := v), msg).s.fault
    {
      SameSupply(s.world, v);
      ApplyConserves(i, s.(world := v), msg);
    }
  }

  /**
   * For every fork and every state without a fault so far: whatever code the accounts carry and
   * whatever message comes next, every balance write stays within uint256 if and only if the
   * supply is below 2^255. Only-if needs that the wei sit where code is run.
   */
  lemma NeverFaultsIffHalf(fork: Fork, s: Sys)
    requires !s.fault
    ensures TotalSupply(s.world) < SAFE_SUPPLY ==> NeverFaults(fork, s)
    ensures Reachable(s.world) && NeverFaults(fork, s) ==> TotalSupply(s.world) < SAFE_SUPPLY
  {
    if TotalSupply(s.world) < SAFE_SUPPLY {
      SafeMessages(fork, s);
    } else if Reachable(s.world) {
      HubMessageFaults(fork, s);
    }
  }

  // --- Transactions ---

  /** A fault in the frame of a called account is one of the transaction. */
  lemma {:induction false} FaultReaches(
      i: Interpreter, w: World, coinbase: Address, tx: Transaction, s: Sys, msg: Message)
    requires Valid(i.fork, w, tx) && tx.to.Some? && tx.value == 0 && tx.to.value in s.world
    requires s == BuyGas(Fresh(w, tx), tx) && msg == BuildMessage(i, s.world, tx)
    requires Execute(i, s, NewComputation(msg)).s.fault
    ensures ExecuteTransaction(i, w, coinbase, tx).value.s.fault
  {
    AppliesTo(i, s, msg);
    var run := RunTransaction(i, w, tx);
    assert run == Apply(i, s, msg);
    FaultStays(run.s, coinbase, tx, run.c);
  }

  lemma {:induction false} Bounded(addresses: set<Address>) returns (bound: nat)
    ensures forall a | a in addresses :: a < bound
    decreases addresses
  {
    bound := 0;
    if addresses != {} {
      var a: Address :| a in addresses;
      var rest := Bounded(addresses - {a});
      bound := if a < rest then rest else a + 1;
      forall b | b in addresses
        ensures b < bound
      {
        assert b == a || b in addresses - {a};
      }
    }
  }

  /** A call to the hub, at no price, from an account that owns nothing. */
  ghost function HubCall(sender: Address, donors: seq<Address>): Transaction {
    Transaction(0, 0, GAS_TX + PER_DONOR * (|donors| + 1), Some(0), 0, [], sender)
  }

  lemma FreeGas(w: World, tx: Transaction)
    requires tx.sender !in w && tx.gasPrice == 0
    ensures BuyGas(Fresh(w, tx), tx).world == w[tx.sender := DEFAULT_ACCOUNT.(nonce := 1)]
  {
    assert GasFee(tx) == 0;
  }

  lemma PreparedWith(w: World, hub: Address, donors: seq<Address>, sender: Address)
    requires Prepared(w, hub, donors) && sender !in w
    ensures Prepared(w[sender := DEFAULT_ACCOUNT.(nonce := 1)], hub, donors)
  {
    var v := w[sender := DEFAULT_ACCOUNT.(nonce := 1)];
    forall a | a in donors
      ensures a != hub && IsDonor(v, a)
    {
      assert IsDonor(w, a);
    }
  }

  lemma {:induction false} HubCallFaults(
      i: Interpreter, v: World, coinbase: Address, donors: seq<Address>, sender: Address)
    requires FollowsCode(i) && Prepared(v, 0, donors) && v[0].code == HubCode(donors) && sender !in v
    requires TotalSupply(v) >= SAFE_SUPPLY
    ensures Valid(i.fork, v, HubCall(sender, donors))
    ensures ExecuteTransaction(i, v, coinbase, HubCall(sender, donors)).value.s.fault
  {
    var tx := HubCall(sender, donors);
    assert DataGas([]) == 0 && GasFee(tx) == 0;
    assert Valid(i.fork, v, tx);
    BuyGasSupply(i.fork, v, tx);
    FreeGas(v, tx);
    PreparedWith(v, 0, donors, sender);
    var s := BuyGas(Fresh(v, tx), tx);
    var msg := BuildMessage(i, s.world, tx);
    HubFaults(i, s, msg, donors);
    FaultReaches(i, v, coinbase, tx, s, msg);
  }

  lemma {:induction false} TransactionsFault(fork: Fork, w: World)
    requires Reachable(w) && TotalSupply(w) >= SAFE_SUPPLY
    ensures !TransactionsNeverFault(fork, w)
  {
    var i, v, donors := Fragment(fork), Armed(w, 0), Donors(w, 0);
    FragmentFollows(fork);
    Arming(w, 0);
    SameSupply(w, v);
    var sender := Bounded(v.Keys);
    HubCallFaults(i, v, 0, donors, sender);
    assert Valid(fork, v, HubCall(sender, donors));
  }

  lemma {:induction false} SafeTransactions(fork: Fork, w: World)
    requires TotalSupply(w) < SAFE_SUPPLY
    ensures TransactionsNeverFault(fork, w)
  {
    forall i: Interpreter, v: World, coinbase: Address, tx: Transaction
      | i.fork == fork && FollowsCode(i) && SameButCode(w, v) && Valid(fork, v, tx)
      ensures !ExecuteTransaction(i, v, coinbase, tx).value.s.fault
    {
      SameSupply(w, v);
      TransactionConserves(i, v, coinbase, tx);
    }
  }

  /** The same for valid transactions, settlement included. */
  lemma {:induction false} TransactionsNeverFaultIffHalf(fork: Fork, w: World)
    ensures TotalSupply(w) < SAFE_SUPPLY ==> TransactionsNeverFault(fork, w)
    ensures Reachable(w) && TransactionsNeverFault(fork, w) ==> TotalSupply(w) < SAFE_SUPPLY
  {
    if TotalSupply(w) < SAFE_SUPPLY {
      SafeTransactions(fork, w);
    } else if Reachable(w) {
      TransactionsFault(fork, w);
    }
  }

  // --- Two bytes of code that do it ---

  /** Account 0 owns half of the uint256 range; its code names itself as beneficiary. */
  function HalfRange(): World {
    map[0 := Account(0, SAFE_SUPPLY, [ADDRESS, SELFDESTRUCT], map[])]
  }

  /** A supply of 2^255, far below 2^256, and a call without value: the balance is written twice over. */
  lemma TwoOpcodesFault(i: Interpreter, coinbase: Address)
    requires FollowsCode(i)
    ensures TotalSupply(HalfRange()) == SAFE_SUPPLY && Valid(i.fork, HalfRange(), HubCall(1, []))
    ensures ExecuteTransaction(i, HalfRange(), coinbase, HubCall(1, [])).value.s.fault
  {
    var w := HalfRange();
    SupplyAt(w, 0);
    assert w - {0} == map[];
    assert HubCode([]) == [ADDRESS, SELFDESTRUCT];
    HubCallFaults(i, w, coinbase, [], 1);
  }

  /**
   * A bound on the supply keeps every write of every valid transaction within uint256 exactly
   * when it is at most 2^255: SELFDESTRUCT to itself first writes twice the balance, so 2^256 is
   * too weak.
   */
  lemma SafeSupplyIsSharp(fork: Fork, bound: nat)
    ensures (forall w: World :: TotalSupply(w) < bound ==> TransactionsNeverFault(fork, w)) <==> bound <= SAFE_SUPPLY
  {
    if bound <= SAFE_SUPPLY {
      forall w: World | TotalSupply(w) < bound
        ensures TransactionsNeverFault(fork, w)
      {
        TransactionsNeverFaultIffHalf(fork, w);
      }
    } else {
      HalfRangeFaults(fork);
    }
  }

  lemma HalfRangeFaults(fork: Fork)
    ensures TotalSupply(HalfRange()) == SAFE_SUPPLY && !TransactionsNeverFault(fork, HalfRange())
  {
    FragmentFollows(fork);
    TwoOpcodesFault(Fragment(fork), 0);
    TransactionsNeverFaultIffHalf(fork, HalfRange());
  }
}
