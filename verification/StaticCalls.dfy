/** EIP-214: a static frame and everything below it leaves no trace. */
module StaticCalls {
  import opened EvmTypes
  import opened Frames

  /** No log, no refund and no deletion in the frame itself or in any frame below it. */
  ghost predicate Traceless(c: Computation)
    decreases c
  {
    && c.logs == []
    && c.refunded == 0
    && c.deletions == map[]
    && forall k | 0 <= k < |c.children| :: Traceless(c.children[k])
  }

  ghost predicate Unchanged(from: Sys, to: Sys) {
    SameAccounts(from.world, to.world) && to.live == from.live && to.nextLog == from.nextLog
  }

  ghost predicate Static(c: Computation) {
    c.msg.isStatic && Traceless(c)
  }

  /** Messages a static frame may send: value only travels from an account to itself. */
  ghost predicate Harmless(msg: Message) {
    && msg.isStatic
    && !msg.isCreate
    && (msg.transfersValue && msg.value != 0 ==> msg.sender == msg.storageAddress)
  }

  lemma StaticStep(i: Interpreter, s: Sys, c: Computation)
    requires i.fork.Byzantium? && c.status.Running? && Static(c)
    ensures Unchanged(s, Step(i, s, c).s)
    ensures Static(Step(i, s, c).c)
    ensures Step(i, s, c).Spawn? ==> Harmless(Step(i, s, c).msg)
  {
    var op := i.decide(s.context, c.msg, c.local, s.world, c.gas);
    match op
    case CallOp(_, _, _, _, _, _, _) => StaticSpawn(i, s, c, op);
    case _ =>
  }

  lemma StaticSpawn(i: Interpreter, s: Sys, c: Computation, op: Op)
    requires i.fork.Byzantium? && c.status.Running? && Static(c) && op.CallOp?
    ensures Unchanged(s, DispatchCall(i, s, c, op).s)
    ensures Static(DispatchCall(i, s, c, op).c)
    ensures DispatchCall(i, s, c, op).Spawn? ==> Harmless(DispatchCall(i, s, c, op).msg)
  {
  }

  /** Every static message that any frame sends, static or not, is of that kind. */
  lemma StaticMessagesAreHarmless(i: Interpreter, s: Sys, c: Computation)
    requires i.fork.Byzantium? && c.status.Running?
    ensures
      var r := Step(i, s, c);
      && (r.Spawn? && c.msg.isStatic ==> r.msg.isStatic)
      && (r.Spawn? && r.msg.isStatic ==> Harmless(r.msg))
  {
    var op := i.decide(s.context, c.msg, c.local, s.world, c.gas);
    match op
    case CallOp(kind, _, _, _, _, _, _) =>
      var r := DispatchCall(i, s, c, op);
      if r.Spawn? {
        assert r.msg == CallMessage(s.world, c, op, r.msg.gas);
      }
    case _ =>
  }

  /** CALLCODE with value pays the frame's own account. */
  lemma SelfTransfer(s: Sys, msg: Message)
    requires Harmless(msg) && !Unfunded(s.world, msg)
    ensures Unchanged(s, Entered(s, msg))
  {
  }

  lemma {:induction false} StaticExecute(i: Interpreter, s: Sys, c: Computation)
    requires i.fork.Byzantium? && Static(c)
    ensures Unchanged(s, Execute(i, s, c).s)
    ensures Static(Execute(i, s, c).c)
    decreases c.gas, 1
  {
    if c.status.Running? {
      StaticStep(i, s, c);
      match Step(i, s, c)
      case Done(s1, c1) =>
        if c1.status.Running? {
          StaticExecute(i, s1, c1);
        }
      case Spawn(s1, c1, msg) =>
        StaticApply(i, s1, msg);
        var child := Apply(i, s1, msg);
        StaticExecute(i, child.s, Absorb(i, c1, child.c));
    }
  }

  /**
   * Under Byzantium rules, for every code and every state: a static message, with all frames
   * below it, leaves every account as it was, emits no log and registers no refund or deletion.
   */
  lemma {:induction false} StaticApply(i: Interpreter, s: Sys, msg: Message)
    requires i.fork.Byzantium? && Harmless(msg)
    ensures Unchanged(s, Apply(i, s, msg).s)
    ensures Static(Apply(i, s, msg).c)
    decreases msg.gas, 2
  {
    if !Refused(s.world, msg) {
      SelfTransfer(s, msg);
      StaticExecute(i, Entered(s, msg), NewComputation(msg));
    }
  }

  // --- Whole runs ---

  /** Every static frame of the tree, at any depth, left no trace. */
  ghost predicate StaticFramesTraceless(c: Computation)
    decreases c
  {
    && (c.msg.isStatic ==> Traceless(c))
    && forall k | 0 <= k < |c.children| :: StaticFramesTraceless(c.children[k])
  }

  /** Below a frame without trace there is nothing to find. */
  lemma {:induction false} TracelessTree(c: Computation)
    requires Traceless(c)
    ensures StaticFramesTraceless(c)
    decreases c
  {
    forall k | 0 <= k < |c.children|
      ensures StaticFramesTraceless(c.children[k])
    {
      TracelessTree(c.children[k]);
    }
  }

  ghost predicate ChildrenClean(c: Computation) {
    forall k | 0 <= k < |c.children| :: StaticFramesTraceless(c.children[k])
  }

  lemma StepKeepsChildren(i: Interpreter, s: Sys, c: Computation)
    requires c.status.Running?
    ensures Step(i, s, c).c.children == c.children
  {
    var op := i.decide(s.context, c.msg, c.local, s.world, c.gas);
    match op
    case CallOp(_, _, _, _, _, _, _) => assert DispatchCall(i, s, c, op).c.children == c.children;
    case CreateOp(_, _, _, _) => assert DispatchCreate(i, s, c, op).c.children == c.children;
    case _ =>
  }

  lemma {:induction false} ExecuteClean(i: Interpreter, s: Sys, c: Computation)
    requires i.fork.Byzantium? && !c.msg.isStatic && ChildrenClean(c)
    ensures ChildrenClean(Execute(i, s, c).c)
    decreases c.gas, 1
  {
    if c.status.Running? {
      StepKeepsChildren(i, s, c);
      StaticMessagesAreHarmless(i, s, c);
      match Step(i, s, c)
      case Done(s1, c1) =>
        if c1.status.Running? {
          ExecuteClean(i, s1, c1);
        }
      case Spawn(s1, c1, msg) =>
        StaticFramesOf(i, s1, msg);
        var child := Apply(i, s1, msg);
        ExecuteClean(i, child.s, Absorb(i, c1, child.c));
    }
  }

  /**
   * For every run under Byzantium rules, whatever the code: all static frames of the whole tree,
   * however deep and below whatever other frames, emitted no log and registered no refund or
   * deletion. The outermost message of a transaction is not static.
   */
  lemma {:induction false} StaticFramesOf(i: Interpreter, s: Sys, msg: Message)
    requires i.fork.Byzantium? && (msg.isStatic ==> Harmless(msg))
    ensures StaticFramesTraceless(Apply(i, s, msg).c)
    decreases msg.gas, 4
  {
    if msg.isStatic {
      StaticApply(i, s, msg);
      TracelessTree(Apply(i, s, msg).c);
    } else {
      var s1 := if msg.isCreate then s.(world := IncrementNonce(s.world, msg.storageAddress)) else s;
      if !Refused(s1.world, msg) {
        ExecuteClean(i, Entered(s1, msg), NewComputation(msg));
      }
      SameTree(i, s, s1, msg);
    }
  }

  /** Depositing code changes nothing about the frames below. */
  lemma {:induction false} SameTree(i: Interpreter, s: Sys, s1: Sys, msg: Message)
    requires i.fork.Byzantium?
    requires s1 == if msg.isCreate then s.(world := IncrementNonce(s.world, msg.storageAddress)) else s
    ensures Apply(i, s, msg).c.children
         == if Refused(s1.world, msg) then [] else Execute(i, Entered(s1, msg), NewComputation(msg)).c.children
  {
    var r := ApplyMessage(i, s1, msg);
    assert msg.isCreate && !IsError(r.c) ==> DepositCode(i.fork, r.s, r.c).c.children == r.c.children;
  }
}
