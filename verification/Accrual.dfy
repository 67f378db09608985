/**
 * What a transaction accrues: the getters that walk the computation tree, compared with the
 * substate that execution threads through and rolls back with each failed frame.
 */
module Accrual {
  import opened EvmTypes
  import opened Frames
  import opened KeyedSort

  // --- The getters over the tree ---

  /** Log entries are compared by the counter that all frames of a transaction share. */
  function LogKey(entry: LogEntry): int {
    entry.counter
  }

  /** Logs of a frame and its children, ordered by the shared counter; a failed frame has none. */
  function LogEntries(c: Computation): seq<LogEntry>
    decreases c, 1
  {
    if IsError(c) then [] else SortBy(c.logs + ChildLogs(c.children), LogKey)
  }

  function ChildLogs(children: seq<Computation>): seq<LogEntry>
    decreases children, 0
  {
    if children == [] then []
    else ChildLogs(children[..|children| - 1]) + LogEntries(children[|children| - 1])
  }

  function GasRefund(c: Computation): nat
    decreases c, 1
  {
    if IsError(c) then 0 else c.refunded + ChildRefunds(c.children)
  }

  function ChildRefunds(children: seq<Computation>): nat
    decreases children, 0
  {
    if children == [] then 0
    else ChildRefunds(children[..|children| - 1]) + GasRefund(children[|children| - 1])
  }

  /** Accounts registered for deletion, with the beneficiary of each. */
  function AccountsForDeletion(c: Computation): map<Address, Address>
    decreases c, 1
  {
    if IsError(c) then map[] else c.deletions + ChildDeletions(c.children)
  }

  function ChildDeletions(children: seq<Computation>): map<Address, Address>
    decreases children, 0
  {
    if children == [] then map[]
    else ChildDeletions(children[..|children| - 1]) + AccountsForDeletion(children[|children| - 1])
  }

  // --- Emission order ---

  /** Emitted one after the other while the shared counter went from `lo` to `hi`. */
  ghost predicate Emitted(logs: seq<LogEntry>, lo: nat, hi: nat) {
    && lo <= hi
    && Increasing(logs, LogKey)
    && forall k | 0 <= k < |logs| :: lo <= logs[k].counter < hi
  }

  /** Logs emitted later go to the end, wherever they sit in the tree. */
  lemma {:induction false} LaterLogsLast(
      older: seq<LogEntry>, newer: seq<LogEntry>, all: seq<LogEntry>, lo: nat, mid: nat, hi: nat)
    requires Emitted(SortBy(older, LogKey), lo, mid) && Emitted(newer, mid, hi)
    requires multiset(all) == multiset(older) + multiset(newer)
    ensures SortBy(all, LogKey) == SortBy(older, LogKey) + newer
    ensures Emitted(SortBy(all, LogKey), lo, hi)
  {
    SortAppend(older, newer, all, LogKey, mid);
  }

  // --- The tree agrees with the threaded substate ---

  function LogsSoFar(c: Computation): seq<LogEntry> {
    SortBy(c.logs + ChildLogs(c.children), LogKey)
  }

  ghost predicate LogsAccrued(entry: Sys, s: Sys, c: Computation) {
    && Emitted(LogsSoFar(c), entry.nextLog, s.nextLog)
    && s.live.logs == entry.live.logs + LogsSoFar(c)
  }

  ghost predicate RefundAccrued(entry: Sys, s: Sys, c: Computation) {
    s.live.refund == entry.live.refund + c.refunded + ChildRefunds(c.children)
  }

  ghost predicate DeletionsAccrued(entry: Sys, s: Sys, c: Computation) {
    s.live.deletions == entry.live.deletions + (c.deletions + ChildDeletions(c.children)).Keys
  }

  /** The substate before the frame plus what the frame and its children collected. */
  ghost predicate Accrued(entry: Sys, s: Sys, c: Computation) {
    LogsAccrued(entry, s, c) && RefundAccrued(entry, s, c) && DeletionsAccrued(entry, s, c)
  }

  /** A finished frame contributes what the getters report, and nothing if it failed. */
  ghost predicate Contributes(entry: Sys, r: Outcome) {
    && Emitted(LogEntries(r.c), entry.nextLog, r.s.nextLog)
    && r.s.live.logs == entry.live.logs + LogEntries(r.c)
    && r.s.live.refund == entry.live.refund + GasRefund(r.c)
    && r.s.live.deletions == entry.live.deletions + AccountsForDeletion(r.c).Keys
  }

  lemma StartAccrued(s: Sys, c: Computation)
    requires c.logs == [] && c.refunded == 0 && c.deletions == map[] && c.children == []
    ensures Accrued(s, s, c)
  {
  }

  /** A dispatch that emits no log and registers no deletion; a refund shows on both sides. */
  ghost predicate Quiet(s: Sys, c: Computation, r: Dispatch) {
    && r.c.logs == c.logs && r.c.deletions == c.deletions && r.c.children == c.children
    && r.s.nextLog == s.nextLog
    && r.s.live.logs == s.live.logs && r.s.live.deletions == s.live.deletions
    && r.s.live.refund - s.live.refund == r.c.refunded - c.refunded
  }

  lemma QuietStep(i: Interpreter, s: Sys, c: Computation)
    requires c.status.Running?
    requires var op := i.decide(s.context, c.msg, c.local, s.world, c.gas); !op.Log? && !op.SelfDestruct?
    ensures Quiet(s, c, Step(i, s, c))
  {
    var op := i.decide(s.context, c.msg, c.local, s.world, c.gas);
    match op
    case CallOp(_, _, _, _, _, _, _) => assert Quiet(s, c, DispatchCall(i, s, c, op));
    case CreateOp(_, _, _, _) => assert Quiet(s, c, DispatchCreate(i, s, c, op));
    case _ =>
  }

  lemma QuietAccrues(entry: Sys, s: Sys, c: Computation, r: Dispatch)
    requires Accrued(entry, s, c) && Quiet(s, c, r)
    ensures Accrued(entry, r.s, r.c)
  {
  }

  lemma StepAccrues(entry: Sys, i: Interpreter, s: Sys, c: Computation)
    requires c.status.Running? && Accrued(entry, s, c)
    ensures Step(i, s, c).s.nextLog >= s.nextLog
    ensures !IsError(Step(i, s, c).c) ==> Accrued(entry, Step(i, s, c).s, Step(i, s, c).c)
  {
    var op := i.decide(s.context, c.msg, c.local, s.world, c.gas);
    if op.Log? {
      LogAccrues(entry, i.fork, s, c, op);
    } else if op.SelfDestruct? {
      SelfDestructAccrues(entry, i.fork, s, c, op.beneficiary);
    } else {
      QuietStep(i, s, c);
      QuietAccrues(entry, s, c, Step(i, s, c));
    }
  }

  lemma SelfDestructAccrues(entry: Sys, fork: Fork, s: Sys, c: Computation, beneficiary: Address)
    requires c.status.Running? && Accrued(entry, s, c)
    ensures
      var r := DispatchSelfDestruct(fork, s, c, beneficiary);
      r.s.nextLog == s.nextLog && (!IsError(r.c) ==> Accrued(entry, r.s, r.c))
  {
    var r := DispatchSelfDestruct(fork, s, c, beneficiary);
    if !IsError(r.c) {
      assert (r.c.deletions + ChildDeletions(c.children)).Keys
          == (c.deletions + ChildDeletions(c.children)).Keys + {c.msg.storageAddress};
    }
  }

  lemma {:induction false} SortedGrowth(
      base: seq<LogEntry>, older: seq<LogEntry>, newer: seq<LogEntry>, all: seq<LogEntry>,
      lo: nat, mid: nat, hi: nat)
    requires Emitted(SortBy(older, LogKey), lo, mid) && Emitted(newer, mid, hi)
    requires multiset(all) == multiset(older) + multiset(newer)
    ensures Emitted(SortBy(all, LogKey), lo, hi)
    ensures (base + SortBy(older, LogKey)) + newer == base + SortBy(all, LogKey)
  {
    LaterLogsLast(older, newer, all, lo, mid, hi);
    ConcatAssociative(base, SortBy(older, LogKey), newer);
  }

  /** New logs, found anywhere in the tree, continue both the list and the sorted tree. */
  lemma LogsGrow(entry: Sys, s: Sys, c: Computation, newer: seq<LogEntry>, s1: Sys, c1: Computation)
    requires LogsAccrued(entry, s, c)
    requires Emitted(newer, s.nextLog, s1.nextLog) && s1.live.logs == s.live.logs + newer
    requires multiset(c1.logs + ChildLogs(c1.children))
          == multiset(c.logs + ChildLogs(c.children)) + multiset(newer)
    ensures LogsAccrued(entry, s1, c1)
  {
    SortedGrowth(entry.live.logs, c.logs + ChildLogs(c.children), newer, c1.logs + ChildLogs(c1.children),
                 entry.nextLog, s.nextLog, s1.nextLog);
  }

  lemma LogAccrues(entry: Sys, fork: Fork, s: Sys, c: Computation, op: Op)
    requires c.status.Running? && Accrued(entry, s, c) && op.Log?
    ensures
      var r := DispatchLog(fork, s, c, op);
      r.s.nextLog >= s.nextLog && (!IsError(r.c) ==> Accrued(entry, r.s, r.c))
  {
    var r := DispatchLog(fork, s, c, op);
    if !IsError(r.c) {
      var e := LogEntry(s.nextLog, c.msg.storageAddress, op.topics, op.data);
      assert r.c.logs == c.logs + [e] && r.c.children == c.children;
      OneMoreLog(c.logs, e, ChildLogs(c.children));
      LogsGrow(entry, s, c, [e], r.s, r.c);
    }
  }

  lemma OneMoreLog(logs: seq<LogEntry>, e: LogEntry, rest: seq<LogEntry>)
    ensures multiset((logs + [e]) + rest) == multiset(logs + rest) + multiset([e])
  {
  }

  lemma {:induction false} ChildrenAppend(children: seq<Computation>, child: Computation)
    ensures ChildLogs(children + [child]) == ChildLogs(children) + LogEntries(child)
    ensures ChildRefunds(children + [child]) == ChildRefunds(children) + GasRefund(child)
    ensures ChildDeletions(children + [child]) == ChildDeletions(children) + AccountsForDeletion(child)
  {
    var all := children + [child];
    assert all[..|all| - 1] == children;
  }

  lemma {:induction false} AbsorbedLogs(own: seq<LogEntry>, children: seq<Computation>, child: Computation)
    ensures multiset(own + ChildLogs(children + [child]))
         == multiset(own + ChildLogs(children)) + multiset(LogEntries(child))
  {
    ChildrenAppend(children, child);
    ConcatAssociative(own, ChildLogs(children), LogEntries(child));
  }

  lemma AbsorbLogs(entry: Sys, i: Interpreter, s: Sys, c: Computation, r: Outcome)
    requires LogsAccrued(entry, s, c) && Contributes(s, r)
    ensures LogsAccrued(entry, r.s, Absorb(i, c, r.c))
  {
    AbsorbedLogs(c.logs, c.children, r.c);
    LogsGrow(entry, s, c, LogEntries(r.c), r.s, Absorb(i, c, r.c));
  }

  lemma AbsorbDeletions(entry: Sys, i: Interpreter, s: Sys, c: Computation, r: Outcome)
    requires DeletionsAccrued(entry, s, c) && Contributes(s, r)
    ensures DeletionsAccrued(entry, r.s, Absorb(i, c, r.c))
  {
    ChildrenAppend(c.children, r.c);
    assert (c.deletions + (ChildDeletions(c.children) + AccountsForDeletion(r.c))).Keys
        == (c.deletions + ChildDeletions(c.children)).Keys + AccountsForDeletion(r.c).Keys;
  }

  lemma AbsorbAccrues(entry: Sys, i: Interpreter, s: Sys, c: Computation, r: Outcome)
    requires Accrued(entry, s, c) && Contributes(s, r)
    ensures Accrued(entry, r.s, Absorb(i, c, r.c))
  {
    AbsorbLogs(entry, i, s, c, r);
    AbsorbDeletions(entry, i, s, c, r);
    ChildrenAppend(c.children, r.c);
  }

  /** At the end of a frame the running account turns into the getters' report. */
  lemma FrameContributes(entry: Sys, s: Sys, r: Outcome)
    requires entry.nextLog == s.nextLog && entry.live == s.live && entry.nextLog <= r.s.nextLog
    requires !IsError(r.c) ==> Accrued(entry, r.s, r.c)
    ensures Contributes(s, if IsError(r.c) then Outcome(Rollback(r.s, s), r.c) else r)
  {
    if IsError(r.c) {
      assert LogEntries(r.c) == [] && GasRefund(r.c) == 0 && AccountsForDeletion(r.c) == map[];
    } else {
      assert LogEntries(r.c) == LogsSoFar(r.c);
    }
  }

  lemma {:induction false} ExecuteAccrues(entry: Sys, i: Interpreter, s: Sys, c: Computation)
    requires c.status.Running? ==> Accrued(entry, s, c)
    requires !IsError(c) ==> Accrued(entry, s, c)
    requires entry.nextLog <= s.nextLog
    ensures
      var r := Execute(i, s, c);
      entry.nextLog <= r.s.nextLog && (!IsError(r.c) ==> Accrued(entry, r.s, r.c))
    decreases c.gas, 1
  {
    if c.status.Running? {
      StepAccrues(entry, i, s, c);
      match Step(i, s, c)
      case Done(s1, c1) =>
        if c1.status.Running? {
          ExecuteAccrues(entry, i, s1, c1);
        }
      case Spawn(s1, c1, msg) =>
        ApplyAccrues(i, s1, msg);
        var child := Apply(i, s1, msg);
        AbsorbAccrues(entry, i, s1, c1, child);
        ExecuteAccrues(entry, i, child.s, Absorb(i, c1, child.c));
    }
  }

  lemma EnteredLive(s: Sys, msg: Message)
    ensures Entered(s, msg).live == s.live && Entered(s, msg).nextLog == s.nextLog
  {
  }

  lemma {:induction false} ApplyMessageAccrues(i: Interpreter, s: Sys, msg: Message)
    ensures Contributes(s, ApplyMessage(i, s, msg))
    decreases msg.gas, 2
  {
    if !Refused(s.world, msg) {
      var entered := Entered(s, msg);
      EnteredLive(s, msg);
      StartAccrued(entered, NewComputation(msg));
      ExecuteAccrues(entered, i, entered, NewComputation(msg));
      FrameContributes(entered, s, Execute(i, entered, NewComputation(msg)));
    }
  }

  lemma DepositAccrues(fork: Fork, entry: Sys, r: Outcome)
    requires Contributes(entry, r) && !IsError(r.c)
    ensures
      match DepositCode(fork, r.s, r.c)
      case Keep(s, c) => Contributes(entry, Outcome(s, c))
      case Reject(c) => Contributes(entry, Outcome(Rollback(r.s, entry), c))
  {
    var c := DepositCode(fork, r.s, r.c).c;
    assert c.logs == r.c.logs && c.children == r.c.children;
    assert c.refunded == r.c.refunded && c.deletions == r.c.deletions;
  }

  /**
   * For every run: the logs that the tree getter reports are exactly those of frames that
   * succeeded inside frames that succeeded, in the order of emission; the refund and the
   * accounts to delete are collected over exactly the same frames.
   */
  lemma {:induction false} ApplyAccrues(i: Interpreter, s: Sys, msg: Message)
    ensures Contributes(s, Apply(i, s, msg))
    decreases msg.gas, 4
  {
    var s1 := if msg.isCreate && Eip161(i.fork)
              then s.(world := IncrementNonce(s.world, msg.storageAddress)) else s;
    ApplyMessageAccrues(i, s1, msg);
    var r := ApplyMessage(i, s1, msg);
    if msg.isCreate && !IsError(r.c) {
      DepositAccrues(i.fork, s, r);
    }
  }
}
