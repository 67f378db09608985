/** Code as a stream of instructions, with a lazily filled cache of positions inside push data. */
module CodeStream {
  import opened Prelude

  const STOP: Byte := 0x00
  const JUMPDEST: Byte := 0x5b
  const PUSH1: Byte := 0x60
  const PUSH32: Byte := 0x7f

  predicate IsPush(opcode: Byte) {
    PUSH1 <= opcode <= PUSH32
  }

  /** An instruction is its opcode and, for PUSH1 to PUSH32, the 1 to 32 bytes after it. */
  function InstructionLength(opcode: Byte): (r: nat)
    ensures if 0x60 <= opcode <= 0x7f then r == opcode - 0x5e else r == 1
  {
    if IsPush(opcode) then 1 + (opcode - 95) else 1
  }

  /** A full scan that starts an instruction at `from` also starts one at `p`. */
  predicate ScanReaches(code: Bytes, from: nat, p: nat)
    decreases p - from
  {
    from == p
    || (from < p && from < |code| && ScanReaches(code, from + InstructionLength(code[from]), p))
  }

  predicate IsInstructionStart(code: Bytes, p: nat) {
    p < |code| && ScanReaches(code, 0, p)
  }

  lemma {:induction false} ScanExtends(code: Bytes, from: nat, p: nat)
    requires ScanReaches(code, from, p) && p < |code|
    ensures ScanReaches(code, from, p + InstructionLength(code[p]))
    decreases p - from
  {
    if from == p {
      assert ScanReaches(code, p + InstructionLength(code[p]), p + InstructionLength(code[p]));
    } else {
      ScanExtends(code, from + InstructionLength(code[from]), p);
    }
  }

  /** Of two positions the scan reaches, the later one is reached from the earlier one. */
  lemma {:induction false} ScanOrdered(code: Bytes, from: nat, p: nat, q: nat)
    requires ScanReaches(code, from, p) && ScanReaches(code, from, q) && p <= q
    ensures ScanReaches(code, p, q)
    decreases p - from
  {
    if from < p {
      ScanOrdered(code, from + InstructionLength(code[from]), p, q);
    }
  }

  /** Nothing between two consecutive instruction starts is one. */
  lemma {:induction false} PushDataUnreached(code: Bytes, p: nat, q: nat)
    requires ScanReaches(code, 0, p) && p < |code|
    requires p < q < p + InstructionLength(code[p])
    ensures !ScanReaches(code, 0, q)
  {
    if ScanReaches(code, 0, q) {
      ScanOrdered(code, 0, p, q);
    }
  }

  function Range(lo: nat, hi: nat): (r: set<nat>)
    ensures forall q: nat :: q in r <==> lo <= q < hi
    decreases hi - lo
  {
    if lo >= hi then {} else {lo} + Range(lo + 1, hi)
  }

  datatype JumpResult = Landed | InvalidJumpDestination | InvalidInstruction

  /** A stream that sits at an instruction or at the end of the code. */
  ghost predicate AtInstruction(code: Bytes, pc: nat) {
    pc == |code| || IsInstructionStart(code, pc)
  }

  /** Where control goes from an instruction: past it, or to a destination a jump accepts. */
  ghost predicate Continues(code: Bytes, pc: nat, next: nat)
    requires pc < |code|
  {
    || next == |code| <= pc + InstructionLength(code[pc])
    || next == pc + InstructionLength(code[pc]) < |code|
    || (IsInstructionStart(code, next) && code[next] == JUMPDEST)
  }

  /** However control flows, no byte of push data is ever executed. */
  lemma {:induction false} PushDataNeverExecuted(code: Bytes, trace: seq<nat>, k: nat)
    requires k < |trace| && trace[0] == 0
    requires forall j | 0 <= j < |trace| - 1 :: trace[j] < |code| && Continues(code, trace[j], trace[j + 1])
    ensures AtInstruction(code, trace[k])
  {
    if k > 0 {
      PushDataNeverExecuted(code, trace, k - 1);
      assert Continues(code, trace[k - 1], trace[k - 1 + 1]);
      ScanExtends(code, 0, trace[k - 1]);
    }
  }

  class Stream {
    const code: Bytes
    var pc: nat
    var invalidPositions: set<nat>
    var depthProcessed: nat

    constructor (code: Bytes)
      ensures Valid() && this.code == code && pc == 0 && AtInstruction(code, pc)
    {
      this.code := code;
      pc, invalidPositions, depthProcessed := 0, {}, 0;
    }

    /** Up to the depth that was processed the cache is complete; beyond it, it is only sound. */
    ghost predicate Valid()
      reads this
    {
      && pc <= |code|
      && ScanReaches(code, 0, depthProcessed)
      && (forall q: nat | q in invalidPositions :: !ScanReaches(code, 0, q))
      && (forall q: nat | q <= depthProcessed && !ScanReaches(code, 0, q) :: q in invalidPositions)
    }

    /** Answers every query, in any order, as the full scan from zero would. */
    method IsValidOpcode(position: nat) returns (r: bool)
      requires Valid()
      modifies this`invalidPositions, this`depthProcessed
      ensures Valid() && r == IsInstructionStart(code, position)
    {
      if position >= |code| {
        return false;
      }
      if position in invalidPositions {
        return false;
      }
      if position <= depthProcessed {
        return true;
      }
      var i := depthProcessed;
      while i <= position
        invariant Valid() && ScanReaches(code, 0, i) && depthProcessed <= i
        invariant forall q: nat | q < i && !ScanReaches(code, 0, q) :: q in invalidPositions
      {
        var opcode := code[i];
        ScanExtends(code, 0, i);
        forall q: nat | i < q < i + InstructionLength(opcode)
          ensures !ScanReaches(code, 0, q)
        {
          PushDataUnreached(code, i, q);
        }
        if IsPush(opcode) {
          var rightBound := i + 1 + (opcode - 95);
          invalidPositions := invalidPositions + Range(i + 1, rightBound);
          i := rightBound;
        } else {
          depthProcessed := i;
          i := i + 1;
        }
      }
      r := position !in invalidPositions;
    }

    /** Reads the opcode under the program counter; past the end that is STOP. */
    method Next() returns (opcode: Byte)
      requires Valid()
      modifies this`pc
      ensures Valid() && opcode == (if old(pc) < |code| then code[old(pc)] else STOP)
      ensures pc == if old(pc) < |code| then old(pc) + 1 else old(pc)
    {
      if pc < |code| {
        opcode := code[pc];
        pc := pc + 1;
      } else {
        opcode := STOP;
      }
    }

    method Seek(position: nat)
      requires Valid()
      modifies this`pc
      ensures Valid() && pc == if position < |code| then position else |code|
    {
      pc := if position < |code| then position else |code|;
    }

    method Peek() returns (opcode: Byte)
      requires Valid()
      modifies this`pc
      ensures Valid() && pc == old(pc) && opcode == (if pc < |code| then code[pc] else STOP)
    {
      var current := pc;
      opcode := Next();
      Seek(current);
    }

    /** Fetches an instruction with its push data, as the dispatch loop and PUSH do together. */
    method Fetch() returns (opcode: Byte, data: Bytes)
      requires Valid() && AtInstruction(code, pc)
      modifies this`pc
      ensures Valid() && AtInstruction(code, pc)
      ensures opcode == (if old(pc) < |code| then code[old(pc)] else STOP)
      ensures IsPush(opcode) ==> |data| <= opcode - 95 && old(pc) + 1 + |data| == pc && data == code[old(pc) + 1..pc]
      ensures IsPush(opcode) && pc < |code| ==> |data| == opcode - 95
      ensures old(pc) < |code| ==> Continues(code, old(pc), pc)
    {
      ghost var start := pc;
      opcode := Next();
      data := [];
      if start < |code| {
        ScanExtends(code, 0, start);
      }
      if IsPush(opcode) {
        var size := opcode - 95;
        var end := if pc + size < |code| then pc + size else |code|;
        data := code[pc..end];
        pc := end;
      }
    }

    /**
     * JUMP, and JUMPI whose condition holds: it succeeds exactly when the destination is a
     * JUMPDEST that the full scan reads as an instruction.
     */
    method Jump(destination: nat) returns (r: JumpResult)
      requires Valid()
      modifies this
      ensures Valid()
      ensures r.Landed? <==> IsInstructionStart(code, destination) && code[destination] == JUMPDEST
      ensures r.InvalidJumpDestination? <==> !(destination < |code| && code[destination] == JUMPDEST)
      ensures r.Landed? ==> pc == destination && AtInstruction(code, pc)
    {
      Seek(destination);
      var opcode := Peek();
      if opcode != JUMPDEST {
        return InvalidJumpDestination;
      }
      var valid := IsValidOpcode(destination);
      r := if valid then Landed else InvalidInstruction;
    }

    method JumpIf(destination: nat, condition: nat) returns (r: JumpResult)
      requires Valid() && AtInstruction(code, pc)
      modifies this
      ensures Valid()
      ensures condition == 0 ==> r.Landed? && pc == old(pc)
      ensures condition != 0 ==>
        (r.Landed? <==> IsInstructionStart(code, destination) && code[destination] == JUMPDEST)
      ensures condition != 0 && r.Landed? ==> pc == destination
      ensures r.Landed? ==> AtInstruction(code, pc)
    {
      r := Landed;
      if condition != 0 {
        r := Jump(destination);
      }
    }

    /** Any queries in any order: each is answered as the full scan answers it. */
    method Queries(positions: seq<nat>) returns (answers: seq<bool>)
      requires Valid()
      modifies this`invalidPositions, this`depthProcessed
      ensures Valid() && |answers| == |positions|
      ensures forall k | 0 <= k < |positions| :: answers[k] == IsInstructionStart(code, positions[k])
    {
      answers := [];
      for k := 0 to |positions|
        invariant Valid() && |answers| == k
        invariant forall j | 0 <= j < k :: answers[j] == IsInstructionStart(code, positions[j])
      {
        var answer := IsValidOpcode(positions[k]);
        answers := answers + [answer];
      }
    }
  }
}
