/** A fragment of the instruction set, decoded from the bytes of the code. */
module Bytecode {
  import opened Prelude
  import opened EvmTypes

  const STOP: Byte := 0x00
  const ADDRESS: Byte := 0x30
  const CALLER: Byte := 0x33
  const POP: Byte := 0x50
  const PUSH1: Byte := 0x60
  const PUSH32: Byte := 0x7f
  const CALL: Byte := 0xf1
  const SELFDESTRUCT: Byte := 0xff

  const GAS_BASE: Positive := 2
  const GAS_VERYLOW: Positive := 3
  const STACK_LIMIT: nat := 1024

  /** Addresses have 20 bytes. */
  const ADDRESS_CEILING: nat := 0x1_0000000000_0000000000_0000000000_0000000000

  /** Precompiled contracts answer instead of the code at these addresses. */
  const LAST_PRECOMPILE: Address := 8

  predicate RunsCode(a: Address) {
    a == 0 || LAST_PRECOMPILE < a
  }

  function BigEndian(bytes: Bytes): nat {
    if bytes == [] then 0 else 256 * BigEndian(bytes[..|bytes| - 1]) + bytes[|bytes| - 1]
  }

  function ToBytes(value: nat, size: nat): (r: Bytes)
    ensures |r| == size
  {
    if size == 0 then [] else ToBytes(value / 256, size - 1) + [value % 256]
  }

  /** The first value that `size` bytes cannot hold. */
  function Ceiling(size: nat): nat {
    if size == 0 then 1 else 256 * Ceiling(size - 1)
  }

  lemma {:induction false} BytesRoundTrip(value: nat, size: nat)
    requires value < Ceiling(size)
    ensures BigEndian(ToBytes(value, size)) == value
    decreases size
  {
    if size > 0 {
      BytesRoundTrip(value / 256, size - 1);
      var bytes := ToBytes(value, size);
      assert bytes[..size - 1] == ToBytes(value / 256, size - 1);
    }
  }

  /** An opcode that adds one item to the stack; `size` counts its bytes. */
  function Push(local: Local, size: nat, item: nat): Local {
    local.(pc := local.pc + size, stack := local.stack + [item])
  }

  /** An opcode of one byte that takes `count` items from the stack. */
  function Pop(local: Local, count: nat): Local
    requires count <= |local.stack|
  {
    local.(pc := local.pc + 1, stack := local.stack[..|local.stack| - count])
  }

  /**
   * CALL takes gas, target, value and two memory ranges; here only calls that touch no memory.
   * The top of the stack is its last item.
   */
  function DecodeCall(local: Local): Option<Op> {
    var n := |local.stack|;
    if n < 7 || local.stack[n - 5] != 0 || local.stack[n - 7] != 0 then None
    else
      Some(CallOp(Call, local.stack[n - 1], local.stack[n - 2] % ADDRESS_CEILING, local.stack[n - 3], 0, [],
                  Pop(local, 7)))
  }

  /** PUSH1 to PUSH32 with all of their `size` bytes. */
  function DecodePush(code: Bytes, local: Local, size: nat): Option<Op> {
    var start, end := local.pc + 1, local.pc + 1 + size;
    if end > |code| then None
    else Some(Other(GAS_VERYLOW, Push(local, 1 + size, BigEndian(code[start..end]))))
  }

  /** What the code asks for next. None: outside the fragment. Code that is exhausted stops. */
  function Decode(msg: Message, local: Local): Option<Op> {
    var code, pc, n := msg.code, local.pc, |local.stack|;
    if !RunsCode(msg.codeAddress) then None
    else if pc >= |code| || code[pc] == STOP then Some(Stop)
    else if code[pc] == ADDRESS && n < STACK_LIMIT then Some(Other(GAS_BASE, Push(local, 1, msg.storageAddress)))
    else if code[pc] == CALLER && n < STACK_LIMIT then Some(Other(GAS_BASE, Push(local, 1, msg.sender)))
    else if code[pc] == POP && n > 0 then Some(Other(GAS_BASE, Pop(local, 1)))
    else if PUSH1 <= code[pc] <= PUSH32 && n < STACK_LIMIT then DecodePush(code, local, code[pc] - 95)
    else if code[pc] == CALL then DecodeCall(local)
    else if code[pc] == SELFDESTRUCT && n > 0 then Some(SelfDestruct(local.stack[n - 1] % ADDRESS_CEILING))
    else None
  }

  /** An interpreter that does what the code says, on the fragment, and pushes what a child leaves. */
  ghost predicate FollowsCode(i: Interpreter) {
    && (forall context, msg, local, w, gas ::
          Decode(msg, local).Some? ==> i.decide(context, msg, local, w, gas) == Decode(msg, local).value)
    && (forall local, item, data ::
          var r := i.resume(local, item, data);
          r.pc == local.pc && r.stack == local.stack + [item])
  }

  /** The fragment and nothing else. */
  function Fragment(fork: Fork): Interpreter {
    Interpreter(
      fork,
      (context: TxContext, msg: Message, local: Local, w: World, gas: nat) =>
        match Decode(msg, local) case Some(op) => op case None => Fault,
      (local: Local, item: nat, data: Bytes) => Push(local, 0, item),
      (a: Address, nonce: nat) => a)
  }

  lemma FragmentFollows(fork: Fork)
    ensures FollowsCode(Fragment(fork))
  {
  }

  // --- Straight-line code ---

  /** The code runs at all, and `rest` is what is still ahead. */
  ghost predicate Ahead(msg: Message, pc: nat, rest: Bytes) {
    RunsCode(msg.codeAddress) && pc <= |msg.code| && msg.code[pc..] == rest
  }

  /** What is ahead starts with `head`, then `data`. */
  lemma AheadAt(msg: Message, local: Local, head: Byte, data: Bytes, tail: Bytes)
    requires Ahead(msg, local.pc, ([head] + data) + tail)
    ensures
      var code, start, end := msg.code, local.pc + 1, local.pc + 1 + |data|;
      end <= |code| && code[local.pc] == head && code[start..end] == data && code[end..] == tail
  {
    var code, pc := msg.code, local.pc;
    var rest := code[pc..];
    assert rest[0] == head && code[pc] == rest[0];
    assert rest[1..1 + |data|] == data && code[pc + 1..pc + 1 + |data|] == rest[1..1 + |data|];
    assert rest[1 + |data|..] == tail && code[pc + 1 + |data|..] == rest[1 + |data|..];
  }

  lemma DecodesPush(msg: Message, local: Local, size: nat)
    requires RunsCode(msg.codeAddress) && local.pc < |msg.code| && |local.stack| < STACK_LIMIT
    requires 1 <= size <= 32 && msg.code[local.pc] == 95 + size
    ensures Decode(msg, local) == DecodePush(msg.code, local, size)
  {
  }

  lemma {:induction false} PushAt(msg: Message, local: Local, data: Bytes)
    requires RunsCode(msg.codeAddress) && |local.stack| < STACK_LIMIT && 1 <= |data| <= 32
    requires local.pc + 1 + |data| <= |msg.code| && msg.code[local.pc] == 95 + |data|
    requires msg.code[local.pc + 1..local.pc + 1 + |data|] == data
    ensures Decode(msg, local) == Some(Other(GAS_VERYLOW, Push(local, 1 + |data|, BigEndian(data))))
  {
    DecodesPush(msg, local, |data|);
    PushedValue(msg.code, local, data);
  }

  lemma {:induction false} PushDecoded(msg: Message, local: Local, data: Bytes, tail: Bytes)
    requires 1 <= |data| <= 32 && Ahead(msg, local.pc, ([95 + |data|] + data) + tail)
    requires |local.stack| < STACK_LIMIT
    ensures Decode(msg, local) == Some(Other(GAS_VERYLOW, Push(local, 1 + |data|, BigEndian(data))))
    ensures Ahead(msg, local.pc + 1 + |data|, tail)
  {
    AheadAt(msg, local, 95 + |data|, data, tail);
    PushAt(msg, local, data);
  }

  lemma {:induction false} PushedValue(code: Bytes, local: Local, data: Bytes)
    requires local.pc + 1 + |data| <= |code| && code[local.pc + 1..local.pc + 1 + |data|] == data
    ensures DecodePush(code, local, |data|) == Some(Other(GAS_VERYLOW, Push(local, 1 + |data|, BigEndian(data))))
  {
  }

  lemma PlainDecoded(msg: Message, local: Local, opcode: Byte, tail: Bytes)
    requires Ahead(msg, local.pc, [opcode] + tail) && |local.stack| < STACK_LIMIT
    ensures opcode == ADDRESS ==>
      Decode(msg, local) == Some(Other(GAS_BASE, Push(local, 1, msg.storageAddress)))
    ensures opcode == CALLER ==> Decode(msg, local) == Some(Other(GAS_BASE, Push(local, 1, msg.sender)))
    ensures opcode == POP && local.stack != [] ==> Decode(msg, local) == Some(Other(GAS_BASE, Pop(local, 1)))
    ensures opcode == CALL ==> Decode(msg, local) == DecodeCall(local)
    ensures opcode == SELFDESTRUCT && local.stack != [] ==>
      Decode(msg, local) == Some(SelfDestruct(local.stack[|local.stack| - 1] % ADDRESS_CEILING))
    ensures Ahead(msg, local.pc + 1, tail)
  {
    assert [opcode] + tail == ([opcode] + []) + tail;
    AheadAt(msg, local, opcode, [], tail);
  }

  /** `n` opcodes on stack and memory lead from `local` to `end` and cost `gas`. */
  ghost predicate Plain(msg: Message, local: Local, n: nat, end: Local, gas: nat)
    decreases n, local
  {
    if n == 0 then local == end && gas == 0
    else
      match Decode(msg, local)
      case Some(Other(cost, next)) => cost <= gas && Plain(msg, next, n - 1, end, gas - cost)
      case _ => false
  }

  lemma PlainCons(msg: Message, local: Local, cost: Positive, next: Local, n: nat, end: Local, gas: nat)
    requires Decode(msg, local) == Some(Other(cost, next)) && Plain(msg, next, n, end, gas)
    ensures Plain(msg, local, n + 1, end, cost + gas)
  {
  }

  lemma {:induction false} PlainOne(msg: Message, local: Local, cost: Positive, next: Local)
    requires Decode(msg, local) == Some(Other(cost, next))
    ensures Plain(msg, local, 1, next, cost)
  {
    PlainCons(msg, local, cost, next, 0, next, 0);
  }

  /** Each item fits a PUSH. */
  predicate Pushable(items: seq<Bytes>) {
    forall k | 0 <= k < |items| :: 1 <= |items[k]| <= 32
  }

  /** Code that pushes the items one after the other. */
  function Pushes(items: seq<Bytes>): Bytes
    requires Pushable(items)
  {
    if items == [] then [] else ([95 + |items[0]|] + items[0]) + Pushes(items[1..])
  }

  function Values(items: seq<Bytes>): (r: seq<nat>)
    ensures |r| == |items|
  {
    if items == [] then [] else [BigEndian(items[0])] + Values(items[1..])
  }

  lemma {:induction false} ValuesCons(item: Bytes, items: seq<Bytes>)
    ensures Values([item] + items) == [BigEndian(item)] + Values(items)
  {
    assert ([item] + items)[1..] == items;
  }

  lemma {:induction false} PushesRun(msg: Message, local: Local, items: seq<Bytes>, tail: Bytes) returns (end: Local)
    requires Pushable(items) && |local.stack| + |items| <= STACK_LIMIT && Ahead(msg, local.pc, Pushes(items) + tail)
    ensures Plain(msg, local, |items|, end, GAS_VERYLOW * |items|)
    ensures end.stack == local.stack + Values(items) && Ahead(msg, end.pc, tail)
    decreases |items|
  {
    if items == [] {
      assert [] + tail == tail;
      end := local;
    } else {
      var first, rest := items[0], items[1..];
      Regroup([95 + |first|] + first, Pushes(rest), tail);
      PushDecoded(msg, local, first, Pushes(rest) + tail);
      var next := Push(local, 1 + |first|, BigEndian(first));
      end := PushesRun(msg, next, rest, tail);
      PlainCons(msg, local, GAS_VERYLOW, next, |rest|, end, GAS_VERYLOW * |rest|);
      Regroup(local.stack, [BigEndian(first)], Values(rest));
    }
  }

  lemma Regroup<T>(a: seq<T>, b: seq<T>, c: seq<T>)
    ensures (a + b) + c == a + (b + c)
  {
  }
}
