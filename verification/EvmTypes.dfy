/** Accounts, messages and computations of the virtual machine. */
module EvmTypes {
  import opened Prelude

  const UINT256_CEILING: nat := 0x1_0000000000000000_0000000000000000_0000000000000000_0000000000000000

  const STACK_DEPTH_LIMIT: nat := 1024

  const GAS_SSET: nat := 20000
  const GAS_SRESET: nat := 5000
  const REFUND_SCLEAR: nat := 15000
  const GAS_SELFDESTRUCT_EIP150: nat := 5000
  const GAS_SELFDESTRUCT_NEWACCOUNT: nat := 25000
  const REFUND_SELFDESTRUCT: nat := 24000
  const GAS_CREATE: nat := 32000
  const GAS_CALL: nat := 40
  const GAS_CALL_EIP150: nat := 700
  const GAS_CALLVALUE: nat := 9000
  const GAS_CALLSTIPEND: nat := 2300
  const GAS_NEWACCOUNT: nat := 25000
  const GAS_LOG: nat := 375
  const GAS_LOGDATA: nat := 8
  const GAS_LOGTOPIC: nat := 375
  const GAS_CODEDEPOSIT: nat := 200
  const EIP170_CODE_SIZE_LIMIT: nat := 24577

  datatype Fork = Frontier | Homestead | TangerineWhistle | SpuriousDragon | Byzantium

  /** EIP-150 rules hold from Tangerine Whistle on, EIP-161 rules from Spurious Dragon on. */
  predicate Eip150(fork: Fork) {
    fork.TangerineWhistle? || fork.SpuriousDragon? || fork.Byzantium?
  }

  predicate Eip161(fork: Fork) {
    fork.SpuriousDragon? || fork.Byzantium?
  }

  /** Positive gas amounts: what every opcode outside the modelled ones costs at least. */
  type Positive = x: nat | x >= 1 witness 1

  type Address = nat
  type Wei = x: nat | x < UINT256_CEILING

  /**
   * Storage root and code hash stand for the contents they name, so an account holds
   * its storage and its code.
   */
  datatype Account = Account(nonce: nat, balance: Wei, code: Bytes, storage: map<nat, nat>)

  const DEFAULT_ACCOUNT: Account := Account(0, 0, [], map[])

  type World = map<Address, Account>

  function Get(w: World, a: Address): Account {
    if a in w then w[a] else DEFAULT_ACCOUNT
  }

  /** Two worlds that no account read tells apart: a missing account reads as the default one. */
  ghost predicate SameAccounts(w: World, v: World) {
    forall a: Address :: Get(w, a) == Get(v, a)
  }

  function GetStorage(w: World, a: Address, slot: nat): nat {
    var storage := Get(w, a).storage;
    if slot in storage then storage[slot] else 0
  }

  function SetStorage(w: World, a: Address, slot: nat, value: nat): World {
    var account := Get(w, a);
    var storage := if value != 0 then account.storage[slot := value] else account.storage - {slot};
    w[a := account.(storage := storage)]
  }

  function Touch(w: World, a: Address): World {
    w[a := Get(w, a)]
  }

  function IncrementNonce(w: World, a: Address): World {
    w[a := Get(w, a).(nonce := Get(w, a).nonce + 1)]
  }

  function SetCode(w: World, a: Address, code: Bytes): World {
    w[a := Get(w, a).(code := code)]
  }

  predicate HasCodeOrNonce(w: World, a: Address) {
    Get(w, a).nonce != 0 || Get(w, a).code != []
  }

  predicate IsEmpty(w: World, a: Address) {
    !HasCodeOrNonce(w, a) && Get(w, a).balance == 0
  }

  predicate IsDead(w: World, a: Address) {
    a !in w || IsEmpty(w, a)
  }

  /** What ORIGIN and GASPRICE answer, in every frame of a transaction. */
  datatype TxContext = TxContext(origin: Address, gasPrice: nat)

  datatype Message = Message(
    gas: nat,
    sender: Address,
    storageAddress: Address,
    codeAddress: Address,
    value: nat,
    data: Bytes,
    code: Bytes,
    depth: nat,
    isCreate: bool,
    transfersValue: bool,
    isStatic: bool)

  /** What an opcode that only works on stack and memory can see and change. */
  datatype Local = Local(pc: nat, stack: seq<nat>, memory: Bytes, returnData: Bytes)

  const EMPTY_LOCAL: Local := Local(0, [], [], [])

  datatype CallKind = Call | CallCode | DelegateCall | StaticCall

  /**
   * One opcode with its operands already popped. `memoryCost` is the charge for growing
   * memory and `next` the local state after the pops. `Other` stands for every opcode
   * that is not modelled; `Fault` for one that raises a VMError of its own accord.
   */
  datatype Op =
    | Other(cost: Positive, next: Local)
    | Fault
    | Stop
    | Return(memoryCost: nat, output: Bytes)
    | Revert(memoryCost: nat, output: Bytes)
    | Sstore(slot: nat, value: nat, next: Local)
    | Log(memoryCost: nat, topics: seq<nat>, data: Bytes, next: Local)
    | SelfDestruct(beneficiary: Address)
    | CallOp(kind: CallKind, gas: nat, target: Address, value: nat, memoryCost: nat, data: Bytes, next: Local)
    | CreateOp(value: nat, memoryCost: nat, initCode: Bytes, next: Local)

  /**
   * Everything the frame rules do not fix: which opcode comes next, how the result of a
   * child is handed to stack and memory, and how contract addresses are derived. The
   * theorems hold for every interpreter, hence for all code.
   */
  datatype Interpreter = Interpreter(
    fork: Fork,
    decide: (TxContext, Message, Local, World, nat) -> Op,
    resume: (Local, nat, Bytes) -> Local,
    contractAddress: (Address, nat) -> Address)

  datatype LogEntry = LogEntry(counter: nat, account: Address, topics: seq<nat>, data: Bytes)

  datatype Status = Running | Succeeded | Failed(burnsGas: bool)

  datatype Computation = Computation(
    msg: Message,
    local: Local,
    gas: nat,
    refunded: nat,
    logs: seq<LogEntry>,
    deletions: map<Address, Address>,
    children: seq<Computation>,
    status: Status,
    output: Bytes)

  function NewComputation(msg: Message): Computation {
    Computation(msg, EMPTY_LOCAL, msg.gas, 0, [], map[], [], Running, [])
  }

  predicate IsError(c: Computation) {
    c.status.Failed?
  }

  predicate BurnsGas(c: Computation) {
    c.status.Failed? && c.status.burnsGas
  }

  function GasRemaining(c: Computation): nat {
    if BurnsGas(c) then 0 else c.gas
  }

  /** The output a caller sees: erased by every error except REVERT. */
  function Output(c: Computation): Bytes {
    if BurnsGas(c) then [] else c.output
  }

  /** A VMError caught on leaving the frame: the remaining gas is consumed. */
  function Raise(c: Computation): Computation {
    c.(status := Failed(true), gas := 0)
  }

  /**
   * The accrued substate that section 6.1 of the Yellow Paper threads through execution.
   * No rule reads it; the computation tree is compared with it.
   */
  datatype Substate = Substate(logs: seq<LogEntry>, refund: nat, deletions: set<Address>)

  /**
   * `fault` records that an exception the frames do not handle was raised: a balance
   * outside uint256, or a message that arrives too deep or without funds.
   */
  datatype Sys = Sys(context: TxContext, world: World, nextLog: nat, fault: bool, live: Substate)

  function SetBalance(s: Sys, a: Address, balance: int): Sys {
    if 0 <= balance < UINT256_CEILING then
      s.(world := s.world[a := Get(s.world, a).(balance := balance)])
    else
      s.(fault := true)
  }

  function DeltaBalance(s: Sys, a: Address, delta: int): Sys {
    SetBalance(s, a, Get(s.world, a).balance + delta)
  }

  /** Undo everything a frame did to accounts and substate; counters and faults stay. */
  function Rollback(now: Sys, entry: Sys): Sys {
    now.(world := entry.world, live := entry.live)
  }
}
