# A Dafny model of the py-evm core

This project models the parts of py-evm whose correctness is hardest to see by reading one
function, and proves what they are for. Every theorem is for all inputs: all code, all runs, all
interleavings, all tables.

## What is modelled

**The frame tree.** `EvmTypes`, `CallGas` and `Frames` give the meaning of a message: value
transfer, the opcodes that touch accounts (SSTORE, LOG, SELFDESTRUCT, the four CALL variants,
CREATE), the opcodes that end a frame, contract creation of every fork from Frontier to
Byzantium, and commit or rollback. All other opcodes are one constructor, `Other`, which costs at
least one gas and changes stack and memory only. Which opcode comes next is decided by an
arbitrary function of transaction context, message, local state, accounts and gas, so the theorems
hold for every contract. `Supply` proves conservation of the sum of balances, `StaticCalls`
EIP-214, `Accrual` the log, refund and deletion getters, `Transactions` gas purchase, settlement
and whole blocks. `Effects` and `Payments` read back what every opcode, message, creation and
transaction leaves in each account, slot, log and message, at what cost, and prove what follows
over whole runs: who sees whom as caller, nonces that never fall. `Bytecode` decodes a few opcodes
from the bytes of the code, and `Overflow` uses them to say exactly when a balance write can leave
uint256. `Machine` and `Executor` are the same machine as the program runs it, with mutable frames, gas
meters and a journaled account store with snapshots; every method is proved equal to the value
semantics, so the theorems carry over.

**The account store.** `Changes`, `Journal`, `Store` and `AccountDb`: tracked changes and batches,
nested changesets proved equivalent to one flat map with a stack of saved copies, the cache tied
to a trie root, and the account accessors over both.

**The chain database.** `Headers` and `ChainDb` persist headers and blocks; `ForkChoice` and
`TxLookup` say what scores, head, number index and transaction lookup hold over every run.

**The routing table.** `XorMetric`, `Buckets`, `Neighbours` and `RoutingTable`: XOR distance on ids
of any width, buckets as aligned power-of-two blocks, insertion with splitting, and the nearest
neighbours. `KeyedSort` is Python's stable `sorted` by key.

**Code stream and blob codec.** `CodeStream`, `Blobs` and `Merkle`.

## Where a promise needs a condition

- *No balance write is out of range when the supply is below 2^256* is false. SELFDESTRUCT credits
  the beneficiary before it empties the account (evm/vm/logic/system.py:73-84); when the two are
  the same account it first writes twice the balance. `Overflow.TwoOpcodesFault` gives a valid
  transaction and two bytes of code that do it; `Supply.MoveOutSupply` says exactly when the single
  opcode fails; `Overflow.SafeSupplyIsSharp` proves that a bound on the supply protects every valid
  transaction if and only if it is at most 2^255. The bound is met by every distribution of the
  balances: `Overflow.TransactionsNeverFaultIffHalf` shows, for every fork, that accounts with a
  given supply are safe whatever code they carry if and only if the supply is below 2^255. Its
  only-if half writes real code, byte by byte, for a contract that calls all others and for the
  others, which destroy themselves in its favour. It needs that the wei sit at addresses whose code
  is run: not at precompiled contracts, and within 20 bytes. Conservation itself needs no bound.
- *The number index is the head's ancestry* fails when a heavier chain with a lower head wins,
  because entries above the new head stay (evm/db/header.py:199-204). `ForkChoice.TakeOverExact`
  gives the condition for one header, a comparison of two numbers that a caller can make
  beforehand; `ForkChoice.IndexExactIffHeadNeverFalls` gives it for whole runs, both directions.
  `ForkChoice.StaleEntryMisleadsWalk` shows the later damage: the walk stops on such an entry and
  the index names a block that is not an ancestor of the head; `ForkChoice.FallingRun` is a run of
  five headers in which all this happens. `TxLookup.TakeOverLookup` gives the matching condition
  for the transaction lookup. The score properties need no condition.
- The comment in `neighbours` (p2p/kademlia.py:304-305) says that ordering buckets by midpoint is
  wrong in edge cases. It is not: because buckets are aligned blocks, `XorMetric.RepresentativesDecide`
  shows that the order of the midpoints is the order of all members, and
  `Neighbours.NeighboursAreNearest` that the result is exactly the nearest nodes for every k. The
  filter `n is not node_id` compares a node with a number and never removes anything; the model
  has no such filter.

## Reading the table

Exceptions become results: `Option`, an outcome datatype, a null frame, or the flag `fault` for
exceptions that no frame handles. A method on a class is proved equal to a function of its old
state, and the lemmas beside it are about that function.

## Model

| member | source | states |
|---|---|---|
| `CallGas.FeeCoversChild` | evm/vm/logic/call.py:30-34 | the stipend is always covered by the transfer fee, so the fee a parent pays is at least the gas the child receives, for every kind of call and every fork |
| `CallGas.AllButOne64th` | evm/vm/logic/call.py:267-285 | EIP-150: out of gas exactly when the fixed charges cannot be paid; otherwise the request is granted in full or the parent keeps a 64th of the rest, rounded down, and never less |
| `Frames.MessageCharge` | evm/vm/logic/call.py:30-34 | the fee of a message is at least the gas its child receives and never more than the frame holds |
| `Frames.CallCharge` | evm/vm/logic/call.py:36-70 | a call that can be paid leaves parent and child together with strictly less gas than the parent had, stipend included |
| `Frames.DispatchCall` | evm/vm/logic/call.py:36-131 | a CALL-like opcode ends the frame, or leaves strictly less gas, or sends a child so that both together hold strictly less |
| `Frames.DispatchCreate` | evm/vm/logic/system.py:96-159 | the same for CREATE, with the child gas of each fork |
| `Frames.StepPlain` | evm/vm/logic/system.py:23-40 | STOP, RETURN and REVERT end the frame; every other plain opcode costs at least one gas |
| `Frames.Step` | evm/vm/computation.py:527-554 | every dispatch ends the frame or leaves strictly less gas, and every child is paid for: gas is a termination measure of the whole tree |
| `Frames.Execute` | evm/vm/computation.py:527-554 | the dispatch loop terminates, ends in a finished frame for the same message and never holds more gas than at the start |
| `Frames.DepositCode` | evm/vm/forks/spurious_dragon/computation.py:47-74 | depositing code never adds gas; a rejected deposit burns the gas and a kept one is no error |
| `Frames.ApplyMessage` | evm/vm/forks/frontier/computation.py:39-76 | every message finishes, and its frame never hands back more gas than it was given |
| `Frames.ApplyCreateMessage` | evm/vm/forks/spurious_dragon/computation.py:26-74 | the same for contract creation of every fork |
| `Frames.Apply` | evm/vm/computation.py:433-446 | a child of either kind finishes and returns at most the gas it was given |
| `Supply.SupplySplit` | evm/db/account.py:269-283 | the sum of balances does not depend on the order in which accounts are added up |
| `Supply.SupplyUpdate` | evm/db/account.py:371-373 | writing one account changes the sum by the difference of its balances, and no balance exceeds the sum |
| `Supply.SetBalanceSupply` | evm/db/account.py:275-283 | a balance write moves the sum by the difference, or is out of uint256, raises and changes nothing |
| `Supply.TransferConserves` | evm/vm/forks/frontier/computation.py:43-62 | the value transfer of a funded message keeps the sum, also when sender and recipient coincide |
| `Supply.MoveOutSupply` | evm/vm/logic/system.py:73-84 | SELFDESTRUCT loses exactly the balance of an account that names itself, and overflows if and only if such an account owns at least 2^255 |
| `Supply.MoveOutNeverMints` | evm/vm/logic/system.py:73-84 | SELFDESTRUCT never raises the sum, whatever the balances |
| `Supply.SelfDestructConserves` | evm/vm/logic/system.py:43-93 | every fork's SELFDESTRUCT conserves: what is lost is lost together with a scheduled deletion |
| `Supply.SpawnConserves` | evm/vm/logic/call.py:36-131 | CALL and CREATE conserve, and a message they send is never refused for depth or funds |
| `Supply.StepConserves` | evm/vm/computation.py:527-554 | every opcode conserves, and every child message it sends is acceptable |
| `Supply.ExecuteConserves` | evm/vm/computation.py:527-554 | every frame with all frames below it conserves |
| `Supply.ApplyMessageConserves` | evm/vm/forks/frontier/computation.py:39-76 | every message, failed or not, conserves |
| `Supply.ApplyConserves` | evm/vm/forks/spurious_dragon/computation.py:26-74 | over all nested runs the sum never rises, is unchanged unless something is scheduled for deletion, and below 2^255 no exception escapes |
| `Bytecode.BytesRoundTrip` | evm/vm/logic/stack.py:10-17 | an address written as 20 bytes is read back by PUSH20 |
| `Bytecode.PushDecoded` | evm/vm/logic/stack.py:10-17 | at a complete PUSH the fragment decodes the pushed value, its cost and the code that follows |
| `Bytecode.PlainDecoded` | evm/vm/computation.py:527-554 | at ADDRESS, CALLER, POP, CALL or SELFDESTRUCT the fragment decodes that opcode with its operands |
| `Bytecode.PushesRun` | evm/vm/logic/stack.py:10-17 | code that pushes any list of items leaves exactly their values on the stack |
| `Bytecode.FragmentFollows` | evm/vm/computation.py:527-554 | there is an interpreter that does what the code says |
| `Overflow.SameSupply` | evm/db/account.py:269-283 | accounts that differ in their code only have the same supply |
| `Overflow.CallReturns` | evm/vm/logic/call.py:36-131 | the contract's CALL runs the other account's two bytes of code, moves its balance, and comes back with a flag and most of its gas, under every fork's rules |
| `Overflow.OneDonor` | evm/vm/logic/call.py:36-131 | the 36 bytes of code for one account, from the first PUSH to POP |
| `Overflow.Donated` | evm/vm/logic/system.py:73-84 | a self-destruct in favour of another account that does not overflow keeps the sum and leaves one account less to collect from |
| `Overflow.CollectorFaults` | evm/vm/logic/system.py:73-84 | under every fork, for every interpreter that follows the code and every list of accounts that carry the two-byte code: the code that calls them all and then destroys itself writes a balance out of range when together they own 2^255 |
| `Overflow.NeverFaultsIffHalf` | evm/vm/logic/system.py:73-84 | for every fork and state: below 2^255 no code and no message can write a balance out of range; from 2^255 on, where the wei sit at addresses whose code is run, some code and message do |
| `Overflow.TransactionsNeverFaultIffHalf` | evm/vm/forks/frontier/state.py:52-181 | for every fork and every distribution of balances: below 2^255 no code and no valid transaction can write a balance out of range; from 2^255 on, where the wei sit at addresses whose code is run, some code and valid transaction do |
| `Overflow.TwoOpcodesFault` | evm/vm/logic/system.py:73-84 | a supply of 2^255, an account with two bytes of code and a valid transaction without value that writes a balance out of range, for every interpreter that follows the code |
| `Overflow.SafeSupplyIsSharp` | evm/db/account.py:275-283 | a bound on the supply keeps every write of every valid transaction in range if and only if it is at most 2^255 |
| `StaticCalls.StaticStep` | evm/vm/forks/byzantium/opcodes.py:29-123 | an opcode in a static frame changes no account, log or deletion, and a child it sends is static and pays at most its own account |
| `StaticCalls.StaticMessagesAreHarmless` | evm/vm/logic/call.py:306-339 | static frames only send static messages, and every static message any frame sends transfers value from an account to itself at most |
| `StaticCalls.SelfTransfer` | evm/vm/logic/call.py:169-201 | CALLCODE with value inside a static frame leaves every account as it was |
| `StaticCalls.StaticExecute` | evm/vm/forks/byzantium/opcodes.py:29-123 | a static frame with everything below it changes no account and leaves no log, refund or deletion |
| `StaticCalls.StaticApply` | evm/vm/logic/system.py:167-171 | under Byzantium rules a static message and all its descendants leave every account read, the logs, the refund and the deletions unchanged |
| `StaticCalls.StaticFramesOf` | evm/vm/forks/byzantium/opcodes.py:29-123 | over every run: each static frame anywhere in the tree, below whatever other frames, emitted no log and registered no refund or deletion |
| `Accrual.LaterLogsLast` | evm/vm/transaction_context.py:21-24 | entries numbered later by the shared counter sort behind all earlier ones, wherever they sit in the tree |
| `Accrual.AbsorbAccrues` | evm/vm/computation.py:364-377 | a finished child adds exactly its own contribution to what its parent has collected |
| `Accrual.FrameContributes` | evm/vm/computation.py:409-431 | a failed frame contributes nothing, a successful one exactly what its getters report |
| `Accrual.ExecuteAccrues` | evm/vm/computation.py:389-431 | through every frame, the getters over the tree equal the substate that is threaded through execution and rolled back with each failed frame |
| `Accrual.DepositAccrues` | evm/vm/forks/spurious_dragon/computation.py:47-74 | a creation that fails in its code deposit contributes nothing, one that succeeds what its init code collected |
| `Accrual.ApplyAccrues` | evm/vm/computation.py:400-431 | logs, refund and deletions of a run are those of exactly the frames that succeeded with all enclosing frames, the logs in order of emission |
| `Transactions.BuyGas` | evm/vm/forks/frontier/state.py:52-61 | after buying gas the sender's nonce is positive, so the address of a new contract is well defined |
| `Transactions.ExecuteTransaction` | evm/vm/forks/frontier/state.py:40-181 | a transaction is executed exactly when it is valid, and never ends with more gas than the intrinsic cost leaves |
| `Transactions.FeesAddUp` | evm/vm/forks/frontier/state.py:138-168 | what the sender gets back and what the miner earns add up to the gas that was bought |
| `Transactions.BuyGasSupply` | evm/vm/forks/frontier/state.py:52-61 | a valid sender can pay for the gas and afterwards still for the value; the sum falls by exactly the gas price |
| `Transactions.CreditSupply` | evm/vm/forks/frontier/state.py:150-168 | refund and fee raise the sum by exactly their amount unless a write is refused, which cannot happen while the sum fits uint256 |
| `Transactions.MessageRuns` | evm/vm/forks/frontier/state.py:105-136 | the message of a valid transaction is accepted, conserves, and its getters report exactly the accrued substate |
| `Transactions.DeletionSupply` | evm/vm/forks/frontier/state.py:170-179 | deleting accounts never raises the sum |
| `Transactions.TransactionConserves` | evm/vm/forks/frontier/state.py:52-181 | gas purchase, transfers, refund and miner fee included, the supply never rises, is exactly unchanged when no account is scheduled for deletion, and below 2^255 no write fails |
| `Transactions.ChargeBounds` | evm/vm/forks/frontier/state.py:138-152 | the refund is at most half of the gas used, and at least half of the base cost is charged |
| `Transactions.CounterGrows` | evm/vm/base.py:324-342 | the header's gas counter grows strictly, by exactly the gas charged, and stays within the limit |
| `Transactions.ReceiptMatchesFee` | evm/vm/forks/frontier/__init__.py:28-53 | the miner fee and what the sender gets back are the gas price times the increment that the receipt records and times the rest |
| `Transactions.FeesFollowReceipt` | evm/vm/forks/frontier/state.py:138-181 | a valid transaction ends in the accounts of its run with sender and miner credited by what the receipt records, less the deleted ones |
| `Transactions.FinalizeSupply` | evm/vm/forks/frontier/state.py:138-181 | settlement raises the sum by exactly the price of the gas bought, unless an account is deleted or a write refused |
| `Transactions.BlockFees` | evm/vm/forks/frontier/__init__.py:28-53 | over every list of transactions, each receipt's increment over the one before is the gas charged for its transaction, with the largest refund that counter and half of the gas used allow, and the miner fee is the price of the increment |
| `Transactions.AppliedConserves` | evm/vm/base.py:324-342 | an applied transaction never raises the supply and below 2^255 raises no exception |
| `Transactions.BlockInvariant` | evm/vm/base.py:386-397 | over every list of transactions: one receipt each, cumulative gas strictly growing within the limit, supply never rising, no escaped exception below 2^255 |
| `Transactions.BlockKeepsSupply` | evm/vm/base.py:386-397 | a block in which no transaction schedules a deletion and none faults leaves the supply exactly unchanged |
| `Effects.StorageReads` | evm/db/account.py:242-258 | after a storage write the slot reads as the value, every other slot of every account and every other field as before |
| `Effects.CodeReads` | evm/db/account.py:313-321 | after a code write the account has that code; nothing else reads differently |
| `Effects.NonceReads` | evm/db/account.py:298-300 | one nonce is one higher; nothing else reads differently |
| `Effects.BalanceReads` | evm/db/account.py:275-283 | a balance in range is the one written and nothing else reads differently; any other is refused and nothing changes |
| `Effects.SstoreEffect` | evm/vm/logic/storage.py:8-49 | a frame at SSTORE: exactly that slot takes the value; 20000 or 5000 gas, 15000 refunded for clearing; failure when static or unpaid |
| `Effects.LogEffect` | evm/vm/logic/logging.py:8-37 | a frame at LOG: one entry with the frame's account, the topics and data given and the next number; 375 gas, 8 a byte and 375 a topic |
| `Effects.SelfDestructEffect` | evm/vm/logic/system.py:43-93 | a frame at SELFDESTRUCT: the beneficiary gets the whole balance, the account is left empty and registered, no one else changes; the cost of each fork |
| `Effects.HaltEffect` | evm/vm/logic/system.py:23-40 | STOP, RETURN and REVERT: the output handed over and the gas left; REVERT fails but keeps both |
| `Effects.OtherEffect` | evm/vm/computation.py:527-554 | any other opcode is charged for and changes the local state only |
| `Effects.FailureEffect` | evm/vm/computation.py:467-507 | any other failure returns neither gas nor output |
| `Effects.CallCost` | evm/vm/logic/call.py:30-34 | a call is paid for exactly when the gas covers 40 or 700, memory, 9000 for value, 25000 for a new account and what is passed on; the child gets that and a stipend of 2300 with value |
| `Effects.CallEffect` | evm/vm/logic/call.py:36-237 | a frame at CALL, CALLCODE, DELEGATECALL or STATICCALL: when it fails, when it gets the gas back and a zero, and otherwise the message of its kind: sender, recipient, value, code of the target, data, depth, staticness, gas |
| `Effects.CreateEffect` | evm/vm/logic/system.py:96-171 | a frame at CREATE: cost, refusal, nonce and address, gas passed on, collision, and the message with init code and value |
| `Effects.AbsorbEffect` | evm/vm/computation.py:364-377 | the parent finds the gas that is left, 0 for an error, the address for a creation and 1 otherwise, and the output except of a successful creation or a burning failure |
| `Effects.EntryEffect` | evm/vm/forks/frontier/computation.py:43-64 | on entry the sender has the value less and the recipient the value more, whether or not they are one account, every other account reads the same, and the recipient exists |
| `Effects.PaymentEffect` | evm/vm/forks/frontier/computation.py:39-76 | a message with value to code that stops at once moves exactly the value and nothing else |
| `Effects.FailedFrame` | evm/vm/forks/frontier/computation.py:68-74 | a frame that fails leaves accounts and substate exactly as it found them |
| `Effects.DepositEffect` | evm/vm/forks/homestead/computation.py:38-61 | what is stored, charged, refused or dropped once the init code has returned, for every fork |
| `Effects.CreationEffect` | evm/vm/forks/spurious_dragon/computation.py:26-74 | a creation without error has exactly the returned code, at 200 gas a byte, and the deposit touches nothing else; it fails if and only if the init code does, the code is too long or, after Frontier, unpaid; an error leaves nothing |
| `Effects.WithNonceEffect` | evm/vm/forks/spurious_dragon/computation.py:26-36 | from Spurious Dragon on the new account's nonce goes up by one before the init code runs |
| `Effects.ApplySends` | evm/vm/logic/call.py:36-237 | over every run, each frame of the tree was sent by the one above it in one of five ways, which fix its caller, storage, value and depth |
| `Effects.DelegationChain` | evm/vm/logic/call.py:203-237 | along every chain of DELEGATECALLs caller, value, storage and staticness are those of the frame that started it |
| `Effects.ApplyNonces` | evm/db/account.py:285-300 | over every run, failed or not, no nonce goes down |
| `Effects.ApplyContext` | evm/vm/transaction_context.py:16-32 | every frame of a run sees the same origin and gas price |
| `Payments.DataGasCounts` | evm/vm/forks/homestead/transactions.py:66-78 | 4 gas for each zero byte of the data and 68 for each other one |
| `Payments.Admission` | evm/vm/forks/frontier/validation.py:6-21 | a transaction is executed exactly when gas, balance and nonce suffice, in numbers |
| `Payments.BlockAdmission` | evm/vm/forks/frontier/validation.py:24-32 | a block takes a transaction exactly when its whole gas still fits and it is valid |
| `Payments.BuyGasReads` | evm/vm/forks/frontier/state.py:52-61 | the sender pays for the gas and uses up a nonce; no one else changes |
| `Payments.RootMessage` | evm/vm/forks/frontier/state.py:63-103 | the root frame: a creation's address comes from the nonce before the increment and it runs the data; a call runs the recipient's code on the data |
| `Payments.RootContext` | evm/vm/transaction_context.py:16-32 | in every frame of a transaction ORIGIN is its sender and GASPRICE its price |
| `Payments.CollisionEffect` | evm/vm/forks/frontier/state.py:105-136 | a creation at a taken address fails without running, with all its gas and nothing else gone |
| `Payments.DeletionRefund` | evm/vm/forks/frontier/state.py:138-142 | 24000 gas for each destroyed account on top of what was collected |
| `Payments.SettlementReads` | evm/vm/forks/frontier/state.py:138-181 | every account ends with what the run left it, the sender with the price of the gas not charged, the miner with that of the gas charged, whoever coincides; destroyed accounts are gone |
| `Payments.TransactionReads` | evm/vm/forks/frontier/state.py:40-181 | a valid transaction is its run, settled that way |
| `Payments.PlainPayment` | evm/vm/forks/frontier/state.py:40-181 | a payment to code that stops at once, whoever coincides: value to the recipient, the price of the intrinsic gas to the miner, one nonce, nothing else |
| `Payments.NoReplay` | evm/vm/forks/frontier/validation.py:20-21 | an executed transaction is not valid again while its sender's account exists |
| `Transactions.RefundIsLargest` | evm/vm/forks/frontier/state.py:144-148 | the refund granted is as much of the counter as half of the gas used allows, and not less |
| `Machine.GasMeter.Consume` | evm/vm/gas_meter.py:37-56 | consumes exactly the amount, or nothing when it does not suffice |
| `Machine.GasMeter.Return` | evm/vm/gas_meter.py:58-69 | gives gas back |
| `Machine.GasMeter.Refund` | evm/vm/gas_meter.py:71-82 | adds to the refund |
| `Machine.Frame.Fail` | evm/vm/computation.py:467-507 | leaving a frame with a VM error consumes all gas left |
| `Machine.Frame.Absorbs` | evm/vm/computation.py:364-377 | a finished child is recorded, and its remaining gas and result reach the parent |
| `Machine.Vm.Sstore` | evm/vm/logic/storage.py:8-49 | storage write with its cost and refund, as the value semantics has it, writing to the latest changeset only |
| `Machine.Vm.Log` | evm/vm/logic/logging.py:8-37 | one log entry with the next shared counter |
| `Machine.Vm.SelfDestruct` | evm/vm/logic/system.py:43-93 | cost of the fork, move of the balance, registration for deletion |
| `Machine.Vm.ChargeCall` | evm/vm/logic/call.py:36-70 | the three charges of a call, in order, amount to the charge of the value semantics |
| `Machine.Vm.CallOpcode` | evm/vm/logic/call.py:36-131 | a whole call, child run included, is the value-level dispatch |
| `Machine.Vm.CreateOpcode` | evm/vm/logic/system.py:96-171 | a whole creation, child run included, is the value-level dispatch |
| `Machine.Vm.DispatchNext` | evm/vm/computation.py:527-554 | one turn of the loop is one step of the value semantics, and only the latest changeset is written to |
| `Machine.Vm.ApplyComputation` | evm/vm/computation.py:527-554 | the loop computes the value-level run and leaves the list of changesets with the same ids |
| `Machine.Vm.Enter` | evm/vm/forks/frontier/computation.py:43-64 | transfer and touch, or nothing when the sender cannot pay |
| `Machine.Vm.Leave` | evm/vm/state.py:133-159 | reverting to a frame's snapshot restores accounts and the changeset list exactly; committing changes no read and writes only to the changeset before it |
| `Machine.Vm.ApplyMessage` | evm/vm/forks/frontier/computation.py:39-76 | refused exactly when too deep or unfunded; otherwise equal to the value semantics, and after an error accounts and the whole changeset list are as on entry |
| `Machine.Vm.Deposit` | evm/vm/forks/homestead/computation.py:38-61 | charges for and stores the code as each fork does, or marks the frame failed |
| `Machine.Vm.SnapshotCreate` | evm/vm/forks/homestead/computation.py:25-61 | raises exactly for a refused message; the outer snapshot undoes a failed creation completely, the changeset list included |
| `Machine.Vm.ApplyCreateMessage` | evm/vm/forks/spurious_dragon/computation.py:26-74 | raises exactly for a message that is too deep or unfunded; every fork's creation equals the value semantics; after an error accounts and changesets are as on entry |
| `Machine.Vm.ApplyAny` | evm/vm/computation.py:364-377 | either kind of message, at any depth: errors leave no trace in accounts or changesets, and in every case the list of changeset ids is the one on entry |
| `Machine.CompleteProgress` | evm/vm/computation.py:527-554 | a turn of the loop, child included, leaves strictly less gas in a running frame and the same final outcome |
| `Executor.Validate` | evm/vm/forks/frontier/validation.py:6-21 | accepts exactly the valid transactions and changes nothing |
| `Executor.PayUpfront` | evm/vm/forks/frontier/state.py:52-61 | debits the gas fee and increments the nonce |
| `Executor.MakeMessage` | evm/vm/forks/frontier/state.py:63-103 | builds the message of a call or a creation |
| `Executor.RunMessage` | evm/vm/forks/frontier/state.py:105-136 | a creation at an occupied address fails without running, a refused message raises, everything else runs |
| `Executor.PayOut` | evm/vm/forks/frontier/state.py:144-168 | refund and miner fee as the value semantics settles them |
| `Executor.DeleteAll` | evm/vm/forks/frontier/state.py:170-179 | removes exactly the registered accounts, in any order |
| `Executor.FinalizeComputation` | evm/vm/forks/frontier/state.py:138-181 | deletion refund, settlement and deletions together |
| `Executor.Transact` | evm/vm/state.py:210-221 | an invalid transaction changes no account; a valid one ends in the value-level result |
| `Executor.ApplyOne` | evm/vm/base.py:324-342 | refused transactions change no account; applied ones give the accounts, receipt and header of the value semantics |
| `Executor.ApplyAllTransactions` | evm/vm/base.py:386-397 | the loop gives header and receipts of the value-level block; the supply never rises and no exception escapes below 2^255 |
| `Changes.ApplyTo` | evm/db/diff.py:121-139 | writing changes one by one in any order gives the overlay, with or without deletions |
| `Changes.JoinApplies` | evm/db/diff.py:141-152 | applying the join of diffs equals applying them in order, on every database |
| `Changes.Join` | evm/db/diff.py:141-152 | the loop over one tracker computes the join, which is correct on every database |
| `Changes.BatchDB.GetItem` | evm/db/batch.py:56-65 | reads see the pending changes over the wrapped database |
| `Changes.BatchDB.SetItem` | evm/db/batch.py:67-68 | a write shows in the reads and touches nothing else |
| `Changes.BatchDB.DeleteItem` | evm/db/batch.py:70-73 | a deletion raises exactly for unreadable keys and removes exactly that key from the reads |
| `Changes.BatchDB.Commit` | evm/db/batch.py:44-46 | with deletes no read changes; without them no key leaves the wrapped database and only keys pending deletion read differently |
| `Changes.BatchDB.Clear` | evm/db/batch.py:41-42 | drops all pending changes |
| `Journal.ReadsMerged` | evm/db/journal.py:80-102 | reading through a stack of changesets is reading through their merge |
| `Journal.IndexAgrees` | evm/db/journal.py:80-95 | the changesets a commit or discard finds are those of the flat model |
| `Journal.DiscardRefines` | evm/db/journal.py:216-221 | discard goes back to the saved copy |
| `Journal.CommitRefines` | evm/db/journal.py:223-247 | commit drops the saved copy and keeps the current map, for inner changesets and for the root |
| `Journal.StepRefines` | evm/db/journal.py:173-247 | every operation does to reads and saved copies what the flat model does |
| `Journal.RunRefines` | evm/db/journal.py:173-260 | over every interleaving the journal is one flat map with a stack of saved copies |
| `Journal.StepValid` | evm/db/journal.py:71-120 | changeset ids stay distinct and are never reused |
| `Journal.LiveThroughout` | evm/db/journal.py:80-120 | while a changeset stays live, nothing below it changes and nothing is written through |
| `Journal.DeadStays` | evm/db/journal.py:71-120 | a changeset id that is gone never comes back |
| `Journal.DiscardRestores` | evm/db/journal.py:210-221 | whatever happens in between, discarding a changeset that is still live restores exactly the reads, and the changesets, at the moment it was recorded |
| `Journal.CommitKeepsReads` | evm/db/journal.py:223-247 | no commit changes a read, the root commit that writes through included |
| `Store.CacheDB.GetItem` | evm/db/cache.py:19-22 | answers as the trie would, whatever was evicted, for absent keys too |
| `Store.CacheDB.SetItem` | evm/db/cache.py:24-26 | writes through and keeps the cache coherent |
| `Store.CacheDB.DeleteItem` | evm/db/cache.py:28-31 | deletes below and forgets the entry |
| `Store.CacheDB.SetRoot` | evm/db/account.py:216-219 | after a root change nothing stale is cached |
| `Store.JournalDB.Find` | evm/db/journal.py:122-134 | the search from the latest changeset down decides the read, and tells values from deletion marks |
| `Store.JournalDB.GetItem` | evm/db/journal.py:173-181 | a read through journal, cache and trie is a read of one flat map |
| `Store.JournalDB.SetItem` | evm/db/journal.py:183-188 | one set operation of the journal model; raises without a changeset |
| `Store.JournalDB.DeleteItem` | evm/db/journal.py:193-199 | one delete operation; raises KeyError for keys with no value in the journal and none below if the wrapped store can tell, and always writes the mark over the trie cache, which cannot |
| `Store.JournalDB.Record` | evm/db/journal.py:210-214 | one record operation, with an id never used before |
| `Store.JournalDB.Discard` | evm/db/journal.py:216-221 | one discard operation; raises exactly for unknown changesets |
| `Store.JournalDB.WriteThrough` | evm/db/journal.py:238-247 | writing the popped changes key by key gives their overlay on the wrapped database |
| `Store.JournalDB.Commit` | evm/db/journal.py:223-247 | one commit operation; raises exactly for unknown changesets |
| `Store.JournalDB.Persist` | evm/db/journal.py:249-253 | no read changes, and afterwards the wrapped database holds everything |
| `AccountDb.AccountDB.GetAccount` | evm/db/account.py:363-369 | reads the flat account map, the default account for a missing one |
| `AccountDb.AccountDB.SetAccount` | evm/db/account.py:371-373 | updates the flat map at one address and only the latest changeset |
| `AccountDb.AccountDB.SetBalance` | evm/db/account.py:275-283 | updates one balance, or raises and changes nothing outside uint256 |
| `AccountDb.AccountDB.IncrementNonce` | evm/db/account.py:298-300 | adds one to one nonce |
| `AccountDb.AccountDB.GetStorage` | evm/db/account.py:227-240 | zero for an unset slot |
| `AccountDb.AccountDB.SetStorage` | evm/db/account.py:242-258 | the slot reads as the value, zero included, and every other slot of every account as before |
| `AccountDb.AccountDB.SetCode` | evm/db/account.py:313-321 | sets the code of one account |
| `AccountDb.AccountDB.DeleteAccount` | evm/db/account.py:341-344 | removes one account from all reads |
| `AccountDb.AccountDB.AccountExists` | evm/db/account.py:346-349 | whether the flat map has the account |
| `AccountDb.AccountDB.IsDead` | evm/db/account.py:346-361 | missing or empty |
| `AccountDb.AccountDB.TouchAccount` | evm/db/account.py:351-355 | creates the account as it reads |
| `AccountDb.AccountDB.TakeSnapshot` | evm/vm/state.py:133-140 | root and a new changeset on top; no read changes |
| `AccountDb.AccountDB.SetStateRoot` | evm/db/account.py:212-219 | reads are the pending changes over the accounts of the new root, nothing stale |
| `AccountDb.AccountDB.Revert` | evm/vm/state.py:142-151 | root and changesets of the snapshot, for unknown changesets too |
| `AccountDb.AccountDB.Commit` | evm/vm/state.py:153-159 | no read changes |
| `AccountDb.AccountDB.MakeStateRoot` | evm/db/account.py:391-395 | making the state root leaves every account read the same, and the new root stands for them |
| `AccountDb.TopOnlyIds` | evm/vm/state.py:133-159 | a frame that only wrote to the latest changeset left the list of changeset ids as it was |
| `AccountDb.DiscardLatest` | evm/vm/state.py:142-151 | discarding the latest changeset brings the list back exactly |
| `AccountDb.CommitLatest` | evm/vm/state.py:153-159 | committing the latest changeset writes only to the one before it |
| `Headers.PersistHeader` | evm/db/chain.py:296-331 | refused exactly when the parent is unknown; otherwise ancestors stay stored and every score stays the total difficulty |
| `Headers.PersistBlock` | evm/db/chain.py:416-430 | the same for blocks |
| `ForkChoice.ScoresAndHead` | evm/db/header.py:146-183 | over every run, each score is the sum of difficulties along the ancestry and the head is the first seen of the heaviest headers |
| `ForkChoice.WalkStopsAtBranch` | evm/db/header.py:209-239 | the walk collects exactly the path above the point where it leaves the indexed chain |
| `ForkChoice.TakeOverReturns` | evm/db/header.py:185-207 | on an exact index the walk yields exactly the headers on the new head's path that were not on the old one's, ascending |
| `ForkChoice.PersistReturns` | evm/db/header.py:146-183 | along every run in which the head has not fallen, the headers a call returns are exactly the newly canonical ones, ascending, and none when the head stays |
| `ForkChoice.TakeOverEntries` | evm/db/header.py:199-204 | after a take-over the index is the new path up to the new head and unchanged above it |
| `ForkChoice.TakeOverExact` | evm/db/header.py:185-207 | the index is exact after a take-over if and only if the new head's number is not lower |
| `ForkChoice.NextIndex` | evm/db/header.py:146-183 | one more header keeps the index exact if and only if the head does not fall |
| `ForkChoice.IndexExactIffHeadNeverFalls` | evm/db/header.py:146-252 | over every run of consecutively numbered headers the index is the head's ancestry throughout if and only if the head's number never falls |
| `ForkChoice.FallLeavesStaleEntry` | evm/db/header.py:199-204 | a heavier but lower header leaves the old head in the index |
| `ForkChoice.StaleEntryMisleadsWalk` | evm/db/header.py:224-231 | when the old branch then wins again, the index names a block that is not an ancestor of the head |
| `ForkChoice.FallingRun` | evm/db/header.py:199-231 | five headers for which the head falls, the index is no longer exact, and after the fifth it names a block that is not an ancestor of the head |
| `TxLookup.UnlinkedEntry` | evm/db/chain.py:347-359 | after the removal exactly the entries of shared blocks and of old blocks above the new head are left |
| `TxLookup.LinkedPath` | evm/db/chain.py:583-598 | adding the new blocks' transactions makes the lookup exact for the new chain |
| `TxLookup.TakeOverLookup` | evm/db/chain.py:334-365 | from an exact lookup of the old chain a reorganisation gives an exact one of the new chain if and only if every transaction of an old block above the new head also occurs on the new chain |
| `TxLookup.NextLookup` | evm/db/chain.py:416-430 | one more block keeps an exact lookup exact if and only if it does not take over, or its chain carries every transaction of the old blocks above it |
| `TxLookup.StaleRun` | evm/db/chain.py:334-365 | five headers, one with a transaction, for which the lookup still names that transaction after its block has left the chain |
| `TxLookup.LookupThroughout` | evm/db/chain.py:416-430 | over every run with consecutive numbers, a head that never falls and no transaction repeated on a path, a hash is mapped to (n, i) exactly when canonical block n holds it at position i |
| `ChainDb.ChainDB.FindNewAncestors` | evm/db/chain.py:367-398 | the loop finds the new headers in descending order |
| `ChainDb.ChainDB.RemoveReplaced` | evm/db/chain.py:347-359 | removes the transactions of replaced blocks up to the first free number |
| `ChainDb.ChainDB.RemoveTransactions` | evm/db/chain.py:576-581 | removes exactly one block's transactions |
| `ChainDb.ChainDB.AddToIndex` | evm/db/chain.py:400-411 | indexes every new header by number |
| `ChainDb.ChainDB.SetAsCanonicalChainHead` | evm/db/chain.py:334-365 | head, index, lookup and returned headers of the table model |
| `ChainDb.ChainDB.PersistHeader` | evm/db/chain.py:296-331 | the table model's step, or an unknown parent and no change |
| `ChainDb.ChainDB.AddTransactions` | evm/db/chain.py:583-598 | adds one block's transactions with their positions |
| `ChainDb.ChainDB.PersistBlock` | evm/db/chain.py:416-430 | the table model's step, lookups included |
| `XorMetric.XorInjective` | p2p/kademlia.py:113-114 | different ids have different distances to any target |
| `XorMetric.XorBits` | p2p/kademlia.py:113-114 | a bit of the distance is set exactly where the ids differ |
| `XorMetric.XorShift` | p2p/kademlia.py:113-114 | the distance of two prefixes is the prefix of the distance |
| `XorMetric.BlocksOrderAlike` | p2p/kademlia.py:153-154 | ids that agree above some bits are ordered alike against ids that differ there |
| `XorMetric.ShiftInBlock` | p2p/kademlia.py:149-151 | an aligned block is exactly the ids with one prefix |
| `XorMetric.SplitBlock` | p2p/kademlia.py:159-170 | halving an aligned block at its midpoint gives the two aligned blocks one bit deeper |
| `XorMetric.RepresentativesDecide` | p2p/kademlia.py:149-157 | for disjoint aligned blocks the order of any two representatives, such as the midpoints, is the order of all members |
| `Buckets.AddToBucketValid` | p2p/kademlia.py:184-205 | a bucket keeps its invariant; the node is in it, or it is full, unchanged and names its head |
| `Buckets.SplitValid` | p2p/kademlia.py:159-170 | both halves are valid buckets and every node is in exactly the half of its range |
| `Buckets.BisectFinds` | p2p/kademlia.py:315-325 | the search by bucket end finds the bucket whose range holds the id |
| `Buckets.SplitAtMembers` | p2p/kademlia.py:250-254 | splitting a bucket of the table loses and adds no node |
| `Buckets.SplitAtValid` | p2p/kademlia.py:250-254 | splitting keeps the table a gapless cover by aligned blocks |
| `Buckets.SharedPrefixBitsExact` | p2p/kademlia.py:673-688 | the depth is the length of the longest common prefix: shared, and not one bit more; fewer than two nodes share everything |
| `Buckets.SplitNarrows` | p2p/kademlia.py:250-282 | after a split the node's bucket covers strictly fewer ids, so retrying terminates |
| `Buckets.AddNodeMeetsContract` | p2p/kademlia.py:268-282 | add_node keeps all invariants, loses no member, adds nothing but the node, and either the node is present or the result is the head of its full bucket, which does not cover the local id |
| `Buckets.AddToBucketOrder` | p2p/kademlia.py:184-205 | a node that is added or seen again goes to the tail and the order of the others stays |
| `Buckets.AddNodeOrder` | p2p/kademlia.py:268-282 | splits and retries included, nodes that share a bucket keep their order and an added node is at the tail of its bucket |
| `Buckets.AddNodeRefuses` | p2p/kademlia.py:274-280 | a node is turned away only when the depth of its full bucket is a multiple of 8 or the whole width |
| `Buckets.AddNodeTurnsAway` | p2p/kademlia.py:274-280 | and then always, without any split, when the bucket does not cover the local id |
| `Buckets.RemoveNodeValid` | p2p/kademlia.py:265-266 | remove_node keeps the invariants and removes exactly that node |
| `Buckets.NewTableValid` | p2p/kademlia.py:227-229 | a new table is one bucket over the whole id space |
| `Buckets.Reached` | p2p/kademlia.py:224-282 | every table reached by any calls of add_node and remove_node, raising ones included, satisfies the invariant |
| `Neighbours.SortedBucketsSeparated` | p2p/kademlia.py:287-288 | sorted by midpoint distance, every member of an earlier bucket is nearer than every member of a later one |
| `Neighbours.CollectGapped` | p2p/kademlia.py:301-311 | stopping one bucket at 2k nodes drops nothing among the first 2k |
| `Neighbours.NeighboursAreNearest` | p2p/kademlia.py:301-312 | the result is, in increasing distance, exactly the min(k, size) members nearest to the target |
| `RoutingTable.KBucket.Add` | p2p/kademlia.py:184-205 | the bucket function of the model |
| `RoutingTable.KBucket.Remove` | p2p/kademlia.py:172-175 | removes the node if it is there |
| `RoutingTable.KBucket.Split` | p2p/kademlia.py:159-170 | the loop distributes the nodes over the two halves in order |
| `RoutingTable.RoutingTable.FindBucket` | p2p/kademlia.py:315-325 | binary search finds the one bucket for the id, and fails exactly for ids no bucket covers |
| `RoutingTable.BisectLeft` | p2p/kademlia.py:317-318 | halving the interval finds the first position whose value is not smaller, in any sorted list |
| `RoutingTable.RoutingTable.SplitBucket` | p2p/kademlia.py:250-254 | replaces one bucket by its halves in place and keeps the table valid |
| `RoutingTable.RoutingTable.WantsSplit` | p2p/kademlia.py:274-277 | the split rule by range and depth |
| `RoutingTable.RoutingTable.AddNode` | p2p/kademlia.py:268-282 | raises exactly for the local node and uncovered ids; otherwise equals the add function, retries included, and terminates |
| `RoutingTable.RoutingTable.RemoveNode` | p2p/kademlia.py:265-266 | removes the node from its bucket; raises exactly for uncovered ids |
| `RoutingTable.RoutingTable.FindNearest` | p2p/kademlia.py:301-312 | the loops return exactly the k nearest members |
| `CodeStream.PushDataUnreached` | evm/vm/code_stream.py:75-99 | no position inside push data is an instruction start |
| `CodeStream.PushDataNeverExecuted` | evm/vm/logic/flow.py:16-42 | however control flows, only instruction starts are executed |
| `CodeStream.Stream.IsValidOpcode` | evm/vm/code_stream.py:75-99 | answers as the full scan from zero, whatever was asked before, and keeps the cache invariant |
| `CodeStream.Stream.Queries` | evm/vm/code_stream.py:75-99 | any queries in any order are all answered as the full scan answers them |
| `CodeStream.Stream.Next` | evm/vm/code_stream.py:42-48 | the byte under the counter, STOP past the end |
| `CodeStream.Stream.Seek` | evm/vm/code_stream.py:56-62 | moves the counter, clamped to the end of the code |
| `CodeStream.Stream.Peek` | evm/vm/code_stream.py:50-54 | the next opcode without moving |
| `CodeStream.Stream.Fetch` | evm/vm/logic/stack.py:10-17 | after an opcode and its push data the stream is at an instruction again |
| `CodeStream.Stream.Jump` | evm/vm/logic/flow.py:16-27 | succeeds exactly on a JUMPDEST that is an instruction start; otherwise says which check failed |
| `CodeStream.Stream.JumpIf` | evm/vm/logic/flow.py:30-42 | stays for a zero condition, otherwise as a jump |
| `Blobs.RoundTrip` | evm/utils/blobs.py:89-143 | every list of blobs that is accepted comes back unchanged |
| `Blobs.EncodedBytes` | evm/utils/blobs.py:99-118 | every byte of an encoded blob: indicator, data in order, zero filler |
| `Blobs.EncodedSize` | evm/utils/blobs.py:99-118 | as many chunks as the blob needs and no more |
| `Blobs.DecodeBlob` | evm/utils/blobs.py:125-143 | an encoded blob in front of anything is read back, whole chunks and zero bytes included |
| `Blobs.DecodePadding` | evm/utils/blobs.py:125-143 | zero padding of any length never ends a blob |
| `Blobs.DecodedFits` | evm/utils/blobs.py:125-143 | any body decodes to non-empty blobs that fit into a body again |
| `Blobs.ReadingIsStable` | evm/utils/blobs.py:89-143 | what was read from any body can be written and read back the same |
| `Blobs.WriteBlob` | evm/utils/blobs.py:99-118 | the chunk loop writes the encoding of one blob |
| `Blobs.SerializeBlobs` | evm/utils/blobs.py:89-122 | the loop accepts and produces what the model says, padding included |
| `Blobs.DeserializeBlobs` | evm/utils/blobs.py:125-143 | the buffered loop is the decoder; a body of the wrong size is refused |
| `Merkle.LayersGiveRoot` | evm/utils/blobs.py:53-72 | reducing layer by layer gives the root by recursive halving |
| `Merkle.CalcMerkleRoot` | evm/utils/blobs.py:58-72 | refuses exactly leaf counts that are no power of two, otherwise returns the recursive root |
| `Merkle.FindCollision` | evm/utils/blobs.py:53-72 | for any hash with results of one length, as keccak has: from two different lists of leaves with one root it computes two colliding inputs, the first hashed for the first root and the second for the second |
| `Merkle.CalcChunkRoot` | evm/utils/blobs.py:75-78 | the root over the 32-byte chunks; a body of the wrong size is refused |
| `Merkle.ChunkRootCommits` | evm/utils/blobs.py:75-78 | for any hash with results of one length: of two different bodies with one chunk root, an input hashed for the first collides with an input hashed for the second |

## Left out

- Opcodes that only work on stack and memory, and the precompiled contracts: they are `Other`, `Return` and `Fault`, chosen by the arbitrary interpreter; memory growth is a non-negative gas charge. Only the opcodes that `Bytecode` needs are decoded from the code.
- Overflow.TransactionsNeverFaultIffHalf: its only-if half says nothing of wei at precompiled addresses, whose own code is never run.
- HexaryTrie, RLP and keccak: a trie is its contents and a root stands for them; storage root and code hash stand for storage and code, so the second journal of `AccountDB`, which only holds trie nodes and code, has no separate state.
- uuid4: changeset ids come from a counter; that random ids never repeat is taken for granted.
- Machine.Vm.SetBalance: an out-of-range write sets `fault` and the run goes on without the write, where the program leaves by an exception; every claim about such a run is limited to the absence of faults and to the supply not rising.
- AccountDb.AccountDB.IncrementNonce: nonces are unbounded; the program raises at 2^256, which needs as many transactions.
- AccountDb.AccountDB.Revert: does not claim that the account list is non-empty afterwards, because discarding the root changeset empties it.
- TxLookup.LookupThroughout: stated for runs in which the head's number never falls; what a falling head does to the lookup is `TxLookup.TakeOverLookup`, and the index that later steps rely on is then no longer exact (`ForkChoice.IndexExactIffHeadNeverFalls`).
- The two batch commits of `AccountDB.persist` (evm/db/account.py:397-400), which move trie nodes and code from memory to disk: what such commits do to reads is `Changes.BatchDB.Commit`; trie nodes themselves are not modelled.
- Buckets.AddToBucketValid: the replacement cache and `last_updated` are not modelled; a node that waits in the cache after a split changes no live list.
- Nodes are their ids: two nodes with one id and different addresses are not distinguished.
- JournalDB.exists: it still answers True for a key deleted in the journal but present below (evm/db/journal.py:190-191); the properties are stated on reads and on KeyError.
- EIP-161 clearing of touched empty accounts after a transaction, with its special case for one precompile.
- Signatures and the checks inside `Transaction.validate` other than the intrinsic gas.
- Log topics and bloom filters beyond carrying the topics; receipts hold cumulative gas and logs only.
- Block rewards, uncles, proof of work, difficulty rules and the DAO fork.
- Networking, discovery protocol timing, handshakes, synchronisation, RPC and command line.
