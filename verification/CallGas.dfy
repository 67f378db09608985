/** How much gas CALL-like opcodes hand to the child frame, and what they charge for it. */
module CallGas {
  import opened Prelude
  import opened EvmTypes

  /** Gas of the child message and the fee its parent pays. */
  datatype MessageGas = MessageGas(child: nat, fee: nat)

  function BaseCost(fork: Fork): nat {
    if Eip150(fork) then GAS_CALL_EIP150 else GAS_CALL
  }

  /** Which CALL-like opcodes a fork has. */
  predicate Available(fork: Fork, kind: CallKind) {
    match kind
    case Call => true
    case CallCode => true
    case DelegateCall => !fork.Frontier?
    case StaticCall => fork.Byzantium?
  }

  function ExtraGas(fork: Fork, kind: CallKind, w: World, target: Address, value: nat): nat {
    var transfer := if value != 0 then GAS_CALLVALUE else 0;
    match kind
    case Call =>
      if Eip161(fork) then
        transfer + (if IsDead(w, target) && value != 0 then GAS_NEWACCOUNT else 0)
      else
        transfer + (if target !in w then GAS_NEWACCOUNT else 0)
    case CallCode => transfer
    case DelegateCall => 0
    case StaticCall => transfer + (if IsDead(w, target) && value != 0 then GAS_NEWACCOUNT else 0)
  }

  function MaxChildGas(gas: nat): nat {
    gas - gas / 64
  }

  function Stipend(kind: CallKind, value: nat): nat {
    if kind.DelegateCall? || value == 0 then 0 else GAS_CALLSTIPEND
  }

  /** The amount the parent parts with for the child; None is the OutOfGas raised by EIP-150. */
  function Allowance(fork: Fork, available: nat, gas: nat, extra: nat): Option<nat> {
    if !Eip150(fork) then Some(gas)
    else if available < extra then None
    else
      var most := MaxChildGas(available - extra);
      Some(if gas < most then gas else most)
  }

  function ComputeMessageGas(fork: Fork, kind: CallKind, available: nat, gas: nat, extra: nat, value: nat)
    : Option<MessageGas>
  {
    match Allowance(fork, available, gas, extra)
    case None => None
    case Some(allowance) => Some(MessageGas(allowance + Stipend(kind, value), allowance + extra))
  }

  /**
   * The stipend is always paid for by the transfer fee, so a message costs at least what the
   * child receives, and nothing less unless the two are free of extra charges.
   */
  lemma FeeCoversChild(fork: Fork, kind: CallKind, w: World, target: Address, available: nat, gas: nat, value: nat)
    requires kind.StaticCall? ==> value == 0
    ensures
      var extra := ExtraGas(fork, kind, w, target, value);
      var r := ComputeMessageGas(fork, kind, available, gas, extra, value);
      r.Some? ==> r.value.child <= r.value.fee && Stipend(kind, value) <= extra
  {
  }

  /**
   * EIP-150, "all but one 64th": the call never fails for asking too much, the parent keeps at
   * least a 64th of what the fixed charges leave, and a smaller request is granted in full.
   */
  lemma AllButOne64th(fork: Fork, kind: CallKind, available: nat, gas: nat, extra: nat, value: nat)
    requires Eip150(fork)
    ensures
      var r := ComputeMessageGas(fork, kind, available, gas, extra, value);
      && (r.None? <==> available < extra)
      && (r.Some? ==>
            && r.value.fee <= available
            && 64 * (available - r.value.fee) >= available - extra - 63
            && (r.value.child - Stipend(kind, value) == gas
                || (r.value.child - Stipend(kind, value) < gas
                    && 64 * (available - r.value.fee) <= available - extra)))
  {
  }
}
