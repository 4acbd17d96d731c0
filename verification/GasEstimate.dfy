/** Gas estimation by bisection (blockchain/evm.go, DoEstimateGas). */
module GasEstimates {
  import opened Wrappers

  const TX_GAS := 21000
  const UPPER_GAS_LIMIT := 500_000_000
  const MAX_UINT64 := 0xffff_ffff_ffff_ffff

  type uint64 = n: nat | n <= MAX_UINT64

  /** What a trial run at some gas gives: it passes, it fails, or it cannot be carried out. */
  datatype Trial = Passed | Failed(outOfGas: bool) | Broken

  datatype Error = GasLimitTooHigh | InsufficientFunds | TrialBroken | ExecutionFailed | ExceedsAllowance

  function Given(x: Option<nat>): nat {
    if x.Some? then x.value else 0
  }

  /** Within the gas limit, the remote cap, and what the balance can pay beside the value. */
  ghost predicate WithinCaps(gas: nat, gasLimit: uint64, rpcGasCap: uint64, value: nat, price: nat, balance: nat) {
    && gas <= (if gasLimit >= TX_GAS then gasLimit else UPPER_GAS_LIMIT)
    && (price != 0 ==> value + gas * price <= balance)
    && (rpcGasCap != 0 ==> gas <= rpcGasCap)
  }

  lemma QuotientIsLargest(available: nat, price: nat, gas: nat)
    requires price > 0
    ensures gas <= available / price <==> gas * price <= available
  {
    var q := available / price;
    assert q * price <= available < (q + 1) * price;
    if gas <= q { assert gas * price <= q * price; } else { assert (q + 1) * price <= gas * price; }
  }

  /** The highest gas within all caps. */
  method HighestGas(gasLimit: uint64, rpcGasCap: uint64, value: nat, price: nat, balance: nat)
    returns (r: Result<uint64, Error>)
    ensures r.Err? ==> r.error == if gasLimit > UPPER_GAS_LIMIT then GasLimitTooHigh else InsufficientFunds
    ensures r.Err? <==> gasLimit > UPPER_GAS_LIMIT || (price != 0 && balance <= value)
    ensures r.Ok? ==> forall gas: nat :: gas <= r.value <==> WithinCaps(gas, gasLimit, rpcGasCap, value, price, balance)
  {
    var hi := UPPER_GAS_LIMIT;
    if gasLimit > UPPER_GAS_LIMIT { return Err(GasLimitTooHigh); }
    if gasLimit >= TX_GAS { hi := gasLimit; }
    if price != 0 {
      if value >= balance { return Err(InsufficientFunds); }
      var allowance := (balance - value) / price;
      forall gas: nat
        ensures gas <= allowance <==> value + gas * price <= balance
      {
        QuotientIsLargest(balance - value, price, gas);
      }
      if allowance <= MAX_UINT64 && hi > allowance { hi := allowance; }
    }
    if rpcGasCap != 0 && hi > rpcGasCap { hi := rpcGasCap; }
    r := Ok(hi);
  }

  /** Passing is closed upwards: more gas never makes a passing run fail. */
  ghost predicate Monotone(test: nat -> Trial) {
    forall a: nat, b: nat :: a <= b && test(a).Passed? ==> test(b).Passed?
  }

  ghost predicate NeverBroken(test: nat -> Trial) {
    forall gas: nat :: !test(gas).Broken?
  }

  /** The given limit is not out of range, and a sender who pays for gas has more than the value to send. */
  ghost predicate CapsApply(gasLimit: uint64, txValue: Option<nat>, gasPrice: Option<nat>, balance: Option<nat>) {
    gasLimit <= UPPER_GAS_LIMIT && !(Given(gasPrice) != 0 && Given(balance) <= Given(txValue))
  }

  /**
   Estimates the gas a transaction needs. Whatever the test, an estimate passes it, lies within
   every cap, and failed one below unless it is at most TX_GAS. For a monotone test it is the
   least passing value from TX_GAS up, and there is an estimate exactly when the highest
   allowed gas passes.
   */
  method DoEstimateGas(gasLimit: uint64, rpcGasCap: uint64, txValue: Option<nat>, gasPrice: Option<nat>,
                       balance: Option<nat>, test: nat -> Trial) returns (r: Result<uint64, Error>)
    ensures r.Ok? ==>
      && test(r.value).Passed?
      && WithinCaps(r.value, gasLimit, rpcGasCap, Given(txValue), Given(gasPrice), Given(balance))
      && (r.value <= TX_GAS || test(r.value - 1).Failed?)
    ensures r.Ok? && r.value < TX_GAS ==>
      !WithinCaps(r.value + 1, gasLimit, rpcGasCap, Given(txValue), Given(gasPrice), Given(balance))
    ensures r.Ok? && Monotone(test) ==> forall gas: nat :: TX_GAS <= gas < r.value ==> !test(gas).Passed?
    ensures Monotone(test) && NeverBroken(test) && CapsApply(gasLimit, txValue, gasPrice, balance) ==>
      (r.Ok? <==> exists gas: nat :: test(gas).Passed? &&
                    WithinCaps(gas, gasLimit, rpcGasCap, Given(txValue), Given(gasPrice), Given(balance)))
    ensures r == Err(TrialBroken) ==> !NeverBroken(test)
    ensures r == Err(GasLimitTooHigh) <==> gasLimit > UPPER_GAS_LIMIT
    ensures r == Err(InsufficientFunds) <==>
      gasLimit <= UPPER_GAS_LIMIT && !CapsApply(gasLimit, txValue, gasPrice, balance)
    ensures r == Err(ExceedsAllowance) || r == Err(ExecutionFailed) ==>
      exists cap: nat ::
        && (forall gas: nat ::
              gas <= cap <==> WithinCaps(gas, gasLimit, rpcGasCap, Given(txValue), Given(gasPrice), Given(balance)))
        && test(cap) == Failed(r.error == ExceedsAllowance)
  {
    hide WithinCaps;
    var highest := HighestGas(gasLimit, rpcGasCap, Given(txValue), Given(gasPrice), Given(balance));
    if highest.Err? { return Err(highest.error); }
    var lo: uint64, hi: uint64 := TX_GAS - 1, highest.value;
    var cap := hi;
    while lo + 1 < hi
      invariant lo == TX_GAS - 1 || (test(lo).Failed? && lo >= TX_GAS)
      invariant hi <= cap && (hi == cap || (test(hi).Passed? && hi > lo))
      invariant lo < hi || (lo == TX_GAS - 1 && hi == cap)
      decreases hi - lo
    {
      var mid := lo + (hi - lo) / 2;
      match test(mid) {
        case Broken => return Err(TrialBroken);
        case Failed(_) => lo := mid;
        case Passed => hi := mid;
      }
    }
    if hi == cap {
      match test(hi) {
        case Broken => return Err(TrialBroken);
        case Failed(outOfGas) => return Err(if outOfGas then ExceedsAllowance else ExecutionFailed);
        case Passed =>
      }
    }
    assert hi >= TX_GAS ==> lo + 1 == hi;
    r := Ok(hi);
  }
}
