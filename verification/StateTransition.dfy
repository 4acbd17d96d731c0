/**
 Gas and fee accounting of one message (blockchain/state_transition.go): buying gas with a fee
 that sender and fee payer may share, execution, refund, the calldata floor, the return of
 unused gas and the reward.
 */
module StateTransitions {
  import opened MapSums
  import opened Wrappers

  type Address = nat

  const MAX_UINT64 := 0xffff_ffff_ffff_ffff
  const TWO_256 := 0x1_0000_0000_0000_0000_0000_0000_0000_0000_0000_0000_0000_0000_0000_0000_0000_0000
  const BLOB_GAS_PER_BLOB := 0x2_0000
  const BLOB_TX_MAX_BLOBS := 1
  const REFUND_QUOTIENT := 2
  const REFUND_QUOTIENT_EIP3529 := 5
  const TX_TOKEN_PER_NON_ZERO_BYTE := 4
  const TX_COST_FLOOR_PER_TOKEN := 10

  type uint64 = n: nat | n <= MAX_UINT64

  datatype Rules = Rules(isMagma: bool, isKore: bool, isShanghai: bool, isPrague: bool, isOsaka: bool,
                         deferredFee: bool)

  datatype Context = Context(baseFee: nat, blobBaseFee: nat, coinbase: Address, rewardbase: Address, maxInitCode: nat)

  /** `ratio` is the fee payer's percentage; it is 100 unless the transaction names one. */
  datatype Message = Message(sender: Address, feePayer: Address, ratio: nat, isRatio: bool, gas: uint64, gasPrice: nat,
                             gasFeeCap: nat, gasTipCap: nat, value: nat, checkNonce: bool, nonce: uint64, hasTo: bool,
                             blobHashes: Option<seq<bool>>, blobFeeCap: nat, authorizations: Option<nat>,
                             intrinsicGas: uint64, sigValidateGas: uint64, txGas: Option<uint64>, zeroBytes: nat,
                             nonZeroBytes: nat)

  /** What execution does: spends gas, moves value, and leaves a refund counter. */
  datatype Outcome = Outcome(spent: nat, transfers: seq<Transfer>, refund: uint64, timeLimit: bool)
  datatype Transfer = Transfer(from: Address, to: Address, amount: nat)

  datatype Error =
    | NonceTooHigh | NonceTooLow | NonceMax
    | FeeCapVeryHigh | TipVeryHigh | TipAboveFeeCap | FeeCapTooLow
    | BlobTxCreate | MissingBlobHashes | TooManyBlobs | InvalidBlobHash | BlobFeeCapTooLow
    | SetCodeTxCreate | EmptyAuthList
    | BalanceOverflow | InsufficientForGasFeePayer | InsufficientForGas | InsufficientBalance
    | IntrinsicGas | NoTxGas | GasUintOverflow | FloorDataGasTooHigh | MaxInitCodeSize | TotalTimeLimit

  type Balances = map<Address, int>

  function BalanceOf(b: Balances, a: Address): int {
    if a in b then b[a] else 0
  }

  function AddTo(b: Balances, a: Address, amount: int): Balances {
    b[a := BalanceOf(b, a) + amount]
  }

  function SubFrom(b: Balances, a: Address, amount: int): Balances {
    b[a := BalanceOf(b, a) - amount]
  }

  ghost function Total(b: Balances): int {
    MapSum(b)
  }

  lemma TotalAdd(b: Balances, a: Address, amount: int)
    ensures Total(AddTo(b, a, amount)) == Total(b) + amount
    ensures Total(SubFrom(b, a, amount)) == Total(b) - amount
  {
    SetEntry(b, a, BalanceOf(b, a) + amount);
    SetEntry(b, a, BalanceOf(b, a) - amount);
  }

  function ApplyTransfers(b: Balances, ts: seq<Transfer>): Balances {
    if ts == [] then b
    else
      var t := ts[|ts| - 1];
      AddTo(SubFrom(ApplyTransfers(b, ts[..|ts| - 1]), t.from, t.amount), t.to, t.amount)
  }

  lemma {:induction false} TransfersKeepTotal(b: Balances, ts: seq<Transfer>)
    ensures Total(ApplyTransfers(b, ts)) == Total(b)
  {
    if ts != [] {
      var t := ts[|ts| - 1];
      var rest := ApplyTransfers(b, ts[..|ts| - 1]);
      TransfersKeepTotal(b, ts[..|ts| - 1]);
      TotalAdd(rest, t.from, t.amount);
      TotalAdd(SubFrom(rest, t.from, t.amount), t.to, t.amount);
    }
  }

  // Fee shares

  function PayerShare(fee: nat, ratio: nat): nat {
    fee * ratio / 100
  }

  function SenderShare(fee: nat, ratio: nat): int {
    fee - PayerShare(fee, ratio)
  }

  /** Both shares grow with the fee and neither is negative, for any percentage. */
  lemma SharesGrow(x: nat, y: nat, ratio: nat)
    requires x <= y && ratio <= 100
    ensures 0 <= PayerShare(x, ratio) <= PayerShare(y, ratio)
    ensures 0 <= SenderShare(x, ratio) <= SenderShare(y, ratio)
  {
    var d := y - x;
    assert y * ratio == x * ratio + d * ratio;
    assert 0 <= d * ratio <= d * 100 && 0 <= x * ratio <= x * 100 by { Within(d, ratio); Within(x, ratio); }
    assert (x * ratio + d * 100) / 100 == x * ratio / 100 + d;
  }

  lemma Within(d: nat, ratio: nat)
    requires ratio <= 100
    ensures 0 <= d * ratio <= d * 100
  {
  }

  /**
   Charging a share of the whole and giving a share of the unused part back costs the payer
   its share of the fee rounded down, or one more exactly when the two remainders reach 100.
   */
  lemma NetShare(fee: nat, unused: nat, ratio: nat)
    ensures PayerShare(fee + unused, ratio) - PayerShare(unused, ratio) ==
            PayerShare(fee, ratio) + if fee * ratio % 100 + unused * ratio % 100 >= 100 then 1 else 0
  {
    var a, b := fee * ratio, unused * ratio;
    assert (fee + unused) * ratio == a + b;
    assert a == a / 100 * 100 + a % 100 && b == b / 100 * 100 + b % 100;
  }

  // Gas amounts

  function BlobCount(msg: Message): nat {
    if msg.blobHashes.Some? then |msg.blobHashes.value| else 0
  }

  function BlobGasUsed(msg: Message): nat {
    BlobCount(msg) * BLOB_GAS_PER_BLOB
  }

  function BlobFee(msg: Message, rules: Rules, ctx: Context): nat {
    if rules.isOsaka then BlobGasUsed(msg) * ctx.blobBaseFee else 0
  }

  function Cost(msg: Message, gas: nat): nat {
    gas * msg.gasPrice
  }

  /** The most that can be charged: all gas at the effective price, and the blobs. */
  function MaxCharge(msg: Message, rules: Rules, ctx: Context): nat {
    Cost(msg, msg.gas) + BlobFee(msg, rules, ctx)
  }

  /** The most the sender agreed to pay. */
  function FeeCap(msg: Message, rules: Rules): nat {
    msg.gas * msg.gasFeeCap + if rules.isOsaka then BlobGasUsed(msg) * msg.blobFeeCap else 0
  }

  /** Subtraction as 64-bit arithmetic does it. */
  function Sub64(a: uint64, b: uint64): (r: uint64)
    ensures a >= b ==> r == a - b
  {
    if a >= b then a - b else a + MAX_UINT64 + 1 - b
  }

  /** A value as 64-bit arithmetic leaves it. */
  function Wrap64(x: nat): (r: uint64)
    ensures x <= MAX_UINT64 ==> r == x
  {
    x % (MAX_UINT64 + 1)
  }

  /** The minimum gas for the calldata, before any 64-bit wrap-around. */
  function ExactFloor(txGas: uint64, zeroBytes: nat, nonZeroBytes: nat, sigGas: uint64): nat {
    txGas + (nonZeroBytes * TX_TOKEN_PER_NON_ZERO_BYTE + zeroBytes) * TX_COST_FLOOR_PER_TOKEN + sigGas
  }

  /** The floor it should be: exact, or an overflow where that does not fit. */
  function RightFloor(txGas: uint64, zeroBytes: nat, nonZeroBytes: nat, sigGas: uint64): Result<uint64, Error> {
    var exact := ExactFloor(txGas, zeroBytes, nonZeroBytes, sigGas);
    if exact <= MAX_UINT64 then Ok(exact) else Err(GasUintOverflow)
  }

  /**
   The minimum gas for the calldata. It is the right one exactly when nothing wraps on the way to the
   overflow check, or when the wrapped check fails all the same.
   */
  function FloorDataGas(txGas: Option<uint64>, zeroBytes: nat, nonZeroBytes: nat,
                        sigGas: uint64): (r: Result<uint64, Error>)
    ensures txGas.None? ==> r == Err(NoTxGas)
    ensures txGas.Some? ==>
      var tokens := nonZeroBytes * TX_TOKEN_PER_NON_ZERO_BYTE + zeroBytes;
      (r == RightFloor(txGas.value, zeroBytes, nonZeroBytes, sigGas) <==>
         || (txGas.value + sigGas <= MAX_UINT64 && tokens <= MAX_UINT64)
         || Sub64(Sub64(MAX_UINT64, txGas.value), sigGas) / TX_COST_FLOOR_PER_TOKEN < Wrap64(tokens))
  {
    var tokens := Wrap64(nonZeroBytes * TX_TOKEN_PER_NON_ZERO_BYTE + zeroBytes);
    if txGas.None? then Err(NoTxGas)
    else if Sub64(Sub64(MAX_UINT64, txGas.value), sigGas) / TX_COST_FLOOR_PER_TOKEN < tokens then Err(GasUintOverflow)
    else Ok(Wrap64(txGas.value + tokens * TX_COST_FLOOR_PER_TOKEN + sigGas))
  }

  /**
   Where type gas and signature gas do not fit together, the wrapped check can let calldata through
   for free: the gas of a plain transfer and 2^64 - 21000 of signature gas have floor 0.
   */
  lemma FloorWraps()
    ensures FloorDataGas(Some(21000), 0, 0, MAX_UINT64 + 1 - 21000) == Ok(0)
    ensures RightFloor(21000, 0, 0, MAX_UINT64 + 1 - 21000) == Err(GasUintOverflow)
  {
  }

  function Min(a: nat, b: nat): nat {
    if a < b then a else b
  }

  function Max(a: nat, b: nat): nat {
    if a < b then b else a
  }

  // Balance effects

  /** The balances once gas is bought. */
  function Bought(b: Balances, msg: Message, charge: nat): Balances {
    if msg.feePayer == msg.sender then SubFrom(b, msg.feePayer, charge)
    else SubFrom(SubFrom(b, msg.feePayer, PayerShare(charge, msg.ratio)), msg.sender, SenderShare(charge, msg.ratio))
  }

  /** The balances once unused gas is returned. */
  function Returned(b: Balances, msg: Message, amount: nat): Balances {
    if msg.isRatio then AddTo(AddTo(b, msg.feePayer, PayerShare(amount, msg.ratio)), msg.sender,
                              SenderShare(amount, msg.ratio))
    else AddTo(b, msg.feePayer, amount)
  }

  /** The balances once the fee is distributed; a deferred fee is not distributed here. */
  function Rewarded(b: Balances, rules: Rules, ctx: Context, fee: nat): Balances {
    if rules.deferredFee then b
    else if rules.isMagma then AddTo(b, ctx.rewardbase, fee - fee / 2)
    else AddTo(b, ctx.coinbase, fee)
  }

  lemma BoughtTotal(b: Balances, msg: Message, charge: nat)
    ensures Total(Bought(b, msg, charge)) == Total(b) - charge
  {
    if msg.feePayer == msg.sender {
      TotalAdd(b, msg.feePayer, charge);
    } else {
      var mid := SubFrom(b, msg.feePayer, PayerShare(charge, msg.ratio));
      TotalAdd(b, msg.feePayer, PayerShare(charge, msg.ratio));
      TotalAdd(mid, msg.sender, SenderShare(charge, msg.ratio));
    }
  }

  lemma ReturnedTotal(b: Balances, msg: Message, amount: nat)
    ensures Total(Returned(b, msg, amount)) == Total(b) + amount
  {
    if msg.isRatio {
      var mid := AddTo(b, msg.feePayer, PayerShare(amount, msg.ratio));
      TotalAdd(b, msg.feePayer, PayerShare(amount, msg.ratio));
      TotalAdd(mid, msg.sender, SenderShare(amount, msg.ratio));
    } else {
      TotalAdd(b, msg.feePayer, amount);
    }
  }

  lemma RewardedTotal(b: Balances, rules: Rules, ctx: Context, fee: nat)
    ensures Total(Rewarded(b, rules, ctx, fee)) ==
            Total(b) + if rules.deferredFee then 0 else if rules.isMagma then fee - fee / 2 else fee
  {
    TotalAdd(b, ctx.rewardbase, fee - fee / 2);
    TotalAdd(b, ctx.coinbase, fee);
  }

  // What each account pays and receives

  /** What an account receives less what it sends. */
  ghost function NetTransfers(ts: seq<Transfer>, a: Address): int {
    if ts == [] then 0
    else
      (if ts[0].to == a then ts[0].amount else 0) - (if ts[0].from == a then ts[0].amount else 0) +
        NetTransfers(ts[1..], a)
  }

  /** What an account is charged of the price of all gas and the blobs: the fee payer its share, the sender the rest. */
  ghost function ChargedTo(msg: Message, charge: nat, a: Address): int {
    (if a == msg.feePayer then charge * msg.ratio / 100 else 0) +
    (if a == msg.sender then charge - charge * msg.ratio / 100 else 0)
  }

  /** What an account gets back of the price of the unused gas: all of it the fee payer, unless the fee is shared. */
  ghost function ReturnedTo(msg: Message, left: nat, a: Address): int {
    var payer := if msg.isRatio then left * msg.ratio / 100 else left;
    (if a == msg.feePayer then payer else 0) + (if a == msg.sender then left - payer else 0)
  }

  /** Who is paid the fee, and how much of it: half since Magma, rounded up, and nothing that is deferred. */
  ghost function RewardTo(rules: Rules, ctx: Context, fee: nat, a: Address): nat {
    if rules.deferredFee then 0
    else if rules.isMagma then if a == ctx.rewardbase then (fee + 1) / 2 else 0
    else if a == ctx.coinbase then fee else 0
  }

  lemma {:induction false} NetTransfersNext(ts: seq<Transfer>, t: Transfer, a: Address)
    ensures NetTransfers(ts + [t], a) ==
            NetTransfers(ts, a) + (if t.to == a then t.amount else 0) - if t.from == a then t.amount else 0
  {
    if ts == [] {
      assert (ts + [t])[1..] == [];
    } else {
      assert (ts + [t])[1..] == ts[1..] + [t];
      NetTransfersNext(ts[1..], t, a);
    }
  }

  lemma {:induction false} TransfersBalance(b: Balances, ts: seq<Transfer>, a: Address)
    ensures BalanceOf(ApplyTransfers(b, ts), a) == BalanceOf(b, a) + NetTransfers(ts, a)
  {
    if ts != [] {
      var rest, t := ts[..|ts| - 1], ts[|ts| - 1];
      assert ts == rest + [t];
      TransfersBalance(b, rest, a);
      NetTransfersNext(rest, t, a);
    }
  }

  /** What an account gets once a message has used `used` gas. */
  ghost function PaidOut(msg: Message, rules: Rules, ctx: Context, used: nat, a: Address): int
    requires used <= msg.gas
  {
    ReturnedTo(msg, Cost(msg, msg.gas - used), a) + RewardTo(rules, ctx, Cost(msg, used), a)
  }

  /** What a message that used `used` gas brings an account in all. */
  ghost function Gain(msg: Message, rules: Rules, ctx: Context, out: Outcome, used: nat, a: Address): int
    requires used <= msg.gas
  {
    NetTransfers(out.transfers, a) - ChargedTo(msg, MaxCharge(msg, rules, ctx), a) + PaidOut(msg, rules, ctx, used, a)
  }

  /** Using `u` pays the floor, and gives back no more of what was spent than the counter and the quotient allow. */
  ghost predicate Billable(rules: Rules, spent: nat, refund: nat, floor: nat, u: nat) {
    floor <= u && spent - u <= refund && (spent - u) * (if rules.isKore then 5 else 2) <= spent
  }

  lemma SettledBalance(b: Balances, msg: Message, rules: Rules, ctx: Context, used: nat, a: Address)
    requires used <= msg.gas
    ensures BalanceOf(Rewarded(Returned(b, msg, Cost(msg, msg.gas - used)), rules, ctx, Cost(msg, used)), a) ==
            BalanceOf(b, a) + PaidOut(msg, rules, ctx, used, a)
  {
    hide Cost;
  }

  lemma ChargedBalance(b: Balances, msg: Message, charge: nat, a: Address)
    ensures BalanceOf(Bought(b, msg, charge), a) == BalanceOf(b, a) - ChargedTo(msg, charge, a)
  {
  }

  /** The gas used is the least that is billable. */
  lemma UsedExactly(rules: Rules, spent: nat, refund: nat, floor: nat, u: nat)
    requires !rules.isPrague ==> floor == 0
    ensures GasUsed(rules, spent, refund, floor) <= u <==> Billable(rules, spent, refund, floor, u)
  {
  }

  /** What a message removes from the total balance: the blob fee, and the part of the fee nobody receives. */
  function Burnt(rules: Rules, blobFee: nat, fee: nat): nat {
    blobFee + if rules.deferredFee then fee else if rules.isMagma then fee / 2 else 0
  }

  /** The gas used: what was spent less the capped refund, and at least the floor since Prague. */
  function GasUsed(rules: Rules, spent: nat, refund: nat, floor: nat): nat {
    var q := if rules.isKore then REFUND_QUOTIENT_EIP3529 else REFUND_QUOTIENT;
    var net := spent - Min(spent / q, refund);
    if rules.isPrague then Max(net, floor) else net
  }

  /** Why gas cannot be bought; a fee payer who is not the sender is looked at first. */
  ghost predicate ShortOf(b: Balances, msg: Message, rules: Rules, ctx: Context, e: Error) {
    var due := if rules.isOsaka then FeeCap(msg, rules) else MaxCharge(msg, rules, ctx);
    if msg.feePayer == msg.sender then
      Short(b, msg.sender, due, rules.isOsaka, msg.value, InsufficientForGasFeePayer, e)
    else
      var payer, sender := PayerShare(due, msg.ratio), SenderShare(due, msg.ratio);
      if (rules.isOsaka && payer >= TWO_256) || BalanceOf(b, msg.feePayer) < payer then
        e == if rules.isOsaka && payer >= TWO_256 then BalanceOverflow else InsufficientForGasFeePayer
      else Short(b, msg.sender, sender, rules.isOsaka, msg.value, InsufficientForGas, e)
  }

  /** Why an account cannot pay an amount, and since Osaka the value beside it. */
  ghost predicate Short(b: Balances, a: Address, amount: int, isOsaka: bool, value: nat, insufficient: Error,
                        e: Error) {
    if isOsaka && amount + value >= TWO_256 then e == BalanceOverflow
    else if BalanceOf(b, a) < amount then e == insufficient
    else isOsaka && BalanceOf(b, a) < amount + value && e == InsufficientBalance
  }

  ghost predicate NonNegative(b: Balances) {
    forall a :: a in b ==> b[a] >= 0
  }

  class StateTransition {
    const msg: Message
    const rules: Rules
    const ctx: Context
    const stateNonce: uint64
    var gas: uint64
    var initialGas: uint64
    var balances: Balances

    constructor (msg: Message, rules: Rules, ctx: Context, stateNonce: uint64, balances: Balances)
      ensures this.msg == msg && this.rules == rules && this.ctx == ctx && this.stateNonce == stateNonce
      ensures gas == 0 && this.balances == balances
    {
      this.msg, this.rules, this.ctx, this.stateNonce := msg, rules, ctx, stateNonce;
      gas, initialGas, this.balances := 0, 0, balances;
    }

    /** Checks an account's balance against an amount, optionally with the value on top. */
    method CheckBalance(a: Address, amount: int, overflow: bool, withValue: bool, insufficient: Error)
      returns (r: Result<(), Error>)
      ensures r.Ok? <==>
        && (overflow ==> amount + (if withValue then msg.value else 0) < TWO_256)
        && BalanceOf(balances, a) >= amount
        && (withValue ==> BalanceOf(balances, a) >= amount + msg.value)
      ensures r.Err? ==>
        if overflow && amount + (if withValue then msg.value else 0) >= TWO_256 then r.error == BalanceOverflow
        else if BalanceOf(balances, a) < amount then r.error == insufficient
        else r.error == InsufficientBalance
    {
      if overflow && amount + (if withValue then msg.value else 0) >= TWO_256 { return Err(BalanceOverflow); }
      if BalanceOf(balances, a) < amount { return Err(insufficient); }
      if withValue && BalanceOf(balances, a) < amount + msg.value { return Err(InsufficientBalance); }
      r := Ok(());
    }

    /** Buys all the gas of the message, checking against the caps since Osaka and against the charge before. */
    method BuyGas() returns (r: Result<(), Error>)
      requires msg.ratio <= 100 && gas == 0
      modifies this`gas, this`initialGas, this`balances
      ensures r.Err? ==> unchanged(this)
      ensures r.Ok? ==>
        gas == initialGas == msg.gas && balances == Bought(old(balances), msg, MaxCharge(msg, rules, ctx))
      ensures r.Ok? <==> Affordable(old(balances), msg, rules, ctx)
      ensures r.Err? ==> ShortOf(old(balances), msg, rules, ctx, r.error)
    {
      hide MaxCharge, FeeCap, PayerShare, SenderShare, SubFrom;
      var charge, cap := MaxCharge(msg, rules, ctx), FeeCap(msg, rules);
      SharesGrow(0, charge, msg.ratio);
      if msg.feePayer == msg.sender {
        r := CheckBalance(msg.feePayer, if rules.isOsaka then cap else charge, rules.isOsaka, rules.isOsaka,
                          InsufficientForGasFeePayer);
        if r.Err? { return; }
        balances := SubFrom(balances, msg.feePayer, charge);
      } else {
        var due := if rules.isOsaka then cap else charge;
        r := CheckBalance(msg.feePayer, PayerShare(due, msg.ratio), rules.isOsaka, false, InsufficientForGasFeePayer);
        if r.Err? { return; }
        r := CheckBalance(msg.sender, SenderShare(due, msg.ratio), rules.isOsaka, rules.isOsaka, InsufficientForGas);
        if r.Err? { return; }
        balances := SubFrom(balances, msg.feePayer, PayerShare(charge, msg.ratio));
        balances := SubFrom(balances, msg.sender, SenderShare(charge, msg.ratio));
      }
      gas := gas + msg.gas;
      initialGas := msg.gas;
    }

    /** The nonce and well-formedness checks in front of BuyGas. */
    method CheckMessage() returns (r: Result<(), Error>)
      ensures r.Ok? <==> WellFormed(msg, rules, ctx, stateNonce)
      ensures forall e :: r == Err(e) <==> Fault(msg, rules, ctx, stateNonce, e)
    {
      if msg.checkNonce {
        if stateNonce < msg.nonce { return Err(NonceTooHigh); }
        if stateNonce > msg.nonce { return Err(NonceTooLow); }
        if stateNonce == MAX_UINT64 { return Err(NonceMax); }
      }
      if rules.isPrague && !(msg.gasFeeCap == 0 && msg.gasTipCap == 0) {
        if msg.gasFeeCap >= TWO_256 { return Err(FeeCapVeryHigh); }
        if msg.gasTipCap >= TWO_256 { return Err(TipVeryHigh); }
        if msg.gasFeeCap < msg.gasTipCap { return Err(TipAboveFeeCap); }
        if msg.gasFeeCap < ctx.baseFee { return Err(FeeCapTooLow); }
      }
      if msg.blobHashes.Some? {
        if !msg.hasTo { return Err(BlobTxCreate); }
        if |msg.blobHashes.value| == 0 { return Err(MissingBlobHashes); }
        if rules.isOsaka && |msg.blobHashes.value| > BLOB_TX_MAX_BLOBS { return Err(TooManyBlobs); }
        for i := 0 to |msg.blobHashes.value|
          invariant forall j :: 0 <= j < i ==> msg.blobHashes.value[j]
        {
          if !msg.blobHashes.value[i] { return Err(InvalidBlobHash); }
        }
      }
      if rules.isOsaka && BlobGasUsed(msg) > 0 && msg.blobFeeCap < ctx.blobBaseFee { return Err(BlobFeeCapTooLow); }
      if msg.authorizations.Some? {
        if !msg.hasTo { return Err(SetCodeTxCreate); }
        if msg.authorizations.value == 0 { return Err(EmptyAuthList); }
      }
      r := Ok(());
    }

    method PreCheck() returns (r: Result<(), Error>)
      requires msg.ratio <= 100 && gas == 0
      modifies this`gas, this`initialGas, this`balances
      ensures r.Err? ==> unchanged(this)
      ensures r.Ok? <==> WellFormed(msg, rules, ctx, stateNonce) && Affordable(old(balances), msg, rules, ctx)
      ensures r.Ok? ==>
        gas == initialGas == msg.gas && balances == Bought(old(balances), msg, MaxCharge(msg, rules, ctx))
      ensures r.Err? ==>
        if WellFormed(msg, rules, ctx, stateNonce) then ShortOf(old(balances), msg, rules, ctx, r.error)
        else Fault(msg, rules, ctx, stateNonce, r.error)
    {
      hide Affordable, WellFormed, ShortOf, Fault, Bought, MaxCharge;
      r := CheckMessage();
      if r.Err? { return; }
      r := BuyGas();
    }

    /** The gas used so far, as the 64-bit difference. */
    function UsedSoFar(): uint64
      reads this
    {
      Sub64(initialGas, gas)
    }

    /** The largest refund within the counter and the quotient of the gas used. */
    function CalcRefund(counter: uint64): (refund: uint64)
      requires gas <= initialGas
      reads this
      ensures gas + refund <= initialGas && refund <= counter
      ensures var q := if rules.isKore then 5 else 2;
              refund * q <= initialGas - gas && (refund == counter || (refund + 1) * q > initialGas - gas)
    {
      var q := if rules.isKore then REFUND_QUOTIENT_EIP3529 else REFUND_QUOTIENT;
      Min(UsedSoFar() / q, counter)
    }

    /** Gives the payer, or payer and sender, the price of the gas left. */
    method ReturnGas()
      requires msg.ratio <= 100
      modifies this`balances
      ensures balances == Returned(old(balances), msg, Cost(msg, gas))
    {
      var remaining := Cost(msg, gas);
      if msg.isRatio {
        balances := AddTo(balances, msg.feePayer, PayerShare(remaining, msg.ratio));
        balances := AddTo(balances, msg.sender, SenderShare(remaining, msg.ratio));
      } else {
        balances := AddTo(balances, msg.feePayer, remaining);
      }
    }

    /** The checks between buying gas and executing, returning the calldata floor. */
    method ChargeIntrinsic() returns (r: Result<nat, Error>)
      requires gas == initialGas == msg.gas
      modifies this`gas
      ensures r.Ok? ==> gas == msg.gas - msg.intrinsicGas && r.value == Floor(msg, rules) && r.value <= msg.gas
      ensures r.Ok? <==> Executable(balances, msg, rules, ctx)
      ensures r.Err? ==> Blocked(balances, msg, rules, ctx, r.error)
    {
      if gas < msg.intrinsicGas { return Err(IntrinsicGas); }
      var floor := 0;
      if rules.isPrague {
        var f := MessageFloor(msg);
        if f.Err? { return Err(f.error); }
        floor := f.value;
        if msg.gas < floor { return Err(FloorDataGasTooHigh); }
      }
      gas := gas - msg.intrinsicGas;
      if msg.value > 0 && BalanceOf(balances, msg.sender) < msg.value { return Err(InsufficientBalance); }
      if rules.isShanghai && !msg.hasTo && msg.zeroBytes + msg.nonZeroBytes > ctx.maxInitCode {
        return Err(MaxInitCodeSize);
      }
      r := Ok(floor);
    }

    /** Refunds, applies the floor, returns what is left and pays the reward. */
    method Settle(refundCounter: uint64, floor: nat) returns (used: uint64)
      requires msg.ratio <= 100 && gas <= initialGas == msg.gas && floor <= msg.gas
      modifies this`gas, this`balances
      ensures used == GasUsed(rules, old(initialGas) - old(gas), refundCounter, floor) && used <= msg.gas
      ensures balances == Rewarded(Returned(old(balances), msg, Cost(msg, msg.gas - used)), rules, ctx, Cost(msg, used))
      ensures forall a :: BalanceOf(balances, a) == BalanceOf(old(balances), a) + PaidOut(msg, rules, ctx, used, a)
    {
      hide Returned, AddTo, Cost, BalanceOf, PaidOut;
      var refund := CalcRefund(refundCounter);
      gas := gas + refund;
      if rules.isPrague && UsedSoFar() < floor { gas := Sub64(initialGas, floor); }
      ReturnGas();
      used := UsedSoFar();
      if !rules.deferredFee {
        var fee := Cost(msg, used);
        if rules.isMagma {
          var burnt := fee / 2;
          balances := AddTo(balances, ctx.rewardbase, fee - burnt);
        } else {
          balances := AddTo(balances, ctx.coinbase, fee);
        }
      }
      forall a ensures BalanceOf(balances, a) == BalanceOf(old(balances), a) + PaidOut(msg, rules, ctx, used, a) {
        SettledBalance(old(balances), msg, rules, ctx, used, a);
      }
    }

    /**
     Applies the message. On success the gas used lies between the calldata floor and the gas
     limit, and the total balance falls by exactly the blob fee and the burnt part of the fee.
     */
    method TransitionDb(out: Outcome) returns (r: Result<uint64, Error>)
      requires msg.ratio <= 100 && gas == 0
      modifies this`gas, this`initialGas, this`balances
      ensures r.Ok? ==> Settled(old(balances), balances, msg, rules, ctx, out, r.value)
      ensures r.Ok? ==> Total(balances) == Total(old(balances)) - Burnt(rules, BlobFee(msg, rules, ctx),
                                                                        Cost(msg, r.value))
      ensures r.Ok? ==>
        forall a :: BalanceOf(balances, a) == BalanceOf(old(balances), a) + Gain(msg, rules, ctx, out, r.value, a)
      ensures r.Ok? ==>
        var spent := Min(msg.intrinsicGas + out.spent, msg.gas);
        forall u: nat :: r.value <= u <==> Billable(rules, spent, out.refund, Floor(msg, rules), u)
      ensures r.Ok? <==>
        && WellFormed(msg, rules, ctx, stateNonce) && Affordable(old(balances), msg, rules, ctx)
        && Executable(Bought(old(balances), msg, MaxCharge(msg, rules, ctx)), msg, rules, ctx) && !out.timeLimit
      ensures !(WellFormed(msg, rules, ctx, stateNonce) && Affordable(old(balances), msg, rules, ctx)) ==>
        unchanged(this)
      ensures r.Err? ==> Failed(old(balances), balances, msg, rules, ctx, stateNonce, out, r.error)
    {
      hide Returned, Rewarded, Bought, Affordable, WellFormed, Executable, MaxCharge, GasUsed, ApplyTransfers, Floor,
        Cost, Total, BalanceOf, Gain, PaidOut, Billable, Fault, ShortOf, Blocked;
      var checked := PreCheck();
      if checked.Err? { return Err(checked.error); }
      var floor := ChargeIntrinsic();
      if floor.Err? { return Err(floor.error); }
      gas := gas - Min(out.spent, gas);
      balances := ApplyTransfers(balances, out.transfers);
      if out.timeLimit { return Err(TotalTimeLimit); }
      var used := Settle(out.refund, floor.value);
      Conserved(old(balances), msg, rules, ctx, out.transfers, used);
      UsedAboveFloor(rules, msg, Min(msg.intrinsicGas + out.spent, msg.gas), out.refund);
      AccountsSettled(old(balances), balances, msg, rules, ctx, out, used);
      LeastUsed(rules, msg, Min(msg.intrinsicGas + out.spent, msg.gas), out.refund);
      r := Ok(used);
    }
  }

  /** Whether bought gas and remaining balance let the message run. */
  ghost predicate Executable(b: Balances, msg: Message, rules: Rules, ctx: Context) {
    && msg.intrinsicGas <= msg.gas
    && (rules.isPrague ==> MessageFloor(msg).Ok? && MessageFloor(msg).value <= msg.gas)
    && (msg.value > 0 ==> BalanceOf(b, msg.sender) >= msg.value)
    && (rules.isShanghai && !msg.hasTo ==> msg.zeroBytes + msg.nonZeroBytes <= ctx.maxInitCode)
  }

  /** Why bought gas and remaining balance do not let the message run. */
  ghost predicate Blocked(b: Balances, msg: Message, rules: Rules, ctx: Context, e: Error) {
    if msg.gas < msg.intrinsicGas then e == IntrinsicGas
    else if rules.isPrague && MessageFloor(msg).Err? then e == MessageFloor(msg).error
    else if msg.gas < Floor(msg, rules) then e == FloorDataGasTooHigh
    else if BalanceOf(b, msg.sender) < msg.value && msg.value > 0 then e == InsufficientBalance
    else e == MaxInitCodeSize
  }

  /** Why a message fails, and what it has done to the balances by then. */
  ghost predicate Failed(before: Balances, after: Balances, msg: Message, rules: Rules, ctx: Context,
                         stateNonce: uint64, out: Outcome, e: Error) {
    var bought := Bought(before, msg, MaxCharge(msg, rules, ctx));
    if !WellFormed(msg, rules, ctx, stateNonce) then after == before && Fault(msg, rules, ctx, stateNonce, e)
    else if !Affordable(before, msg, rules, ctx) then after == before && ShortOf(before, msg, rules, ctx, e)
    else if !Executable(bought, msg, rules, ctx) then after == bought && Blocked(bought, msg, rules, ctx, e)
    else after == ApplyTransfers(bought, out.transfers) && e == TotalTimeLimit
  }

  /** What a successful message used and did to the balances. */
  ghost predicate Settled(before: Balances, after: Balances, msg: Message, rules: Rules, ctx: Context, out: Outcome,
                          used: nat) {
    && Floor(msg, rules) <= used <= msg.gas
    && used == GasUsed(rules, Min(msg.intrinsicGas + out.spent, msg.gas), out.refund, Floor(msg, rules))
    && var moved := ApplyTransfers(Bought(before, msg, MaxCharge(msg, rules, ctx)), out.transfers);
       after == Rewarded(Returned(moved, msg, Cost(msg, msg.gas - used)), rules, ctx, Cost(msg, used))
  }

  /** Whether the balances pass the checks of BuyGas. */
  ghost predicate Affordable(b: Balances, msg: Message, rules: Rules, ctx: Context) {
    var due := if rules.isOsaka then FeeCap(msg, rules) else MaxCharge(msg, rules, ctx);
    var payer, sender := PayerShare(due, msg.ratio), SenderShare(due, msg.ratio);
    if msg.feePayer == msg.sender then
      && (rules.isOsaka ==> due + msg.value < TWO_256)
      && BalanceOf(b, msg.sender) >= due + (if rules.isOsaka then msg.value else 0)
    else
      && (rules.isOsaka ==> payer < TWO_256 && sender + msg.value < TWO_256)
      && BalanceOf(b, msg.feePayer) >= payer
      && BalanceOf(b, msg.sender) >= sender + (if rules.isOsaka then msg.value else 0)
  }

  /** The conditions on a message that do not look at balances. */
  ghost predicate WellFormed(msg: Message, rules: Rules, ctx: Context, stateNonce: uint64) {
    && NonceRight(msg, stateNonce) && FeesRight(msg, rules, ctx) && BlobsRight(msg, rules)
    && BlobFeeRight(msg, rules, ctx) && (msg.authorizations.Some? ==> msg.hasTo && msg.authorizations.value > 0)
  }

  ghost predicate NonceRight(msg: Message, stateNonce: uint64) {
    msg.checkNonce ==> stateNonce == msg.nonce && stateNonce < MAX_UINT64
  }

  /** The fee caps are looked at since Prague, unless there are none. */
  ghost predicate FeesChecked(msg: Message, rules: Rules) {
    rules.isPrague && !(msg.gasFeeCap == 0 && msg.gasTipCap == 0)
  }

  ghost predicate FeesRight(msg: Message, rules: Rules, ctx: Context) {
    FeesChecked(msg, rules) ==> msg.gasTipCap <= msg.gasFeeCap < TWO_256 && ctx.baseFee <= msg.gasFeeCap
  }

  ghost predicate BlobCountRight(msg: Message, rules: Rules) {
    msg.blobHashes.Some? ==>
      msg.hasTo && |msg.blobHashes.value| > 0 && (rules.isOsaka ==> |msg.blobHashes.value| <= BLOB_TX_MAX_BLOBS)
  }

  ghost predicate BlobsRight(msg: Message, rules: Rules) {
    && BlobCountRight(msg, rules)
    && (msg.blobHashes.Some? ==> forall i :: 0 <= i < |msg.blobHashes.value| ==> msg.blobHashes.value[i])
  }

  ghost predicate BlobFeeRight(msg: Message, rules: Rules, ctx: Context) {
    rules.isOsaka && BlobGasUsed(msg) > 0 ==> ctx.blobBaseFee <= msg.blobFeeCap
  }

  /** Why a message whose nonce is right is refused for its fees. */
  ghost predicate FeeFault(msg: Message, rules: Rules, ctx: Context, e: Error) {
    && FeesChecked(msg, rules)
    && match e
       case FeeCapVeryHigh => msg.gasFeeCap >= TWO_256
       case TipVeryHigh => msg.gasFeeCap < TWO_256 <= msg.gasTipCap
       case TipAboveFeeCap => msg.gasFeeCap < msg.gasTipCap < TWO_256
       case FeeCapTooLow => msg.gasTipCap <= msg.gasFeeCap < TWO_256 && msg.gasFeeCap < ctx.baseFee
       case _ => false
  }

  /** Why a message whose nonce and fees are right is refused for its blobs. */
  ghost predicate BlobFault(msg: Message, rules: Rules, ctx: Context, e: Error) {
    match e
    case BlobTxCreate => msg.blobHashes.Some? && !msg.hasTo
    case MissingBlobHashes => msg.blobHashes == Some([]) && msg.hasTo
    case TooManyBlobs =>
      msg.blobHashes.Some? && msg.hasTo && rules.isOsaka && |msg.blobHashes.value| > BLOB_TX_MAX_BLOBS
    case InvalidBlobHash => BlobCountRight(msg, rules) && !BlobsRight(msg, rules)
    case BlobFeeCapTooLow => BlobsRight(msg, rules) && !BlobFeeRight(msg, rules, ctx)
    case _ => false
  }

  /** Why a message is refused before its balances are looked at. */
  ghost predicate Fault(msg: Message, rules: Rules, ctx: Context, stateNonce: uint64, e: Error) {
    match e
    case NonceTooHigh => msg.checkNonce && stateNonce < msg.nonce
    case NonceTooLow => msg.checkNonce && stateNonce > msg.nonce
    case NonceMax => msg.checkNonce && stateNonce == msg.nonce == MAX_UINT64
    case FeeCapVeryHigh => NonceRight(msg, stateNonce) && FeeFault(msg, rules, ctx, e)
    case TipVeryHigh => NonceRight(msg, stateNonce) && FeeFault(msg, rules, ctx, e)
    case TipAboveFeeCap => NonceRight(msg, stateNonce) && FeeFault(msg, rules, ctx, e)
    case FeeCapTooLow => NonceRight(msg, stateNonce) && FeeFault(msg, rules, ctx, e)
    case SetCodeTxCreate => BlobsPass(msg, rules, ctx, stateNonce) && msg.authorizations.Some? && !msg.hasTo
    case EmptyAuthList => BlobsPass(msg, rules, ctx, stateNonce) && msg.authorizations == Some(0) && msg.hasTo
    case _ => NonceRight(msg, stateNonce) && FeesRight(msg, rules, ctx) && BlobFault(msg, rules, ctx, e)
  }

  ghost predicate BlobsPass(msg: Message, rules: Rules, ctx: Context, stateNonce: uint64) {
    && NonceRight(msg, stateNonce) && FeesRight(msg, rules, ctx) && BlobsRight(msg, rules)
    && BlobFeeRight(msg, rules, ctx)
  }

  /** The calldata floor, in force since Prague. */
  function Floor(msg: Message, rules: Rules): nat {
    if rules.isPrague && MessageFloor(msg).Ok? then MessageFloor(msg).value else 0
  }

  function MessageFloor(msg: Message): Result<uint64, Error> {
    FloorDataGas(msg.txGas, msg.zeroBytes, msg.nonZeroBytes, msg.sigValidateGas)
  }

  lemma UsedAboveFloor(rules: Rules, msg: Message, spent: nat, refund: nat)
    ensures Floor(msg, rules) <= GasUsed(rules, spent, refund, Floor(msg, rules))
  {
  }

  lemma LeastUsed(rules: Rules, msg: Message, spent: nat, refund: nat)
    ensures forall u: nat :: GasUsed(rules, spent, refund, Floor(msg, rules)) <= u <==>
      Billable(rules, spent, refund, Floor(msg, rules), u)
  {
    hide GasUsed, Billable;
    forall u: nat
      ensures GasUsed(rules, spent, refund, Floor(msg, rules)) <= u <==>
        Billable(rules, spent, refund, Floor(msg, rules), u)
    {
      FloorSincePrague(msg, rules);
      UsedExactly(rules, spent, refund, Floor(msg, rules), u);
    }
  }

  lemma FloorSincePrague(msg: Message, rules: Rules)
    ensures !rules.isPrague ==> Floor(msg, rules) == 0
  {
  }

  /** What a message does to the balance of every account. */
  lemma AccountsSettled(before: Balances, after: Balances, msg: Message, rules: Rules, ctx: Context, out: Outcome,
                        used: uint64)
    requires used <= msg.gas && Settled(before, after, msg, rules, ctx, out, used)
    ensures forall a :: BalanceOf(after, a) == BalanceOf(before, a) + Gain(msg, rules, ctx, out, used, a)
  {
    hide Returned, Rewarded, Bought, MaxCharge, GasUsed, ApplyTransfers, Floor, Cost, BalanceOf, NetTransfers,
      ChargedTo, PaidOut;
    var bought := Bought(before, msg, MaxCharge(msg, rules, ctx));
    forall a ensures BalanceOf(after, a) == BalanceOf(before, a) + Gain(msg, rules, ctx, out, used, a) {
      ChargedBalance(before, msg, MaxCharge(msg, rules, ctx), a);
      TransfersBalance(bought, out.transfers, a);
      SettledBalance(ApplyTransfers(bought, out.transfers), msg, rules, ctx, used, a);
    }
  }

  /** Value conservation over buying, executing, returning and rewarding. */
  lemma Conserved(b: Balances, msg: Message, rules: Rules, ctx: Context, transfers: seq<Transfer>, used: nat)
    requires used <= msg.gas
    ensures var moved := ApplyTransfers(Bought(b, msg, MaxCharge(msg, rules, ctx)), transfers);
            Total(Rewarded(Returned(moved, msg, Cost(msg, msg.gas - used)), rules, ctx, Cost(msg, used))) ==
            Total(b) - Burnt(rules, BlobFee(msg, rules, ctx), Cost(msg, used))
  {
    hide Bought, Returned, Rewarded, ApplyTransfers, Total, BlobFee, Cost;
    var bought := Bought(b, msg, MaxCharge(msg, rules, ctx));
    var moved := ApplyTransfers(bought, transfers);
    BoughtTotal(b, msg, MaxCharge(msg, rules, ctx));
    TransfersKeepTotal(bought, transfers);
    ReturnedTotal(moved, msg, Cost(msg, msg.gas - used));
    RewardedTotal(Returned(moved, msg, Cost(msg, msg.gas - used)), rules, ctx, Cost(msg, used));
    CostSplits(msg, used);
  }

  lemma CostSplits(msg: Message, used: nat)
    requires used <= msg.gas
    ensures Cost(msg, used) + Cost(msg, msg.gas - used) == Cost(msg, msg.gas)
  {
  }

  /**
   What accounts pay in net for gas and blobs. A fee payer who shares the fee pays its
   percentage rounded down, or one more exactly when the remainders of the fee and of the
   returned amount reach 100; the sender pays the rest. Execution in between moves b to moved.
   */
  lemma NetCharge(b: Balances, moved: Balances, msg: Message, rules: Rules, ctx: Context, used: nat)
    requires used <= msg.gas && (!msg.isRatio ==> msg.ratio == 100)
    ensures var fee, left := Cost(msg, used) + BlobFee(msg, rules, ctx), Cost(msg, msg.gas - used);
            var payer := Paid(b, moved, msg, rules, ctx, left, msg.feePayer);
            var sender := Paid(b, moved, msg, rules, ctx, left, msg.sender);
            if msg.feePayer == msg.sender then payer == fee
            else
              && payer + sender == fee
              && payer == PayerShare(fee, msg.ratio) + if fee * msg.ratio % 100 + left * msg.ratio % 100 >= 100 then 1
                                                       else 0
  {
    CostSplits(msg, used);
    hide PayerShare, Cost, BlobFee;
    NetShare(Cost(msg, used) + BlobFee(msg, rules, ctx), Cost(msg, msg.gas - used), msg.ratio);
    if !msg.isRatio {
      WholeShare(Cost(msg, msg.gas - used));
      WholeShare(MaxCharge(msg, rules, ctx));
    }
  }

  lemma WholeShare(fee: nat)
    ensures PayerShare(fee, 100) == fee
  {
  }

  /** What an account loses by buying gas less what it gets back. */
  function Paid(b: Balances, moved: Balances, msg: Message, rules: Rules, ctx: Context, left: nat, a: Address): int {
    BalanceOf(b, a) - BalanceOf(Bought(b, msg, MaxCharge(msg, rules, ctx)), a)
    - (BalanceOf(Returned(moved, msg, left), a) - BalanceOf(moved, a))
  }

  // Solvency

  /** Charges within the caps leave every balance non-negative and, since Osaka, enough for the value. */
  lemma ChargeWithinCap(b: Balances, msg: Message, rules: Rules, ctx: Context)
    requires NonNegative(b) && msg.ratio <= 100 && Affordable(b, msg, rules, ctx)
    requires rules.isOsaka ==> MaxCharge(msg, rules, ctx) <= FeeCap(msg, rules)
    ensures NonNegative(Bought(b, msg, MaxCharge(msg, rules, ctx)))
    ensures rules.isOsaka ==> BalanceOf(Bought(b, msg, MaxCharge(msg, rules, ctx)), msg.sender) >= msg.value
  {
    var charge, cap := MaxCharge(msg, rules, ctx), FeeCap(msg, rules);
    SharesGrow(0, charge, msg.ratio);
    if rules.isOsaka { SharesGrow(charge, cap, msg.ratio); }
    hide MaxCharge, FeeCap, PayerShare;
  }

  /** The price a message pays since Kaia: the base fee and a tip that the fee cap leaves room for. */
  function EffectiveGasPrice(tipCap: nat, feeCap: nat, baseFee: nat): nat {
    baseFee + Min(tipCap, if feeCap > baseFee then feeCap - baseFee else 0)
  }

  /**
   Since Osaka a message that passes the checks never overdraws an account and can always make
   its transfer, whatever the fee ratio and whoever pays; a message with no fee caps is excepted.
   */
  lemma PassedCheckIsSolvent(b: Balances, msg: Message, rules: Rules, ctx: Context, stateNonce: uint64)
    requires NonNegative(b) && msg.ratio <= 100 && rules.isPrague && rules.isOsaka
    requires msg.gasPrice == EffectiveGasPrice(msg.gasTipCap, msg.gasFeeCap, ctx.baseFee)
    requires WellFormed(msg, rules, ctx, stateNonce) && !(msg.gasFeeCap == 0 && msg.gasTipCap == 0)
    requires Affordable(b, msg, rules, ctx)
    ensures var bought := Bought(b, msg, MaxCharge(msg, rules, ctx));
            NonNegative(bought) && BalanceOf(bought, msg.sender) >= msg.value
  {
    assert Cost(msg, msg.gas) <= msg.gas * msg.gasFeeCap by { Scaled(msg.gasPrice, msg.gasFeeCap, msg.gas); }
    assert BlobGasUsed(msg) * ctx.blobBaseFee <= BlobGasUsed(msg) * msg.blobFeeCap by {
      if BlobGasUsed(msg) > 0 { Scaled(ctx.blobBaseFee, msg.blobFeeCap, BlobGasUsed(msg)); }
    }
    hide Affordable, WellFormed, BlobGasUsed;
    ChargeWithinCap(b, msg, rules, ctx);
  }

  lemma Scaled(x: nat, y: nat, k: nat)
    requires x <= y
    ensures k * x <= k * y
  {
  }

  /** For a sender who pays alone, the cap check is enough for every balance exactly when the cap covers the charge. */
  lemma CapCheckEnoughExactly(msg: Message, rules: Rules, ctx: Context)
    requires rules.isOsaka && msg.feePayer == msg.sender && FeeCap(msg, rules) + msg.value < TWO_256
    ensures (forall b :: Affordable(b, msg, rules, ctx) ==>
               BalanceOf(Bought(b, msg, MaxCharge(msg, rules, ctx)), msg.sender) >= msg.value)
            <==> MaxCharge(msg, rules, ctx) <= FeeCap(msg, rules)
  {
    hide MaxCharge, FeeCap, PayerShare;
    var least: Balances := map[msg.sender := FeeCap(msg, rules) + msg.value];
    assert Affordable(least, msg, rules, ctx);
  }

  /** The same for a fee shared by two accounts: both shares of the charge must be covered. */
  lemma SharedCapCheckEnoughExactly(msg: Message, rules: Rules, ctx: Context)
    requires rules.isOsaka && msg.feePayer != msg.sender && msg.ratio <= 100
    requires PayerShare(FeeCap(msg, rules), msg.ratio) < TWO_256
    requires SenderShare(FeeCap(msg, rules), msg.ratio) + msg.value < TWO_256
    ensures (forall b :: Affordable(b, msg, rules, ctx) ==> CanPay(Bought(b, msg, MaxCharge(msg, rules, ctx)), msg))
            <==> && PayerShare(MaxCharge(msg, rules, ctx), msg.ratio) <= PayerShare(FeeCap(msg, rules), msg.ratio)
                 && SenderShare(MaxCharge(msg, rules, ctx), msg.ratio) <= SenderShare(FeeCap(msg, rules), msg.ratio)
  {
    hide MaxCharge, FeeCap, PayerShare, SenderShare;
    var cap := FeeCap(msg, rules);
    var least: Balances := map[msg.feePayer := PayerShare(cap, msg.ratio),
                               msg.sender := SenderShare(cap, msg.ratio) + msg.value];
    assert Affordable(least, msg, rules, ctx);
    assert CanPay(Bought(least, msg, MaxCharge(msg, rules, ctx)), msg) <==>
      && PayerShare(MaxCharge(msg, rules, ctx), msg.ratio) <= PayerShare(cap, msg.ratio)
      && SenderShare(MaxCharge(msg, rules, ctx), msg.ratio) <= SenderShare(cap, msg.ratio);
  }

  ghost predicate CanPay(b: Balances, msg: Message) {
    BalanceOf(b, msg.feePayer) >= 0 && BalanceOf(b, msg.sender) >= msg.value
  }

  /** A message without fee caps skips the base fee check, is checked against zero, and can overdraw its sender. */
  lemma ZeroCapsOverdraw()
    ensures var msg := Message(1, 1, 100, false, 21000, EffectiveGasPrice(0, 0, 25), 0, 0, 0, false, 0, true, None, 0,
                               None,
                               21000, 0, Some(21000), 0, 0);
            var rules, ctx := Rules(true, true, true, true, true, false), Context(25, 0, 2, 2, 0);
            && WellFormed(msg, rules, ctx, 0) && Affordable(map[], msg, rules, ctx)
            && BalanceOf(Bought(map[], msg, MaxCharge(msg, rules, ctx)), 1) < 0
  {
    var msg := Message(1, 1, 100, false, 21000, EffectiveGasPrice(0, 0, 25), 0, 0, 0, false, 0, true, None, 0, None,
                       21000, 0, Some(21000), 0, 0);
    var rules, ctx := Rules(true, true, true, true, true, false), Context(25, 0, 2, 2, 0);
    assert MaxCharge(msg, rules, ctx) == 21000 * 25;
    assert FeeCap(msg, rules) == 0;
  }
}
