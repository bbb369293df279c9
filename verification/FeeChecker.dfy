/**
 * The dynamic fee check of a Cosmos transaction: decimals are integers scaled by 10^18, quotients truncate,
 * and the charged amount is rounded up.
 */
module FeeChecker {
  import opened Common
  import opened Coins

  const MAX_INT64: nat := 0x7FFF_FFFF_FFFF_FFFF

  datatype ExtensionOption = DynamicFee(maxPriorityPrice: Option<int>) | OtherOption

  datatype Error = NegativePriorityPrice | ZeroGas | InsufficientFee

  datatype Charge = Charge(fee: int, priority: int)

  /** Division of non-negative numbers, rounded up. */
  function CeilDiv(x: int, y: int): (q: int)
    requires y > 0
  {
    x / y + if x % y == 0 then 0 else 1
  }

  /** The tip cap of the first dynamic fee option; a missing price in it counts as zero. */
  function TipCap(options: seq<ExtensionOption>): (tip: int) {
    if options == [] then MAX_INT64 * PRECISION
    else if options[0].DynamicFee? then
      if options[0].maxPriorityPrice.Some? then options[0].maxPriorityPrice.value else 0
    else TipCap(options[1..])
  }

  function EffectivePrice(baseFee: int, feeCap: int, tipCap: int): (price: int) {
    if tipCap + baseFee < feeCap then tipCap + baseFee else feeCap
  }

  function Priority(price: int, baseFee: int, reduction: int): (n: int)
    requires price >= baseFee && reduction > 0
  {
    var n := (price - baseFee) / reduction / PRECISION;
    if n <= MAX_INT64 then n else MAX_INT64
  }

  function Check(baseFee: nat, tipCap: int, gas: nat, fee: nat, reduction: int): (r: Result<Charge, Error>)
    requires reduction > 0
  {
    if tipCap < 0 then Err(NegativePriorityPrice)
    else if gas == 0 then Err(ZeroGas)
    else
      var feeCap := fee * PRECISION / gas;
      if feeCap < baseFee then Err(InsufficientFee)
      else
        var price := EffectivePrice(baseFee, feeCap, tipCap);
        Ok(Charge(CeilDiv(price * gas, PRECISION), Priority(price, baseFee, reduction)))
  }

  // ---------------------------------------------------------------- division

  /** `q` is the quotient exactly when `q * y` is the largest multiple of `y` up to `x`. */
  lemma QuotientIff(x: int, y: int, q: int)
    requires y > 0
    ensures q == x / y <==> q * y <= x < q * y + y
  {
    var k := x / y;
    assert x == k * y + x % y;
    if q < k {
      MulMonotone(q + 1, k, y);
      assert (q + 1) * y == q * y + y;
    } else if q > k {
      MulMonotone(k + 1, q, y);
      assert (k + 1) * y == k * y + y;
    }
  }

  lemma MulMonotone(a: int, b: int, y: int)
    requires a <= b && y >= 0
    ensures a * y <= b * y
  {
    assert b * y - a * y == (b - a) * y;
  }

  lemma QuotientMonotone(a: int, b: int, y: int)
    requires a <= b && y > 0
    ensures a / y <= b / y
  {
    QuotientIff(a, y, a / y);
    QuotientIff(b, y, b / y);
    assert (b / y + 1) * y == b / y * y + y;
    if a / y > b / y { MulMonotone(b / y + 1, a / y, y); }
  }

  /** `CeilDiv` is the least whole number of units that covers `x`. */
  lemma CeilIff(x: int, y: int, q: int)
    requires y > 0
    ensures q == CeilDiv(x, y) <==> q * y - y < x <= q * y
  {
    var k := x / y;
    assert x == k * y + x % y;
    assert (k + 1) * y == k * y + y;
    if q < CeilDiv(x, y) {
      MulMonotone(q, CeilDiv(x, y) - 1, y);
    } else if q > CeilDiv(x, y) {
      MulMonotone(CeilDiv(x, y), q - 1, y);
      assert (q - 1) * y == q * y - y;
    }
  }

  lemma CeilMonotone(a: int, b: int, y: int)
    requires a <= b && y > 0
    ensures CeilDiv(a, y) <= CeilDiv(b, y)
  {
    var p, q := CeilDiv(a, y), CeilDiv(b, y);
    CeilIff(a, y, p);
    CeilIff(b, y, q);
    assert (p - 1) * y == p * y - y;
    if p > q { MulMonotone(q, p - 1, y); }
  }

  // ---------------------------------------------------------------- what the check promises

  /** The least fee that pays the base fee for all the gas. */
  function RequiredFee(baseFee: nat, gas: nat): (n: int) {
    CeilDiv(baseFee * gas, PRECISION)
  }

  /** A transaction passes exactly when it has gas, its tip is not negative and its fee covers the base fee. */
  lemma PassesIff(baseFee: nat, tipCap: int, gas: nat, fee: nat, reduction: int)
    requires reduction > 0
    ensures Check(baseFee, tipCap, gas, fee, reduction).Ok?
            <==> tipCap >= 0 && gas > 0 && fee >= RequiredFee(baseFee, gas)
  {
    hide CeilDiv, EffectivePrice, Priority;
    if tipCap >= 0 && gas > 0 {
      CapCovers(baseFee, gas, fee);
      CeilIff(baseFee * gas, PRECISION, RequiredFee(baseFee, gas));
      if fee < RequiredFee(baseFee, gas) {
        MulMonotone(fee, RequiredFee(baseFee, gas) - 1, PRECISION);
      } else {
        MulMonotone(RequiredFee(baseFee, gas), fee, PRECISION);
      }
    }
  }

  lemma CapCovers(baseFee: nat, gas: nat, fee: nat)
    requires gas > 0
    ensures fee * PRECISION / gas >= baseFee <==> fee * PRECISION >= baseFee * gas
  {
    var cap := fee * PRECISION / gas;
    QuotientIff(fee * PRECISION, gas, cap);
    if cap >= baseFee {
      MulMonotone(baseFee, cap, gas);
    } else {
      MulMonotone(cap + 1, baseFee, gas);
      assert (cap + 1) * gas == cap * gas + gas;
    }
  }

  /** The charge lies between what the base fee requires and what was offered. */
  lemma ChargeIsBounded(baseFee: nat, tipCap: int, gas: nat, fee: nat, reduction: int)
    requires reduction > 0
    ensures Check(baseFee, tipCap, gas, fee, reduction).Ok? ==>
              var c := Check(baseFee, tipCap, gas, fee, reduction).value;
              RequiredFee(baseFee, gas) <= c.fee <= fee && 0 <= c.priority <= MAX_INT64
  {
    hide CeilDiv, Priority;
    if Check(baseFee, tipCap, gas, fee, reduction).Err? { return; }
    var cap := fee * PRECISION / gas;
    var price := EffectivePrice(baseFee, cap, tipCap);
    QuotientIff(fee * PRECISION, gas, cap);
    MulMonotone(baseFee, price, gas);
    CeilMonotone(baseFee * gas, price * gas, PRECISION);
    MulMonotone(price, cap, gas);
    CeilMonotone(price * gas, fee * PRECISION, PRECISION);
    CeilIff(fee * PRECISION, PRECISION, fee);
    PriorityIsBounded(price, baseFee, reduction);
  }

  lemma PriorityIsBounded(price: int, baseFee: int, reduction: int)
    requires price >= baseFee && reduction > 0
    ensures 0 <= Priority(price, baseFee, reduction) <= MAX_INT64
  {
    QuotientMonotone(0, price - baseFee, reduction);
    QuotientMonotone(0, (price - baseFee) / reduction, PRECISION);
    assert 0 / reduction == 0;
  }

  /** When the fee cap binds, the charge falls short of the offer by the whole units lost in the truncated cap. */
  lemma BindingCapCharge(baseFee: nat, tipCap: int, gas: nat, fee: nat, reduction: int)
    requires reduction > 0 && gas > 0
    ensures Check(baseFee, tipCap, gas, fee, reduction).Ok? && tipCap + baseFee >= fee * PRECISION / gas ==>
              Check(baseFee, tipCap, gas, fee, reduction).value.fee == fee - fee * PRECISION % gas / PRECISION
  {
    hide CeilDiv, Priority;
    var cap, lost := fee * PRECISION / gas, fee * PRECISION % gas;
    assert cap * gas == fee * PRECISION - lost;
    QuotientIff(lost, PRECISION, lost / PRECISION);
    CeilIff(cap * gas, PRECISION, fee - lost / PRECISION);
    assert (fee - lost / PRECISION) * PRECISION == fee * PRECISION - lost / PRECISION * PRECISION;
  }

  /** The whole offer is charged when the cap binds, if and only if the truncated cap lost less than one unit. */
  lemma WholeOfferIsChargedIff(baseFee: nat, tipCap: int, gas: nat, fee: nat, reduction: int)
    requires reduction > 0 && gas > 0
    ensures Check(baseFee, tipCap, gas, fee, reduction).Ok? && tipCap + baseFee >= fee * PRECISION / gas ==>
              && (Check(baseFee, tipCap, gas, fee, reduction).value.fee == fee <==> fee * PRECISION % gas < PRECISION)
              && (gas <= PRECISION ==> Check(baseFee, tipCap, gas, fee, reduction).value.fee == fee)
  {
    hide CeilDiv, Priority, EffectivePrice;
    BindingCapCharge(baseFee, tipCap, gas, fee, reduction);
    QuotientIff(fee * PRECISION % gas, PRECISION, 0);
  }

  /** With more than 10^18 gas the charge can miss the offer: here one unit is offered and nothing is charged. */
  lemma WholeOfferCanBeMissed(reduction: int)
    requires reduction > 0
    ensures Check(0, MAX_INT64 * PRECISION, PRECISION + 1, 1, reduction) == Ok(Charge(0, 0))
  {
    QuotientIff(0, reduction, 0);
  }

  /** When the tip binds, the charge is the least whole amount that covers base fee and tip for all the gas. */
  lemma BindingTipCharge(baseFee: nat, tipCap: int, gas: nat, fee: nat, reduction: int)
    requires reduction > 0 && gas > 0
    ensures Check(baseFee, tipCap, gas, fee, reduction).Ok? && tipCap + baseFee <= fee * PRECISION / gas ==>
              var charged := Check(baseFee, tipCap, gas, fee, reduction).value.fee;
              charged * PRECISION - PRECISION < (baseFee + tipCap) * gas <= charged * PRECISION
  {
    hide CeilDiv, Priority;
    if Check(baseFee, tipCap, gas, fee, reduction).Err? { return; }
    CeilIff((baseFee + tipCap) * gas, PRECISION, Check(baseFee, tipCap, gas, fee, reduction).value.fee);
  }

  /** Offering more never fails, never charges less and never lowers the priority. */
  lemma MoreIsNeverWorse(baseFee: nat, tipCap: int, gas: nat, low: nat, high: nat, reduction: int)
    requires reduction > 0 && low <= high && Check(baseFee, tipCap, gas, low, reduction).Ok?
    ensures Check(baseFee, tipCap, gas, high, reduction).Ok?
    ensures Check(baseFee, tipCap, gas, low, reduction).value.fee <= Check(baseFee, tipCap, gas, high, reduction).value.fee
    ensures Check(baseFee, tipCap, gas, low, reduction).value.priority
            <= Check(baseFee, tipCap, gas, high, reduction).value.priority
  {
    hide CeilDiv, Priority;
    MulMonotone(low, high, PRECISION);
    QuotientMonotone(low * PRECISION, high * PRECISION, gas);
    var p, q := EffectivePrice(baseFee, low * PRECISION / gas, tipCap), EffectivePrice(baseFee, high * PRECISION / gas, tipCap);
    MulMonotone(p, q, gas);
    CeilMonotone(p * gas, q * gas, PRECISION);
    PriorityMonotone(p, q, baseFee, reduction);
  }

  lemma PriorityMonotone(p: int, q: int, baseFee: int, reduction: int)
    requires baseFee <= p <= q && reduction > 0
    ensures Priority(p, baseFee, reduction) <= Priority(q, baseFee, reduction)
  {
    QuotientMonotone(p - baseFee, q - baseFee, reduction);
    QuotientMonotone((p - baseFee) / reduction, (q - baseFee) / reduction, PRECISION);
  }

  /** The first dynamic fee option decides, a missing price in it counts as zero, and without one there is no cap. */
  lemma {:induction false} FirstOptionDecides(options: seq<ExtensionOption>, j: nat)
    ensures (forall i :: 0 <= i < |options| ==> options[i].OtherOption?) ==>
              TipCap(options) == 0x7FFF_FFFF_FFFF_FFFF * 1_000_000_000_000_000_000
    ensures j < |options| && options[j].DynamicFee? && (forall i :: 0 <= i < j ==> options[i].OtherOption?) ==>
              TipCap(options) == match options[j].maxPriorityPrice case Some(tip) => tip case None => 0
    decreases j, |options|
  {
    if options != [] && options[0].OtherOption? {
      var rest := options[1..];
      assert forall i :: 0 <= i < |rest| ==> rest[i] == options[i + 1];
      if j > 0 { FirstOptionDecides(rest, j - 1); } else { FirstOptionDecides(rest, 0); }
    }
  }

  /** The priority is the tip that is paid in whole reductions, rounded down, and at most the greatest int64. */
  lemma {:induction false} PriorityCountsReductions(baseFee: nat, tipCap: int, gas: nat, fee: nat, reduction: int)
    requires reduction > 0 && gas > 0
    ensures Check(baseFee, tipCap, gas, fee, reduction).Ok? ==>
              var n, room := Check(baseFee, tipCap, gas, fee, reduction).value.priority, fee * PRECISION / gas - baseFee;
              var paid, unit := if tipCap <= room then tipCap else room, reduction * PRECISION;
              n <= 0x7FFF_FFFF_FFFF_FFFF && n * unit <= paid && (n < 0x7FFF_FFFF_FFFF_FFFF ==> paid < (n + 1) * unit)
  {
    hide CeilDiv;
    if Check(baseFee, tipCap, gas, fee, reduction).Ok? {
      var price := EffectivePrice(baseFee, fee * PRECISION / gas, tipCap);
      var n := (price - baseFee) / reduction / PRECISION;
      DivideTwice(price - baseFee, reduction, PRECISION);
      if n > MAX_INT64 { MulMonotone(MAX_INT64, n, reduction * PRECISION); }
    }
  }

  lemma {:induction false} DivideTwice(x: int, r: int, y: int)
    requires r > 0 && y > 0
    ensures var n := x / r / y; n * (r * y) <= x < (n + 1) * (r * y)
  {
    var q := x / r;
    var n := q / y;
    QuotientIff(x, r, q);
    QuotientIff(q, y, n);
    MulMonotone(n * y, q, r);
    MulMonotone(q + 1, n * y + y, r);
    assert n * y * r == n * (r * y) && (n * y + y) * r == (n + 1) * (r * y) && (q + 1) * r == q * r + r;
  }

  // ---------------------------------------------------------------- the check itself

  /** The check with its search for the dynamic fee option. */
  method FeeChecker(baseFee: Option<nat>, options: seq<ExtensionOption>, gas: nat, fee: nat, reduction: int)
    returns (r: Result<Charge, Error>)
    requires reduction > 0
    ensures r == Check(if baseFee.Some? then baseFee.value else 0, TipCap(options), gas, fee, reduction)
  {
    var base := if baseFee.Some? then baseFee.value else 0;
    var maxPriorityPrice: int := MAX_INT64 * PRECISION;
    var i := 0;
    while i < |options|
      invariant 0 <= i <= |options|
      invariant maxPriorityPrice == MAX_INT64 * PRECISION && TipCap(options) == TipCap(options[i..])
    {
      if options[i].DynamicFee? {
        maxPriorityPrice := if options[i].maxPriorityPrice.Some? then options[i].maxPriorityPrice.value else 0;
        break;
      }
      assert options[i..][1..] == options[i + 1..];
      i := i + 1;
    }
    if maxPriorityPrice < 0 { return Err(NegativePriorityPrice); }
    if gas == 0 { return Err(ZeroGas); }
    var feeCap := fee * PRECISION / gas;
    if feeCap < base { return Err(InsufficientFee); }
    var price := EffectivePrice(base, feeCap, maxPriorityPrice);
    var amount := CeilDiv(price * gas, PRECISION);
    var priorityInt := (price - base) / reduction / PRECISION;
    var priority := MAX_INT64;
    if priorityInt <= MAX_INT64 { priority := priorityInt; }
    return Ok(Charge(amount, priority));
  }
}
