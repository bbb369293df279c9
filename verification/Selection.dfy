/**
 * The reference order of the unified mempool: EVM transactions in the order of `TxOrder`, Cosmos
 * transactions in stream order, and a Cosmos transaction goes first only when its effective tip is
 * strictly above the tip of every account's first EVM transaction.
 */
module Selection {
  import opened Common
  import opened TxOrder

  datatype Coin = Coin(denom: string, amount: nat)

  /** The part of an SDK transaction that selection reads; `gas` matters for fee transactions only. */
  datatype CosmosTx = CosmosTx(id: nat, isFeeTx: bool, fees: seq<Coin>, gas: nat)

  datatype SdkTx = FromEVM(evm: LazyTx) | FromCosmos(cosmos: CosmosTx)

  /** What a run keeps fixed: fee denomination, head base fee, and which EVM transactions convert. */
  datatype Params = Params(bondDenom: string, headBaseFee: Option<U256>, convertible: LazyTx -> bool)

  /** The amount of the last coin in the given denomination. */
  function LastAmount(fees: seq<Coin>, denom: string): (n: nat) {
    if fees == [] then 0
    else if fees[|fees| - 1].denom == denom then fees[|fees| - 1].amount
    else LastAmount(fees[..|fees| - 1], denom)
  }

  ghost predicate HasGas(tx: CosmosTx) {
    tx.isFeeTx ==> tx.gas > 0
  }

  ghost function Tip(p: Params, tx: CosmosTx): (tip: nat)
    requires HasGas(tx)
  {
    if !tx.isFeeTx then 0 else
    var price := LastAmount(tx.fees, p.bondDenom) / tx.gas;
    if price >= TWO_256 then 0
    else if p.headBaseFee.None? then price
    else if price < p.headBaseFee.value then 0
    else price - p.headBaseFee.value
  }

  // ---------------------------------------------------------------- what the tip is

  /** The last coin in the denomination has this amount; without such a coin the amount is zero. */
  ghost predicate PaysLast(fees: seq<Coin>, denom: string, amount: nat) {
    || (exists j :: 0 <= j < |fees| && fees[j] == Coin(denom, amount) && NoLater(fees, denom, j))
    || (amount == 0 && NoLater(fees, denom, -1))
  }

  ghost predicate NoLater(fees: seq<Coin>, denom: string, j: int)
    requires -1 <= j
  {
    forall i :: j < i < |fees| ==> fees[i].denom != denom
  }

  lemma {:induction false} LastAmountIff(fees: seq<Coin>, denom: string, amount: nat)
    ensures LastAmount(fees, denom) == amount <==> PaysLast(fees, denom, amount)
  {
    if fees != [] {
      var n := |fees| - 1;
      LastAmountIff(fees[..n], denom, amount);
      if fees[n].denom == denom {
        assert NoLater(fees, denom, n);
        assert fees[n] == Coin(denom, fees[n].amount);
      } else {
        PaysLastGrows(fees, denom, amount);
      }
    }
  }

  lemma {:induction false} PaysLastGrows(fees: seq<Coin>, denom: string, amount: nat)
    requires fees != [] && fees[|fees| - 1].denom != denom
    ensures PaysLast(fees, denom, amount) <==> PaysLast(fees[..|fees| - 1], denom, amount)
  {
    var init := fees[..|fees| - 1];
    forall j | -1 <= j < |init| ensures NoLater(fees, denom, j) <==> NoLater(init, denom, j) {
      assert forall i :: 0 <= i < |init| ==> fees[i] == init[i];
    }
    if j :| 0 <= j < |init| && init[j] == Coin(denom, amount) && NoLater(init, denom, j) {
      assert fees[j] == Coin(denom, amount);
    }
    if j :| 0 <= j < |fees| && fees[j] == Coin(denom, amount) && NoLater(fees, denom, j) {
      assert j < |init| && init[j] == Coin(denom, amount);
    }
  }

  ghost function HeadBaseFee(p: Params): (b: nat) {
    if p.headBaseFee.None? then 0 else p.headBaseFee.value
  }

  /** What the amount pays per unit of gas above the base fee, rounded down; zero if that is nothing or too much. */
  ghost predicate IsTip(p: Params, tx: CosmosTx, amount: nat, tip: nat) {
    var b := HeadBaseFee(p);
    && (tx.isFeeTx && b * tx.gas <= amount < TWO_256 * tx.gas ==> (tip + b) * tx.gas <= amount < (tip + b + 1) * tx.gas)
    && (!tx.isFeeTx || amount < b * tx.gas || amount >= TWO_256 * tx.gas ==> tip == 0)
  }

  /** `q` is the quotient exactly when the product fits between; comparisons carry over. */
  lemma {:induction false} QuotientBounds(amount: nat, gas: nat, x: nat)
    requires gas > 0
    ensures var q := amount / gas;
            q * gas <= amount < (q + 1) * gas && (x <= q <==> x * gas <= amount)
  {
    var q, r := amount / gas, amount % gas;
    assert amount == q * gas + r;
    if x <= q { MultiplyBoth(x, q, gas); } else { MultiplyBoth(q + 1, x, gas); }
  }

  lemma {:induction false} MultiplyBoth(x: nat, y: nat, gas: nat)
    requires x <= y
    ensures x * gas <= y * gas
  {
  }

  lemma {:induction false} TipIsExact(p: Params, tx: CosmosTx, amount: nat)
    requires HasGas(tx) && PaysLast(tx.fees, p.bondDenom, amount)
    ensures IsTip(p, tx, amount, Tip(p, tx))
  {
    hide PaysLast, LastAmount;
    LastAmountIff(tx.fees, p.bondDenom, amount);
    if tx.isFeeTx {
      QuotientBounds(amount, tx.gas, HeadBaseFee(p));
      QuotientBounds(amount, tx.gas, TWO_256);
    }
  }

  /** The tip is above a fee exactly when the amount pays for the fee, the base fee and one more, unless it is too much. */
  lemma {:induction false} TipAboveIff(p: Params, tx: CosmosTx, amount: nat, fee: nat)
    requires HasGas(tx) && tx.isFeeTx && PaysLast(tx.fees, p.bondDenom, amount) && amount < TWO_256 * tx.gas
    ensures Tip(p, tx) > fee <==> amount >= (fee + HeadBaseFee(p) + 1) * tx.gas
  {
    hide PaysLast, LastAmount;
    LastAmountIff(tx.fees, p.bondDenom, amount);
    QuotientBounds(amount, tx.gas, TWO_256);
    QuotientBounds(amount, tx.gas, fee + HeadBaseFee(p) + 1);
  }

  datatype Step = TakeEVM(head: Head) | TakeCosmos(tx: CosmosTx)

  /** What one visit may consume from the EVM queues `q` and the Cosmos stream `cs`. */
  ghost predicate MayTake(p: Params, baseFee: Option<U256>, q: Queues, cs: seq<CosmosTx>, s: Step)
    requires Offers(q, baseFee) && forall c :: c in cs ==> HasGas(c)
  {
    match s
    case TakeEVM(h) => ScanPicks(q, baseFee, h) && (cs != [] ==> Tip(p, cs[0]) <= h.fees)
    case TakeCosmos(c) => cs != [] && c == cs[0] && forall a :: a in q ==> Tip(p, c) > Front(q, a, baseFee).fees
  }

  ghost function QueuesAfter(q: Queues, s: Step): (r: Queues)
    requires s.TakeEVM? ==> s.head.from in q && q[s.head.from] != []
  {
    if s.TakeEVM? then Advance(q, s.head.from) else q
  }

  ghost function StreamAfter(cs: seq<CosmosTx>, s: Step): (r: seq<CosmosTx>) {
    if s.TakeCosmos? && cs != [] then cs[1..] else cs
  }

  ghost predicate Schedule(p: Params, baseFee: Option<U256>, q: Queues, cs: seq<CosmosTx>,
                           steps: seq<Step>, q': Queues, cs': seq<CosmosTx>)
    requires Offers(q, baseFee) && forall c :: c in cs ==> HasGas(c)
    decreases |steps|
  {
    if steps == [] then q' == q && cs' == cs
    else
      && MayTake(p, baseFee, q, cs, steps[0])
      && Schedule(p, baseFee, QueuesAfter(q, steps[0]), StreamAfter(cs, steps[0]), steps[1..], q', cs')
  }

  lemma {:induction false} ScheduleAppend(p: Params, baseFee: Option<U256>, q: Queues, cs: seq<CosmosTx>,
                                          steps: seq<Step>, q': Queues, cs': seq<CosmosTx>, s: Step)
    requires Offers(q, baseFee) && forall c :: c in cs ==> HasGas(c)
    requires Schedule(p, baseFee, q, cs, steps, q', cs')
    requires Offers(q', baseFee) && (forall c :: c in cs' ==> HasGas(c)) && MayTake(p, baseFee, q', cs', s)
    ensures Schedule(p, baseFee, q, cs, steps + [s], QueuesAfter(q', s), StreamAfter(cs', s))
    ensures CosmosLeft(cs, steps) == cs'
    decreases |steps|
  {
    if steps == [] {
      assert (steps + [s])[1..] == [];
    } else {
      ScheduleAppend(p, baseFee, QueuesAfter(q, steps[0]), StreamAfter(cs, steps[0]), steps[1..], q', cs', s);
      assert (steps + [s])[1..] == steps[1..] + [s];
    }
  }

  /** The Cosmos stream after the given steps. */
  ghost function CosmosLeft(cs: seq<CosmosTx>, steps: seq<Step>): (r: seq<CosmosTx>) {
    if steps == [] then cs
    else CosmosLeft(StreamAfter(cs, steps[0]), steps[1..])
  }

  /** A run up to any of its steps is a run, and the step may be taken where it ends. */
  lemma {:induction false} ScheduleSplits(p: Params, baseFee: Option<U256>, q: Queues, cs: seq<CosmosTx>,
                                          steps: seq<Step>, q': Queues, cs': seq<CosmosTx>, n: nat)
    returns (qn: Queues, csn: seq<CosmosTx>)
    requires Offers(q, baseFee) && forall c :: c in cs ==> HasGas(c)
    requires Schedule(p, baseFee, q, cs, steps, q', cs') && n < |steps|
    ensures Offers(qn, baseFee) && forall c :: c in csn ==> HasGas(c)
    ensures Schedule(p, baseFee, q, cs, steps[..n], qn, csn) && MayTake(p, baseFee, qn, csn, steps[n])
    decreases n
  {
    hide Advance, Tip, Beats, MayTake, QueuesAfter, StreamAfter, Offers;
    if n == 0 {
      qn, csn := q, cs;
    } else {
      var s := steps[0];
      StepStreams(p, baseFee, q, cs, s);
      qn, csn := ScheduleSplits(p, baseFee, QueuesAfter(q, s), StreamAfter(cs, s), steps[1..], q', cs', n - 1);
      assert steps[1..][..n - 1] == steps[..n][1..] && steps[..n][0] == s;
    }
  }

  /**
   * At every step of a run a Cosmos transaction goes before the EVM transactions on offer only if its fee pays one
   * more per unit of gas than each of them, base fee included, and an EVM transaction goes before it only if not.
   */
  lemma {:induction false} HigherPayerGoesFirst(p: Params, baseFee: Option<U256>, q: Queues, cs: seq<CosmosTx>,
                                                steps: seq<Step>, q': Queues, cs': seq<CosmosTx>, n: nat, amount: nat)
    returns (qn: Queues, csn: seq<CosmosTx>)
    requires Offers(q, baseFee) && forall c :: c in cs ==> HasGas(c)
    requires Schedule(p, baseFee, q, cs, steps, q', cs') && n < |steps|
    ensures Offers(qn, baseFee) && Schedule(p, baseFee, q, cs, steps[..n], qn, csn)
    ensures steps[n].TakeCosmos? ==> csn != [] && csn[0] == steps[n].tx
    ensures csn != [] && csn[0].isFeeTx && PaysLast(csn[0].fees, p.bondDenom, amount) && amount < TWO_256 * csn[0].gas ==>
              (if steps[n].TakeCosmos? then
                 forall a :: a in qn ==> amount >= (Front(qn, a, baseFee).fees + HeadBaseFee(p) + 1) * csn[0].gas
               else amount < (steps[n].head.fees + HeadBaseFee(p) + 1) * csn[0].gas)
    ensures csn != [] && (!csn[0].isFeeTx || (PaysLast(csn[0].fees, p.bondDenom, amount) && amount >= TWO_256 * csn[0].gas)) ==>
              (steps[n].TakeCosmos? ==> qn == map[])
  {
    hide Schedule, PaysLast, Tip, LastAmount, Advance, Beats, ScanPicks;
    qn, csn := ScheduleSplits(p, baseFee, q, cs, steps, q', cs', n);
    if csn != [] {
      var c, s := csn[0], steps[n];
      if PaysLast(c.fees, p.bondDenom, amount) && amount >= TWO_256 * c.gas { TipIsExact(p, c, amount); }
      if !c.isFeeTx { TipOfOthers(p, c); }
      if c.isFeeTx && PaysLast(c.fees, p.bondDenom, amount) && amount < TWO_256 * c.gas {
        if s.TakeEVM? { TipAboveIff(p, c, amount, s.head.fees); }
        else {
          forall a | a in qn ensures amount >= (Front(qn, a, baseFee).fees + HeadBaseFee(p) + 1) * c.gas {
            TipAboveIff(p, c, amount, Front(qn, a, baseFee).fees);
          }
        }
      }
    }
  }

  lemma {:induction false} TipOfOthers(p: Params, tx: CosmosTx)
    requires !tx.isFeeTx
    ensures Tip(p, tx) == 0
  {
  }

  // ---------------------------------------------------------------- what a schedule consumes

  ghost function EvmOf(steps: seq<Step>): (r: seq<Head>) {
    if steps == [] then []
    else (if steps[0].TakeEVM? then [steps[0].head] else []) + EvmOf(steps[1..])
  }

  ghost function CosmosOf(steps: seq<Step>): (r: seq<CosmosTx>) {
    if steps == [] then []
    else (if steps[0].TakeCosmos? then [steps[0].tx] else []) + CosmosOf(steps[1..])
  }

  /** Selection interleaves a run of the EVM order with a prefix of the Cosmos stream. */
  lemma {:induction false} ScheduleInterleaves(p: Params, baseFee: Option<U256>, q: Queues, cs: seq<CosmosTx>,
                            steps: seq<Step>, q': Queues, cs': seq<CosmosTx>)
    requires Offers(q, baseFee) && forall c :: c in cs ==> HasGas(c)
    requires Schedule(p, baseFee, q, cs, steps, q', cs')
    ensures ScanRun(q, baseFee, EvmOf(steps), q')
    ensures cs == CosmosOf(steps) + cs'
    ensures |steps| == |EvmOf(steps)| + |CosmosOf(steps)|
  {
    ScheduleScans(p, baseFee, q, cs, steps, q', cs');
    ScheduleStreams(p, baseFee, q, cs, steps, q', cs');
    StepsAreOfTwoKinds(steps);
  }

  lemma {:induction false} ScheduleScans(p: Params, baseFee: Option<U256>, q: Queues, cs: seq<CosmosTx>,
                                         steps: seq<Step>, q': Queues, cs': seq<CosmosTx>)
    requires Offers(q, baseFee) && forall c :: c in cs ==> HasGas(c)
    requires Schedule(p, baseFee, q, cs, steps, q', cs')
    ensures ScanRun(q, baseFee, EvmOf(steps), q')
    decreases |steps|
  {
    hide Advance, Tip, Beats;
    if steps != [] {
      ScheduleScans(p, baseFee, QueuesAfter(q, steps[0]), StreamAfter(cs, steps[0]), steps[1..], q', cs');
      if steps[0].TakeEVM? {
        assert EvmOf(steps)[0] == steps[0].head && EvmOf(steps)[1..] == EvmOf(steps[1..]);
      } else {
        assert EvmOf(steps) == EvmOf(steps[1..]);
      }
    }
  }

  lemma StepStreams(p: Params, baseFee: Option<U256>, q: Queues, cs: seq<CosmosTx>, s: Step)
    requires Offers(q, baseFee) && forall c :: c in cs ==> HasGas(c)
    requires MayTake(p, baseFee, q, cs, s)
    ensures cs == (if s.TakeCosmos? then [s.tx] else []) + StreamAfter(cs, s)
    ensures s.TakeEVM? ==> s.head.from in q && q[s.head.from] != []
    ensures Offers(QueuesAfter(q, s), baseFee) && forall c :: c in StreamAfter(cs, s) ==> HasGas(c)
  {
  }

  lemma {:induction false} ScheduleStreams(p: Params, baseFee: Option<U256>, q: Queues, cs: seq<CosmosTx>,
                                           steps: seq<Step>, q': Queues, cs': seq<CosmosTx>)
    requires Offers(q, baseFee) && forall c :: c in cs ==> HasGas(c)
    requires Schedule(p, baseFee, q, cs, steps, q', cs')
    ensures cs == CosmosOf(steps) + cs'
    decreases |steps|
  {
    hide Advance, Tip, Beats, MayTake, QueuesAfter, StreamAfter, Offers;
    if steps == [] {
      assert cs == [] + cs';
    } else {
      var first := if steps[0].TakeCosmos? then [steps[0].tx] else [];
      StepStreams(p, baseFee, q, cs, steps[0]);
      ScheduleStreams(p, baseFee, QueuesAfter(q, steps[0]), StreamAfter(cs, steps[0]), steps[1..], q', cs');
      assert first + (CosmosOf(steps[1..]) + cs') == (first + CosmosOf(steps[1..])) + cs';
    }
  }

  lemma {:induction false} StepsAreOfTwoKinds(steps: seq<Step>)
    ensures |steps| == |EvmOf(steps)| + |CosmosOf(steps)|
  {
    if steps != [] {
      StepsAreOfTwoKinds(steps[1..]);
    }
  }

  /** A run to the end takes every offered EVM transaction and every Cosmos transaction exactly once. */
  lemma {:induction false} CompleteScheduleIsExact(p: Params, baseFee: Option<U256>, q: Queues, cs: seq<CosmosTx>,
                                steps: seq<Step>, a: Address)
    requires Offers(q, baseFee) && forall c :: c in cs ==> HasGas(c)
    requires Schedule(p, baseFee, q, cs, steps, map[], [])
    ensures TxsOf(EvmOf(steps), a) == QueueOf(q, a)
    ensures CosmosOf(steps) == cs
    ensures |steps| == Work(q) + |cs|
  {
    ScheduleInterleaves(p, baseFee, q, cs, steps, map[], []);
    DrainEmitsEveryQueue(q, baseFee, EvmOf(steps), a);
  }

  /** Without full ties between accounts the whole block order is determined by the pool contents. */
  lemma {:induction false} CompleteScheduleIsUnique(p: Params, baseFee: Option<U256>, q: Queues, cs: seq<CosmosTx>,
                                                    steps: seq<Step>, steps': seq<Step>)
    requires Offers(q, baseFee) && NoTies(q, baseFee) && forall c :: c in cs ==> HasGas(c)
    requires Schedule(p, baseFee, q, cs, steps, map[], []) && Schedule(p, baseFee, q, cs, steps', map[], [])
    ensures steps == steps'
    decreases |steps|
  {
    hide Tip, Beats, MayTake, QueuesAfter, StreamAfter, Offers, NoTies, Advance;
    CompleteScheduleIsExact(p, baseFee, q, cs, steps, 0);
    CompleteScheduleIsExact(p, baseFee, q, cs, steps', 0);
    if steps != [] {
      SamePick(p, baseFee, q, cs, steps[0], steps'[0]);
      StepStreams(p, baseFee, q, cs, steps[0]);
      StepKeepsNoTies(baseFee, q, steps[0]);
      CompleteScheduleIsUnique(p, baseFee, QueuesAfter(q, steps[0]), StreamAfter(cs, steps[0]), steps[1..], steps'[1..]);
    }
  }

  lemma {:induction false} StepKeepsNoTies(baseFee: Option<U256>, q: Queues, s: Step)
    requires Offers(q, baseFee) && NoTies(q, baseFee) && (s.TakeEVM? ==> s.head.from in q && q[s.head.from] != [])
    ensures Offers(QueuesAfter(q, s), baseFee) && NoTies(QueuesAfter(q, s), baseFee)
  {
  }

  lemma SamePick(p: Params, baseFee: Option<U256>, q: Queues, cs: seq<CosmosTx>, s: Step, s': Step)
    requires Offers(q, baseFee) && NoTies(q, baseFee) && forall c :: c in cs ==> HasGas(c)
    requires MayTake(p, baseFee, q, cs, s) && MayTake(p, baseFee, q, cs, s')
    ensures s == s'
  {
    if s.TakeEVM? && s'.TakeEVM? {
      var a, a' := s.head.from, s'.head.from;
      assert q[a][0] in q[a] && q[a'][0] in q[a'];
      assert !Beats(Front(q, a, baseFee), s'.head) && !Beats(Front(q, a', baseFee), s.head);
      assert a != a' ==> !SameKey(q[a][0], q[a'][0], baseFee);
    }
  }

  // ---------------------------------------------------------------- what the callback sees

  /** A failed conversion shows the head of the Cosmos stream instead, or nothing. */
  ghost function Visit(p: Params, cs: seq<CosmosTx>, s: Step): (v: Option<SdkTx>) {
    match s
    case TakeEVM(h) => if p.convertible(h.tx) then Some(FromEVM(h.tx))
                       else if cs == [] then None else Some(FromCosmos(cs[0]))
    case TakeCosmos(c) => Some(FromCosmos(c))
  }

  ghost function Visits(p: Params, cs: seq<CosmosTx>, steps: seq<Step>): (vs: seq<Option<SdkTx>>)
    ensures |vs| == |steps|
    decreases |steps|
  {
    if steps == [] then []
    else [Visit(p, cs, steps[0])] + Visits(p, StreamAfter(cs, steps[0]), steps[1..])
  }

  lemma {:induction false} VisitsAppend(p: Params, cs: seq<CosmosTx>, steps: seq<Step>, s: Step)
    ensures Visits(p, cs, steps + [s]) == Visits(p, cs, steps) + [Visit(p, CosmosLeft(cs, steps), s)]
    decreases |steps|
  {
    if steps == [] {
      assert steps + [s] == [s] && [s][1..] == [];
    } else {
      var cs1 := StreamAfter(cs, steps[0]);
      VisitsAppend(p, cs1, steps[1..], s);
      assert (steps + [s])[1..] == steps[1..] + [s];
    }
  }

  /** What a schedule ought to show: the transaction each step consumes. */
  ghost function Consumed(steps: seq<Step>): (vs: seq<Option<SdkTx>>) {
    seq(|steps|, i requires 0 <= i < |steps| =>
      match steps[i] case TakeEVM(h) => Some(FromEVM(h.tx)) case TakeCosmos(c) => Some(FromCosmos(c)))
  }

  /** The callback sees exactly what is consumed if and only if every EVM transaction converts. */
  lemma {:induction false} VisitsAreConsumedIff(p: Params, cs: seq<CosmosTx>, steps: seq<Step>)
    ensures Visits(p, cs, steps) == Consumed(steps)
            <==> forall h :: h in EvmOf(steps) ==> p.convertible(h.tx)
    decreases |steps|
  {
    if steps != [] {
      var cs1 := StreamAfter(cs, steps[0]);
      VisitsAreConsumedIff(p, cs1, steps[1..]);
      var v, c := Visits(p, cs, steps), Consumed(steps);
      assert c[1..] == Consumed(steps[1..]) && v[1..] == Visits(p, cs1, steps[1..]);
      assert v == [v[0]] + v[1..] && c == [c[0]] + c[1..];
      var es := EvmOf(steps[1..]);
      assert forall h :: h in EvmOf(steps) <==> h in es || steps[0] == TakeEVM(h);
    }
  }

  /** How many EVM transactions are taken, and do not convert, while `c` heads the Cosmos stream. */
  ghost function MissedAt(p: Params, cs: seq<CosmosTx>, steps: seq<Step>, c: CosmosTx): (n: nat) {
    if steps == [] then 0
    else
      (if steps[0].TakeEVM? && !p.convertible(steps[0].head.tx) && cs != [] && cs[0] == c then 1 else 0)
      + MissedAt(p, StreamAfter(cs, steps[0]), steps[1..], c)
  }

  /** A Cosmos transaction is shown as often as it is taken, plus once for every such miss. */
  lemma {:induction false} CosmosIsShown(p: Params, cs: seq<CosmosTx>, steps: seq<Step>, c: CosmosTx)
    ensures multiset(Visits(p, cs, steps))[Some(FromCosmos(c))]
            == multiset(CosmosOf(steps))[c] + MissedAt(p, cs, steps, c)
    decreases |steps|
  {
    if steps != [] {
      var v, rest := Visit(p, cs, steps[0]), Visits(p, StreamAfter(cs, steps[0]), steps[1..]);
      CosmosIsShown(p, StreamAfter(cs, steps[0]), steps[1..], c);
      assert Visits(p, cs, steps) == [v] + rest;
      assert multiset([v] + rest) == multiset{v} + multiset(rest);
      var first := if steps[0].TakeCosmos? then [steps[0].tx] else [];
      assert multiset(first + CosmosOf(steps[1..])) == multiset(first) + multiset(CosmosOf(steps[1..]));
    }
  }
}
