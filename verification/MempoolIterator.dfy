/**
 * `EVMMempoolIterator` and the `SelectBy` loop of the mempool. The Cosmos iterator is a finite
 * ordered stream; a callback may depend on everything it has been shown so far.
 */
module MempoolIterator {
  import opened Common
  import opened TxOrder
  import opened PriceNonceHeap
  import opened Selection

  class EVMMempoolIterator {
    const evm: TransactionsByPriceAndNonce?
    var cosmos: Option<seq<CosmosTx>>   // None is a nil iterator
    const params: Params

    constructor (evm: TransactionsByPriceAndNonce?, cosmos: Option<seq<CosmosTx>>, params: Params)
      ensures this.evm == evm && this.cosmos == cosmos && this.params == params
    {
      this.evm, this.cosmos, this.params := evm, cosmos, params;
    }

    ghost predicate Valid()
      reads this, evm
    {
      (evm != null ==> evm.Valid()) && forall c :: c in Stream() ==> HasGas(c)
    }

    function Stream(): (cs: seq<CosmosTx>)
      reads this
    {
      if cosmos.None? then [] else cosmos.value
    }

    ghost function BaseFee(): (fee: Option<U256>) {
      if evm == null then None else evm.baseFee
    }

    ghost function Queues(): (q: Queues)
      reads this, evm
    {
      if evm == null then map[] else evm.remaining
    }

    function NextEVMTx(): (h: Option<Head>)
      reads this, evm
      requires Valid()
      ensures Offers(Queues(), BaseFee())
      ensures h.None? <==> Queues() == map[]
      ensures h.Some? ==> evm != null && evm.heads != [] && h.value == evm.heads[0]
      ensures h.Some? ==> ScanPicks(Queues(), BaseFee(), h.value)
    {
      if evm == null then None else evm.Peek()
    }

    /** Gas price in the bond denomination above the base fee; None stands for "no valid fee". */
    method ExtractCosmosEffectiveTip(tx: CosmosTx) returns (tip: Option<nat>)
      requires HasGas(tx)
      ensures Tip(params, tx) == if tip.None? then 0 else tip.value
      ensures forall amount :: PaysLast(tx.fees, params.bondDenom, amount) ==>
                IsTip(params, tx, amount, if tip.None? then 0 else tip.value)
    {
      forall amount | PaysLast(tx.fees, params.bondDenom, amount) ensures IsTip(params, tx, amount, Tip(params, tx)) {
        TipIsExact(params, tx, amount);
      }
      hide PaysLast, IsTip;
      if !tx.isFeeTx { return None; }
      var amount := 0;
      for i := 0 to |tx.fees|
        invariant amount == LastAmount(tx.fees[..i], params.bondDenom)
      {
        assert tx.fees[..i + 1][..i] == tx.fees[..i];
        if tx.fees[i].denom == params.bondDenom {
          amount := tx.fees[i].amount;
        }
      }
      assert tx.fees[..|tx.fees|] == tx.fees;
      var gasPrice := amount / tx.gas;
      if gasPrice >= TWO_256 { return None; }
      if params.headBaseFee.None? { return Some(gasPrice); }
      if gasPrice < params.headBaseFee.value { return Some(0); }
      return Some(gasPrice - params.headBaseFee.value);
    }

    method NextCosmosTx() returns (tx: Option<CosmosTx>, tip: nat)
      requires Valid()
      ensures tx == if Stream() == [] then None else Some(Stream()[0])
      ensures tx.Some? ==> tip == Tip(params, tx.value)
    {
      if Stream() == [] { return None, 0; }
      var t := ExtractCosmosEffectiveTip(Stream()[0]);
      return Some(Stream()[0]), if t.None? then 0 else t.value;
    }

    method ShouldUseEVM() returns (useEVM: bool)
      requires Valid()
      ensures useEVM <==> NextEVMTx().Some? && (Stream() == [] || Tip(params, Stream()[0]) <= NextEVMTx().value.fees)
    {
      var nextEVM := NextEVMTx();
      var nextCosmos, cosmosFee := NextCosmosTx();
      if nextEVM.None? { return false; }
      if nextCosmos.None? { return true; }
      if cosmosFee == 0 { return true; }
      return !(cosmosFee > nextEVM.value.fees);
    }

    method HasMoreTransactions() returns (more: bool)
      requires Valid()
      ensures more <==> Queues() != map[] || Stream() != []
    {
      var nextEVM := NextEVMTx();
      var nextCosmos, _ := NextCosmosTx();
      more := nextEVM.Some? || nextCosmos.Some?;
    }

    /** The step that the next call of `Next` will take. */
    ghost function NextStep(): (s: Step)
      reads this, evm
      requires Valid() && (Queues() != map[] || Stream() != [])
      ensures Offers(Queues(), BaseFee()) && (forall c :: c in Stream() ==> HasGas(c))
      ensures MayTake(params, BaseFee(), Queues(), Stream(), s)
    {
      var h := NextEVMTx();
      if h.Some? && (Stream() == [] || Tip(params, Stream()[0]) <= h.value.fees) then TakeEVM(h.value)
      else
        CosmosAboveAll(params, BaseFee(), Queues(), Stream(), h);
        TakeCosmos(Stream()[0])
    }

    method Tx() returns (tx: Option<SdkTx>)
      requires Valid() && (Queues() != map[] || Stream() != [])
      ensures tx == Visit(params, Stream(), NextStep())
    {
      var nextEVM := NextEVMTx();
      var nextCosmos, _ := NextCosmosTx();
      var useEVM := ShouldUseEVM();
      if useEVM && nextEVM.Some? && params.convertible(nextEVM.value.tx) {
        return Some(FromEVM(nextEVM.value.tx));
      }
      return if nextCosmos.None? then None else Some(FromCosmos(nextCosmos.value));
    }

    method AdvanceCurrentIterator()
      requires Valid() && (Queues() != map[] || Stream() != [])
      modifies this, evm
      ensures Valid()
      ensures Queues() == QueuesAfter(old(Queues()), old(NextStep()))
      ensures Stream() == StreamAfter(old(Stream()), old(NextStep()))
    {
      var useEVM := ShouldUseEVM();
      if useEVM {
        evm.Shift();
      } else {
        // the SDK iterator's Next: nil once the stream is used up
        cosmos := if |Stream()| <= 1 then None else Some(Stream()[1..]);
      }
    }

    /** False stands for the nil iterator that ends the iteration. */
    method Next() returns (more: bool)
      requires Valid()
      modifies this, evm
      ensures Valid()
      ensures old(Queues() == map[] && Stream() == []) ==> !more && Queues() == map[] && Stream() == []
      ensures old(Queues() != map[] || Stream() != []) ==>
                && Queues() == QueuesAfter(old(Queues()), old(NextStep()))
                && Stream() == StreamAfter(old(Stream()), old(NextStep()))
      ensures more <==> Queues() != map[] || Stream() != []
      ensures Offers(Queues(), BaseFee()) && forall c :: c in Stream() ==> HasGas(c)
    {
      var nextEVM := NextEVMTx();
      var nextCosmos, _ := NextCosmosTx();
      if nextEVM.None? && nextCosmos.None? { return false; }
      AdvanceCurrentIterator();
      more := HasMoreTransactions();
    }
  }

  lemma CosmosAboveAll(p: Params, baseFee: Option<U256>, q: Queues, cs: seq<CosmosTx>, h: Option<Head>)
    requires Offers(q, baseFee) && forall c :: c in cs ==> HasGas(c)
    requires h.None? <==> q == map[]
    requires h.Some? ==> ScanPicks(q, baseFee, h.value)
    requires cs != [] && (h.Some? ==> Tip(p, cs[0]) > h.value.fees)
    ensures forall a :: a in q ==> Tip(p, cs[0]) > Front(q, a, baseFee).fees
  {
    forall a | a in q ensures Tip(p, cs[0]) > Front(q, a, baseFee).fees {
      assert !Beats(Front(q, a, baseFee), h.value);
    }
  }

  /** `shown` is what a schedule from `(q, cs)` to `(q', cs')` shows, and `f` agreed to go on after all but the last. */
  ghost predicate Shows(p: Params, baseFee: Option<U256>, q: Queues, cs: seq<CosmosTx>, f: seq<Option<SdkTx>> -> bool,
                        shown: seq<Option<SdkTx>>, steps: seq<Step>, q': Queues, cs': seq<CosmosTx>)
    requires Offers(q, baseFee) && forall c :: c in cs ==> HasGas(c)
  {
    && Schedule(p, baseFee, q, cs, steps, q', cs')
    && shown == Visits(p, cs, steps)
    && (forall k :: 0 < k < |shown| ==> f(shown[..k]))
  }

  /** `Shows`, with the callback willing to go on and the pools as they should be. */
  ghost predicate GoesOn(p: Params, baseFee: Option<U256>, q: Queues, cs: seq<CosmosTx>, f: seq<Option<SdkTx>> -> bool,
                         shown: seq<Option<SdkTx>>, steps: seq<Step>, q': Queues, cs': seq<CosmosTx>)
  {
    && Offers(q, baseFee) && (forall c :: c in cs ==> HasGas(c))
    && Shows(p, baseFee, q, cs, f, shown, steps, q', cs')
    && (shown != [] ==> f(shown))
  }

  lemma {:induction false} ShowsOneMore(p: Params, baseFee: Option<U256>, q: Queues, cs: seq<CosmosTx>, f: seq<Option<SdkTx>> -> bool,
                     shown: seq<Option<SdkTx>>, steps: seq<Step>, q': Queues, cs': seq<CosmosTx>, s: Step)
    requires GoesOn(p, baseFee, q, cs, f, shown, steps, q', cs')
    requires Offers(q', baseFee) && (forall c :: c in cs' ==> HasGas(c)) && MayTake(p, baseFee, q', cs', s)
    ensures s.TakeEVM? ==> s.head.from in q' && q'[s.head.from] != []
    ensures Offers(q, baseFee) && forall c :: c in cs ==> HasGas(c)
    ensures Shows(p, baseFee, q, cs, f, shown + [Visit(p, cs', s)], steps + [s], QueuesAfter(q', s), StreamAfter(cs', s))
    ensures f(shown + [Visit(p, cs', s)]) ==>
              GoesOn(p, baseFee, q, cs, f, shown + [Visit(p, cs', s)], steps + [s], QueuesAfter(q', s), StreamAfter(cs', s))
    ensures Work(QueuesAfter(q', s)) + |StreamAfter(cs', s)| < Work(q') + |cs'|
  {
    hide Beats;
    VisitsAppend(p, cs, steps, s);
    ScheduleAppend(p, baseFee, q, cs, steps, q', cs', s);
    if s.TakeEVM? { WorkDecreases(q', s.head.from); }
    var shown' := shown + [Visit(p, cs', s)];
    forall k | 0 < k < |shown'| ensures f(shown'[..k]) {
      assert shown'[..k] == shown[..k];
      assert k == |shown| ==> shown[..k] == shown;
    }
  }

  /** One turn of the loop: show what comes next and, if the callback agrees, move on. */
  method ShowNext(it: EVMMempoolIterator, f: seq<Option<SdkTx>> -> bool, shown0: seq<Option<SdkTx>>,
                  ghost q: Queues, ghost cs: seq<CosmosTx>, ghost steps0: seq<Step>)
    returns (shown: seq<Option<SdkTx>>, more: bool, ghost steps: seq<Step>, ghost q': Queues, ghost cs': seq<CosmosTx>)
    requires it.Valid() && (it.Queues() != map[] || it.Stream() != [])
    requires GoesOn(it.params, it.BaseFee(), q, cs, f, shown0, steps0, it.Queues(), it.Stream())
    modifies it, it.evm
    ensures Offers(q, it.BaseFee()) && forall c :: c in cs ==> HasGas(c)
    ensures shown != [] && Shows(it.params, it.BaseFee(), q, cs, f, shown, steps, q', cs')
    ensures f(shown) ==>
              && it.Valid() && it.Queues() == q' && it.Stream() == cs'
              && GoesOn(it.params, it.BaseFee(), q, cs, f, shown, steps, q', cs')
              && Work(q') + |cs'| < old(Work(it.Queues()) + |it.Stream()|)
    ensures more <==> f(shown) && (q' != map[] || cs' != [])
  {
    hide *;
    ghost var s, q0, cs0 := it.NextStep(), it.Queues(), it.Stream();
    var tx := it.Tx();
    ShowsOneMore(it.params, it.BaseFee(), q, cs, f, shown0, steps0, q0, cs0, s);
    shown, steps, q', cs' := shown0 + [tx], steps0 + [s], QueuesAfter(q0, s), StreamAfter(cs0, s);
    more := f(shown);
    if more { more := it.Next(); }
  }

  /** The loop of `SelectBy` over an iterator that is not nil. */
  method Drain(it: EVMMempoolIterator, f: seq<Option<SdkTx>> -> bool)
    returns (shown: seq<Option<SdkTx>>, ghost steps: seq<Step>, ghost q': Queues, ghost cs': seq<CosmosTx>)
    requires it.Valid() && (it.Queues() != map[] || it.Stream() != [])
    modifies it, it.evm
    ensures old(Offers(it.Queues(), it.BaseFee()) && forall c :: c in it.Stream() ==> HasGas(c))
    ensures Shows(it.params, it.BaseFee(), old(it.Queues()), old(it.Stream()), f, shown, steps, q', cs')
    ensures q' != map[] || cs' != [] ==> shown != [] && !f(shown)
  {
    ghost var q, cs := it.Queues(), it.Stream();
    ghost var _ := it.NextEVMTx();
    NothingShownYet(it.params, it.BaseFee(), q, cs, f);
    hide *;
    var more;
    shown, more, steps, q', cs' := ShowNext(it, f, [], q, cs, []);
    while more
      invariant Offers(q, it.BaseFee()) && forall c :: c in cs ==> HasGas(c)
      invariant shown != [] && Shows(it.params, it.BaseFee(), q, cs, f, shown, steps, q', cs')
      invariant f(shown) ==>
                  && it.Valid() && it.Queues() == q' && it.Stream() == cs'
                  && GoesOn(it.params, it.BaseFee(), q, cs, f, shown, steps, q', cs')
      invariant more <==> f(shown) && (q' != map[] || cs' != [])
      decreases more, Work(q') + |cs'|
    {
      shown, more, steps, q', cs' := ShowNext(it, f, shown, q, cs, steps);
    }
  }

  lemma NothingShownYet(p: Params, baseFee: Option<U256>, q: Queues, cs: seq<CosmosTx>, f: seq<Option<SdkTx>> -> bool)
    requires Offers(q, baseFee) && forall c :: c in cs ==> HasGas(c)
    ensures GoesOn(p, baseFee, q, cs, f, [], [], q, cs)
  {
  }

  /** Some schedule shows exactly this, and it leaves something only if the callback refused to go on. */
  ghost predicate Selects(p: Params, baseFee: Option<U256>, q: Queues, cs: seq<CosmosTx>, f: seq<Option<SdkTx>> -> bool,
                          shown: seq<Option<SdkTx>>)
    requires Offers(q, baseFee) && forall c :: c in cs ==> HasGas(c)
  {
    exists steps, q', cs' :: Shows(p, baseFee, q, cs, f, shown, steps, q', cs')
                             && (q' != map[] || cs' != [] ==> shown != [] && !f(shown))
  }

  /**
   * `SelectBy`: show transactions to `f` until it answers false or nothing is left. Whatever `f`
   * answers and whatever fails to convert, it ends, and what it shows is a schedule of the reference order.
   */
  method SelectBy(pending: map<Address, seq<LazyTx>>, fee: Option<U256>, stream: Option<seq<CosmosTx>>,
                  params: Params, f: seq<Option<SdkTx>> -> bool) returns (shown: seq<Option<SdkTx>>)
    requires forall a :: a in pending ==> pending[a] != []
    requires stream.Some? ==> forall c :: c in stream.value ==> HasGas(c)
    ensures var cs := if stream.None? then [] else stream.value;
            (forall c :: c in cs ==> HasGas(c)) && Selects(params, fee, EligibleQueues(pending, fee), cs, f, shown)
  {
    var evm := new TransactionsByPriceAndNonce(pending, fee);
    var it := new EVMMempoolIterator(evm, stream, params);
    ghost var q, cs := it.Queues(), it.Stream();
    var more := it.HasMoreTransactions();   // NewEVMMempoolIterator is nil when both sides are empty
    ghost var steps, q', cs' := [], map[], [];
    if more {
      shown, steps, q', cs' := Drain(it, f);
    } else {
      shown := [];
    }
    assert Shows(params, fee, q, cs, f, shown, steps, q', cs');
  }

  /** A callback that never refuses is shown a complete schedule. */
  lemma WillingSelectionIsComplete(p: Params, baseFee: Option<U256>, q: Queues, cs: seq<CosmosTx>,
                                   f: seq<Option<SdkTx>> -> bool, shown: seq<Option<SdkTx>>) returns (steps: seq<Step>)
    requires Offers(q, baseFee) && forall c :: c in cs ==> HasGas(c)
    requires Selects(p, baseFee, q, cs, f, shown) && f(shown)
    ensures Shows(p, baseFee, q, cs, f, shown, steps, map[], [])
  {
    var q', cs';
    steps, q', cs' :| Shows(p, baseFee, q, cs, f, shown, steps, q', cs')
                      && (q' != map[] || cs' != [] ==> shown != [] && !f(shown));
  }

  /** A run to the end takes every account's eligible prefix in nonce order and the whole Cosmos stream, once each. */
  lemma {:induction false} FullSelectionIsExact(pending: map<Address, seq<LazyTx>>, fee: Option<U256>, cs: seq<CosmosTx>, p: Params,
                             f: seq<Option<SdkTx>> -> bool, shown: seq<Option<SdkTx>>, steps: seq<Step>, a: Address)
    requires forall c :: c in cs ==> HasGas(c)
    requires Shows(p, fee, EligibleQueues(pending, fee), cs, f, shown, steps, map[], [])
    ensures |shown| == Work(EligibleQueues(pending, fee)) + |cs|
    ensures CosmosOf(steps) == cs
    ensures TxsOf(EvmOf(steps), a) == if a in pending then EligiblePrefix(pending[a], fee) else []
  {
    CompleteScheduleIsExact(p, fee, EligibleQueues(pending, fee), cs, steps, a);
  }

  /** The callback is shown exactly what is taken if and only if every eligible EVM transaction converts. */
  lemma {:induction false} FullSelectionShowsAllIff(pending: map<Address, seq<LazyTx>>, fee: Option<U256>, cs: seq<CosmosTx>, p: Params,
                                 f: seq<Option<SdkTx>> -> bool, shown: seq<Option<SdkTx>>, steps: seq<Step>)
    requires forall c :: c in cs ==> HasGas(c)
    requires Shows(p, fee, EligibleQueues(pending, fee), cs, f, shown, steps, map[], [])
    ensures shown == Consumed(steps) <==>
            forall a, t :: a in pending && t in EligiblePrefix(pending[a], fee) ==> p.convertible(t)
  {
    var q, es := EligibleQueues(pending, fee), EvmOf(steps);
    VisitsAreConsumedIff(p, cs, steps);
    forall h | h in es ensures h.from in pending && h.tx in EligiblePrefix(pending[h.from], fee) {
      ScheduleInterleaves(p, fee, q, cs, steps, map[], []);
      var i :| 0 <= i < |es| && es[i] == h;
      RunFees(q, fee, es, map[], i);
    }
    forall a, t | a in pending && t in EligiblePrefix(pending[a], fee) ensures exists h :: h in es && h.tx == t {
      FullSelectionIsExact(pending, fee, cs, p, f, shown, steps, a);
      TxsOfCameFromRun(es, a, t);
    }
  }

  /**
   * A pool that shows it: one EVM transaction that pays at least the Cosmos tip and does not convert, and one Cosmos
   * transaction. Every complete selection shows the Cosmos transaction twice and the EVM one never.
   */
  lemma FailedConversionShowsCosmosTwice(p: Params, fee: Option<U256>, a: Address, t: LazyTx, c: CosmosTx,
                                         f: seq<Option<SdkTx>> -> bool, shown: seq<Option<SdkTx>>, steps: seq<Step>)
    requires HasGas(c) && Eligible(t, fee) && !p.convertible(t) && Tip(p, c) <= EffectiveTip(t, fee)
    requires Shows(p, fee, EligibleQueues(map[a := [t]], fee), [c], f, shown, steps, map[], [])
    ensures shown == [Some(FromCosmos(c)), Some(FromCosmos(c))]
  {
    var q := EligibleQueues(map[a := [t]], fee);
    assert [t][1..] == [] && EligiblePrefix([t], fee) == [t];
    assert q == map[a := [t]];
    CompleteScheduleIsExact(p, fee, q, [c], steps, a);
    WorkSplit(q, a);
    assert q - {a} == map[];
    assert |steps| == 2;
    var s := steps[0];
    assert MayTake(p, fee, q, [c], s);
    assert Front(q, a, fee).fees == EffectiveTip(t, fee);
    assert s.TakeEVM? && s.head.tx == t;
    var rest := steps[1..];
    assert Schedule(p, fee, QueuesAfter(q, s), [c], rest, map[], []);
    assert QueuesAfter(q, s) == map[];
    assert MayTake(p, fee, map[], [c], rest[0]);
    assert rest[0] == TakeCosmos(c) && rest[1..] == [];
    assert Visits(p, [c], rest) == [Some(FromCosmos(c))];
  }
}
