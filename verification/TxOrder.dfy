/**
 * The reference order of block building: look at the first transaction of every account,
 * take one that no other account beats, and repeat. It mentions no heap.
 */
module TxOrder {
  import opened Common

  /** The part of `txpool.LazyTransaction` that ordering reads. */
  datatype LazyTx = LazyTx(hash: nat, gasFeeCap: U256, gasTipCap: U256, time: int)

  /** A transaction with its sender and the fee the miner collects (`txWithMinerFee`). */
  datatype Head = Head(tx: LazyTx, from: Address, fees: U256)

  type Queues = map<Address, seq<LazyTx>>

  predicate Eligible(tx: LazyTx, baseFee: Option<U256>) {
    baseFee.Some? ==> tx.gasFeeCap >= baseFee.value
  }

  /** What the miner collects, over the unbounded integers. */
  function EffectiveTip(tx: LazyTx, baseFee: Option<U256>): (tip: U256)
    requires Eligible(tx, baseFee)
  {
    if baseFee.None? || tx.gasTipCap <= tx.gasFeeCap - baseFee.value then tx.gasTipCap
    else tx.gasFeeCap - baseFee.value
  }

  /** Strictly better: higher fee, or the same fee and seen earlier. */
  predicate Beats(a: Head, b: Head) {
    a.fees > b.fees || (a.fees == b.fees && a.tx.time < b.tx.time)
  }

  /** The longest prefix of an account's list whose transactions all pay the base fee. */
  function EligiblePrefix(txs: seq<LazyTx>, baseFee: Option<U256>): (p: seq<LazyTx>)
    ensures p <= txs
    ensures forall t :: t in p ==> Eligible(t, baseFee)
    ensures |p| < |txs| ==> !Eligible(txs[|p|], baseFee)
  {
    if txs == [] || !Eligible(txs[0], baseFee) then [] else [txs[0]] + EligiblePrefix(txs[1..], baseFee)
  }

  /** The work a set of pending lists offers: every account's eligible prefix, if it has one. */
  ghost function EligibleQueues(txs: map<Address, seq<LazyTx>>, baseFee: Option<U256>): (q: Queues)
    ensures Offers(q, baseFee)
  {
    map a | a in txs && EligiblePrefix(txs[a], baseFee) != [] :: EligiblePrefix(txs[a], baseFee)
  }

  /** Every account that is listed offers something, and everything offered pays the base fee. */
  ghost predicate Offers(q: Queues, baseFee: Option<U256>) {
    forall a :: a in q ==> q[a] != [] && forall t :: t in q[a] ==> Eligible(t, baseFee)
  }

  ghost function QueueOf(q: Queues, a: Address): (r: seq<LazyTx>) {
    if a in q then q[a] else []
  }

  ghost function Front(q: Queues, a: Address, baseFee: Option<U256>): (h: Head)
    requires Offers(q, baseFee) && a in q
  {
    Head(q[a][0], a, EffectiveTip(q[a][0], baseFee))
  }

  /** `h` is the first transaction of its account, and no account's first transaction beats it. */
  ghost predicate ScanPicks(q: Queues, baseFee: Option<U256>, h: Head)
    requires Offers(q, baseFee)
  {
    h.from in q && h == Front(q, h.from, baseFee)
    && forall b :: b in q ==> !Beats(Front(q, b, baseFee), h)
  }

  /** Drop an account's first transaction. */
  ghost function Advance(q: Queues, a: Address): (r: Queues)
    requires a in q && q[a] != []
    ensures forall baseFee :: Offers(q, baseFee) ==> Offers(r, baseFee)
    ensures QueueOf(r, a) == q[a][1..]
    ensures forall b :: b != a ==> QueueOf(r, b) == QueueOf(q, b)
  {
    if |q[a]| == 1 then q - {a} else q[a := q[a][1..]]
  }

  /** `out` is a run of the reference order from `q` to `q'`. */
  ghost predicate ScanRun(q: Queues, baseFee: Option<U256>, out: seq<Head>, q': Queues)
    requires Offers(q, baseFee)
    decreases |out|
  {
    if out == [] then q' == q
    else ScanPicks(q, baseFee, out[0]) && ScanRun(Advance(q, out[0].from), baseFee, out[1..], q')
  }

  lemma {:induction false} ScanRunAppend(q: Queues, baseFee: Option<U256>, out: seq<Head>, q': Queues, h: Head)
    requires Offers(q, baseFee) && ScanRun(q, baseFee, out, q')
    requires Offers(q', baseFee) && ScanPicks(q', baseFee, h)
    ensures ScanRun(q, baseFee, out + [h], Advance(q', h.from))
    decreases |out|
  {
    if out == [] {
      assert (out + [h])[1..] == [];
    } else {
      ScanRunAppend(Advance(q, out[0].from), baseFee, out[1..], q', h);
      assert (out + [h])[1..] == out[1..] + [h];
    }
  }

  // ---------------------------------------------------------------- what a run emits

  /** The transactions of one account, in the order a run emitted them. */
  ghost function TxsOf(out: seq<Head>, a: Address): (r: seq<LazyTx>) {
    if out == [] then []
    else (if out[0].from == a then [out[0].tx] else []) + TxsOf(out[1..], a)
  }

  /** A run takes each account's transactions from the front, in nonce order, once each. */
  lemma {:induction false} RunTakesPrefixes(q: Queues, baseFee: Option<U256>, out: seq<Head>, q': Queues, a: Address)
    requires Offers(q, baseFee) && ScanRun(q, baseFee, out, q')
    ensures QueueOf(q, a) == TxsOf(out, a) + QueueOf(q', a)
    decreases |out|
  {
    if out != [] {
      RunTakesPrefixes(Advance(q, out[0].from), baseFee, out[1..], q', a);
    }
  }

  /** Every fee a run reports is the exact effective tip. */
  lemma {:induction false} RunFees(q: Queues, baseFee: Option<U256>, out: seq<Head>, q': Queues, i: nat)
    requires Offers(q, baseFee) && ScanRun(q, baseFee, out, q')
    requires i < |out|
    ensures Eligible(out[i].tx, baseFee) && out[i].fees == EffectiveTip(out[i].tx, baseFee)
    ensures var tx, fees := out[i].tx, out[i].fees;
            if baseFee.None? then fees == tx.gasTipCap
            else fees <= tx.gasTipCap && baseFee.value + fees <= tx.gasFeeCap
                 && (fees == tx.gasTipCap || baseFee.value + fees == tx.gasFeeCap)
    ensures out[i].from in q && out[i].tx in q[out[i].from]
    decreases |out|
  {
    if i > 0 {
      RunFees(Advance(q, out[0].from), baseFee, out[1..], q', i - 1);
    }
  }

  ghost function Work(q: Queues): (n: nat) {
    if q == map[] then 0 else var a :| a in q; |q[a]| + Work(q - {a})
  }

  lemma {:induction false} WorkSplit(q: Queues, a: Address)
    requires a in q
    ensures Work(q) == |q[a]| + Work(q - {a})
    decreases |q|
  {
    var b :| b in q && Work(q) == |q[b]| + Work(q - {b});
    if b != a {
      WorkSplit(q - {b}, a);
      WorkSplit(q - {a}, b);
      assert q - {b} - {a} == q - {a} - {b};
    }
  }

  lemma {:induction false} WorkDecreases(q: Queues, a: Address)
    requires a in q && q[a] != []
    ensures Work(Advance(q, a)) == Work(q) - 1
  {
    WorkSplit(q, a);
    var r := Advance(q, a);
    if a in r {
      WorkSplit(r, a);
      assert r - {a} == q - {a};
    }
  }

  lemma {:induction false} RunLength(q: Queues, baseFee: Option<U256>, out: seq<Head>, q': Queues)
    requires Offers(q, baseFee) && ScanRun(q, baseFee, out, q')
    ensures |out| + Work(q') == Work(q)
    decreases |out|
  {
    if out != [] {
      WorkDecreases(q, out[0].from);
      RunLength(Advance(q, out[0].from), baseFee, out[1..], q');
    }
  }

  /** A complete run emits, for every account, exactly its queue: nothing lost, repeated or reordered. */
  lemma {:induction false} DrainEmitsEveryQueue(q: Queues, baseFee: Option<U256>, out: seq<Head>, a: Address)
    requires Offers(q, baseFee) && ScanRun(q, baseFee, out, map[])
    ensures TxsOf(out, a) == QueueOf(q, a)
    ensures |out| == Work(q)
  {
    RunTakesPrefixes(q, baseFee, out, map[], a);
    RunLength(q, baseFee, out, map[]);
  }

  lemma {:induction false} TxsOfCameFromRun(out: seq<Head>, a: Address, t: LazyTx)
    requires t in TxsOf(out, a)
    ensures exists h :: h in out && h.from == a && h.tx == t
  {
    if out[0].from == a && out[0].tx == t {
      assert out[0] in out;
    } else {
      TxsOfCameFromRun(out[1..], a, t);
    }
  }

  // ---------------------------------------------------------------- determinism

  ghost predicate SameKey(s: LazyTx, t: LazyTx, baseFee: Option<U256>)
    requires Eligible(s, baseFee) && Eligible(t, baseFee)
  {
    EffectiveTip(s, baseFee) == EffectiveTip(t, baseFee) && s.time == t.time
  }

  ghost predicate NoTies(q: Queues, baseFee: Option<U256>)
    requires Offers(q, baseFee)
  {
    forall a, b, s, t :: a in q && b in q && a != b && s in q[a] && t in q[b] ==> !SameKey(s, t, baseFee)
  }

  /** Without full ties between accounts the order is fixed, whatever the map iteration order was. */
  lemma {:induction false} DrainIsUnique(q: Queues, baseFee: Option<U256>, out: seq<Head>, out': seq<Head>)
    requires Offers(q, baseFee) && NoTies(q, baseFee)
    requires ScanRun(q, baseFee, out, map[]) && ScanRun(q, baseFee, out', map[])
    ensures out == out'
    decreases |out|
  {
    RunLength(q, baseFee, out, map[]);
    RunLength(q, baseFee, out', map[]);
    if out != [] {
      var a, a' := out[0].from, out'[0].from;
      assert q[a][0] in q[a] && q[a'][0] in q[a'];
      assert !Beats(Front(q, a, baseFee), out'[0]) && !Beats(Front(q, a', baseFee), out[0]);
      assert a != a' ==> !SameKey(q[a][0], q[a'][0], baseFee);
      DrainIsUnique(Advance(q, a), baseFee, out[1..], out'[1..]);
    }
  }

  // ---------------------------------------------------------------- price order

  /** A higher fee, or the same fee and seen no later. */
  ghost predicate MayPrecede(a: Head, b: Head) {
    a.fees > b.fees || (a.fees == b.fees && a.tx.time <= b.tx.time)
  }

  ghost predicate PriceSorted(hs: seq<Head>) {
    forall i, j :: 0 <= i < j < |hs| ==> MayPrecede(hs[i], hs[j])
  }

  ghost function Priced(txs: seq<LazyTx>, a: Address, baseFee: Option<U256>): (r: seq<Head>)
    requires forall t :: t in txs ==> Eligible(t, baseFee)
  {
    seq(|txs|, i requires 0 <= i < |txs| => assert txs[i] in txs; Head(txs[i], a, EffectiveTip(txs[i], baseFee)))
  }

  ghost predicate AccountsSorted(q: Queues, baseFee: Option<U256>)
    requires Offers(q, baseFee)
  {
    forall a :: a in q ==> PriceSorted(Priced(q[a], a, baseFee))
  }

  /** Nonces decide: the block is sorted by price if and only if every account's own queue already is. */
  lemma {:induction false} DrainSortedIff(q: Queues, baseFee: Option<U256>, out: seq<Head>)
    requires Offers(q, baseFee) && ScanRun(q, baseFee, out, map[])
    ensures PriceSorted(out) <==> AccountsSorted(q, baseFee)
  {
    if AccountsSorted(q, baseFee) {
      SortedAccountsSortTheRun(q, baseFee, out, map[]);
    }
    if PriceSorted(out) {
      forall a | a in q ensures PriceSorted(Priced(q[a], a, baseFee)) {
        SortedRunSortsTheAccount(q, baseFee, out, a);
      }
    }
  }

  lemma {:induction false} SortedAccountsSortTheRun(q: Queues, baseFee: Option<U256>, out: seq<Head>, q': Queues)
    requires Offers(q, baseFee) && ScanRun(q, baseFee, out, q')
    requires AccountsSorted(q, baseFee)
    ensures PriceSorted(out)
    decreases |out|
  {
    if out != [] {
      var a := out[0].from;
      var r := Advance(q, a);
      forall b | b in r ensures PriceSorted(Priced(r[b], b, baseFee)) {
        var p, p' := Priced(q[b], b, baseFee), Priced(r[b], b, baseFee);
        assert p' == p || p' == p[1..];
      }
      SortedAccountsSortTheRun(r, baseFee, out[1..], q');
      forall j | 0 < j < |out| ensures MayPrecede(out[0], out[j]) {
        RunFees(q, baseFee, out, q', j);
        var b := out[j].from;
        var k :| 0 <= k < |q[b]| && q[b][k] == out[j].tx;
        var p := Priced(q[b], b, baseFee);
        assert p[k] == out[j] && p[0] == Front(q, b, baseFee);
        assert k > 0 ==> MayPrecede(p[0], p[k]);
        assert !Beats(p[0], out[0]);
      }
    }
  }

  lemma FirstOfRunIsFirst(out: seq<Head>, rest: seq<Head>)
    requires out != [] && PriceSorted(out) && PriceSorted(rest)
    requires forall h :: h in rest ==> h in out[1..]
    ensures PriceSorted([out[0]] + rest)
  {
    hide MayPrecede;
    var p := [out[0]] + rest;
    forall i, j | 0 <= i < j < |p| ensures MayPrecede(p[i], p[j]) {
      if i == 0 {
        assert p[j] in out[1..];
        var k :| 0 <= k < |out| - 1 && out[1..][k] == p[j];
        assert out[k + 1] == p[j];
      }
    }
  }

  lemma {:induction false} SortedRunSortsTheAccount(q: Queues, baseFee: Option<U256>, out: seq<Head>, a: Address)
    requires Offers(q, baseFee) && ScanRun(q, baseFee, out, map[])
    requires PriceSorted(out) && a in q
    ensures PriceSorted(Priced(q[a], a, baseFee))
    ensures forall h :: h in Priced(q[a], a, baseFee) ==> h in out
    decreases |out|
  {
    if out != [] {
      var r := Advance(q, out[0].from);
      if a in r {
        SortedRunSortsTheAccount(r, baseFee, out[1..], a);
        var p, p' := Priced(q[a], a, baseFee), Priced(r[a], a, baseFee);
        if out[0].from == a {
          assert p == [out[0]] + p';
          FirstOfRunIsFirst(out, p');
        } else {
          assert p == p';
        }
      } else {
        assert Priced(q[a], a, baseFee) == [out[0]];
      }
    }
  }
}
