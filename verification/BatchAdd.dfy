/** `TxPool.Add`: split a batch over the subpools and piece their errors back into batch order. */
module BatchAdd {
  import opened Common

  datatype Tx = Tx(id: nat, kind: nat)

  datatype AddError = Unsupported(kind: nat) | Rejected(code: nat)

  /** What `Add` uses of a subpool: a filter, and an answer to the one batch it is handed. */
  datatype SubPool = SubPool(filter: Tx -> bool, add: seq<Tx> -> seq<Option<AddError>>)

  /** The first subpool that accepts the transaction, or -1. */
  function FirstAccepting(pools: seq<SubPool>, tx: Tx): (j: int)
    ensures -1 <= j < |pools|
    ensures j >= 0 ==> pools[j].filter(tx)
    ensures forall k :: 0 <= k < (if j < 0 then |pools| else j) ==> !pools[k].filter(tx)
  {
    if pools == [] then -1
    else if pools[0].filter(tx) then 0
    else
      var j := FirstAccepting(pools[1..], tx);
      if j < 0 then -1 else j + 1
  }

  /** The transactions of the batch that subpool `j` handles, in batch order. */
  ghost function Share(pools: seq<SubPool>, txs: seq<Tx>, j: int): (r: seq<Tx>) {
    if txs == [] then []
    else
      var n := |txs| - 1;
      if FirstAccepting(pools, txs[n]) == j then Share(pools, txs[..n], j) + [txs[n]]
      else Share(pools, txs[..n], j)
  }

  ghost function Answers(pools: seq<SubPool>, txs: seq<Tx>, j: nat): (es: seq<Option<AddError>>)
    requires j < |pools|
  {
    pools[j].add(Share(pools, txs, j))
  }

  /** The place of transaction `i` among those its subpool handles. */
  ghost function Rank(pools: seq<SubPool>, txs: seq<Tx>, i: nat): (k: nat)
    requires i < |txs|
  {
    |Share(pools, txs[..i], FirstAccepting(pools, txs[i]))|
  }

  lemma {:induction false} ShareStep(pools: seq<SubPool>, txs: seq<Tx>, i: nat, j: int)
    requires i < |txs|
    ensures Share(pools, txs[..i + 1], j) ==
            if FirstAccepting(pools, txs[i]) == j then Share(pools, txs[..i], j) + [txs[i]]
            else Share(pools, txs[..i], j)
  {
    assert txs[..i + 1][..i] == txs[..i];
  }

  lemma {:induction false} ShareGrows(pools: seq<SubPool>, txs: seq<Tx>, i: nat, j: int)
    requires i <= |txs|
    ensures Share(pools, txs[..i], j) <= Share(pools, txs, j)
    decreases |txs| - i
  {
    if i == |txs| {
      assert txs[..i] == txs;
    } else {
      ShareGrows(pools, txs, i + 1, j);
      ShareStep(pools, txs, i, j);
    }
  }

  /** A transaction stands at its rank in the share of its subpool. */
  lemma {:induction false} RankIsItsPlace(pools: seq<SubPool>, txs: seq<Tx>, i: nat)
    requires i < |txs|
    ensures var share := Share(pools, txs, FirstAccepting(pools, txs[i]));
            Rank(pools, txs, i) < |share| && share[Rank(pools, txs, i)] == txs[i]
  {
    ShareStep(pools, txs, i, FirstAccepting(pools, txs[i]));
    ShareGrows(pools, txs, i + 1, FirstAccepting(pools, txs[i]));
  }

  /** Two transactions of one subpool never have the same rank: no error is handed out twice. */
  lemma {:induction false} RanksDiffer(pools: seq<SubPool>, txs: seq<Tx>, i: nat, i': nat)
    requires i < i' < |txs| && FirstAccepting(pools, txs[i]) == FirstAccepting(pools, txs[i'])
    ensures Rank(pools, txs, i) < Rank(pools, txs, i')
  {
    var j := FirstAccepting(pools, txs[i]);
    assert txs[..i'][..i + 1] == txs[..i + 1] && txs[..i'][..i] == txs[..i];
    ShareStep(pools, txs[..i'], i, j);
    ShareGrows(pools, txs[..i'], i + 1, j);
  }

  /** Every place of a share is the rank of some transaction: no error is dropped. */
  lemma {:induction false} EveryPlaceIsARank(pools: seq<SubPool>, txs: seq<Tx>, j: nat, k: nat)
    requires k < |Share(pools, txs, j)|
    ensures exists i :: 0 <= i < |txs| && FirstAccepting(pools, txs[i]) == j && Rank(pools, txs, i) == k
    decreases |txs|
  {
    var n := |txs| - 1;
    if k < |Share(pools, txs[..n], j)| {
      EveryPlaceIsARank(pools, txs[..n], j, k);
      var i :| 0 <= i < n && FirstAccepting(pools, txs[..n][i]) == j && Rank(pools, txs[..n], i) == k;
      assert txs[..n][..i] == txs[..i] && Rank(pools, txs, i) == k;
    } else {
      assert Rank(pools, txs, n) == k;
    }
  }

  /** What the caller is owed for transaction `i`. */
  ghost function Owed(pools: seq<SubPool>, txs: seq<Tx>, i: nat): (e: Option<AddError>)
    requires i < |txs|
    requires forall j :: 0 <= j < |pools| ==> |Answers(pools, txs, j)| >= |Share(pools, txs, j)|
  {
    var j := FirstAccepting(pools, txs[i]);
    if j < 0 then Some(Unsupported(txs[i].kind))
    else
      RankIsItsPlace(pools, txs, i);
      Answers(pools, txs, j)[Rank(pools, txs, i)]
  }

  lemma {:induction false} ShareOfNone(pools: seq<SubPool>, j: int)
    ensures Share(pools, [], j) == []
  {
  }

  /** The loop over the subpools: the first one whose filter accepts. */
  method FindPool(pools: seq<SubPool>, tx: Tx) returns (split: int)
    ensures split == FirstAccepting(pools, tx)
    ensures split == -1 || (0 <= split < |pools| && pools[split].filter(tx))
  {
    split := -1;
    for j := 0 to |pools|
      invariant split == -1 && forall k :: 0 <= k < j ==> !pools[k].filter(tx)
    {
      if pools[j].filter(tx) {
        split := j;
        break;
      }
    }
  }

  method SplitBatch(pools: seq<SubPool>, txs: seq<Tx>) returns (txsets: seq<seq<Tx>>, splits: seq<int>)
    ensures |txsets| == |pools| && forall j :: 0 <= j < |pools| ==> txsets[j] == Share(pools, txs, j)
    ensures |splits| == |txs| && forall i :: 0 <= i < |txs| ==> splits[i] == FirstAccepting(pools, txs[i])
  {
    hide FirstAccepting, Share;
    txsets := seq(|pools|, _ => []);
    splits := [];
    forall j | 0 <= j < |pools| ensures Share(pools, txs[..0], j) == [] { ShareOfNone(pools, j); }
    for i := 0 to |txs|
      invariant |txsets| == |pools| && forall j :: 0 <= j < |pools| ==> txsets[j] == Share(pools, txs[..i], j)
      invariant |splits| == i && forall k :: 0 <= k < i ==> splits[k] == FirstAccepting(pools, txs[k])
    {
      var split := FindPool(pools, txs[i]);
      forall k | 0 <= k < |pools| ensures Share(pools, txs[..i + 1], k) ==
          if split == k then txsets[k] + [txs[i]] else txsets[k]
      {
        ShareStep(pools, txs, i, k);
      }
      if split >= 0 {
        txsets := txsets[split := txsets[split] + [txs[i]]];
      }
      splits := splits + [split];
    }
    assert txs[..|txs|] == txs;
  }

  /** Each subpool gets its share of the batch. */
  method AddToPools(pools: seq<SubPool>, ghost txs: seq<Tx>, txsets: seq<seq<Tx>>) returns (errsets: seq<seq<Option<AddError>>>)
    requires |txsets| == |pools| && forall j :: 0 <= j < |pools| ==> txsets[j] == Share(pools, txs, j)
    ensures AllConsumed(pools, txs, 0, errsets)
  {
    errsets := [];
    for j := 0 to |pools|
      invariant |errsets| == j && forall k :: 0 <= k < j ==> errsets[k] == Answers(pools, txs, k)
    {
      errsets := errsets + [pools[j].add(txsets[j])];
    }
  }

  /**
   * None is Go's index-out-of-range panic: it happens exactly when some subpool returns fewer errors
   * than it was given transactions. Otherwise every transaction gets what its subpool said about it.
   */
  method Add(pools: seq<SubPool>, txs: seq<Tx>) returns (r: Option<seq<Option<AddError>>>)
    ensures r.Some? <==> forall j :: 0 <= j < |pools| ==> |Answers(pools, txs, j)| >= |Share(pools, txs, j)|
    ensures r.Some? ==> |r.value| == |txs| && forall i :: 0 <= i < |txs| ==> r.value[i] == Owed(pools, txs, i)
  {
    hide Share, FirstAccepting, Answers, Rank, Owed, Consumed, Settled;
    var txsets, splits := SplitBatch(pools, txs);
    var errsets := AddToPools(pools, txs, txsets);
    var errs := [];
    for i := 0 to |txs|
      invariant |errs| == i && AllConsumed(pools, txs, i, errsets)
      invariant forall k :: 0 <= k < i ==> Settled(pools, txs, k, errs[k])
    {
      var split := splits[i];
      ConsumeNext(pools, txs, i, errsets);
      if split == -1 {
        errs := errs + [Some(Unsupported(txs[i].kind))];
        continue;
      }
      if |errsets[split]| == 0 { return None; }
      errs := errs + [errsets[split][0]];
      errsets := errsets[split := errsets[split][1..]];
    }
    AllAnswered(pools, txs, errsets);
    forall k | 0 <= k < |txs| ensures errs[k] == Owed(pools, txs, k) {
      SettledIsOwed(pools, txs, k, errs[k]);
    }
    return Some(errs);
  }

  /** Of subpool `j`'s errors, those of the first `i` transactions are used up and `left` remains. */
  ghost predicate Consumed(pools: seq<SubPool>, txs: seq<Tx>, i: nat, j: nat, left: seq<Option<AddError>>)
    requires i <= |txs| && j < |pools|
  {
    |Share(pools, txs[..i], j)| <= |Answers(pools, txs, j)| && left == Answers(pools, txs, j)[|Share(pools, txs[..i], j)|..]
  }

  ghost predicate AllConsumed(pools: seq<SubPool>, txs: seq<Tx>, i: nat, errsets: seq<seq<Option<AddError>>>)
    requires i <= |txs|
  {
    |errsets| == |pools| && forall j :: 0 <= j < |pools| ==> Consumed(pools, txs, i, j, errsets[j])
  }

  ghost predicate Settled(pools: seq<SubPool>, txs: seq<Tx>, k: nat, e: Option<AddError>)
    requires k < |txs|
  {
    var j := FirstAccepting(pools, txs[k]);
    if j < 0 then e == Some(Unsupported(txs[k].kind))
    else Rank(pools, txs, k) < |Answers(pools, txs, j)| && e == Answers(pools, txs, j)[Rank(pools, txs, k)]
  }

  lemma {:induction false} ConsumeOne(pools: seq<SubPool>, txs: seq<Tx>, i: nat, j: nat, left: seq<Option<AddError>>)
    requires i < |txs| && j < |pools| && Consumed(pools, txs, i, j, left)
    ensures FirstAccepting(pools, txs[i]) != j ==> Consumed(pools, txs, i + 1, j, left)
    ensures FirstAccepting(pools, txs[i]) == j && left != [] ==>
            Consumed(pools, txs, i + 1, j, left[1..]) && Settled(pools, txs, i, left[0])
    ensures FirstAccepting(pools, txs[i]) == j && left == [] ==> |Answers(pools, txs, j)| < |Share(pools, txs, j)|
  {
    hide FirstAccepting;
    ShareStep(pools, txs, i, j);
    if FirstAccepting(pools, txs[i]) == j && left == [] { RankIsItsPlace(pools, txs, i); }
  }

  /** One turn of the loop: the first error left of the subpool that handled transaction `i`, if there is one. */
  lemma {:induction false} ConsumeNext(pools: seq<SubPool>, txs: seq<Tx>, i: nat, errsets: seq<seq<Option<AddError>>>)
    requires i < |txs| && AllConsumed(pools, txs, i, errsets)
    ensures var split := FirstAccepting(pools, txs[i]);
            if split < 0 then AllConsumed(pools, txs, i + 1, errsets) && Settled(pools, txs, i, Some(Unsupported(txs[i].kind)))
            else if errsets[split] == [] then |Answers(pools, txs, split)| < |Share(pools, txs, split)|
            else AllConsumed(pools, txs, i + 1, errsets[split := errsets[split][1..]])
                 && Settled(pools, txs, i, errsets[split][0])
  {
    hide Consumed, FirstAccepting;
    var split := FirstAccepting(pools, txs[i]);
    forall j | 0 <= j < |pools|
      ensures split != j ==> Consumed(pools, txs, i + 1, j, errsets[j])
      ensures split == j && errsets[j] != [] ==>
              Consumed(pools, txs, i + 1, j, errsets[j][1..]) && Settled(pools, txs, i, errsets[j][0])
      ensures split == j && errsets[j] == [] ==> |Answers(pools, txs, j)| < |Share(pools, txs, j)|
    {
      ConsumeOne(pools, txs, i, j, errsets[j]);
    }
  }

  lemma {:induction false} AllAnswered(pools: seq<SubPool>, txs: seq<Tx>, errsets: seq<seq<Option<AddError>>>)
    requires AllConsumed(pools, txs, |txs|, errsets)
    ensures forall j :: 0 <= j < |pools| ==> |Answers(pools, txs, j)| >= |Share(pools, txs, j)|
  {
    assert txs[..|txs|] == txs;
    forall j | 0 <= j < |pools| ensures |Answers(pools, txs, j)| >= |Share(pools, txs, j)| {
      assert Consumed(pools, txs, |txs|, j, errsets[j]);
    }
  }

  lemma {:induction false} SettledIsOwed(pools: seq<SubPool>, txs: seq<Tx>, k: nat, e: Option<AddError>)
    requires k < |txs| && Settled(pools, txs, k, e)
    requires forall j :: 0 <= j < |pools| ==> |Answers(pools, txs, j)| >= |Share(pools, txs, j)|
    ensures e == Owed(pools, txs, k)
  {
    hide Share, FirstAccepting;
  }
}
