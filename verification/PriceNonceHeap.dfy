/**
 * `TransactionsByPriceAndNonce`: a price heap holding one head per account, over per-account
 * nonce-sorted lists. The heap algorithms are those of Go's `container/heap`.
 */
module PriceNonceHeap {
  import opened Common
  import opened TxOrder

  /** `uint256` subtraction, which wraps. */
  function Sub256(a: U256, b: U256): (r: U256) {
    if a >= b then a - b else a - b + TWO_256
  }

  /** None when the fee cap does not reach the base fee; otherwise the head carries the exact tip. */
  function NewTxWithMinerFee(tx: LazyTx, from: Address, baseFee: Option<U256>): (r: Option<Head>)
    ensures r.Some? <==> Eligible(tx, baseFee)
    ensures r.Some? ==> r.value == Head(tx, from, EffectiveTip(tx, baseFee))
  {
    if baseFee.Some? && tx.gasFeeCap < baseFee.value then None
    else
      var tip := if baseFee.None? then tx.gasTipCap else
        var room := Sub256(tx.gasFeeCap, baseFee.value);
        if room > tx.gasTipCap then tx.gasTipCap else room;
      Some(Head(tx, from, tip))
  }

  // Element i of a heap has the children 2i + 1 and 2i + 2.

  ghost predicate IsChild(c: int, p: int) {
    c == 2 * p + 1 || c == 2 * p + 2
  }

  /** Among the first `n`, no child of `i` beats `top`. */
  ghost predicate ChildrenLose(h: seq<Head>, n: nat, i: nat, top: Head)
    requires n <= |h|
  {
    && (2 * i + 1 < n ==> !Beats(h[2 * i + 1], top))
    && (2 * i + 2 < n ==> !Beats(h[2 * i + 2], top))
  }

  /** No child beats its parent, for parents from `lo` on. */
  ghost predicate HeapFrom(h: seq<Head>, lo: nat, n: nat)
    requires n <= |h|
  {
    forall i :: lo <= i < n ==> ChildrenLose(h, n, i, h[i])
  }

  ghost predicate IsHeap(h: seq<Head>) {
    HeapFrom(h, 0, |h|)
  }

  ghost predicate ChildrenOtherThanLose(h: seq<Head>, n: nat, k: nat, c: nat)
    requires k < n <= |h|
  {
    && (2 * k + 1 < n && 2 * k + 1 != c ==> !Beats(h[2 * k + 1], h[k]))
    && (2 * k + 2 < n && 2 * k + 2 != c ==> !Beats(h[2 * k + 2], h[k]))
  }

  /** As `HeapFrom`, except possibly between `i` and its parent and between `i` and its children. */
  ghost predicate HeapAround(h: seq<Head>, lo: nat, n: nat, i: nat)
    requires n <= |h|
  {
    && (forall k :: lo <= k < n && k != i ==> ChildrenOtherThanLose(h, n, k, i))
    && (forall p :: lo <= p < n && IsChild(i, p) ==> ChildrenLose(h, n, i, h[p]))
  }

  lemma Settled(h: seq<Head>, lo: nat, n: nat, i: nat)
    requires n <= |h| && HeapAround(h, lo, n, i)
    requires i < n ==> ChildrenLose(h, n, i, h[i])
    requires forall p :: lo <= p < n && IsChild(i, p) && i < n ==> !Beats(h[i], h[p])
    ensures HeapFrom(h, lo, n)
  {
    forall k | lo <= k < n ensures ChildrenLose(h, n, k, h[k]) {
      if k != i {
        assert ChildrenOtherThanLose(h, n, k, i);
        assert IsChild(i, k) && i < n ==> !Beats(h[i], h[k]);
      }
    }
  }

  /** The root of a heap is beaten by nothing. */
  lemma {:induction false} RootIsBest(h: seq<Head>, j: nat)
    requires IsHeap(h) && j < |h|
    ensures !Beats(h[j], h[0])
    decreases j
  {
    if j > 0 {
      var p := (j - 1) / 2;
      assert IsChild(j, p) && ChildrenLose(h, |h|, p, h[p]);
      RootIsBest(h, p);
    }
  }

  ghost predicate Swapped(h: seq<Head>, h': seq<Head>, i: nat, j: nat) {
    && i < |h| == |h'| && j < |h|
    && h'[i] == h[j] && h'[j] == h[i]
    && (forall k :: 0 <= k < |h| && k != i && k != j ==> h'[k] == h[k])
  }

  /** Swapping an element with its best child moves the only possible disorder down to that child. */
  lemma SiftStep(h: seq<Head>, h': seq<Head>, lo: nat, n: nat, i: nat, j: nat)
    requires n <= |h| && lo <= i < j < n && IsChild(j, i) && Swapped(h, h', i, j)
    requires HeapAround(h, lo, n, i)
    requires ChildrenLose(h, n, i, h[j]) && Beats(h[j], h[i])
    ensures HeapAround(h', lo, n, j)
  {
    assert ChildrenOtherThanLose(h, n, j, i);
    assert ChildrenLose(h', n, j, h'[i]);
    forall k | lo <= k < n && k != j ensures ChildrenOtherThanLose(h', n, k, j) {
      if k != i {
        assert ChildrenOtherThanLose(h, n, k, i);
        assert IsChild(i, k) ==> ChildrenLose(h, n, i, h[k]);
      }
    }
  }

  /** Swapping an element with the parent it beats moves the disorder up to that parent. */
  lemma {:induction false} RiseStep(h: seq<Head>, h': seq<Head>, i: nat, j: nat)
    requires j < |h| && IsChild(j, i) && Swapped(h, h', i, j)
    requires HeapAround(h, 0, |h|, j)
    requires ChildrenLose(h, |h|, j, h[j]) && Beats(h[j], h[i])
    ensures HeapAround(h', 0, |h|, i) && ChildrenLose(h', |h|, i, h'[i])
  {
    assert ChildrenOtherThanLose(h, |h|, i, j) && ChildrenLose(h, |h|, j, h[i]);
    forall k | 0 <= k < |h| && k != i ensures ChildrenOtherThanLose(h', |h|, k, i) {
      if k != j {
        assert ChildrenOtherThanLose(h, |h|, k, j);
      }
    }
    forall p | 0 <= p < |h| && IsChild(i, p) ensures ChildrenLose(h', |h|, i, h'[p]) {
      assert ChildrenOtherThanLose(h, |h|, p, j);
    }
  }

  predicate Less(h: seq<Head>, i: nat, j: nat)
    requires i < |h| && j < |h|
    ensures Less(h, i, j) <==> Beats(h[i], h[j])
  {
    if h[i].fees == h[j].fees then h[i].tx.time < h[j].tx.time else h[i].fees > h[j].fees
  }

  method Swap(h: seq<Head>, i: nat, j: nat) returns (h': seq<Head>)
    requires i < |h| && j < |h|
    ensures Swapped(h, h', i, j) && multiset(h') == multiset(h)
  {
    h' := h[i := h[j]][j := h[i]];
  }

  /** `heap.down` over the first `n` elements. */
  method Down(h0: seq<Head>, i0: nat, n: nat, ghost lo: nat) returns (h: seq<Head>, moved: bool)
    requires lo <= i0 && n <= |h0| && HeapAround(h0, lo, n, i0)
    ensures |h| == |h0| && multiset(h) == multiset(h0) && (n < |h| ==> h[n] == h0[n])
    ensures moved ==> HeapFrom(h, lo, n)
    ensures !moved ==> h == h0 && (i0 < n ==> ChildrenLose(h, n, i0, h[i0]))
  {
    h := h0;
    var i := i0;
    ghost var p := i0;
    while true
      invariant i0 <= i && |h| == |h0| && multiset(h) == multiset(h0) && (n < |h| ==> h[n] == h0[n])
      invariant HeapAround(h, lo, n, i)
      invariant if i == i0 then h == h0 else p < i < n && IsChild(i, p) && !Beats(h[i], h[p])
      decreases n - i
    {
      var j1 := 2 * i + 1;
      if j1 >= n { break; }
      var j := j1;
      var j2 := j1 + 1;
      if j2 < n && Less(h, j2, j1) { j := j2; }
      if !Less(h, j, i) { break; }
      ghost var before := h;
      h := Swap(h, i, j);
      SiftStep(before, h, lo, n, i, j);
      i, p := j, i;
    }
    moved := i > i0;
    if moved { Settled(h, lo, n, i); }
  }

  /** `heap.up`. */
  method Up(h0: seq<Head>, j0: nat) returns (h: seq<Head>)
    requires j0 < |h0| && HeapAround(h0, 0, |h0|, j0) && ChildrenLose(h0, |h0|, j0, h0[j0])
    ensures IsHeap(h) && multiset(h) == multiset(h0)
  {
    h := h0;
    var j := j0;
    while true
      invariant 0 <= j < |h| == |h0| && multiset(h) == multiset(h0)
      invariant HeapAround(h, 0, |h|, j) && ChildrenLose(h, |h|, j, h[j])
      decreases j
    {
      var i := if j == 0 then 0 else (j - 1) / 2;   // Go's (j - 1) / 2 truncates toward zero
      if i == j || !Less(h, j, i) {
        Settled(h, 0, |h|, j);
        break;
      }
      ghost var before := h;
      h := Swap(h, i, j);
      RiseStep(before, h, i, j);
      j := i;
    }
  }

  /** `heap.Init`. */
  method InitHeap(h0: seq<Head>) returns (h: seq<Head>)
    ensures IsHeap(h) && multiset(h) == multiset(h0)
  {
    h := h0;
    var n := |h|;
    var i := n / 2 - 1;
    while i >= 0
      invariant -1 <= i && 2 * i < n && |h| == n && multiset(h) == multiset(h0)
      invariant HeapFrom(h, i + 1, n)
    {
      var moved;
      h, moved := Down(h, i, n, i);
      if !moved { Settled(h, i, n, i); }
      i := i - 1;
    }
  }

  /** `heap.Fix`. */
  method FixHeap(h0: seq<Head>, i: nat) returns (h: seq<Head>)
    requires i < |h0| && HeapAround(h0, 0, |h0|, i)
    ensures IsHeap(h) && multiset(h) == multiset(h0)
  {
    var moved;
    h, moved := Down(h0, i, |h0|, 0);
    if !moved { h := Up(h, i); }
  }

  /** `heap.Pop`: swap the root to the end, sift down in front of it, cut it off. */
  method PopHeap(h0: seq<Head>) returns (h: seq<Head>, x: Head)
    requires h0 != [] && IsHeap(h0)
    ensures IsHeap(h) && x == h0[0] && multiset(h) == multiset(h0) - multiset{x}
  {
    var n := |h0| - 1;
    h := Swap(h0, 0, n);
    var moved;
    h, moved := Down(h, 0, n, 0);
    if !moved { Settled(h, 0, n, 0); }
    assert h[n] == h0[0];
    x := h[n];
    CutLast(h, n);
    h := h[..n];
  }

  ghost predicate IsFront(q: Queues, baseFee: Option<U256>, h: Head)
    requires Offers(q, baseFee)
  {
    h.from in q && h == Front(q, h.from, baseFee)
  }

  /** The heads are exactly the first transactions of `q`, once each; the lists hold what follows. */
  ghost predicate HeadsOffer(hs: multiset<Head>, txs: map<Address, seq<LazyTx>>, baseFee: Option<U256>, q: Queues) {
    && Offers(q, baseFee)
    && (forall a :: a in q ==> q[a][1..] == EligiblePrefix(QueueOf(txs, a), baseFee))
    && HeadsAreFronts(hs, baseFee, q)
  }

  ghost predicate HeadsAreFronts(hs: multiset<Head>, baseFee: Option<U256>, q: Queues)
    requires Offers(q, baseFee)
  {
    forall h :: hs[h] == if IsFront(q, baseFee, h) then 1 else 0
  }

  lemma OneHeadPerAccount(hs: seq<Head>, txs: map<Address, seq<LazyTx>>, baseFee: Option<U256>, q: Queues, i: nat, j: nat)
    requires HeadsOffer(multiset(hs), txs, baseFee, q)
    requires i < j < |hs|
    ensures hs[i].from != hs[j].from
  {
    assert hs == hs[..j] + hs[j..];
    assert hs[i] in hs[..j] && hs[j] in hs[j..];
    assert multiset(hs)[hs[i]] == multiset(hs[..j])[hs[i]] + multiset(hs[j..])[hs[i]];
    assert hs[i] in multiset(hs) && hs[j] in multiset(hs);
  }

  /** The constructor's loop: one head per account whose first transaction pays the base fee. */
  method CollectHeads(pending: map<Address, seq<LazyTx>>, fee: Option<U256>)
    returns (txs: map<Address, seq<LazyTx>>, heads: seq<Head>)
    requires forall a :: a in pending ==> pending[a] != []
    ensures HeadsOffer(multiset(heads), txs, fee, EligibleQueues(pending, fee))
  {
    txs, heads := pending, [];
    var todo := pending.Keys;
    assert EligibleQueues(pending - todo, fee) == map[];
    while todo != {}
      invariant todo <= pending.Keys
      invariant forall a :: a in todo ==> a in txs && txs[a] == pending[a]
      invariant HeadsOffer(multiset(heads), txs, fee, EligibleQueues(pending - todo, fee))
      decreases todo
    {
      var from :| from in todo;
      ghost var q := EligibleQueues(pending - todo, fee);
      OneMoreAccount(pending, fee, todo, from);
      var accTxs := txs[from];
      todo := todo - {from};
      var wrapped := NewTxWithMinerFee(accTxs[0], from, fee);
      if wrapped.None? {
        txs := txs - {from};
      } else {
        AddHead(multiset(heads), txs, fee, q, wrapped.value, accTxs[1..]);
        heads := heads + [wrapped.value];
        txs := txs[from := accTxs[1..]];
      }
    }
    assert pending - todo == pending;
  }

  class TransactionsByPriceAndNonce {
    var txs: map<Address, seq<LazyTx>>
    var heads: seq<Head>
    const baseFee: Option<U256>
    /** What is left to emit, per account; the first of each list is the account's head. */
    ghost var remaining: Queues

    ghost predicate Valid()
      reads this
    {
      IsHeap(heads) && HeadsOffer(multiset(heads), txs, baseFee, remaining)
    }

    constructor (pending: map<Address, seq<LazyTx>>, fee: Option<U256>)
      requires forall a :: a in pending ==> pending[a] != []
      ensures Valid() && baseFee == fee
      ensures remaining == EligibleQueues(pending, fee)
    {
      baseFee := fee;
      var rest, hs := CollectHeads(pending, fee);
      hs := InitHeap(hs);
      txs, heads, remaining := rest, hs, EligibleQueues(pending, fee);
    }

    predicate Empty()
      reads this
      ensures Valid() ==> (Empty() <==> remaining == map[])
    {
      EmptyIffNothingOffered(heads, txs, baseFee, remaining);
      heads == []
    }

    /** The best head: a choice the reference scan of every account could make. */
    function Peek(): (r: Option<Head>)
      reads this
      requires Valid()
      ensures r.None? <==> remaining == map[]
      ensures r.Some? ==> ScanPicks(remaining, baseFee, r.value)
    {
      EmptyIffNothingOffered(heads, txs, baseFee, remaining);
      if heads == [] then None
      else
        HeadIsScanned(heads, txs, baseFee, remaining);
        Some(heads[0])
    }

    /** Replace the best head by the next transaction of its account, if that one pays the base fee. */
    method Shift()
      requires Valid() && heads != []
      modifies this
      ensures Valid()
      ensures ScanPicks(old(remaining), baseFee, old(heads)[0])
      ensures remaining == Advance(old(remaining), old(heads)[0].from)
    {
      HeadIsScanned(heads, txs, baseFee, remaining);
      var acc := heads[0].from;
      if acc in txs && |txs[acc]| > 0 {
        var wrapped := NewTxWithMinerFee(txs[acc][0], acc, baseFee);
        if wrapped.Some? {
          NewRoot(heads, wrapped.value);
          ReplaceHead(multiset(heads), txs, baseFee, remaining, heads[0], wrapped.value);
          var hs := FixHeap(heads[0 := wrapped.value], 0);
          heads, txs, remaining := hs, txs[acc := txs[acc][1..]], Advance(remaining, acc);
          return;
        }
      }
      LastOfAccount(heads, txs, baseFee, remaining);
      var hs, popped := PopHeap(heads);
      heads, remaining := hs, Advance(remaining, acc);
    }

    /** Discard the best head's whole account. */
    method Pop()
      requires Valid() && heads != []
      modifies this
      ensures Valid()
      ensures remaining == old(remaining) - {old(heads)[0].from}
    {
      DropHead(multiset(heads), txs, baseFee, remaining, heads[0]);
      var hs, popped := PopHeap(heads);
      heads, remaining := hs, remaining - {popped.from};
    }

    method Clear()
      modifies this
      ensures Valid() && remaining == map[]
    {
      heads, txs, remaining := [], map[], map[];
    }
  }

  lemma EmptyIffNothingOffered(hs: seq<Head>, txs: map<Address, seq<LazyTx>>, baseFee: Option<U256>, q: Queues)
    ensures HeadsOffer(multiset(hs), txs, baseFee, q) ==> (hs == [] <==> q == map[])
  {
    if HeadsOffer(multiset(hs), txs, baseFee, q) {
      if hs != [] {
        assert hs[0] in multiset(hs);
      }
      forall a | a in q ensures hs != [] {
        assert multiset(hs)[Front(q, a, baseFee)] == 1;
      }
    }
  }

  lemma HeadIsScanned(hs: seq<Head>, txs: map<Address, seq<LazyTx>>, baseFee: Option<U256>, q: Queues)
    requires hs != [] && IsHeap(hs) && HeadsOffer(multiset(hs), txs, baseFee, q)
    ensures ScanPicks(q, baseFee, hs[0])
  {
    assert hs[0] in multiset(hs);
    forall b | b in q ensures !Beats(Front(q, b, baseFee), hs[0]) {
      assert Front(q, b, baseFee) in multiset(hs);
      var j :| 0 <= j < |hs| && hs[j] == Front(q, b, baseFee);
      RootIsBest(hs, j);
    }
  }

  lemma DropHead(hs: multiset<Head>, txs: map<Address, seq<LazyTx>>, baseFee: Option<U256>, q: Queues, h: Head)
    requires h in hs && HeadsOffer(hs, txs, baseFee, q)
    ensures HeadsOffer(hs - multiset{h}, txs, baseFee, q - {h.from})
  {
  }

  lemma {:induction false} AddHead(hs: multiset<Head>, txs: map<Address, seq<LazyTx>>, baseFee: Option<U256>, q: Queues,
                h: Head, rest: seq<LazyTx>)
    requires HeadsOffer(hs, txs, baseFee, q) && h.from !in q
    requires Eligible(h.tx, baseFee) && h.fees == EffectiveTip(h.tx, baseFee)
    ensures HeadsOffer(hs + multiset{h}, txs[h.from := rest], baseFee,
                       q[h.from := [h.tx] + EligiblePrefix(rest, baseFee)])
  {
    var p := EligiblePrefix(rest, baseFee);
    AddFront(hs, baseFee, q, h, p);
    assert ([h.tx] + p)[1..] == p;
  }

  lemma AddFront(hs: multiset<Head>, baseFee: Option<U256>, q: Queues, h: Head, p: seq<LazyTx>)
    requires Offers(q, baseFee) && HeadsAreFronts(hs, baseFee, q) && h.from !in q
    requires Eligible(h.tx, baseFee) && h.fees == EffectiveTip(h.tx, baseFee)
    requires forall t :: t in p ==> Eligible(t, baseFee)
    ensures Offers(q[h.from := [h.tx] + p], baseFee)
    ensures HeadsAreFronts(hs + multiset{h}, baseFee, q[h.from := [h.tx] + p])
  {
  }

  /** The account's next transaction takes the place of its head. */
  lemma ReplaceHead(hs: multiset<Head>, txs: map<Address, seq<LazyTx>>, baseFee: Option<U256>, q: Queues,
                    h: Head, next: Head)
    requires h in hs && HeadsOffer(hs, txs, baseFee, q)
    requires next.from == h.from && next.from in txs && txs[next.from] != [] && txs[next.from][0] == next.tx
    requires Eligible(next.tx, baseFee) && next.fees == EffectiveTip(next.tx, baseFee)
    ensures next.from in q && q[next.from] != []
    ensures HeadsOffer(hs - multiset{h} + multiset{next}, txs[next.from := txs[next.from][1..]], baseFee,
                       Advance(q, next.from))
  {
    var a := next.from;
    assert q[a][1..] == [next.tx] + EligiblePrefix(txs[a][1..], baseFee);
    AdvanceReplaces(q, a);
    DropHead(hs, txs, baseFee, q, h);
    AddHead(hs - multiset{h}, txs, baseFee, q - {a}, next, txs[a][1..]);
  }

  lemma NewRoot(hs: seq<Head>, next: Head)
    requires hs != [] && IsHeap(hs)
    ensures HeapAround(hs[0 := next], 0, |hs|, 0)
    ensures hs[0] in multiset(hs)
    ensures multiset(hs[0 := next]) == multiset(hs) - multiset{hs[0]} + multiset{next}
  {
    var hs' := hs[0 := next];
    forall k | 0 <= k < |hs| && k != 0 ensures ChildrenOtherThanLose(hs', |hs|, k, 0) {
      assert ChildrenLose(hs, |hs|, k, hs[k]);
    }
  }

  lemma AdvanceReplaces(q: Queues, a: Address)
    requires a in q && |q[a]| > 1
    ensures Advance(q, a) == (q - {a})[a := q[a][1..]]
  {
  }

  /** The account has no further transaction that pays the base fee. */
  lemma {:induction false} LastOfAccount(hs: seq<Head>, txs: map<Address, seq<LazyTx>>, baseFee: Option<U256>, q: Queues)
    requires hs != [] && HeadsOffer(multiset(hs), txs, baseFee, q)
    requires EligiblePrefix(QueueOf(txs, hs[0].from), baseFee) == []
    ensures hs[0].from in q && q[hs[0].from] != []
    ensures HeadsOffer(multiset(hs) - multiset{hs[0]}, txs, baseFee, Advance(q, hs[0].from))
  {
    assert hs[0] in multiset(hs);
    DropHead(multiset(hs), txs, baseFee, q, hs[0]);
    assert |q[hs[0].from][1..]| == 0;
  }

  lemma {:induction false} OneMoreAccount(pending: map<Address, seq<LazyTx>>, baseFee: Option<U256>, todo: set<Address>, a: Address)
    requires a in todo && todo <= pending.Keys
    ensures a !in EligibleQueues(pending - todo, baseFee)
    ensures EligibleQueues(pending - (todo - {a}), baseFee) ==
            var q, p := EligibleQueues(pending - todo, baseFee), EligiblePrefix(pending[a], baseFee);
            if p == [] then q else q[a := p]
  {
  }

  lemma CutLast(h: seq<Head>, n: nat)
    requires |h| == n + 1 && HeapFrom(h, 0, n)
    ensures IsHeap(h[..n])
    ensures multiset(h[..n]) == multiset(h) - multiset{h[n]}
  {
    assert h == h[..n] + [h[n]];
    forall i | 0 <= i < n ensures ChildrenLose(h[..n], n, i, h[..n][i]) {
      assert ChildrenLose(h, n, i, h[i]);
    }
  }
}
