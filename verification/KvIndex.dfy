/** The key-value index of Ethereum transactions, and the per-block message list it stands for. */
module KvIndex {
  import opened Common
  import opened Varint
  import opened BigEndian

  type Hash = seq<byte>
  type DbKey = seq<byte>

  datatype TxResult = TxResult(
    height: int, txIndex: nat, msgIndex: nat, ethTxIndex: nat, failed: bool, gasUsed: nat, cumulativeGasUsed: nat)

  /** A stored value: an encoded result under a hash key, a hash under an index key. */
  datatype Value = ResultValue(result: TxResult) | HashValue(hash: Hash)

  type Db = map<DbKey, Value>

  datatype Parsed = Parsed(gasUsed: nat, failed: bool)

  /** A message, with what the events of its transaction say about it, if anything. */
  datatype EthMsg = EthMsg(hash: Hash, gas: nat, parsed: Option<Parsed>)

  datatype BlockTx = BlockTx(succeededOrExpected: bool, decodes: bool, isEth: bool, parses: bool, codeOK: bool, msgs: seq<EthMsg>)

  datatype Block = Block(height: int, txs: seq<BlockTx>)

  datatype Entry = Entry(hash: Hash, result: TxResult)

  // ---------------------------------------------------------------- keys

  const KEY_PREFIX_TX_HASH: byte := 1
  const KEY_PREFIX_TX_INDEX: byte := 2
  const TX_INDEX_KEY_LENGTH: nat := 17

  /** `uint64(i)` of a signed integer. */
  function U64(i: int): (x: nat)
    ensures x < TWO_64
  {
    i % TWO_64
  }

  /** `int64(x)`. */
  function I64(x: nat): (i: int) {
    if x < TWO_63 then x else x - TWO_64
  }

  function TxHashKey(hash: Hash): (k: DbKey) {
    [KEY_PREFIX_TX_HASH] + hash
  }

  function TxIndexKey(height: int, index: int): (k: DbKey)
    ensures |k| == TX_INDEX_KEY_LENGTH
  {
    [KEY_PREFIX_TX_INDEX] + ToBytes(U64(height), 8) + ToBytes(U64(index), 8)
  }

  function ParseBlockNumber(k: DbKey): (r: Option<int>) {
    if |k| != TX_INDEX_KEY_LENGTH then None else Some(I64(FromBytes(k[1..9])))
  }

  ghost predicate IsInt64(i: int) {
    -TWO_63 <= i < TWO_63
  }

  lemma Pow256Eight()
    ensures Pow256(8) == TWO_64
  {
    assert Pow256(4) == 0x1_0000_0000;
    assert Pow256(6) == 0x1_0000_0000_0000;
  }

  /** The height comes back from the key, for every int64. */
  lemma HeightComesBack(height: int, index: int)
    requires IsInt64(height)
    ensures ParseBlockNumber(TxIndexKey(height, index)) == Some(height)
  {
    Pow256Eight();
    var k := TxIndexKey(height, index);
    assert k[1..9] == ToBytes(U64(height), 8);
    FromToBytes(U64(height), 8);
  }

  /** Different (height, index) pairs never share a key. */
  lemma TxIndexKeyIsInjective(h: int, i: int, h': int, i': int)
    requires IsInt64(h) && IsInt64(h') && IsInt64(i) && IsInt64(i')
    requires TxIndexKey(h, i) == TxIndexKey(h', i')
    ensures h == h' && i == i'
  {
    hide ToBytes, FromBytes, Pow256;
    HeightComesBack(h, i);
    HeightComesBack(h', i');
    Pow256Eight();
    assert TxIndexKey(h, i)[9..] == ToBytes(U64(i), 8) && TxIndexKey(h', i')[9..] == ToBytes(U64(i'), 8);
    FromToBytes(U64(i), 8);
    FromToBytes(U64(i'), 8);
  }

  /** Keys sort by height, then index, as long as neither is negative. */
  lemma TxIndexKeyOrder(h: int, i: int, h': int, i': int)
    requires 0 <= h < TWO_63 && 0 <= h' < TWO_63 && 0 <= i < TWO_63 && 0 <= i' < TWO_63
    ensures Before(TxIndexKey(h, i), TxIndexKey(h', i')) <==> h < h' || (h == h' && i < i')
  {
    hide ToBytes, FromBytes, Pow256, Before;
    Pow256Eight();
    assert U64(h) == h && U64(i) == i && U64(h') == h' && U64(i') == i';
    var a, b, a', b' := ToBytes(h, 8), ToBytes(i, 8), ToBytes(h', 8), ToBytes(i', 8);
    var p := [KEY_PREFIX_TX_INDEX];
    BeforeConcat(p + a, b, p + a', b');
    BeforeConcat(p, a, p, a');
    BeforeIsTotal(p, p);
    BytesOrder(h, h', 8);
    BytesOrder(i, i', 8);
    FromToBytes(h, 8);
    FromToBytes(h', 8);
    assert p + a == p + a' <==> a == a' by { assert (p + a)[1..] == a && (p + a')[1..] == a'; }
  }

  // ---------------------------------------------------------------- what a block contributes

  function GasUsed(tx: BlockTx, m: EthMsg): (g: nat)
    requires tx.codeOK ==> m.parsed.Some?
  {
    if tx.codeOK then m.parsed.value.gasUsed else m.gas
  }

  /** `uint64` addition. */
  function AddU64(a: nat, b: nat): (c: nat) {
    (a + b) % TWO_64
  }

  /** The indexed messages of one transaction; `first` counts those before it in the block. */
  function MsgEntries(height: int, txIndex: nat, tx: BlockTx, n: nat, first: nat): (r: (seq<Entry>, nat))
    requires n <= |tx.msgs|
  {
    if n == 0 then ([], 0)
    else
      var (es, gas) := MsgEntries(height, txIndex, tx, n - 1, first);
      var m := tx.msgs[n - 1];
      if tx.codeOK && m.parsed.None? then (es, gas)
      else
        var gas' := AddU64(gas, GasUsed(tx, m));
        (es + [Entry(m.hash, TxResult(height, txIndex, n - 1, first + |es|,
                                      if tx.codeOK then m.parsed.value.failed else true, GasUsed(tx, m), gas'))], gas')
  }

  predicate IsIndexed(tx: BlockTx) {
    tx.succeededOrExpected && tx.decodes && tx.isEth && tx.parses
  }

  /** The indexed messages of the first `n` transactions, in block order. */
  function EntriesUpTo(b: Block, n: nat): (es: seq<Entry>)
    requires n <= |b.txs|
  {
    if n == 0 then []
    else
      var es := EntriesUpTo(b, n - 1);
      if IsIndexed(b.txs[n - 1]) then es + MsgEntries(b.height, n - 1, b.txs[n - 1], |b.txs[n - 1].msgs|, |es|).0 else es
  }

  function Entries(b: Block): (es: seq<Entry>) {
    EntriesUpTo(b, |b.txs|)
  }

  // ---------------------------------------------------------------- what the entries are

  /** The message has a result to index: events say so, or the transaction failed and needs none. */
  ghost predicate HasResult(tx: BlockTx, i: int) {
    0 <= i < |tx.msgs| && (tx.codeOK ==> tx.msgs[i].parsed.Some?)
  }

  /** The gas of the first `n` messages that have a result, without wrapping around. */
  ghost function GasOfFirst(tx: BlockTx, n: nat): (g: nat)
    requires n <= |tx.msgs|
  {
    if n == 0 then 0
    else
      var m := tx.msgs[n - 1];
      GasOfFirst(tx, n - 1)
      + if tx.codeOK then (if m.parsed.Some? then m.parsed.value.gasUsed else 0) else m.gas
  }

  /** The result is that of message `r.msgIndex` of transaction `t`. */
  ghost predicate IsResultOf(height: int, t: nat, tx: BlockTx, hash: Hash, r: TxResult) {
    && HasResult(tx, r.msgIndex) && r.height == height && r.txIndex == t
    && var m := tx.msgs[r.msgIndex];
       && hash == m.hash
       && r.failed == (if tx.codeOK then m.parsed.value.failed else true)
       && r.gasUsed == (if tx.codeOK then m.parsed.value.gasUsed else m.gas)
       && r.cumulativeGasUsed == GasOfFirst(tx, r.msgIndex + 1) % TWO_64
  }

  ghost predicate AreResults(height: int, t: nat, tx: BlockTx, first: nat, es: seq<Entry>) {
    forall k :: 0 <= k < |es| ==> IsResultOf(height, t, tx, es[k].hash, es[k].result) && es[k].result.ethTxIndex == first + k
  }

  /** Transaction by transaction, and in each message by message. */
  ghost predicate InOrder(es: seq<Entry>) {
    forall j, k :: 0 <= j < k < |es| ==> Precedes(es[j].result, es[k].result)
  }

  ghost predicate Precedes(a: TxResult, b: TxResult) {
    a.txIndex < b.txIndex || (a.txIndex == b.txIndex && a.msgIndex < b.msgIndex)
  }

  ghost predicate Lists(es: seq<Entry>, t: int, i: int) {
    exists k :: 0 <= k < |es| && es[k].result.txIndex == t && es[k].result.msgIndex == i
  }

  /** Exactly the first `n` messages that have a result, in order, numbered from `first`. */
  ghost predicate ListsMsgs(height: int, t: nat, tx: BlockTx, n: nat, first: nat, es: seq<Entry>) {
    && AreResults(height, t, tx, first, es) && InOrder(es)
    && forall i :: Lists(es, t, i) <==> HasResult(tx, i) && i < n
  }

  lemma {:induction false} OneMoreMsg(height: int, t: nat, tx: BlockTx, n: nat, first: nat, es: seq<Entry>, e: Entry)
    requires ListsMsgs(height, t, tx, n, first, es) && HasResult(tx, n)
    requires IsResultOf(height, t, tx, e.hash, e.result) && e.result.msgIndex == n && e.result.ethTxIndex == first + |es|
    ensures ListsMsgs(height, t, tx, n + 1, first, es + [e])
  {
    hide IsResultOf, HasResult;
    var es' := es + [e];
    PlaceOf(height, t, tx, e);
    forall k | 0 <= k < |es| ensures Precedes(es[k].result, e.result) {
      PlaceOf(height, t, tx, es[k]);
      assert Lists(es, t, es[k].result.msgIndex);
    }
    forall i ensures Lists(es', t, i) <==> HasResult(tx, i) && i < n + 1 {
      ListsOneMore(es, e, t, i);
      assert Lists(es, t, i) <==> HasResult(tx, i) && i < n;
    }
  }

  lemma {:induction false} PlaceOf(height: int, t: nat, tx: BlockTx, e: Entry)
    requires IsResultOf(height, t, tx, e.hash, e.result)
    ensures e.result.txIndex == t && HasResult(tx, e.result.msgIndex)
  {
  }

  lemma {:induction false} ListsOneMore(es: seq<Entry>, e: Entry, t: int, i: int)
    ensures Lists(es + [e], t, i) <==> Lists(es, t, i) || (e.result.txIndex == t && e.result.msgIndex == i)
  {
    var es' := es + [e];
    assert es'[|es|] == e && forall k :: 0 <= k < |es| ==> es'[k] == es[k];
  }

  lemma {:induction false} AddModulo(a: nat, b: nat)
    ensures AddU64(a % TWO_64, b) == (a + b) % TWO_64
  {
    ModAdd(a, b);
  }

  lemma {:induction false} MsgEntriesList(height: int, t: nat, tx: BlockTx, n: nat, first: nat)
    requires n <= |tx.msgs|
    ensures ListsMsgs(height, t, tx, n, first, MsgEntries(height, t, tx, n, first).0)
    ensures MsgEntries(height, t, tx, n, first).1 == GasOfFirst(tx, n) % TWO_64
    decreases n
  {
    hide ListsMsgs, AddU64;
    if n == 0 {
      NoMsgs(height, t, tx, first);
    } else {
      MsgEntriesList(height, t, tx, n - 1, first);
      var es := MsgEntries(height, t, tx, n - 1, first).0;
      var m := tx.msgs[n - 1];
      if tx.codeOK && m.parsed.None? {
        NoResult(height, t, tx, n - 1, first, es);
      } else {
        AddModulo(GasOfFirst(tx, n - 1), GasUsed(tx, m));
        var all := MsgEntries(height, t, tx, n, first).0;
        OneMoreMsg(height, t, tx, n - 1, first, es, all[|es|]);
        assert all == es + [all[|es|]];
      }
    }
  }

  lemma {:induction false} NoMsgs(height: int, t: nat, tx: BlockTx, first: nat)
    ensures ListsMsgs(height, t, tx, 0, first, [])
  {
  }

  lemma {:induction false} NoResult(height: int, t: nat, tx: BlockTx, n: nat, first: nat, es: seq<Entry>)
    requires ListsMsgs(height, t, tx, n, first, es) && !HasResult(tx, n)
    ensures ListsMsgs(height, t, tx, n + 1, first, es)
  {
    hide HasResult, AreResults, InOrder, Lists;
  }

  /** A message of the block that is to be indexed. */
  ghost predicate IsIndexedMsg(b: Block, t: int, i: int) {
    && 0 <= t < |b.txs|
    && b.txs[t].succeededOrExpected && b.txs[t].decodes && b.txs[t].isEth && b.txs[t].parses && HasResult(b.txs[t], i)
  }

  ghost predicate IsEntry(b: Block, k: nat, e: Entry) {
    && IsIndexedMsg(b, e.result.txIndex, e.result.msgIndex) && e.result.ethTxIndex == k
    && IsResultOf(b.height, e.result.txIndex, b.txs[e.result.txIndex], e.hash, e.result)
  }

  /** Exactly the messages to be indexed of the first `n` transactions, in order, numbered from zero. */
  ghost predicate ListsBlock(b: Block, n: nat, es: seq<Entry>) {
    && (forall k :: 0 <= k < |es| ==> IsEntry(b, k, es[k]))
    && InOrder(es)
    && forall t, i :: Lists(es, t, i) <==> IsIndexedMsg(b, t, i) && t < n
  }

  lemma {:induction false} OneMoreTx(b: Block, n: nat, es: seq<Entry>, ms: seq<Entry>)
    requires n < |b.txs| && ListsBlock(b, n, es) && IsIndexed(b.txs[n])
    requires ListsMsgs(b.height, n, b.txs[n], |b.txs[n].msgs|, |es|, ms)
    ensures ListsBlock(b, n + 1, es + ms)
  {
    hide IsResultOf, HasResult;
    var tx, all := b.txs[n], es + ms;
    forall k | 0 <= k < |all| ensures IsEntry(b, k, all[k]) {
      if k < |es| {
        assert IsEntry(b, k, es[k]);
      } else {
        var e := ms[k - |es|];
        PlaceOf(b.height, n, tx, e);
      }
    }
    forall j, k | 0 <= j < k < |all| ensures Precedes(all[j].result, all[k].result) {
      if j < |es| <= k {
        assert Lists(es, es[j].result.txIndex, es[j].result.msgIndex);
        PlaceOf(b.height, n, tx, ms[k - |es|]);
      }
    }
    forall t, i ensures Lists(all, t, i) <==> IsIndexedMsg(b, t, i) && t < n + 1 {
      ListsConcat(es, ms, t, i);
      assert Lists(es, t, i) <==> IsIndexedMsg(b, t, i) && t < n;
      if Lists(ms, t, i) {
        var k :| 0 <= k < |ms| && ms[k].result.txIndex == t && ms[k].result.msgIndex == i;
        PlaceOf(b.height, n, tx, ms[k]);
      }
      if t == n {
        assert Lists(ms, n, i) <==> HasResult(tx, i) && i < |tx.msgs|;
        MsgInRange(tx, i);
      }
    }
  }

  lemma {:induction false} MsgInRange(tx: BlockTx, i: int)
    ensures HasResult(tx, i) ==> i < |tx.msgs|
  {
  }

  lemma {:induction false} ListsConcat(es: seq<Entry>, ms: seq<Entry>, t: int, i: int)
    ensures Lists(es + ms, t, i) <==> Lists(es, t, i) || Lists(ms, t, i)
  {
    var all := es + ms;
    if k :| 0 <= k < |ms| && ms[k].result.txIndex == t && ms[k].result.msgIndex == i { assert all[|es| + k] == ms[k]; }
    if k :| 0 <= k < |es| && es[k].result.txIndex == t && es[k].result.msgIndex == i { assert all[k] == es[k]; }
    if k :| 0 <= k < |all| && all[k].result.txIndex == t && all[k].result.msgIndex == i {
      assert k < |es| ==> all[k] == es[k];
      assert k >= |es| ==> all[k] == ms[k - |es|];
    }
  }

  lemma {:induction false} SkippedTx(b: Block, n: nat, es: seq<Entry>)
    requires n < |b.txs| && ListsBlock(b, n, es) && !IsIndexed(b.txs[n])
    ensures ListsBlock(b, n + 1, es)
  {
    hide IsEntry, InOrder, Lists;
  }

  /** The entries of a block are its messages with a result, one for each, in block order, with what belongs to each. */
  lemma {:induction false} EntriesList(b: Block, n: nat)
    requires n <= |b.txs|
    ensures ListsBlock(b, n, EntriesUpTo(b, n))
    decreases n
  {
    hide IsEntry, InOrder, IsIndexed, MsgEntries;
    if n > 0 {
      EntriesList(b, n - 1);
      var es, tx := EntriesUpTo(b, n - 1), b.txs[n - 1];
      if IsIndexed(tx) {
        MsgEntriesList(b.height, n - 1, tx, |tx.msgs|, |es|);
        OneMoreTx(b, n - 1, es, MsgEntries(b.height, n - 1, tx, |tx.msgs|, |es|).0);
      } else {
        SkippedTx(b, n - 1, es);
      }
    } else {
      assert InOrder([]) by { NothingInOrder(); }
    }
  }

  lemma {:induction false} NothingInOrder()
    ensures InOrder([])
  {
  }

  /** Indices run 0, 1, 2, ... through the block with no gap. */
  lemma {:induction false} IndicesAreDense(b: Block, n: nat, k: nat)
    requires n <= |b.txs| && k < |EntriesUpTo(b, n)|
    ensures EntriesUpTo(b, n)[k].result.ethTxIndex == k && EntriesUpTo(b, n)[k].result.height == b.height
  {
    hide EntriesUpTo;
    EntriesList(b, n);
    assert IsEntry(b, k, EntriesUpTo(b, n)[k]);
  }

  // ---------------------------------------------------------------- writing

  function Save(db: Db, height: int, e: Entry): (r: Db) {
    db[TxHashKey(e.hash) := ResultValue(e.result)][TxIndexKey(height, e.result.ethTxIndex) := HashValue(e.hash)]
  }

  function SaveAll(db: Db, height: int, es: seq<Entry>): (r: Db) {
    if es == [] then db else Save(SaveAll(db, height, es[..|es| - 1]), height, es[|es| - 1])
  }

  /** The loops of `IndexBlock`; the batch takes effect as a whole. */
  method IndexBlock(db: Db, b: Block) returns (db': Db)
    ensures db' == SaveAll(db, b.height, Entries(b))
    ensures FitsBlock(b) && DistinctHashes(Entries(b)) ==> forall t, i :: IsIndexedMsg(b, t, i) ==> IsFound(db', b, t, i)
  {
    hide Save, MsgEntries, IsIndexedMsg, IsFound, Entries, SaveAll;
    assert Entries(b) == EntriesUpTo(b, |b.txs|) && SaveAll(db, b.height, []) == db by { NothingSaved(db, b); }
    if FitsBlock(b) && DistinctHashes(Entries(b)) {
      forall t, i | IsIndexedMsg(b, t, i) ensures IsFound(SaveAll(db, b.height, Entries(b)), b, t, i) {
        IndexedMsgIsFound(db, b, t, i);
      }
    }
    db' := db;
    ghost var es: seq<Entry> := [];
    var ethTxIndex := 0;
    for t := 0 to |b.txs|
      invariant es == EntriesUpTo(b, t) && ethTxIndex == |es| && db' == SaveAll(db, b.height, es)
    {
      var tx := b.txs[t];
      if !tx.succeededOrExpected { continue; }
      if !tx.decodes { continue; }
      if !tx.isEth { continue; }
      if !tx.parses { continue; }
      db', ethTxIndex := IndexMsgs(db', b.height, t, tx, ethTxIndex, db, es);
      es := es + MsgEntries(b.height, t, tx, |tx.msgs|, |es|).0;
    }
  }

  /** The loop over the messages of one transaction. */
  method IndexMsgs(db0: Db, height: int, t: nat, tx: BlockTx, first: nat, ghost start: Db, ghost before: seq<Entry>)
    returns (db: Db, ethTxIndex: nat)
    requires first == |before| && db0 == SaveAll(start, height, before)
    ensures var es := before + MsgEntries(height, t, tx, |tx.msgs|, first).0;
            db == SaveAll(start, height, es) && ethTxIndex == |es|
    ensures exists ms :: ListsMsgs(height, t, tx, |tx.msgs|, first, ms) && db == SaveAll(start, height, before + ms)
                         && ethTxIndex == first + |ms|
  {
    hide Save, AddU64, ListsMsgs;
    MsgEntriesList(height, t, tx, |tx.msgs|, first);
    db, ethTxIndex := db0, first;
    var cumulativeGasUsed := 0;
    ghost var es := before;
    for i := 0 to |tx.msgs|
      invariant cumulativeGasUsed == MsgEntries(height, t, tx, i, first).1
      invariant es == before + MsgEntries(height, t, tx, i, first).0
      invariant ethTxIndex == |es| && db == SaveAll(start, height, es)
    {
      var m := tx.msgs[i];
      var gasUsed, failed := m.gas, true;
      if tx.codeOK {
        if m.parsed.None? { continue; }
        gasUsed, failed := m.parsed.value.gasUsed, m.parsed.value.failed;
      }
      cumulativeGasUsed := AddU64(cumulativeGasUsed, gasUsed);
      var e := Entry(m.hash, TxResult(height, t, i, ethTxIndex, failed, gasUsed, cumulativeGasUsed));
      ethTxIndex := ethTxIndex + 1;
      db := Save(db, height, e);
      assert (es + [e])[..|es|] == es;
      es := es + [e];
    }
  }

  function GetByTxHash(db: Db, hash: Hash): (r: Option<TxResult>) {
    var k := TxHashKey(hash);
    if k in db && db[k].ResultValue? then Some(db[k].result) else None
  }

  function GetByBlockAndIndex(db: Db, height: int, index: int): (r: Option<TxResult>) {
    var k := TxIndexKey(height, index);
    if k in db && db[k].HashValue? then GetByTxHash(db, db[k].hash) else None
  }

  // ---------------------------------------------------------------- the index agrees with the lists

  /** What Go's integer types hold: a height that is not negative and fewer than 2^31 messages. */
  ghost predicate FitsBlock(b: Block) {
    0 <= b.height < TWO_63 && |Entries(b)| < 0x8000_0000
  }

  ghost predicate DistinctHashes(es: seq<Entry>) {
    forall i, j :: 0 <= i < j < |es| ==> es[i].hash != es[j].hash
  }

  /** One block per height, and no hash twice. */
  ghost predicate Compatible(b: Block, b': Block) {
    && FitsBlock(b) && FitsBlock(b')
    && DistinctHashes(Entries(b)) && DistinctHashes(Entries(b'))
    && (b.height == b'.height ==> b == b')
    && (b.height != b'.height ==> forall e, e' :: e in Entries(b) && e' in Entries(b') ==> e.hash != e'.hash)
  }

  ghost predicate AllCompatible(bs: seq<Block>) {
    forall b, b' :: b in bs && b' in bs ==> Compatible(b, b')
  }

  /** Both keys of entry `k` of a block hold what they should. */
  ghost predicate Holds(db: Db, b: Block, k: nat)
    requires k < |Entries(b)|
  {
    var e := Entries(b)[k];
    && TxIndexKey(b.height, k) in db && db[TxIndexKey(b.height, k)] == HashValue(e.hash)
    && TxHashKey(e.hash) in db && db[TxHashKey(e.hash)] == ResultValue(e.result)
  }

  ghost predicate HoldsUpTo(db: Db, b: Block, n: nat)
    requires n <= |Entries(b)|
  {
    forall k :: 0 <= k < n ==> Holds(db, b, k)
  }

  ghost predicate HoldsBlock(db: Db, b: Block) {
    HoldsUpTo(db, b, |Entries(b)|)
  }

  ghost predicate KeyOf(key: DbKey, b: Block, k: nat)
    requires k < |Entries(b)|
  {
    key == TxIndexKey(b.height, k) || key == TxHashKey(Entries(b)[k].hash)
  }

  ghost predicate KeyOfBlock(key: DbKey, b: Block) {
    exists k :: 0 <= k < |Entries(b)| && KeyOf(key, b, k)
  }

  /** The database holds the entries of these blocks and nothing else. */
  ghost predicate Indexes(db: Db, bs: seq<Block>) {
    && (forall b :: b in bs ==> HoldsBlock(db, b))
    && (forall key :: key in db ==> exists b :: b in bs && KeyOfBlock(key, b))
  }

  /** A prefix of a block's entries, saved. */
  lemma {:induction false} SaveAllWrites(db: Db, b: Block, n: nat, key: DbKey)
    requires FitsBlock(b) && DistinctHashes(Entries(b)) && n <= |Entries(b)|
    ensures var db' := SaveAll(db, b.height, Entries(b)[..n]);
            && HoldsUpTo(db', b, n)
            && (!KeyOfBlock(key, b) ==> (key in db' <==> key in db) && (key in db ==> db'[key] == db[key]))
    decreases n
  {
    hide Entries, EntriesUpTo, TxIndexKey, TxHashKey;
    var es := Entries(b);
    if n > 0 {
      var e := es[n - 1];
      assert es[..n][..n - 1] == es[..n - 1];
      SaveAllWrites(db, b, n - 1, key);
      var before := SaveAll(db, b.height, es[..n - 1]);
      var db' := Save(before, b.height, e);
      EntryIndex(b, n - 1);
      KeysDiffer(b.height, n - 1, e.hash);
      forall k | 0 <= k < n ensures Holds(db', b, k) {
        KeysDiffer(b.height, k, e.hash);
        KeysDiffer(b.height, n - 1, es[k].hash);
        if k < n - 1 {
          assert Holds(before, b, k);
          IndexKeysDiffer(b.height, k, n - 1);
          HashKeysDiffer(es[k].hash, e.hash);
        }
      }
      assert db' == SaveAll(db, b.height, es[..n]);
      if key == TxIndexKey(b.height, n - 1) || key == TxHashKey(e.hash) {
        assert KeyOf(key, b, n - 1);
      }
    }
  }

  /** Both lookups give the result of message `i` of transaction `t`. */
  ghost predicate IsFound(db: Db, b: Block, t: int, i: int)
    requires IsIndexedMsg(b, t, i)
  {
    exists k :: 0 <= k < |Entries(b)| && IsFoundAt(db, b, t, i, k)
  }

  ghost predicate IsFoundAt(db: Db, b: Block, t: int, i: int, k: nat)
    requires IsIndexedMsg(b, t, i)
  {
    var hash := b.txs[t].msgs[i].hash;
    var r := GetByTxHash(db, hash);
    && r.Some? && GetByBlockAndIndex(db, b.height, k) == r
    && r.value.ethTxIndex == k && r.value.msgIndex == i && IsResultOf(b.height, t, b.txs[t], hash, r.value)
  }

  /** Every message to be indexed is found, by hash and by place, with what belongs to it. */
  lemma {:induction false} IndexedMsgIsFound(db: Db, b: Block, t: int, i: int)
    requires FitsBlock(b) && DistinctHashes(Entries(b)) && IsIndexedMsg(b, t, i)
    ensures IsFound(SaveAll(db, b.height, Entries(b)), b, t, i)
  {
    hide SaveAll, TxIndexKey, TxHashKey, EntriesUpTo;
    var es := Entries(b);
    assert es[..|es|] == es;
    EntriesList(b, |b.txs|);
    assert Lists(es, t, i);
    var k :| 0 <= k < |es| && es[k].result.txIndex == t && es[k].result.msgIndex == i;
    assert IsEntry(b, k, es[k]);
    SaveAllWrites(db, b, |es|, []);
    var db' := SaveAll(db, b.height, es);
    assert Holds(db', b, k);
    assert IsFoundAt(db', b, t, i, k);
  }

  lemma {:induction false} NothingSaved(db: Db, b: Block)
    ensures Entries(b) == EntriesUpTo(b, |b.txs|) && SaveAll(db, b.height, []) == db
  {
  }

  lemma EntryIndex(b: Block, k: nat)
    requires k < |Entries(b)|
    ensures Entries(b)[k].result.ethTxIndex == k
  {
    IndicesAreDense(b, |b.txs|, k);
  }

  lemma KeysDiffer(height: int, index: int, hash: Hash)
    ensures TxIndexKey(height, index) != TxHashKey(hash)
  {
    assert TxIndexKey(height, index)[0] == 2 && TxHashKey(hash)[0] == 1;
  }

  lemma IndexKeysDiffer(height: int, i: nat, j: nat)
    requires 0 <= height < TWO_63 && i < j < 0x8000_0000
    ensures TxIndexKey(height, i) != TxIndexKey(height, j)
  {
    if TxIndexKey(height, i) == TxIndexKey(height, j) { TxIndexKeyIsInjective(height, i, height, j); }
  }

  lemma HashKeysDiffer(a: Hash, b: Hash)
    requires a != b
    ensures TxHashKey(a) != TxHashKey(b)
  {
    assert TxHashKey(a)[1..] == a && TxHashKey(b)[1..] == b;
  }

  /** Keys of blocks at different heights are different. */
  lemma BlocksShareNoKey(b: Block, b': Block, k: nat, key: DbKey)
    requires Compatible(b, b') && b.height != b'.height && k < |Entries(b)| && KeyOf(key, b, k)
    ensures !KeyOfBlock(key, b')
  {
    hide Entries, EntriesUpTo, TxIndexKey, TxHashKey;
    forall j | 0 <= j < |Entries(b')| ensures !KeyOf(key, b', j) {
      KeysDiffer(b.height, k, Entries(b')[j].hash);
      KeysDiffer(b'.height, j, Entries(b)[k].hash);
      HashKeysDiffer(Entries(b)[k].hash, Entries(b')[j].hash);
      if TxIndexKey(b.height, k) == TxIndexKey(b'.height, j) {
        TxIndexKeyIsInjective(b.height, k, b'.height, j);
      }
    }
  }

  lemma {:induction false} IndexOneMore(db: Db, bs: seq<Block>, b: Block)
    requires AllCompatible(bs + [b]) && Indexes(db, bs)
    ensures Indexes(SaveAll(db, b.height, Entries(b)), bs + [b])
  {
    hide Entries, EntriesUpTo, KeyOf, Holds, SaveAll, FitsBlock;
    var es := Entries(b);
    var db' := SaveAll(db, b.height, es);
    assert es[..|es|] == es;
    assert b in bs + [b] && Compatible(b, b);
    SaveAllWrites(db, b, |es|, []);
    assert HoldsBlock(db', b);
    forall b' | b' in bs ensures HoldsBlock(db', b') {
      assert b' in bs + [b] && Compatible(b', b) && HoldsBlock(db, b');
      if b'.height == b.height {
        assert b' == b;
      } else {
        forall k | 0 <= k < |Entries(b')| ensures Holds(db', b', k) {
          OldEntryStays(db, b', b, k);
        }
      }
    }
    forall key | key in db' ensures exists x :: x in bs + [b] && KeyOfBlock(key, x) {
      SaveAllWrites(db, b, |es|, key);
      if key in db {
        var x :| x in bs && KeyOfBlock(key, x);
        assert x in bs + [b];
      }
    }
  }

  lemma {:induction false} OldEntryStays(db: Db, b': Block, b: Block, k: nat)
    requires Compatible(b', b) && b'.height != b.height && k < |Entries(b')| && Holds(db, b', k)
    ensures Holds(SaveAll(db, b.height, Entries(b)), b', k)
  {
    hide Entries, EntriesUpTo, TxIndexKey, TxHashKey, SaveAll;
    var es := Entries(b);
    assert es[..|es|] == es;
    var k1, k2 := TxIndexKey(b'.height, k), TxHashKey(Entries(b')[k].hash);
    BlocksShareNoKey(b', b, k, k1);
    BlocksShareNoKey(b', b, k, k2);
    SaveAllWrites(db, b, |es|, k1);
    SaveAllWrites(db, b, |es|, k2);
  }

  /** The database after indexing blocks one after the other, in any order and with repetitions. */
  ghost function IndexAll(bs: seq<Block>): (db: Db) {
    if bs == [] then map[]
    else SaveAll(IndexAll(bs[..|bs| - 1]), bs[|bs| - 1].height, Entries(bs[|bs| - 1]))
  }

  lemma {:induction false} IndexAllIndexes(bs: seq<Block>)
    requires AllCompatible(bs)
    ensures Indexes(IndexAll(bs), bs)
    decreases |bs|
  {
    hide Compatible, HoldsBlock, KeyOfBlock, SaveAll, Entries;
    if bs != [] {
      var n := |bs| - 1;
      assert bs == bs[..n] + [bs[n]];
      assert AllCompatible(bs[..n]);
      IndexAllIndexes(bs[..n]);
      IndexOneMore(IndexAll(bs[..n]), bs[..n], bs[n]);
    }
  }

  /** Lookup by height and index is lookup in that block's message list; nothing else is found. */
  lemma {:induction false} LookupAgrees(bs: seq<Block>, height: int, index: int)
    requires AllCompatible(bs) && IsInt64(height) && IsInt64(index)
    ensures forall b :: b in bs && b.height == height && 0 <= index < |Entries(b)| ==>
              GetByBlockAndIndex(IndexAll(bs), height, index) == Some(Entries(b)[index].result)
              && GetByTxHash(IndexAll(bs), Entries(b)[index].hash) == Some(Entries(b)[index].result)
    ensures (forall b :: b in bs && b.height == height ==> !(0 <= index < |Entries(b)|)) ==>
              GetByBlockAndIndex(IndexAll(bs), height, index) == None
  {
    hide Entries, EntriesUpTo, TxIndexKey, TxHashKey, IndexAll;
    IndexAllIndexes(bs);
    var db := IndexAll(bs);
    forall b | b in bs && b.height == height && 0 <= index < |Entries(b)| ensures Holds(db, b, index) {
      assert HoldsBlock(db, b);
    }
    var key := TxIndexKey(height, index);
    if key in db {
      var b :| b in bs && KeyOfBlock(key, b);
      var k :| 0 <= k < |Entries(b)| && KeyOf(key, b, k);
      KeysDiffer(height, index, Entries(b)[k].hash);
      assert Compatible(b, b);
      TxIndexKeyIsInjective(height, index, b.height, k);
    }
  }

  /** Indexing an indexed block again changes nothing. */
  lemma {:induction false} ReindexingIsIdempotent(bs: seq<Block>, b: Block, key: DbKey)
    requires AllCompatible(bs) && b in bs
    ensures var db, db' := IndexAll(bs), SaveAll(IndexAll(bs), b.height, Entries(b));
            (key in db' <==> key in db) && (key in db ==> db'[key] == db[key])
  {
    hide Entries, EntriesUpTo, TxIndexKey, TxHashKey, IndexAll, SaveAll;
    IndexAllIndexes(bs);
    var db, es := IndexAll(bs), Entries(b);
    assert es[..|es|] == es;
    assert Compatible(b, b) && HoldsBlock(db, b);
    SaveAllWrites(db, b, |es|, key);
    var db' := SaveAll(db, b.height, es);
    if k :| 0 <= k < |es| && KeyOf(key, b, k) {
      assert Holds(db, b, k) && Holds(db', b, k);
    }
  }

  // ---------------------------------------------------------------- hashes that come back

  /** An entry with the height it was saved under. */
  datatype Saved = Saved(height: int, entry: Entry)

  ghost function SavedBy(height: int, es: seq<Entry>): (ss: seq<Saved>)
    ensures |ss| == |es|
  {
    seq(|es|, i requires 0 <= i < |es| => Saved(height, es[i]))
  }

  /** Everything the blocks save, in order. */
  ghost function AllSaved(bs: seq<Block>): (ss: seq<Saved>) {
    if bs == [] then []
    else AllSaved(bs[..|bs| - 1]) + SavedBy(bs[|bs| - 1].height, Entries(bs[|bs| - 1]))
  }

  /** The hash last saved for a height and index. */
  ghost function LastAt(ss: seq<Saved>, height: int, index: int): (r: Option<Hash>) {
    if ss == [] then None
    else
      var s := ss[|ss| - 1];
      if s.height == height && s.entry.result.ethTxIndex == index then Some(s.entry.hash)
      else LastAt(ss[..|ss| - 1], height, index)
  }

  /** The result last saved for a hash. */
  ghost function LastResult(ss: seq<Saved>, hash: Hash): (r: Option<TxResult>) {
    if ss == [] then None
    else
      var s := ss[|ss| - 1];
      if s.entry.hash == hash then Some(s.entry.result) else LastResult(ss[..|ss| - 1], hash)
  }

  /** A database holds, under every key, what was saved there last. */
  ghost predicate HoldsLast(db: Db, ss: seq<Saved>) {
    && (forall x :: GetByTxHash(db, x) == LastResult(ss, x))
    && (forall h, i :: IsInt64(h) && IsInt64(i) ==> HashAt(db, h, i) == LastAt(ss, h, i))
  }

  ghost function HashAt(db: Db, height: int, index: int): (r: Option<Hash>) {
    var k := TxIndexKey(height, index);
    if k in db && db[k].HashValue? then Some(db[k].hash) else None
  }

  lemma SaveHoldsLast(db: Db, ss: seq<Saved>, s: Saved)
    requires HoldsLast(db, ss) && IsInt64(s.height) && IsInt64(s.entry.result.ethTxIndex)
    ensures HoldsLast(Save(db, s.height, s.entry), ss + [s])
  {
    hide TxIndexKey, TxHashKey;
    var db', e := Save(db, s.height, s.entry), s.entry;
    assert (ss + [s])[..|ss|] == ss;
    KeysDiffer(s.height, e.result.ethTxIndex, e.hash);
    forall x ensures GetByTxHash(db', x) == LastResult(ss + [s], x) {
      KeysDiffer(s.height, e.result.ethTxIndex, x);
      if x != e.hash { HashKeysDiffer(x, e.hash); }
      assert GetByTxHash(db, x) == LastResult(ss, x);
    }
    forall h, i | IsInt64(h) && IsInt64(i) ensures HashAt(db', h, i) == LastAt(ss + [s], h, i) {
      KeysDiffer(h, i, e.hash);
      if TxIndexKey(h, i) == TxIndexKey(s.height, e.result.ethTxIndex) {
        TxIndexKeyIsInjective(h, i, s.height, e.result.ethTxIndex);
      }
      assert HashAt(db, h, i) == LastAt(ss, h, i);
    }
  }

  lemma {:induction false} BlockHoldsLast(db: Db, ss: seq<Saved>, b: Block, n: nat)
    requires HoldsLast(db, ss) && FitsBlock(b) && n <= |Entries(b)|
    ensures HoldsLast(SaveAll(db, b.height, Entries(b)[..n]), ss + SavedBy(b.height, Entries(b)[..n]))
  {
    hide Entries, EntriesUpTo, HoldsLast, Save, LastAt, LastResult;
    var es := Entries(b);
    if n == 0 {
      assert ss + SavedBy(b.height, []) == ss;
    } else {
      BlockHoldsLast(db, ss, b, n - 1);
      assert es[..n][..n - 1] == es[..n - 1];
      EntryIndex(b, n - 1);
      SaveHoldsLast(SaveAll(db, b.height, es[..n - 1]), ss + SavedBy(b.height, es[..n - 1]), Saved(b.height, es[n - 1]));
      assert ss + SavedBy(b.height, es[..n]) == ss + SavedBy(b.height, es[..n - 1]) + [Saved(b.height, es[n - 1])];
    }
  }

  lemma {:induction false} IndexAllHoldsLast(bs: seq<Block>)
    requires forall b :: b in bs ==> FitsBlock(b)
    ensures HoldsLast(IndexAll(bs), AllSaved(bs))
    decreases |bs|
  {
    hide Entries, EntriesUpTo, SaveAll;
    if bs != [] {
      var n := |bs| - 1;
      IndexAllHoldsLast(bs[..n]);
      var es := Entries(bs[n]);
      BlockHoldsLast(IndexAll(bs[..n]), AllSaved(bs[..n]), bs[n], |es|);
      assert es[..|es|] == es;
    }
  }

  /**
   * With hashes that come back, in one block or in several, and heights indexed anew: the lookup takes the hash last
   * saved at that place and returns the result last saved for that hash, whichever block it came from.
   */
  lemma LookupReturnsTheLatest(bs: seq<Block>, height: int, index: int)
    requires (forall b :: b in bs ==> FitsBlock(b)) && IsInt64(height) && IsInt64(index)
    ensures GetByBlockAndIndex(IndexAll(bs), height, index) ==
            match LastAt(AllSaved(bs), height, index)
            case None => None
            case Some(hash) => LastResult(AllSaved(bs), hash)
  {
    hide IndexAll, AllSaved, LastAt, LastResult, TxIndexKey, FitsBlock;
    IndexAllHoldsLast(bs);
    assert HashAt(IndexAll(bs), height, index) == LastAt(AllSaved(bs), height, index);
  }

  /** A transaction that is in two blocks is found at its first height with the result of the second. */
  lemma RepeatedHashReturnsTheLater(b: Block, b': Block, e: Entry, e': Entry)
    requires FitsBlock(b) && FitsBlock(b') && b.height != b'.height
    requires Entries(b) == [e] && Entries(b') == [e'] && e.hash == e'.hash
    ensures GetByBlockAndIndex(IndexAll([b, b']), b.height, 0) == Some(e'.result)
  {
    hide GetByBlockAndIndex, IndexAll, Entries, EntriesUpTo;
    var bs := [b, b'];
    EntryIndex(b, 0);
    assert bs[..1] == [b] && bs[..1][..0] == [];
    assert AllSaved([b]) == [] + SavedBy(b.height, [e]);
    assert AllSaved(bs) == SavedBy(b.height, [e]) + SavedBy(b'.height, [e']);
    var ss := [Saved(b.height, e), Saved(b'.height, e')];
    assert AllSaved(bs) == ss && ss[..1] == [Saved(b.height, e)];
    LookupReturnsTheLatest(bs, b.height, 0);
  }

  ghost predicate DistinctHeights(bs: seq<Block>) {
    forall i, j :: 0 <= i < j < |bs| ==> bs[i].height != bs[j].height
  }

  /** Every result names the place it was saved at, and no two the same place. */
  ghost predicate OwnPlaces(ss: seq<Saved>) {
    && (forall n :: 0 <= n < |ss| ==> ss[n].entry.result.height == ss[n].height)
    && (forall m, n :: 0 <= m < n < |ss| ==>
          ss[m].height != ss[n].height || ss[m].entry.result.ethTxIndex != ss[n].entry.result.ethTxIndex)
  }

  ghost predicate InRange(ss: seq<Saved>) {
    forall n :: 0 <= n < |ss| ==> IsInt64(ss[n].height) && IsInt64(ss[n].entry.result.ethTxIndex)
  }

  ghost predicate KnowTheirPlace(height: int, es: seq<Entry>) {
    forall k :: 0 <= k < |es| ==> es[k].result.ethTxIndex == k && es[k].result.height == height
  }

  lemma {:induction false} EntriesKnowTheirPlace(b: Block)
    ensures KnowTheirPlace(b.height, Entries(b))
  {
    forall k | 0 <= k < |Entries(b)|
      ensures Entries(b)[k].result.ethTxIndex == k && Entries(b)[k].result.height == b.height
    {
      IndicesAreDense(b, |b.txs|, k);
    }
  }

  lemma {:induction false} BlockOwnPlaces(past: seq<Saved>, height: int, es: seq<Entry>)
    requires OwnPlaces(past) && InRange(past) && KnowTheirPlace(height, es)
    requires (forall n :: 0 <= n < |past| ==> past[n].height != height) && IsInt64(height) && |es| < 0x8000_0000
    ensures OwnPlaces(past + SavedBy(height, es)) && InRange(past + SavedBy(height, es))
  {
    var ss := past + SavedBy(height, es);
    assert forall n :: |past| <= n < |ss| ==> ss[n] == Saved(height, es[n - |past|]);
    assert forall n :: |past| <= n < |ss| ==> ss[n].entry.result.ethTxIndex == n - |past|;
  }

  ghost predicate HeightsAreOf(ss: seq<Saved>, bs: seq<Block>) {
    forall n :: 0 <= n < |ss| ==> exists j :: 0 <= j < |bs| && bs[j].height == ss[n].height
  }

  lemma {:induction false} AllSavedHeights(bs: seq<Block>)
    ensures HeightsAreOf(AllSaved(bs), bs)
    decreases |bs|
  {
    hide Entries;
    if bs != [] {
      var n := |bs| - 1;
      AllSavedHeights(bs[..n]);
      var past := AllSaved(bs[..n]);
      forall m | 0 <= m < |AllSaved(bs)| ensures exists j :: 0 <= j < |bs| && bs[j].height == AllSaved(bs)[m].height {
        if m < |past| {
          var j :| 0 <= j < |bs[..n]| && bs[..n][j].height == past[m].height;
          assert bs[j].height == AllSaved(bs)[m].height;
        } else {
          assert bs[n].height == AllSaved(bs)[m].height;
        }
      }
    }
  }

  lemma {:induction false} AllSavedOwnPlaces(bs: seq<Block>)
    requires DistinctHeights(bs) && forall b :: b in bs ==> FitsBlock(b)
    ensures OwnPlaces(AllSaved(bs)) && InRange(AllSaved(bs))
    decreases |bs|
  {
    hide Entries;
    if bs != [] {
      var n := |bs| - 1;
      AllSavedOwnPlaces(bs[..n]);
      AllSavedHeights(bs[..n]);
      EntriesKnowTheirPlace(bs[n]);
      var past := AllSaved(bs[..n]);
      forall m | 0 <= m < |past| ensures past[m].height != bs[n].height {
        var j :| 0 <= j < |bs[..n]| && bs[..n][j].height == past[m].height;
        assert bs[j].height != bs[n].height;
      }
      assert FitsBlock(bs[n]);
      hide OwnPlaces, InRange;
      BlockOwnPlaces(past, bs[n].height, Entries(bs[n]));
    }
  }

  lemma {:induction false} LastAtOwnPlace(ss: seq<Saved>, n: nat)
    requires OwnPlaces(ss) && n < |ss|
    ensures LastAt(ss, ss[n].height, ss[n].entry.result.ethTxIndex) == Some(ss[n].entry.hash)
    decreases |ss|
  {
    if n < |ss| - 1 { LastAtOwnPlace(ss[..|ss| - 1], n); }
  }

  ghost predicate NoneLater(ss: seq<Saved>, n: nat)
    requires n < |ss|
  {
    forall m :: n < m < |ss| ==> ss[m].entry.hash != ss[n].entry.hash
  }

  lemma {:induction false} LastResultIsOwnIff(ss: seq<Saved>, n: nat)
    requires OwnPlaces(ss) && n < |ss|
    ensures LastResult(ss, ss[n].entry.hash) == Some(ss[n].entry.result) <==> NoneLater(ss, n)
    decreases |ss|
  {
    var last := |ss| - 1;
    if n < last && ss[last].entry.hash != ss[n].entry.hash {
      LastResultIsOwnIff(ss[..last], n);
      assert NoneLater(ss[..last], n) <==> NoneLater(ss, n) by {
        assert forall m :: n < m < last ==> ss[..last][m] == ss[m];
      }
    }
  }

  /** An entry is found at its place with its own result if and only if no entry saved later has its hash. */
  lemma {:induction false} OwnResultIsFoundIff(bs: seq<Block>, n: nat)
    requires (forall b :: b in bs ==> FitsBlock(b)) && DistinctHeights(bs) && n < |AllSaved(bs)|
    ensures var s := AllSaved(bs)[n];
            GetByBlockAndIndex(IndexAll(bs), s.height, s.entry.result.ethTxIndex) == Some(s.entry.result)
            <==> NoneLater(AllSaved(bs), n)
  {
    hide IndexAll, AllSaved, LastAt, LastResult, GetByBlockAndIndex, FitsBlock;
    AllSavedOwnPlaces(bs);
    var s := AllSaved(bs)[n];
    LookupReturnsTheLatest(bs, s.height, s.entry.result.ethTxIndex);
    LastAtOwnPlace(AllSaved(bs), n);
    LastResultIsOwnIff(AllSaved(bs), n);
  }

  // ---------------------------------------------------------------- first and last indexed block

  /** Within the bounds both iterators are given: from the index prefix up to the next prefix. */
  predicate InIndexRange(k: DbKey) {
    !Before(k, [KEY_PREFIX_TX_INDEX]) && Before(k, [KEY_PREFIX_TX_INDEX + 1])
  }

  ghost predicate NoIndexKey(db: Db) {
    forall k :: k in db ==> !InIndexRange(k)
  }

  /** The key a reverse iterator starts at. */
  ghost predicate IsLastKey(db: Db, key: DbKey) {
    key in db && InIndexRange(key) && forall k :: k in db && InIndexRange(k) ==> k == key || Before(k, key)
  }

  /** The key a forward iterator starts at. */
  ghost predicate IsFirstKey(db: Db, key: DbKey) {
    key in db && InIndexRange(key) && forall k :: k in db && InIndexRange(k) ==> k == key || Before(key, k)
  }

  /** None stands for the error on a key of the wrong length. */
  method LoadLastBlock(db: Db) returns (r: Option<int>)
    ensures NoIndexKey(db) ==> r == Some(-1)
    ensures !NoIndexKey(db) ==> exists key :: IsLastKey(db, key) && r == ParseBlockNumber(key)
  {
    var best: Option<DbKey> := None;
    var todo := db.Keys;
    while todo != {}
      invariant todo <= db.Keys
      invariant best.None? ==> forall k :: k in db && k !in todo ==> !InIndexRange(k)
      invariant best.Some? ==> best.value in db && InIndexRange(best.value)
      invariant best.Some? ==> forall k :: k in db && k !in todo && InIndexRange(k) ==> k == best.value || Before(k, best.value)
      decreases todo
    {
      hide Before;
      var k :| k in todo;
      todo := todo - {k};
      if InIndexRange(k) {
        if best.None? {
          best := Some(k);
        } else {
          BeforeIsTotal(best.value, k);
          if Before(best.value, k) {
            forall x | x in db && x !in todo && InIndexRange(x) ensures x == k || Before(x, k) {
              if Before(x, best.value) { BeforeIsTransitive(x, best.value, k); }
            }
            best := Some(k);
          }
        }
      }
    }
    if best.None? { return Some(-1); }
    assert IsLastKey(db, best.value);
    return ParseBlockNumber(best.value);
  }

  method LoadFirstBlock(db: Db) returns (r: Option<int>)
    ensures NoIndexKey(db) ==> r == Some(-1)
    ensures !NoIndexKey(db) ==> exists key :: IsFirstKey(db, key) && r == ParseBlockNumber(key)
  {
    var best: Option<DbKey> := None;
    var todo := db.Keys;
    while todo != {}
      invariant todo <= db.Keys
      invariant best.None? ==> forall k :: k in db && k !in todo ==> !InIndexRange(k)
      invariant best.Some? ==> best.value in db && InIndexRange(best.value)
      invariant best.Some? ==> forall k :: k in db && k !in todo && InIndexRange(k) ==> k == best.value || Before(best.value, k)
      decreases todo
    {
      hide Before;
      var k :| k in todo;
      todo := todo - {k};
      if InIndexRange(k) {
        if best.None? {
          best := Some(k);
        } else {
          BeforeIsTotal(k, best.value);
          if Before(k, best.value) {
            forall x | x in db && x !in todo && InIndexRange(x) ensures x == k || Before(k, x) {
              if Before(best.value, x) { BeforeIsTransitive(k, best.value, x); }
            }
            best := Some(k);
          }
        }
      }
    }
    if best.None? { return Some(-1); }
    assert IsFirstKey(db, best.value);
    return ParseBlockNumber(best.value);
  }

  lemma RangeIsIndexPrefix(k: DbKey)
    ensures InIndexRange(k) <==> k != [] && k[0] == KEY_PREFIX_TX_INDEX
  {
    if k != [] {
      var lo, hi: seq<byte> := [KEY_PREFIX_TX_INDEX], [KEY_PREFIX_TX_INDEX + 1];
      assert lo[1..] == [] && hi[1..] == [] && !Before(k[1..], []);
      assert (Before(k, lo) <==> k[0] < 2) && (Before(k, hi) <==> k[0] < 3);
    }
  }

  /** An index key of the database belongs to some block's entry; hash keys are outside the range. */
  lemma IndexKeyHasBlock(bs: seq<Block>, key: DbKey) returns (b: Block, k: nat)
    requires AllCompatible(bs) && key in IndexAll(bs) && InIndexRange(key)
    ensures b in bs && k < |Entries(b)| && key == TxIndexKey(b.height, k) && FitsBlock(b)
    ensures ParseBlockNumber(key) == Some(b.height)
  {
    hide Entries, EntriesUpTo, IndexAll, Before;
    IndexAllIndexes(bs);
    b :| b in bs && KeyOfBlock(key, b);
    k :| 0 <= k < |Entries(b)| && KeyOf(key, b, k);
    RangeIsIndexPrefix(key);
    assert TxHashKey(Entries(b)[k].hash)[0] == 1;
    assert Compatible(b, b);
    HeightComesBack(b.height, k);
  }

  lemma {:induction false} BlockHasIndexKey(bs: seq<Block>, b: Block)
    requires AllCompatible(bs) && b in bs && Entries(b) != []
    ensures TxIndexKey(b.height, 0) in IndexAll(bs) && InIndexRange(TxIndexKey(b.height, 0))
  {
    hide Entries, EntriesUpTo, IndexAll, Before;
    IndexAllIndexes(bs);
    assert HoldsBlock(IndexAll(bs), b) && Holds(IndexAll(bs), b, 0);
    RangeIsIndexPrefix(TxIndexKey(b.height, 0));
  }

  /** The last load is the greatest height with an entry, the first load the least. */
  lemma {:induction false} LoadsAreExtremes(bs: seq<Block>, key: DbKey, b: Block)
    requires AllCompatible(bs) && b in bs && Entries(b) != []
    ensures !NoIndexKey(IndexAll(bs))
    ensures IsLastKey(IndexAll(bs), key) ==> exists h ::
              ParseBlockNumber(key) == Some(h) && h >= b.height && exists b' :: b' in bs && Entries(b') != [] && b'.height == h
    ensures IsFirstKey(IndexAll(bs), key) ==> exists h ::
              ParseBlockNumber(key) == Some(h) && h <= b.height && exists b' :: b' in bs && Entries(b') != [] && b'.height == h
  {
    hide Entries, EntriesUpTo, IndexAll, Before, TxIndexKey, InIndexRange;
    BlockHasIndexKey(bs, b);
    assert Compatible(b, b);
    if IsLastKey(IndexAll(bs), key) || IsFirstKey(IndexAll(bs), key) {
      var b', k := IndexKeyHasBlock(bs, key);
      TxIndexKeyOrder(b.height, 0, b'.height, k);
      TxIndexKeyOrder(b'.height, k, b.height, 0);
      if key == TxIndexKey(b.height, 0) { TxIndexKeyIsInjective(b.height, 0, b'.height, k); }
    }
  }

  /** Minus one is returned exactly when no block has an entry. */
  lemma {:induction false} NothingIndexedIff(bs: seq<Block>)
    requires AllCompatible(bs)
    ensures NoIndexKey(IndexAll(bs)) <==> forall b :: b in bs ==> Entries(b) == []
  {
    hide Entries, EntriesUpTo, IndexAll, InIndexRange, TxIndexKey;
    forall b | b in bs && Entries(b) != [] ensures !NoIndexKey(IndexAll(bs)) {
      BlockHasIndexKey(bs, b);
    }
    if !NoIndexKey(IndexAll(bs)) {
      var key :| key in IndexAll(bs) && InIndexRange(key);
      var b, k := IndexKeyHasBlock(bs, key);
    }
  }
}
