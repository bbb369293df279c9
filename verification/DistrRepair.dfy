/**
 * `repairDistrReferenceCounts`: rebuild the reference counts of historical rewards from the rows that
 * hold references, drop rows nothing refers to, and synthesise rows that are referred to but lost.
 */
module DistrRepair {
  import opened Coins
  import opened DistrStore
  import opened SyntheticRatio

  /** The historical rows of one validator, by period. */
  ghost function Rows(hist: map<Key, Historical>, v: Val): (h: History)
    ensures forall p :: p in h <==> Key(v, p) in hist
    ensures forall p :: p in h ==> h[p] == hist[Key(v, p)]
  {
    map k | k in hist && k.val == v :: k.period := hist[k]
  }

  /** The row a repair leaves at a referenced key. */
  ghost predicate RepairedRow(hist: map<Key, Historical>, refs: multiset<Key>, k: Key, row: Historical) {
    row.refs == refs[k] && IsPick(Rows(hist, k.val), k.period, row.ratio)
  }

  /** Rows exactly where there are references, counted exactly; surviving rows keep their ratio. */
  ghost predicate Repaired(hist: map<Key, Historical>, refs: multiset<Key>, hist': map<Key, Historical>) {
    && (forall k :: k in hist' <==> k in refs)
    && (forall k :: k in hist' ==> RepairedRow(hist, refs, k, hist'[k]))
  }

  // ---------------------------------------------------------------- consequences

  lemma SurvivingRowsKeepTheirRatio(hist: map<Key, Historical>, refs: multiset<Key>, hist': map<Key, Historical>, k: Key)
    requires Repaired(hist, refs, hist')
    ensures k in hist && k in hist' ==> hist'[k].ratio == hist[k].ratio
  {
    if k in hist && k in hist' {
      assert RepairedRow(hist, refs, k, hist'[k]);
      assert k.period in Rows(hist, k.val);
    }
  }

  /** The result does not depend on the order in which maps are walked. */
  lemma RepairIsDeterministic(hist: map<Key, Historical>, refs: multiset<Key>,
                              h1: map<Key, Historical>, h2: map<Key, Historical>)
    requires Repaired(hist, refs, h1) && Repaired(hist, refs, h2)
    ensures h1 == h2
  {
    forall k | k in h1 ensures h1[k] == h2[k] {
      assert RepairedRow(hist, refs, k, h1[k]) && RepairedRow(hist, refs, k, h2[k]);
      PickIsUnique(Rows(hist, k.val), k.period, h1[k].ratio, h2[k].ratio);
    }
  }

  /** A second repair changes nothing. */
  lemma RepairIsIdempotent(hist: map<Key, Historical>, refs: multiset<Key>,
                           h1: map<Key, Historical>, h2: map<Key, Historical>)
    requires Repaired(hist, refs, h1) && Repaired(h1, refs, h2)
    ensures h2 == h1
  {
    forall k | k in h2 ensures h2[k] == h1[k] {
      assert RepairedRow(h1, refs, k, h2[k]) && RepairedRow(hist, refs, k, h1[k]);
      assert k.period in Rows(h1, k.val);
    }
  }

  /** If a validator's ratios were non-decreasing, they are non-decreasing with the synthesised rows. */
  lemma RepairKeepsRatiosNonDecreasing(hist: map<Key, Historical>, refs: multiset<Key>,
                                       hist': map<Key, Historical>, v: Val)
    requires Repaired(hist, refs, hist') && NonDecreasing(Rows(hist, v))
    ensures NonDecreasing(Rows(hist', v))
  {
    var h' := Rows(hist', v);
    forall p, q | p in h' && q in h' && p <= q ensures AtMost(h'[p].ratio, h'[q].ratio) {
      assert RepairedRow(hist, refs, Key(v, p), hist'[Key(v, p)]);
      assert RepairedRow(hist, refs, Key(v, q), hist'[Key(v, q)]);
      PicksAreNonDecreasing(Rows(hist, v), p, q, h'[p].ratio, h'[q].ratio);
    }
  }

  // ---------------------------------------------------------------- counting

  const MAX_REFS: nat := 2

  /** No row is referred to more often than the SDK allows. */
  ghost predicate Capped(refs: multiset<Key>) {
    forall k :: refs[k] <= MAX_REFS
  }

  lemma CappedPart(refs: multiset<Key>, more: multiset<Key>)
    requires Capped(refs + more)
    ensures Capped(refs)
  {
    forall k ensures refs[k] <= MAX_REFS {
      assert (refs + more)[k] <= MAX_REFS;
    }
  }

  lemma {:induction false} CappedOneMore(refs: multiset<Key>, k: Key)
    requires Capped(refs)
    ensures Capped(refs + multiset{k}) <==> (refs + multiset{k})[k] <= MAX_REFS
  {
  }

  /** The `bump` closure over a list of references; false as soon as a count passes the SDK's cap. */
  method BumpAll(expected0: map<Key, nat>, ghost refs0: multiset<Key>, ks: seq<Key>)
    returns (expected: map<Key, nat>, ok: bool)
    requires Counts(expected0, refs0) && Capped(refs0)
    ensures ok <==> Capped(refs0 + multiset(ks))
    ensures ok ==> Counts(expected, refs0 + multiset(ks))
  {
    hide Counts, Capped, Bump;
    expected := expected0;
    ghost var refs := refs0;
    for i := 0 to |ks|
      invariant refs + multiset(ks[i..]) == refs0 + multiset(ks)
      invariant Counts(expected, refs) && Capped(refs)
    {
      var k := ks[i];
      assert ks[i..] == [k] + ks[i + 1..];
      CountOneMore(expected, refs, k);
      CappedOneMore(refs, k);
      expected := Bump(expected, k);
      refs := refs + multiset{k};
      if expected[k] > MAX_REFS {
        assert refs + multiset(ks[i + 1..]) == refs0 + multiset(ks);
        if Capped(refs0 + multiset(ks)) { CappedPart(refs, multiset(ks[i + 1..])); }
        return expected, false;
      }
    }
    assert refs == refs0 + multiset(ks);
    return expected, true;
  }

  // ---------------------------------------------------------------- planning and applying the mutations

  datatype Write = Write(key: Key, row: Historical)

  /** The rows outside `todo`, grouped by validator. */
  ghost predicate Grouped(hist: map<Key, Historical>, todo: set<Key>, existing: map<Val, History>) {
    && (forall v, p :: Key(v, p) in hist && Key(v, p) !in todo ==>
          v in existing && p in existing[v] && existing[v][p] == hist[Key(v, p)])
    && (forall v, p :: v in existing && p in existing[v] ==> Key(v, p) in hist && Key(v, p) !in todo)
  }

  lemma GroupOneMore(hist: map<Key, Historical>, todo: set<Key>, existing: map<Val, History>, k: Key)
    requires Grouped(hist, todo, existing) && k in hist && k in todo
    ensures Grouped(hist, todo - {k},
              existing[k.val := (if k.val in existing then existing[k.val] else map[])[k.period := hist[k]]])
  {
    assert k == Key(k.val, k.period);
  }

  lemma {:induction false} GroupedIsRows(hist: map<Key, Historical>, existing: map<Val, History>, v: Val)
    requires Grouped(hist, {}, existing)
    ensures (if v in existing then existing[v] else map[]) == Rows(hist, v)
  {
    var h := if v in existing then existing[v] else map[];
    assert forall p :: p in h <==> p in Rows(hist, v);
  }

  ghost predicate IsUpdate(hist: map<Key, Historical>, expected: map<Key, nat>, w: Write) {
    w.key in hist && w.key in expected && w.row == hist[w.key].(refs := expected[w.key])
  }

  ghost predicate AllUpdates(hist: map<Key, Historical>, expected: map<Key, nat>, ws: seq<Write>) {
    forall w :: w in ws ==> IsUpdate(hist, expected, w)
  }

  ghost predicate NeedsUpdate(hist: map<Key, Historical>, expected: map<Key, nat>, k: Key) {
    k in hist && k in expected && hist[k].refs != expected[k]
  }

  /** Walk the stored rows: which to delete, and which need another count. */
  method PlanExisting(hist: map<Key, Historical>, expected: map<Key, nat>)
    returns (existing: map<Val, History>, deletes: seq<Key>, updates: seq<Write>)
    ensures forall v :: (if v in existing then existing[v] else map[]) == Rows(hist, v)
    ensures forall k :: k in deletes <==> k in hist && k !in expected
    ensures AllUpdates(hist, expected, updates)
    ensures forall k :: NeedsUpdate(hist, expected, k) ==> Write(k, hist[k].(refs := expected[k])) in updates
  {
    existing, deletes, updates := map[], [], [];
    var todo := hist.Keys;
    assert Grouped(hist, todo, existing);
    hide Grouped;
    while todo != {}
      invariant todo <= hist.Keys
      invariant Grouped(hist, todo, existing)
      invariant forall k :: k in deletes <==> k in hist && k !in todo && k !in expected
      invariant AllUpdates(hist, expected, updates)
      invariant forall k :: NeedsUpdate(hist, expected, k) && k !in todo ==>
                  Write(k, hist[k].(refs := expected[k])) in updates
      decreases todo
    {
      var k :| k in todo;
      GroupOneMore(hist, todo, existing, k);
      todo := todo - {k};
      var rewards := hist[k];
      existing := existing[k.val := (if k.val in existing then existing[k.val] else map[])[k.period := rewards]];
      if k !in expected {
        deletes := deletes + [k];
      } else if rewards.refs != expected[k] {
        updates := updates + [Write(k, rewards.(refs := expected[k]))];
      }
    }
    forall v { GroupedIsRows(hist, existing, v); }
  }

  /** Walk the references: which rows must be synthesised. */
  method PlanCreates(hist: map<Key, Historical>, expected: map<Key, nat>, existing: map<Val, History>)
    returns (creates: seq<Write>)
    requires forall v :: (if v in existing then existing[v] else map[]) == Rows(hist, v)
    ensures AllCreates(hist, expected, creates)
    ensures forall k :: k in expected && k !in hist ==> Writes(creates, k)
  {
    creates := [];
    var todo := expected.Keys;
    while todo != {}
      invariant todo <= expected.Keys
      invariant AllCreates(hist, expected, creates)
      invariant forall k :: k in expected && k !in todo && k !in hist ==> Writes(creates, k)
      decreases todo
    {
      var k :| k in todo;
      todo := todo - {k};
      if k !in hist {
        var ratio := PickSyntheticHistoricalRatio(if k.val in existing then existing[k.val] else map[], k.period);
        creates := creates + [Write(k, Historical(ratio, expected[k]))];
      }
    }
  }

  ghost predicate Writes(ws: seq<Write>, k: Key) {
    exists w :: w in ws && w.key == k
  }

  method SetAll(hist0: map<Key, Historical>, ws: seq<Write>) returns (hist: map<Key, Historical>)
    ensures Written(hist0, ws, hist)
  {
    hist := hist0;
    for i := 0 to |ws|
      invariant Written(hist0, ws[..i], hist)
    {
      hist := hist[ws[i].key := ws[i].row];
      assert ws[..i + 1] == ws[..i] + [ws[i]];
    }
    assert ws[..|ws|] == ws;
  }

  ghost predicate IsCreate(hist: map<Key, Historical>, expected: map<Key, nat>, w: Write) {
    && w.key in expected && w.key !in hist && w.row.refs == expected[w.key]
    && IsPick(Rows(hist, w.key.val), w.key.period, w.row.ratio)
  }

  ghost predicate AllCreates(hist: map<Key, Historical>, expected: map<Key, nat>, ws: seq<Write>) {
    forall w :: w in ws ==> IsCreate(hist, expected, w)
  }

  lemma CreateOf(hist: map<Key, Historical>, expected: map<Key, nat>, ws: seq<Write>, w: Write)
    requires AllCreates(hist, expected, ws) && w in ws
    ensures IsCreate(hist, expected, w)
  {
  }

  ghost predicate KeysIn(ws: seq<Write>, keys: set<Key>) {
    forall w :: w in ws ==> w.key in keys
  }

  /** `h'` is `h` with the writes applied. */
  ghost predicate Written(h: map<Key, Historical>, ws: seq<Write>, h': map<Key, Historical>) {
    && (forall k :: k in h' <==> k in h || Writes(ws, k))
    && (forall k :: k in h' && !Writes(ws, k) ==> h'[k] == h[k])
    && (forall k :: k in h' && Writes(ws, k) ==> Write(k, h'[k]) in ws)
  }

  /** Delete, then create, then update: together that is the repair. */
  lemma PlanIsRepair(hist: map<Key, Historical>, refs: multiset<Key>, expected: map<Key, nat>,
                     kept: map<Key, Historical>, creates: seq<Write>, h1: map<Key, Historical>,
                     updates: seq<Write>, h2: map<Key, Historical>)
    requires Counts(expected, refs)
    requires forall k :: k in kept <==> k in hist && k in expected
    requires forall k :: k in kept ==> kept[k] == hist[k]
    requires AllCreates(hist, expected, creates)
    requires forall k :: k in expected && k !in hist ==> Writes(creates, k)
    requires Written(kept, creates, h1)
    requires AllUpdates(hist, expected, updates)
    requires forall k :: NeedsUpdate(hist, expected, k) ==> Write(k, hist[k].(refs := expected[k])) in updates
    requires Written(h1, updates, h2)
    ensures Repaired(hist, refs, h2)
  {
    hide Rows, IsPick, Written, Writes, AllUpdates, AllCreates, NeedsUpdate, KeysIn;
    PlannedKeys(hist, expected, creates, updates);
    forall k | k in expected ensures k in h2 && RepairedRow(hist, refs, k, h2[k]) {
      if k in hist {
        NoOldRowIsCreated(hist, expected, creates, k);
        OldRowIsRepaired(hist, expected, kept, creates, h1, updates, h2, k);
        OwnRowIsPick(Rows(hist, k.val), k.period);
      } else {
        NewRowIsCreated(hist, kept, creates, h1, updates, h2, k);
        CreateOf(hist, expected, creates, Write(k, h2[k]));
      }
    }
    forall k | k in h2 ensures k in expected {
      RowIsExpected(expected, kept, creates, h1, updates, h2, k);
    }
  }

  lemma PlannedKeys(hist: map<Key, Historical>, expected: map<Key, nat>, creates: seq<Write>, updates: seq<Write>)
    requires AllCreates(hist, expected, creates) && AllUpdates(hist, expected, updates)
    ensures KeysIn(creates, expected.Keys) && KeysIn(updates, expected.Keys) && KeysIn(updates, hist.Keys)
  {
    hide Rows, IsPick;
  }

  lemma NoOldRowIsCreated(hist: map<Key, Historical>, expected: map<Key, nat>, creates: seq<Write>, k: Key)
    requires AllCreates(hist, expected, creates) && k in hist
    ensures !Writes(creates, k)
  {
    hide Rows, IsPick;
  }

  lemma RowIsExpected(expected: map<Key, nat>, kept: map<Key, Historical>, creates: seq<Write>,
                      h1: map<Key, Historical>, updates: seq<Write>, h2: map<Key, Historical>, k: Key)
    requires k in kept ==> k in expected
    requires KeysIn(creates, expected.Keys) && KeysIn(updates, expected.Keys)
    requires Written(kept, creates, h1) && Written(h1, updates, h2) && k in h2
    ensures k in expected
  {
    assert Writes(updates, k) ==> Write(k, h2[k]) in updates;
    assert Writes(creates, k) ==> Write(k, h1[k]) in creates;
  }

  /** A row that is referred to and was lost is synthesised. */
  lemma NewRowIsCreated(hist: map<Key, Historical>, kept: map<Key, Historical>, creates: seq<Write>,
                        h1: map<Key, Historical>, updates: seq<Write>, h2: map<Key, Historical>, k: Key)
    requires k !in hist && Writes(creates, k) && KeysIn(updates, hist.Keys)
    requires Written(kept, creates, h1) && Written(h1, updates, h2)
    ensures k in h2 && Write(k, h2[k]) in creates
  {
    assert !Writes(updates, k) && k in h1;
  }

  /** A row that was there and is referred to keeps its ratio and gets its count. */
  lemma OldRowIsRepaired(hist: map<Key, Historical>, expected: map<Key, nat>,
                         kept: map<Key, Historical>, creates: seq<Write>, h1: map<Key, Historical>,
                         updates: seq<Write>, h2: map<Key, Historical>, k: Key)
    requires k in hist && k in expected && k in kept && kept[k] == hist[k]
    requires !Writes(creates, k) && AllUpdates(hist, expected, updates)
    requires NeedsUpdate(hist, expected, k) ==> Write(k, hist[k].(refs := expected[k])) in updates
    requires Written(kept, creates, h1) && Written(h1, updates, h2)
    ensures k in h2 && h2[k] == hist[k].(refs := expected[k])
  {
    if NeedsUpdate(hist, expected, k) { assert Writes(updates, k); }
    if Writes(updates, k) { assert IsUpdate(hist, expected, Write(k, h2[k])); }
  }

  lemma OwnRowIsPick(h: History, p: nat)
    requires p in h
    ensures IsPick(h, p, h[p].ratio)
  {
  }

  class DistrKeeper {
    var historical: map<Key, Historical>
    var current: seq<Current>
    var starting: seq<Starting>
    var slashes: seq<Slash>

    ghost function Refs(): (refs: multiset<Key>)
      reads this
    {
      multiset(References(current, starting, slashes))
    }

    /** The rows that refer to a historical row, counted one by one. */
    ghost function Referrers(k: Key): (n: nat)
      reads this
      ensures n == Refs()[k]
    {
      ReferencesCount(current, starting, slashes, k);
      DistrStore.Referrers(current, starting, slashes, k)
    }

    lemma CappedIff()
      ensures Capped(Refs()) <==> forall k :: Referrers(k) <= 2
    {
      if k :| Refs()[k] > MAX_REFS { assert Referrers(k) > 2; }
    }

    method CountReferences() returns (expected: map<Key, nat>, ok: bool)
      ensures ok <==> Capped(Refs())
      ensures ok ==> Counts(expected, Refs())
      ensures ok <==> forall k :: Referrers(k) <= 2
      ensures ok ==> forall k :: if Referrers(k) > 0 then k in expected && expected[k] == Referrers(k) else k !in expected
    {
      var a, b, c := CurrentRefs(current), StartingRefs(starting), SlashRefs(slashes);
      ghost var ab := multiset(a) + multiset(b);
      assert Refs() == ab + multiset(c);
      assert multiset{} + multiset(a) == multiset(a);
      expected, ok := BumpAll(map[], multiset{}, a);
      if !ok {
        if Capped(Refs()) { CappedPart(ab, multiset(c)); CappedPart(multiset(a), multiset(b)); }
        CappedIff();
        return;
      }
      expected, ok := BumpAll(expected, multiset(a), b);
      if !ok {
        if Capped(Refs()) { CappedPart(ab, multiset(c)); }
        CappedIff();
        return;
      }
      expected, ok := BumpAll(expected, ab, c);
      CappedIff();
    }

    /** False is the error for a count above the cap; nothing has been written then. */
    method RepairDistrReferenceCounts() returns (ok: bool)
      modifies this`historical
      ensures ok <==> Capped(Refs())
      ensures ok ==> Repaired(old(historical), Refs(), historical)
      ensures !ok ==> historical == old(historical)
      ensures ok <==> forall k :: Referrers(k) <= 2
      ensures ok ==> forall k :: if Referrers(k) > 0 then k in historical && historical[k].refs == Referrers(k)
                                 else k !in historical
    {
      var expected;
      expected, ok := CountReferences();
      if !ok { return; }
      var existing, deletes, updates := PlanExisting(historical, expected);
      var creates := PlanCreates(historical, expected, existing);
      var kept := DeleteAll(historical, deletes);
      var created := SetAll(kept, creates);
      var updated := SetAll(created, updates);
      PlanIsRepair(historical, Refs(), expected, kept, creates, created, updates, updated);
      ghost var refs := Refs();
      assert forall k :: Referrers(k) == refs[k];
      historical := updated;
      assert forall k :: Referrers(k) == refs[k];
    }
  }

  method DeleteAll(hist0: map<Key, Historical>, ks: seq<Key>) returns (hist: map<Key, Historical>)
    ensures forall k :: k in hist <==> k in hist0 && k !in ks
    ensures forall k :: k in hist ==> hist[k] == hist0[k]
  {
    hist := hist0;
    for i := 0 to |ks|
      invariant forall k :: k in hist <==> k in hist0 && k !in ks[..i]
      invariant forall k :: k in hist ==> hist[k] == hist0[k]
    {
      hist := hist - {ks[i]};
    }
  }
}
