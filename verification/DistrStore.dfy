/** The x/distribution rows that hold or are held by historical-reward references. */
module DistrStore {
  import opened Coins

  type Val = nat
  type Del = nat

  datatype Key = Key(val: Val, period: nat)

  datatype Historical = Historical(ratio: DecCoins, refs: nat)

  datatype Current = Current(val: Val, period: nat)

  datatype Starting = Starting(val: Val, del: Del, previousPeriod: nat)

  /** `period` is part of the row's key, `validatorPeriod` of its value. */
  datatype Slash = Slash(val: Val, height: nat, period: nat, validatorPeriod: nat)

  /** Current rewards refer to the period before their own; period 0 refers to nothing. */
  function CurrentRefs(rows: seq<Current>): (ks: seq<Key>) {
    if rows == [] then []
    else
      var n := |rows| - 1;
      if rows[n].period > 0 then CurrentRefs(rows[..n]) + [Key(rows[n].val, rows[n].period - 1)]
      else CurrentRefs(rows[..n])
  }

  function StartingRefs(rows: seq<Starting>): (ks: seq<Key>)
    ensures |ks| == |rows|
  {
    seq(|rows|, i requires 0 <= i < |rows| => Key(rows[i].val, rows[i].previousPeriod))
  }

  function SlashRefs(rows: seq<Slash>): (ks: seq<Key>)
    ensures |ks| == |rows|
  {
    seq(|rows|, i requires 0 <= i < |rows| => Key(rows[i].val, rows[i].validatorPeriod))
  }

  /** Every reference to a historical row, one entry per reference. */
  ghost function References(current: seq<Current>, starting: seq<Starting>, slashes: seq<Slash>): (ks: seq<Key>) {
    CurrentRefs(current) + StartingRefs(starting) + SlashRefs(slashes)
  }

  /** A counter map holds exactly the multiplicities. */
  ghost predicate Counts(expected: map<Key, nat>, refs: multiset<Key>) {
    (forall k :: k in expected <==> k in refs) && (forall k :: k in expected ==> expected[k] == refs[k])
  }

  /** One more reference counted. */
  function Bump(m: map<Key, nat>, k: Key): (r: map<Key, nat>) {
    m[k := (if k in m then m[k] else 0) + 1]
  }

  lemma {:induction false} CountOneMore(m: map<Key, nat>, refs: multiset<Key>, k: Key)
    requires Counts(m, refs)
    ensures Counts(Bump(m, k), refs + multiset{k}) && k in Bump(m, k) && Bump(m, k)[k] == (refs + multiset{k})[k]
  {
  }

  lemma {:induction false} CurrentRefsIff(rows: seq<Current>, k: Key)
    ensures k in CurrentRefs(rows) <==> exists i :: 0 <= i < |rows| && rows[i] == Current(k.val, k.period + 1)
  {
    if rows != [] {
      var n := |rows| - 1;
      CurrentRefsIff(rows[..n], k);
      if i :| 0 <= i < n && rows[..n][i] == Current(k.val, k.period + 1) {
        assert rows[i] == Current(k.val, k.period + 1);
      }
      if i :| 0 <= i < n && rows[i] == Current(k.val, k.period + 1) {
        assert rows[..n][i] == Current(k.val, k.period + 1);
      }
    }
  }

  // ---------------------------------------------------------------- references, row by row

  // The rows, by index, that refer to a historical row.

  ghost function CurrentReferrers(rows: seq<Current>, k: Key): (rs: set<int>) {
    set i | 0 <= i < |rows| && rows[i].val == k.val && rows[i].period == k.period + 1
  }

  ghost function StartingReferrers(rows: seq<Starting>, k: Key): (rs: set<int>) {
    set i | 0 <= i < |rows| && rows[i].val == k.val && rows[i].previousPeriod == k.period
  }

  ghost function SlashReferrers(rows: seq<Slash>, k: Key): (rs: set<int>) {
    set i | 0 <= i < |rows| && rows[i].val == k.val && rows[i].validatorPeriod == k.period
  }

  /** How many rows refer to a historical row: the period before the current one, starting rows and slashes. */
  ghost function Referrers(current: seq<Current>, starting: seq<Starting>, slashes: seq<Slash>, k: Key): (n: nat) {
    |CurrentReferrers(current, k)| + |StartingReferrers(starting, k)| + |SlashReferrers(slashes, k)|
  }

  lemma {:induction false} CurrentReferrersGrow(rows: seq<Current>, k: Key)
    requires rows != []
    ensures var n := |rows| - 1;
            |CurrentReferrers(rows, k)| == |CurrentReferrers(rows[..n], k)| + if rows[n].val == k.val && rows[n].period == k.period + 1 then 1 else 0
  {
    var n := |rows| - 1;
    var before := CurrentReferrers(rows[..n], k);
    if rows[n].val == k.val && rows[n].period == k.period + 1 {
      assert CurrentReferrers(rows, k) == before + {n};
    } else {
      assert CurrentReferrers(rows, k) == before;
    }
  }

  lemma {:induction false} CurrentRefsCount(rows: seq<Current>, k: Key)
    ensures multiset(CurrentRefs(rows))[k] == |CurrentReferrers(rows, k)|
  {
    hide CurrentReferrers;
    if rows == [] {
      assert CurrentReferrers(rows, k) == {} by { NoCurrentReferrers(k); }
    } else {
      var n := |rows| - 1;
      CurrentRefsCount(rows[..n], k);
      CurrentReferrersGrow(rows, k);
      var last := if rows[n].period > 0 then [Key(rows[n].val, rows[n].period - 1)] else [];
      assert CurrentRefs(rows) == CurrentRefs(rows[..n]) + last;
      assert multiset(last)[k] == if rows[n].val == k.val && rows[n].period == k.period + 1 then 1 else 0;
    }
  }

  lemma {:induction false} NoCurrentReferrers(k: Key)
    ensures CurrentReferrers([], k) == {}
  {
  }

  lemma {:induction false} StartingReferrersGrow(rows: seq<Starting>, k: Key)
    requires rows != []
    ensures var n := |rows| - 1;
            |StartingReferrers(rows, k)| == |StartingReferrers(rows[..n], k)| + if rows[n].val == k.val && rows[n].previousPeriod == k.period then 1 else 0
  {
    var n := |rows| - 1;
    var before := StartingReferrers(rows[..n], k);
    if rows[n].val == k.val && rows[n].previousPeriod == k.period {
      assert StartingReferrers(rows, k) == before + {n};
    } else {
      assert StartingReferrers(rows, k) == before;
    }
  }

  lemma {:induction false} StartingRefsCount(rows: seq<Starting>, k: Key)
    ensures multiset(StartingRefs(rows))[k] == |StartingReferrers(rows, k)|
  {
    hide StartingReferrers;
    if rows == [] {
      assert StartingReferrers(rows, k) == {} by { NoStartingReferrers(k); }
    } else {
      var n := |rows| - 1;
      StartingRefsCount(rows[..n], k);
      StartingReferrersGrow(rows, k);
      assert StartingRefs(rows) == StartingRefs(rows[..n]) + [Key(rows[n].val, rows[n].previousPeriod)];
    }
  }

  lemma {:induction false} NoStartingReferrers(k: Key)
    ensures StartingReferrers([], k) == {}
  {
  }

  lemma {:induction false} SlashReferrersGrow(rows: seq<Slash>, k: Key)
    requires rows != []
    ensures var n := |rows| - 1;
            |SlashReferrers(rows, k)| == |SlashReferrers(rows[..n], k)| + if rows[n].val == k.val && rows[n].validatorPeriod == k.period then 1 else 0
  {
    var n := |rows| - 1;
    var before := SlashReferrers(rows[..n], k);
    if rows[n].val == k.val && rows[n].validatorPeriod == k.period {
      assert SlashReferrers(rows, k) == before + {n};
    } else {
      assert SlashReferrers(rows, k) == before;
    }
  }

  lemma {:induction false} SlashRefsCount(rows: seq<Slash>, k: Key)
    ensures multiset(SlashRefs(rows))[k] == |SlashReferrers(rows, k)|
  {
    hide SlashReferrers;
    if rows == [] {
      assert SlashReferrers(rows, k) == {} by { NoSlashReferrers(k); }
    } else {
      var n := |rows| - 1;
      SlashRefsCount(rows[..n], k);
      SlashReferrersGrow(rows, k);
      assert SlashRefs(rows) == SlashRefs(rows[..n]) + [Key(rows[n].val, rows[n].validatorPeriod)];
    }
  }

  lemma {:induction false} NoSlashReferrers(k: Key)
    ensures SlashReferrers([], k) == {}
  {
  }

  /** A historical row has as many references as there are rows that refer to it. */
  lemma {:induction false} ReferencesCount(current: seq<Current>, starting: seq<Starting>, slashes: seq<Slash>, k: Key)
    ensures multiset(References(current, starting, slashes))[k] == Referrers(current, starting, slashes, k)
  {
    hide CurrentRefs, StartingRefs, SlashRefs, CurrentReferrers, StartingReferrers, SlashReferrers;
    CurrentRefsCount(current, k);
    StartingRefsCount(starting, k);
    SlashRefsCount(slashes, k);
    assert multiset(References(current, starting, slashes))
           == multiset(CurrentRefs(current)) + multiset(StartingRefs(starting)) + multiset(SlashRefs(slashes));
  }
}
