/** Sums over finite maps. */
module MapSum {

  ghost function Total(p: map<nat, int>): (sum: int) {
    if p == map[] then 0 else var n :| n in p; p[n] + Total(p - {n})
  }

  lemma {:induction false} TotalSplit(p: map<nat, int>, n: nat)
    requires n in p
    ensures Total(p) == p[n] + Total(p - {n})
    decreases |p|
  {
    var m :| m in p && Total(p) == p[m] + Total(p - {m});
    if m != n {
      TotalSplit(p - {m}, n);
      TotalSplit(p - {n}, m);
      assert p - {m} - {n} == p - {n} - {m};
    }
  }

  lemma TotalAfterInsert(p: map<nat, int>, n: nat, x: int)
    ensures Total(p[n := x]) == Total(p) + x - if n in p then p[n] else 0
  {
    var q := p[n := x];
    TotalSplit(q, n);
    if n in p {
      TotalSplit(p, n);
      assert q - {n} == p - {n};
    } else {
      assert q - {n} == p;
    }
  }

  lemma {:induction false} TotalNonNegative(p: map<nat, int>)
    requires forall n :: n in p ==> p[n] >= 0
    ensures Total(p) >= 0
    decreases |p|
  {
    if p != map[] {
      var m :| m in p && Total(p) == p[m] + Total(p - {m});
      TotalNonNegative(p - {m});
    }
  }
}
