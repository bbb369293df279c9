/** `pickSyntheticHistoricalRatio`: the cumulative ratio given to a historical row that was lost. */
module SyntheticRatio {
  import opened Coins
  import opened DistrStore

  type History = map<nat, Historical>

  ghost predicate NearestLater(h: History, t: nat, p: nat) {
    p in h && p > t && forall q :: q in h && q > t ==> p <= q
  }

  ghost predicate NearestEarlier(h: History, t: nat, p: nat) {
    p in h && p < t && forall q :: q in h && q < t ==> q <= p
  }

  ghost predicate HasLater(h: History, t: nat) {
    exists p :: p in h && p > t
  }

  /** The period's own ratio, else the nearest later one, else the nearest earlier one, else nothing. */
  ghost predicate IsPick(h: History, t: nat, r: DecCoins) {
    if t in h then r == h[t].ratio
    else if HasLater(h, t) then exists p :: NearestLater(h, t, p) && r == h[p].ratio
    else if h != map[] then exists p :: NearestEarlier(h, t, p) && r == h[p].ratio
    else r == map[]
  }

  lemma PickIsUnique(h: History, t: nat, r: DecCoins, r': DecCoins)
    requires IsPick(h, t, r) && IsPick(h, t, r')
    ensures r == r'
  {
    if t !in h && HasLater(h, t) {
      var p :| NearestLater(h, t, p) && r == h[p].ratio;
      var p' :| NearestLater(h, t, p') && r' == h[p'].ratio;
      assert p == p';
    } else if t !in h && h != map[] {
      var p :| NearestEarlier(h, t, p) && r == h[p].ratio;
      var p' :| NearestEarlier(h, t, p') && r' == h[p'].ratio;
      assert p == p';
    }
  }

  method PickSyntheticHistoricalRatio(history: History, target: nat) returns (ratio: DecCoins)
    ensures IsPick(history, target, ratio)
  {
    ratio := map[];
    if |history| == 0 {
      return;
    }
    if target in history {
      return history[target].ratio;
    }
    var higherFound, higherPeriod, lowerFound, lowerPeriod := false, 0, false, 0;
    var todo := history.Keys;
    while todo != {}
      invariant todo <= history.Keys
      invariant higherFound ==> higherPeriod in history && higherPeriod > target
      invariant lowerFound ==> lowerPeriod in history && lowerPeriod < target
      invariant forall q :: q in history && q !in todo && q > target ==> higherFound && higherPeriod <= q
      invariant forall q :: q in history && q !in todo && q < target ==> lowerFound && q <= lowerPeriod
      decreases todo
    {
      var period :| period in todo;
      todo := todo - {period};
      if period > target {
        if !higherFound || period < higherPeriod {
          higherFound, higherPeriod := true, period;
        }
      }
      if period < target {
        if !lowerFound || period > lowerPeriod {
          lowerFound, lowerPeriod := true, period;
        }
      }
    }
    if higherFound {
      assert NearestLater(history, target, higherPeriod);
      return history[higherPeriod].ratio;
    }
    if lowerFound {
      assert NearestEarlier(history, target, lowerPeriod);
      return history[lowerPeriod].ratio;
    }
    assert false;   // a non-empty history without the target has a period on one side of it
  }

  // ---------------------------------------------------------------- what the choice guarantees

  /** Cumulative ratios never fall from one period to a later one. */
  ghost predicate NonDecreasing(h: History) {
    forall p, q :: p in h && q in h && p <= q ==> AtMost(h[p].ratio, h[q].ratio)
  }

  /** Filling in lost periods keeps the ratios non-decreasing. */
  lemma PicksAreNonDecreasing(h: History, t: nat, u: nat, r: DecCoins, r': DecCoins)
    requires NonDecreasing(h) && t <= u && IsPick(h, t, r) && IsPick(h, u, r')
    ensures AtMost(r, r')
  {
    var p := PickedPeriod(h, t, r);
    var q := PickedPeriod(h, u, r');
    if h != map[] {
      assert p <= q;
    }
  }

  /** The period whose ratio was picked. */
  lemma PickedPeriod(h: History, t: nat, r: DecCoins) returns (p: nat)
    requires IsPick(h, t, r)
    ensures h == map[] ==> r == map[]
    ensures h != map[] ==> p in h && r == h[p].ratio
    ensures t in h ==> p == t
    ensures t !in h && HasLater(h, t) ==> NearestLater(h, t, p)
    ensures t !in h && h != map[] && !HasLater(h, t) ==> NearestEarlier(h, t, p)
  {
    p := t;
    if t !in h && HasLater(h, t) {
      p :| NearestLater(h, t, p) && r == h[p].ratio;
    } else if t !in h && h != map[] {
      p :| NearestEarlier(h, t, p) && r == h[p].ratio;
    }
  }

  /** `lost` could have been the ratio of the lost period `t`. */
  ghost predicate Consistent(h: History, t: nat, lost: DecCoins) {
    forall p :: p in h ==> (p <= t ==> AtMost(h[p].ratio, lost)) && (p >= t ==> AtMost(lost, h[p].ratio))
  }

  /** Rewards are paid on the difference between an end ratio and the start ratio. */
  ghost predicate NeverOverpays(h: History, t: nat, r: DecCoins) {
    forall lost: DecCoins, end: DecCoins, d :: Consistent(h, t, lost) && AtMost(lost, end) ==>
      Amount(end, d) - Amount(r, d) <= Amount(end, d) - Amount(lost, d)
  }

  /**
   * The comment on the function promises under-counting. That holds for every ratio the lost row can
   * have had exactly when the period itself or a later one survives.
   */
  lemma NeverOverpaysIff(h: History, t: nat, r: DecCoins)
    requires NonDecreasing(h) && IsPick(h, t, r)
    ensures NeverOverpays(h, t, r) <==> t in h || HasLater(h, t)
  {
    hide IsPick;
    if t in h || HasLater(h, t) {
      var p := PickedPeriod(h, t, r);
      forall lost: DecCoins, end: DecCoins, d | Consistent(h, t, lost) && AtMost(lost, end)
        ensures Amount(end, d) - Amount(r, d) <= Amount(end, d) - Amount(lost, d)
      {
        assert AtMost(lost, h[p].ratio);
      }
    } else {
      LostRatioCanBeHigher(h, t, r);
    }
  }

  /** Without a later row, the lost ratio can have been above the picked one. */
  lemma LostRatioCanBeHigher(h: History, t: nat, r: DecCoins)
    requires NonDecreasing(h) && IsPick(h, t, r) && t !in h && !HasLater(h, t)
    ensures !NeverOverpays(h, t, r)
  {
    hide IsPick;
    var lost: DecCoins := Add(r, map["x" := 1]);
    var q := PickedPeriod(h, t, r);
    forall p | p in h ensures p < t && AtMost(h[p].ratio, lost) {
      assert AtMost(h[p].ratio, h[q].ratio);
    }
    assert Consistent(h, t, lost);
    assert Amount(lost, "x") == Amount(r, "x") + 1;
    assert AtMost(lost, lost);
  }
}
