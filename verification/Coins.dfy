/** `sdk.DecCoins` and `sdk.Coins` as amounts per denomination. */
module Coins {

  /** Amounts in units of 10^-18; as in the SDK, a denomination is listed only when its amount is positive. */
  type DecCoins = m: map<string, nat> | forall d :: d in m ==> m[d] > 0 witness map[]

  /** Whole-unit amounts, under the same rule. */
  type Coins = m: map<string, nat> | forall d :: d in m ==> m[d] > 0 witness map[]

  const PRECISION: nat := 1_000_000_000_000_000_000

  function Amount(c: map<string, nat>, d: string): (n: nat) {
    if d in c then c[d] else 0
  }

  function Add(a: DecCoins, b: DecCoins): (c: DecCoins)
    ensures forall d :: Amount(c, d) == Amount(a, d) + Amount(b, d)
  {
    map d | d in a.Keys + b.Keys :: Amount(a, d) + Amount(b, d)
  }

  /** `TruncateDecimal`: whole units, dropping denominations that hold less than one. */
  function Truncate(c: DecCoins): (t: Coins)
    ensures forall d :: Amount(t, d) == Amount(c, d) / PRECISION
  {
    map d | d in c && c[d] / PRECISION > 0 :: c[d] / PRECISION
  }

  ghost predicate AtMost(a: map<string, nat>, b: map<string, nat>) {
    forall d :: Amount(a, d) <= Amount(b, d)
  }

  /** Coins are determined by their amounts. */
  lemma SameAmounts(a: DecCoins, b: DecCoins)
    requires forall d :: Amount(a, d) == Amount(b, d)
    ensures a == b
  {
    assert forall d :: d in a ==> Amount(a, d) > 0;
    assert forall d :: d in b ==> Amount(b, d) > 0;
    assert a.Keys == b.Keys;
    assert forall d :: d in a ==> a[d] == Amount(a, d) == Amount(b, d) == b[d];
  }
}
