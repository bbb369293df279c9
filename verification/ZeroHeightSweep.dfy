/**
 * The distribution reset of `prepForZeroHeightGenesis` - sweep all outstanding rewards to the community
 * pool, then delete every per-validator and per-delegator row - and the bank balance check of genesis
 * validation that the swept state must still pass.
 */
module ZeroHeightSweep {
  import opened Coins
  import opened DistrStore

  datatype Outstanding = Outstanding(val: Val, rewards: DecCoins)

  datatype Balance = Balance(address: string, coins: Coins)

  /** What the distribution module owes in one denomination. */
  ghost function Owed(pool: DecCoins, rows: seq<Outstanding>, d: string): (n: nat) {
    if rows == [] then Amount(pool, d)
    else Owed(pool, rows[..|rows| - 1], d) + Amount(rows[|rows| - 1].rewards, d)
  }

  lemma {:induction false} OwedShifts(pool: DecCoins, more: DecCoins, rows: seq<Outstanding>, d: string)
    ensures Owed(Add(pool, more), rows, d) == Owed(pool, rows, d) + Amount(more, d)
  {
    if rows != [] {
      OwedShifts(pool, more, rows[..|rows| - 1], d);
    }
  }

  /** `sum` is, in every denomination, what the pool and the rows owe together. */
  ghost predicate IsOwed(sum: DecCoins, pool: DecCoins, rows: seq<Outstanding>) {
    forall d :: Amount(sum, d) == Owed(pool, rows, d)
  }

  lemma {:induction false} OwedOneMore(sum: DecCoins, pool: DecCoins, rows: seq<Outstanding>, i: nat)
    requires i < |rows| && IsOwed(sum, pool, rows[..i])
    ensures IsOwed(Add(sum, rows[i].rewards), pool, rows[..i + 1])
  {
    assert rows[..i + 1][..i] == rows[..i];
  }

  /** Step 1: add every outstanding reward to the pool, remembering whose it was. */
  method SweepRows(pool0: DecCoins, rows: seq<Outstanding>) returns (pool: DecCoins, swept: set<Val>)
    ensures IsOwed(pool, pool0, rows)
    ensures forall k :: 0 <= k < |rows| ==> rows[k].val in swept
  {
    pool, swept := pool0, {};
    assert IsOwed(pool0, pool0, rows[..0]);
    hide IsOwed, Add;
    for i := 0 to |rows|
      invariant IsOwed(pool, pool0, rows[..i])
      invariant forall k :: 0 <= k < i ==> rows[k].val in swept
    {
      OwedOneMore(pool, pool0, rows, i);
      pool := Add(pool, rows[i].rewards);
      swept := swept + {rows[i].val};
    }
    assert rows[..|rows|] == rows;
  }

  class DistrModule {
    var communityPool: DecCoins
    var outstanding: seq<Outstanding>
    var currentRewards: map<Val, nat>
    var commissions: map<Val, DecCoins>
    var historical: map<Key, Historical>
    var slashes: seq<Slash>
    var startingInfos: map<(Val, Del), nat>

    /** Nothing but the community pool is left, and it holds exactly what was owed before. */
    method ResetDistribution()
      modifies this
      ensures IsOwed(communityPool, old(communityPool), old(outstanding))
      ensures outstanding == [] && currentRewards == map[] && commissions == map[]
      ensures historical == map[] && slashes == [] && startingInfos == map[]
    {
      var pool, swept := SweepRows(communityPool, outstanding);
      communityPool := pool;
      outstanding := DeleteRows(outstanding, swept);
      currentRewards := currentRewards - currentRewards.Keys;
      commissions := commissions - commissions.Keys;
      historical, slashes := map[], [];
      startingInfos := startingInfos - startingInfos.Keys;
    }
  }

  function DeleteRows(rows: seq<Outstanding>, vals: set<Val>): (r: seq<Outstanding>)
    ensures (forall k :: 0 <= k < |rows| ==> rows[k].val in vals) ==> r == []
  {
    if rows == [] then []
    else if rows[0].val in vals then DeleteRows(rows[1..], vals)
    else [rows[0]] + DeleteRows(rows[1..], vals)
  }

  // ---------------------------------------------------------------- the bank check

  /** The coins of the first balance with the given address; none if there is no such balance. */
  function FirstBalance(bank: seq<Balance>, address: string): (c: Coins) {
    if bank == [] then map[]
    else if bank[0].address == address then bank[0].coins
    else FirstBalance(bank[1..], address)
  }

  /** The module account holds the whole units of what distribution owes, in every denomination. */
  ghost predicate BankMatches(bank: seq<Balance>, address: string, pool: DecCoins, rows: seq<Outstanding>) {
    forall d :: Amount(FirstBalance(bank, address), d) == Owed(pool, rows, d) / PRECISION
  }

  /** The loop over the balances. */
  method FindBalance(bank: seq<Balance>, address: string) returns (actual: Coins)
    ensures actual == FirstBalance(bank, address)
  {
    actual := map[];
    var j := 0;
    while j < |bank|
      invariant 0 <= j <= |bank| && actual == map[]
      invariant FirstBalance(bank, address) == FirstBalance(bank[j..], address)
    {
      if bank[j].address == address {
        actual := bank[j].coins;
        break;
      }
      j := j + 1;
    }
  }

  method CheckBankDistribution(bank: seq<Balance>, address: string, pool: DecCoins, rows: seq<Outstanding>)
    returns (ok: bool)
    ensures ok <==> BankMatches(bank, address, pool, rows)
  {
    var holdings: DecCoins := map[];
    assert IsOwed(map[], map[], rows[..0]);
    hide IsOwed, Add, Truncate, BankMatches;
    for i := 0 to |rows|
      invariant IsOwed(holdings, map[], rows[..i])
    {
      OwedOneMore(holdings, map[], rows, i);
      holdings := Add(holdings, rows[i].rewards);
    }
    assert rows[..|rows|] == rows;
    PoolOnTop(holdings, pool, rows);
    holdings := Add(holdings, pool);
    var expected := Truncate(holdings);
    var actual := FindBalance(bank, address);
    MatchIsEquality(bank, address, pool, rows, holdings);
    ok := actual == expected;
  }

  /** Adding the pool last owes the same as starting from it. */
  lemma PoolOnTop(sum: DecCoins, pool: DecCoins, rows: seq<Outstanding>)
    requires IsOwed(sum, map[], rows)
    ensures IsOwed(Add(sum, pool), pool, rows)
  {
    SameAmounts(Add(map[], pool), pool);
    forall d ensures Amount(Add(sum, pool), d) == Owed(pool, rows, d) {
      OwedShifts(map[], pool, rows, d);
    }
  }

  lemma {:induction false} MatchIsEquality(bank: seq<Balance>, address: string, pool: DecCoins, rows: seq<Outstanding>, sum: DecCoins)
    requires IsOwed(sum, pool, rows)
    ensures BankMatches(bank, address, pool, rows) <==> FirstBalance(bank, address) == Truncate(sum)
  {
    hide FirstBalance, Owed;
    var actual, expected := FirstBalance(bank, address), Truncate(sum);
    if BankMatches(bank, address, pool, rows) {
      forall d ensures Amount(actual, d) == Amount(expected, d) {
        assert Amount(sum, d) == Owed(pool, rows, d);
      }
      SameAmounts(actual, expected);
    }
  }

  /**
   * The sweep conserves what is owed in every denomination, so with the empty outstanding rows that
   * reinitialised validators get, the bank check gives the same answer after it as before.
   */
  lemma {:induction false} SweepKeepsBankCheck(bank: seq<Balance>, address: string, pool: DecCoins, rows: seq<Outstanding>,
                            pool': DecCoins, rows': seq<Outstanding>)
    requires IsOwed(pool', pool, rows)
    requires forall r :: r in rows' ==> r.rewards == map[]
    ensures forall d :: Owed(pool', rows', d) == Owed(pool, rows, d)
    ensures BankMatches(bank, address, pool', rows') <==> BankMatches(bank, address, pool, rows)
  {
    forall d ensures Owed(pool', rows', d) == Owed(pool, rows, d) {
      EmptyRowsOweNothing(pool', rows', d);
    }
  }

  lemma {:induction false} EmptyRowsOweNothing(pool: DecCoins, rows: seq<Outstanding>, d: string)
    requires forall r :: r in rows ==> r.rewards == map[]
    ensures Owed(pool, rows, d) == Amount(pool, d)
  {
    if rows != [] {
      EmptyRowsOweNothing(pool, rows[..|rows| - 1], d);
      assert rows[|rows| - 1] in rows;
    }
  }
}
