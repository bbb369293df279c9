/**
 * The historical-reference part of `CrossGenesisValidateAtInitialHeight`: genesis validation recounts
 * the references to historical rewards on its own and compares them with the stored rows.
 */
module GenesisRefs {
  import opened Common
  import opened DistrStore
  import R = DistrRepair

  datatype Record = Record(key: Key, rewards: Historical)

  datatype Genesis = Genesis(
    validators: set<Val>,
    historical: seq<Record>,
    current: seq<Current>,
    starting: seq<Starting>,
    slashes: seq<Slash>)

  datatype GenesisError =
    | CurrentPeriodZero(val: Val)
    | StartingNotBeforeCurrent(row: Starting)
    | BadSlashPeriod(slash: Slash)
    | MissingCurrent(val: Val)
    | MissingHistorical(key: Key)
    | TooFewReferences(key: Key)
    | UnknownValidator(val: Val)

  /** The rows by key; a later record replaces an earlier one. */
  function HistoricalOf(records: seq<Record>): (m: map<Key, Historical>) {
    if records == [] then map[]
    else
      var r := records[|records| - 1];
      HistoricalOf(records[..|records| - 1])[r.key := r.rewards]
  }

  function CurrentOf(rows: seq<Current>): (m: map<Val, nat>)
    ensures forall v :: v in m ==> Current(v, m[v]) in rows
    ensures forall r :: r in rows ==> r.val in m
  {
    if rows == [] then map[]
    else
      var r := rows[|rows| - 1];
      assert forall x :: x in rows <==> x in rows[..|rows| - 1] || x == r;
      CurrentOf(rows[..|rows| - 1])[r.val := r.period]
  }

  ghost predicate Precedes(cur: map<Val, nat>, v: Val, period: nat) {
    v in cur ==> period < cur[v]
  }

  ghost predicate GoodSlash(cur: map<Val, nat>, e: Slash) {
    e.period != 0 && e.validatorPeriod != 0 && e.period == e.validatorPeriod && Precedes(cur, e.val, e.period)
  }

  ghost function OtherRefs(g: Genesis): (refs: multiset<Key>) {
    multiset(StartingRefs(g.starting) + SlashRefs(g.slashes))
  }

  /** How many rows refer to a historical row as validation sees it: starting rows, slashes and the current period. */
  ghost function Required(g: Genesis, k: Key): (n: nat)
    ensures n == OtherRefs(g)[k] + if IsBeforeCurrent(g, k) then 1 else 0
  {
    StartingRefsCount(g.starting, k);
    SlashRefsCount(g.slashes, k);
    assert OtherRefs(g) == multiset(StartingRefs(g.starting)) + multiset(SlashRefs(g.slashes));
    |StartingReferrers(g.starting, k)| + |SlashReferrers(g.slashes, k)| + if IsBeforeCurrent(g, k) then 1 else 0
  }

  ghost predicate IsBeforeCurrent(g: Genesis, k: Key) {
    k.val in CurrentOf(g.current) && CurrentOf(g.current)[k.val] == k.period + 1
  }

  ghost predicate Backed(g: Genesis, k: Key) {
    Required(g, k) > 0 ==>
      k in HistoricalOf(g.historical) && HistoricalOf(g.historical)[k].refs >= Required(g, k)
  }

  /** The conditions that do not look at historical rows. */
  ghost predicate RowsConsistent(g: Genesis) {
    && (forall r :: r in g.current ==> r.period > 0 && r.val in g.validators)
    && (forall s :: s in g.starting ==> Precedes(CurrentOf(g.current), s.val, s.previousPeriod) && s.val in g.validators)
    && (forall e :: e in g.slashes ==> GoodSlash(CurrentOf(g.current), e) && e.val in g.validators)
    && (forall v :: v in g.validators ==> v in CurrentOf(g.current))
  }

  ghost predicate HistoricalConsistent(g: Genesis) {
    && (forall k: Key :: k.val in g.validators ==> Backed(g, k))
    && (forall r :: r in g.historical ==> r.key.val in g.validators)
  }

  // ---------------------------------------------------------------- the validator

  method IndexHistorical(records: seq<Record>) returns (m: map<Key, Historical>)
    ensures m == HistoricalOf(records)
  {
    m := map[];
    for i := 0 to |records|
      invariant m == HistoricalOf(records[..i])
    {
      m := m[records[i].key := records[i].rewards];
      assert records[..i + 1][..i] == records[..i];
    }
    assert records[..|records|] == records;
  }

  method IndexCurrent(rows: seq<Current>) returns (m: map<Val, nat>, err: Option<GenesisError>)
    ensures err.None? <==> forall r :: r in rows ==> r.period > 0
    ensures err.None? ==> m == CurrentOf(rows)
  {
    m, err := map[], None;
    for i := 0 to |rows|
      invariant m == CurrentOf(rows[..i]) && err.None?
      invariant forall r :: r in rows[..i] ==> r.period > 0
    {
      if rows[i].period == 0 { return m, Some(CurrentPeriodZero(rows[i].val)); }
      m := m[rows[i].val := rows[i].period];
      assert rows[..i + 1][..i] == rows[..i];
    }
    assert rows[..|rows|] == rows;
  }

  method CheckStarting(cur: map<Val, nat>, rows: seq<Starting>)
    returns (required: map<Key, nat>, err: Option<GenesisError>)
    ensures err.None? <==> forall s :: s in rows ==> Precedes(cur, s.val, s.previousPeriod)
    ensures err.None? ==> Counts(required, multiset(StartingRefs(rows)))
    ensures err.None? ==> forall k :: CountOf(required, k) == |StartingReferrers(rows, k)|
  {
    forall k ensures multiset(StartingRefs(rows))[k] == |StartingReferrers(rows, k)| { StartingRefsCount(rows, k); }
    hide StartingReferrers;
    required, err := map[], None;
    ghost var ks := StartingRefs(rows);
    assert Counts(required, multiset{} + multiset(ks[..0]));
    hide Counts, Bump;
    for i := 0 to |rows|
      invariant err.None? && forall j :: 0 <= j < i ==> Precedes(cur, rows[j].val, rows[j].previousPeriod)
      invariant Counts(required, multiset{} + multiset(ks[..i]))
    {
      var s := rows[i];
      if s.val in cur && s.previousPeriod >= cur[s.val] {
        assert s in rows && !Precedes(cur, s.val, s.previousPeriod);
        return required, Some(StartingNotBeforeCurrent(s));
      }
      var k := Key(s.val, s.previousPeriod);
      CountNext(required, multiset{}, ks, i, k);
      required := Bump(required, k);
    }
    assert ks[..|rows|] == ks && multiset{} + multiset(ks) == multiset(ks);
    CountsAre(required, multiset(ks));
  }

  lemma {:induction false} CountsAre(required: map<Key, nat>, refs: multiset<Key>)
    requires Counts(required, refs)
    ensures forall k :: CountOf(required, k) == refs[k]
  {
  }

  method CheckSlashes(cur: map<Val, nat>, rows: seq<Slash>, required0: map<Key, nat>, ghost refs0: multiset<Key>)
    returns (required: map<Key, nat>, err: Option<GenesisError>)
    requires Counts(required0, refs0)
    ensures err.None? <==> forall e :: e in rows ==> GoodSlash(cur, e)
    ensures err.None? ==> Counts(required, refs0 + multiset(SlashRefs(rows)))
    ensures err.None? ==> forall k :: CountOf(required, k) == CountOf(required0, k) + |SlashReferrers(rows, k)|
  {
    forall k ensures multiset(SlashRefs(rows))[k] == |SlashReferrers(rows, k)| { SlashRefsCount(rows, k); }
    CountsAre(required0, refs0);
    hide SlashReferrers;
    required, err := required0, None;
    ghost var ks := SlashRefs(rows);
    assert refs0 + multiset(ks[..0]) == refs0;
    hide Counts, Bump;
    for i := 0 to |rows|
      invariant err.None? && forall j :: 0 <= j < i ==> GoodSlash(cur, rows[j])
      invariant Counts(required, refs0 + multiset(ks[..i]))
    {
      var e := rows[i];
      assert e in rows;
      if e.period == 0 { return required, Some(BadSlashPeriod(e)); }
      if e.validatorPeriod == 0 { return required, Some(BadSlashPeriod(e)); }
      if e.period != e.validatorPeriod { return required, Some(BadSlashPeriod(e)); }
      if e.val in cur && e.period >= cur[e.val] { return required, Some(BadSlashPeriod(e)); }
      var k := Key(e.val, e.period);
      CountNext(required, refs0, ks, i, k);
      required := Bump(required, k);
    }
    assert ks[..|rows|] == ks;
    CountsAre(required, refs0 + multiset(ks));
  }

  /** The next of a list of references, counted. */
  lemma {:induction false} CountNext(m: map<Key, nat>, refs0: multiset<Key>, ks: seq<Key>, i: nat, k: Key)
    requires i < |ks| && ks[i] == k && Counts(m, refs0 + multiset(ks[..i]))
    ensures Counts(Bump(m, k), refs0 + multiset(ks[..i + 1]))
  {
    hide Counts, Bump;
    CountOneMore(m, refs0 + multiset(ks[..i]), k);
    assert ks[..i + 1] == ks[..i] + [k];
    assert refs0 + multiset(ks[..i + 1]) == refs0 + multiset(ks[..i]) + multiset{k};
  }

  /** One validator's rows against the references found for it. */
  method CheckRows(hist: map<Key, Historical>, required: map<Key, nat>, v: Val) returns (err: Option<GenesisError>)
    ensures err.None? <==>
            forall k :: k in required && k.val == v ==> k in hist && hist[k].refs >= required[k]
  {
    var todo := required.Keys;
    while todo != {}
      invariant todo <= required.Keys
      invariant forall k :: k in required && k !in todo && k.val == v ==> k in hist && hist[k].refs >= required[k]
      decreases todo
    {
      var k :| k in todo;
      todo := todo - {k};
      if k.val == v {
        if k !in hist { return Some(MissingHistorical(k)); }
        if hist[k].refs < required[k] { return Some(TooFewReferences(k)); }
      }
    }
    return None;
  }

  /** What has been counted when the validators outside `todo` have added their current period. */
  ghost predicate CountsSoFar(required: map<Key, nat>, g: Genesis, todo: set<Val>) {
    && (forall k :: k in required ==> required[k] > 0)
    && forall k: Key :: CountOf(required, k) ==
         if k.val in todo || k.val !in g.validators then OtherRefs(g)[k] else Required(g, k)
  }

  ghost function CountOf(required: map<Key, nat>, k: Key): (n: nat) {
    if k in required then required[k] else 0
  }

  method CheckValidators(g: Genesis, hist: map<Key, Historical>, cur: map<Val, nat>, required0: map<Key, nat>)
    returns (err: Option<GenesisError>)
    requires hist == HistoricalOf(g.historical) && cur == CurrentOf(g.current)
    requires forall r :: r in g.current ==> r.period > 0
    requires Counts(required0, OtherRefs(g))
    ensures err.None? <==> (forall v :: v in g.validators ==> v in cur)
                           && (forall k: Key :: k.val in g.validators ==> Backed(g, k))
  {
    hide Required, OtherRefs, IsBeforeCurrent, CurrentOf, HistoricalOf;
    var required := required0;
    var todo := g.validators;
    while todo != {}
      invariant todo <= g.validators
      invariant CountsSoFar(required, g, todo)
      invariant forall v :: v in g.validators && v !in todo ==> v in cur
      invariant forall k: Key :: k.val in g.validators && k.val !in todo ==> Backed(g, k)
      decreases todo
    {
      var v :| v in todo;
      if v !in cur { return Some(MissingCurrent(v)); }
      assert Current(v, cur[v]) in g.current;
      CountCurrent(required, g, todo, v);
      required := Bump(required, Key(v, cur[v] - 1));
      todo := todo - {v};
      err := CheckRows(hist, required, v);
      if err.Some? { return; }
    }
    return None;
  }

  lemma CountCurrent(required: map<Key, nat>, g: Genesis, todo: set<Val>, v: Val)
    requires CountsSoFar(required, g, todo) && v in todo && v in g.validators
    requires v in CurrentOf(g.current) && CurrentOf(g.current)[v] > 0
    ensures CountsSoFar(Bump(required, Key(v, CurrentOf(g.current)[v] - 1)), g, todo - {v})
  {
    hide Required, OtherRefs, CurrentOf;
    var k0 := Key(v, CurrentOf(g.current)[v] - 1);
    forall k: Key ensures CountOf(Bump(required, k0), k) ==
        if k.val in todo - {v} || k.val !in g.validators then OtherRefs(g)[k] else Required(g, k)
    {
      assert CountOf(Bump(required, k0), k) == CountOf(required, k) + if k == k0 then 1 else 0;
      assert k.val == v ==> (CurrentOf(g.current)[v] == k.period + 1 <==> k == k0);
    }
  }

  method CheckKnown<T>(rows: seq<T>, val: T -> Val, validators: set<Val>) returns (err: Option<GenesisError>)
    ensures err.None? <==> forall r :: r in rows ==> val(r) in validators
  {
    for i := 0 to |rows|
      invariant forall r :: r in rows[..i] ==> val(r) in validators
    {
      if val(rows[i]) !in validators { return Some(UnknownValidator(val(rows[i]))); }
    }
    return None;
  }

  /** Validation accepts exactly the genesis states whose rows fit together and whose references are backed. */
  method ValidateHistoricalReferences(g: Genesis) returns (err: Option<GenesisError>)
    ensures err.None? <==> RowsConsistent(g) && HistoricalConsistent(g)
  {
    var hist := IndexHistorical(g.historical);
    var cur, required;
    cur, err := IndexCurrent(g.current);
    if err.Some? { return; }
    required, err := CheckStarting(cur, g.starting);
    if err.Some? { return; }
    required, err := CheckSlashes(cur, g.slashes, required, multiset(StartingRefs(g.starting)));
    if err.Some? { return; }
    assert OtherRefs(g) == multiset(StartingRefs(g.starting)) + multiset(SlashRefs(g.slashes));
    err := CheckValidators(g, hist, cur, required);
    if err.Some? { return; }
    err := CheckKnown(g.historical, (r: Record) => r.key.val, g.validators);
    if err.Some? { return; }
    err := CheckKnown(g.current, (r: Current) => r.val, g.validators);
    if err.Some? { return; }
    err := CheckKnown(g.starting, (s: Starting) => s.val, g.validators);
    if err.Some? { return; }
    err := CheckKnown(g.slashes, (e: Slash) => e.val, g.validators);
  }

  // ---------------------------------------------------------------- repair satisfies validation

  /** `records` lists the rows of `hist`, each once or more. */
  ghost predicate Exports(records: seq<Record>, hist: map<Key, Historical>) {
    && (forall r :: r in records ==> r.key in hist && r.rewards == hist[r.key])
    && (forall k :: k in hist ==> Record(k, hist[k]) in records)
  }

  lemma {:induction false} HistoricalOfExport(records: seq<Record>, hist: map<Key, Historical>)
    requires forall r :: r in records ==> r.key in hist && r.rewards == hist[r.key]
    ensures forall k :: k in HistoricalOf(records) <==> k in hist && Record(k, hist[k]) in records
    ensures forall k :: k in HistoricalOf(records) ==> HistoricalOf(records)[k] == hist[k]
    decreases |records|
  {
    if records != [] {
      var n := |records| - 1;
      HistoricalOfExport(records[..n], hist);
      assert forall x :: x in records <==> x in records[..n] || x == records[n];
    }
  }

  /** Validation never asks for more references to a row than repair counted. */
  lemma RequiredAtMostRefs(g: Genesis, k: Key)
    requires forall r :: r in g.current ==> r.period > 0
    ensures Required(g, k) <= multiset(References(g.current, g.starting, g.slashes))[k]
  {
    var a, b, c := CurrentRefs(g.current), StartingRefs(g.starting), SlashRefs(g.slashes);
    assert References(g.current, g.starting, g.slashes) == a + (b + c);
    assert multiset(a + (b + c))[k] == multiset(a)[k] + multiset(b + c)[k];
    var cur := CurrentOf(g.current);
    if k.val in cur && cur[k.val] == k.period + 1 {
      var i :| 0 <= i < |g.current| && g.current[i] == Current(k.val, cur[k.val]);
      CurrentRefsIff(g.current, k);
      assert k in multiset(a);
    }
  }

  /** In a repaired store everything about historical rows that validation recounts has been put right. */
  lemma {:induction false} RepairSatisfiesValidation(hist: map<Key, Historical>, hist': map<Key, Historical>, g: Genesis)
    requires R.Repaired(hist, multiset(References(g.current, g.starting, g.slashes)), hist')
    requires Exports(g.historical, hist')
    ensures RowsConsistent(g) ==> HistoricalConsistent(g)
  {
    if RowsConsistent(g) {
      var refs := multiset(References(g.current, g.starting, g.slashes));
      HistoricalOfExport(g.historical, hist');
      forall k: Key | k.val in g.validators ensures Backed(g, k) {
        RequiredAtMostRefs(g, k);
        if Required(g, k) > 0 {
          assert k in refs && R.RepairedRow(hist, refs, k, hist'[k]);
        }
      }
      forall r | r in g.historical ensures r.key.val in g.validators {
        assert r.key in References(g.current, g.starting, g.slashes);
        KnownReference(g, r.key);
      }
    }
  }

  /** A repaired store passes validation if and only if the rows that repair does not touch are consistent. */
  method ValidateRepaired(ghost hist: map<Key, Historical>, ghost hist': map<Key, Historical>, g: Genesis)
    returns (err: Option<GenesisError>)
    requires R.Repaired(hist, multiset(References(g.current, g.starting, g.slashes)), hist')
    requires Exports(g.historical, hist')
    ensures err.None? <==> RowsConsistent(g)
  {
    RepairSatisfiesValidation(hist, hist', g);
    err := ValidateHistoricalReferences(g);
  }

  lemma KnownReference(g: Genesis, k: Key)
    requires RowsConsistent(g) && k in References(g.current, g.starting, g.slashes)
    ensures k.val in g.validators
  {
    if k in CurrentRefs(g.current) {
      CurrentRefsIff(g.current, k);
      assert Current(k.val, k.period + 1) in g.current;
    } else if k in StartingRefs(g.starting) {
      var i :| 0 <= i < |g.starting| && StartingRefs(g.starting)[i] == k;
      assert g.starting[i] in g.starting;
    } else {
      var i :| 0 <= i < |g.slashes| && SlashRefs(g.slashes)[i] == k;
      assert g.slashes[i] in g.slashes;
    }
  }
}
