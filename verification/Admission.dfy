/**
 * `ValidateTransactionWithState` and the pool it guards: at a fixed account state, with its callbacks
 * answered from the pool, admission is exactly preservation of the pool's promises.
 */
module Admission {
  import opened Common
  import opened MapSum

  datatype Tx = Tx(sender: Option<Address>, nonce: nat, cost: int)   // None: sender recovery fails

  datatype Account = Account(nonce: nat, balance: nat)

  datatype Slots = Slots(used: int, left: int)

  /** `ValidationOptionsWithState`; the two optional callbacks may be nil. */
  datatype Options = Options(
    state: Address -> Account,
    firstNonceGap: Option<Address -> nat>,
    usedAndLeftSlots: Option<Address -> Slots>,
    existingExpenditure: Address -> int,
    existingCost: (Address, nat) -> Option<int>)

  datatype Verdict = Admit | BadSender | NonceTooLow | NonceTooHigh | InsufficientFunds | AccountLimitExceeded

  function ValidateTransactionWithState(tx: Tx, opts: Options): (v: Verdict) {
    if tx.sender.None? then BadSender else
    var from := tx.sender.value;
    if opts.state(from).nonce > tx.nonce then NonceTooLow
    else if opts.firstNonceGap.Some? && opts.firstNonceGap.value(from) < tx.nonce then NonceTooHigh
    else
      var balance := opts.state(from).balance;
      if balance < tx.cost then InsufficientFunds
      else
        var spent := opts.existingExpenditure(from);
        var prev := opts.existingCost(from, tx.nonce);
        if prev.Some? then
          var bump := tx.cost - prev.value;
          if balance < spent + bump then InsufficientFunds else Admit
        else if balance < spent + tx.cost then InsufficientFunds
        else if opts.usedAndLeftSlots.Some? && opts.usedAndLeftSlots.value(from).left <= 0 then AccountLimitExceeded
        else Admit
  }

  // ---------------------------------------------------------------- the pool behind the callbacks

  /** One account's pooled transactions: nonce to cost. */
  type Pooled = map<nat, int>

  type Pool = map<Address, Pooled>

  /** Whether the pool forbids nonce gaps, and how many transactions it takes per account. */
  datatype Config = Config(gapless: bool, slots: Option<nat>)

  function Of(pool: Pool, a: Address): (p: Pooled) {
    if a in pool then pool[a] else map[]
  }

  /** The first nonce from `n` on that is not pooled. */
  function FirstGap(p: Pooled, n: nat): (g: nat)
    ensures g >= n && g !in p
    ensures forall k :: n <= k < g ==> k in p
    decreases |p|
  {
    if n !in p then n
    else
      assert |p - {n}| < |p| by { assert p.Keys == (p - {n}).Keys + {n}; }
      FirstGap(p - {n}, n + 1)
  }

  ghost function OptionsFor(pool: Pool, state: Address -> Account, cfg: Config): (opts: Options) {
    Options(
      state,
      if cfg.gapless then Some((a: Address) => FirstGap(Of(pool, a), state(a).nonce)) else None,
      if cfg.slots.Some? then Some((a: Address) => Slots(|Of(pool, a)|, cfg.slots.value - |Of(pool, a)|)) else None,
      (a: Address) => Total(Of(pool, a)),
      (a: Address, n: nat) => if n in Of(pool, a) then Some(Of(pool, a)[n]) else None)
  }

  ghost function Insert(pool: Pool, tx: Tx): (r: Pool)
    requires tx.sender.Some?
  {
    pool[tx.sender.value := Of(pool, tx.sender.value)[tx.nonce := tx.cost]]
  }

  /** No overdraft, no used-up nonce, no gap where gaps are forbidden, no more transactions than slots. */
  ghost predicate Sound(p: Pooled, acc: Account, cfg: Config) {
    && Total(p) <= acc.balance
    && (forall n :: n in p ==> n >= acc.nonce)
    && (cfg.gapless ==> Gapless(p, acc.nonce))
    && (cfg.slots.Some? ==> |p| <= cfg.slots.value)
  }

  ghost predicate Gapless(p: Pooled, first: nat) {
    forall n, k :: n in p && first <= k < n ==> k in p
  }

  ghost predicate SoundPool(pool: Pool, state: Address -> Account, cfg: Config) {
    forall a :: a in pool ==> Sound(pool[a], state(a), cfg)
  }

  /** In a gapless account a nonce may join exactly when it does not pass the first gap. */
  lemma GaplessAfterInsert(p: Pooled, first: nat, n: nat, cost: int)
    requires n >= first && Gapless(p, first)
    ensures Gapless(p[n := cost], first) <==> FirstGap(p, first) >= n
  {
    var g, q := FirstGap(p, first), p[n := cost];
    if g < n {
      assert n in q && first <= g < n && g !in q;
    }
  }

  /** An admitted transaction keeps every promise of its account, and the other accounts are untouched. */
  lemma AdmittedKeepsSound(pool: Pool, state: Address -> Account, cfg: Config, tx: Tx)
    requires SoundPool(pool, state, cfg)
    requires ValidateTransactionWithState(tx, OptionsFor(pool, state, cfg)) == Admit
    ensures tx.sender.Some? && SoundPool(Insert(pool, tx), state, cfg)
  {
    var a := tx.sender.value;
    var p := Of(pool, a);
    TotalAfterInsert(p, tx.nonce, tx.cost);
    if cfg.gapless { GaplessAfterInsert(p, state(a).nonce, tx.nonce, tx.cost); }
    assert Sound(p[tx.nonce := tx.cost], state(a), cfg);
  }

  /** While no pooled cost is negative, nothing is turned away that the pool could keep. */
  lemma AdmittedIff(pool: Pool, state: Address -> Account, cfg: Config, tx: Tx)
    requires SoundPool(pool, state, cfg) && tx.sender.Some?
    requires forall a, n :: a in pool && n in pool[a] ==> pool[a][n] >= 0
    ensures ValidateTransactionWithState(tx, OptionsFor(pool, state, cfg)) == Admit
            <==> SoundPool(Insert(pool, tx), state, cfg)
  {
    if ValidateTransactionWithState(tx, OptionsFor(pool, state, cfg)) == Admit {
      AdmittedKeepsSound(pool, state, cfg, tx);
    }
    if SoundPool(Insert(pool, tx), state, cfg) {
      var a := tx.sender.value;
      assert Sound(Insert(pool, tx)[a], state(a), cfg);
      KeepableIsAdmitted(pool, state, cfg, tx);
    }
  }

  lemma KeepableIsAdmitted(pool: Pool, state: Address -> Account, cfg: Config, tx: Tx)
    requires SoundPool(pool, state, cfg) && tx.sender.Some?
    requires forall n :: n in Of(pool, tx.sender.value) ==> Of(pool, tx.sender.value)[n] >= 0
    requires Sound(Of(pool, tx.sender.value)[tx.nonce := tx.cost], state(tx.sender.value), cfg)
    ensures ValidateTransactionWithState(tx, OptionsFor(pool, state, cfg)) == Admit
  {
    hide Total;
    var a := tx.sender.value;
    var p, first := Of(pool, a), state(a).nonce;
    var q := p[tx.nonce := tx.cost];
    assert tx.nonce in q && tx.nonce >= first;
    TotalAfterInsert(p, tx.nonce, tx.cost);
    TotalSplit(q, tx.nonce);
    TotalNonNegative(q - {tx.nonce});
    if cfg.gapless {
      assert Gapless(p, first);
      GaplessAfterInsert(p, first, tx.nonce, tx.cost);
    }
  }

  /** The pool after offering it transactions one by one, inserting those that are admitted. */
  ghost function Offer(pool: Pool, state: Address -> Account, cfg: Config, txs: seq<Tx>): (r: Pool)
    decreases |txs|
  {
    if txs == [] then pool
    else if ValidateTransactionWithState(txs[0], OptionsFor(pool, state, cfg)) == Admit
    then Offer(Insert(pool, txs[0]), state, cfg, txs[1..])
    else Offer(pool, state, cfg, txs[1..])
  }

  /** No sequence of inserts and replacements overdraws an account or breaks another promise. */
  lemma {:induction false} OffersKeepSound(pool: Pool, state: Address -> Account, cfg: Config, txs: seq<Tx>)
    requires SoundPool(pool, state, cfg)
    ensures SoundPool(Offer(pool, state, cfg, txs), state, cfg)
    decreases |txs|
  {
    if txs != [] {
      if ValidateTransactionWithState(txs[0], OptionsFor(pool, state, cfg)) == Admit {
        AdmittedKeepsSound(pool, state, cfg, txs[0]);
        OffersKeepSound(Insert(pool, txs[0]), state, cfg, txs[1..]);
      } else {
        OffersKeepSound(pool, state, cfg, txs[1..]);
      }
    }
  }
}
