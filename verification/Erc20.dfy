/**
 * The ERC-20 precompile over a bank denomination: direct and delegated transfers, approvals, and the
 * accounting that holds over every sequence of calls when failed calls are rolled back.
 */
module Erc20 {
  import opened Common
  import opened MapSum

  datatype Pair = Pair(owner: Address, spender: Address)

  datatype Log =
    | TransferLog(from: Address, to: Address, value: int)
    | ApprovalLog(owner: Address, spender: Address, value: int)

  /** Stored balances and allowances of one token, and the logs emitted so far. */
  datatype Ledger = Ledger(balances: map<Address, int>, allowances: map<Pair, int>, logs: seq<Log>)

  datatype Error =
    | InvalidAmount | InsufficientAllowance | NegativeAmount | IntegerOverflow
    | TokenPairUnusable | EmptyAddress | SendFailed

  /** What the keepers answer: whether the token pair is registered and enabled, and which sends the bank refuses. */
  datatype Env = Env(pairUsable: bool, sendAllowed: (Address, Address) -> bool)

  const ZERO_ADDRESS: Address := 0

  function BalanceOf(l: Ledger, a: Address): (n: int) {
    if a in l.balances then l.balances[a] else 0
  }

  function Allowance(l: Ledger, p: Pair): (n: int) {
    if p in l.allowances then l.allowances[p] else 0
  }

  /** The keeper's `setAllowance`: zero deletes the row. */
  function StoreAllowance(env: Env, l: Ledger, p: Pair, value: int): (r: Result<Ledger, Error>) {
    if !env.pairUsable then Err(TokenPairUnusable)
    else if p.owner == ZERO_ADDRESS || p.spender == ZERO_ADDRESS then Err(EmptyAddress)
    else if value < 0 then Err(NegativeAmount)
    else if value >= TWO_256 then Err(IntegerOverflow)
    else if value == 0 then Ok(l.(allowances := l.allowances - {p}))
    else Ok(l.(allowances := l.allowances[p := value]))
  }

  /** A bank send of one coin. */
  function Send(env: Env, l: Ledger, from: Address, to: Address, amount: int): (r: Result<Ledger, Error>) {
    if !env.sendAllowed(from, to) || BalanceOf(l, from) < amount then Err(SendFailed)
    else
      var paid := l.(balances := l.balances[from := BalanceOf(l, from) - amount]);
      Ok(paid.(balances := paid.balances[to := BalanceOf(paid, to) + amount]))
  }

  function MoveTokens(env: Env, l: Ledger, from: Address, to: Address, amount: int): (r: Result<Ledger, Error>) {
    var sent := Send(env, l, from, to, amount);
    if sent.Err? then sent
    else Ok(sent.value.(logs := sent.value.logs + [TransferLog(from, to, amount)]))
  }

  datatype Call =
    | Transfer(caller: Address, to: Address, amount: int)
    | TransferFrom(caller: Address, from: Address, to: Address, amount: int)
    | Approve(caller: Address, spender: Address, amount: int)

  function DoTransferFrom(env: Env, l: Ledger, p: Pair, to: Address, amount: int): (r: Result<Ledger, Error>) {
    var left := Allowance(l, p) - amount;
    if left < 0 then Err(InsufficientAllowance)
    else
      var stored := StoreAllowance(env, l, p, left);
      if stored.Err? then stored
      else
        var moved := MoveTokens(env, stored.value, p.owner, to, amount);
        if moved.Err? then moved
        else Ok(moved.value.(logs := moved.value.logs + [ApprovalLog(p.owner, p.spender, left)]))
  }

  /** The five cases of `Approve`: with no allowance and amount zero nothing is stored. */
  function DoApprove(env: Env, l: Ledger, p: Pair, amount: int): (r: Result<Ledger, Error>) {
    var stored :=
      if Allowance(l, p) == 0 then
        if amount < 0 then Err(NegativeAmount)
        else if amount == 0 then Ok(l)
        else if amount >= TWO_256 then Err(IntegerOverflow)
        else StoreAllowance(env, l, p, amount)
      else if amount <= 0 then StoreAllowance(env, l, p, 0)
      else if amount >= TWO_256 then Err(IntegerOverflow)
      else StoreAllowance(env, l, p, amount);
    if stored.Err? then stored
    else Ok(stored.value.(logs := stored.value.logs + [ApprovalLog(p.owner, p.spender, amount)]))
  }

  function Exec(env: Env, l: Ledger, c: Call): (r: Result<Ledger, Error>) {
    match c
    case Transfer(caller, to, amount) =>
      if amount <= 0 then Err(InvalidAmount) else MoveTokens(env, l, caller, to, amount)
    case TransferFrom(caller, from, to, amount) =>
      if amount <= 0 then Err(InvalidAmount) else DoTransferFrom(env, l, Pair(from, caller), to, amount)
    case Approve(caller, spender, amount) => DoApprove(env, l, Pair(caller, spender), amount)
  }

  /** A call and what the keepers answer while it executes. */
  datatype Step = Step(env: Env, call: Call)

  /** The ledger after a sequence of calls; a failed call leaves no trace. */
  function Run(l: Ledger, steps: seq<Step>): (r: Ledger) {
    if steps == [] then l
    else
      var before := Run(l, steps[..|steps| - 1]);
      var last := steps[|steps| - 1];
      var after := Exec(last.env, before, last.call);
      if after.Ok? then after.value else before
  }

  // ---------------------------------------------------------------- supply

  lemma SendKeepsTotal(env: Env, l: Ledger, from: Address, to: Address, amount: int)
    requires Send(env, l, from, to, amount).Ok?
    ensures Total(Send(env, l, from, to, amount).value.balances) == Total(l.balances)
  {
    var paid := l.balances[from := BalanceOf(l, from) - amount];
    TotalAfterInsert(l.balances, from, BalanceOf(l, from) - amount);
    var p := l.(balances := paid);
    TotalAfterInsert(paid, to, BalanceOf(p, to) + amount);
  }

  /** No call creates or destroys tokens. */
  lemma ExecKeepsSupply(env: Env, l: Ledger, c: Call)
    requires Exec(env, l, c).Ok?
    ensures Total(Exec(env, l, c).value.balances) == Total(l.balances)
  {
    match c
    case Transfer(caller, to, amount) => SendKeepsTotal(env, l, caller, to, amount);
    case TransferFrom(caller, from, to, amount) =>
      var p := Pair(from, caller);
      SendKeepsTotal(env, StoreAllowance(env, l, p, Allowance(l, p) - amount).value, from, to, amount);
    case Approve(_, _, _) =>
  }

  lemma {:induction false} SupplyIsConstant(l: Ledger, steps: seq<Step>)
    ensures Total(Run(l, steps).balances) == Total(l.balances)
  {
    hide Exec;
    if steps != [] {
      var n := |steps| - 1;
      SupplyIsConstant(l, steps[..n]);
      var before := Run(l, steps[..n]);
      if Exec(steps[n].env, before, steps[n].call).Ok? { ExecKeepsSupply(steps[n].env, before, steps[n].call); }
    }
  }

  // ---------------------------------------------------------------- stored rows

  /** Stored allowances are positive and fit 256 bits; balances are not negative. */
  ghost predicate RowsOk(l: Ledger) {
    && (forall p :: p in l.allowances ==> 0 < l.allowances[p] < TWO_256)
    && (forall a :: a in l.balances ==> l.balances[a] >= 0)
  }

  lemma ExecKeepsRows(env: Env, l: Ledger, c: Call)
    requires RowsOk(l) && Exec(env, l, c).Ok?
    ensures RowsOk(Exec(env, l, c).value)
  {
  }

  lemma {:induction false} RowsStayOk(l: Ledger, steps: seq<Step>)
    requires RowsOk(l)
    ensures RowsOk(Run(l, steps))
  {
    hide Exec;
    if steps != [] {
      var n := |steps| - 1;
      RowsStayOk(l, steps[..n]);
      var before := Run(l, steps[..n]);
      if Exec(steps[n].env, before, steps[n].call).Ok? { ExecKeepsRows(steps[n].env, before, steps[n].call); }
    }
  }

  // ---------------------------------------------------------------- allowance accounting

  /** What was last granted over a pair, and what the spender moved since. */
  datatype Account = Account(granted: int, moved: int)

  ghost function Count(l: Ledger, steps: seq<Step>, p: Pair): (a: Account) {
    if steps == [] then Account(Allowance(l, p), 0)
    else
      var n := |steps| - 1;
      var a := Count(l, steps[..n], p);
      if Exec(steps[n].env, Run(l, steps[..n]), steps[n].call).Err? then a
      else
        match steps[n].call
        case Approve(caller, spender, amount) =>
          if Pair(caller, spender) == p then Account(if amount < 0 then 0 else amount, 0) else a
        case TransferFrom(caller, from, _, amount) =>
          if Pair(from, caller) == p then a.(moved := a.moved + amount) else a
        case Transfer(_, _, _) => a
  }

  /** How one successful call changes one pair's allowance. */
  lemma ExecAllowance(env: Env, l: Ledger, c: Call, p: Pair)
    requires RowsOk(l) && Exec(env, l, c).Ok?
    ensures Allowance(Exec(env, l, c).value, p) ==
            match c
            case Approve(caller, spender, amount) =>
              if Pair(caller, spender) != p then Allowance(l, p) else if amount < 0 then 0 else amount
            case TransferFrom(caller, from, _, amount) =>
              if Pair(from, caller) != p then Allowance(l, p) else Allowance(l, p) - amount
            case Transfer(_, _, _) => Allowance(l, p)
    ensures !c.Approve? ==> c.amount > 0
  {
  }

  /** The last grant is the remaining allowance plus everything moved under it. */
  lemma {:induction false} GrantIsAccountedFor(l: Ledger, steps: seq<Step>, p: Pair)
    requires RowsOk(l)
    ensures Count(l, steps, p).granted == Allowance(Run(l, steps), p) + Count(l, steps, p).moved
    ensures Count(l, steps, p).moved >= 0
  {
    hide Exec;
    if steps != [] {
      var n := |steps| - 1;
      GrantIsAccountedFor(l, steps[..n], p);
      RowsStayOk(l, steps[..n]);
      var before := Run(l, steps[..n]);
      if Exec(steps[n].env, before, steps[n].call).Ok? {
        ExecAllowance(steps[n].env, before, steps[n].call, p);
      }
    }
  }

  // ---------------------------------------------------------------- when calls succeed

  /** A direct transfer succeeds exactly when it moves something that the sender has and the bank lets through. */
  lemma TransferSucceedsIff(env: Env, l: Ledger, caller: Address, to: Address, amount: int)
    ensures Exec(env, l, Transfer(caller, to, amount)).Ok? <==>
            amount > 0 && env.sendAllowed(caller, to) && BalanceOf(l, caller) >= amount
  {
  }

  /** A delegated one also needs an allowance over the pair, whoever the caller is, and a pair that can be stored. */
  lemma TransferFromSucceedsIff(env: Env, l: Ledger, caller: Address, from: Address, to: Address, amount: int)
    requires RowsOk(l)
    ensures Exec(env, l, TransferFrom(caller, from, to, amount)).Ok? <==>
            && amount > 0 && Allowance(l, Pair(from, caller)) >= amount
            && env.pairUsable && from != ZERO_ADDRESS && caller != ZERO_ADDRESS
            && env.sendAllowed(from, to) && BalanceOf(l, from) >= amount
  {
    var p := Pair(from, caller);
    assert Allowance(l, p) < TWO_256;
    var stored := StoreAllowance(env, l, p, Allowance(l, p) - amount);
    assert stored.Ok? ==> stored.value.balances == l.balances;
  }

  /**
   * Approving nothing where nothing is granted always succeeds. Otherwise the pair must be one that can be stored, the
   * amount must fit 256 bits, and only a pair with an allowance accepts zero or less, which revokes it.
   */
  lemma ApproveSucceedsIff(env: Env, l: Ledger, caller: Address, spender: Address, amount: int)
    ensures Exec(env, l, Approve(caller, spender, amount)).Ok? <==>
            || (Allowance(l, Pair(caller, spender)) == 0 && amount == 0)
            || (&& env.pairUsable && caller != ZERO_ADDRESS && spender != ZERO_ADDRESS && amount < TWO_256
                && (amount > 0 || Allowance(l, Pair(caller, spender)) != 0))
  {
  }

  /** EIP-20 treats a transfer of zero as any other; here it is refused, in every state. */
  lemma ZeroTransferIsRefused(env: Env, l: Ledger, caller: Address, from: Address, to: Address)
    ensures Exec(env, l, Transfer(caller, to, 0)) == Err(InvalidAmount)
    ensures Exec(env, l, TransferFrom(caller, from, to, 0)) == Err(InvalidAmount)
  {
  }

  /** An owner who never approved their own account cannot move their own tokens by `transferFrom`. */
  lemma OwnerNeedsAllowance(env: Env, l: Ledger, owner: Address, to: Address, amount: int)
    requires amount > 0 && Pair(owner, owner) !in l.allowances
    ensures Exec(env, l, TransferFrom(owner, owner, to, amount)) == Err(InsufficientAllowance)
  {
  }

  /** The steps grant nothing over the pair. */
  ghost predicate GrantsNothing(steps: seq<Step>, p: Pair) {
    forall i :: 0 <= i < |steps| && steps[i].call.Approve?
      ==> Pair(steps[i].call.caller, steps[i].call.spender) != p || steps[i].call.amount <= 0
  }

  lemma {:induction false} NoGrantNoAllowance(l: Ledger, steps: seq<Step>, p: Pair)
    requires RowsOk(l) && Allowance(l, p) == 0 && GrantsNothing(steps, p)
    ensures Allowance(Run(l, steps), p) == 0
  {
    hide Exec;
    if steps != [] {
      var n := |steps| - 1;
      NoGrantNoAllowance(l, steps[..n], p);
      RowsStayOk(l, steps[..n]);
      var before := Run(l, steps[..n]);
      if Exec(steps[n].env, before, steps[n].call).Ok? {
        ExecAllowance(steps[n].env, before, steps[n].call, p);
        ExecKeepsRows(steps[n].env, before, steps[n].call);
        var after := Exec(steps[n].env, before, steps[n].call).value;
        assert Allowance(after, p) >= 0;
      }
    }
  }

  /**
   * Over any sequence of calls, a spender that was never granted anything never succeeds with `transferFrom`; an
   * owner is such a spender of their own tokens until they approve themselves.
   */
  lemma {:induction false} UngrantedNeverTransfers(l: Ledger, steps: seq<Step>, p: Pair, i: nat)
    requires RowsOk(l) && Allowance(l, p) == 0 && GrantsNothing(steps, p)
    requires i < |steps| && steps[i].call.TransferFrom? && Pair(steps[i].call.from, steps[i].call.caller) == p
    ensures Exec(steps[i].env, Run(l, steps[..i]), steps[i].call).Err?
    ensures Run(l, steps[..i + 1]) == Run(l, steps[..i])
  {
    NoGrantNoAllowance(l, steps[..i], p);
    RowsStayOk(l, steps[..i]);
    var c := steps[i].call;
    TransferFromSucceedsIff(steps[i].env, Run(l, steps[..i]), c.caller, c.from, c.to, c.amount);
    assert steps[..i + 1][..i] == steps[..i];
  }

  // ---------------------------------------------------------------- logs tell the state

  ghost function Moved(e: Log, a: Address): (n: int) {
    if e.TransferLog? then (if e.to == a then e.value else 0) - (if e.from == a then e.value else 0) else 0
  }

  ghost predicate Sets(e: Log, p: Pair) {
    e.ApprovalLog? && Pair(e.owner, e.spender) == p
  }

  /** The value of the last approval logged for a pair, or `initial`. */
  ghost function LastApproval(logs: seq<Log>, p: Pair, initial: int): (n: int) {
    if logs == [] then initial
    else
      var e := logs[|logs| - 1];
      if Sets(e, p) then e.value
      else LastApproval(logs[..|logs| - 1], p, initial)
  }

  /** What the transfer logs add up to for an account. */
  ghost function NetTransfers(logs: seq<Log>, a: Address): (n: int) {
    if logs == [] then 0
    else
      NetTransfers(logs[..|logs| - 1], a) + Moved(logs[|logs| - 1], a)
  }

  /** The logs from `l0` to `l` account for every balance and every allowance. */
  ghost predicate LogsTell(l0: Ledger, l: Ledger) {
    && l0.logs <= l.logs
    && var emitted := l.logs[|l0.logs|..];
       && (forall p :: Allowance(l, p) == LastApproval(emitted, p, Allowance(l0, p)))
       && (forall a :: BalanceOf(l, a) == BalanceOf(l0, a) + NetTransfers(emitted, a))
  }


  /** What one more log tells, when it is the only change. */
  lemma OneMoreLog(l0: Ledger, l: Ledger, next: Ledger, e: Log)
    requires LogsTell(l0, l) && next.logs == l.logs + [e]
    requires forall p :: Allowance(next, p) == if Sets(e, p) then e.value else Allowance(l, p)
    requires forall a :: BalanceOf(next, a) == BalanceOf(l, a) + Moved(e, a)
    ensures LogsTell(l0, next)
  {
    var before, after := l.logs[|l0.logs|..], next.logs[|l0.logs|..];
    assert after == before + [e] && after[..|after| - 1] == before;
    forall p ensures Allowance(next, p) == LastApproval(after, p, Allowance(l0, p)) {
    }
    forall a ensures BalanceOf(next, a) == BalanceOf(l0, a) + NetTransfers(after, a) {
    }
  }

  /** A transfer leaves a log of exactly what it moved, also when the account pays itself. */
  lemma SendMoves(env: Env, l: Ledger, from: Address, to: Address, amount: int, a: Address)
    requires Send(env, l, from, to, amount).Ok?
    ensures BalanceOf(Send(env, l, from, to, amount).value, a) == BalanceOf(l, a) + Moved(TransferLog(from, to, amount), a)
  {
  }

  lemma MoveTells(env: Env, l0: Ledger, l: Ledger, from: Address, to: Address, amount: int)
    requires LogsTell(l0, l) && MoveTokens(env, l, from, to, amount).Ok?
    ensures LogsTell(l0, MoveTokens(env, l, from, to, amount).value)
  {
    forall a { SendMoves(env, l, from, to, amount, a); }
    OneMoreLog(l0, l, MoveTokens(env, l, from, to, amount).value, TransferLog(from, to, amount));
  }

  lemma ApproveTells(env: Env, l0: Ledger, l: Ledger, p: Pair, amount: int)
    requires LogsTell(l0, l) && RowsOk(l) && amount >= 0 && DoApprove(env, l, p, amount).Ok?
    ensures LogsTell(l0, DoApprove(env, l, p, amount).value)
  {
    var next := DoApprove(env, l, p, amount).value;
    forall q ensures Allowance(next, q) == if q == p then amount else Allowance(l, q) {
    }
    OneMoreLog(l0, l, next, ApprovalLog(p.owner, p.spender, amount));
  }

  /** A delegated transfer is the direct one followed by a new approval row and its log. */
  lemma TransferFromInTwoSteps(env: Env, l: Ledger, p: Pair, to: Address, amount: int)
    requires DoTransferFrom(env, l, p, to, amount).Ok?
    ensures MoveTokens(env, l, p.owner, to, amount).Ok?
    ensures StoreAllowance(env, l, p, Allowance(l, p) - amount).Ok?
    ensures DoTransferFrom(env, l, p, to, amount).value ==
            Ledger(MoveTokens(env, l, p.owner, to, amount).value.balances,
                   StoreAllowance(env, l, p, Allowance(l, p) - amount).value.allowances,
                   MoveTokens(env, l, p.owner, to, amount).value.logs
                   + [ApprovalLog(p.owner, p.spender, Allowance(l, p) - amount)])
    ensures MoveTokens(env, l, p.owner, to, amount).value.allowances == l.allowances
  {
    var stored := StoreAllowance(env, l, p, Allowance(l, p) - amount).value;
    assert stored.balances == l.balances && stored.logs == l.logs;
  }

  lemma StoredAllowance(env: Env, l: Ledger, p: Pair, value: int, q: Pair)
    requires StoreAllowance(env, l, p, value).Ok?
    ensures Allowance(StoreAllowance(env, l, p, value).value, q) == if q == p then value else Allowance(l, q)
  {
  }

  /** The two logs of a delegated transfer, read as a transfer and then an approval. */
  lemma TransferFromTells(env: Env, l0: Ledger, l: Ledger, p: Pair, to: Address, amount: int)
    requires LogsTell(l0, l) && DoTransferFrom(env, l, p, to, amount).Ok?
    ensures LogsTell(l0, DoTransferFrom(env, l, p, to, amount).value)
  {
    hide LogsTell, DoTransferFrom, MoveTokens, StoreAllowance;
    TransferFromInTwoSteps(env, l, p, to, amount);
    MoveTells(env, l0, l, p.owner, to, amount);
    var left := Allowance(l, p) - amount;
    var moved := MoveTokens(env, l, p.owner, to, amount).value;
    var next := DoTransferFrom(env, l, p, to, amount).value;
    forall q ensures Allowance(next, q) == if q == p then left else Allowance(moved, q) {
      StoredAllowance(env, l, p, left, q);
    }
    OneMoreLog(l0, moved, next, ApprovalLog(p.owner, p.spender, left));
  }

  /** Amounts as the contract interface delivers them. */
  ghost predicate Uint256Amounts(steps: seq<Step>) {
    forall i :: 0 <= i < |steps| ==> 0 <= steps[i].call.amount < TWO_256
  }

  /** Replaying the emitted logs gives back every balance and every allowance. */
  lemma {:induction false} LogsReplay(l: Ledger, steps: seq<Step>)
    requires RowsOk(l) && Uint256Amounts(steps)
    ensures LogsTell(l, Run(l, steps))
  {
    assert l.logs[|l.logs|..] == [] && LogsTell(l, l);
    hide MoveTokens, DoTransferFrom, DoApprove, LogsTell;
    if steps != [] {
      var n := |steps| - 1;
      LogsReplay(l, steps[..n]);
      RowsStayOk(l, steps[..n]);
      var before := Run(l, steps[..n]);
      if Exec(steps[n].env, before, steps[n].call).Ok? {
        match steps[n].call
        case Transfer(caller, to, amount) => MoveTells(steps[n].env, l, before, caller, to, amount);
        case TransferFrom(caller, from, to, amount) => TransferFromTells(steps[n].env, l, before, Pair(from, caller), to, amount);
        case Approve(caller, spender, amount) => ApproveTells(steps[n].env, l, before, Pair(caller, spender), amount);
      }
    }
  }

  // ---------------------------------------------------------------- the precompile itself

  class Precompile {
    var balances: map<Address, int>
    var allowances: map<Pair, int>
    var logs: seq<Log>

    ghost function State(): (l: Ledger)
      reads this
    {
      Ledger(balances, allowances, logs)
    }

    /** The keeper's store update; an error leaves the rows as they were. */
    method SetAllowance(env: Env, p: Pair, value: int) returns (err: Option<Error>)
      modifies this
      ensures err.None? ==> StoreAllowance(env, old(State()), p, value) == Ok(State())
      ensures err.Some? ==> StoreAllowance(env, old(State()), p, value) == Err(err.value) && State() == old(State())
    {
      if !env.pairUsable { return Some(TokenPairUnusable); }
      if p.owner == ZERO_ADDRESS || p.spender == ZERO_ADDRESS { return Some(EmptyAddress); }
      if value < 0 { return Some(NegativeAmount); }
      if value >= TWO_256 { return Some(IntegerOverflow); }
      if value == 0 {
        allowances := allowances - {p};
      } else {
        allowances := allowances[p := value];
      }
      return None;
    }

    /** The bank takes from the sender before it gives to the recipient. */
    method SendCoins(env: Env, from: Address, to: Address, amount: int) returns (err: Option<Error>)
      modifies this
      ensures err.None? ==> Send(env, old(State()), from, to, amount) == Ok(State())
      ensures err.Some? ==> Send(env, old(State()), from, to, amount) == Err(err.value) && State() == old(State())
    {
      var has := if from in balances then balances[from] else 0;
      if !env.sendAllowed(from, to) || has < amount { return Some(SendFailed); }
      balances := balances[from := has - amount];
      balances := balances[to := (if to in balances then balances[to] else 0) + amount];
      return None;
    }

    /** The path shared by both transfers; an error after the allowance was lowered leaves it lowered. */
    method DoTransfer(env: Env, c: Call) returns (err: Option<Error>)
      requires c.Transfer? || c.TransferFrom?
      modifies this
      ensures err.None? ==> Exec(env, old(State()), c) == Ok(State())
      ensures err.Some? ==> Exec(env, old(State()), c) == Err(err.value)
      ensures err.Some? ==> balances == old(balances) && logs == old(logs)
    {
      if c.amount <= 0 { return Some(InvalidAmount); }
      var from := if c.Transfer? then c.caller else c.from;
      var p, left := Pair(from, c.caller), 0;
      if c.TransferFrom? {
        left := (if p in allowances then allowances[p] else 0) - c.amount;
        if left < 0 { return Some(InsufficientAllowance); }
        err := SetAllowance(env, p, left);
        if err.Some? { return err; }
      }
      err := SendCoins(env, from, c.to, c.amount);
      if err.Some? { return err; }
      logs := logs + [TransferLog(from, c.to, c.amount)];
      if c.TransferFrom? { logs := logs + [ApprovalLog(from, c.caller, left)]; }
    }

    method ApproveSpender(env: Env, c: Call) returns (err: Option<Error>)
      requires c.Approve? && RowsOk(State())
      modifies this
      ensures err.None? ==> Exec(env, old(State()), c) == Ok(State())
      ensures err.Some? ==> Exec(env, old(State()), c) == Err(err.value) && State() == old(State())
    {
      var p := Pair(c.caller, c.spender);
      var allowance := if p in allowances then allowances[p] else 0;
      err := None;
      if allowance == 0 && c.amount < 0 {
        err := Some(NegativeAmount);
      } else if allowance == 0 && c.amount > 0 {
        err := CheckedSet(env, p, c.amount);
      } else if allowance > 0 && c.amount <= 0 {
        err := SetAllowance(env, p, 0);
      } else if allowance > 0 && c.amount > 0 {
        err := CheckedSet(env, p, c.amount);
      }
      if err.Some? { return err; }
      logs := logs + [ApprovalLog(c.caller, c.spender, c.amount)];
    }

    method CheckedSet(env: Env, p: Pair, value: int) returns (err: Option<Error>)
      requires value > 0
      modifies this
      ensures err.None? ==> value < TWO_256 && StoreAllowance(env, old(State()), p, value) == Ok(State())
      ensures err.Some? && value >= TWO_256 ==> err.value == IntegerOverflow
      ensures err.Some? && value < TWO_256 ==> StoreAllowance(env, old(State()), p, value) == Err(err.value)
      ensures err.Some? ==> State() == old(State())
    {
      if value >= TWO_256 { return Some(IntegerOverflow); }
      err := SetAllowance(env, p, value);
    }

    /** One call of the precompile, with the state restored when it fails. */
    method RunNativeAction(step: Step) returns (err: Option<Error>)
      requires RowsOk(State())
      modifies this
      ensures State() == Run(old(State()), [step])
      ensures err.None? <==> Exec(step.env, old(State()), step.call).Ok?
      ensures RowsOk(State()) && Total(balances) == old(Total(balances))
    {
      ghost var before := State();
      assert [step][..0] == [];
      assert Run(before, [step][..0]) == before;
      RowsStayOk(before, [step]);
      SupplyIsConstant(before, [step]);
      var b, a, l := balances, allowances, logs;
      if step.call.Approve? {
        err := ApproveSpender(step.env, step.call);
      } else {
        err := DoTransfer(step.env, step.call);
      }
      if err.Some? { balances, allowances, logs := b, a, l; }
    }

    /** Every sequence of calls. */
    method RunAll(steps: seq<Step>)
      requires RowsOk(State())
      modifies this
      ensures State() == Run(old(State()), steps)
      ensures RowsOk(State()) && Total(balances) == old(Total(balances))
    {
      ghost var start := State();
      assert steps[..0] == [];
      for i := 0 to |steps|
        invariant State() == Run(start, steps[..i])
        invariant RowsOk(State()) && Total(balances) == Total(start.balances)
      {
        OneMoreCall(start, steps, i);
        var _ := RunNativeAction(steps[i]);
      }
      assert steps[..|steps|] == steps;
    }
  }

  lemma {:induction false} OneMoreCall(l: Ledger, steps: seq<Step>, i: nat)
    requires i < |steps|
    ensures Run(l, steps[..i + 1]) == Run(Run(l, steps[..i]), [steps[i]])
  {
    hide Exec;
    assert steps[..i + 1][..i] == steps[..i];
    assert [steps[i]][..0] == [];
    assert Run(Run(l, steps[..i]), [steps[i]][..0]) == Run(l, steps[..i]);
  }
}
