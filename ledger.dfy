/** The rules of Bank.Deposit and Bank.Withdraw (Bank.cs) as pure transitions
    on an account's balance and history. The imperative methods of the Bank
    class are proved to perform exactly these transitions. */
module Ledger {
  import opened Wrappers
  import opened Transactions

  /** The part of a User that deposits and withdrawals change. */
  datatype Account = Account(balance: Decimal, history: seq<Transaction>)

  /** A freshly constructed user holds nothing and has done nothing. */
  const NewAccount: Account := Account(0.0, [])

  /** The ledger invariant: the balance is non-negative, the history is a
      chain of valid entries, and the balance is the one the last entry
      recorded. */
  ghost predicate ValidAccount(a: Account)
  {
    a.balance >= 0.0 && ValidHistory(a.history) && a.balance == LastBalance(a.history)
  }

  /** Why a deposit or a withdrawal was refused. */
  datatype Error = NotANumber | NotPositive | Overflow | InsufficientFunds

  /** The error text the bank hands back for each refusal. */
  function Message(e: Error): (m: string)
    ensures |m| > 0
  {
    match e
    case NotANumber => "This is not a valid value."
    case NotPositive => "The value must be greater than 0."
    case Overflow => "There is not enough room in your account. Please create a new one."
    case InsufficientFunds => "You do not have enough money in your account."
  }

  datatype Outcome = Done(account: Account) | Failed(error: Error)

  /** Deposit of the value `parsed` obtained from the amount text (None when
      the text did not parse): checked in the order parse, positivity,
      room below decimal.MaxValue. */
  function DepositStep(a: Account, parsed: Option<Decimal>): (r: Outcome)
    ensures r.Done? <==> parsed.Some? && parsed.value > 0.0 && a.balance <= MaxDecimal - parsed.value
    ensures parsed.None? ==> r == Failed(NotANumber)
    ensures parsed.Some? && parsed.value <= 0.0 ==> r == Failed(NotPositive)
    ensures parsed.Some? && parsed.value > 0.0 && a.balance > MaxDecimal - parsed.value ==>
      r == Failed(Overflow)
    ensures r.Done? ==>
      && r.account.balance == a.balance + parsed.value
      && r.account.history == a.history + [Transaction(parsed.value, r.account.balance, DepositLabel)]
  {
    match parsed
    case None => Failed(NotANumber)
    case Some(v) =>
      if v <= 0.0 then Failed(NotPositive)
      else if a.balance > MaxDecimal - v then Failed(Overflow)
      else
        var b := a.balance + v;
        Done(Account(b, a.history + [Transaction(v, b, DepositLabel)]))
  }

  /** Withdrawal of the value `parsed`: checked in the order parse,
      positivity, sufficient funds. */
  function WithdrawStep(a: Account, parsed: Option<Decimal>): (r: Outcome)
    ensures r.Done? <==> parsed.Some? && parsed.value > 0.0 && a.balance - parsed.value >= 0.0
    ensures parsed.None? ==> r == Failed(NotANumber)
    ensures parsed.Some? && parsed.value <= 0.0 ==> r == Failed(NotPositive)
    ensures parsed.Some? && parsed.value > 0.0 && a.balance - parsed.value < 0.0 ==>
      r == Failed(InsufficientFunds)
    ensures r.Done? ==>
      && r.account.balance == a.balance - parsed.value
      && r.account.history == a.history + [Transaction(-parsed.value, r.account.balance, WithdrawLabel)]
  {
    match parsed
    case None => Failed(NotANumber)
    case Some(v) =>
      if v <= 0.0 then Failed(NotPositive)
      else if a.balance - v < 0.0 then Failed(InsufficientFunds)
      else
        var b := a.balance - v;
        Done(Account(b, a.history + [Transaction(-v, b, WithdrawLabel)]))
  }

  /** A request made against an account, carrying the parsed amount. */
  datatype Operation = DepositOp(parsed: Option<Decimal>) | WithdrawOp(parsed: Option<Decimal>)

  function Step(a: Account, op: Operation): Outcome
  {
    match op
    case DepositOp(p) => DepositStep(a, p)
    case WithdrawOp(p) => WithdrawStep(a, p)
  }

  /** The account after the request: the new account on success, the old
      one, untouched, on refusal. */
  function Apply(a: Account, op: Operation): Account
  {
    match Step(a, op)
    case Done(b) => b
    case Failed(_) => a
  }

  /** The account after a sequence of requests, in order. */
  function Replay(a: Account, ops: seq<Operation>): Account
    decreases |ops|
  {
    if ops == [] then a else Replay(Apply(a, ops[0]), ops[1..])
  }

  /** A successful deposit keeps the ledger invariant. */
  lemma DepositPreservesValid(a: Account, parsed: Option<Decimal>)
    requires ValidAccount(a)
    requires DepositStep(a, parsed).Done?
    ensures ValidAccount(DepositStep(a, parsed).account)
  {
    var v := parsed.value;
    var t := Transaction(v, a.balance + v, DepositLabel);
    var b := DepositStep(a, parsed).account;
    assert b.history == a.history + [t] && b.balance == t.balance;
    ValidHistoryAppend(a.history, t);
  }

  /** A successful withdrawal keeps the ledger invariant. */
  lemma WithdrawPreservesValid(a: Account, parsed: Option<Decimal>)
    requires ValidAccount(a)
    requires WithdrawStep(a, parsed).Done?
    ensures ValidAccount(WithdrawStep(a, parsed).account)
  {
    var v := parsed.value;
    var t := Transaction(-v, a.balance - v, WithdrawLabel);
    var b := WithdrawStep(a, parsed).account;
    assert b.history == a.history + [t] && b.balance == t.balance;
    ValidHistoryAppend(a.history, t);
  }

  /** Every request, accepted or refused, keeps the ledger invariant. */
  lemma ApplyPreservesValid(a: Account, op: Operation)
    requires ValidAccount(a)
    ensures ValidAccount(Apply(a, op))
  {
    match op
    case DepositOp(p) =>
      if DepositStep(a, p).Done? { DepositPreservesValid(a, p); }
    case WithdrawOp(p) =>
      if WithdrawStep(a, p).Done? { WithdrawPreservesValid(a, p); }
  }

  /** Any sequence of requests keeps the ledger invariant, and the history
      only ever grows at its end. */
  lemma {:induction false} ReplayPreservesValid(a: Account, ops: seq<Operation>)
    requires ValidAccount(a)
    ensures ValidAccount(Replay(a, ops))
    ensures |a.history| <= |Replay(a, ops).history|
    ensures Replay(a, ops).history[..|a.history|] == a.history
    decreases |ops|
  {
    if ops != [] {
      var b := Apply(a, ops[0]);
      ApplyPreservesValid(a, ops[0]);
      assert |a.history| <= |b.history| && b.history[..|a.history|] == a.history;
      ReplayPreservesValid(b, ops[1..]);
      var h := Replay(b, ops[1..]).history;
      assert h[..|a.history|] == h[..|b.history|][..|a.history|];
    }
  }

  /** Starting from a new user, after any sequence of deposits and
      withdrawals the balance is the sum of the history's amounts, every
      recorded balance is non-negative, the last entry records the current
      balance, and every entry is a positive deposit or a negative
      withdrawal. */
  lemma {:induction false} ReplayFromNewAccount(ops: seq<Operation>)
    ensures var a := Replay(NewAccount, ops);
      && a.balance >= 0.0
      && a.balance == SumAmounts(a.history)
      && (a.history != [] ==> a.history[|a.history| - 1].balance == a.balance)
      && (forall i :: 0 <= i < |a.history| ==> a.history[i].balance >= 0.0)
      && (forall i :: 0 <= i < |a.history| ==>
            (a.history[i].description == DepositLabel && a.history[i].amount > 0.0) ||
            (a.history[i].description == WithdrawLabel && a.history[i].amount < 0.0))
  {
    ReplayPreservesValid(NewAccount, ops);
    HistoryFacts(Replay(NewAccount, ops).history);
  }

  /** A withdrawal refused for lack of funds, repeated any number of times,
      leaves the account exactly as it was. */
  lemma {:induction false} RepeatedOverdraftChangesNothing(a: Account, parsed: Option<Decimal>, n: nat)
    requires WithdrawStep(a, parsed) == Failed(InsufficientFunds)
    ensures Replay(a, seq(n, _ => WithdrawOp(parsed))) == a
  {
    var ops := seq(n, _ => WithdrawOp(parsed));
    if n > 0 {
      assert ops[0] == WithdrawOp(parsed);
      assert ops[1..] == seq(n - 1, _ => WithdrawOp(parsed));
      RepeatedOverdraftChangesNothing(a, parsed, n - 1);
    }
  }

  /** A new account that deposits 100, withdraws 30, and then asks for 1000:
      the last request is refused for insufficient funds and the account
      holds 70 with two entries. */
  lemma DepositWithdrawOverdraw()
    ensures WithdrawStep(Account(70.0, [Transaction(100.0, 100.0, DepositLabel), Transaction(-30.0, 70.0, WithdrawLabel)]), Some(1000.0))
         == Failed(InsufficientFunds)
    ensures Replay(NewAccount, [DepositOp(Some(100.0)), WithdrawOp(Some(30.0)), WithdrawOp(Some(1000.0))])
         == Account(70.0, [Transaction(100.0, 100.0, DepositLabel), Transaction(-30.0, 70.0, WithdrawLabel)])
  {
    var ops := [DepositOp(Some(100.0)), WithdrawOp(Some(30.0)), WithdrawOp(Some(1000.0))];
    var t1 := Transaction(100.0, 100.0, DepositLabel);
    var t2 := Transaction(-30.0, 70.0, WithdrawLabel);
    var a1 := Account(100.0, [t1]);
    var a2 := Account(70.0, [t1, t2]);
    assert Apply(NewAccount, ops[0]) == a1;
    assert [t1] + [t2] == [t1, t2];
    assert Apply(a1, ops[1]) == a2;
    assert Apply(a2, ops[2]) == a2;
    assert ops[1..][1..] == [ops[2]];
    assert Replay(a2, [ops[2]]) == Replay(a2, []);
  }
}
