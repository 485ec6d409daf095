/** Transaction.cs: the immutable record of one balance change, the decimal
    values it carries, and the rules that a user's ordered list of such
    records obeys. */
module Transactions {

  /** decimal.MaxValue of System.Decimal. */
  const MaxDecimal: real := 79228162514264337593543950335.0

  /** A System.Decimal: an exact value inside the representable range. */
  type Decimal = r: real | -MaxDecimal <= r <= MaxDecimal

  /** The only two descriptions the bank ever writes. */
  const DepositLabel: string := "Deposit"
  const WithdrawLabel: string := "Withdraw"

  /** Transaction(amount, balance, description): the signed amount, the
      account balance after the amount was applied, and a description. */
  datatype Transaction = Transaction(amount: Decimal, balance: Decimal, description: string)

  /** The balance recorded by the last entry of `h`; a new account, whose
      history is empty, holds 0. */
  function LastBalance(h: seq<Transaction>): real
  {
    if h == [] then 0.0 else h[|h| - 1].balance
  }

  /** Sum of the signed amounts of `h`. */
  function SumAmounts(h: seq<Transaction>): real
  {
    if h == [] then 0.0 else SumAmounts(h[..|h| - 1]) + h[|h| - 1].amount
  }

  /** One entry applied on top of balance `before`: a deposit of a positive
      amount or a withdrawal of a negative one, whose recorded balance is the
      previous balance plus the amount, and never negative. */
  ghost predicate ValidEntry(before: real, t: Transaction)
  {
    && ((t.description == DepositLabel && t.amount > 0.0) ||
        (t.description == WithdrawLabel && t.amount < 0.0))
    && t.balance == before + t.amount
    && t.balance >= 0.0
  }

  /** The history was built by appending, one at a time, entries each valid
      on top of the balance the history held before it. */
  ghost predicate ValidHistory(h: seq<Transaction>)
  {
    h == [] ||
    (ValidHistory(h[..|h| - 1]) && ValidEntry(LastBalance(h[..|h| - 1]), h[|h| - 1]))
  }

  /** Appending an entry that is valid on top of the last balance keeps the
      history valid, and the new last balance is the entry's. */
  lemma ValidHistoryAppend(h: seq<Transaction>, t: Transaction)
    requires ValidHistory(h)
    requires ValidEntry(LastBalance(h), t)
    ensures ValidHistory(h + [t])
    ensures LastBalance(h + [t]) == t.balance
  {
    assert (h + [t])[..|h|] == h;
  }

  /** In a valid history every entry is valid on top of the entry before it
      (the first one on top of 0). */
  lemma {:induction false} ValidHistoryEntries(h: seq<Transaction>)
    requires ValidHistory(h)
    ensures forall i :: 0 <= i < |h| ==> ValidEntry(LastBalance(h[..i]), h[i])
  {
    if h != [] {
      var p := h[..|h| - 1];
      ValidHistoryEntries(p);
      forall i | 0 <= i < |h|
        ensures ValidEntry(LastBalance(h[..i]), h[i])
      {
        if i < |p| {
          assert p[i] == h[i] && p[..i] == h[..i];
        }
      }
    }
  }

  /** In a valid history the last recorded balance is the sum of all amounts. */
  lemma {:induction false} LastBalanceIsSum(h: seq<Transaction>)
    requires ValidHistory(h)
    ensures LastBalance(h) == SumAmounts(h)
  {
    if h != [] {
      LastBalanceIsSum(h[..|h| - 1]);
    }
  }

  /** In a valid history the last recorded balance is the sum of all amounts,
      every recorded balance is the sum of the amounts up to it and is
      non-negative, and every entry is a positive deposit or a negative
      withdrawal. */
  lemma HistoryFacts(h: seq<Transaction>)
    requires ValidHistory(h)
    ensures LastBalance(h) == SumAmounts(h)
    ensures forall i :: 0 <= i < |h| ==> h[i].balance == SumAmounts(h[..i + 1])
    ensures forall i :: 0 <= i < |h| ==> h[i].balance >= 0.0
    ensures forall i :: 0 <= i < |h| ==>
      (h[i].description == DepositLabel && h[i].amount > 0.0) ||
      (h[i].description == WithdrawLabel && h[i].amount < 0.0)
  {
    LastBalanceIsSum(h);
    ValidHistoryEntries(h);
    forall i | 0 <= i < |h|
      ensures h[i].balance == SumAmounts(h[..i + 1])
    {
      var p := h[..i + 1];
      assert p[..i] == h[..i];
      PrefixIsValid(h, i + 1);
      LastBalanceIsSum(p);
    }
  }

  /** Every prefix of a valid history is valid. */
  lemma {:induction false} PrefixIsValid(h: seq<Transaction>, n: nat)
    requires ValidHistory(h)
    requires n <= |h|
    ensures ValidHistory(h[..n])
    decreases |h|
  {
    if n < |h| {
      var p := h[..|h| - 1];
      assert p[..n] == h[..n];
      PrefixIsValid(p, n);
    } else {
      assert h[..n] == h;
    }
  }
}
