/** User.cs: an account holder. The bank changes `balance` and `history`
    in place; the other fields keep the constructor's values. */
module Users {
  import opened Transactions
  import Ledger

  class User {
    var firstName: string
    var lastName: string
    var balance: Decimal
    var username: string
    /** The hashed password. */
    var password: string
    /** Past transactions in the order they occurred. */
    var history: seq<Transaction>

    /** A new user with a balance of 0 and no transactions. */
    constructor (username: string, password: string, firstName: string, lastName: string)
      ensures this.username == username && this.password == password
      ensures this.firstName == firstName && this.lastName == lastName
      ensures balance == 0.0 && history == []
      ensures Account() == Ledger.NewAccount && Valid()
    {
      this.username := username;
      this.password := password;
      this.firstName := firstName;
      this.lastName := lastName;
      balance := 0.0;
      history := [];
    }

    /** The balance and history, as a value. */
    function Account(): Ledger.Account
      reads this
    {
      Ledger.Account(balance, history)
    }

    /** The ledger invariant holds of this user's balance and history. */
    ghost predicate Valid()
      reads this
    {
      Ledger.ValidAccount(Account())
    }
  }
}
