/** Bank.cs: the registry of users keyed by username, account creation,
    login, deposits and withdrawals. */
module Banking {
  import opened Wrappers
  import opened Transactions
  import opened Hex
  import Ledger
  import opened Users

  /** char.IsLetter, over ASCII. */
  predicate IsLetter(c: char)
  {
    'a' <= c <= 'z' || 'A' <= c <= 'Z'
  }

  /** char.IsLetterOrDigit, over ASCII. */
  predicate IsLetterOrDigit(c: char)
  {
    IsLetter(c) || '0' <= c <= '9'
  }

  /** Enumerable.All(char.IsLetterOrDigit) over the characters of `s`, in order. */
  predicate AllLetterOrDigit(s: string)
  {
    s == [] || (IsLetterOrDigit(s[0]) && AllLetterOrDigit(s[1..]))
  }

  /** The scan accepts exactly the strings made only of letters and digits. */
  lemma {:induction false} AllLetterOrDigitIff(s: string)
    ensures AllLetterOrDigit(s) <==> forall i :: 0 <= i < |s| ==> IsLetterOrDigit(s[i])
  {
    if s != [] {
      AllLetterOrDigitIff(s[1..]);
      assert forall i :: 1 <= i < |s| ==> s[i] == s[1..][i - 1];
    }
  }

  class Bank {
    /** Usernames mapped to their users. */
    var users: map<string, User>
    /** SHA-256 of the UTF-8 bytes of a string. */
    const sha256: string -> Digest
    /** decimal.TryParse: the value of a text, or None when it does not parse. */
    const tryParse: string -> Option<Decimal>

    /** Every registered user is stored under its own username and satisfies
        the ledger invariant. */
    ghost predicate Valid()
      reads this, users.Values
    {
      forall k :: k in users ==> Registered(k, users[k])
    }

    /** `user` may be stored under key `k`. */
    static ghost predicate Registered(k: string, user: User)
      reads user
    {
      && user.username == k
      && user.Valid()
    }

    /** A bank with no users. */
    constructor (sha256: string -> Digest, tryParse: string -> Option<Decimal>)
      ensures users == map[] && this.sha256 == sha256 && this.tryParse == tryParse
      ensures Valid()
    {
      users := map[];
      this.sha256 := sha256;
      this.tryParse := tryParse;
    }

    function DoesUserExist(username: string): bool
      reads this
    {
      username in users
    }

    /** In a consistent bank a username exists exactly when some registered
        user carries it, and that user is the one stored under it. */
    lemma DoesUserExistIffRegistered(username: string)
      requires Valid()
      ensures DoesUserExist(username) <==> exists u :: u in users.Values && u.username == username
      ensures forall u :: u in users.Values && u.username == username ==> users[username] == u
    {
      if DoesUserExist(username) {
        assert users[username] in users.Values;
      }
      forall u | u in users.Values && u.username == username
        ensures username in users && users[username] == u
      {
        var k :| k in users && users[k] == u;
      }
    }

    /** Non-empty, starting with a letter, and made of letters and digits. */
    static predicate IsUsernameValid(username: string)
    {
      |username| > 0 && IsLetter(username[0]) && AllLetterOrDigit(username)
    }

    lemma UsernameValidIff(username: string)
      ensures IsUsernameValid(username) <==>
        && |username| > 0
        && IsLetter(username[0])
        && forall i :: 0 <= i < |username| ==> IsLetterOrDigit(username[i])
    {
      AllLetterOrDigitIff(username);
    }

    lemma UsernameExamples()
      ensures IsUsernameValid("bob1")
      ensures !IsUsernameValid("1bob") && !IsUsernameValid("") && !IsUsernameValid("bob!")
    {
      UsernameValidIff("bob1");
      UsernameValidIff("bob!");
      assert "bob!"[3] == '!';
    }

    /** The stored form of a password: its SHA-256 digest in hex. */
    function PasswordDigest(password: string): string
    {
      Encode(sha256(password))
    }

    /** Hashes a password by writing each digest byte as two hex digits. */
    method HashPassword(password: string) returns (hash: string)
      ensures hash == PasswordDigest(password)
      ensures |hash| == 64 && IsLowerHex(hash)
    {
      var bytes := sha256(password);
      var builder := "";
      for i := 0 to |bytes|
        invariant builder == Encode(bytes[..i])
      {
        EncodeAppend(bytes[..i], [bytes[i]]);
        assert bytes[..i + 1] == bytes[..i] + [bytes[i]];
        assert Encode([bytes[i]]) == ByteToHex(bytes[i]);
        builder := builder + ByteToHex(bytes[i]);
      }
      assert bytes[..|bytes|] == bytes;
      DigestEncoding(bytes);
      hash := builder;
    }

    /** Creates an account when the username is free and valid; otherwise
        changes nothing. */
    method CreateAccount(username: string, password: string, firstName: string, lastName: string)
      returns (ok: bool)
      modifies this
      ensures ok <==> !old(DoesUserExist(username)) && IsUsernameValid(username)
      ensures !ok ==> users == old(users)
      ensures ok ==>
        && users.Keys == old(users.Keys) + {username}
        && (forall k :: k in old(users) ==> users[k] == old(users[k]))
        && fresh(users[username])
        && users[username].username == username
        && users[username].password == PasswordDigest(password)
        && users[username].firstName == firstName
        && users[username].lastName == lastName
        && users[username].Account() == Ledger.NewAccount
      ensures old(Valid()) ==> Valid()
    {
      if !DoesUserExist(username) && IsUsernameValid(username) {
        var hashed := HashPassword(password);
        var user := new User(username, hashed, firstName, lastName);
        users := users[username := user];
        ok := true;
      } else {
        ok := false;
      }
    }

    /** The registered user when the password's digest matches the stored
        one; null for an unknown username and for a wrong password alike. */
    method Login(username: string, password: string) returns (user: User?)
      ensures username !in users ==> user == null
      ensures username in users ==> (user != null <==> users[username].password == PasswordDigest(password))
      ensures user != null ==> user == users[username]
    {
      var found: User;
      if username in users {
        found := users[username];
      } else {
        return null;
      }

      var hashPass := HashPassword(password);
      if found.password == hashPass {
        return found;
      }

      return null;
    }

    /** Deposits the amount that `amount` parses to: exactly the transition
        Ledger.DepositStep, with "" as the error on success. */
    method Deposit(user: User, amount: string) returns (ok: bool, error: string)
      modifies user`balance, user`history
      ensures var r := Ledger.DepositStep(old(user.Account()), tryParse(amount));
        && ok == r.Done?
        && error == (if r.Done? then "" else Ledger.Message(r.error))
      ensures user.Account() == Ledger.Apply(old(user.Account()), Ledger.DepositOp(tryParse(amount)))
      ensures old(user.Valid()) ==> user.Valid()
      ensures old(Valid()) ==> Valid()
    {
      ghost var before := user.Account();
      error := "";
      var parsed := tryParse(amount);
      if parsed.None? {
        error := Ledger.Message(Ledger.NotANumber);
        ok := false;
        assert Ledger.DepositStep(before, parsed) == Ledger.Failed(Ledger.NotANumber);
      } else if parsed.value <= 0.0 {
        error := Ledger.Message(Ledger.NotPositive);
        ok := false;
        assert Ledger.DepositStep(before, parsed) == Ledger.Failed(Ledger.NotPositive);
      } else if user.balance > MaxDecimal - parsed.value {
        error := Ledger.Message(Ledger.Overflow);
        ok := false;
        assert Ledger.DepositStep(before, parsed) == Ledger.Failed(Ledger.Overflow);
      } else {
        var result := parsed.value;
        user.balance := user.balance + result;
        user.history := user.history + [Transaction(result, user.balance, DepositLabel)];
        ok := true;
        assert Ledger.DepositStep(before, parsed) == Ledger.Done(user.Account());
      }
      if Ledger.ValidAccount(before) {
        Ledger.ApplyPreservesValid(before, Ledger.DepositOp(parsed));
      }
      if old(Valid()) {
        forall k | k in users
          ensures Registered(k, users[k])
        {
          assert old(Registered(k, users[k]));
        }
      }
    }

    /** Withdraws the amount that `amount` parses to: exactly the transition
        Ledger.WithdrawStep, with "" as the error on success. */
    method Withdraw(user: User, amount: string) returns (ok: bool, error: string)
      modifies user`balance, user`history
      ensures var r := Ledger.WithdrawStep(old(user.Account()), tryParse(amount));
        && ok == r.Done?
        && error == (if r.Done? then "" else Ledger.Message(r.error))
      ensures user.Account() == Ledger.Apply(old(user.Account()), Ledger.WithdrawOp(tryParse(amount)))
      ensures old(user.Valid()) ==> user.Valid()
      ensures old(Valid()) ==> Valid()
    {
      ghost var before := user.Account();
      error := "";
      var parsed := tryParse(amount);
      if parsed.None? {
        error := Ledger.Message(Ledger.NotANumber);
        ok := false;
        assert Ledger.WithdrawStep(before, parsed) == Ledger.Failed(Ledger.NotANumber);
      } else if parsed.value <= 0.0 {
        error := Ledger.Message(Ledger.NotPositive);
        ok := false;
        assert Ledger.WithdrawStep(before, parsed) == Ledger.Failed(Ledger.NotPositive);
      } else if user.balance - parsed.value < 0.0 {
        error := Ledger.Message(Ledger.InsufficientFunds);
        ok := false;
        assert Ledger.WithdrawStep(before, parsed) == Ledger.Failed(Ledger.InsufficientFunds);
      } else {
        var result := parsed.value;
        user.balance := user.balance - result;
        user.history := user.history + [Transaction(-result, user.balance, WithdrawLabel)];
        ok := true;
        assert Ledger.WithdrawStep(before, parsed) == Ledger.Done(user.Account());
      }
      if Ledger.ValidAccount(before) {
        Ledger.ApplyPreservesValid(before, Ledger.WithdrawOp(parsed));
      }
      if old(Valid()) {
        forall k | k in users
          ensures Registered(k, users[k])
        {
          assert old(Registered(k, users[k]));
        }
      }
    }
  }

  /** A new bank with "alice" registered, and the user object Login hands
      back for her: the very object stored in the registry. */
  method AliceLoggedIn(sha256: string -> Digest, tryParse: string -> Option<Decimal>)
    returns (bank: Bank, user: User)
    ensures fresh(bank) && bank.sha256 == sha256 && bank.tryParse == tryParse && bank.Valid()
    ensures bank.users.Keys == {"alice"} && bank.users["alice"] == user && fresh(user)
    ensures user.password == bank.PasswordDigest("password1")
    ensures user.firstName == "Alice" && user.lastName == "Smith"
    ensures user.Account() == Ledger.NewAccount
  {
    bank := new Bank(sha256, tryParse);
    assert Bank.IsUsernameValid("alice");
    var created := bank.CreateAccount("alice", "password1", "Alice", "Smith");
    var found := bank.Login("alice", "password1");
    user := found;
  }

  /** Creating "alice" a second time, with another password and last name,
      is refused: the registry and the stored user, including her password
      digest and names, are left as they were. */
  method DuplicateRefused(sha256: string -> Digest, tryParse: string -> Option<Decimal>)
    returns (bank: Bank, user: User, createdAgain: bool)
    ensures !createdAgain
    ensures bank.users == map["alice" := user]
    ensures user.password == bank.PasswordDigest("password1")
    ensures user.firstName == "Alice" && user.lastName == "Smith"
    ensures user.Account() == Ledger.NewAccount
  {
    bank, user := AliceLoggedIn(sha256, tryParse);
    createdAgain := bank.CreateAccount("alice", "password2", "Alice", "Jones");
  }

  /** Login refuses a wrong password and an unknown username alike. */
  method LoginRefused(sha256: string -> Digest, tryParse: string -> Option<Decimal>)
    returns (wrongPassword: User?, unknownUser: User?)
    requires sha256("password1") != sha256("password2")
    ensures wrongPassword == null && unknownUser == null
  {
    var bank, user := AliceLoggedIn(sha256, tryParse);
    EncodeInjective(sha256("password1"), sha256("password2"));
    wrongPassword := bank.Login("alice", "password2");
    unknownUser := bank.Login("bob", "password1");
  }

  /** Deposits of "abc", "-5" and "0" are each refused, with the error text
      for a text that is not a number, then twice for a value not above 0,
      and the account stays as it was. */
  method RefusedDeposits(sha256: string -> Digest, tryParse: string -> Option<Decimal>)
    returns (errors: seq<string>, after: Ledger.Account)
    requires tryParse("abc") == None && tryParse("-5") == Some(-5.0) && tryParse("0") == Some(0.0)
    ensures errors == [Ledger.Message(Ledger.NotANumber), Ledger.Message(Ledger.NotPositive),
                       Ledger.Message(Ledger.NotPositive)]
    ensures after == Ledger.NewAccount
  {
    var bank, user := AliceLoggedIn(sha256, tryParse);
    var ok, e1 := bank.Deposit(user, "abc");
    var e2, e3;
    ok, e2 := bank.Deposit(user, "-5");
    ok, e3 := bank.Deposit(user, "0");
    errors := [e1, e2, e3];
    after := bank.users["alice"].Account();
  }

  /** A deposit of 100.00 made through the object Login returned is seen
      through the registry. */
  method DepositThroughLogin(sha256: string -> Digest, tryParse: string -> Option<Decimal>)
    returns (ok: bool, registered: Ledger.Account)
    requires tryParse("100.00") == Some(100.0)
    ensures ok && registered == Ledger.Account(100.0, [Transaction(100.0, 100.0, DepositLabel)])
  {
    var bank, user := AliceLoggedIn(sha256, tryParse);
    var error;
    ok, error := bank.Deposit(user, "100.00");
    registered := bank.users["alice"].Account();
  }
}
