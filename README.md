# CommandLineBank ledger in Dafny

A model of the in-memory account ledger of CommandLineBank: the `Bank` class
with its registry of users keyed by username, account creation, login,
deposits and withdrawals, the `User` object whose balance and transaction
history the bank updates in place, and the immutable `Transaction` record.
The hex-encoding step of password hashing is modelled and proved; the
SHA-256 computation itself is a parameter.

Files and modules:

- `wrappers.dfy` (`Wrappers`): `Option`.
- `transaction.dfy` (`Transactions`): `Decimal` (an exact `real` between
  minus and plus `decimal.MaxValue` = 79228162514264337593543950335), the
  `Transaction` datatype, the two descriptions `"Deposit"` and `"Withdraw"`,
  and the history invariant `ValidHistory`. Each entry is a positive deposit
  or a negative withdrawal. Its recorded balance is the previous balance plus
  its amount, and is never negative.
- `ledger.dfy` (`Ledger`): deposit and withdrawal as pure transitions
  (`DepositStep`, `WithdrawStep`) on an `Account` value (balance and
  history), the refusal kinds and their exact error texts, `Replay` of any
  sequence of requests, and the lemmas about them.
- `hex.dfy` (`Hex`): the `"x2"` encoding of a digest (`Encode`), a decoder
  used only to prove that the encoding is injective, and the shape lemmas.
- `user.dfy` (`Users`): class `User` with mutable `balance` and `history`.
- `bank.dfy` (`Banking`): class `Bank` with `users: map<string, User>`, the
  username check, `HashPassword` (a loop over the digest bytes),
  `CreateAccount`, `Login`, `Deposit` and `Withdraw`, and short scenario
  methods on a new bank.

`Bank.Deposit` and `Bank.Withdraw` change `user.balance` and `user.history`
in place and nothing else. Each is proved to leave the user's account equal to
`Ledger.Apply` of the old account and the request. A run of bank calls
therefore follows `Ledger.Replay`, and the lemmas about `Replay` hold for it.
`Login` returns the very object stored in the registry. A deposit made through
that reference is therefore seen through `users` (`DepositThroughLogin`).

Results follow `Bank.cs` as written, not a typed-result design.
`CreateAccount` returns a `bool`, not the new user or an error kind.
`Deposit` and `Withdraw` return a `bool` and an error text. The text is `""`
on success and is one of the four messages of `Bank.cs` on failure; the
refusal kinds of `Ledger.Error` only name those messages.
`SHA-256` over the UTF-8 bytes of the password is the constant function field
`Bank.sha256`. `decimal.TryParse` is the constant function field
`Bank.tryParse`. Both are given to the constructor.

## Model

| member | source | states |
|---|---|---|
| `Banking.Bank.constructor` | CommandLineBank/CommandLineBank/Bank.cs:24-28 | a new bank has an empty registry and satisfies `Valid()`, which every later operation preserves |
| `Banking.Bank.DoesUserExistIffRegistered` | CommandLineBank/CommandLineBank/Bank.cs:35-38 | stands for `Bank.DoesUserExist` (key membership in `users`): in a consistent bank a username exists exactly when some registered user carries it, and that user is the one stored under it (usernames are unique) |
| `Banking.AllLetterOrDigitIff` | CommandLineBank/CommandLineBank/Bank.cs:49 | the left-to-right `All(IsLetterOrDigit)` scan accepts exactly the strings whose every character is a letter or digit |
| `Banking.Bank.UsernameValidIff` | CommandLineBank/CommandLineBank/Bank.cs:45-50 | stands for `Bank.IsUsernameValid`: a username is valid exactly when it is non-empty, starts with a letter, and every character is a letter or digit |
| `Banking.Bank.UsernameExamples` | CommandLineBank/CommandLineBank/Bank.cs:45-50 | "bob1" is accepted; "1bob", "" and "bob!" are rejected |
| `Banking.Bank.CreateAccount` | CommandLineBank/CommandLineBank/Bank.cs:60-71 | returns true exactly when the username was absent and is valid. On success the registry gains exactly that key, mapped to a fresh user with the given names, the hashed password, balance 0 and empty history, and all other entries are kept. On failure the registry is unchanged. The registry invariant is preserved |
| `Banking.Bank.Login` | CommandLineBank/CommandLineBank/Bank.cs:79-99 | null for an unknown username; otherwise the stored user object itself exactly when the digest of the password equals the stored digest, and null otherwise |
| `Banking.Bank.Deposit` | CommandLineBank/CommandLineBank/Bank.cs:108-136 | succeeds exactly when `DepositStep` does. The error is "" on success and the message of the refusal otherwise. The user's balance and history become `Apply` of the deposit, so they are unchanged on failure. The user and registry invariants are preserved |
| `Banking.Bank.Withdraw` | CommandLineBank/CommandLineBank/Bank.cs:145-172 | the same, for `WithdrawStep` |
| `Banking.Bank.HashPassword` | CommandLineBank/CommandLineBank/Bank.cs:179-193 | the loop builds exactly `Encode` of the SHA-256 digest: 64 characters, all lower-case hex digits |
| `Banking.AliceLoggedIn` | CommandLineBank/CommandLineBank/Bank.cs:60-99 | on a new bank, creating "alice" and logging in with her password returns the stored user, whose account is new |
| `Banking.DuplicateRefused` | CommandLineBank/CommandLineBank/Bank.cs:63-66 | a second `CreateAccount` of the same username, with another password and last name, returns false; the registry is unchanged and the stored user keeps her password digest, her names and her new account |
| `Banking.LoginRefused` | CommandLineBank/CommandLineBank/Bank.cs:83-98 | a wrong password (one whose digest differs) and an unknown username both give null |
| `Banking.RefusedDeposits` | CommandLineBank/CommandLineBank/Bank.cs:113-123 | deposits of "abc", "-5" and "0" are refused with the not-a-number, not-positive and not-positive messages, and the account stays new |
| `Banking.DepositThroughLogin` | CommandLineBank/CommandLineBank/Bank.cs:85-95 | a deposit made through the object `Login` returned is visible in the registry |
| `Ledger.Message` | CommandLineBank/CommandLineBank/Bank.cs:115-164 | every refusal carries a non-empty error text |
| `Ledger.DepositStep` | CommandLineBank/CommandLineBank/Bank.cs:113-133 | the checks come in order: unparsable gives NotANumber, a value ≤ 0 gives NotPositive, and Balance > MaxValue − amount gives Overflow. Otherwise the deposit succeeds, the new balance is old + amount, and the history gains exactly `Transaction(amount, newBalance, "Deposit")` at its end |
| `Ledger.WithdrawStep` | CommandLineBank/CommandLineBank/Bank.cs:150-169 | the checks come in order: unparsable gives NotANumber, a value ≤ 0 gives NotPositive, and Balance − amount < 0 gives InsufficientFunds. Otherwise the new balance is old − amount, and the history gains exactly `Transaction(−amount, newBalance, "Withdraw")` at its end |
| `Ledger.DepositPreservesValid` | CommandLineBank/CommandLineBank/Bank.cs:132-133 | a successful deposit keeps the ledger invariant |
| `Ledger.WithdrawPreservesValid` | CommandLineBank/CommandLineBank/Bank.cs:168-169 | a successful withdrawal keeps the ledger invariant |
| `Ledger.ApplyPreservesValid` | CommandLineBank/CommandLineBank/Bank.cs:108-172 | every request, accepted or refused, keeps the ledger invariant |
| `Ledger.ReplayPreservesValid` | CommandLineBank/CommandLineBank/User.cs:37 | any sequence of requests keeps the invariant, and the old history stays a prefix: the history only grows at its end |
| `Ledger.ReplayFromNewAccount` | CommandLineBank/CommandLineBank/User.cs:37 | from a new user, after any sequence of deposits and withdrawals: balance ≥ 0, balance = sum of the history's amounts, the last entry records the balance, every recorded balance ≥ 0, every entry a positive "Deposit" or a negative "Withdraw" |
| `Ledger.RepeatedOverdraftChangesNothing` | CommandLineBank/CommandLineBank/Bank.cs:162-166 | a withdrawal refused for lack of funds, repeated any number of times, leaves the account exactly as it was |
| `Ledger.DepositWithdrawOverdraw` | CommandLineBank/CommandLineBank/Bank.cs:108-172 | from a new account, deposit 100, withdraw 30, then withdraw 1000: the account holds 70 with the two expected entries, and the last request fails with InsufficientFunds |
| `Transactions.ValidHistoryAppend` | CommandLineBank/CommandLineBank/Bank.cs:133 | appending an entry valid on top of the last balance keeps the history valid; the new last balance is that entry's |
| `Transactions.ValidHistoryEntries` | CommandLineBank/CommandLineBank/Transaction.cs:22-25 | in a valid history each entry's balance is the previous balance plus its amount, and each entry is a positive deposit or a negative withdrawal |
| `Transactions.LastBalanceIsSum` | CommandLineBank/CommandLineBank/Transaction.cs:22-25 | the last recorded balance of a valid history is the sum of its amounts |
| `Transactions.HistoryFacts` | CommandLineBank/CommandLineBank/Transaction.cs:8-25 | in a valid history every recorded balance is the prefix sum of the amounts and is ≥ 0; the descriptions are only "Deposit" (positive amount) and "Withdraw" (negative amount) |
| `Users.User.constructor` | CommandLineBank/CommandLineBank/User.cs:46-54 | the four strings are stored as given, the balance is 0 and the history is empty, so the new user satisfies the ledger invariant |
| `Hex.DigitValue` | CommandLineBank/CommandLineBank/Bank.cs:189 | a character has a value exactly when it is a lower-case hex digit, and the value is below 16 |
| `Hex.DigitValueOfDigit` | CommandLineBank/CommandLineBank/Bank.cs:189 | each of the 16 digit characters reads back as its own value |
| `Hex.ByteToHexDigits` | CommandLineBank/CommandLineBank/Bank.cs:189 | `"x2"` writes two hex digits, the high nibble first and then the low one |
| `Hex.EncodeAppend` | CommandLineBank/CommandLineBank/Bank.cs:187-190 | encoding a concatenation is concatenating the encodings, so byte-by-byte appending builds the whole encoding |
| `Hex.EncodeShape` | CommandLineBank/CommandLineBank/Bank.cs:187-190 | two characters per byte, all lower-case hex digits |
| `Hex.EncodeAt` | CommandLineBank/CommandLineBank/Bank.cs:187-190 | byte i is written at positions 2i and 2i+1, in byte order |
| `Hex.DecodeEncode` | CommandLineBank/CommandLineBank/Bank.cs:187-192 | decoding the encoding gives back the bytes |
| `Hex.EncodeInjective` | CommandLineBank/CommandLineBank/Bank.cs:187-192 | two encodings are equal exactly when the digests are, so comparing stored strings compares digests |
| `Hex.DigestEncoding` | CommandLineBank/CommandLineBank/Bank.cs:186-192 | a 32-byte digest encodes to 64 lower-case hex digits |

## Left out

- SHA-256 and the UTF-8 encoding of the password are not modelled. They are the opaque deterministic function `Bank.sha256`, from a string to 32 bytes.
- `decimal.TryParse` is not modelled. It is culture-dependent library parsing, and is the opaque function `Bank.tryParse`, from a string to an optional decimal.
- System.Decimal is modelled as exact `real` values within ±MaxValue. Its rounding to 28–29 significant digits is not modelled.
- `char.IsLetter` and `char.IsLetterOrDigit` use Unicode categories. The model accepts only ASCII letters and digits.
- `Transaction.Date` (a `DateTime.Now` clock read) is not modelled.
- The `Name` property of `Bank`, and the constructor argument that sets it, are not modelled. They have no behaviour.
- The `StringBuilder` in `HashPassword` is a string that the loop extends.
- The console front end is not part of this model. This covers its lowercasing of usernames, its password-length and confirmation checks, and all I/O.
- Null arguments are not modelled, because Dafny's `string` and `User` exclude null. In the source, `IsUsernameValid` returns false for a null username. `DoesUserExist`, `CreateAccount` and `Login` throw on one, in `ContainsKey`. `HashPassword` throws on a null password. `Deposit` and `Withdraw` throw on a null user, after the parse and positivity checks.
- `TransactionHistory` is a `List<Transaction>` that `Add` changes in place. The model keeps it as a `seq` field that each operation reassigns with one entry appended. No other reference to the list exists, so no aliasing of the list is lost.
- Concurrency is not modelled. The program is single-threaded.
