# User management system — a Dafny model of the account core

The system is a single-file, text-persisted account manager. Users register with a name, a
passcode and an opening balance. They log in by name and passcode, and then transfer money to
another user, change their name and passcode, or withdraw money. Every change is written back
to a flat file of one record per line.

This project models the account logic of `usermanagementsystem.py` as pure functions over an
immutable table. The table is a map from id to record together with the keys' insertion order,
which is the order in which a Python dictionary yields its values. Console input arrives as
parameters. An amount that `float(...)` fails to parse is `None`. Balances are exact `real`s.

- `Records` (`records.dfy`): the `User` record and the `UserData` table. It also holds the
  invariants `Valid` (the order lists each key once), `Keyed` (each record is stored under its
  own id), `UniqueNames` and `NonNegative`, plus dictionary assignment `Put` and the table's
  `Total` balance.
- `RecordStore` (`store.dfy`): loading folds the parsed lines into a table, and a later line
  with the same id wins. Saving yields the set of records, which is the dedup-by-content rule.
- `Accounts` (`accounts.dfy`): id allocation, name lookup, registration, login, transfer,
  profile update and withdrawal. Each returns a `Result` holding either an error kind or the
  new table. The module also holds the lemmas about them.
- `Session` (`session.dfy`): the user menu after a login. It is a sequence of requests applied
  to the one table loaded at login, under the logged-in user's id.
- `Scenario` (`scenario.dfy`): a worked alice/bob example replayed on the model, and a rename that gives two users the same name, followed by a reload.

## Model

| member | source | states |
|---|---|---|
| `Records.Put` | usermanagementsystem.py:15 | Dictionary assignment, as used at lines 15, 67, 154-155, 176 and 201: the value under the key is replaced and nothing else changes. An existing key keeps its place in the iteration order and a new key goes last, and the order still lists each key once |
| `RecordStore.Load` | usermanagementsystem.py:4-18 | The loaded table lists every key once, and every record sits under its own id |
| `RecordStore.LoadKeys` | usermanagementsystem.py:10-15 | An id is in the loaded table exactly when some parsed line carries it; unparseable lines contribute nothing |
| `RecordStore.LoadOrderFirst` | usermanagementsystem.py:9-15 | When the first line parses, its id is the first key in the loaded table's iteration order, because later lines overwrite in place or go after it |
| `RecordStore.LoadLastWins` | usermanagementsystem.py:13-15 | Each id holds the record of the last line that carries that id, so later lines overwrite earlier ones |
| `RecordStore.Save` | usermanagementsystem.py:20-27 | Every record in the table is written. Every written record is a record of the table, stored under its id. In a keyed table the de-duplication drops nothing: as many lines as records |
| `RecordStore.KeyedRecordsCard` | usermanagementsystem.py:22-23 | When every record sits under its own id, no two keys share a record, so the set of records is as large as the table |
| `RecordStore.SaveLoadRoundTrip` | usermanagementsystem.py:4-27 | Reading back a saved keyed table, with its lines in any order, restores the same records, and saving again writes the same set of lines |
| `Accounts.MaxOf` | usermanagementsystem.py:32 | The result is one of the ids and no id exceeds it |
| `Accounts.NextId` | usermanagementsystem.py:29-35 | 1 for an empty table; otherwise one past an id in use and greater than every id in use, so it is never a key already |
| `Accounts.FirstNamed` | usermanagementsystem.py:84-87 | The position found carries the name and no earlier position does; with no result, no position carries it |
| `Accounts.FindByName` | usermanagementsystem.py:83-87 | It returns a key exactly when that key is the first one, in iteration order, whose record has the name. It returns nothing exactly when no record has the name |
| `Accounts.FirstNamedUnique` | usermanagementsystem.py:140-144 | At most one key is the first with a given name, so the scan's answer is determined |
| `Accounts.IsNameTaken` | usermanagementsystem.py:37-42 | True exactly when some record's name equals the given name |
| `Accounts.Register` | usermanagementsystem.py:44-75 | Mismatched passcodes, then an unparseable amount, then a taken name are refused in that order. Success happens exactly when all three pass. It adds one record under a fresh id greater than all others, with the given fields, and leaves every existing record as it was |
| `Accounts.RegisterKeepsNamesUnique` | usermanagementsystem.py:62-72 | If names were unique before a registration, they are unique after it |
| `Accounts.RegisterNonNegative` | usermanagementsystem.py:56-72 | The sign of the opening amount is not checked. From a table with no negative balance, the result has none exactly when the amount is not negative |
| `Accounts.RegisterIdsIncrease` | usermanagementsystem.py:66-67 | The issued id is the announced next id, and the following next id is one higher, so ids strictly increase |
| `Accounts.Login` | usermanagementsystem.py:77-96 | The first record with the name decides. Success happens exactly when its passcode matches, and returns that record. Otherwise the error is a bad passcode, or user-not-found exactly when no record has the name |
| `Accounts.LoginUniqueNames` | usermanagementsystem.py:83-96 | While names are unique, login succeeds exactly when some record has both the name and the passcode |
| `Accounts.Transfer` | usermanagementsystem.py:121-160 | Refusals come in this order: unparseable amount, amount <= 0, amount above the sender's balance (before the recipient lookup), unknown recipient, recipient is the sender. Success happens exactly when all pass. Then only the sender is debited and the first recipient with the name is credited by the amount, with keys and order unchanged |
| `Accounts.SendTo` | usermanagementsystem.py:140-160 | Once the amount has passed its checks: with no user of that name the transfer is refused as unknown, and when the first user of that name is the sender it is refused as a self-transfer. It succeeds exactly when the first user of that name is someone else, and then only the sender and that user change, by the amount in opposite directions |
| `Accounts.TwoRecordTotal` | usermanagementsystem.py:151-155 | Moving an amount between two distinct records leaves the table's total unchanged |
| `Accounts.TransferConservesMoney` | usermanagementsystem.py:151-155 | After a transfer the total and the sender-plus-recipient sum are unchanged. The sender's balance is not negative, and a table with no negative balance keeps none |
| `Accounts.Update` | usermanagementsystem.py:162-179 | Mismatched new passcodes are the only refusal. On success the current user's name and passcode are overwritten; their id, their amount and every other record are unchanged |
| `Accounts.UpdateTotal` | usermanagementsystem.py:173-176 | An update moves no money and creates no negative balance |
| `Accounts.UpdateUniqueNames` | usermanagementsystem.py:169-176 | Starting from unique names, the result keeps them unique exactly when no other user has the new name. The new name is not re-checked |
| `Accounts.UpdateCanDuplicateName` | usermanagementsystem.py:173-176 | Concrete case: bob renames to "alice" and succeeds, and names are no longer unique. A login as "alice" with bob's new passcode, against that same table where alice's key comes first, is refused with a bad passcode |
| `Scenario.RenameBob` | usermanagementsystem.py:162-179 | From alice with 70 and bob with 30, bob's rename to "alice" with passcode "9999" is accepted and yields the table where both records are named "alice" |
| `Scenario.RenameThenReload` | usermanagementsystem.py:77-96 | After that rename is saved, the next login reloads the saved file, whose lines come in any order (the `set` at line 23). As "alice" with bob's new passcode it returns bob's record exactly when bob's line is first, and otherwise is refused with a bad passcode, so the outcome depends on the save order |
| `Accounts.Withdraw` | usermanagementsystem.py:181-204 | Refusals come in this order: unparseable amount, amount <= 0, amount above the balance. Success happens exactly when all pass. Only the current user's balance drops, by exactly the amount, and it stays at or above zero |
| `Accounts.WithdrawTotal` | usermanagementsystem.py:195-201 | A withdrawal lowers the table's total by exactly the amount and creates no negative balance |
| `Session.Step` | usermanagementsystem.py:107-114 | An accepted request keeps the keys, order and keying. It does not raise the total or create a negative balance. It changes no other user's name or passcode and lowers no other user's balance |
| `Session.Run` | usermanagementsystem.py:98-119 | Across a whole session the same invariants hold, with the table threaded through every request: keys, order and keying kept, total not raised, no negative balance created, other users' names and passcodes untouched and their balances never lowered |
| `Session.LoginSession` | usermanagementsystem.py:77-96 | A failed login ends with exactly the login's error. A successful one runs the session as the logged-in user: same keys, total not raised, and no lower balance for any user of another name |
| `Scenario.AliceAndBob` | usermanagementsystem.py:44-204 | Starting from an empty table: alice registers with id 1 and bob with id 2. A transfer of 30 leaves them at 70 and 30. A withdrawal of 1000 is refused for insufficient funds. A wrong passcode and an unknown name are refused with their own errors |

## Left out

- Console menus, prompts and messages (`main_menu`, `user_menu`'s loop, `input`, `print`; usermanagementsystem.py:98-120, 206-227) are text I/O. Requests arrive as parameters; a session is a sequence of requests, logout is its end, and an invalid menu choice, which changes nothing, is not represented.
- File I/O is not modelled: `os.path.exists`, `open`, truncation and write failures. A missing file and an empty one both load as the empty table, which is `Load([])`.
- The line format is not modelled: `f"{info}"` printing and `ast.literal_eval` parsing are library behaviour. A file is the sequence of its parsed lines, where `None` is a line whose parse raises `SyntaxError` or `ValueError`, the only errors the load catches and skips (usermanagementsystem.py:16-17). Any other parser error, such as a `TypeError` for an unhashable dictionary key or a `RecursionError` for a deeply nested literal, aborts the whole load, and the model does not represent that.
- A parsed line is assumed to be a complete, well-typed record with an integer `id`, string `name` and `passcode`, and a numeric `amount`. A dictionary that lacks one of these keys, or has a non-numeric `amount`, loads without error in the code and only raises `KeyError` or `TypeError` at a later use of the record: in registration, login, transfer as sender or recipient, and withdrawal (usermanagementsystem.py:40, 85, 90, 136, 142, 152, 195, 199). `Line` cannot hold such a record. Saving yields the set of records, which assumes that printing is injective.
- The arbitrary line order that `set` gives on save is not modelled. The round trip is stated for any order.
- The load quirks that rest on dynamic typing are not modelled: an entry without `id` is stored under the key `"None"`, an `id` of `''` is skipped, and a line that parses to something other than a dictionary raises an uncaught error.
- String and integer key aliasing is not modelled. Load keys records by `str(id)`, while registration and the write-backs of transfer, update and withdraw use the integer id, so one record object can sit under two keys of the live dictionary. The save dedup collapses the duplicate lines this produces. Because the two keys hold the same object, nothing observable depends on the aliasing. Here every key is an integer and every record sits under its own id (`Keyed`).
- Floating point is not modelled. Amounts are exact reals and rounding is not modelled. `float` also accepts "nan" and "inf"; "nan" passes both the `<= 0` and the insufficient-funds guards of transfer and withdraw, so the code would store a NaN balance. Reals have no such value.
- RecordStore.Load: the iteration order of the loaded table (ids in order of first appearance in the file) is computed, but only its first key is stated (`RecordStore.LoadOrderFirst`).
- The code loads the table once at login and lets every user-menu action change and save that same dictionary (usermanagementsystem.py:79, 92, 110-114), so `Session.Run` threads one table through the session. Each accepted request's save writes `Save` of the table at that point.
