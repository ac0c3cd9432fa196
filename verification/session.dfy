/** A login session: after a successful login the user menu applies the
    logged-in user's requests, one after another, to the one table loaded at
    login. A refused request changes nothing and is not saved; logging out ends
    the sequence. */
module Session {
  import opened Wrappers
  import opened Records
  import Accounts

  /** One request from the user menu, with what the user typed. */
  datatype Action =
    | Transfer(recipient: string, amount: Option<real>)
    | Update(newName: string, newPasscode: string, confirm: string)
    | Withdraw(amount: Option<real>)

  /** `d'` is what an accepted request by the user under id `cur` may leave: the
      same users in the same order, each still under its own id; no more money
      than before and no new negative balance; and every other user with the
      same name and passcode and at least the same balance. */
  ghost predicate Accepted(d: UserData, d': UserData, cur: int)
    requires Valid(d)
  {
    && Valid(d') && Keyed(d')
    && d'.order == d.order && d'.records.Keys == d.records.Keys
    && Total(d') <= Total(d)
    && (NonNegative(d) ==> NonNegative(d'))
    && forall k :: k in d.records && k != cur ==>
         && d'.records[k].name == d.records[k].name
         && d'.records[k].passcode == d.records[k].passcode
         && d'.records[k].amount >= d.records[k].amount
  }

  /** The outcome of one request made by the user under id `cur`. */
  function Step(d: UserData, cur: int, a: Action): (r: Result<UserData, Accounts.Error>)
    requires Valid(d) && Keyed(d) && cur in d.records
    ensures r.Ok? ==> Accepted(d, r.value, cur)
  {
    match a
    case Transfer(recipient, amount) =>
      TransferAccepted(d, cur, recipient, amount);
      Accounts.Transfer(d, cur, recipient, amount)
    case Update(newName, newPasscode, confirm) =>
      UpdateAccepted(d, cur, newName, newPasscode, confirm);
      Accounts.Update(d, cur, newName, newPasscode, confirm)
    case Withdraw(amount) =>
      WithdrawAccepted(d, cur, amount);
      Accounts.Withdraw(d, cur, amount)
  }

  /** An accepted transfer is an accepted request: only the recipient gains. */
  lemma TransferAccepted(d: UserData, cur: int, recipient: string, amount: Option<real>)
    requires Valid(d) && Keyed(d) && cur in d.records
    ensures Accounts.Transfer(d, cur, recipient, amount).Ok? ==>
              Accepted(d, Accounts.Transfer(d, cur, recipient, amount).value, cur)
  {
    var r := Accounts.Transfer(d, cur, recipient, amount);
    if r.Ok? {
      var d' := r.value;
      Accounts.TransferConservesMoney(d, cur, recipient, amount);
      var k :| Accounts.IsFirstNamed(d, recipient, k) && k != cur;
      MovedCreditsOthers(d, d', cur, k, amount.value);
    }
  }

  /** A positive amount moved away from `from` leaves every other user with the
      same name and passcode and at least the same balance. */
  lemma MovedCreditsOthers(d: UserData, d': UserData, from: int, to: int, a: real)
    requires from in d.records && to in d.records
    requires Accounts.Moved(d, d', from, to, a) && a > 0.0
    ensures forall j :: j in d.records && j != from ==>
              && d'.records[j].name == d.records[j].name
              && d'.records[j].passcode == d.records[j].passcode
              && d'.records[j].amount >= d.records[j].amount
  {
    forall j | j in d.records && j != from
      ensures d'.records[j].name == d.records[j].name
      ensures d'.records[j].passcode == d.records[j].passcode
      ensures d'.records[j].amount >= d.records[j].amount
    {
      if j != to {
        assert j !in {from, to};
      }
    }
  }

  /** An accepted profile update is an accepted request. */
  lemma UpdateAccepted(d: UserData, cur: int, newName: string, newPasscode: string, confirm: string)
    requires Valid(d) && Keyed(d) && cur in d.records
    ensures Accounts.Update(d, cur, newName, newPasscode, confirm).Ok? ==>
              Accepted(d, Accounts.Update(d, cur, newName, newPasscode, confirm).value, cur)
  {
    if Accounts.Update(d, cur, newName, newPasscode, confirm).Ok? {
      Accounts.UpdateTotal(d, cur, newName, newPasscode, confirm);
    }
  }

  /** An accepted withdrawal is an accepted request. */
  lemma WithdrawAccepted(d: UserData, cur: int, amount: Option<real>)
    requires Valid(d) && Keyed(d) && cur in d.records
    ensures Accounts.Withdraw(d, cur, amount).Ok? ==>
              Accepted(d, Accounts.Withdraw(d, cur, amount).value, cur)
  {
    if Accounts.Withdraw(d, cur, amount).Ok? {
      Accounts.WithdrawTotal(d, cur, amount);
    }
  }

  /** The table after the requests `actions` of the user under id `cur`. The
      session never adds or drops a user or reorders the table; the total money
      never grows; no balance turns negative; and the other users' names and
      passcodes stay as they were while their balances can only grow. */
  function Run(d: UserData, cur: int, actions: seq<Action>): (r: UserData)
    requires Valid(d) && Keyed(d) && cur in d.records
    ensures Valid(r) && Keyed(r)
    ensures r.order == d.order && r.records.Keys == d.records.Keys
    ensures Total(r) <= Total(d)
    ensures NonNegative(d) ==> NonNegative(r)
    ensures forall k :: k in d.records && k != cur ==>
              && r.records[k].name == d.records[k].name
              && r.records[k].passcode == d.records[k].passcode
              && r.records[k].amount >= d.records[k].amount
    decreases |actions|
  {
    if |actions| == 0 then d
    else
      var next := match Step(d, cur, actions[0]) case Ok(d') => d' case Err(_) => d;
      Run(next, cur, actions[1..])
  }

  /** Log in as `name` with `passcode`, then carry out `actions` as that user. A
      failed login reports the login error and touches nothing. */
  function LoginSession(d: UserData, name: string, passcode: string, actions: seq<Action>)
    : (r: Result<UserData, Accounts.Error>)
    requires Valid(d) && Keyed(d)
    ensures r.Err? <==> Accounts.Login(d, name, passcode).Err?
    ensures r.Err? ==> r.error == Accounts.Login(d, name, passcode).error
    ensures r.Ok? ==> Valid(r.value) && Keyed(r.value) && r.value.records.Keys == d.records.Keys
    ensures r.Ok? ==> Total(r.value) <= Total(d)
    ensures r.Ok? ==> forall k :: k in d.records && d.records[k].name != name ==>
              r.value.records[k].amount >= d.records[k].amount
  {
    match Accounts.Login(d, name, passcode)
    case Err(e) => Err(e)
    case Ok(u) =>
      assert u.id in d.records && d.records[u.id] == u by {
        var k :| Accounts.IsFirstNamed(d, name, k) && d.records[k] == u;
      }
      Ok(Run(d, u.id, actions))
  }
}
