/** The account operations on the user table: id allocation, name lookup,
    registration, login, transfer, profile update and withdrawal. Console input
    arrives as parameters; an amount that `float(...)` could not parse is `None`. */
module Accounts {
  import opened Wrappers
  import opened Records

  /** The errors the console reports, one per way a request is turned down. */
  datatype Error =
    | PasscodeMismatch
    | InvalidAmount
    | NonPositiveAmount
    | NameTaken
    | UserNotFound
    | BadPasscode
    | InsufficientFunds
    | RecipientNotFound
    | SelfTransfer

  /** A successful registration: the grown table and the id handed out. */
  datatype Registered = Registered(data: UserData, id: int)

  // ---------------------------------------------------------------- ids

  /** The largest of a non-empty list of ids. */
  function MaxOf(ids: seq<int>): (m: int)
    requires |ids| > 0
    ensures m in ids
    ensures forall i :: 0 <= i < |ids| ==> ids[i] <= m
  {
    if |ids| == 1 then ids[0]
    else
      var rest := MaxOf(ids[1..]);
      if ids[0] < rest then rest else ids[0]
  }

  /** The id for a new registration: one past the largest id in use, or 1 for an
      empty table. Gaps left below the maximum are never reused. */
  function NextId(d: UserData): (r: int)
    requires Valid(d)
    ensures d.records == map[] ==> r == 1
    ensures d.records != map[] ==> r - 1 in d.records
    ensures forall k :: k in d.records ==> k < r
  {
    if |d.order| == 0 then
      assert forall k :: k !in d.records;
      1
    else
      MaxOf(d.order) + 1
  }

  // ---------------------------------------------------------------- lookup

  /** Position in `ks` of the first key whose record carries `name`. */
  function FirstNamed(records: map<int, User>, ks: seq<int>, name: string): (r: Option<nat>)
    requires forall i :: 0 <= i < |ks| ==> ks[i] in records
    ensures r.Some? ==> r.value < |ks| && records[ks[r.value]].name == name
    ensures r.Some? ==> forall j :: 0 <= j < r.value ==> records[ks[j]].name != name
    ensures r.None? ==> forall j :: 0 <= j < |ks| ==> records[ks[j]].name != name
  {
    if |ks| == 0 then None
    else if records[ks[0]].name == name then Some(0)
    else
      match FirstNamed(records, ks[1..], name)
      case None => None
      case Some(i) => Some(i + 1)
  }

  /** `k` holds the first record, in iteration order, named `name`. */
  ghost predicate IsFirstNamed(d: UserData, name: string, k: int)
    requires Valid(d)
  {
    && k in d.records
    && d.records[k].name == name
    && exists i :: 0 <= i < |d.order| && d.order[i] == k
         && forall j :: 0 <= j < i ==> d.records[d.order[j]].name != name
  }

  /** At most one key is the first one with a given name. */
  lemma FirstNamedUnique(d: UserData, name: string)
    requires Valid(d)
    ensures forall k1, k2 :: IsFirstNamed(d, name, k1) && IsFirstNamed(d, name, k2) ==> k1 == k2
  {
    forall k1, k2 | IsFirstNamed(d, name, k1) && IsFirstNamed(d, name, k2) ensures k1 == k2 {
      var i1 :| 0 <= i1 < |d.order| && d.order[i1] == k1
        && forall j :: 0 <= j < i1 ==> d.records[d.order[j]].name != name;
      var i2 :| 0 <= i2 < |d.order| && d.order[i2] == k2
        && forall j :: 0 <= j < i2 ==> d.records[d.order[j]].name != name;
      assert !(i1 < i2) by {
        assert d.records[d.order[i1]].name == name;
      }
      assert !(i2 < i1) by {
        assert d.records[d.order[i2]].name == name;
      }
    }
  }

  /** The scan shared by login and transfer: walk the records in iteration order
      and stop at the first one whose name matches. */
  function FindByName(d: UserData, name: string): (r: Option<int>)
    requires Valid(d)
    ensures forall k :: r == Some(k) <==> IsFirstNamed(d, name, k)
    ensures r.None? <==> forall k :: k in d.records ==> d.records[k].name != name
  {
    FirstNamedUnique(d, name);
    match FirstNamed(d.records, d.order, name)
    case None => None
    case Some(i) => Some(d.order[i])
  }

  /** Whether some record already carries `name` (exact, case-sensitive). */
  function IsNameTaken(d: UserData, name: string): (b: bool)
    requires Valid(d)
    ensures b <==> exists k :: k in d.records && d.records[k].name == name
  {
    FindByName(d, name).Some?
  }

  // ---------------------------------------------------------------- frames

  /** `d'` is `d` with only the records under `touched` rewritten: same keys, same
      iteration order, every record still under its own id, the rest untouched. */
  ghost predicate Frame(d: UserData, d': UserData, touched: set<int>) {
    && Valid(d') && Keyed(d')
    && d'.order == d.order
    && d'.records.Keys == d.records.Keys
    && forall j :: j in d.records && j !in touched ==> d'.records[j] == d.records[j]
  }

  // ---------------------------------------------------------------- registration

  /** Registration. Checks run in order: the two passcodes must agree, the amount
      must parse, the name must be free; the amount's sign is never checked. On
      success one record is added under a fresh id and nothing else changes. */
  function Register(d: UserData, name: string, passcode: string, confirm: string, amount: Option<real>)
    : (r: Result<Registered, Error>)
    requires Valid(d)
    ensures passcode != confirm ==> r == Err(PasscodeMismatch)
    ensures passcode == confirm && amount.None? ==> r == Err(InvalidAmount)
    ensures passcode == confirm && amount.Some? && (exists k :: k in d.records && d.records[k].name == name)
            ==> r == Err(NameTaken)
    ensures r.Ok? <==> passcode == confirm && amount.Some?
                       && forall k :: k in d.records ==> d.records[k].name != name
    ensures r.Ok? ==>
              var id := r.value.id;
              var d' := r.value.data;
              && id !in d.records
              && (forall k :: k in d.records ==> k < id)
              && Valid(d')
              && d'.records.Keys == d.records.Keys + {id}
              && d'.records[id] == User(id, name, passcode, amount.value)
              && (forall k :: k in d.records ==> d'.records[k] == d.records[k])
              && (Keyed(d) ==> Keyed(d'))
  {
    if passcode != confirm then Err(PasscodeMismatch)
    else if amount.None? then Err(InvalidAmount)
    else if IsNameTaken(d, name) then Err(NameTaken)
    else
      var id := NextId(d);
      var u := User(id, name, passcode, amount.value);
      PutFresh(d, u);
      Ok(Registered(Put(d, id, u), id))
  }

  /** Storing a record under the next id adds exactly that record. */
  lemma PutFresh(d: UserData, u: User)
    requires Valid(d) && u.id == NextId(d)
    ensures u.id !in d.records
    ensures Put(d, u.id, u).records.Keys == d.records.Keys + {u.id}
    ensures Put(d, u.id, u).records[u.id] == u
    ensures forall k :: k in d.records ==> Put(d, u.id, u).records[k] == d.records[k]
    ensures Keyed(d) ==> Keyed(Put(d, u.id, u))
  {
    var m := Put(d, u.id, u).records;
    assert m == d.records[u.id := u];
    assert u.id !in d.records by {
      assert forall k :: k in d.records ==> k < NextId(d);
    }
  }

  // ---------------------------------------------------------------- login

  /** Login. The first record named `name` decides: its passcode must match, or
      the error says the passcode is wrong; with no such record the error says
      the user does not exist. */
  function Login(d: UserData, name: string, passcode: string): (r: Result<User, Error>)
    requires Valid(d)
    ensures r.Ok? ==> exists k :: IsFirstNamed(d, name, k) && d.records[k] == r.value
    ensures r.Ok? ==> r.value.name == name && r.value.passcode == passcode
    ensures r.Ok? <==> exists k :: IsFirstNamed(d, name, k) && d.records[k].passcode == passcode
    ensures r == Err(BadPasscode) <==> exists k :: IsFirstNamed(d, name, k) && d.records[k].passcode != passcode
    ensures r == Err(UserNotFound) <==> forall k :: k in d.records ==> d.records[k].name != name
    ensures r.Ok? || r == Err(BadPasscode) || r == Err(UserNotFound)
  {
    match FindByName(d, name)
    case None => Err(UserNotFound)
    case Some(k) =>
      if d.records[k].passcode == passcode then Ok(d.records[k]) else Err(BadPasscode)
  }

  // ---------------------------------------------------------------- transfer

  /** `a` has moved from the record under `from` to the record under `to`, and
      nothing else about the table has changed. */
  ghost predicate Moved(d: UserData, d': UserData, from: int, to: int, a: real)
    requires from in d.records && to in d.records
  {
    && Frame(d, d', {from, to})
    && d'.records[from] == d.records[from].(amount := d.records[from].amount - a)
    && d'.records[to] == d.records[to].(amount := d.records[to].amount + a)
  }

  /** Transfer from the logged-in user `cur` to the first user named `recipient`.
      Rejections, in order: unparseable amount, amount not above zero, amount above
      the sender's balance (checked before the recipient is looked up), no such
      recipient, recipient is the sender. */
  function Transfer(d: UserData, cur: int, recipient: string, amount: Option<real>): (r: Result<UserData, Error>)
    requires Valid(d) && Keyed(d) && cur in d.records
    ensures amount.None? ==> r == Err(InvalidAmount)
    ensures amount.Some? && amount.value <= 0.0 ==> r == Err(NonPositiveAmount)
    ensures amount.Some? && 0.0 < amount.value && d.records[cur].amount < amount.value
            ==> r == Err(InsufficientFunds)
    ensures amount.Some? && 0.0 < amount.value <= d.records[cur].amount
            && (forall k :: k in d.records ==> d.records[k].name != recipient)
            ==> r == Err(RecipientNotFound)
    ensures amount.Some? && 0.0 < amount.value <= d.records[cur].amount && IsFirstNamed(d, recipient, cur)
            ==> r == Err(SelfTransfer)
    ensures r.Ok? <==> amount.Some? && 0.0 < amount.value <= d.records[cur].amount
                       && exists k :: IsFirstNamed(d, recipient, k) && k != cur
    ensures r.Ok? ==> forall k :: IsFirstNamed(d, recipient, k) ==> Moved(d, r.value, cur, k, amount.value)
  {
    if amount.None? then Err(InvalidAmount)
    else if amount.value <= 0.0 then Err(NonPositiveAmount)
    else if d.records[cur].amount < amount.value then Err(InsufficientFunds)
    else SendTo(d, cur, recipient, amount.value)
  }

  /** The second half of a transfer, once the amount has passed its checks: find
      the recipient, refuse the sender themself, and move the money. */
  function SendTo(d: UserData, cur: int, recipient: string, a: real): (r: Result<UserData, Error>)
    requires Valid(d) && Keyed(d) && cur in d.records
    ensures (forall k :: k in d.records ==> d.records[k].name != recipient) ==> r == Err(RecipientNotFound)
    ensures IsFirstNamed(d, recipient, cur) ==> r == Err(SelfTransfer)
    ensures r.Ok? <==> exists k :: IsFirstNamed(d, recipient, k) && k != cur
    ensures r.Ok? ==> forall k :: IsFirstNamed(d, recipient, k) ==> Moved(d, r.value, cur, k, a)
  {
    match FindByName(d, recipient)
    case None => Err(RecipientNotFound)
    case Some(k) =>
      assert forall k' :: IsFirstNamed(d, recipient, k') <==> k' == k;
      var me := d.records[cur];
      var them := d.records[k];
      assert them.id == me.id <==> k == cur;
      if them.id == me.id then Err(SelfTransfer)
      else
        var d1 := Put(d, me.id, me.(amount := me.amount - a));
        var d2 := Put(d1, them.id, them.(amount := them.amount + a));
        PutPutMoves(d, cur, k, a);
        Ok(d2)
  }

  /** Writing back a debited sender and a credited recipient moves the amount
      between them and changes nothing else. */
  lemma PutPutMoves(d: UserData, from: int, to: int, a: real)
    requires Valid(d) && Keyed(d)
    requires from in d.records && to in d.records && from != to
    ensures var me := d.records[from];
            var them := d.records[to];
            Moved(d, Put(Put(d, me.id, me.(amount := me.amount - a)), them.id, them.(amount := them.amount + a)),
                  from, to, a)
  {
    var me := d.records[from];
    var them := d.records[to];
    var d1 := Put(d, me.id, me.(amount := me.amount - a));
    var d2 := Put(d1, them.id, them.(amount := them.amount + a));
    assert d1.order == d.order;
    assert d2.records == d.records[from := me.(amount := me.amount - a)][to := them.(amount := them.amount + a)];
  }

  // ---------------------------------------------------------------- update

  /** Profile update for the logged-in user `cur`: the two new passcodes must
      agree; then the name and passcode are overwritten, with no check that the
      new name is free. */
  function Update(d: UserData, cur: int, newName: string, newPasscode: string, confirm: string)
    : (r: Result<UserData, Error>)
    requires Valid(d) && Keyed(d) && cur in d.records
    ensures r.Err? ==> r.error == PasscodeMismatch
    ensures r.Ok? <==> newPasscode == confirm
    ensures r.Ok? ==>
              && Frame(d, r.value, {cur})
              && r.value.records[cur].id == d.records[cur].id
              && r.value.records[cur].amount == d.records[cur].amount
              && r.value.records[cur].name == newName
              && r.value.records[cur].passcode == newPasscode
  {
    if newPasscode != confirm then Err(PasscodeMismatch)
    else
      var me := d.records[cur];
      Ok(Put(d, me.id, me.(name := newName, passcode := newPasscode)))
  }

  // ---------------------------------------------------------------- withdraw

  /** Withdrawal by the logged-in user `cur`, with the amount rules of transfer:
      unparseable, not above zero, or above the balance is rejected. */
  function Withdraw(d: UserData, cur: int, amount: Option<real>): (r: Result<UserData, Error>)
    requires Valid(d) && Keyed(d) && cur in d.records
    ensures amount.None? ==> r == Err(InvalidAmount)
    ensures amount.Some? && amount.value <= 0.0 ==> r == Err(NonPositiveAmount)
    ensures amount.Some? && 0.0 < amount.value && d.records[cur].amount < amount.value
            ==> r == Err(InsufficientFunds)
    ensures r.Ok? <==> amount.Some? && 0.0 < amount.value <= d.records[cur].amount
    ensures r.Ok? ==>
              && Frame(d, r.value, {cur})
              && r.value.records[cur] == d.records[cur].(amount := d.records[cur].amount - amount.value)
              && r.value.records[cur].amount >= 0.0
  {
    if amount.None? then Err(InvalidAmount)
    else if amount.value <= 0.0 then Err(NonPositiveAmount)
    else if d.records[cur].amount < amount.value then Err(InsufficientFunds)
    else
      var me := d.records[cur];
      Ok(Put(d, me.id, me.(amount := me.amount - amount.value)))
  }

  // ---------------------------------------------------------------- properties

  /** A table in which names were unique keeps them unique after a registration,
      since a taken name is refused. */
  lemma RegisterKeepsNamesUnique(d: UserData, name: string, passcode: string, confirm: string, amount: Option<real>)
    requires Valid(d) && UniqueNames(d)
    requires Register(d, name, passcode, confirm, amount).Ok?
    ensures UniqueNames(Register(d, name, passcode, confirm, amount).value.data)
  {
    var reg := Register(d, name, passcode, confirm, amount).value;
    var d' := reg.data;
    forall k1, k2 | k1 in d'.records && k2 in d'.records && d'.records[k1].name == d'.records[k2].name
      ensures k1 == k2
    {
      if k1 != reg.id && k2 != reg.id {
        assert d.records[k1].name == d.records[k2].name;
      }
    }
  }

  /** Registration does not look at the sign of the opening amount: starting from a
      table without negative balances, the result has none exactly when the amount
      registered is not negative. */
  lemma RegisterNonNegative(d: UserData, name: string, passcode: string, confirm: string, amount: Option<real>)
    requires Valid(d) && NonNegative(d)
    requires Register(d, name, passcode, confirm, amount).Ok?
    ensures NonNegative(Register(d, name, passcode, confirm, amount).value.data) <==> amount.value >= 0.0
  {
    var reg := Register(d, name, passcode, confirm, amount).value;
    assert reg.data.records[reg.id].amount == amount.value;
  }

  /** Ids are handed out in strictly increasing order: the id a registration
      issues is the one `NextId` announced, and the next one is one higher. */
  lemma RegisterIdsIncrease(d: UserData, name: string, passcode: string, confirm: string, amount: Option<real>)
    requires Valid(d)
    requires Register(d, name, passcode, confirm, amount).Ok?
    ensures Register(d, name, passcode, confirm, amount).value.id == NextId(d)
    ensures NextId(Register(d, name, passcode, confirm, amount).value.data) == NextId(d) + 1
  {
    var reg := Register(d, name, passcode, confirm, amount).value;
    var n := NextId(reg.data);
    assert reg.id in reg.data.records;
    assert n - 1 in reg.data.records;
  }

  /** While names are unique, "first record with the name" is just "the record
      with the name": login succeeds exactly when some user has both the name
      and the passcode. */
  lemma LoginUniqueNames(d: UserData, name: string, passcode: string)
    requires Valid(d) && UniqueNames(d)
    ensures Login(d, name, passcode).Ok?
        <==> exists k :: k in d.records && d.records[k].name == name && d.records[k].passcode == passcode
  {
    if k :| k in d.records && d.records[k].name == name && d.records[k].passcode == passcode {
      var f := FindByName(d, name);
      assert f.Some?;
      assert IsFirstNamed(d, name, f.value);
      assert f.value == k;
    }
  }

  /** Overwriting two distinct records changes the total by the two changes. */
  lemma TwoRecordTotal(d: UserData, d': UserData, from: int, to: int, a: real)
    requires Valid(d)
    requires from in d.records && to in d.records && from != to
    requires Moved(d, d', from, to, a)
    ensures Total(d') == Total(d)
  {
    var x := d.records[from].(amount := d.records[from].amount - a);
    var y := d.records[to].(amount := d.records[to].amount + a);
    var mid := d.records[from := x];
    assert d'.records == mid[to := y] by {
      assert d'.records.Keys == mid[to := y].Keys;
      forall j | j in d'.records ensures d'.records[j] == mid[to := y][j] {
        if j != from && j != to {
          assert j !in {from, to};
        }
      }
    }
    SumAmountsUpdate(d.records, d.order, from, x);
    SumAmountsUpdate(mid, d.order, to, y);
  }

  /** A transfer creates and destroys no money: the sender and the recipient
      together hold what they held before, and so does the whole table. The
      sender never ends below zero, so a table without negative balances keeps
      none. */
  lemma TransferConservesMoney(d: UserData, cur: int, recipient: string, amount: Option<real>)
    requires Valid(d) && Keyed(d) && cur in d.records
    requires Transfer(d, cur, recipient, amount).Ok?
    ensures var d' := Transfer(d, cur, recipient, amount).value;
            && Total(d') == Total(d)
            && d'.records[cur].amount >= 0.0
            && (NonNegative(d) ==> NonNegative(d'))
            && forall k :: IsFirstNamed(d, recipient, k) ==>
                 d'.records[cur].amount + d'.records[k].amount == d.records[cur].amount + d.records[k].amount
  {
    var a := amount.value;
    assert Transfer(d, cur, recipient, amount) == SendTo(d, cur, recipient, a);
    var d' := SendTo(d, cur, recipient, a).value;
    var k :| IsFirstNamed(d, recipient, k) && k != cur;
    FirstNamedUnique(d, recipient);
    MovedConserves(d, d', cur, k, a);
  }

  /** Moving an affordable amount between two users keeps the table's total and
      the pair's sum, and leaves the sender at or above zero. */
  lemma MovedConserves(d: UserData, d': UserData, from: int, to: int, a: real)
    requires Valid(d)
    requires from in d.records && to in d.records && from != to
    requires a <= d.records[from].amount && 0.0 < a
    requires Moved(d, d', from, to, a)
    ensures Total(d') == Total(d)
    ensures d'.records[from].amount >= 0.0
    ensures NonNegative(d) ==> NonNegative(d')
    ensures d'.records[from].amount + d'.records[to].amount == d.records[from].amount + d.records[to].amount
  {
    TwoRecordTotal(d, d', from, to, a);
  }

  /** A withdrawal takes exactly the amount out of the table and leaves no
      balance negative that was not negative before. */
  lemma WithdrawTotal(d: UserData, cur: int, amount: Option<real>)
    requires Valid(d) && Keyed(d) && cur in d.records
    requires Withdraw(d, cur, amount).Ok?
    ensures Total(Withdraw(d, cur, amount).value) == Total(d) - amount.value
    ensures NonNegative(d) ==> NonNegative(Withdraw(d, cur, amount).value)
  {
    var d' := Withdraw(d, cur, amount).value;
    var x := d'.records[cur];
    assert d' == Put(d, cur, x);
    PutTotal(d, cur, x);
  }

  /** A profile update moves no money. */
  lemma UpdateTotal(d: UserData, cur: int, newName: string, newPasscode: string, confirm: string)
    requires Valid(d) && Keyed(d) && cur in d.records
    requires Update(d, cur, newName, newPasscode, confirm).Ok?
    ensures Total(Update(d, cur, newName, newPasscode, confirm).value) == Total(d)
    ensures NonNegative(d) ==> NonNegative(Update(d, cur, newName, newPasscode, confirm).value)
  {
    var d' := Update(d, cur, newName, newPasscode, confirm).value;
    var x := d'.records[cur];
    assert d' == Put(d, cur, x);
    PutTotal(d, cur, x);
  }

  /** Update does not re-check the new name: from a table with unique names, the
      result keeps them unique exactly when no other user already has the new
      name. */
  lemma UpdateUniqueNames(d: UserData, cur: int, newName: string, newPasscode: string, confirm: string)
    requires Valid(d) && Keyed(d) && cur in d.records && UniqueNames(d)
    requires Update(d, cur, newName, newPasscode, confirm).Ok?
    ensures UniqueNames(Update(d, cur, newName, newPasscode, confirm).value)
        <==> forall k :: k in d.records && k != cur ==> d.records[k].name != newName
  {
    var d' := Update(d, cur, newName, newPasscode, confirm).value;
    if forall k :: k in d.records && k != cur ==> d.records[k].name != newName {
      forall k1, k2 | k1 in d'.records && k2 in d'.records && d'.records[k1].name == d'.records[k2].name
        ensures k1 == k2
      {
        if k1 != cur && k2 != cur {
          assert d.records[k1].name == d.records[k2].name;
        }
      }
    } else {
      var k :| k in d.records && k != cur && d.records[k].name == newName;
      assert d'.records[k].name == d'.records[cur].name;
    }
  }

  /** A concrete case of the gap: with "alice" under id 1 and "bob" under id 2,
      bob may rename himself to "alice". A login against this same table, where
      id 1 comes first, then reaches alice's record and refuses bob's passcode;
      after a reload the order of the file decides instead. */
  lemma UpdateCanDuplicateName()
    ensures var d := UserData(map[1 := User(1, "alice", "1234", 70.0), 2 := User(2, "bob", "5678", 30.0)], [1, 2]);
            && Valid(d) && Keyed(d) && UniqueNames(d)
            && Update(d, 2, "alice", "9999", "9999").Ok?
            && !UniqueNames(Update(d, 2, "alice", "9999", "9999").value)
            && Login(Update(d, 2, "alice", "9999", "9999").value, "alice", "9999") == Err(BadPasscode)
  {
    var d := UserData(map[1 := User(1, "alice", "1234", 70.0), 2 := User(2, "bob", "5678", 30.0)], [1, 2]);
    var d' := Update(d, 2, "alice", "9999", "9999").value;
    assert d'.records[1].name == d'.records[2].name;
    assert IsFirstNamed(d', "alice", 1) by {
      assert d'.order[0] == 1;
    }
  }
}
