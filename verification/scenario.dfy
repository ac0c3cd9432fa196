/** Worked examples on the model: two registrations into an empty table, a
    transfer, a refused withdrawal and two refused logins; then a rename that
    gives two users one name, and the login after the file is read back. */
module Scenario {
  import opened Wrappers
  import opened Records
  import opened Accounts
  import opened RecordStore

  /** The table after alice registers with 100. */
  const AfterAlice: UserData := UserData(map[1 := User(1, "alice", "1234", 100.0)], [1])

  /** The table after bob registers with 0. */
  const AfterBob: UserData :=
    UserData(map[1 := User(1, "alice", "1234", 100.0), 2 := User(2, "bob", "5678", 0.0)], [1, 2])

  /** The table after alice sends bob 30: alice holds 70 and bob 30, nothing else
      has changed. */
  ghost predicate AfterTransfer(d: UserData) {
    && d.order == [1, 2]
    && d.records.Keys == {1, 2}
    && d.records[1] == User(1, "alice", "1234", 70.0)
    && d.records[2] == User(2, "bob", "5678", 30.0)
  }

  /** Registering into an empty table hands out id 1. */
  lemma RegisterAlice()
    ensures Register(Empty, "alice", "1234", "1234", Some(100.0)) == Ok(Registered(AfterAlice, 1))
  {
    var r := Register(Empty, "alice", "1234", "1234", Some(100.0));
    assert r.Ok? && r.value.id == 1;
    assert r.value.data.order == [1];
  }

  /** The second registration hands out id 2. */
  lemma RegisterBob()
    ensures Register(AfterAlice, "bob", "5678", "5678", Some(0.0)) == Ok(Registered(AfterBob, 2))
  {
    assert AfterAlice.records[1].name != "bob";
    var r := Register(AfterAlice, "bob", "5678", "5678", Some(0.0));
    assert r.Ok?;
    assert NextId(AfterAlice) == 2;
    assert r.value.data.order == [1, 2];
    assert r.value.data.records == AfterBob.records;
  }

  /** Alice sends bob 30 and is left with 70; bob now has 30. */
  lemma TransferThirty()
    ensures Transfer(AfterBob, 1, "bob", Some(30.0)).Ok?
    ensures AfterTransfer(Transfer(AfterBob, 1, "bob", Some(30.0)).value)
  {
    assert IsFirstNamed(AfterBob, "bob", 2) by {
      assert AfterBob.order[1] == 2 && AfterBob.records[AfterBob.order[0]].name == "alice";
    }
    var t := Transfer(AfterBob, 1, "bob", Some(30.0));
    assert t.Ok?;
    MovedFromAfterBob(t.value);
  }

  /** The only table that thirty moved from alice to bob can leave. */
  lemma MovedFromAfterBob(d: UserData)
    requires Moved(AfterBob, d, 1, 2, 30.0)
    ensures AfterTransfer(d)
  {
  }

  /** Afterwards a withdrawal of 1000 is refused for lack of funds, and a wrong
      passcode is told apart from an unknown name. */
  lemma RefusalsAfterTransfer(d: UserData)
    requires AfterTransfer(d)
    ensures Valid(d) && Keyed(d)
    ensures Withdraw(d, 1, Some(1000.0)) == Err(InsufficientFunds)
    ensures Login(d, "alice", "wrong") == Err(BadPasscode)
    ensures Login(d, "carol", "1234") == Err(UserNotFound)
  {
    assert IsFirstNamed(d, "alice", 1) by {
      assert d.order[0] == 1;
    }
  }

  /** The whole walk-through, starting from an empty table. */
  lemma AliceAndBob()
    ensures var r1 := Register(Empty, "alice", "1234", "1234", Some(100.0));
            && r1.Ok? && r1.value.id == 1
            && var r2 := Register(r1.value.data, "bob", "5678", "5678", Some(0.0));
               && r2.Ok? && r2.value.id == 2
               && var t := Transfer(r2.value.data, 1, "bob", Some(30.0));
                  && t.Ok?
                  && t.value.records[1].amount == 70.0
                  && t.value.records[2].amount == 30.0
                  && Withdraw(t.value, 1, Some(1000.0)) == Err(InsufficientFunds)
                  && Login(t.value, "alice", "wrong") == Err(BadPasscode)
                  && Login(t.value, "carol", "1234") == Err(UserNotFound)
  {
    RegisterAlice();
    var d1 := Register(Empty, "alice", "1234", "1234", Some(100.0)).value.data;
    assert d1 == AfterAlice;
    RegisterBob();
    var d2 := Register(d1, "bob", "5678", "5678", Some(0.0)).value.data;
    assert d2 == AfterBob;
    TransferThirty();
    var d3 := Transfer(d2, 1, "bob", Some(30.0)).value;
    RefusalsAfterTransfer(d3);
  }

  /** Alice with 70 and bob with 30, before bob renames himself. */
  const BeforeRename: UserData :=
    UserData(map[1 := User(1, "alice", "1234", 70.0), 2 := User(2, "bob", "5678", 30.0)], [1, 2])

  /** Bob's record after he takes the name "alice" and the passcode "9999". */
  const RenamedBob: User := User(2, "alice", "9999", 30.0)

  /** The table once bob is renamed: two records now share the name "alice". */
  const Renamed: UserData :=
    UserData(map[1 := User(1, "alice", "1234", 70.0), 2 := RenamedBob], [1, 2])

  /** After the rename (`RenameBob`) is saved, the next login reads the file back. Its lines come
      in whatever order the save produced, and that order decides the login as
      "alice" with bob's new passcode: it reaches bob exactly when bob's line is
      first, and is refused as a bad passcode otherwise. */
  lemma RenameThenReload(lines: seq<Line>)
    requires forall i :: 0 <= i < |lines| ==> lines[i].Some? && lines[i].value in Save(Renamed)
    requires forall u :: u in Save(Renamed) ==> Some(u) in lines
    ensures Login(Load(lines), "alice", "9999")
         == if |lines| > 0 && lines[0] == Some(RenamedBob) then Ok(RenamedBob) else Err(BadPasscode)
  {
    assert Valid(Renamed) && Keyed(Renamed) && 2 in Renamed.records;
    ReloadFirstLine(Renamed, lines, 2);
    LoginAsAlice(Load(lines));
  }

  /** Bob's rename is accepted and gives the table `Renamed`. */
  lemma RenameBob()
    ensures Update(BeforeRename, 2, "alice", "9999", "9999") == Ok(Renamed)
  {
    assert Update(BeforeRename, 2, "alice", "9999", "9999").value.records == Renamed.records;
  }

  /** On any ordering of the renamed table, the login as "alice" with bob's new
      passcode reaches whichever record comes first. */
  lemma LoginAsAlice(l: UserData)
    requires Valid(l) && l.records == Renamed.records
    requires |l.order| > 0
    ensures Login(l, "alice", "9999") == if l.order[0] == 2 then Ok(RenamedBob) else Err(BadPasscode)
  {
    assert l.order[0] in Renamed.records;
    if l.order[0] == 2 {
      assert IsFirstNamed(l, "alice", 2);
    } else {
      assert IsFirstNamed(l, "alice", 1);
    }
  }
}
