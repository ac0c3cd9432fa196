/** The record store: reading the user list into a table and writing a table back.
    Files, line syntax and the literal parser are outside the model: a file is the
    sequence of its lines as parsed, and a saved file is the set of its records. */
module RecordStore {
  import opened Wrappers
  import opened Records

  /** One line of the user list as the parser sees it: a record, or `None` for a
      line that does not parse and is skipped. */
  type Line = Option<User>

  /** The line holds a record with id `k`. */
  predicate HasId(l: Line, k: int) {
    l.Some? && l.value.id == k
  }

  /** `u` is the record of the last line of `lines` that carries id `k`. */
  ghost predicate LastWithId(lines: seq<Line>, k: int, u: User) {
    exists i :: 0 <= i < |lines| && lines[i] == Some(u) && u.id == k
      && forall j :: i < j < |lines| ==> !HasId(lines[j], k)
  }

  /** Reading the user list: the parsed records folded, in file order, into a
      table keyed by id; unparseable lines are dropped. */
  function Load(lines: seq<Line>): (d: UserData)
    ensures Valid(d) && Keyed(d)
    decreases |lines|
  {
    if |lines| == 0 then Empty
    else
      var d0 := Load(lines[..|lines| - 1]);
      match lines[|lines| - 1]
      case None => d0
      case Some(u) => Put(d0, u.id, u)
  }

  /** The ids in the loaded table are exactly the ids of the parsed lines. */
  lemma {:induction false} LoadKeys(lines: seq<Line>)
    ensures forall k :: k in Load(lines).records <==> exists i :: 0 <= i < |lines| && HasId(lines[i], k)
    decreases |lines|
  {
    if |lines| > 0 {
      var init := lines[..|lines| - 1];
      LoadKeys(init);
      assert forall i :: 0 <= i < |init| ==> init[i] == lines[i];
    }
  }

  /** The id of the first line, when it parses, is the first key of the loaded
      table: later lines either overwrite in place or append after it. */
  lemma {:induction false} LoadOrderFirst(lines: seq<Line>)
    requires |lines| > 0 && lines[0].Some?
    ensures |Load(lines).order| > 0 && Load(lines).order[0] == lines[0].value.id
    decreases |lines|
  {
    var init := lines[..|lines| - 1];
    if |init| > 0 {
      assert init[0] == lines[0];
      LoadOrderFirst(init);
    } else {
      assert Load(init) == Empty;
    }
  }

  /** A later line with the same id overwrites an earlier one: each id holds the
      record of the last line that carries it. */
  lemma {:induction false} LoadLastWins(lines: seq<Line>)
    ensures forall k :: k in Load(lines).records ==> LastWithId(lines, k, Load(lines).records[k])
    decreases |lines|
  {
    if |lines| > 0 {
      LoadLastWins(lines[..|lines| - 1]);
      forall k | k in Load(lines).records ensures LastWithId(lines, k, Load(lines).records[k]) {
        LastWinsStep(lines, k);
      }
    }
  }

  /** One more line keeps "last line wins" true of every id: the id of the new
      line now holds its record, and every other id keeps its last line. */
  lemma LastWinsStep(lines: seq<Line>, k: int)
    requires |lines| > 0
    requires var init := lines[..|lines| - 1];
             forall k :: k in Load(init).records ==> LastWithId(init, k, Load(init).records[k])
    requires k in Load(lines).records
    ensures LastWithId(lines, k, Load(lines).records[k])
  {
    var n := |lines| - 1;
    var init := lines[..n];
    var d0 := Load(init);
    var d := Load(lines);
    if HasId(lines[n], k) {
      assert lines[n] == Some(d.records[k]);
    } else {
      assert k in d0.records && d.records[k] == d0.records[k];
      var i :| 0 <= i < |init| && init[i] == Some(d0.records[k]) && d0.records[k].id == k
        && forall j :: i < j < |init| ==> !HasId(init[j], k);
      assert lines[i] == init[i];
      forall j | i < j < |lines| ensures !HasId(lines[j], k) {
        if j < n { assert lines[j] == init[j]; }
      }
    }
  }

  /** The records of a table, one line each once printed; records that print the
      same collapse into one line. Printing is taken to be injective, so the lines
      are the set of records. */
  function Save(d: UserData): (r: set<User>)
    ensures forall k :: k in d.records ==> d.records[k] in r
    ensures Keyed(d) ==> forall u :: u in r ==> u.id in d.records && d.records[u.id] == u
    ensures Valid(d) && Keyed(d) ==> |r| == |d.records|
  {
    if Valid(d) && Keyed(d) then
      KeyedRecordsCard(d.records, d.order);
      RecordsOf(d.records)
    else
      RecordsOf(d.records)
  }

  /** The set of records a map holds. */
  function RecordsOf(m: map<int, User>): set<User> {
    set k | k in m :: m[k]
  }

  /** In a map that stores every record under its own id, no two keys share a
      record, so there are as many records as keys and nothing collapses. The
      induction runs over `ks`, an enumeration of the keys. */
  lemma {:induction false} KeyedRecordsCard(m: map<int, User>, ks: seq<int>)
    requires forall k :: k in m ==> m[k].id == k
    requires forall i :: 0 <= i < |ks| ==> ks[i] in m
    requires forall k :: k in m ==> k in ks
    requires forall i, j :: 0 <= i < j < |ks| ==> ks[i] != ks[j]
    ensures |RecordsOf(m)| == |m|
  {
    if |ks| > 0 {
      var k := ks[0];
      var m' := m - {k};
      var ks' := ks[1..];
      forall k' | k' in m' ensures k' in ks' {
        var i :| 0 <= i < |ks| && ks[i] == k';
        assert i != 0;
        assert ks'[i - 1] == k';
      }
      forall i | 0 <= i < |ks'| ensures ks'[i] in m' {
        assert ks'[i] == ks[i + 1];
      }
      forall i, j | 0 <= i < j < |ks'| ensures ks'[i] != ks'[j] {
        assert ks'[i] == ks[i + 1] && ks'[j] == ks[j + 1];
      }
      KeyedRecordsCard(m', ks');
      RecordsOfRemove(m, k);
      assert m'.Keys == m.Keys - {k};
    } else {
      assert forall k :: k !in m;
    }
  }

  /** Taking one key out of a keyed map takes exactly its record out of the set. */
  lemma RecordsOfRemove(m: map<int, User>, k: int)
    requires forall k :: k in m ==> m[k].id == k
    requires k in m
    ensures RecordsOf(m) == RecordsOf(m - {k}) + {m[k]}
    ensures m[k] !in RecordsOf(m - {k})
  {
    var m' := m - {k};
    forall u | u in RecordsOf(m) ensures u in RecordsOf(m') + {m[k]} {
      var j :| j in m && m[j] == u;
      if j != k { assert m'[j] == u; }
    }
    forall u | u in RecordsOf(m') ensures u in RecordsOf(m) && u != m[k] {
      var j :| j in m' && m'[j] == u;
      assert m[j] == u;
    }
  }

  /** `m` holds exactly the ids of the parsed lines, each with the record of its
      last line: what loading `lines` promises. */
  ghost predicate LoadedFrom(lines: seq<Line>, m: map<int, User>) {
    && (forall k :: k in m <==> exists i :: 0 <= i < |lines| && HasId(lines[i], k))
    && (forall k :: k in m ==> LastWithId(lines, k, m[k]))
  }

  /** Saving a keyed table and reading the file back, whatever order the lines come
      out in, yields the same records; saving again writes the same file. */
  lemma SaveLoadRoundTrip(d: UserData, lines: seq<Line>)
    requires Valid(d) && Keyed(d)
    requires forall i :: 0 <= i < |lines| ==> lines[i].Some? && lines[i].value in Save(d)
    requires forall u :: u in Save(d) ==> Some(u) in lines
    ensures Load(lines).records == d.records
    ensures Save(Load(lines)) == Save(d)
  {
    LoadKeys(lines);
    LoadLastWins(lines);
    ReloadSameRecords(d, lines, Load(lines).records);
    SaveSeesOnlyRecords(Load(lines), d);
  }

  /** The lines of a saved keyed table name its records and nothing else: every
      record has a line, and every line is the record stored under its id. */
  lemma SavedLines(d: UserData, lines: seq<Line>)
    requires Keyed(d)
    requires forall i :: 0 <= i < |lines| ==> lines[i].Some? && lines[i].value in Save(d)
    requires forall u :: u in Save(d) ==> Some(u) in lines
    ensures forall k :: k in d.records ==> Some(d.records[k]) in lines
    ensures forall i :: 0 <= i < |lines| ==>
              lines[i].value.id in d.records && d.records[lines[i].value.id] == lines[i].value
  {
  }

  /** Reading back a saved table that holds the key `k`: the file is not empty,
      its first line is the record stored under that line's id, and that id is
      the first key of the reloaded table. */
  lemma ReloadFirstLine(d: UserData, lines: seq<Line>, k: int)
    requires Valid(d) && Keyed(d) && k in d.records
    requires forall i :: 0 <= i < |lines| ==> lines[i].Some? && lines[i].value in Save(d)
    requires forall u :: u in Save(d) ==> Some(u) in lines
    ensures Load(lines).records == d.records
    ensures |lines| > 0 && lines[0].Some?
    ensures lines[0].value.id in d.records && d.records[lines[0].value.id] == lines[0].value
    ensures |Load(lines).order| > 0 && Load(lines).order[0] == lines[0].value.id
  {
    SaveLoadRoundTrip(d, lines);
    SavedLines(d, lines);
    assert Some(d.records[k]) in lines;
    LoadOrderFirst(lines);
  }

  /** The record half of the round trip: any map that the saved lines load into
      has the same ids as the table, each with the same record. */
  lemma ReloadSameRecords(d: UserData, lines: seq<Line>, m: map<int, User>)
    requires Valid(d) && Keyed(d)
    requires forall i :: 0 <= i < |lines| ==> lines[i].Some? && lines[i].value in Save(d)
    requires forall u :: u in Save(d) ==> Some(u) in lines
    requires LoadedFrom(lines, m)
    ensures m == d.records
  {
    forall k | k in d.records ensures k in m && m[k] == d.records[k] {
      ReloadedRecord(d, lines, m, k);
    }
    forall k | k in m ensures k in d.records {
      ReloadedKey(d, lines, m, k);
    }
  }

  /** An id of the table comes back with its own record: its line is among the
      saved ones, and the last line with that id can only be that record. */
  lemma ReloadedRecord(d: UserData, lines: seq<Line>, m: map<int, User>, k: int)
    requires Valid(d) && Keyed(d)
    requires forall i :: 0 <= i < |lines| ==> lines[i].Some? && lines[i].value in Save(d)
    requires forall u :: u in Save(d) ==> Some(u) in lines
    requires LoadedFrom(lines, m)
    requires k in d.records
    ensures k in m && m[k] == d.records[k]
  {
    var u := d.records[k];
    assert u in Save(d);
    var i :| 0 <= i < |lines| && lines[i] == Some(u);
    assert HasId(lines[i], k);
    var v := m[k];
    assert LastWithId(lines, k, v);
    var j :| 0 <= j < |lines| && lines[j] == Some(v) && v.id == k
      && forall j' :: j < j' < |lines| ==> !HasId(lines[j'], k);
    assert v in Save(d);
  }

  /** Every id that comes back was an id of the table. */
  lemma ReloadedKey(d: UserData, lines: seq<Line>, m: map<int, User>, k: int)
    requires Keyed(d)
    requires forall i :: 0 <= i < |lines| ==> lines[i].Some? && lines[i].value in Save(d)
    requires LoadedFrom(lines, m)
    requires k in m
    ensures k in d.records
  {
    var i :| 0 <= i < |lines| && HasId(lines[i], k);
    assert lines[i].value in Save(d);
  }

  /** What is written depends on the records alone, not on their iteration order. */
  lemma SaveSeesOnlyRecords(d1: UserData, d2: UserData)
    requires d1.records == d2.records
    ensures Save(d1) == Save(d2)
  {
  }
}
