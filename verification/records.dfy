/** The user table: one record per user, keyed by id, in dictionary insertion order. */
module Records {

  /** One user's record: the four fields of a line of the user list. Balances are
      exact reals rather than binary floating point. */
  datatype User = User(id: int, name: string, passcode: string, amount: real)

  /** The in-memory user table. `records` maps an id to its record; `order` lists the
      keys in the order they were first inserted, which is the order in which a
      Python dictionary hands out its values. */
  datatype UserData = UserData(records: map<int, User>, order: seq<int>)

  /** The table of an empty or missing user list. */
  const Empty: UserData := UserData(map[], [])

  /** `order` enumerates exactly the keys of `records`, each once. */
  predicate Valid(d: UserData) {
    && (forall i :: 0 <= i < |d.order| ==> d.order[i] in d.records)
    && (forall k :: k in d.records ==> k in d.order)
    && (forall i, j :: 0 <= i < j < |d.order| ==> d.order[i] != d.order[j])
  }

  /** Every record is stored under its own id. */
  predicate Keyed(d: UserData) {
    forall k :: k in d.records ==> d.records[k].id == k
  }

  /** No two records share a name. */
  predicate UniqueNames(d: UserData) {
    forall k1, k2 :: k1 in d.records && k2 in d.records && d.records[k1].name == d.records[k2].name ==> k1 == k2
  }

  /** No record has a negative balance. */
  predicate NonNegative(d: UserData) {
    forall k :: k in d.records ==> d.records[k].amount >= 0.0
  }

  /** Dictionary assignment `d[k] = u`: an existing key keeps its place in the
      iteration order, a new key goes to the end. */
  function Put(d: UserData, k: int, u: User): (r: UserData)
    requires Valid(d)
    ensures Valid(r)
    ensures r.records == d.records[k := u]
    ensures k in d.records ==> r.order == d.order
    ensures k !in d.records ==> r.order == d.order + [k]
  {
    if k in d.records then UserData(d.records[k := u], d.order)
    else UserData(d.records[k := u], d.order + [k])
  }

  /** The balances of the records under `ks`, added up. */
  function SumAmounts(records: map<int, User>, ks: seq<int>): real
    requires forall i :: 0 <= i < |ks| ==> ks[i] in records
  {
    if |ks| == 0 then 0.0 else records[ks[0]].amount + SumAmounts(records, ks[1..])
  }

  /** All the money held in the table. */
  function Total(d: UserData): real
    requires Valid(d)
  {
    SumAmounts(d.records, d.order)
  }

  /** Replacing the record under one key that `ks` lists once changes the sum by
      exactly the difference of the two balances. */
  lemma {:induction false} SumAmountsUpdate(records: map<int, User>, ks: seq<int>, k: int, u: User)
    requires forall i :: 0 <= i < |ks| ==> ks[i] in records
    requires forall i, j :: 0 <= i < j < |ks| ==> ks[i] != ks[j]
    requires k in records
    ensures SumAmounts(records[k := u], ks)
         == SumAmounts(records, ks) + (if k in ks then u.amount - records[k].amount else 0.0)
  {
    if |ks| > 0 {
      var tail := ks[1..];
      assert forall i, j :: 0 <= i < j < |tail| ==> tail[i] != tail[j] by {
        forall i, j | 0 <= i < j < |tail| ensures tail[i] != tail[j] {
          assert tail[i] == ks[i + 1] && tail[j] == ks[j + 1];
        }
      }
      SumAmountsUpdate(records, tail, k, u);
      if ks[0] == k {
        assert k !in tail by {
          forall j | 0 <= j < |tail| ensures tail[j] != k {
            assert tail[j] == ks[j + 1];
          }
        }
      }
      assert k in ks <==> ks[0] == k || k in tail;
    }
  }

  /** Overwriting an existing record moves the table's total by the change in
      that record's balance, and by nothing else. */
  lemma PutTotal(d: UserData, k: int, u: User)
    requires Valid(d)
    requires k in d.records
    ensures Total(Put(d, k, u)) == Total(d) - d.records[k].amount + u.amount
  {
    SumAmountsUpdate(d.records, d.order, k, u);
  }
}
