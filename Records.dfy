/** The `results` table of backend/server.js as an abstract map: POST /api/result upserts
    one record per (user, date, language), and GET /api/stats reads a user's records back. */
module Records {
  import opened Wrappers

  /** The table's unique key. */
  datatype Key = Key(user: int, date: string, language: string)

  /** The updatable columns; `won` is stored as 1 or 0. */
  datatype Entry = Entry(attempts: int, won: int)

  type Store = map<Key, Entry>

  /** A row as the stats query returns it. */
  datatype Row = Row(date: string, language: string, attempts: int, won: int)

  datatype Error = MissingFields

  /** POST /api/result: a request without date, language, attempts or won is refused;
      otherwise the record for (user, date, language) is inserted, or overwritten on a
      key conflict, with `won` stored as 1 or 0. No other record changes. */
  function SaveResult(store: Store, user: int, date: string, language: string,
                      attempts: Option<int>, won: Option<bool>): (r: Result<Store, Error>)
    ensures r.Err? <==> date == "" || language == "" || attempts.None? || won.None?
    ensures r.Ok? ==> r.value.Keys == store.Keys + {Key(user, date, language)}
    ensures r.Ok? ==> r.value[Key(user, date, language)] == Entry(attempts.value, if won.value then 1 else 0)
    ensures r.Ok? ==> forall k :: k in store && k != Key(user, date, language) ==> r.value[k] == store[k]
  {
    if date == "" || language == "" || attempts.None? || won.None? then Err(MissingFields)
    else Ok(store[Key(user, date, language) := Entry(attempts.value, if won.value then 1 else 0)])
  }

  /** Saving the same result twice leaves the table as saving it once. */
  lemma SaveResultIdempotent(store: Store, user: int, date: string, language: string,
                             attempts: Option<int>, won: Option<bool>)
    requires SaveResult(store, user, date, language, attempts, won).Ok?
    ensures var once := SaveResult(store, user, date, language, attempts, won).value;
            SaveResult(once, user, date, language, attempts, won) == Ok(once)
  {
    var once := SaveResult(store, user, date, language, attempts, won).value;
    var k := Key(user, date, language);
    assert once[k := once[k]] == once;
  }

  /** Every stored value of `won` is 0 or 1 when every save went through SaveResult. */
  ghost predicate WonIsFlag(store: Store) {
    forall k :: k in store ==> store[k].won == 0 || store[k].won == 1
  }

  lemma SaveResultKeepsFlags(store: Store, user: int, date: string, language: string,
                             attempts: Option<int>, won: Option<bool>)
    requires WonIsFlag(store)
    requires SaveResult(store, user, date, language, attempts, won).Ok?
    ensures WonIsFlag(SaveResult(store, user, date, language, attempts, won).value)
  {
  }

  /** The row the stats query returns for the record under `k`. */
  function RowOf(store: Store, k: Key): Row
    requires k in store
  {
    Row(k.date, k.language, store[k].attempts, store[k].won)
  }

  /** `SELECT date, language, attempts, won FROM results WHERE user_id = ?`: `rows` lists
      each of the user's records once, in an order the database chooses. */
  ghost predicate ListsUserRows(rows: seq<Row>, store: Store, user: int): (r: bool)
    ensures r ==> forall k :: k in store && k.user == user ==> multiset(rows)[RowOf(store, k)] == 1
  {
    var distinct := forall i, j :: 0 <= i < j < |rows| ==> rows[i] != rows[j];
    var r := distinct &&
      (forall i :: 0 <= i < |rows| ==> exists k :: k in store && k.user == user && rows[i] == RowOf(store, k)) &&
      (forall k :: k in store && k.user == user ==> RowOf(store, k) in rows);
    if distinct then DistinctCounts(rows); r else r
  }

  /** Every element of a sequence without repetitions occurs once. */
  lemma DistinctCounts(rows: seq<Row>)
    requires forall i, j :: 0 <= i < j < |rows| ==> rows[i] != rows[j]
    ensures forall x :: multiset(rows)[x] == if x in rows then 1 else 0
  {
    forall x ensures multiset(rows)[x] == if x in rows then 1 else 0 {
      DistinctCount(rows, x);
    }
  }

  /** Because (user, date, language) is the key, one user's rows never share a date
      within a language. */
  lemma UserRowsHaveDistinctDates(rows: seq<Row>, store: Store, user: int)
    requires ListsUserRows(rows, store, user)
    ensures forall x, y :: x in rows && y in rows && x.language == y.language && x.date == y.date ==> x == y
  {
    forall x, y | x in rows && y in rows && x.language == y.language && x.date == y.date
      ensures x == y
    {
      var i :| 0 <= i < |rows| && rows[i] == x;
      var j :| 0 <= j < |rows| && rows[j] == y;
      var kx :| kx in store && kx.user == user && x == RowOf(store, kx);
      var ky :| ky in store && ky.user == user && y == RowOf(store, ky);
      assert kx == ky;
    }
  }

  /** Two listings of the same records hold the same rows, whatever their order. */
  lemma ListingsArePermutations(rows1: seq<Row>, rows2: seq<Row>, store: Store, user: int)
    requires ListsUserRows(rows1, store, user) && ListsUserRows(rows2, store, user)
    ensures multiset(rows1) == multiset(rows2)
  {
    forall x ensures multiset(rows1)[x] == multiset(rows2)[x] {
      assert x in rows1 <==> x in rows2 by {
        if x in rows1 {
          var i :| 0 <= i < |rows1| && rows1[i] == x;
          var k :| k in store && k.user == user && x == RowOf(store, k);
        }
        if x in rows2 {
          var i :| 0 <= i < |rows2| && rows2[i] == x;
          var k :| k in store && k.user == user && x == RowOf(store, k);
        }
      }
      DistinctCount(rows1, x);
      DistinctCount(rows2, x);
    }
  }

  /** In a sequence without repetitions every element occurs once. */
  lemma {:induction false} DistinctCount(rows: seq<Row>, x: Row)
    requires forall i, j :: 0 <= i < j < |rows| ==> rows[i] != rows[j]
    ensures multiset(rows)[x] == if x in rows then 1 else 0
  {
    if rows != [] {
      assert rows == [rows[0]] + rows[1..];
      DistinctCount(rows[1..], x);
    }
  }
}
