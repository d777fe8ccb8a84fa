/**
 * The lookup cache: the SQLite table `cars(id INTEGER PRIMARY KEY AUTOINCREMENT,
 * registration TEXT UNIQUE, details TEXT)` held in memory. `Table` is its value,
 * the functions on it say what each statement does, and `CarStore` is the
 * `DBHelper` object whose methods run those statements in place.
 */
module DBHelper {
  import opened Wrappers
  import opened Text
  import opened CarModel

  /**
   * The table's rows in ascending id order (the order AUTOINCREMENT hands ids
   * out in) and `lastId`, the largest id ever assigned (SQLite's
   * `sqlite_sequence` entry for the table, 0 before the first insert).
   */
  datatype Table = Table(rows: seq<Car>, lastId: int)

  /** Ids strictly increase along the rows, hence no id appears twice. */
  ghost predicate IdsAscending(rows: seq<Car>) {
    forall i, j :: 0 <= i < j < |rows| ==> rows[i].id < rows[j].id
  }

  /** Ids strictly decrease along the sequence: the `ORDER BY id DESC` order. */
  ghost predicate IdsDescending(cars: seq<Car>) {
    forall i, j :: 0 <= i < j < |cars| ==> cars[i].id > cars[j].id
  }

  /** The UNIQUE constraint on `registration`. */
  ghost predicate RegistrationsUnique(rows: seq<Car>) {
    forall i, j :: 0 <= i < j < |rows| ==> rows[i].registration != rows[j].registration
  }

  /** The schema's guarantees: unique ascending ids in `1..lastId`, unique registrations. */
  ghost predicate TableInvariant(t: Table) {
    && 0 <= t.lastId
    && IdsAscending(t.rows)
    && (forall c :: c in t.rows ==> 0 < c.id <= t.lastId)
    && RegistrationsUnique(t.rows)
  }

  /** The table as a fresh database file holds it. */
  const EmptyTable := Table([], 0)

  /**
   * `createTable`: `CREATE TABLE IF NOT EXISTS` on the file as found at start-up
   * (`None` when the file holds no table yet).
   */
  function CreateTable(file: Option<Table>): (t: Table)
    ensures file.Some? ==> t == file.value
    ensures file.None? ==> t.rows == [] && t.lastId == 0
  {
    match file
    case None => EmptyTable
    case Some(existing) => existing
  }

  /** Running `createTable` on every start-up changes nothing after the first. */
  lemma CreateTableIdempotent(file: Option<Table>)
    ensures CreateTable(Some(CreateTable(file))) == CreateTable(file)
    ensures file.None? ==> TableInvariant(CreateTable(file))
  {
  }

  predicate HasRegistration(t: Table, registration: string) {
    exists i :: 0 <= i < |t.rows| && t.rows[i].registration == registration
  }

  /**
   * `insertCar`: a new registration gets the row `(lastId + 1, registration,
   * details)`; a registration already present violates UNIQUE, the statement
   * fails and the table is as before.
   */
  function Insert(t: Table, registration: string, details: string): (t': Table)
    ensures HasRegistration(t, registration) ==> t' == t
    ensures !HasRegistration(t, registration) ==>
      && t'.rows == t.rows + [Car(t.lastId + 1, registration, details)]
      && t'.lastId == t.lastId + 1
  {
    if HasRegistration(t, registration) then t
    else Table(t.rows + [Car(t.lastId + 1, registration, details)], t.lastId + 1)
  }

  /** `deleteCar`: `DELETE FROM cars WHERE id = ?`; the id counter is kept. */
  function Delete(t: Table, id: int): (t': Table)
    ensures t'.lastId == t.lastId
    ensures forall c :: c in t'.rows <==> c in t.rows && c.id != id
  {
    Table(WithoutId(t.rows, id), t.lastId)
  }

  function WithoutId(rows: seq<Car>, id: int): (r: seq<Car>)
    ensures forall c :: c in r <==> c in rows && c.id != id
    ensures |r| <= |rows|
  {
    if rows == [] then []
    else if rows[0].id == id then WithoutId(rows[1..], id)
    else [rows[0]] + WithoutId(rows[1..], id)
  }

  /**
   * The `LIKE '%query%'` filter of `getAllCars`: no query or an empty one
   * keeps every row; otherwise the registration must contain the query,
   * ASCII letters compared without case as SQLite's LIKE does.
   */
  predicate MatchesQuery(car: Car, query: Option<string>) {
    match query
    case None => true
    case Some(q) => q == [] || ContainsIgnoringCase(car.registration, q)
  }

  /** The rows of `rows` that match, last row first. */
  function Listing(rows: seq<Car>, query: Option<string>): (r: seq<Car>)
    ensures |r| <= |rows|
  {
    if rows == [] then []
    else Listing(rows[1..], query) + (if MatchesQuery(rows[0], query) then [rows[0]] else [])
  }

  /** `getAllCars(searchQuery:)`: `SELECT * FROM cars [WHERE registration LIKE ?] ORDER BY id DESC`. */
  function AllCars(t: Table, query: Option<string>): seq<Car> {
    Listing(t.rows, query)
  }

  /** `searchCarsByRegistration`: `SELECT * FROM cars WHERE registration = ?`, case-sensitive. */
  function FindByRegistration(t: Table, registration: string): seq<Car> {
    Matching(t.rows, registration)
  }

  function Matching(rows: seq<Car>, registration: string): (r: seq<Car>)
    ensures forall c :: c in r <==> c in rows && c.registration == registration
    ensures (forall c :: c in rows ==> c.registration != registration) ==> r == []
  {
    if rows == [] then []
    else (if rows[0].registration == registration then [rows[0]] else []) + Matching(rows[1..], registration)
  }

  // ---------------------------------------------------------------------------
  // Properties of the statements

  /** Inserting a new registration appends one row whose id exceeds every id ever assigned. */
  lemma InsertFresh(t: Table, registration: string, details: string)
    requires TableInvariant(t)
    requires !HasRegistration(t, registration)
    ensures var t' := Insert(t, registration, details);
      && |t'.rows| == |t.rows| + 1
      && t'.rows[|t.rows|] == Car(t'.lastId, registration, details)
      && t'.lastId > t.lastId
      && (forall c :: c in t.rows ==> c.id < t'.lastId)
      && TableInvariant(t')
  {
  }

  /** Inserting a registration already present leaves the table as it was. */
  lemma InsertDuplicate(t: Table, car: Car, details: string)
    requires car in t.rows
    ensures Insert(t, car.registration, details) == t
    ensures FindByRegistration(Insert(t, car.registration, details), car.registration) == FindByRegistration(t, car.registration)
  {
  }

  /** Every statement keeps the schema's guarantees. */
  lemma InvariantKept(t: Table, registration: string, details: string, id: int)
    requires TableInvariant(t)
    ensures TableInvariant(Insert(t, registration, details))
    ensures TableInvariant(Delete(t, id))
  {
    if !HasRegistration(t, registration) {
      InsertKeepsInvariant(t, registration, details);
    }
    WithoutIdKeepsIds(t.rows, id);
    WithoutIdKeepsUnique(t.rows, id);
  }

  lemma InsertKeepsInvariant(t: Table, registration: string, details: string)
    requires TableInvariant(t)
    requires !HasRegistration(t, registration)
    ensures TableInvariant(Insert(t, registration, details))
  {
    var rows := Insert(t, registration, details).rows;
    var n := |t.rows|;
    assert forall i :: 0 <= i < n ==> rows[i] == t.rows[i];
    assert forall i :: 0 <= i < n ==> t.rows[i] in t.rows;
    assert rows[n].registration == registration;
  }

  lemma {:induction false} WithoutIdKeepsIds(rows: seq<Car>, id: int)
    requires IdsAscending(rows)
    ensures IdsAscending(WithoutId(rows, id))
  {
    if rows != [] {
      var tail := WithoutId(rows[1..], id);
      WithoutIdKeepsIds(rows[1..], id);
      if rows[0].id != id {
        var r := WithoutId(rows, id);
        assert r == [rows[0]] + tail;
        forall j | 0 <= j < |tail| ensures rows[0].id < tail[j].id {
          assert tail[j] in rows[1..];
        }
      }
    }
  }

  lemma {:induction false} WithoutIdKeepsUnique(rows: seq<Car>, id: int)
    requires RegistrationsUnique(rows)
    ensures RegistrationsUnique(WithoutId(rows, id))
  {
    if rows != [] {
      var tail := WithoutId(rows[1..], id);
      WithoutIdKeepsUnique(rows[1..], id);
      if rows[0].id != id {
        var r := WithoutId(rows, id);
        assert r == [rows[0]] + tail;
        forall j | 0 <= j < |tail| ensures rows[0].registration != tail[j].registration {
          assert tail[j] in rows[1..];
        }
      }
    }
  }

  /**
   * Ids only grow and details are never rewritten: every row after an insert
   * or a delete was there before with the same fields, or is the new row with
   * an id above every id assigned before.
   */
  lemma RowsNeverRewritten(t: Table, registration: string, details: string, id: int)
    requires TableInvariant(t)
    ensures Insert(t, registration, details).lastId >= t.lastId
    ensures Delete(t, id).lastId == t.lastId
    ensures forall c :: c in Insert(t, registration, details).rows ==> c in t.rows || c.id > t.lastId
    ensures forall c :: c in Delete(t, id).rows ==> c in t.rows
  {
  }

  /** Deleting removes exactly the row with that id; an absent id is a no-op. */
  lemma {:induction false} DeleteExact(t: Table, id: int)
    ensures (forall c :: c in t.rows ==> c.id != id) ==> Delete(t, id) == t
    ensures forall c :: c in AllCars(Delete(t, id), None) ==> c.id != id
  {
    WithoutIdAbsent(t.rows, id);
    ListingMembers(Delete(t, id).rows, None);
  }

  lemma {:induction false} WithoutIdAbsent(rows: seq<Car>, id: int)
    ensures (forall c :: c in rows ==> c.id != id) ==> WithoutId(rows, id) == rows
  {
    if rows != [] {
      WithoutIdAbsent(rows[1..], id);
      if forall c :: c in rows ==> c.id != id {
        assert forall c :: c in rows[1..] ==> c in rows;
        assert [rows[0]] + rows[1..] == rows;
      }
    }
  }

  /** The listing holds exactly the matching rows. */
  lemma {:induction false} ListingMembers(rows: seq<Car>, query: Option<string>)
    ensures forall c :: c in Listing(rows, query) <==> c in rows && MatchesQuery(c, query)
  {
    if rows != [] {
      ListingMembers(rows[1..], query);
      assert rows == [rows[0]] + rows[1..];
    }
  }

  /** The listing runs in strictly descending id order. */
  lemma {:induction false} ListingDescending(rows: seq<Car>, query: Option<string>)
    requires IdsAscending(rows)
    ensures IdsDescending(Listing(rows, query))
  {
    if rows != [] {
      ListingDescending(rows[1..], query);
      ListingMembers(rows[1..], query);
      var tail := Listing(rows[1..], query);
      forall j | 0 <= j < |tail| ensures tail[j].id > rows[0].id {
        assert tail[j] in rows[1..];
      }
      var r := Listing(rows, query);
      var last := if MatchesQuery(rows[0], query) then [rows[0]] else [];
      assert r == tail + last;
      forall i, j | 0 <= i < j < |r| ensures r[i].id > r[j].id {
        assert r[i] == tail[i];
        if j < |tail| {
          assert r[j] == tail[j];
          assert tail[i].id > tail[j].id;
        } else {
          assert r[j] == rows[0];
          assert tail[i].id > rows[0].id;
        }
      }
    }
  }

  /** With no query or an empty one, the listing is every row, newest first. */
  lemma {:induction false} ListingAll(rows: seq<Car>, query: Option<string>)
    requires query.None? || query == Some("")
    ensures |Listing(rows, query)| == |rows|
    ensures forall i :: 0 <= i < |rows| ==> Listing(rows, query)[i] == rows[|rows| - 1 - i]
  {
    if rows != [] {
      ListingAll(rows[1..], query);
    }
  }

  /** `getAllCars`: exactly the matching rows, in strictly descending id order. */
  lemma AllCarsSpec(t: Table, query: Option<string>)
    requires TableInvariant(t)
    ensures forall c :: c in AllCars(t, query) <==> c in t.rows && MatchesQuery(c, query)
    ensures IdsDescending(AllCars(t, query))
  {
    ListingMembers(t.rows, query);
    ListingDescending(t.rows, query);
  }

  /** An exact-match lookup finds at most one row, since registrations are unique. */
  lemma FindAtMostOne(t: Table, registration: string)
    requires TableInvariant(t)
    ensures |FindByRegistration(t, registration)| <= 1
    ensures HasRegistration(t, registration) <==> FindByRegistration(t, registration) != []
  {
    MatchingAtMostOne(t.rows, registration);
    var r := FindByRegistration(t, registration);
    if HasRegistration(t, registration) {
      var i :| 0 <= i < |t.rows| && t.rows[i].registration == registration;
      assert t.rows[i] in r;
    }
    if r != [] {
      assert r[0] in t.rows;
    }
  }

  lemma {:induction false} MatchingAtMostOne(rows: seq<Car>, registration: string)
    requires RegistrationsUnique(rows)
    ensures |Matching(rows, registration)| <= 1
  {
    if rows != [] {
      MatchingAtMostOne(rows[1..], registration);
      if rows[0].registration == registration {
        forall c | c in rows[1..] ensures c.registration != registration {
          var k :| 0 <= k < |rows[1..]| && rows[1..][k] == c;
          assert rows[k + 1] == c;
        }
      }
    }
  }

  /** After inserting a fresh registration, the lookup returns just the new row. */
  lemma InsertThenFind(t: Table, registration: string, details: string)
    requires TableInvariant(t)
    requires !HasRegistration(t, registration)
    ensures var t' := Insert(t, registration, details);
      FindByRegistration(t', registration) == [Car(t'.lastId, registration, details)]
  {
    var t' := Insert(t, registration, details);
    InvariantKept(t, registration, details, 0);
    FindAtMostOne(t', registration);
    var car := Car(t'.lastId, registration, details);
    assert car in t'.rows;
  }

  /** The `DBHelper` object: one table, changed in place by its methods. */
  class CarStore {
    var rows: seq<Car>
    var lastId: int

    function State(): Table
      reads this
    {
      Table(rows, lastId)
    }

    ghost predicate Valid()
      reads this
    {
      TableInvariant(State())
    }

    /** `init`: open the database file and run `createTable` on it. */
    constructor Open(file: Option<Table>)
      requires file.Some? ==> TableInvariant(file.value)
      ensures Valid()
      ensures State() == CreateTable(file)
    {
      var t := CreateTable(file);
      rows := t.rows;
      lastId := t.lastId;
    }

    method InsertCar(registration: string, details: string)
      requires Valid()
      modifies this
      ensures Valid()
      ensures State() == Insert(old(State()), registration, details)
    {
      InvariantKept(State(), registration, details, 0);
      var duplicate := false;
      var i := 0;
      while i < |rows|
        invariant 0 <= i <= |rows|
        invariant duplicate <==> exists j :: 0 <= j < i && rows[j].registration == registration
      {
        if rows[i].registration == registration {
          duplicate := true;
        }
        i := i + 1;
      }
      if !duplicate {
        lastId := lastId + 1;
        rows := rows + [Car(lastId, registration, details)];
      }
    }

    method GetAllCars(searchQuery: Option<string>) returns (cars: seq<Car>)
      ensures cars == AllCars(State(), searchQuery)
    {
      cars := [];
      var i := |rows|;
      while i > 0
        invariant 0 <= i <= |rows|
        invariant cars == Listing(rows[i..], searchQuery)
      {
        i := i - 1;
        assert rows[i..][1..] == rows[i + 1..];
        if MatchesQuery(rows[i], searchQuery) {
          cars := cars + [rows[i]];
        }
      }
      assert rows[0..] == rows;
    }

    method DeleteCar(car: Car)
      requires Valid()
      modifies this
      ensures Valid()
      ensures State() == Delete(old(State()), car.id)
    {
      InvariantKept(State(), "", "", car.id);
      rows := WithoutId(rows, car.id);
    }

    method SearchCarsByRegistration(registration: string) returns (cars: seq<Car>)
      ensures cars == FindByRegistration(State(), registration)
    {
      cars := [];
      var i := |rows|;
      while i > 0
        invariant 0 <= i <= |rows|
        invariant cars == Matching(rows[i..], registration)
      {
        i := i - 1;
        assert rows[i..][1..] == rows[i + 1..];
        if rows[i].registration == registration {
          cars := [rows[i]] + cars;
        }
      }
      assert rows[0..] == rows;
    }
  }
}
