/**
 * The row logic of bulk loading and saving (main.py `load_collection`,
 * `save_collection` and the column tables of `load_users`, `save_users`,
 * `load_status_updates`, `save_status_updates`). Files and the csv module
 * are outside the model: a loaded file arrives as its rows, each a map from
 * column name to value, and a save produces its header and rows.
 */
module Bulk {
  import opened Wrappers
  import opened Dicts
  import opened Validators
  import opened Users
  import opened UserStatus

  /** One csv row as `csv.DictReader` yields it and `csv.DictWriter` takes it. */
  type Row = map<string, string>

  /**
   * A loading table, as the dict literals of `load_users` and
   * `load_status_updates`: column names with their validators, in the order
   * add takes the values.
   */
  type Table = seq<(string, string -> bool)>

  const UserColumns: Table :=
    [("USER_ID", ValidateUserId), ("EMAIL", ValidateEmail), ("NAME", ValidateName), ("LASTNAME", ValidateName)]

  const StatusColumns: Table :=
    [("STATUS_ID", ValidateStatusId), ("USER_ID", ValidateUserId), ("STATUS_TEXT", ValidateStatusText)]

  /** `keys[column]`: the validator a table names for a column, None for a KeyError. */
  function Lookup(table: Table, column: string): (r: Option<string -> bool>)
  {
    if table == [] then None
    else if table[0].0 == column then Some(table[0].1)
    else Lookup(table[1..], column)
  }

  /** `value.replace(' ', '') == ''`: nothing but spaces (other whitespace counts as content). */
  predicate Blank(value: string) {
    forall i :: 0 <= i < |value| ==> value[i] == ' '
  }

  /** One cell passes the inner loop: not blank, a known column, and its validator holds. */
  predicate CellAccepted(table: Table, column: string, value: string) {
    && !Blank(value)
    && Lookup(table, column).Some?
    && Lookup(table, column).value(value)
  }

  /** Every cell of the row passes (main.py lines 221-231). */
  predicate CellsAccepted(table: Table, row: Row) {
    forall column :: column in row ==> CellAccepted(table, column, row[column])
  }

  /** Every column of the table is in the row, so `[row[key] for key in keys]` raises no KeyError. */
  predicate HasColumns(table: Table, row: Row) {
    forall i :: 0 <= i < |table| ==> table[i].0 in row
  }

  predicate RowAccepted(table: Table, row: Row) {
    CellsAccepted(table, row) && HasColumns(table, row)
  }

  /** `[row[key] for key in keys]`: the row's values in the table's column order. */
  function Arguments(table: Table, row: Row): (data: seq<string>)
    requires HasColumns(table, row)
    ensures |data| == |table|
    ensures forall i :: 0 <= i < |table| ==> data[i] == row[table[i].0]
  {
    seq(|table|, i requires 0 <= i < |table| => row[table[i].0])
  }

  /**
   * The inner loop over `row.items()`: false at the first cell that is blank,
   * has no validator or fails it. The loop has no side effect, so the order
   * in which the cells are visited does not change the answer.
   */
  method CheckCells(table: Table, row: Row) returns (ok: bool)
    ensures ok == CellsAccepted(table, row)
  {
    var unseen := row.Keys;
    while unseen != {}
      invariant unseen <= row.Keys
      invariant forall column :: column in row && column !in unseen ==> CellAccepted(table, column, row[column])
      decreases unseen
    {
      var column :| column in unseen;
      var value := row[column];
      if Blank(value) {
        return false;
      }
      var check := Lookup(table, column);
      if check.None? {
        return false;
      }
      if !check.value(value) {
        return false;
      }
      unseen := unseen - {column};
    }
    return true;
  }

  /** The make-a-record step can be applied to any argument list the table produces. */
  ghost predicate Builds<R>(table: Table, make: seq<string> --> R) {
    |table| > 0 && forall data :: |data| == |table| ==> make.requires(data)
  }

  /**
   * What loading rows into a database returns and leaves behind. Rows are
   * taken in order; the first rejected row ends the load with false and the
   * rows before it stay applied. An accepted row is added under its first
   * value, and one whose key is already present is skipped: add's result is
   * ignored (main.py line 236).
   */
  function Load<R>(table: Table, make: seq<string> --> R, db: Dict<R>, rows: seq<Row>): (bool, Dict<R>)
    requires Builds(table, make)
    decreases |rows|
  {
    if rows == [] then (true, db)
    else if !RowAccepted(table, rows[0]) then (false, db)
    else
      var data := Arguments(table, rows[0]);
      Load(table, make, db.Add(data[0], make(data)), rows[1..])
  }

  /** `add_user(*data)` as a record. */
  function UserOf(data: seq<string>): User
    requires |data| == 4
  {
    User(data[0], data[1], data[2], data[3])
  }

  /** `add_status(*data)` as a record. */
  function StatusOf(data: seq<string>): Status
    requires |data| == 3
  {
    Status(data[0], data[1], data[2])
  }

  /**
   * `load_users` on already-read rows: returns false at the first rejected
   * row, true otherwise, and leaves the collection as Load describes.
   */
  method LoadUsers(rows: seq<Row>, collection: UserCollection) returns (ok: bool)
    requires collection.Valid()
    modifies collection
    ensures collection.Valid()
    ensures (ok, collection.database) == Load(UserColumns, UserOf, old(collection.database), rows)
  {
    var i := 0;
    while i < |rows|
      invariant 0 <= i <= |rows|
      invariant collection.Valid()
      invariant Load(UserColumns, UserOf, old(collection.database), rows)
             == Load(UserColumns, UserOf, collection.database, rows[i..])
    {
      assert rows[i..][0] == rows[i] && rows[i..][1..] == rows[i + 1..];
      var cellsOk := CheckCells(UserColumns, rows[i]);
      if !cellsOk {
        return false;
      }
      if !HasColumns(UserColumns, rows[i]) {
        return false;
      }
      var data := Arguments(UserColumns, rows[i]);
      var _ := collection.AddUser(data[0], data[1], data[2], data[3]);
      i := i + 1;
    }
    return true;
  }

  /**
   * `load_status_updates` on already-read rows: returns false at the first
   * rejected row, true otherwise, and leaves the collection as Load describes.
   */
  method LoadStatusUpdates(rows: seq<Row>, collection: UserStatusCollection) returns (ok: bool)
    requires collection.Valid()
    modifies collection
    ensures collection.Valid()
    ensures (ok, collection.database) == Load(StatusColumns, StatusOf, old(collection.database), rows)
  {
    var i := 0;
    while i < |rows|
      invariant 0 <= i <= |rows|
      invariant collection.Valid()
      invariant Load(StatusColumns, StatusOf, old(collection.database), rows)
             == Load(StatusColumns, StatusOf, collection.database, rows[i..])
    {
      assert rows[i..][0] == rows[i] && rows[i..][1..] == rows[i + 1..];
      var cellsOk := CheckCells(StatusColumns, rows[i]);
      if !cellsOk {
        return false;
      }
      if !HasColumns(StatusColumns, rows[i]) {
        return false;
      }
      var data := Arguments(StatusColumns, rows[i]);
      var _ := collection.AddStatus(data[0], data[1], data[2]);
      i := i + 1;
    }
    return true;
  }

  // ---------------------------------------------------------------------------
  // What loading promises

  /** A load returns true exactly when every row is accepted; duplicate keys never fail it. */
  lemma {:induction false} LoadSucceedsIffAllAccepted<R>(table: Table, make: seq<string> --> R, db: Dict<R>, rows: seq<Row>)
    requires Builds(table, make)
    ensures Load(table, make, db, rows).0 <==> forall i :: 0 <= i < |rows| ==> RowAccepted(table, rows[i])
    decreases |rows|
  {
    if rows != [] && RowAccepted(table, rows[0]) {
      var data := Arguments(table, rows[0]);
      LoadSucceedsIffAllAccepted(table, make, db.Add(data[0], make(data)), rows[1..]);
      assert forall i :: 1 <= i < |rows| ==> rows[i] == rows[1..][i - 1];
    }
  }

  /**
   * At the first rejected row the load returns false, with exactly the rows
   * before it applied: no rollback, and nothing after it.
   */
  lemma {:induction false} LoadStopsAtFirstRejected<R>(
    table: Table, make: seq<string> --> R, db: Dict<R>, rows: seq<Row>, j: int)
    requires Builds(table, make)
    requires 0 <= j < |rows| && !RowAccepted(table, rows[j])
    requires forall i :: 0 <= i < j ==> RowAccepted(table, rows[i])
    ensures Load(table, make, db, rows) == (false, Load(table, make, db, rows[..j]).1)
    decreases j
  {
    if j > 0 {
      var data := Arguments(table, rows[0]);
      LoadStopsAtFirstRejected(table, make, db.Add(data[0], make(data)), rows[1..], j - 1);
      assert rows[..j][0] == rows[0] && rows[..j][1..] == rows[1..][..j - 1];
    }
  }

  /**
   * Loading never changes or removes what is already stored: every present
   * key keeps its record and its place, so a duplicate row is skipped.
   */
  lemma {:induction false} LoadNeverOverwrites<R>(table: Table, make: seq<string> --> R, db: Dict<R>, rows: seq<Row>)
    requires Builds(table, make)
    ensures var after := Load(table, make, db, rows).1;
      && db.keys <= after.keys
      && forall k :: k in db.entries ==> k in after.entries && after.entries[k] == db.entries[k]
    decreases |rows|
  {
    if rows != [] && RowAccepted(table, rows[0]) {
      var data := Arguments(table, rows[0]);
      LoadNeverOverwrites(table, make, db.Add(data[0], make(data)), rows[1..]);
    }
  }

  /** After a successful load every row's key is present. */
  lemma {:induction false} LoadStoresEveryKey<R>(table: Table, make: seq<string> --> R, db: Dict<R>, rows: seq<Row>)
    requires Builds(table, make)
    requires Load(table, make, db, rows).0
    ensures forall i :: 0 <= i < |rows| ==>
      HasColumns(table, rows[i]) && Arguments(table, rows[i])[0] in Load(table, make, db, rows).1.entries
    decreases |rows|
  {
    if rows != [] {
      var data := Arguments(table, rows[0]);
      var next := db.Add(data[0], make(data));
      assert Load(table, make, db, rows) == Load(table, make, next, rows[1..]);
      LoadStoresEveryKey(table, make, next, rows[1..]);
      LoadNeverOverwrites(table, make, next, rows[1..]);
      forall i | 0 <= i < |rows|
        ensures HasColumns(table, rows[i]) && Arguments(table, rows[i])[0] in Load(table, make, db, rows).1.entries
      {
        if i > 0 {
          assert rows[i] == rows[1..][i - 1];
        }
      }
    }
  }

  /** Loading one more row after a successful load. */
  lemma {:induction false} LoadSnoc<R>(table: Table, make: seq<string> --> R, db: Dict<R>, rows: seq<Row>, row: Row)
    requires Builds(table, make)
    requires Load(table, make, db, rows).0
    ensures var mid := Load(table, make, db, rows).1;
      Load(table, make, db, rows + [row]) ==
        if !RowAccepted(table, row) then (false, mid)
        else (true, mid.Add(Arguments(table, row)[0], make(Arguments(table, row))))
    decreases |rows|
  {
    if rows == [] {
      assert rows + [row] == [row];
    } else {
      assert (rows + [row])[0] == rows[0];
      assert (rows + [row])[1..] == rows[1..] + [row];
      var data := Arguments(table, rows[0]);
      LoadSnoc(table, make, db.Add(data[0], make(data)), rows[1..], row);
    }
  }

  // ---------------------------------------------------------------------------
  // Saving

  const UserHeader: seq<string> := ["USER_ID", "EMAIL", "NAME", "LASTNAME"]

  const StatusHeader: seq<string> := ["STATUS_ID", "USER_ID", "STATUS_TEXT"]

  /** `{keys[k]: v for k, v in user.__dict__.items()}` with the table of `save_users`. */
  function UserRow(u: User): Row {
    map["USER_ID" := u.userId, "EMAIL" := u.email, "NAME" := u.userName, "LASTNAME" := u.userLastName]
  }

  /** `{keys[k]: v for k, v in status.__dict__.items()}` with the table of `save_status_updates`. */
  function StatusRow(s: Status): Row {
    map["STATUS_ID" := s.statusId, "USER_ID" := s.userId, "STATUS_TEXT" := s.statusText]
  }

  /** The rows a save writes after the header: one per record, in the database's order. */
  function SavedRows<R>(db: Dict<R>, toRow: R -> Row): (rows: seq<Row>)
    requires db.Valid()
    ensures |rows| == |db.keys|
    ensures forall i :: 0 <= i < |rows| ==> rows[i] == toRow(db.entries[db.keys[i]])
  {
    seq(|db.keys|, i requires 0 <= i < |db.keys| => toRow(db.entries[db.keys[i]]))
  }

  /**
   * `save_collection` without the file: the header, then one row per record
   * of `database.items()` in order.
   */
  method SaveCollection<R>(header: seq<string>, db: Dict<R>, toRow: R -> Row)
    returns (written: seq<string>, rows: seq<Row>)
    requires db.Valid()
    ensures written == header
    ensures rows == SavedRows(db, toRow)
  {
    written := header;
    rows := [];
    var i := 0;
    while i < |db.keys|
      invariant 0 <= i <= |db.keys|
      invariant rows == SavedRows(db, toRow)[..i]
    {
      rows := rows + [toRow(db.entries[db.keys[i]])];
      i := i + 1;
    }
    assert SavedRows(db, toRow)[..i] == SavedRows(db, toRow);
  }

  /** `save_users`: the fixed header, then one row per user in the database's order. */
  method SaveUsers(collection: UserCollection) returns (header: seq<string>, rows: seq<Row>)
    requires collection.Valid()
    ensures header == ["USER_ID", "EMAIL", "NAME", "LASTNAME"]
    ensures rows == SavedRows(collection.database, UserRow)
  {
    header, rows := SaveCollection(UserHeader, collection.database, UserRow);
  }

  /** `save_status_updates`: the fixed header, then one row per message in the database's order. */
  method SaveStatusUpdates(collection: UserStatusCollection) returns (header: seq<string>, rows: seq<Row>)
    requires collection.Valid()
    ensures header == ["STATUS_ID", "USER_ID", "STATUS_TEXT"]
    ensures rows == SavedRows(collection.database, StatusRow)
  {
    header, rows := SaveCollection(StatusHeader, collection.database, StatusRow);
  }

  // ---------------------------------------------------------------------------
  // Save then load

  /** Loading the saved row of v gives back v, filed under key. */
  ghost predicate Restores<R>(table: Table, make: seq<string> --> R, toRow: R -> Row, key: string, v: R)
    requires Builds(table, make)
  {
    && RowAccepted(table, toRow(v))
    && Arguments(table, toRow(v))[0] == key
    && make(Arguments(table, toRow(v))) == v
  }

  /** The first n keys of db in order, with their records. */
  ghost function Prefix<R>(db: Dict<R>, n: nat): Dict<R>
    requires db.Valid() && n <= |db.keys|
  {
    Dict(db.keys[..n], map k | k in db.keys[..n] :: db.entries[k])
  }

  /** Adding the next key in order extends the prefix by one. */
  lemma PrefixStep<R>(db: Dict<R>, m: nat)
    requires db.Valid() && m < |db.keys|
    ensures db.keys[m] !in Prefix(db, m).entries
    ensures Prefix(db, m).Add(db.keys[m], db.entries[db.keys[m]]) == Prefix(db, m + 1)
  {
    var key := db.keys[m];
    var before, after := Prefix(db, m), Prefix(db, m + 1);
    assert db.keys[..m + 1] == db.keys[..m] + [key];
    assert key !in db.keys[..m] by {
      forall i | 0 <= i < m ensures db.keys[..m][i] != key {
        assert db.keys[i] != db.keys[m];
      }
    }
    assert before.entries[key := db.entries[key]] == after.entries by {
      forall k ensures k in after.entries <==> k == key || k in before.entries {
        assert k in db.keys[..m + 1] <==> k == key || k in db.keys[..m];
      }
    }
  }

  lemma {:induction false} LoadSavedPrefix<R>(table: Table, make: seq<string> --> R, toRow: R -> Row, db: Dict<R>, n: nat)
    requires Builds(table, make) && db.Valid() && n <= |db.keys|
    requires forall k {:trigger Restores(table, make, toRow, k, db.entries[k])} ::
      k in db.entries ==> Restores(table, make, toRow, k, db.entries[k])
    ensures Load(table, make, EmptyDict(), SavedRows(db, toRow)[..n]) == (true, Prefix(db, n))
  {
    var rows := SavedRows(db, toRow);
    if n == 0 {
      assert rows[..0] == [];
      PrefixNone(db);
    } else {
      var m := n - 1;
      var key := db.keys[m];
      LoadSavedPrefix(table, make, toRow, db, m);
      assert Restores(table, make, toRow, key, db.entries[key]);
      LoadSavedStep(table, make, toRow, db, m);
    }
  }

  /** One more saved row extends a loaded prefix by its record. */
  lemma LoadSavedStep<R>(table: Table, make: seq<string> --> R, toRow: R -> Row, db: Dict<R>, m: nat)
    requires Builds(table, make) && db.Valid() && m < |db.keys|
    requires Load(table, make, EmptyDict(), SavedRows(db, toRow)[..m]) == (true, Prefix(db, m))
    requires Restores(table, make, toRow, db.keys[m], db.entries[db.keys[m]])
    ensures Load(table, make, EmptyDict(), SavedRows(db, toRow)[..m + 1]) == (true, Prefix(db, m + 1))
  {
    var rows := SavedRows(db, toRow);
    var row := rows[m];
    assert rows[..m + 1] == rows[..m] + [row];
    LoadSnoc(table, make, EmptyDict(), rows[..m], row);
    PrefixStep(db, m);
  }

  /**
   * Saving a database and loading the rows into an empty one succeeds and
   * rebuilds it exactly, order included, when every record passes the load
   * checks.
   */
  lemma SaveLoadRoundTrip<R>(table: Table, make: seq<string> --> R, toRow: R -> Row, db: Dict<R>)
    requires Builds(table, make) && db.Valid()
    requires forall k {:trigger Restores(table, make, toRow, k, db.entries[k])} ::
      k in db.entries ==> Restores(table, make, toRow, k, db.entries[k])
    ensures Load(table, make, EmptyDict(), SavedRows(db, toRow)) == (true, db)
  {
    var rows := SavedRows(db, toRow);
    LoadSavedPrefix(table, make, toRow, db, |db.keys|);
    assert rows[..|db.keys|] == rows;
    PrefixAll(db);
  }

  /** The prefix of no key is the empty database. */
  lemma PrefixNone<R>(db: Dict<R>)
    requires db.Valid()
    ensures Prefix(db, 0) == EmptyDict()
  {
    assert db.keys[..0] == [];
    assert Prefix(db, 0).entries == map[];
  }

  /** The prefix of every key is the whole database. */
  lemma PrefixAll<R>(db: Dict<R>)
    requires db.Valid()
    ensures Prefix(db, |db.keys|) == db
  {
    assert db.keys[..|db.keys|] == db.keys;
    assert Prefix(db, |db.keys|).entries == db.entries;
  }

  /** A user the facade would accept, with an id that is not all spaces. */
  ghost predicate UserLoadable(u: User) {
    ValidateUserInputs(u.userId, u.email, u.userName, u.userLastName) && !Blank(u.userId)
  }

  /** A valid email always holds an '@', so it is never blank. */
  lemma EmailNotBlank(email: string)
    requires ValidateEmail(email)
    ensures !Blank(email)
  {
    var e := if EmailShape(email) then email else email[..|email| - 1];
    EmailShapeParts(e);
    var i :| 0 <= i < |e| && e[i] == '@';
    assert email[i] == '@';
  }

  /** The validator `load_users` names for each of its columns. */
  lemma UserColumnsLookup()
    ensures Lookup(UserColumns, "USER_ID") == Some(ValidateUserId)
    ensures Lookup(UserColumns, "EMAIL") == Some(ValidateEmail)
    ensures Lookup(UserColumns, "NAME") == Some(ValidateName)
    ensures Lookup(UserColumns, "LASTNAME") == Some(ValidateName)
  {
    var t := UserColumns;
    assert Lookup(t[1..][1..], "NAME") == Some(t[2].1);
    assert Lookup(t[1..][1..][1..], "LASTNAME") == Some(t[3].1);
    assert Lookup(t[1..][1..], "LASTNAME") == Some(t[3].1);
  }

  /** A row of three distinct columns passes when each of its three cells does. */
  lemma ThreeCells(table: Table, a: string, b: string, c: string, x: string, y: string, z: string)
    requires a != b && a != c && b != c
    requires CellAccepted(table, a, x) && CellAccepted(table, b, y) && CellAccepted(table, c, z)
    ensures CellsAccepted(table, map[a := x, b := y, c := z])
  {
  }

  /** A row of four distinct columns passes when each of its four cells does. */
  lemma FourCells(table: Table, a: string, b: string, c: string, d: string,
                  w: string, x: string, y: string, z: string)
    requires a != b && a != c && a != d && b != c && b != d && c != d
    requires CellAccepted(table, a, w) && CellAccepted(table, b, x)
    requires CellAccepted(table, c, y) && CellAccepted(table, d, z)
    ensures CellsAccepted(table, map[a := w, b := x, c := y, d := z])
  {
  }

  /** A cell whose column names validator f, with a non-blank value f accepts, passes. */
  lemma CellPasses(table: Table, column: string, value: string, f: string -> bool)
    requires Lookup(table, column) == Some(f) && f(value) && !Blank(value)
    ensures CellAccepted(table, column, value)
  {
  }

  /** Each cell of the saved row of an acceptable user passes on its own. */
  lemma UserCellsPass(u: User)
    requires ValidateUserId(u.userId) && !Blank(u.userId)
    requires ValidateEmail(u.email) && ValidateName(u.userName) && ValidateName(u.userLastName)
    ensures CellAccepted(UserColumns, "USER_ID", u.userId)
    ensures CellAccepted(UserColumns, "EMAIL", u.email)
    ensures CellAccepted(UserColumns, "NAME", u.userName)
    ensures CellAccepted(UserColumns, "LASTNAME", u.userLastName)
  {
    EmailNotBlank(u.email);
    assert u.userName[0] != ' ' && u.userLastName[0] != ' ';
    UserColumnsLookup();
    CellPasses(UserColumns, "USER_ID", u.userId, ValidateUserId);
    CellPasses(UserColumns, "EMAIL", u.email, ValidateEmail);
    CellPasses(UserColumns, "NAME", u.userName, ValidateName);
    CellPasses(UserColumns, "LASTNAME", u.userLastName, ValidateName);
  }

  /** The saved row of a user holds every column `load_users` reads, in add_user's order. */
  lemma UserRowColumns(u: User)
    ensures HasColumns(UserColumns, UserRow(u))
    ensures Arguments(UserColumns, UserRow(u)) == [u.userId, u.email, u.userName, u.userLastName]
  {
  }

  lemma UserRowRestores(u: User)
    requires UserLoadable(u)
    ensures Restores(UserColumns, UserOf, UserRow, u.userId, u)
  {
    UserCellsPass(u);
    FourCells(UserColumns, "USER_ID", "EMAIL", "NAME", "LASTNAME", u.userId, u.email, u.userName, u.userLastName);
    UserRowColumns(u);
  }

  /** Every user that passes the facade's checks and has a non-blank id survives save then load. */
  lemma UserSaveLoadRoundTrip(db: Dict<User>)
    requires KeyedByUserId(db)
    requires forall k :: k in db.entries ==> UserLoadable(db.entries[k])
    ensures Load(UserColumns, UserOf, EmptyDict(), SavedRows(db, UserRow)) == (true, db)
  {
    forall k | k in db.entries ensures Restores(UserColumns, UserOf, UserRow, k, db.entries[k]) {
      UserRowRestores(db.entries[k]);
    }
    SaveLoadRoundTrip(UserColumns, UserOf, UserRow, db);
  }

  /** A message the facade would accept, with a user id and text that are not all spaces. */
  ghost predicate StatusLoadable(s: Status) {
    ValidateStatusInputs(s.statusId, s.userId, s.statusText) && !Blank(s.userId) && !Blank(s.statusText)
  }

  /** The validator `load_status_updates` names for each of its columns. */
  lemma StatusColumnsLookup()
    ensures Lookup(StatusColumns, "STATUS_ID") == Some(ValidateStatusId)
    ensures Lookup(StatusColumns, "USER_ID") == Some(ValidateUserId)
    ensures Lookup(StatusColumns, "STATUS_TEXT") == Some(ValidateStatusText)
  {
    var t := StatusColumns;
    assert Lookup(t[1..][1..], "STATUS_TEXT") == Some(t[2].1);
  }

  /** A valid status id holds an '_', so it is never blank. */
  lemma StatusIdNotBlank(statusId: string)
    requires ValidateStatusId(statusId)
    ensures !Blank(statusId)
  {
    StatusIdShape(statusId);
    var i :| 0 <= i < |statusId| && statusId[i] == '_';
  }

  /** Each cell of the saved row of an acceptable message passes on its own. */
  lemma StatusCellsPass(s: Status)
    requires ValidateStatusId(s.statusId)
    requires ValidateUserId(s.userId) && !Blank(s.userId) && !Blank(s.statusText)
    ensures CellAccepted(StatusColumns, "STATUS_ID", s.statusId)
    ensures CellAccepted(StatusColumns, "USER_ID", s.userId)
    ensures CellAccepted(StatusColumns, "STATUS_TEXT", s.statusText)
  {
    StatusColumnsLookup();
    StatusIdNotBlank(s.statusId);
    CellPasses(StatusColumns, "STATUS_ID", s.statusId, ValidateStatusId);
    CellPasses(StatusColumns, "USER_ID", s.userId, ValidateUserId);
    CellPasses(StatusColumns, "STATUS_TEXT", s.statusText, ValidateStatusText);
  }

  /** The saved row of a message holds every column `load_status_updates` reads, in add_status's order. */
  lemma StatusRowColumns(s: Status)
    ensures HasColumns(StatusColumns, StatusRow(s))
    ensures Arguments(StatusColumns, StatusRow(s)) == [s.statusId, s.userId, s.statusText]
  {
  }

  lemma StatusRowRestores(s: Status)
    requires StatusLoadable(s)
    ensures Restores(StatusColumns, StatusOf, StatusRow, s.statusId, s)
  {
    StatusCellsPass(s);
    ThreeCells(StatusColumns, "STATUS_ID", "USER_ID", "STATUS_TEXT", s.statusId, s.userId, s.statusText);
    StatusRowColumns(s);
  }

  /** Every message that passes the facade's checks, with non-blank user id and text, survives save then load. */
  lemma StatusSaveLoadRoundTrip(db: Dict<Status>)
    requires KeyedByStatusId(db)
    requires forall k :: k in db.entries ==> StatusLoadable(db.entries[k])
    ensures Load(StatusColumns, StatusOf, EmptyDict(), SavedRows(db, StatusRow)) == (true, db)
  {
    forall k | k in db.entries ensures Restores(StatusColumns, StatusOf, StatusRow, k, db.entries[k]) {
      StatusRowRestores(db.entries[k]);
    }
    SaveLoadRoundTrip(StatusColumns, StatusOf, StatusRow, db);
  }
}
