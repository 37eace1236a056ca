/** The `users` table as the repository's SQL statements see it, and what
    each repository operation does to it: the rules `UserRepository`
    implements, stated on values. */
module UserTable {
  import opened Results
  import opened UserEntity
  import opened UserRow
  import opened UpdateStatement

  /** The table: its rows by id, and the next AUTO_INCREMENT id. */
  datatype Store = Store(rows: map<Id, Row>, nextId: Id)

  /** The table's constraints: every id is below the counter and is the id
      of its row, and `email` and `username` are UNIQUE. */
  ghost predicate Consistent(s: Store)
  {
    && s.nextId >= 1
    && (forall id :: id in s.rows ==> 1 <= id < s.nextId && s.rows[id].id == id)
    && (forall i, j :: i in s.rows && j in s.rows && i != j ==>
          s.rows[i].email != s.rows[j].email && s.rows[i].username != s.rows[j].username)
  }

  /** What one repository operation returns, and the table after it. */
  datatype Step<T> = Step(result: Result<T>, after: Store)

  /** The index a duplicate-key error names. */
  datatype Key = PrimaryKey | EmailKey | UsernameKey

  /** What a `catch` block of the repository receives: an error with code
      `ER_DUP_ENTRY` naming an index, or an error without that code (the
      `'User not found'` thrown inside the `try`, a rejected statement). */
  datatype Thrown = DuplicateEntry(key: Key) | NoCode

  /** The `catch` of `create`. */
  function CreateErrorFor(t: Thrown): (e: Error)
    ensures e == EmailAlreadyExists <==> t == DuplicateEntry(EmailKey)
    ensures e == UsernameAlreadyExists <==> t == DuplicateEntry(UsernameKey)
    ensures e == UserAlreadyExists <==> t == DuplicateEntry(PrimaryKey)
    ensures e == CreateFailed <==> t == NoCode
  {
    match t
    case DuplicateEntry(EmailKey) => EmailAlreadyExists
    case DuplicateEntry(UsernameKey) => UsernameAlreadyExists
    case DuplicateEntry(PrimaryKey) => UserAlreadyExists
    case NoCode => CreateFailed
  }

  /** The `catch` of `update`: a duplicate naming neither column falls
      through to the generic error. */
  function UpdateErrorFor(t: Thrown): (e: Error)
    ensures e == EmailAlreadyExists <==> t == DuplicateEntry(EmailKey)
    ensures e == UsernameAlreadyExists <==> t == DuplicateEntry(UsernameKey)
    ensures e == UpdateFailed <==> t != DuplicateEntry(EmailKey) && t != DuplicateEntry(UsernameKey)
  {
    match t
    case DuplicateEntry(EmailKey) => EmailAlreadyExists
    case DuplicateEntry(UsernameKey) => UsernameAlreadyExists
    case DuplicateEntry(PrimaryKey) => UpdateFailed
    case NoCode => UpdateFailed
  }

  /** The two mappings agree exactly on duplicates of a named column. */
  lemma ErrorMappingsAgreeOnNamedColumns(t: Thrown)
    ensures CreateErrorFor(t) == UpdateErrorFor(t) <==> t == DuplicateEntry(EmailKey) || t == DuplicateEntry(UsernameKey)
  {
  }

  /** `SELECT ... WHERE id = ?` followed by `mapRowToUser`. */
  function FindUser(rows: map<Id, Row>, id: Id): (found: Option<User>)
    ensures found.None? <==> id !in rows
    ensures found.Some? ==> found.value == MapRowToUser(rows[id])
  {
    if id in rows then Some(MapRowToUser(rows[id])) else None
  }

  /** `SELECT id FROM users WHERE email = ? OR username = ? LIMIT 1` found a row. */
  predicate ExistsIn(rows: map<Id, Row>, email: string, username: string): (b: bool)
    ensures b <==> EmailTaken(rows, email) || UsernameTaken(rows, username)
  {
    exists id :: id in rows && (rows[id].email == email || rows[id].username == username)
  }

  predicate EmailTaken(others: map<Id, Row>, email: string)
  {
    exists id :: id in others && others[id].email == email
  }

  predicate UsernameTaken(others: map<Id, Row>, username: string)
  {
    exists id :: id in others && others[id].username == username
  }

  /** The UNIQUE index that writing `row` beside the rows `others` violates,
      if any; the email index is reported before the username index. */
  function Conflict(others: map<Id, Row>, row: Row): (k: Option<Key>)
    ensures k != Some(PrimaryKey)
    ensures k == Some(EmailKey) <==> EmailTaken(others, row.email)
    ensures k.None? <==> !ExistsIn(others, row.email, row.username)
  {
    if EmailTaken(others, row.email) then Some(EmailKey)
    else if UsernameTaken(others, row.username) then Some(UsernameKey)
    else None
  }

  /** The INSERT binds these five attributes as they are; the driver
      refuses a statement with an `undefined` parameter. */
  predicate BindsAll(data: UserData)
  {
    data.username.Defined? && data.email.Defined? && data.password.Defined? &&
    data.firstName.Defined? && data.lastName.Defined?
  }

  /** The row `create` inserts: a falsy role becomes `'author'`, an
      `undefined` flag becomes `true`, the timestamps are the current time. */
  function InsertedRow(id: Id, data: UserData, now: Timestamp): (r: Row)
    requires BindsAll(data)
    ensures r.id == id && r.password == data.password.value
    ensures r.username == data.username.value && r.email == data.email.value
    ensures r.firstName == data.firstName.value && r.lastName == data.lastName.value
    ensures Truthy(data.role) ==> r.role == data.role.value
    ensures !Truthy(data.role) ==> r.role == "author"
    ensures r.isActive in {0, 1} && (r.isActive == 1 <==> data.isActive != Defined(false))
    ensures r.createdAt == now && r.updatedAt == now
  {
    Row(id, data.username.value, data.email.value, data.password.value,
        data.firstName.value, data.lastName.value,
        if Truthy(data.role) then data.role.value else "author",
        TinyInt(data.isActive.GetOr(true)), now, now)
  }

  /** `create(userData)`: INSERT, then read the new row back. */
  function CreateStep(s: Store, data: UserData, now: Timestamp): (o: Step<User>)
    ensures !BindsAll(data) ==> o == Step(Err(CreateFailed), s)
    ensures o.result.Err? ==> o.after == s
    ensures o.result.Err? ==>
      o.result.error in {CreateFailed, UserAlreadyExists, EmailAlreadyExists, UsernameAlreadyExists}
    ensures o.result.Ok? ==>
      && BindsAll(data)
      && s.nextId !in s.rows
      && o.after.nextId == s.nextId + 1
      && o.after.rows.Keys == s.rows.Keys + {s.nextId}
      && (forall id :: id in s.rows ==> o.after.rows[id] == s.rows[id])
      && o.after.rows[s.nextId].password == data.password.value
      && o.result.value == MapRowToUser(o.after.rows[s.nextId])
    ensures o.result.Ok? ==>
      var u := o.result.value;
      && u.id == s.nextId
      && u.username == data.username.value && u.email == data.email.value
      && u.firstName == data.firstName.value && u.lastName == data.lastName.value
      && (Truthy(data.role) ==> u.role == data.role.value)
      && (!Truthy(data.role) ==> u.role == "author")
      && (u.isActive <==> data.isActive != Defined(false))
      && u.createdAt == now && u.updatedAt == now
    ensures Consistent(s) ==> Consistent(o.after)
    ensures Consistent(s) && BindsAll(data) ==>
      (o.result.Err? <==> ExistsIn(s.rows, data.email.value, data.username.value))
    ensures Consistent(s) && BindsAll(data) && EmailTaken(s.rows, data.email.value) ==>
      o.result == Err(EmailAlreadyExists)
    ensures Consistent(s) && BindsAll(data) && !EmailTaken(s.rows, data.email.value) &&
            UsernameTaken(s.rows, data.username.value) ==>
      o.result == Err(UsernameAlreadyExists)
  {
    if !BindsAll(data) then Step(Err(CreateErrorFor(NoCode)), s)
    else
      var row := InsertedRow(s.nextId, data, now);
      if s.nextId in s.rows then Step(Err(CreateErrorFor(DuplicateEntry(PrimaryKey))), s)
      else
        match Conflict(s.rows, row)
        case Some(k) => Step(Err(CreateErrorFor(DuplicateEntry(k))), s)
        case None => Step(Ok(MapRowToUser(row)), Store(s.rows[s.nextId := row], s.nextId + 1))
  }

  /** `update(id, userData)`: look the row up, write the supplied columns
      and the timestamp, then read the row back. */
  function UpdateStep(s: Store, id: Id, data: UserData, now: Timestamp): (o: Step<User>)
    ensures id !in s.rows ==> o == Step(Err(UpdateFailed), s)
    ensures id in s.rows && !AnySupplied(data) ==> o == Step(Ok(MapRowToUser(s.rows[id])), s)
    ensures o.result.Err? ==> o.after == s
    ensures o.result.Err? ==> o.result.error in {UpdateFailed, EmailAlreadyExists, UsernameAlreadyExists}
    ensures o.after.nextId == s.nextId && o.after.rows.Keys == s.rows.Keys
    ensures forall k :: k in s.rows && k != id ==> o.after.rows[k] == s.rows[k]
    ensures o.result.Ok? ==> id in s.rows && o.result.value == MapRowToUser(o.after.rows[id])
    ensures o.result.Ok? && AnySupplied(data) ==> o.after.rows[id] == Patched(s.rows[id], data, now)
    ensures Consistent(s) ==> Consistent(o.after)
    ensures Consistent(s) && o.result.Ok? ==> o.result.value.id == id
    ensures id in s.rows && AnySupplied(data) ==>
      var row := Patched(s.rows[id], data, now);
      && (o.result.Ok? <==> !ExistsIn(s.rows - {id}, row.email, row.username))
      && (EmailTaken(s.rows - {id}, row.email) ==> o.result == Err(EmailAlreadyExists))
      && (!EmailTaken(s.rows - {id}, row.email) && UsernameTaken(s.rows - {id}, row.username) ==>
            o.result == Err(UsernameAlreadyExists))
  {
    if id !in s.rows then Step(Err(UpdateErrorFor(NoCode)), s)
    else if !AnySupplied(data) then Step(Ok(MapRowToUser(s.rows[id])), s)
    else
      var row := Patched(s.rows[id], data, now);
      match Conflict(s.rows - {id}, row)
      case Some(k) => Step(Err(UpdateErrorFor(DuplicateEntry(k))), s)
      case None =>
        RewriteKeepsConsistent(s, id, row);
        Step(Ok(MapRowToUser(row)), s.(rows := s.rows[id := row]))
  }

  /** Rewriting row `id` with a row that keeps its id and clashes with no
      other row keeps the table consistent. */
  lemma RewriteKeepsConsistent(s: Store, id: Id, row: Row)
    requires id in s.rows && row.id == s.rows[id].id
    requires !ExistsIn(s.rows - {id}, row.email, row.username)
    ensures Consistent(s) ==> Consistent(s.(rows := s.rows[id := row]))
  {
    if Consistent(s) {
      var t := s.rows[id := row];
      forall i, j | i in t && j in t && i != j
        ensures t[i].email != t[j].email && t[i].username != t[j].username
      {
        if i == id {
          assert j in s.rows - {id};
        } else if j == id {
          assert i in s.rows - {id};
        }
      }
    }
  }

  /** `delete(id)`: look the row up, then DELETE it. */
  function DeleteStep(s: Store, id: Id): (o: Step<bool>)
    ensures o.result.Ok? <==> id in s.rows
    ensures o.result.Ok? ==> o.result.value
    ensures o.result.Err? ==> o.result.error == DeleteFailed && o.after == s
    ensures id !in o.after.rows && o.after.nextId == s.nextId
    ensures forall k :: k in s.rows && k != id ==> k in o.after.rows && o.after.rows[k] == s.rows[k]
    ensures o.after.rows.Keys <= s.rows.Keys
    ensures Consistent(s) ==> Consistent(o.after)
  {
    if id !in s.rows then Step(Err(DeleteFailed), s)
    else Step(Ok(true), s.(rows := s.rows - {id}))
  }

  /** A write to a user that rewrites a row with its own username and email
      never meets a duplicate-key error. */
  lemma OwnValuesNeverClash(s: Store, id: Id, row: Row)
    requires Consistent(s) && id in s.rows
    requires row.email == s.rows[id].email && row.username == s.rows[id].username
    ensures Conflict(s.rows - {id}, row).None?
  {
  }

  // ORDER BY createdAt DESC

  predicate SortedByCreatedDesc(users: seq<User>)
  {
    forall i, j :: 0 <= i < j < |users| ==> users[i].createdAt >= users[j].createdAt
  }

  predicate DistinctIds(users: seq<User>)
  {
    forall i, j :: 0 <= i < j < |users| ==> users[i].id != users[j].id
  }

  /** `users` holds the mapped rows of the table, each once. */
  ghost predicate ListsTable(rows: map<Id, Row>, users: seq<User>)
  {
    && (forall u :: u in users ==> u.id in rows && u == MapRowToUser(rows[u.id]))
    && (forall id :: id in rows ==> MapRowToUser(rows[id]) in users)
    && DistinctIds(users)
  }

  /** Places `u` in a list ordered newest first. */
  function InsertByCreatedDesc(users: seq<User>, u: User): (r: seq<User>)
    requires SortedByCreatedDesc(users)
    ensures SortedByCreatedDesc(r)
    ensures |r| == |users| + 1
    ensures multiset(r) == multiset(users) + multiset{u}
    decreases |users|
  {
    if users == [] || users[0].createdAt <= u.createdAt then [u] + users
    else
      var rest := InsertByCreatedDesc(users[1..], u);
      TailBelowHead(users, u, rest);
      PrependKeepsOrder(users[0], rest);
      assert users == [users[0]] + users[1..];
      [users[0]] + rest
  }

  lemma TailBelowHead(users: seq<User>, u: User, rest: seq<User>)
    requires users != [] && SortedByCreatedDesc(users) && u.createdAt < users[0].createdAt
    requires multiset(rest) == multiset(users[1..]) + multiset{u}
    ensures forall x :: x in rest ==> x.createdAt <= users[0].createdAt
  {
    forall x | x in rest ensures x.createdAt <= users[0].createdAt {
      assert x in multiset(rest);
      if x != u {
        assert x in multiset(users[1..]);
        var k :| 0 <= k < |users[1..]| && users[1..][k] == x;
        assert users[k + 1] == x;
      }
    }
  }

  lemma PrependKeepsOrder(a: User, rest: seq<User>)
    requires SortedByCreatedDesc(rest)
    requires forall x :: x in rest ==> x.createdAt <= a.createdAt
    ensures SortedByCreatedDesc([a] + rest)
  {
    var r := [a] + rest;
    forall i, j | 0 <= i < j < |r| ensures r[i].createdAt >= r[j].createdAt {
      if i == 0 { assert r[j] in rest; } else { assert r[i] == rest[i - 1] && r[j] == rest[j - 1]; }
    }
  }

  /** The inserted list holds the old members and the new one. */
  lemma InsertMembers(users: seq<User>, u: User)
    requires SortedByCreatedDesc(users)
    ensures forall x :: x in InsertByCreatedDesc(users, u) <==> x in users || x == u
  {
    var r := InsertByCreatedDesc(users, u);
    forall x ensures x in r <==> x in users || x == u {
      assert x in r <==> x in multiset(r);
      assert x in users <==> x in multiset(users);
    }
  }

  /** Inserting a user whose id is new keeps the ids distinct. */
  lemma {:induction false} InsertKeepsIdsDistinct(users: seq<User>, u: User)
    requires SortedByCreatedDesc(users) && DistinctIds(users)
    requires forall x :: x in users ==> x.id != u.id
    ensures DistinctIds(InsertByCreatedDesc(users, u))
  {
    if users == [] || users[0].createdAt <= u.createdAt {
      var r := [u] + users;
      forall i, j | 0 <= i < j < |r| ensures r[i].id != r[j].id {
        if i == 0 { assert r[j] in users; } else { assert r[i] == users[i - 1] && r[j] == users[j - 1]; }
      }
    } else {
      var tail := users[1..];
      forall x | x in tail ensures x in users { }
      InsertKeepsIdsDistinct(tail, u);
      var rest := InsertByCreatedDesc(tail, u);
      var r := [users[0]] + rest;
      assert r == InsertByCreatedDesc(users, u);
      forall i, j | 0 <= i < j < |r| ensures r[i].id != r[j].id {
        if i == 0 {
          var x := r[j];
          assert x in multiset(rest);
          if x != u {
            assert x in multiset(tail);
            var k :| 0 <= k < |tail| && tail[k] == x;
            assert users[k + 1] == x;
          } else {
            assert users[0] in users;
          }
        } else {
          assert r[i] == rest[i - 1] && r[j] == rest[j - 1];
        }
      }
    }
  }

  /** One call the use cases make on the repository. */
  datatype Call =
    | FindAllCall
    | FindByIdCall(id: Id)
    | CreateCall(data: UserData)
    | UpdateCall(id: Id, data: UserData)
    | DeleteCall(id: Id)
    | ExistsCall(email: string, username: string)
  {
    predicate IsWrite()
    {
      CreateCall? || UpdateCall? || DeleteCall?
    }
  }

  /** What a use case returns, the table after it, and the repository calls
      it made, in order. */
  datatype Run = Run(result: Result<User>, after: Store, calls: seq<Call>)
}
