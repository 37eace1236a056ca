/** `UserRepository`: the MySQL-backed repository of users, over an
    in-memory `users` table. */
module Repositories {
  import opened Results
  import opened UserEntity
  import opened UserRow
  import opened UpdateStatement
  import opened UserTable

  class UserRepository {
    /** The rows of `users`, by id. */
    var rows: map<Id, Row>
    /** The table's next AUTO_INCREMENT value. */
    var nextId: Id
    /** The repository operations called so far (from outside), in order. */
    ghost var calls: seq<Call>

    function Snapshot(): Store
      reads this
    {
      Store(rows, nextId)
    }

    /** The table's own constraints hold. */
    ghost predicate Valid()
      reads this
    {
      Consistent(Snapshot())
    }

    /** An empty table. */
    constructor ()
      ensures Valid()
      ensures rows == map[] && nextId == 1 && calls == []
    {
      rows := map[];
      nextId := 1;
      calls := [];
    }

    /** `findAll()`: every user, newest first. */
    method FindAll() returns (users: seq<User>)
      requires Valid()
      modifies this`calls
      ensures calls == old(calls) + [FindAllCall]
      ensures SortedByCreatedDesc(users) && ListsTable(rows, users)
    {
      calls := calls + [FindAllCall];
      users := [];
      // scan the clustered index in key order, then sort
      for id := 1 to nextId
        invariant calls == old(calls) + [FindAllCall]
        invariant SortedByCreatedDesc(users) && DistinctIds(users)
        invariant forall u :: u in users ==> u.id in rows && u.id < id && u == MapRowToUser(rows[u.id])
        invariant forall k :: k in rows && k < id ==> MapRowToUser(rows[k]) in users
      {
        if id in rows {
          var u := MapRowToUser(rows[id]);
          InsertKeepsIdsDistinct(users, u);
          InsertMembers(users, u);
          users := InsertByCreatedDesc(users, u);
        }
      }
    }

    /** `findById(id)`: the user with that id, or `null`. */
    method FindById(id: Id) returns (found: Option<User>)
      modifies this`calls
      ensures calls == old(calls) + [FindByIdCall(id)]
      ensures found.Some? <==> id in rows
      ensures found.Some? ==> found.value == MapRowToUser(rows[id])
    {
      calls := calls + [FindByIdCall(id)];
      if id !in rows {
        return None;
      }
      found := Some(MapRowToUser(rows[id]));
    }

    /** `exists(email, username)`: some row has that email or that username. */
    method Exists(email: string, username: string) returns (b: bool)
      modifies this`calls
      ensures calls == old(calls) + [ExistsCall(email, username)]
      ensures b <==> ExistsIn(rows, email, username)
    {
      calls := calls + [ExistsCall(email, username)];
      b := ExistsIn(rows, email, username);
    }

    /** `create(userData)` at time `now`. */
    method Create(data: UserData, now: Timestamp) returns (r: Result<User>)
      requires Valid()
      modifies this
      ensures var o := CreateStep(old(Snapshot()), data, now); r == o.result && Snapshot() == o.after
      ensures calls == old(calls) + [CreateCall(data)]
      ensures Valid()
    {
      calls := calls + [CreateCall(data)];
      if !BindsAll(data) {
        return Err(CreateErrorFor(NoCode));
      }
      var row := InsertedRow(nextId, data, now);
      var thrown: Option<Thrown> := None;
      if nextId in rows {
        thrown := Some(DuplicateEntry(PrimaryKey));
      } else {
        var k := Conflict(rows, row);
        if k.Some? {
          thrown := Some(DuplicateEntry(k.value));
        }
      }
      if thrown.Some? {
        return Err(CreateErrorFor(thrown.value));
      }
      var insertId := nextId;
      rows := rows[insertId := row];
      nextId := nextId + 1;
      r := Ok(MapRowToUser(rows[insertId]));
    }

    /** `update(id, userData)` at time `now`. */
    method Update(id: Id, data: UserData, now: Timestamp) returns (r: Result<User>)
      requires Valid()
      modifies this
      ensures var o := UpdateStep(old(Snapshot()), id, data, now); r == o.result && Snapshot() == o.after
      ensures calls == old(calls) + [UpdateCall(id, data)]
      ensures Valid()
    {
      calls := calls + [UpdateCall(id, data)];
      var existing := FindUser(rows, id);
      if existing.None? {
        return Err(UpdateErrorFor(NoCode));
      }
      var fieldsToUpdate, values := CollectFields(data);
      if |fieldsToUpdate| == 0 {
        return Ok(existing.value);
      }
      fieldsToUpdate := fieldsToUpdate + [UpdatedAt];
      values := values + [Key(id)];
      // UPDATE users SET <fieldsToUpdate> WHERE id = ?: the last value binds the WHERE
      WhereBindsIdLast(data, id);
      var whereId := values[|values| - 1].key;
      var setValues := values[..|values| - 1];
      SetClauseIsPatch(rows[whereId], data, now);
      var updated := ApplySet(rows[whereId], fieldsToUpdate, setValues, now);
      var k := Conflict(rows - {whereId}, updated);
      if k.Some? {
        return Err(UpdateErrorFor(DuplicateEntry(k.value)));
      }
      rows := rows[whereId := updated];
      r := Ok(MapRowToUser(rows[id]));
    }

    /** `delete(id)`. */
    method Delete(id: Id) returns (r: Result<bool>)
      requires Valid()
      modifies this
      ensures var o := DeleteStep(old(Snapshot()), id); r == o.result && Snapshot() == o.after
      ensures calls == old(calls) + [DeleteCall(id)]
      ensures Valid()
    {
      calls := calls + [DeleteCall(id)];
      var existing := FindUser(rows, id);
      if existing.None? {
        return Err(DeleteFailed);
      }
      var affectedRows := if id in rows then 1 else 0;
      rows := rows - {id};
      r := Ok(affectedRows > 0);
    }
  }
}
