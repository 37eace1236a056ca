/** The partial UPDATE that `UserRepository.update` builds: the SET clause
    collected from the attributes that are not `undefined`, what executing
    that clause does to a row, and the field-wise partial update it is meant
    to be. */
module UpdateStatement {
  import opened UserEntity
  import opened UserRow

  /** The columns an UPDATE of `users` can assign. */
  datatype Column = Username | Email | Password | FirstName | LastName | Role | IsActive | UpdatedAt

  /** A value bound to a `?` placeholder. */
  datatype SqlValue = Text(text: string) | Flag(flag: bool) | Key(key: Id)

  /** The order in which `update` considers the columns. */
  function Rank(c: Column): nat
  {
    match c
    case Username => 0
    case Email => 1
    case FirstName => 2
    case LastName => 3
    case Role => 4
    case IsActive => 5
    case Password => 6
    case UpdatedAt => 7
  }

  /** The columns `update` may take from its input: not the password, and
      not the timestamp, which it sets itself. */
  predicate Writable(c: Column)
  {
    c != Password && c != UpdatedAt
  }

  /** Whether `data` carries a value (not `undefined`) for column `c`. */
  predicate Supplied(data: UserData, c: Column)
  {
    match c
    case Username => data.username.Defined?
    case Email => data.email.Defined?
    case Password => data.password.Defined?
    case FirstName => data.firstName.Defined?
    case LastName => data.lastName.Defined?
    case Role => data.role.Defined?
    case IsActive => data.isActive.Defined?
    case UpdatedAt => false
  }

  /** Whether `data` supplies any writable column. */
  predicate AnySupplied(data: UserData)
  {
    data.username.Defined? || data.email.Defined? || data.firstName.Defined? ||
    data.lastName.Defined? || data.role.Defined? || data.isActive.Defined?
  }

  /** The value `data` binds for a writable column (read only where
      `data` supplies that column). */
  function BoundValue(data: UserData, c: Column): SqlValue
    requires Writable(c)
  {
    match c
    case Username => Text(data.username.GetOr(""))
    case Email => Text(data.email.GetOr(""))
    case FirstName => Text(data.firstName.GetOr(""))
    case LastName => Text(data.lastName.GetOr(""))
    case Role => Text(data.role.GetOr(""))
    case IsActive => Flag(data.isActive.GetOr(false))
  }

  function Slot<T>(present: bool, x: T): seq<T>
  {
    if present then [x] else []
  }

  /** The writable columns in the order `update` examines them. */
  const StatementOrder: seq<Column> := [Username, Email, FirstName, LastName, Role, IsActive]

  predicate InStatementOrder(cs: seq<Column>)
  {
    forall i, j :: 0 <= i < j < |cs| ==> Rank(cs[i]) < Rank(cs[j])
  }

  /** The columns of `cs` that `data` supplies, in the order of `cs`. */
  function SuppliedIn(cs: seq<Column>, data: UserData): (r: seq<Column>)
    decreases |cs|
  {
    if cs == [] then [] else Slot(Supplied(data, cs[0]), cs[0]) + SuppliedIn(cs[1..], data)
  }

  lemma {:induction false} SuppliedInMembers(cs: seq<Column>, data: UserData)
    ensures forall c :: c in SuppliedIn(cs, data) <==> c in cs && Supplied(data, c)
    decreases |cs|
  {
    if cs != [] {
      SuppliedInMembers(cs[1..], data);
      assert forall c :: c in cs <==> c == cs[0] || c in cs[1..];
    }
  }

  lemma {:induction false} SuppliedInKeepsOrder(cs: seq<Column>, data: UserData)
    requires InStatementOrder(cs)
    ensures InStatementOrder(SuppliedIn(cs, data))
    decreases |cs|
  {
    if cs != [] {
      SuppliedInKeepsOrder(cs[1..], data);
      SuppliedInMembers(cs[1..], data);
      var rest := SuppliedIn(cs[1..], data);
      forall x | x in rest
        ensures Rank(cs[0]) < Rank(x)
      {
        var j :| 0 <= j < |cs[1..]| && cs[1..][j] == x;
        assert cs[j + 1] == x;
      }
    }
  }

  lemma StatementOrderIsWritable(c: Column)
    ensures c in StatementOrder <==> Writable(c)
  {
  }

  lemma NothingSupplied(data: UserData)
    ensures SuppliedIn(StatementOrder, data) == [] <==> !AnySupplied(data)
  {
  }

  /** The `fieldsToUpdate` list: every writable column `data` supplies,
      in statement order, each once. */
  function PresentColumns(data: UserData): (cs: seq<Column>)
    ensures forall c :: c in cs <==> Writable(c) && Supplied(data, c)
    ensures InStatementOrder(cs)
    ensures cs == [] <==> !AnySupplied(data)
  {
    SuppliedInKeepsOrder(StatementOrder, data);
    SuppliedInMembers(StatementOrder, data);
    NothingSupplied(data);
    assert forall c :: c in StatementOrder <==> Writable(c) by {
      forall c ensures c in StatementOrder <==> Writable(c) { StatementOrderIsWritable(c); }
    }
    SuppliedIn(StatementOrder, data)
  }

  /** The values bound for the columns `cs`, position by position. */
  function ValuesFor(data: UserData, cs: seq<Column>): seq<SqlValue>
    requires forall c :: c in cs ==> Writable(c)
    decreases |cs|
  {
    if cs == [] then [] else [BoundValue(data, cs[0])] + ValuesFor(data, cs[1..])
  }

  lemma {:induction false} ValuesForAt(data: UserData, cs: seq<Column>)
    requires forall c :: c in cs ==> Writable(c)
    ensures |ValuesFor(data, cs)| == |cs|
    ensures forall i :: 0 <= i < |cs| ==> ValuesFor(data, cs)[i] == BoundValue(data, cs[i])
    decreases |cs|
  {
    if cs != [] {
      ValuesForAt(data, cs[1..]);
    }
  }

  /** The `values` list: the value of each column of `PresentColumns(data)`. */
  function PresentValues(data: UserData): (vs: seq<SqlValue>)
    ensures |vs| == |PresentColumns(data)|
    ensures forall i :: 0 <= i < |vs| ==> vs[i] == BoundValue(data, PresentColumns(data)[i])
  {
    ValuesForAt(data, PresentColumns(data));
    ValuesFor(data, PresentColumns(data))
  }

  /** `fieldsToUpdate` and `values` hold what is collected before the
      columns `rest` are examined. */
  ghost predicate Collected(data: UserData, fieldsToUpdate: seq<Column>, values: seq<SqlValue>,
                            rest: seq<Column>, all: seq<Column>)
  {
    && fieldsToUpdate + SuppliedIn(rest, data) == all
    && (forall x :: x in fieldsToUpdate ==> Writable(x))
    && values == ValuesFor(data, fieldsToUpdate)
  }

  lemma {:induction false} ValuesForSnoc(data: UserData, cs: seq<Column>, c: Column)
    requires forall x :: x in cs ==> Writable(x)
    requires Writable(c)
    ensures ValuesFor(data, cs + [c]) == ValuesFor(data, cs) + [BoundValue(data, c)]
    decreases |cs|
  {
    if cs == [] {
      assert cs + [c] == [c];
    } else {
      assert (cs + [c])[1..] == cs[1..] + [c];
      ValuesForSnoc(data, cs[1..], c);
    }
  }

  /** Examining the first column of `rest` when `data` supplies it. */
  lemma AdvancePush(data: UserData, fieldsToUpdate: seq<Column>, values: seq<SqlValue>,
                     rest: seq<Column>, all: seq<Column>)
    requires Collected(data, fieldsToUpdate, values, rest, all)
    requires rest != [] && Writable(rest[0]) && Supplied(data, rest[0])
    ensures Collected(data, fieldsToUpdate + [rest[0]], values + [BoundValue(data, rest[0])], rest[1..], all)
  {
    var t := SuppliedIn(rest[1..], data);
    assert SuppliedIn(rest, data) == [rest[0]] + t;
    assert fieldsToUpdate + ([rest[0]] + t) == (fieldsToUpdate + [rest[0]]) + t;
    assert forall x :: x in fieldsToUpdate + [rest[0]] ==> x in fieldsToUpdate || x == rest[0];
    ValuesForSnoc(data, fieldsToUpdate, rest[0]);
  }

  /** Examining the first column of `rest` when `data` leaves it `undefined`. */
  lemma AdvanceSkip(data: UserData, fieldsToUpdate: seq<Column>, values: seq<SqlValue>,
                     rest: seq<Column>, all: seq<Column>)
    requires Collected(data, fieldsToUpdate, values, rest, all)
    requires rest != [] && !Supplied(data, rest[0])
    ensures Collected(data, fieldsToUpdate, values, rest[1..], all)
  {
    assert SuppliedIn(rest, data) == [] + SuppliedIn(rest[1..], data);
  }

  /** The steps of `update` that collect the SET clause: for each writable
      attribute in turn, when it is not `undefined`, push `column = ?` and
      push the value. */
  method CollectFields(data: UserData) returns (fieldsToUpdate: seq<Column>, values: seq<SqlValue>)
    ensures fieldsToUpdate == PresentColumns(data)
    ensures values == PresentValues(data)
  {
    fieldsToUpdate, values := [], [];
    // the columns still to examine
    ghost var rest, all := StatementOrder, SuppliedIn(StatementOrder, data);
    assert [] + SuppliedIn(rest, data) == all;
    if data.username.Defined? {
      AdvancePush(data, fieldsToUpdate, values, rest, all);
      fieldsToUpdate := fieldsToUpdate + [Username];
      values := values + [Text(data.username.value)];
    } else {
      AdvanceSkip(data, fieldsToUpdate, values, rest, all);
    }
    rest := rest[1..];
    if data.email.Defined? {
      AdvancePush(data, fieldsToUpdate, values, rest, all);
      fieldsToUpdate := fieldsToUpdate + [Email];
      values := values + [Text(data.email.value)];
    } else {
      AdvanceSkip(data, fieldsToUpdate, values, rest, all);
    }
    rest := rest[1..];
    if data.firstName.Defined? {
      AdvancePush(data, fieldsToUpdate, values, rest, all);
      fieldsToUpdate := fieldsToUpdate + [FirstName];
      values := values + [Text(data.firstName.value)];
    } else {
      AdvanceSkip(data, fieldsToUpdate, values, rest, all);
    }
    rest := rest[1..];
    if data.lastName.Defined? {
      AdvancePush(data, fieldsToUpdate, values, rest, all);
      fieldsToUpdate := fieldsToUpdate + [LastName];
      values := values + [Text(data.lastName.value)];
    } else {
      AdvanceSkip(data, fieldsToUpdate, values, rest, all);
    }
    rest := rest[1..];
    if data.role.Defined? {
      AdvancePush(data, fieldsToUpdate, values, rest, all);
      fieldsToUpdate := fieldsToUpdate + [Role];
      values := values + [Text(data.role.value)];
    } else {
      AdvanceSkip(data, fieldsToUpdate, values, rest, all);
    }
    rest := rest[1..];
    if data.isActive.Defined? {
      AdvancePush(data, fieldsToUpdate, values, rest, all);
      fieldsToUpdate := fieldsToUpdate + [IsActive];
      values := values + [Flag(data.isActive.value)];
    } else {
      AdvanceSkip(data, fieldsToUpdate, values, rest, all);
    }
    rest := rest[1..];
    assert fieldsToUpdate + [] == fieldsToUpdate;
  }

  /** The number of `?` placeholders in a SET clause: every assignment
      except `updatedAt = CURRENT_TIMESTAMP` has one. */
  function Placeholders(fields: seq<Column>): nat
  {
    if fields == [] then 0
    else (if fields[0] == UpdatedAt then 0 else 1) + Placeholders(fields[1..])
  }

  function TextOr(v: SqlValue, current: string): string
  {
    if v.Text? then v.text else current
  }

  /** `c = ?` with `v` bound to the placeholder. A value of the wrong kind
      (which `CollectFields` never binds) leaves the column as it was. */
  function Assign(row: Row, c: Column, v: SqlValue): Row
    requires c != UpdatedAt
  {
    match c
    case Username => row.(username := TextOr(v, row.username))
    case Email => row.(email := TextOr(v, row.email))
    case Password => row.(password := TextOr(v, row.password))
    case FirstName => row.(firstName := TextOr(v, row.firstName))
    case LastName => row.(lastName := TextOr(v, row.lastName))
    case Role => row.(role := TextOr(v, row.role))
    case IsActive => row.(isActive := if v.Flag? then TinyInt(v.flag) else row.isActive)
  }

  /** What `SET <fields>` does to the row the WHERE clause selects, with
      `values` bound to the placeholders in order. */
  function ApplySet(row: Row, fields: seq<Column>, values: seq<SqlValue>, now: Timestamp): (r: Row)
    requires Placeholders(fields) == |values|
    ensures r.id == row.id && r.createdAt == row.createdAt
    ensures Password !in fields ==> r.password == row.password
    ensures UpdatedAt in fields ==> r.updatedAt == now
    ensures UpdatedAt !in fields ==> r.updatedAt == row.updatedAt
    decreases |fields|
  {
    if fields == [] then row
    else if fields[0] == UpdatedAt then ApplySet(row.(updatedAt := now), fields[1..], values, now)
    else ApplySet(Assign(row, fields[0], values[0]), fields[1..], values[1..], now)
  }

  /** The partial update `update` stands for: every supplied writable
      attribute replaces the stored one, every other column keeps its value,
      and `updatedAt` becomes the current time. */
  function Patched(row: Row, data: UserData, now: Timestamp): (r: Row)
    ensures r.id == row.id && r.password == row.password && r.createdAt == row.createdAt
    ensures r.updatedAt == now
    ensures (data.username.Defined? ==> r.username == data.username.value) && (data.username.Undefined? ==> r.username == row.username)
    ensures (data.email.Defined? ==> r.email == data.email.value) && (data.email.Undefined? ==> r.email == row.email)
    ensures (data.firstName.Defined? ==> r.firstName == data.firstName.value) && (data.firstName.Undefined? ==> r.firstName == row.firstName)
    ensures (data.lastName.Defined? ==> r.lastName == data.lastName.value) && (data.lastName.Undefined? ==> r.lastName == row.lastName)
    ensures (data.role.Defined? ==> r.role == data.role.value) && (data.role.Undefined? ==> r.role == row.role)
    ensures (data.isActive.Defined? ==> (r.isActive != 0) == data.isActive.value) && (data.isActive.Undefined? ==> r.isActive == row.isActive)
  {
    row.(username := data.username.GetOr(row.username),
         email := data.email.GetOr(row.email),
         firstName := data.firstName.GetOr(row.firstName),
         lastName := data.lastName.GetOr(row.lastName),
         role := data.role.GetOr(row.role),
         isActive := if data.isActive.Defined? then TinyInt(data.isActive.value) else row.isActive,
         updatedAt := now)
  }


  lemma {:induction false} PlaceholdersOfWritable(cs: seq<Column>)
    requires forall c :: c in cs ==> Writable(c)
    ensures Placeholders(cs) == |cs|
    ensures Placeholders(cs + [UpdatedAt]) == |cs|
    decreases |cs|
  {
    if cs == [] {
      assert [] + [UpdatedAt] == [UpdatedAt];
    } else {
      assert cs[0] in cs;
      PlaceholdersOfWritable(cs[1..]);
      assert (cs + [UpdatedAt])[1..] == cs[1..] + [UpdatedAt];
    }
  }

  /** The SET clause built from the columns `cs` has as many placeholders
      as values. */
  lemma WellBound(cs: seq<Column>, data: UserData)
    requires forall c :: c in cs ==> Writable(c)
    ensures && (forall c :: c in SuppliedIn(cs, data) ==> Writable(c))
            && Placeholders(SuppliedIn(cs, data) + [UpdatedAt]) == |ValuesFor(data, SuppliedIn(cs, data))|
  {
    SuppliedInMembers(cs, data);
    PlaceholdersOfWritable(SuppliedIn(cs, data));
    ValuesForAt(data, SuppliedIn(cs, data));
  }

  function AssignIfSupplied(row: Row, data: UserData, c: Column): Row
    requires Writable(c)
  {
    if Supplied(data, c) then Assign(row, c, BoundValue(data, c)) else row
  }

  /** Executing the first assignment of the clause built from `cs`. */
  lemma PeelOne(row: Row, cs: seq<Column>, data: UserData, now: Timestamp)
    requires cs != [] && forall c :: c in cs ==> Writable(c)
    ensures && (forall c :: c in SuppliedIn(cs, data) ==> Writable(c))
            && (forall c :: c in SuppliedIn(cs[1..], data) ==> Writable(c))
            && Placeholders(SuppliedIn(cs, data) + [UpdatedAt]) == |ValuesFor(data, SuppliedIn(cs, data))|
            && Placeholders(SuppliedIn(cs[1..], data) + [UpdatedAt]) == |ValuesFor(data, SuppliedIn(cs[1..], data))|
            && ApplySet(row, SuppliedIn(cs, data) + [UpdatedAt], ValuesFor(data, SuppliedIn(cs, data)), now)
         == ApplySet(AssignIfSupplied(row, data, cs[0]), SuppliedIn(cs[1..], data) + [UpdatedAt],
                     ValuesFor(data, SuppliedIn(cs[1..], data)), now)
  {
    WellBound(cs, data);
    WellBound(cs[1..], data);
    var t := SuppliedIn(cs[1..], data);
    if Supplied(data, cs[0]) {
      assert SuppliedIn(cs, data) == [cs[0]] + t;
      assert ([cs[0]] + t)[1..] == t;
      assert ValuesFor(data, [cs[0]] + t) == [BoundValue(data, cs[0])] + ValuesFor(data, t);
      assert ([cs[0]] + t + [UpdatedAt])[1..] == t + [UpdatedAt];
    } else {
      assert SuppliedIn(cs, data) == [] + t == t;
    }
  }

  /** Assigning the supplied columns one after the other, in statement
      order, is the field-wise partial update. */
  lemma AssignmentsArePatch(row: Row, data: UserData, now: Timestamp)
    ensures AssignIfSupplied(AssignIfSupplied(AssignIfSupplied(AssignIfSupplied(AssignIfSupplied(
              AssignIfSupplied(row, data, Username), data, Email), data, FirstName), data, LastName),
              data, Role), data, IsActive).(updatedAt := now)
         == Patched(row, data, now)
  {
    var r1 := AssignIfSupplied(row, data, Username);
    assert r1 == row.(username := data.username.GetOr(row.username));
    var r2 := AssignIfSupplied(r1, data, Email);
    assert r2 == r1.(email := data.email.GetOr(row.email));
    var r3 := AssignIfSupplied(r2, data, FirstName);
    assert r3 == r2.(firstName := data.firstName.GetOr(row.firstName));
    var r4 := AssignIfSupplied(r3, data, LastName);
    assert r4 == r3.(lastName := data.lastName.GetOr(row.lastName));
    var r5 := AssignIfSupplied(r4, data, Role);
    assert r5 == r4.(role := data.role.GetOr(row.role));
    var r6 := AssignIfSupplied(r5, data, IsActive);
    assert r6 == r5.(isActive := if data.isActive.Defined? then TinyInt(data.isActive.value) else row.isActive);
  }

  /** The statement `update` executes is the partial update it promises:
      `SET <PresentColumns(data)>, updatedAt = CURRENT_TIMESTAMP` with
      `PresentValues(data)` bound turns a row into `Patched(row, data, now)`. */
  lemma SetClauseIsPatch(row: Row, data: UserData, now: Timestamp)
    ensures Placeholders(PresentColumns(data) + [UpdatedAt]) == |PresentValues(data)|
    ensures ApplySet(row, PresentColumns(data) + [UpdatedAt], PresentValues(data), now) == Patched(row, data, now)
  {
    var s0 := StatementOrder;
    assert forall c :: c in s0 ==> Writable(c);
    PeelOne(row, s0, data, now);
    var r1 := AssignIfSupplied(row, data, Username);
    var s1 := s0[1..];
    PeelOne(r1, s1, data, now);
    var r2 := AssignIfSupplied(r1, data, Email);
    var s2 := s1[1..];
    PeelOne(r2, s2, data, now);
    var r3 := AssignIfSupplied(r2, data, FirstName);
    var s3 := s2[1..];
    PeelOne(r3, s3, data, now);
    var r4 := AssignIfSupplied(r3, data, LastName);
    var s4 := s3[1..];
    PeelOne(r4, s4, data, now);
    var r5 := AssignIfSupplied(r4, data, Role);
    var s5 := s4[1..];
    PeelOne(r5, s5, data, now);
    var r6 := AssignIfSupplied(r5, data, IsActive);
    assert s5[1..] == [];
    assert SuppliedIn([], data) + [UpdatedAt] == [UpdatedAt];
    assert ApplySet(r6, [UpdatedAt], [], now) == r6.(updatedAt := now);
    var clause := SuppliedIn(s0, data) + [UpdatedAt];
    assert ApplySet(row, clause, ValuesFor(data, SuppliedIn(s0, data)), now) == r6.(updatedAt := now);
    AssignmentsArePatch(row, data, now);
  }

  /** The values `update` binds, in order: one for each `?` of the SET
      clause, and after them the id, for `WHERE id = ?`. */
  lemma WhereBindsIdLast(data: UserData, id: Id)
    ensures var fields := PresentColumns(data) + [UpdatedAt];
      var values := PresentValues(data) + [Key(id)];
      && Placeholders(fields) == |values| - 1
      && values[..|values| - 1] == PresentValues(data)
      && values[|values| - 1] == Key(id)
      && fields[|fields| - 1] == UpdatedAt
  {
    PlaceholdersOfWritable(PresentColumns(data));
    var values := PresentValues(data) + [Key(id)];
    assert values[..|values| - 1] == PresentValues(data);
  }
}
