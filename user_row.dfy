/** A row of the `users` table and its mapping to a User entity. */
module UserRow {
  import opened UserEntity

  /** The columns of `users`. `isActive` is a TINYINT column. */
  datatype Row = Row(
    id: Id,
    username: string,
    email: string,
    password: string,
    firstName: string,
    lastName: string,
    role: string,
    isActive: int,
    createdAt: Timestamp,
    updatedAt: Timestamp)

  /** How a boolean is stored in a TINYINT column. */
  function TinyInt(b: bool): int
  {
    if b then 1 else 0
  }

  /** `mapRowToUser`: every column except the password, with `isActive`
      coerced to a boolean. */
  function MapRowToUser(row: Row): (u: User)
    ensures u.id == row.id && u.createdAt == row.createdAt && u.updatedAt == row.updatedAt
    ensures u.username == row.username && u.email == row.email
    ensures u.firstName == row.firstName && u.lastName == row.lastName && u.role == row.role
    ensures u.isActive <==> row.isActive != 0
  {
    User(row.id, row.username, row.email, row.firstName, row.lastName, row.role,
         row.isActive != 0, row.createdAt, row.updatedAt)
  }

  /** The password is never read back: rows that differ only in their
      password map to the same user. */
  lemma MapRowToUserIgnoresPassword(a: Row, b: Row)
    requires a.(password := b.password) == b
    ensures MapRowToUser(a) == MapRowToUser(b)
  {
  }

  /** A flag stored as a TINYINT is read back as the same boolean. */
  lemma ActiveFlagRoundTrip(row: Row, b: bool)
    ensures MapRowToUser(row.(isActive := TinyInt(b))).isActive == b
  {
  }
}
