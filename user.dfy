/** The User entity as the repository and the use cases see it, and the
    plain records (`userData`) handed to the repository. */
module UserEntity {

  /** Row identifiers as the store assigns them. */
  type Id = int

  /** A reading of the store's clock (`CURRENT_TIMESTAMP`). */
  type Timestamp = nat

  /** A property of a JavaScript object: absent (`undefined`) or present. */
  datatype Field<T> = Undefined | Defined(value: T)
  {
    function GetOr(default: T): T
    {
      if Defined? then value else default
    }
  }

  /** JavaScript truthiness of a string-valued property: present and not empty. */
  predicate Truthy(f: Field<string>)
  {
    f.Defined? && f.value != ""
  }

  /** A plain record of user attributes, any of which may be absent. */
  datatype UserData = UserData(
    username: Field<string>,
    email: Field<string>,
    password: Field<string>,
    firstName: Field<string>,
    lastName: Field<string>,
    role: Field<string>,
    isActive: Field<bool>)

  /** The attributes `mapRowToUser` gives a User; there is no password. */
  datatype User = User(
    id: Id,
    username: string,
    email: string,
    firstName: string,
    lastName: string,
    role: string,
    isActive: bool,
    createdAt: Timestamp,
    updatedAt: Timestamp)
  {
    /** `activate()`: the same user, marked active. */
    function Activate(): User
    {
      this.(isActive := true)
    }

    /** `deactivate()`: the same user, marked inactive. */
    function Deactivate(): User
    {
      this.(isActive := false)
    }

    /** The entity read as the `userData` argument of `update`: every
        writable attribute is present, the password is not. */
    function AsUserData(): (d: UserData)
      ensures d.password.Undefined?
      ensures d.username == Defined(username) && d.email == Defined(email)
      ensures d.firstName == Defined(firstName) && d.lastName == Defined(lastName)
      ensures d.role == Defined(role) && d.isActive == Defined(isActive)
    {
      UserData(Defined(username), Defined(email), Undefined, Defined(firstName),
               Defined(lastName), Defined(role), Defined(isActive))
    }
  }

  /** The permission the activation use cases ask the requester for. */
  const ManageUsers: string := "manage_users"
}
