/** `CreateUserUseCase`: validate the registration data, refuse a taken
    email or username, hash the password and create the user. */
module CreateUser {
  import opened Results
  import opened UserEntity
  import opened UserRow
  import opened UserTable
  import opened EmailFormat
  import opened Repositories

  /** Username, email, password, first name and last name are all truthy. */
  predicate RequiredPresent(d: UserData): (b: bool)
    ensures b ==> BindsAll(d)
    ensures b ==> d.username.value != "" && d.email.value != "" && d.password.value != "" &&
                  d.firstName.value != "" && d.lastName.value != ""
    ensures (|| d.username in {Undefined, Defined("")}
             || d.email in {Undefined, Defined("")}
             || d.password in {Undefined, Defined("")}
             || d.firstName in {Undefined, Defined("")}
             || d.lastName in {Undefined, Defined("")}) ==> !b
  {
    Truthy(d.username) && Truthy(d.email) && Truthy(d.password) &&
    Truthy(d.firstName) && Truthy(d.lastName)
  }

  /** The record handed to `create`: the input with only its password
      replaced by the hash. */
  function WithHashedPassword(d: UserData, hash: string -> string): (r: UserData)
    requires d.password.Defined?
    ensures r.password == Defined(hash(d.password.value))
    ensures r.(password := d.password) == d
  {
    d.(password := Defined(hash(d.password.value)))
  }

  /** What `execute(userData)` does to the table, with `hash` standing for
      `bcrypt.hash(_, 12)` and `now` for the store's clock. */
  function CreateUserRun(s: Store, userData: UserData, hash: string -> string, now: Timestamp): (run: Run)
    ensures !RequiredPresent(userData) ==> run == Run(Err(RequiredFieldsMissing), s, [])
    ensures RequiredPresent(userData) && !IsValidEmail(userData.email.value) ==>
      run == Run(Err(InvalidEmailFormat), s, [])
    ensures RequiredPresent(userData) && IsValidEmail(userData.email.value) &&
            ExistsIn(s.rows, userData.email.value, userData.username.value) ==>
      run == Run(Err(UserAlreadyExists), s, [ExistsCall(userData.email.value, userData.username.value)])
    ensures run.result.Err? ==> run.after == s
    ensures forall i :: 0 <= i < |run.calls| && run.calls[i].IsWrite() ==>
      i == |run.calls| - 1 && run.calls[i] == CreateCall(WithHashedPassword(userData, hash))
    ensures Consistent(s) ==> Consistent(run.after)
    ensures Consistent(s) ==>
      (run.result.Ok? <==>
        RequiredPresent(userData) && IsValidEmail(userData.email.value) &&
        !ExistsIn(s.rows, userData.email.value, userData.username.value))
    ensures RequiredPresent(userData) && IsValidEmail(userData.email.value) &&
            !ExistsIn(s.rows, userData.email.value, userData.username.value) ==>
      var o := CreateStep(s, WithHashedPassword(userData, hash), now);
      run.result == o.result && run.after == o.after
    ensures run.result.Ok? ==>
      && run.calls == [ExistsCall(userData.email.value, userData.username.value),
                       CreateCall(WithHashedPassword(userData, hash))]
      && run.after.rows.Keys == s.rows.Keys + {run.result.value.id}
      && run.after.rows[run.result.value.id].password == hash(userData.password.value)
      && run.result.value.id == s.nextId
      && run.after.rows.Keys == s.rows.Keys + {s.nextId}
      && (forall id :: id in s.rows ==> run.after.rows[id] == s.rows[id])
      && run.result.value == MapRowToUser(run.after.rows[s.nextId])
      && run.result.value.email == userData.email.value
      && run.result.value.username == userData.username.value
      && run.result.value.firstName == userData.firstName.value
      && run.result.value.lastName == userData.lastName.value
      && (Truthy(userData.role) ==> run.result.value.role == userData.role.value)
      && (!Truthy(userData.role) ==> run.result.value.role == "author")
      && (run.result.value.isActive <==> userData.isActive != Defined(false))
  {
    if !RequiredPresent(userData) then Run(Err(RequiredFieldsMissing), s, [])
    else if !IsValidEmail(userData.email.value) then Run(Err(InvalidEmailFormat), s, [])
    else
      var probe := ExistsCall(userData.email.value, userData.username.value);
      if ExistsIn(s.rows, userData.email.value, userData.username.value) then
        Run(Err(UserAlreadyExists), s, [probe])
      else
        var user := WithHashedPassword(userData, hash);
        var o := CreateStep(s, user, now);
        Run(o.result, o.after, [probe, CreateCall(user)])
  }

  /** Registering `bob` on a table where neither `bob` nor `bob@x.com` is
      taken yields an active author whose stored password is not the one
      given: a bcrypt hash is 60 characters long, `secret` is not. */
  lemma RegisterBob(s: Store, hash: string -> string, now: Timestamp)
    requires Consistent(s)
    requires !ExistsIn(s.rows, "bob@x.com", "bob")
    requires forall p :: |hash(p)| == 60
    ensures var bob := UserData(Defined("bob"), Defined("bob@x.com"), Defined("secret"),
                                Defined("Bob"), Defined("Lee"), Undefined, Undefined);
      var run := CreateUserRun(s, bob, hash, now);
      && run.result.Ok?
      && run.result.value.role == "author"
      && run.result.value.isActive
      && run.result.value.id == s.nextId
      && run.after.rows[run.result.value.id].password != "secret"
  {
    var email := "bob@x.com";
    ShapeHasMatch(email, 3, 5);
  }

  class CreateUserUseCase {
    const userRepository: UserRepository

    constructor (userRepository: UserRepository)
      ensures this.userRepository == userRepository
    {
      this.userRepository := userRepository;
    }

    /** `execute(userData)`. */
    method Execute(userData: UserData, hash: string -> string, now: Timestamp) returns (r: Result<User>)
      requires userRepository.Valid()
      modifies userRepository
      ensures var run := CreateUserRun(old(userRepository.Snapshot()), userData, hash, now);
        && r == run.result
        && userRepository.Snapshot() == run.after
        && userRepository.calls == old(userRepository.calls) + run.calls
      ensures userRepository.Valid()
    {
      if !Truthy(userData.username) || !Truthy(userData.email) || !Truthy(userData.password) ||
         !Truthy(userData.firstName) || !Truthy(userData.lastName) {
        return Err(RequiredFieldsMissing);
      }
      var email, username := userData.email.value, userData.username.value;
      if !IsValidEmail(email) {
        return Err(InvalidEmailFormat);
      }
      var existingUser := userRepository.Exists(email, username);
      if existingUser {
        return Err(UserAlreadyExists);
      }
      var hashedPassword := hash(userData.password.value);
      var user := userData.(password := Defined(hashedPassword));
      r := userRepository.Create(user, now);
    }
  }
}
