/** The flow shared by `UpdateUserProfileUseCase` and `UpdateUserUseCase`:
    load the user, apply `updateProfile`, write it once. */
module ProfileUpdate {
  import opened Results
  import opened UserEntity
  import opened UserRow
  import opened UpdateStatement
  import opened UserTable

  /** What `execute(userId, profileData)` does, with `updateProfile`
      standing for the entity's method of that name. */
  function ProfileUpdateRun<P>(s: Store, userId: Id, profileData: P,
                               updateProfile: (User, P) -> User, now: Timestamp): (run: Run)
    ensures userId !in s.rows ==> run == Run(Err(UserNotFound), s, [FindByIdCall(userId)])
    ensures run.result.Err? ==> run.after == s
    ensures 1 <= |run.calls| <= 2 && run.calls[0] == FindByIdCall(userId)
    ensures |run.calls| == 2 <==> userId in s.rows
    ensures userId in s.rows ==>
      var edited := updateProfile(MapRowToUser(s.rows[userId]), profileData);
      run.calls[1] == UpdateCall(userId, edited.AsUserData())
    ensures forall i :: 0 <= i < |run.calls| && run.calls[i].IsWrite() ==>
      i == 1 && run.calls[i].UpdateCall? && run.calls[i].id == userId
    ensures run.after.rows.Keys == s.rows.Keys && run.after.nextId == s.nextId
    ensures forall k :: k in s.rows && k != userId ==> run.after.rows[k] == s.rows[k]
    ensures Consistent(s) ==> Consistent(run.after)
    ensures run.result.Ok? ==>
      var edited := updateProfile(MapRowToUser(s.rows[userId]), profileData);
      && userId in s.rows
      && run.after.rows[userId] == s.rows[userId].(
           username := edited.username, email := edited.email,
           firstName := edited.firstName, lastName := edited.lastName,
           role := edited.role, isActive := TinyInt(edited.isActive), updatedAt := now)
      && run.result.value == MapRowToUser(run.after.rows[userId])
    ensures run.result.Err? && userId in s.rows ==> run.result.error in {UpdateFailed, EmailAlreadyExists, UsernameAlreadyExists}
    ensures userId in s.rows ==>
      var edited := updateProfile(MapRowToUser(s.rows[userId]), profileData);
      var o := UpdateStep(s, userId, edited.AsUserData(), now);
      run.result == o.result && run.after == o.after
    ensures userId in s.rows ==>
      var user := MapRowToUser(s.rows[userId]);
      var edited := updateProfile(user, profileData);
      && (run.result.Ok? <==> !ExistsIn(s.rows - {userId}, edited.email, edited.username))
      && (EmailTaken(s.rows - {userId}, edited.email) ==> run.result == Err(EmailAlreadyExists))
      && (!EmailTaken(s.rows - {userId}, edited.email) && UsernameTaken(s.rows - {userId}, edited.username) ==>
            run.result == Err(UsernameAlreadyExists))
  {
    match FindUser(s.rows, userId)
    case None => Run(Err(UserNotFound), s, [FindByIdCall(userId)])
    case Some(user) =>
      var data := updateProfile(user, profileData).AsUserData();
      var o := UpdateStep(s, userId, data, now);
      Run(o.result, o.after, [FindByIdCall(userId), UpdateCall(userId, data)])
  }

  /** An edit that keeps the username and the email always succeeds on a
      consistent table. */
  lemma KeepingIdentitySucceeds<P>(s: Store, userId: Id, profileData: P,
                                   updateProfile: (User, P) -> User, now: Timestamp)
    requires Consistent(s) && userId in s.rows
    requires var user := MapRowToUser(s.rows[userId]);
      updateProfile(user, profileData).username == user.username &&
      updateProfile(user, profileData).email == user.email
    ensures ProfileUpdateRun(s, userId, profileData, updateProfile, now).result.Ok?
  {
    var user := MapRowToUser(s.rows[userId]);
    var data := updateProfile(user, profileData).AsUserData();
    OwnValuesNeverClash(s, userId, Patched(s.rows[userId], data, now));
  }

  /** An edit that changes nothing still writes: the whole entity goes to
      `update`, so the row is rewritten and gets a new timestamp. */
  lemma UnchangedProfileStillWrites<P>(s: Store, userId: Id, profileData: P,
                                       updateProfile: (User, P) -> User, now: Timestamp)
    requires Consistent(s) && userId in s.rows
    requires var user := MapRowToUser(s.rows[userId]);
      updateProfile(user, profileData) == user
    ensures var run := ProfileUpdateRun(s, userId, profileData, updateProfile, now);
      && run.result.Ok?
      && |run.calls| == 2 && run.calls[1].UpdateCall?
      && run.after.rows == s.rows[userId := s.rows[userId].(
           isActive := TinyInt(s.rows[userId].isActive != 0), updatedAt := now)]
  {
    KeepingIdentitySucceeds(s, userId, profileData, updateProfile, now);
  }

  /** An edit that takes another user's email fails with the email error and
      changes nothing. */
  lemma TakenEmailRefused<P>(s: Store, userId: Id, other: Id, profileData: P,
                             updateProfile: (User, P) -> User, now: Timestamp)
    requires userId in s.rows && other in s.rows && other != userId
    requires updateProfile(MapRowToUser(s.rows[userId]), profileData).email == s.rows[other].email
    ensures var run := ProfileUpdateRun(s, userId, profileData, updateProfile, now);
      run.result == Err(EmailAlreadyExists) && run.after == s
  {
    var user := MapRowToUser(s.rows[userId]);
    var row := Patched(s.rows[userId], updateProfile(user, profileData).AsUserData(), now);
    assert other in s.rows - {userId};
    assert EmailTaken(s.rows - {userId}, row.email);
  }
}
