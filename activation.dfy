/** The guarded flow shared by `ActivateUserUseCase` and
    `DeactivateUserUseCase`: check the requester, check its permission,
    load the target, set its flag, write it once. */
module Activation {
  import opened Results
  import opened UserEntity
  import opened UserRow
  import opened UpdateStatement
  import opened UserTable

  /** The error for a requester without `manage_users`. */
  function PermissionError(active: bool): Error
  {
    if active then InsufficientPermissionsToActivate else InsufficientPermissionsToDeactivate
  }

  /** `active` picks `activate()` or `deactivate()`. */
  function Flagged(u: User, active: bool): (v: User)
    ensures v == u.(isActive := active)
  {
    if active then u.Activate() else u.Deactivate()
  }

  /** What `execute(userId, requestingUserId)` does, with `hasPermission`
      standing for the entity's permission check. */
  function SetActiveRun(s: Store, userId: Id, requestingUserId: Id, active: bool,
                        hasPermission: (User, string) -> bool, now: Timestamp): (run: Run)
    ensures requestingUserId !in s.rows ==>
      run == Run(Err(RequestingUserNotFound), s, [FindByIdCall(requestingUserId)])
    ensures requestingUserId in s.rows && !hasPermission(MapRowToUser(s.rows[requestingUserId]), ManageUsers) ==>
      run == Run(Err(PermissionError(active)), s, [FindByIdCall(requestingUserId)])
    ensures requestingUserId in s.rows && hasPermission(MapRowToUser(s.rows[requestingUserId]), ManageUsers) &&
            userId !in s.rows ==>
      run == Run(Err(TargetUserNotFound), s, [FindByIdCall(requestingUserId), FindByIdCall(userId)])
    ensures run.result.Err? ==> run.after == s
    ensures forall i :: 0 <= i < |run.calls| && run.calls[i].IsWrite() ==>
      i == |run.calls| - 1 && run.calls[i].UpdateCall? && run.calls[i].id == userId
    ensures run.after.rows.Keys == s.rows.Keys && run.after.nextId == s.nextId
    ensures forall k :: k in s.rows && k != userId ==> run.after.rows[k] == s.rows[k]
    ensures Consistent(s) ==> Consistent(run.after)
    ensures Consistent(s) ==>
      (run.result.Ok? <==>
        requestingUserId in s.rows && hasPermission(MapRowToUser(s.rows[requestingUserId]), ManageUsers) &&
        userId in s.rows)
    ensures run.result.Ok? ==>
      && userId in s.rows
      && run.calls == [FindByIdCall(requestingUserId), FindByIdCall(userId),
                       UpdateCall(userId, Flagged(MapRowToUser(s.rows[userId]), active).AsUserData())]
      && run.after.rows[userId] == s.rows[userId].(isActive := TinyInt(active), updatedAt := now)
      && run.result.value.isActive == active
      && run.result.value == MapRowToUser(run.after.rows[userId])
  {
    match FindUser(s.rows, requestingUserId)
    case None => Run(Err(RequestingUserNotFound), s, [FindByIdCall(requestingUserId)])
    case Some(requestingUser) =>
      if !hasPermission(requestingUser, ManageUsers) then
        Run(Err(PermissionError(active)), s, [FindByIdCall(requestingUserId)])
      else
        match FindUser(s.rows, userId)
        case None => Run(Err(TargetUserNotFound), s, [FindByIdCall(requestingUserId), FindByIdCall(userId)])
        case Some(targetUser) =>
          var data := Flagged(targetUser, active).AsUserData();
          FlagWriteIsFlagOnly(s, userId, active, now);
          var o := UpdateStep(s, userId, data, now);
          Run(o.result, o.after, [FindByIdCall(requestingUserId), FindByIdCall(userId), UpdateCall(userId, data)])
  }

  /** Writing back the loaded entity with only its flag changed rewrites
      the flag and the timestamp and nothing else, and never clashes. */
  lemma FlagWriteIsFlagOnly(s: Store, userId: Id, active: bool, now: Timestamp)
    requires userId in s.rows
    ensures var data := Flagged(MapRowToUser(s.rows[userId]), active).AsUserData();
      && AnySupplied(data)
      && Patched(s.rows[userId], data, now) == s.rows[userId].(isActive := TinyInt(active), updatedAt := now)
      && (Consistent(s) ==> Conflict(s.rows - {userId}, Patched(s.rows[userId], data, now)).None?)
  {
    var data := Flagged(MapRowToUser(s.rows[userId]), active).AsUserData();
    if Consistent(s) {
      OwnValuesNeverClash(s, userId, Patched(s.rows[userId], data, now));
    }
  }

  /** Activating and then deactivating a user, on behalf of a different
      privileged requester, leaves the user inactive and the requester's
      row as it was. */
  lemma ActivateThenDeactivate(s: Store, userId: Id, requestingUserId: Id,
                               hasPermission: (User, string) -> bool, t1: Timestamp, t2: Timestamp)
    requires Consistent(s) && userId in s.rows && requestingUserId in s.rows && requestingUserId != userId
    requires hasPermission(MapRowToUser(s.rows[requestingUserId]), ManageUsers)
    ensures var first := SetActiveRun(s, userId, requestingUserId, true, hasPermission, t1);
      var second := SetActiveRun(first.after, userId, requestingUserId, false, hasPermission, t2);
      && first.result.Ok? && first.result.value.isActive
      && second.result.Ok? && !second.result.value.isActive
      && second.after.rows[requestingUserId] == s.rows[requestingUserId]
      && second.after.rows[userId] == s.rows[userId].(isActive := 0, updatedAt := t2)
  {
    var first := SetActiveRun(s, userId, requestingUserId, true, hasPermission, t1);
    assert first.after.rows[requestingUserId] == s.rows[requestingUserId];
  }

  /** `u` and `v` differ at most in the flag and the timestamp. */
  predicate SameButFlag(u: User, v: User)
  {
    u.(isActive := v.isActive, updatedAt := v.updatedAt) == v
  }

  /** The permission check looks at neither the flag nor the timestamp. */
  ghost predicate IgnoresFlag(hasPermission: (User, string) -> bool)
  {
    forall u, v :: SameButFlag(u, v) ==> hasPermission(u, ManageUsers) == hasPermission(v, ManageUsers)
  }

  /** A user who may manage users activates and then deactivates
      themselves: provided the permission check ignores the flag, both runs
      succeed and only the flag and the timestamp of their row change. */
  lemma ActivateThenDeactivateSelf(s: Store, userId: Id, hasPermission: (User, string) -> bool,
                                   t1: Timestamp, t2: Timestamp)
    requires Consistent(s) && userId in s.rows
    requires hasPermission(MapRowToUser(s.rows[userId]), ManageUsers)
    requires IgnoresFlag(hasPermission)
    ensures var first := SetActiveRun(s, userId, userId, true, hasPermission, t1);
      var second := SetActiveRun(first.after, userId, userId, false, hasPermission, t2);
      && first.result.Ok? && first.result.value.isActive
      && second.result.Ok? && !second.result.value.isActive
      && second.after.rows == s.rows[userId := s.rows[userId].(isActive := 0, updatedAt := t2)]
  {
    var first := SetActiveRun(s, userId, userId, true, hasPermission, t1);
    assert SameButFlag(MapRowToUser(s.rows[userId]), MapRowToUser(first.after.rows[userId]));
  }

  /** Activating twice is activating once, apart from the timestamp. */
  lemma ActivateIdempotent(s: Store, userId: Id, requestingUserId: Id,
                           hasPermission: (User, string) -> bool, t1: Timestamp, t2: Timestamp)
    requires Consistent(s) && requestingUserId != userId
    ensures var first := SetActiveRun(s, userId, requestingUserId, true, hasPermission, t1);
      var second := SetActiveRun(first.after, userId, requestingUserId, true, hasPermission, t2);
      second.result.Ok? <==> first.result.Ok?
    ensures var first := SetActiveRun(s, userId, requestingUserId, true, hasPermission, t1);
      var second := SetActiveRun(first.after, userId, requestingUserId, true, hasPermission, t2);
      first.result.Ok? ==> second.after.rows == first.after.rows[userId := first.after.rows[userId].(updatedAt := t2)]
  {
    var first := SetActiveRun(s, userId, requestingUserId, true, hasPermission, t1);
    if requestingUserId in s.rows {
      assert first.after.rows[requestingUserId] == s.rows[requestingUserId];
    }
  }
}
