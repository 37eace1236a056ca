/** `DeactivateUserUseCase`. */
module DeactivateUser {
  import opened Results
  import opened UserEntity
  import opened UserTable
  import opened Activation
  import opened Repositories

  class DeactivateUserUseCase {
    const userRepository: UserRepository

    constructor (userRepository: UserRepository)
      ensures this.userRepository == userRepository
    {
      this.userRepository := userRepository;
    }

    /** `execute(userId, requestingUserId)`, with `hasPermission` standing
        for the entity's permission check and `now` for the store's clock. */
    method Execute(userId: Id, requestingUserId: Id, hasPermission: (User, string) -> bool, now: Timestamp)
      returns (r: Result<User>)
      requires userRepository.Valid()
      modifies userRepository
      ensures var run := SetActiveRun(old(userRepository.Snapshot()), userId, requestingUserId, false, hasPermission, now);
        && r == run.result
        && userRepository.Snapshot() == run.after
        && userRepository.calls == old(userRepository.calls) + run.calls
      ensures userRepository.Valid()
    {
      var requestingUserData := userRepository.FindById(requestingUserId);
      if requestingUserData.None? {
        return Err(RequestingUserNotFound);
      }
      var requestingUser := requestingUserData.value;
      if !hasPermission(requestingUser, ManageUsers) {
        return Err(InsufficientPermissionsToDeactivate);
      }
      var targetUserData := userRepository.FindById(userId);
      if targetUserData.None? {
        return Err(TargetUserNotFound);
      }
      var targetUser := targetUserData.value;
      targetUser := targetUser.Deactivate();
      r := userRepository.Update(userId, targetUser.AsUserData(), now);
    }
  }
}
