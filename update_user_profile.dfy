/** `UpdateUserProfileUseCase`. */
module UpdateUserProfile {
  import opened Results
  import opened UserEntity
  import opened UserTable
  import opened ProfileUpdate
  import opened Repositories

  class UpdateUserProfileUseCase {
    const userRepository: UserRepository

    constructor (userRepository: UserRepository)
      ensures this.userRepository == userRepository
    {
      this.userRepository := userRepository;
    }

    /** `execute(userId, profileData)`, with `updateProfile` standing for the
        entity's method and `now` for the store's clock. */
    method Execute<P>(userId: Id, profileData: P, updateProfile: (User, P) -> User, now: Timestamp)
      returns (r: Result<User>)
      requires userRepository.Valid()
      modifies userRepository
      ensures var run := ProfileUpdateRun(old(userRepository.Snapshot()), userId, profileData, updateProfile, now);
        && r == run.result
        && userRepository.Snapshot() == run.after
        && userRepository.calls == old(userRepository.calls) + run.calls
      ensures userRepository.Valid()
    {
      var existing := userRepository.FindById(userId);
      if existing.None? {
        return Err(UserNotFound);
      }
      var user := existing.value;
      user := updateProfile(user, profileData);
      r := userRepository.Update(userId, user.AsUserData(), now);
    }
  }
}
