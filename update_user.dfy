/** `UpdateUserUseCase`. */
module UpdateUser {
  import opened Results
  import opened UserEntity
  import opened UserTable
  import opened ProfileUpdate
  import opened Repositories

  class UpdateUserUseCase {
    const userRepository: UserRepository

    constructor (userRepository: UserRepository)
      ensures this.userRepository == userRepository
    {
      this.userRepository := userRepository;
    }

    /** `execute(userId, updateData)`, with `updateProfile` standing for the
        entity's method and `now` for the store's clock. */
    method Execute<P>(userId: Id, updateData: P, updateProfile: (User, P) -> User, now: Timestamp)
      returns (r: Result<User>)
      requires userRepository.Valid()
      modifies userRepository
      ensures var run := ProfileUpdateRun(old(userRepository.Snapshot()), userId, updateData, updateProfile, now);
        && r == run.result
        && userRepository.Snapshot() == run.after
        && userRepository.calls == old(userRepository.calls) + run.calls
      ensures userRepository.Valid()
    {
      var existing := userRepository.FindById(userId);
      if existing.None? {
        return Err(UserNotFound);
      }
      var user := existing.value;
      user := updateProfile(user, updateData);
      r := userRepository.Update(userId, user.AsUserData(), now);
    }
  }
}
