/** The errors the user repository and the use cases signal, and the result
    types that carry them. An `Error` stands for a thrown `Error` object; its
    message is given by `Message`. */
module Results {

  datatype Error =
    | RequiredFieldsMissing
    | InvalidEmailFormat
    | UserAlreadyExists
    | EmailAlreadyExists
    | UsernameAlreadyExists
    | CreateFailed
    | UpdateFailed
    | DeleteFailed
    | UserNotFound
    | RequestingUserNotFound
    | InsufficientPermissionsToActivate
    | InsufficientPermissionsToDeactivate
    | TargetUserNotFound

  /** The message text each error is thrown with. */
  function Message(e: Error): string
  {
    match e
    case RequiredFieldsMissing => "Username, email, password, first name, and last name are required"
    case InvalidEmailFormat => "Invalid email format"
    case UserAlreadyExists => "User with this email or username already exists"
    case EmailAlreadyExists => "Email already exists"
    case UsernameAlreadyExists => "Username already exists"
    case CreateFailed => "Database error while creating user"
    case UpdateFailed => "Database error while updating user"
    case DeleteFailed => "Database error while deleting user"
    case UserNotFound => "User not found"
    case RequestingUserNotFound => "Requesting user not found"
    case InsufficientPermissionsToActivate => "Insufficient permissions to activate users"
    case InsufficientPermissionsToDeactivate => "Insufficient permissions to deactivate users"
    case TargetUserNotFound => "Target user not found"
  }

  /** A returned value, or the error that was thrown instead. */
  datatype Result<T> = Ok(value: T) | Err(error: Error)

  /** A value, or `null`. */
  datatype Option<T> = None | Some(value: T)
}
