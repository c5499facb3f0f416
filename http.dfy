/** Outcomes shared by every handler: an optional value, and a handler
    result that is either the value it returns or the reason for the
    HTTP error it raises. */
module Http {

  datatype Option<+T> = None | Some(value: T)

  /** Why a request was refused.  Each reason corresponds to one
      `HTTPException` raised by the backend (or, for `Integrity`, to a
      unique constraint of the database rejecting a commit). */
  datatype Reason =
    // authorization gate
    | InvalidToken | MalformedClaims | UnknownUser | InactiveUser
    | SuperadminOnly | AdminRequired | TeacherRequired | RoleRequired(level: string)
    // accounts
    | UsernameTaken | EmailTaken | PasswordTooShort | BadCredentials
    | UserNotFound | SuperadminGrantRestricted
    | BadProvider | OAuthVerificationFailed | Integrity
    // teachers and subjects
    | TeacherNotFound | TeacherProfileExists | EditForbidden
    | SubjectNotFound | AlreadyAssigned | AssignmentNotFound | SubjectNameTaken
    // tests
    | TestNotFound | AnswerCountMismatch

  datatype Result<+T> = Ok(value: T) | Err(reason: Reason)

  /** The HTTP status code sent for each reason. */
  function Status(r: Reason): (code: nat)
    ensures code in {400, 401, 403, 404, 500}
    ensures code == 401 <==> r in {InvalidToken, MalformedClaims, UnknownUser, BadCredentials, OAuthVerificationFailed}
  {
    match r
    case InvalidToken => 401
    case MalformedClaims => 401
    case UnknownUser => 401
    case InactiveUser => 403
    case SuperadminOnly => 403
    case AdminRequired => 403
    case TeacherRequired => 403
    case RoleRequired(_) => 403
    case UsernameTaken => 400
    case EmailTaken => 400
    case PasswordTooShort => 400
    case BadCredentials => 401
    case UserNotFound => 404
    case SuperadminGrantRestricted => 403
    case BadProvider => 400
    case OAuthVerificationFailed => 401
    case Integrity => 500
    case TeacherNotFound => 404
    case TeacherProfileExists => 400
    case EditForbidden => 403
    case SubjectNotFound => 404
    case AlreadyAssigned => 400
    case AssignmentNotFound => 404
    case SubjectNameTaken => 400
    case TestNotFound => 404
    case AnswerCountMismatch => 400
  }
}
