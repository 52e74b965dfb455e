/** Outcomes of the services: a value, or the exception the service would throw. */
module Results {

  /** A value that may be absent: a nullable column or an empty Optional. */
  datatype Option<+T> = None | Some(value: T)

  /** The exceptions the services raise, one constructor per distinct reason. */
  datatype Error =
    | AssignmentNotFound
    | StudentNotFound
    | TeacherNotFound
    | UserNotFound
    | SubmissionNotFound
    | SubjectNotFound
    | WrongGroup
    | AlreadySubmitted
    | NotAssignmentAuthor
    | ScoreAboveMaximum
    | NotATeacher
    | StudentWithoutGroup
    | InvalidFileName
    | StorageFailure
    | PasswordMismatch
    | EmailInUse
    | UsernameInUse
    | SubjectNameInUse

  /** The result of a service call: the returned value, or the exception thrown. */
  datatype Result<+T> = Ok(value: T) | Err(error: Error)
}
