/** Values shared by every service of the system: the exceptions the Python
    code raises, the result wrappers that carry them, and the status
    enumerations of main_service/src/models.py. */
module Types {

  /** The exception classes raised by the modelled code. */
  datatype Exception =
    | MicroserviceException  // microservices.MicroserviceException
    | DBException            // database.DBException
    | KeyError               // a missing dictionary key
    | ValueError             // a malformed value handed to dict() or int()
    | IndexError             // fetchall()[0] on an empty result
    | UnboundLocalError      // a name read in an except clause before it was bound

  /** A value, or the exception that was raised instead of returning it. */
  datatype Result<+T> = Success(value: T) | Failure(exc: Exception)

  /** A call that returns nothing, or the exception it raised. */
  datatype Outcome = Pass | Fail(exc: Exception)

  datatype Option<+T> = None | Some(value: T)

  /** Operation status codes (the `status` field of every response). */
  datatype Code =
    | OK                 // 0
    | TokenError         // 1
    | InternalError      // 2
    | NotReady           // 3
    | MicroserviceError  // 4
    | DbError            // 5

  /** Group status codes: 0 ready, 1 not ready, 2 not in the database. */
  const READY: int := 0
  const NOT_READY: int := 1
  const NOT_IN_DATABASE: int := 2

  /** One (group_id, group_status) pair as the services return it. */
  datatype GroupAndStatus = GroupAndStatus(groupId: int, groupStatus: int)
}
