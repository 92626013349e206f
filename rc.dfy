/** Return codes of the validator.

    An `rc_t` is a packed 32-bit code built by `RC(module, target, context,
    object, state)`; zero means success. The validator only ever inspects the
    object and the state of a code (`GetRCObject`, `GetRCState`), so a failure
    is modelled by exactly those two parts. */
module RcCodes {

  /** The object part of a return code. */
  datatype RcObject =
    | RcRow
    | RcData
    | RcDatabase
    | RcTable
    | RcType
    | RcChecksum
    | RcParam
    | RcOtherObject(code: nat)

  /** The state part of a return code. */
  datatype RcState =
    | RcNotFound
    | RcUnexpected
    | RcInconsistent
    | RcTooBig
    | RcIncomplete
    | RcOtherState(code: nat)

  /** A non-zero return code. */
  datatype Error = Error(obj: RcObject, state: RcState)

  /** A return code: zero (`Ok`) or a failure. */
  datatype Rc = Ok | Fail(err: Error)

  /** An optional value, such as a C pointer that may be NULL. */
  datatype Option<T> = None | Some(value: T)

  /** A value produced by a collaborator that may fail instead. */
  datatype Result<T> = Success(value: T) | Failure(err: Error)

  /** `GetRCObject(rc) == rcRow && GetRCState(rc) == rcNotFound`: a sparse row,
      which the cursor reports as a failure and the checks treat as absence. */
  predicate RowNotFound(e: Error) {
    e.obj == RcRow && e.state == RcNotFound
  }

  /** The referential-integrity verdicts, all with object rcData. */
  const Unexpected := Error(RcData, RcUnexpected)
  const Inconsistent := Error(RcData, RcInconsistent)
  const TooBig := Error(RcData, RcTooBig)

  /** The structural verdict for a database that lacks required tables. */
  const Incomplete := Error(RcDatabase, RcIncomplete)

  /** The code a report handler returns for an event it does not expect. */
  const BadEvent := Error(RcParam, RcUnexpected)

  /** The code for a table or database missing its required md5 files. */
  const MissingMd5 := Error(RcChecksum, RcNotFound)
}
