/**
 * Errors the modelled code can return, and the failure-compatible
 * Option/Result wrappers the rest of the model is written with.
 */
module Results {

  /** The distinct error values of the task service, repository and config check. */
  datatype Error =
    | TaskTitleEmpty          // service.ErrTaskTitleEmpty
    | TaskContentEmpty        // service.ErrTaskContentEmpty
    | StatusEmpty             // errors.New("status empty")
    | PriorityEmpty           // errors.New("priority empty")
    | TagEmpty                // errors.New("tag empty")
    | RecordNotFound          // gorm.ErrRecordNotFound
    | InvalidUuidSyntax       // the database refuses an id that is not a UUID (SQLSTATE 22P02)
    | DuplicateKey            // primary-key violation on insert (SQLSTATE 23505)
    | ValueTooLong            // a value wider than its varchar column (SQLSTATE 22001)
    | NulInText               // a NUL character in a text value (SQLSTATE 22021)
    | InvalidDatabaseConfig   // fmt.Errorf("invalid database config")
    | DriverError(msg: string) // anything the database driver reports on connect

  /**
   * A short description of each error. The database's own messages carry
   * more (the column width, the offending key, the SQLSTATE); the model
   * keeps only the part that names the kind of failure.
   */
  function Message(e: Error): (r: string)
    ensures e.DriverError? ==> r == e.msg
    ensures !e.DriverError? ==> r != []
  {
    match e
    case TaskTitleEmpty => "task title is empty"
    case TaskContentEmpty => "task content is empty"
    case StatusEmpty => "status empty"
    case PriorityEmpty => "priority empty"
    case TagEmpty => "tag empty"
    case RecordNotFound => "record not found"
    case InvalidUuidSyntax => "invalid input syntax for type uuid"
    case DuplicateKey => "duplicate key value violates unique constraint"
    case ValueTooLong => "value too long for type character varying"
    case NulInText => "invalid byte sequence for encoding \"UTF8\": 0x00"
    case InvalidDatabaseConfig => "invalid database config"
    case DriverError(msg) => msg
  }

  /** Apart from the driver's own text, no two errors read alike. */
  lemma MessagesDistinct(e1: Error, e2: Error)
    requires !e1.DriverError? && !e2.DriverError? && e1 != e2
    ensures Message(e1) != Message(e2)
  {
    if e1.TaskTitleEmpty? || e1.TaskContentEmpty? || e1.StatusEmpty? || e1.PriorityEmpty? {
      ValidationMessageDistinct(e1, e2);
    } else if e1.TagEmpty? || e1.RecordNotFound? || e1.InvalidUuidSyntax? || e1.DuplicateKey? {
      LookupMessageDistinct(e1, e2);
    } else {
      StorageMessageDistinct(e1, e2);
    }
  }

  lemma ValidationMessageDistinct(e1: Error, e2: Error)
    requires e1.TaskTitleEmpty? || e1.TaskContentEmpty? || e1.StatusEmpty? || e1.PriorityEmpty?
    requires !e2.DriverError? && e1 != e2
    ensures Message(e1) != Message(e2)
  {
  }

  lemma LookupMessageDistinct(e1: Error, e2: Error)
    requires e1.TagEmpty? || e1.RecordNotFound? || e1.InvalidUuidSyntax? || e1.DuplicateKey?
    requires !e2.DriverError? && e1 != e2
    ensures Message(e1) != Message(e2)
  {
  }

  lemma StorageMessageDistinct(e1: Error, e2: Error)
    requires e1.ValueTooLong? || e1.NulInText? || e1.InvalidDatabaseConfig?
    requires !e2.DriverError? && e1 != e2
    ensures Message(e1) != Message(e2)
  {
  }

  datatype Option<+T> = None | Some(value: T)

  /**
   * A Go `(T, error)` pair: `Ok(v)` is `(v, nil)`; `Err(e)` is the zero value
   * together with a non-nil error, the zero value being left implicit.
   */
  datatype Result<+T> = Ok(value: T) | Err(error: Error) {

    predicate IsFailure() {
      Err?
    }

    function PropagateFailure<U>(): Result<U>
      requires Err?
    {
      Err(error)
    }

    function Extract(): T
      requires Ok?
    {
      value
    }
  }
}
