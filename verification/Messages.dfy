/** Types shared by every module: optional values, status codes and the
    OperationalStatus message that the vendor nodes publish. */
module Messages {

  datatype Option<+T> = None | Some(value: T)

  datatype StatusCode =
    | OK
    | INVALID_ARGUMENT
    | FAILED_PRECONDITION
    | DEADLINE_EXCEEDED
    | UNAVAILABLE
    | INTERNAL

  type ErrorCode = c: StatusCode | c != OK witness INTERNAL

  /** Joint values are copied and never computed with. */
  type Value = real

  type Byte = b: int | 0 <= b < 256

  const UNKNOWN: Byte := 0
  const DISABLED: Byte := 1
  const FAULTED: Byte := 2
  const ENABLED: Byte := 3

  datatype OperationalStatus = OperationalStatus(state: Byte, message: string)
}
