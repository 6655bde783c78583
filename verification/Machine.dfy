/** C integer types as ranges of `int`, so that every assignment to a variable of one of
    these types is an overflow check, and the status codes shared by all modules. */
module Machine {
  type uint8 = x: int | 0 <= x < 0x100
  type uint16 = x: int | 0 <= x < 0x1_0000
  type uint32 = x: int | 0 <= x < 0x1_0000_0000
  type uint64 = x: int | 0 <= x < 0x1_0000_0000_0000_0000
  type int64 = x: int | -0x8000_0000_0000_0000 <= x < 0x8000_0000_0000_0000

  /** A 64-bit pattern read as a signed number. */
  function Signed(x: int): int64 {
    (x + 0x8000_0000_0000_0000) % 0x1_0000_0000_0000_0000 - 0x8000_0000_0000_0000
  }

  type Bytes = seq<uint8>

  datatype Status =
    | Truncated
    | BadLength
    | NotUnified
    | BadArg
    | AuthFailed
    | Unsupported

  datatype Result<+T> = Ok(value: T) | Err(status: Status) {
    predicate IsFailure() {
      Err?
    }

    function PropagateFailure<U>(): Result<U>
      requires Err?
    {
      Err(status)
    }

    function Extract(): T
      requires Ok?
    {
      value
    }
  }
}
