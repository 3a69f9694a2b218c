/** The `EAN8Error` codes and their human-readable messages. */
module EanErrors {
  import opened Base

  /** The six enumerators of `EAN8Error`. */
  datatype EAN8Error =
    | ErrorNone
    | MemoryAllocation
    | InvalidInput
    | InvalidChecksum
    | InvalidFormat
    | InvalidDecode

  /** The integer value the enum assigns to each enumerator. */
  function Code(e: EAN8Error): (c: int)
    ensures 0 <= c <= 5
    ensures c == 0 <==> e == ErrorNone
  {
    match e
    case ErrorNone => 0
    case MemoryAllocation => 1
    case InvalidInput => 2
    case InvalidChecksum => 3
    case InvalidFormat => 4
    case InvalidDecode => 5
  }

  /** The enumerator an integer stands for, if any. */
  function FromCode(c: int): (r: Option<EAN8Error>)
    ensures r.Some? <==> 0 <= c <= 5
    ensures r.Some? ==> Code(r.value) == c
  {
    if c == 0 then Some(ErrorNone)
    else if c == 1 then Some(MemoryAllocation)
    else if c == 2 then Some(InvalidInput)
    else if c == 3 then Some(InvalidChecksum)
    else if c == 4 then Some(InvalidFormat)
    else if c == 5 then Some(InvalidDecode)
    else None
  }

  /** Every enumerator is recovered from its integer value. */
  lemma CodeRoundTrip(e: EAN8Error)
    ensures FromCode(Code(e)) == Some(e)
  {
  }

  /**
   * `ean8_error_to_string`. The C parameter is an enum, which may hold any
   * int, so the model takes the integer value; values that are not one of
   * the six enumerators take the `default` branch.
   */
  function ErrorToString(error: int): (r: string)
    ensures r == "Unknown error" <==> FromCode(error).None?
  {
    match FromCode(error)
    case None => "Unknown error"
    case Some(e) =>
      match e
      case ErrorNone => "No error"
      case MemoryAllocation => "Memory allocation error"
      case InvalidInput => "Invalid input"
      case InvalidChecksum => "Invalid checksum"
      case InvalidFormat => "Invalid format"
      case InvalidDecode => "Invalid decode"
  }

  /** The fixed message of each enumerator. */
  lemma KnownMessages()
    ensures ErrorToString(Code(ErrorNone)) == "No error"
    ensures ErrorToString(Code(MemoryAllocation)) == "Memory allocation error"
    ensures ErrorToString(Code(InvalidInput)) == "Invalid input"
    ensures ErrorToString(Code(InvalidChecksum)) == "Invalid checksum"
    ensures ErrorToString(Code(InvalidFormat)) == "Invalid format"
    ensures ErrorToString(Code(InvalidDecode)) == "Invalid decode"
  {
  }

  /** Distinct enumerators get distinct messages, so a message identifies its code. */
  lemma MessagesIdentifyCodes(a: int, b: int)
    requires FromCode(a).Some? && FromCode(b).Some?
    requires ErrorToString(a) == ErrorToString(b)
    ensures a == b
  {
  }
}
