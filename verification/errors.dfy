/** Failure-compatible results for the cipher engine.

    Every condition under which the simulator throws (its own `EnigmaException`
    with a message, or a Java runtime exception such as a division by zero or
    an unboxed `null`) is one `Error` value here; an operation that can throw
    returns a `Result` or an `Outcome` instead.
 */
module Errors {

  /** One constructor per distinct way the engine can fail. */
  datatype Error =
    | EmptyAlphabet          // "Alphabet cannot be empty"
    | BadAlphabetChars       // "Bad alphabet characters"
    | IndexOutOfRange        // "Index out of range"
    | NotInAlphabet          // "Character not in alphabet"
    | MissingMapping         // a HashMap lookup that returns null (NullPointerException)
    | DivisionByZero         // `p % size()` with size 0 (ArithmeticException)
    | StringIndexOutOfRange  // `charAt(0)` of an empty string
    | ReflectorMisplaced     // "Reflector in wrong place"
    | BadRotorName           // "Bad rotor name in settings line"
    | WrongMovingCount       // "Wrong number of moving rotors"
    | BadSettingsLength      // "Bad rotor settings"
    | SettingNotInAlphabet   // "Bad rotor settings not in alphabet"
    | DuplicateRotors        // "Duplicate rotors in settings line"
    | NoNotches              // "Moving rotor has no notches"
    | BadNotch               // "Bad notch: character not in alphabet"
    | BadRotorDescription    // "Bad rotor description in config file"
    | BadRotorCount          // "Bad number of rotors"
    | BadPawlCount           // "Bad number of pawls"
    | FirstLineNotSetting    // "First line must be setting"

  /** A value, or the error that prevented computing it. */
  datatype Result<+T> = Success(value: T) | Failure(error: Error) {

    predicate IsFailure() {
      Failure?
    }

    function PropagateFailure<U>(): Result<U>
      requires Failure?
    {
      Failure(error)
    }

    function Extract(): T
      requires Success?
    {
      value
    }
  }

  /** The result of a check that produces no value. */
  datatype Outcome = Pass | Fail(error: Error) {

    predicate IsFailure() {
      Fail?
    }

    function PropagateFailure<U>(): Result<U>
      requires Fail?
    {
      Failure(error)
    }
  }
}
