/** Values shared by every part of the model: a share, the failures the
    program can run into, and a result that carries one or the other. */
module Types {

  /** One share: the x-coordinate (the JSON key) and the decoded y-coordinate. */
  datatype Point = Point(x: int, y: int)

  /** The exceptions the program can raise on the way to the secret. */
  datatype Error =
    | RadixOutOfRange       // NumberFormatException: radix outside 2..36
    | ZeroLength            // NumberFormatException: no digits
    | IllegalDigit          // NumberFormatException: a character that is not a digit of the radix
    | InsufficientPoints    // IllegalArgumentException: fewer points than the threshold
    | NegativeThreshold     // IllegalArgumentException from subList(0, k) with k < 0
    | EmptySystem           // ArrayIndexOutOfBoundsException: solution[0] of an empty solution
    | ZeroPivot(step: nat)  // ArithmeticException: division by a zero pivot at that step
    | Inexact(step: nat)    // only the corrected solver: a pivot that does not divide its row

  datatype Result<T> = Ok(value: T) | Err(error: Error)
}
