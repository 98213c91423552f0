/** The exceptions raised by conv.py and img2svmem.py, as values, and a
    failure-compatible result type for the operations that raise them. */
module Results {

  /** One constructor per distinct `ValueError` the scripts raise. */
  datatype Error =
    | OddHexDigits(line: string)          // a dump line with an odd hex digit count
    | NoRecords                           // a dump without any @ADDR HEX line
    | LineWidthNotMultipleOf8(width: int) // bytes_per_line % 8 != 0
    | ZeroRangeStep                       // range(0, n, 0) with bytes_per_line == 0
    | KernelPastEof(offset: int)
    | ImagePastEof(offset: int, need: int)
    | CannotReshape                       // a slice whose length does not fit the shape
    | ImageTooSmall                       // convolution input below 4x4
    | NonPositiveDivisor(divisor: int)
    | UnsupportedActivation(name: string)
    | UnsupportedPool(name: string)
    | NotSquare                           // 2x2 block grid of a non-square matrix
    | OddSide                             // 2x2 block grid of an odd-sided matrix
    | UnknownPreset(name: string)

  datatype Result<+T> = Ok(value: T) | Err(error: Error) {

    predicate IsFailure() {
      Err?
    }

    function PropagateFailure<U>(): Result<U>
      requires Err?
    {
      Err(error)
    }

    function Extract(): T
      requires Ok?
    {
      value
    }
  }
}
