/**
 * The failure kinds of the assembler, in place of the ValueError (and, for
 * a missing operand, IndexError) that the Python code raises, and the
 * result types that carry them.
 */
module Results {

  datatype Error =
    | InvalidRegister          // not a register name and not x0..x31
    | InvalidImmediate         // not a decimal or 0x-prefixed numeral
    | InvalidCsr               // not a CSR name and not a numeral
    | InvalidFenceMask         // a FENCE mask character other than i, o, r, w
    | BadOperandFormat         // the operand does not match `offset(reg)`
    | Misaligned               // odd B-type or J-type offset
    | ShiftOutOfRange          // shift amount outside 0..31
    | CsrImmediateOutOfRange   // CSR immediate outside 0..31
    | UnsupportedInstruction   // unknown mnemonic
    | MissingOperand           // an operand position past the end of the list
    | WrongOperandCount        // the operand count check of the two-pass assembler
    | DuplicateLabel           // a label defined a second time
    | UnknownLabel             // a label operand that no line defines

  datatype Option<+T> = None | Some(value: T)

  datatype Result<+T> = Ok(value: T) | Err(error: Error) {

    predicate IsFailure() {
      Err?
    }

    function PropagateFailure<U>(): Result<U>
      requires Err?
    {
      Err(error)
    }

    function Extract(): T
      requires Ok?
    {
      value
    }
  }
}
