/** What all passes of the JIT front end share about instructions. */
module InstrInfo {
  /** The number of the program counter. */
  const PC: nat := 15

  datatype Flag = N | Z | C | V
}
