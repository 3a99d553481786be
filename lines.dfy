/** The line records the assembler passes between its stages. */
module Lines {

  /** A source line as the reader produces it (`Line`): its text without the
      newline, and its 1-based line number. The C `length` field is `|data|`. */
  datatype RawLine = RawLine(data: string, lineno: nat)

  /** The lines of one source file (`LineBuffer`), in file order, with the
      file's name. */
  datatype LineBuffer = LineBuffer(lines: seq<RawLine>, filename: string)

  /** A normalized line (`ASMLine`): its text, the raw line it came from (the
      C struct keeps a pointer to it; lines are never changed, so the model
      keeps the value), and the name of the file that owns it. */
  datatype AsmLine = AsmLine(data: string, original: RawLine, filename: string)
}
