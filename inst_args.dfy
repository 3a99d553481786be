/** The instruction argument types: one tagged union in place of the C
    structs whose `type` field says which member of the `data` union is live. */
module InstArgs {
  import opened Common

  /** Length of the C label buffer inside an immediate. */
  const MAX_SYMBOL_SIZE: nat := 256

  /** ASMArgRegister, in the order of the C enum. `AF'` is the shadow pair. */
  datatype Register =
    | A | F | B | C | D | E | H | L | I | R
    | AF | BC | DE | HL | IX | IY
    | PC | SP
    | AF' | IXH | IXL | IYH | IYL

  /** ASMArgCondition. The C enum declares NZ, Z, NC, C, PO, PE, P and M;
      `parse_condition` returns a value named `COND_N` for the letter `n`,
      which that enum does not declare, so it is a ninth constructor here. */
  datatype Condition = CondNZ | CondZ | CondNC | CondC | CondPO | CondPE | CondP | CondM | CondN

  /** ASMArgImmType: the ranges an immediate may be checked against. The C mask
      is a bit set of these. */
  datatype ImmKind = ImmU16 | ImmU8 | ImmS8 | ImmRel | ImmBit | ImmRst | ImmIm

  /** ASMArgImmediate: the kinds the value fits, whether it names a label,
      its unsigned and signed readings, and the label text. */
  datatype Immediate = Immediate(mask: set<ImmKind>, isLabel: bool, uval: u16, sval: i16, labelName: string)

  /** ASMArgIndirect: `(register)` or `(immediate)`. */
  datatype Indirect = IndirectRegister(reg: Register) | IndirectImmediate(imm: Immediate)

  /** ASMArgIndexed: `(IX+d)` or `(IY+d)` with a signed 8-bit displacement. */
  datatype Indexed = Indexed(reg: Register, offset: i8)

  /** ASMArgPort: `(c)` or `(n)` for the I/O instructions. */
  datatype Port = PortRegister(reg: Register) | PortImmediate(imm: Immediate)

  /** ASMInstArg: the discriminant is the constructor (AT_REGISTER,
      AT_IMMEDIATE, AT_INDIRECT, AT_INDEXED, AT_CONDITION, AT_PORT). */
  datatype InstArg =
    | ArgRegister(reg: Register)
    | ArgImmediate(imm: Immediate)
    | ArgIndirect(indirect: Indirect)
    | ArgIndexed(index: Indexed)
    | ArgCondition(cond: Condition)
    | ArgPort(port: Port)

  /** The lower-case spelling of each register. */
  function RegisterName(r: Register): (name: string)
    ensures 1 <= |name| <= 3
    ensures r != AF' ==> forall j | 0 <= j < |name| :: 'a' <= name[j] <= 'z'
  {
    match r
    case A => "a"   case F => "f"   case B => "b"   case C => "c"   case D => "d"
    case E => "e"   case H => "h"   case L => "l"   case I => "i"   case R => "r"
    case AF => "af" case BC => "bc" case DE => "de" case HL => "hl"
    case IX => "ix" case IY => "iy" case PC => "pc" case SP => "sp"
    case AF' => "af'" case IXH => "ixh" case IXL => "ixl" case IYH => "iyh" case IYL => "iyl"
  }

  /** The lower-case spelling of each condition; `CondN` is spelled `n`. */
  function ConditionName(c: Condition): string {
    match c
    case CondNZ => "nz" case CondZ => "z" case CondNC => "nc" case CondC => "c"
    case CondPO => "po" case CondPE => "pe" case CondP => "p" case CondM => "m"
    case CondN => "n"
  }
}
