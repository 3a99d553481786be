# crater's z80 assembler core, modelled in Dafny

This project models the core of the assembler in crater, a Game Gear
emulator that comes with a z80 assembler. Contracts and lemmas are proved
about the model. The model covers:

- **Line normalization** (`normalize_line`). Each source line is copied with
  blank runs collapsed, the comment after a `;` cut off and string literals
  kept verbatim. A blank line yields no line.
- **Preprocessing** (`preprocess`). A file's lines become the list of
  normalized `ASMLine`s.
- **The driver** (`init_state`, `serialize_binary`, `assemble`). In this
  version of the source, tokenizing and resolving defaults and symbols are
  empty stubs. So `assemble` always succeeds with an empty ROM, and the model
  proves exactly that.
- **The value parsers** (`parse_util.c`): booleans, 32-bit integers in
  decimal or `$`-hex, quoted strings, byte lists, registers, conditions, and
  the `dparse_*` directive-argument readers.
- **The instruction layer** (`instructions.c`):
  - `parse_arg` and `parse_args`;
  - the argument-count guards `INST_TAKES_NO_ARGS` and `INST_TAKES_ARGS`;
  - the index prefix `INST_PREFIX_`;
  - the encoders `nop`, `inc` and `retn`;
  - the dispatcher `get_inst_parser`.
- **Diagnostics** (`errors.c`): creating an `ErrorInfo`, appending a traced
  line, and printing it.

How the source maps onto the model:

- **Form.** Imperative loops are Dafny methods with loop invariants. Each
  method is proved equal to a function, and the properties are lemmas about
  that function:
  - `NormalizeLine` is proved equal to `Normalize`. `Normalize` is the loop
    body written as a function (`Step`) and folded over the line (`Feed`);
    its lemmas compare it with independent descriptions, such as the words
    of a line joined by single spaces (`Words`, `JoinWords`);
  - `ParseBytes` is proved equal to `ParsedBytes`;
  - `ScanArgs` and `ParseArgs` are proved equal to `ArgsFrom` and `ArgsOf`.

  Pure switch tables stay functions. Objects whose fields are updated in
  place are classes: `AssemblerState` and `ErrorInfo`.
- **Out-parameters.** The C convention "on failure `*result` is untouched"
  works like this: each method takes the caller's current value and returns
  it unchanged on failure. The switch-style parsers return an `Option`.
- **Foreign functions.** Functions outside the core become parameters:
  - `region_string_to_code` becomes `regionStringToCode`;
  - `size_bytes_to_code` becomes `sizeBytesToCode`;
  - `DIRECTIVE_OFFSET(line, directive) + 1`, where every `dparse_*` starts
    reading its argument, becomes the `offset` argument.

Behaviours of the source that the model keeps as written, each stated by a
lemma:

- **The normalizer and escaped quotes.** A quote is tested after the
  backslash count has already been reset by that same quote. So the
  normalizer ends a literal at every quote, and a backslash-escaped quote
  leaves the literal (`EscapedQuoteEndsLiteral`). `parse_string` counts
  backslashes before the quote, so it keeps an escaped quote inside the
  string (`EscapedQuoteKept`).
- **`inc` and the index registers.** The `inc` switch departs from the Z80
  opcode table in three places:
  - IXH and IYH both encode as DD 2C, where the Z80 has DD 24 and FD 24
    (`IncHighHalvesCollide`);
  - IXL gets the IY prefix (`IncLowIxPrefix`);
  - `inc (hl)` reports two bytes but writes one (`IncIndirectLength`).

  Everywhere else it matches the Z80 table, which the model rebuilds from the
  opcode fields (`IncMatchesZ80`).
- **`COND_N`.** `parse_condition` returns a value named `COND_N` for `n`, but
  the condition enum does not declare it. The model gives it its own
  constructor, `CondN`. The zero condition `z` cannot be written
  (`ZeroConditionRejected`).
- **`dparse_rom_size` overflow.** It multiplies in 32-bit unsigned
  arithmetic, so `"4096 MB"` wraps to 0 (`FourGigabytesWrap`).
- **Trailing separator in byte lists.** `parse_bytes` accepts one trailing
  separator (`TrailingSeparatorAccepted`).

## Model

| member | source | states |
|---|---|---|
| Normalizer.NormalizeLine | src/assembler.c:305-349 | the buffer loop returns exactly `Normalize(source)`, the characters written to `data[0..di]`, or no line when nothing was written |
| Normalizer.NormalizeBlankIff | src/assembler.c:327-349 | a line normalizes to nothing exactly when it is blank up to its end or up to a `;` |
| Normalizer.CommentDiscardsRest | src/assembler.c:327-328 | outside a literal, a `;` ends the line: nothing after it affects the result |
| Normalizer.RunLength | src/assembler.c:307-341 | the output, plus a pending space, never exceeds the input length, so the `length`-sized buffer suffices |
| Normalizer.QuotedTextKept | src/assembler.c:321-341 | a quote-free literal outside a literal reaches the output verbatim, with quotes, after at most one separating space |
| Normalizer.EscapedQuoteEndsLiteral | src/assembler.c:316-333 | a backslash-escaped quote still ends the literal, so the blanks after it are collapsed to one space |
| Normalizer.NormalizeIdempotent | src/assembler.c:305-362 | normalizing a normalized line gives it back unchanged |
| Normalizer.NormalizedHead | src/assembler.c:332-341 | a normalized line is non-empty and does not start with a blank |
| Normalizer.RunWords | src/assembler.c:330-341 | on text without quotes or `;`, the output so far is the words so far joined by single spaces; a space is pending exactly after a blank, and there is content exactly once a word has begun |
| Normalizer.NormalizeQuoteFree | src/assembler.c:305-349 | a line without quotes normalizes to the words before its first `;` joined by single spaces, and to no line when there are no such words |
| Normalizer.QuoteFreeCollapsed | src/assembler.c:332-341 | a normalized line without quotes has no tab, no two blanks in a row and no blank at either end |
| Normalizer.PlainLineKept | src/assembler.c:305-349 | a non-empty line with no blank, quote or `;` normalizes to itself |
| ParseUtil.ParseBool | src/assembler/parse_util.c:30-55 | true exactly for `1`, `on`, `true`; false exactly for `0`, `off`, `false`; nothing else is accepted |
| ParseUtil.ReadDigits | src/assembler/parse_util.c:72-92 | the accumulator loop succeeds exactly when every character is a digit of the base and the value stays within the bound, and then yields that value |
| ParseUtil.ParseUint32 | src/assembler/parse_util.c:60-97 | succeeds exactly on what `ParsedUint32` accepts (decimal, or `$` and lower-case hex, within 32 bits); on failure the result is unchanged |
| ParseUtil.DecimalRoundTrip | src/assembler/parse_util.c:84-96 | the decimal numeral of any 32-bit value parses back to it |
| ParseUtil.HexRoundTrip | src/assembler/parse_util.c:67-83 | `$` and the hex numeral of any 32-bit value parses back to it |
| ParseUtil.UpperHexRejected | src/assembler/parse_util.c:75-78 | an upper-case hex digit makes a `$` number fail |
| ParseUtil.DecimalOverflowFails | src/assembler/parse_util.c:88-90 | once a digit prefix exceeds 2^32-1, the whole number fails whatever follows |
| ParseUtil.ParseString | src/assembler/parse_util.c:105-132 | succeeds exactly when the first unescaped closing quote is the last character; yields the inner text and its length `size - 2`; on failure leaves the result unchanged |
| ParseUtil.QuotedRoundTrip | src/assembler/parse_util.c:105-132 | quoting a quote-free text without a dangling backslash gives back that text |
| ParseUtil.EscapedQuoteKept | src/assembler/parse_util.c:110-121 | for quote-free texts x and y, a quote after an odd run of backslashes ending x stays inside the string: `"x"y"` reads as `x"y`, backslashes kept, when y ends in an even run |
| ParseUtil.EscapedEndRejected | src/assembler/parse_util.c:107-124 | any string whose closing quote follows an odd run of backslashes is refused |
| ParseUtil.ParseBytes | src/assembler/parse_util.c:140-175 | the element loop succeeds exactly on what `ParsedBytes` accepts and yields that byte list and its length; on failure the outputs are unchanged |
| ParseUtil.BytesRoundTrip | src/assembler/parse_util.c:140-175 | bytes written in decimal and joined by a space, a comma or a comma-space parse back to the same list |
| ParseUtil.JoinThen | src/assembler/parse_util.c:140-175 | after any list of bytes and a separator, the rest of the text decides the result: the bytes are prepended to whatever it reads as |
| ParseUtil.LargeElementRejected | src/assembler/parse_util.c:155-158 | an element above 255 fails the whole list, whether it comes first or after any bytes that parse |
| ParseUtil.EmptyElementRejected | src/assembler/parse_util.c:149-158 | an empty element fails the whole list: a leading separator, or a separator straight after another one after any bytes that parse (a comma and a space being one separator) |
| ParseUtil.TrailingSeparatorAccepted | src/assembler/parse_util.c:166-169 | any byte list followed by one trailing separator reads as the same list |
| ParseUtil.ParseRegister | src/assembler/parse_util.c:180-230 | an accepted argument is, lower-cased, the spelling of the register returned |
| ParseUtil.RegisterNameAccepted | src/assembler/parse_util.c:180-230 | every register spelling, in any mix of cases, is accepted as that register |
| ParseUtil.ParseCondition | src/assembler/parse_util.c:235-265 | an accepted argument is, lower-cased, the spelling of the condition returned, and that condition is never the zero condition |
| ParseUtil.ConditionNameAccepted | src/assembler/parse_util.c:235-265 | every condition spelling other than `z`, in any case, is accepted |
| ParseUtil.ZeroConditionRejected | src/assembler/parse_util.c:246-262 | `z` and `Z` are not conditions |
| ParseUtil.DParseBool | src/assembler/parse_util.c:270-274 | the boolean spelled from the offset to the end of the line, with both spellings sets; nothing when the offset is past the end |
| ParseUtil.DParseUint32 | src/assembler/parse_util.c:279-283 | the 32-bit reading of the text from the offset to the end of the line; nothing when the offset is past the end |
| ParseUtil.DParseUint16 | src/assembler/parse_util.c:288-294 | accepted exactly when the 32-bit reading succeeds and fits in 16 bits, with the same value |
| ParseUtil.DParseUint8 | src/assembler/parse_util.c:299-305 | accepted exactly when the 32-bit reading succeeds and fits in 8 bits, with the same value |
| ParseUtil.DParseRomSize | src/assembler/parse_util.c:310-347 | the method succeeds exactly on what `RomSizeValue` accepts, with its wrapped 32-bit product; on failure the result is unchanged |
| ParseUtil.RomSizeRoundTrip | src/assembler/parse_util.c:310-347 | `"<n> <K or M><B or b>"` reads back as n times the unit, modulo 2^32 |
| ParseUtil.KilobytesRoundTrip | src/assembler/parse_util.c:324-345 | a kilobyte size never wraps |
| ParseUtil.MegabytesRoundTrip | src/assembler/parse_util.c:326-345 | a megabyte size below 4096 MB does not wrap |
| ParseUtil.FourGigabytesWrap | src/assembler/parse_util.c:345 | `"4096 MB"` yields 0 |
| ParseUtil.DParseRegionString | src/assembler/parse_util.c:352-372 | succeeds exactly when a quoted name of at most 31 characters maps to a non-zero region code, which is the result |
| ParseUtil.DParseSizeCode | src/assembler/parse_util.c:377-389 | the plain-integer reading takes precedence; when it fails, the ROM-size reading is used; with neither there is no result; the result is the byte count's mapped size code, refused when it is `INVALID_SIZE_CODE` |
| Instructions.ParseArg | src/assembler/instructions.c:147-179 | an accepted register gives that register; otherwise an accepted condition gives that condition; otherwise, as for an empty piece, a syntax error |
| Instructions.ScanArgs | src/assembler/instructions.c:186-222 | the loop stores exactly the operands `ArgsFrom` reads, at most three, or returns the error that stops the scan |
| Instructions.ParseArgs | src/assembler/instructions.c:186-222 | `parse_args` with `parse_arg`: the stored operands are exactly `ArgsOf(str)`, or its error |
| Instructions.ArgsAtMostThree | src/assembler/instructions.c:195-205 | a successful scan yields at most three operands |
| Instructions.BadCharFailsScan | src/assembler/instructions.c:206-213 | a character outside the operand alphabet anywhere in the text makes the scan fail |
| Instructions.ArgsAreRegistersOrConditions | src/assembler/instructions.c:168-178 | every operand produced is a register or a condition |
| Instructions.ShadowPairNeverParsed | src/assembler/instructions.c:207-212 | `AF'` is never produced, since its quote is not an operand character |
| Instructions.RegisterBeforeCondition | src/assembler/instructions.c:168-176 | `c` is read as the register C although it also spells a condition |
| Instructions.JoinRoundTrip | src/assembler/instructions.c:193-221 | up to three operand texts joined with `", "` are read back one per text, in order |
| Instructions.RegistersRoundTrip | src/assembler/instructions.c:193-221 | a list of up to three registers written out is read back as the same registers |
| Instructions.TakesNoArgs | src/assembler/instructions.c:76-79 | any operand text at all is one argument too many |
| Instructions.TakesArgs | src/assembler/instructions.c:81-92 | no text is too few; a split error is returned as is; a count below `lo` is too few and one above `hi` too many; a count within `lo`..`hi` succeeds with exactly the split operands |
| Instructions.IndexPrefix | src/assembler/instructions.c:65-66 | 0xDD exactly for IX, IXH and IXL, otherwise 0xFD |
| Instructions.DisplacementByte | src/assembler/instructions.c:264 | the displacement byte read back as signed is the offset |
| Instructions.Nop | src/assembler/instructions.c:226-230 | succeeds exactly without operands, with the one byte 0x00, otherwise too many arguments |
| Instructions.Retn | src/assembler/instructions.c:284-288 | succeeds exactly without operands, with ED 45, otherwise too many arguments |
| Instructions.ParseInstInc | src/assembler/instructions.c:232-268 | the method with its local operand array computes `Inc`: the one-operand guard, then the operand switch |
| Instructions.IncMatchesZ80 | src/assembler/instructions.c:235-267 | for operands other than IXH, IXL, IYH and `(hl)`, and with an indexed operand based on IX or IY, `inc` accepts exactly the operands the Z80 has an INC for, with the opcode bytes and length of the Z80 table |
| Instructions.IncOfRegisterText | src/assembler/instructions.c:232-268 | `inc` on the text of any register but AF' parses that one operand and encodes it by its case of the switch |
| Instructions.IncHighHalvesCollide | src/assembler/instructions.c:251-253 | IXH and IYH both encode as DD 2C, where the Z80 has DD 24 and FD 24 |
| Instructions.IncLowIxPrefix | src/assembler/instructions.c:252 | IXL encodes as FD 2C, though its index prefix is 0xDD and the Z80 has DD 2C |
| Instructions.IncIndirectLength | src/assembler/instructions.c:257-262 | `inc (hl)` reports two bytes but writes only 0x34 |
| Instructions.IncBadRegisters | src/assembler/instructions.c:237-255 | `inc` refuses exactly F, I, R, AF, PC and AF', with a bad-register error |
| Instructions.IncFromTextIsRegister | src/assembler/instructions.c:232-267 | what `inc` encodes from text is always a register; a condition operand is a type error |
| Instructions.GetInstParser | src/assembler/instructions.c:295-310 | a parser is found only for a buffer holding its mnemonic padded with NULs |
| Instructions.GetInstParserFinds | src/assembler/instructions.c:295-310 | `nop`, `inc` and `retn` each find their own parser |
| Instructions.Encode | src/assembler/instructions.c:224-288 | running a found parser: `nop` and `retn` succeed exactly without operands, else too many arguments; `inc` without operands is too few; a success reports 1 to 3 bytes and writes at least one and no more than it reports |
| Errors.ErrorTypeString | src/asm_errors.h:20-22 | the string for each error type, by the type's position in the enum |
| Errors.ErrorDescString | src/asm_errors.h:24-28 | the string for each error description, by the description's position in the enum |
| Errors.Trim | src/assembler/errors.c:45-48 | the kept text is a suffix of the line, everything before it is blank, and it does not start with a blank |
| Errors.TrimIdempotent | src/assembler/errors.c:45-48 | trimming twice is trimming once |
| Errors.CreateErrorLine | src/assembler/errors.c:34-59 | the error line holds the raw line without its leading blanks, the raw line number and the ASMLine's file name |
| Errors.ErrorInfo.constructor | src/assembler/errors.c:70-81 | the new object has the given type and description and a trace of exactly the given line |
| Errors.ErrorInfo.Append | src/assembler/errors.c:86-91 | the appended line becomes the head of the trace, the older entries follow unchanged, and type and description are kept |
| Errors.ErrorInfo.Print | src/assembler/errors.c:96-106 | the output is the header line then two lines per traced entry, as `Render` states |
| Errors.RenderShape | src/assembler/errors.c:100-105 | the output has 1 + 2n lines: `error: <type>: <desc>`, then for entry i `<file>:<lineno>:` and four spaces plus its text |
| Errors.RenderAfterAppend | src/assembler/errors.c:86-106 | after an append, the new entry's two lines follow the header, ahead of all earlier output |
| Assembler.AssemblerState.constructor | src/assembler.c:218-233 | the defaults: header offset 0x7FF0; checksum on; product code, version and ROM-size code 0; region code of `GG Export`; optimizer off; ROM size 0; no lines or includes |
| Assembler.AssemblerState.Preprocess | src/assembler.c:392-420 | reports no error and sets the lines to `AsmLinesOf` the file |
| Assembler.AsmLinesProvenance | src/assembler.c:397-403 | every ASMLine comes from a line of the file, carries that file's name, and holds the normalized text of its raw line |
| Assembler.AsmLinesAreLinesWithContent | src/assembler.c:396-406 | the raw lines behind the ASMLines are exactly the lines with content, in file order |
| Assembler.NoBlankLineDropped | src/assembler.c:396-406 | a file without blank or comment-only lines keeps every line |
| Assembler.AssemblerState.SerializeBinary | src/assembler.c:479-485 | every byte of the ROM buffer is `X` |
| Assembler.Assemble | src/assembler.c:500-543 | exactly one of a binary and an error is produced; the size is the binary's length, or 0 on error; with the stub stages the result is an empty binary |

## Left out

- Reading and writing files (`read_source_file`, `write_binary_file`,
  `assemble_file`) is I/O and is not modelled. The source is given as a
  `LineBuffer` value.
- Memory management is not modelled: `malloc` failure (`OUT_OF_MEMORY`),
  `realloc`, and the `free_*` and `error_info_destroy` functions. Sequences
  are unbounded values.
- The C linked lists are sequences: the `ASMLine` list, the `ErrorInfo`
  trace, and the `Line` list of a `LineBuffer`. Pointer sharing and aliasing
  between them are not modelled.
- `tokenize`, `resolve_defaults` and `resolve_symbols` are empty stubs in the
  source. So the instruction list, the symbol table and its allocation in
  `assemble` are not part of this model, and `includes` is never filled.
- The placeholder `error_info_print` and `error_info_destroy` in
  src/assembler.c are not modelled; the model uses the ones in
  src/assembler/errors.c.
- `fill_bytes_variadic` and `INST_RETURN_WITH_SYMBOL` are left out: no
  modelled encoder is longer than four bytes or returns a symbol. The `symbol`
  out-parameter and the `static` symbol buffer of `parse_args` have no effect
  and are dropped.
- The commented-out `add` and `adc` parsers are not modelled.
- `DEBUG` logging is left out.
- Instructions.GetInstParser: the packed 32-bit key comparison is modelled as
  an exact comparison of the four-character buffer. Keys of signed characters
  that would collide are not modelled.
- Errors.ErrorInfo.Print: output lines are strings without their newline.
  `%.*s` stopping at a NUL inside the text is not modelled.
- Normalizer.NormalizeLine: the `char` buffer is a Dafny `array<char>`; the
  final `realloc` to `di` characters is the returned sequence `data[..di]`.
- Dafny's `char` is used for the C `char`; signedness and bytes above 127
  are not modelled.
