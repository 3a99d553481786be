/** The assembler's driver (src/assembler.c): the state it keeps, the
    preprocessing pass that turns a file's lines into normalized ASMLines, and
    the outcome of `assemble`.

    Of the stages `assemble` runs, only preprocessing does any work in this
    version of the source: tokenizing and resolving defaults and symbols
    return no error and change nothing, and the ROM size stays 0. So an
    assembly always succeeds with an empty binary. */
module Assembler {
  import opened Common
  import opened Lines
  import opened Normalizer
  import opened Errors

  const DEFAULT_HEADER_OFFSET: nat := 0x7FF0
  const DEFAULT_REGION: string := "GG Export"

  /** ASMHeaderInfo: the fields of the ROM header the directives set. */
  datatype HeaderInfo = HeaderInfo(offset: nat, checksum: bool, productCode: u32, version: u8, region: u8, romSize: u8)

  /** The ASMLines preprocessing makes of a file's lines: one for each line
      that does not normalize to nothing, in file order, carrying its
      normalized text, the raw line and the file's name. */
  function AsmLinesOf(lines: seq<RawLine>, filename: string): seq<AsmLine>
    decreases |lines|
  {
    if lines == [] then []
    else
      var init := AsmLinesOf(lines[..|lines| - 1], filename);
      var last := lines[|lines| - 1];
      match Normalize(last.data)
      case None => init
      case Some(d) => init + [AsmLine(d, last, filename)]
  }

  /** The raw lines that have content, in file order. */
  function LinesWithContent(lines: seq<RawLine>): seq<RawLine>
    decreases |lines|
  {
    if lines == [] then []
    else if Normalize(lines[0].data).None? then LinesWithContent(lines[1..])
    else [lines[0]] + LinesWithContent(lines[1..])
  }

  function Originals(asm: seq<AsmLine>): (raw: seq<RawLine>)
    ensures |raw| == |asm| && forall i | 0 <= i < |asm| :: raw[i] == asm[i].original
  {
    seq(|asm|, i requires 0 <= i < |asm| => asm[i].original)
  }

  /** Each ASMLine holds the normalized text of its raw line, which is a line
      of the file, and the file's name. */
  lemma {:induction false} AsmLinesProvenance(lines: seq<RawLine>, filename: string)
    ensures forall l | l in AsmLinesOf(lines, filename) ::
      l.original in lines && l.filename == filename && Normalize(l.original.data) == Some(l.data)
    decreases |lines|
  {
    if lines != [] {
      var init := lines[..|lines| - 1];
      AsmLinesProvenance(init, filename);
      forall l | l in AsmLinesOf(init, filename)
        ensures l.original in lines
      {
        assert l.original in init;
      }
    }
  }

  lemma LinesWithContentSnoc(lines: seq<RawLine>, last: RawLine)
    ensures LinesWithContent(lines + [last]) ==
      LinesWithContent(lines) + (if Normalize(last.data).None? then [] else [last])
    decreases |lines|
  {
    if lines != [] {
      assert (lines + [last])[1..] == lines[1..] + [last];
      LinesWithContentSnoc(lines[1..], last);
    }
  }

  /** The raw lines behind the ASMLines are exactly the lines with content,
      in the same order: preprocessing drops blank and comment-only lines and
      nothing else, and neither reorders nor repeats lines. */
  lemma {:induction false} AsmLinesAreLinesWithContent(lines: seq<RawLine>, filename: string)
    ensures Originals(AsmLinesOf(lines, filename)) == LinesWithContent(lines)
    decreases |lines|
  {
    if lines != [] {
      var init, last := lines[..|lines| - 1], lines[|lines| - 1];
      AsmLinesAreLinesWithContent(init, filename);
      assert lines == init + [last];
      LinesWithContentSnoc(init, last);
    }
  }

  /** A file with no blank line keeps every line. */
  lemma {:induction false} NoBlankLineDropped(lines: seq<RawLine>)
    requires forall i | 0 <= i < |lines| :: Normalize(lines[i].data).Some?
    ensures LinesWithContent(lines) == lines
    decreases |lines|
  {
    if lines != [] {
      NoBlankLineDropped(lines[1..]);
      assert lines == [lines[0]] + lines[1..];
    }
  }

  /** AssemblerState. The instruction list and the symbol table are not part
      of this model: the stages that would fill them do nothing. */
  class AssemblerState {
    var header: HeaderInfo
    var optimizer: bool
    var romSize: nat
    var lines: seq<AsmLine>
    var includes: seq<LineBuffer>

    /** `init_state`: the defaults, with the region code of the default
        region name as `regionStringToCode` (the foreign
        `region_string_to_code`) gives it. */
    constructor (regionStringToCode: string -> u8)
      ensures header == HeaderInfo(DEFAULT_HEADER_OFFSET, true, 0, 0, regionStringToCode(DEFAULT_REGION), 0)
      ensures !optimizer && romSize == 0 && lines == [] && includes == []
    {
      header := HeaderInfo(DEFAULT_HEADER_OFFSET, true, 0, 0, regionStringToCode(DEFAULT_REGION), 0);
      optimizer := false;
      romSize := 0;
      lines := [];
      includes := [];
    }

    /** `preprocess`: normalizes each line of the file in turn and links
        every one with content to the end of the list. It reports no
        error. */
    method Preprocess(source: LineBuffer) returns (err: Option<ErrorInfo>)
      modifies this`lines
      ensures err.None?
      ensures lines == AsmLinesOf(source.lines, source.filename)
    {
      var out: seq<AsmLine> := [];
      var i := 0;
      while i < |source.lines|
        invariant 0 <= i <= |source.lines|
        invariant out == AsmLinesOf(source.lines[..i], source.filename)
      {
        var orig := source.lines[i];
        var data := NormalizeLine(orig.data);
        if data.Some? {
          out := out + [AsmLine(data.value, orig, source.filename)];
        }
        assert source.lines[..i + 1][..i] == source.lines[..i];
        i := i + 1;
      }
      assert source.lines[..i] == source.lines;
      lines := out;
      return None;
    }

    /** `serialize_binary`: every byte of the ROM is the placeholder `X`. */
    method SerializeBinary(binary: array<u8>)
      requires binary.Length == romSize
      modifies binary
      ensures forall i | 0 <= i < binary.Length :: binary[i] == 'X' as u8
    {
      var i := 0;
      while i < romSize
        invariant 0 <= i <= romSize
        invariant forall j | 0 <= j < i :: binary[j] == 'X' as u8
      {
        binary[i] := 'X' as u8;
        i := i + 1;
      }
    }
  }

  /** `assemble`: exactly one of the binary and the error is produced; the
      size is the binary's length, or 0 on error. With the later stages
      empty, the outcome is always an empty binary. */
  method Assemble(source: LineBuffer, regionStringToCode: string -> u8)
    returns (size: nat, binary: Option<seq<u8>>, errorInfo: Option<ErrorInfo>)
    ensures binary.Some? <==> errorInfo.None?
    ensures binary.Some? ==> size == |binary.value|
    ensures errorInfo.Some? ==> size == 0
    ensures binary == Some([])
  {
    var state := new AssemblerState(regionStringToCode);
    errorInfo := state.Preprocess(source);
    if errorInfo.Some? {
      // `goto error`: preprocess reports no error in this version.
      assert false;
    }
    var rom := new u8[state.romSize];
    state.SerializeBinary(rom);
    size, binary := state.romSize, Some(rom[..]);
  }
}
