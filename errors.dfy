/** The diagnostics chain (src/assembler/errors.c and the string tables of
    src/asm_errors.h).

    An `ErrorInfo` names what went wrong and carries a trace of source lines,
    the most recently appended first. Each traced line is copied with its
    leading blanks removed. Printing writes a header line and then two lines
    per traced line; the output stream is modelled as the sequence of lines
    written, each without its final newline. */
module Errors {
  import opened Common
  import opened Lines

  /** ASMErrorType. */
  datatype ErrorType = EtInclude

  /** ASMErrorDesc. */
  datatype ErrorDesc = EdBadArg | EdRecursion | EdFileReadErr

  /** `asm_error_types`. */
  function ErrorTypeString(t: ErrorType): string {
    match t
    case EtInclude => "include directive"
  }

  /** `asm_error_descs`. */
  function ErrorDescString(d: ErrorDesc): string {
    match d
    case EdBadArg => "missing or invalid argument"
    case EdRecursion => "infinite recursion detected"
    case EdFileReadErr => "couldn't read included file"
  }

  /** ASMErrorLine, without its `next` link (the chain is a sequence): the
      copied text (the C `length` is `|data|`), the line number and the file
      name. */
  datatype ErrorLine = ErrorLine(data: string, lineno: nat, filename: string)

  /** A line with its leading spaces and tabs removed. */
  function Trim(s: string): (t: string)
    ensures |t| <= |s| && t == s[|s| - |t|..]
    ensures AllBlank(s[..|s| - |t|])
    ensures t != [] ==> !IsBlank(t[0])
  {
    s[LeadingBlanks(s)..]
  }

  /** Trimming twice is trimming once. */
  lemma TrimIdempotent(s: string)
    ensures Trim(Trim(s)) == Trim(s)
  {
    var t := Trim(s);
    if t != [] {
      assert LeadingBlanks(t) == 0;
    }
  }

  /** Trimming removes nothing but leading blanks: a line that starts with a
      character other than a blank is kept whole, and blanks before it are
      all dropped. */
  lemma TrimBlanksPrefix(pad: string, s: string)
    requires AllBlank(pad) && (s != [] ==> !IsBlank(s[0]))
    ensures Trim(pad + s) == s
    decreases |pad|
  {
    if pad != [] {
      assert (pad + s)[1..] == pad[1..] + s;
      TrimBlanksPrefix(pad[1..], s);
    } else {
      assert pad + s == s;
    }
  }

  /** `create_error_line`: copies the raw text of the line the ASMLine came
      from, skipping leading blanks, with the raw line's number and the
      ASMLine's file name. */
  method CreateErrorLine(line: AsmLine) returns (el: ErrorLine)
    ensures el.data == Trim(line.original.data)
    ensures el.lineno == line.original.lineno && el.filename == line.filename
  {
    var source := line.original.data;
    var start: nat, length: nat := 0, |source|;
    while length > 0 && IsBlank(source[start])
      invariant start + length == |source|
      invariant AllBlank(source[..start])
      decreases length
    {
      assert source[..start + 1] == source[..start] + [source[start]];
      start, length := start + 1, length - 1;
    }
    assert source == source[..start] + source[start..];
    TrimBlanksPrefix(source[..start], source[start..]);
    el := ErrorLine(source[start..], line.original.lineno, line.filename);
  }

  /** The error line `create_error_line` makes of `line`. */
  function ErrorLineOf(line: AsmLine): ErrorLine {
    ErrorLine(Trim(line.original.data), line.original.lineno, line.filename)
  }

  /** The header line error_info_print writes first. */
  function HeaderLine(t: ErrorType, d: ErrorDesc): string {
    "error: " + ErrorTypeString(t) + ": " + ErrorDescString(d)
  }

  /** The two lines error_info_print writes for one traced line: location,
      then the text indented by four spaces. */
  function EntryLines(el: ErrorLine): seq<string> {
    [el.filename + ":" + Numeral(el.lineno, 10) + ":", "    " + el.data]
  }

  /** The lines for a trace, head first. */
  function TraceLines(chain: seq<ErrorLine>): seq<string>
    decreases |chain|
  {
    if chain == [] then [] else EntryLines(chain[0]) + TraceLines(chain[1..])
  }

  function Render(t: ErrorType, d: ErrorDesc, chain: seq<ErrorLine>): seq<string> {
    [HeaderLine(t, d)] + TraceLines(chain)
  }

  /** The printed form has one header line and two lines per traced line, in
      chain order: entry `i` is at lines `1 + 2i` and `2 + 2i`. */
  lemma {:induction false} TraceLinesShape(chain: seq<ErrorLine>)
    ensures |TraceLines(chain)| == 2 * |chain|
    ensures forall i | 0 <= i < |chain| ::
      TraceLines(chain)[2 * i] == chain[i].filename + ":" + Numeral(chain[i].lineno, 10) + ":"
      && TraceLines(chain)[2 * i + 1] == "    " + chain[i].data
    decreases |chain|
  {
    if chain != [] {
      TraceLinesShape(chain[1..]);
      var rest := TraceLines(chain[1..]);
      forall i | 1 <= i < |chain|
        ensures TraceLines(chain)[2 * i] == rest[2 * (i - 1)]
        ensures TraceLines(chain)[2 * i + 1] == rest[2 * (i - 1) + 1]
      {
      }
    }
  }

  lemma RenderShape(t: ErrorType, d: ErrorDesc, chain: seq<ErrorLine>)
    ensures |Render(t, d, chain)| == 1 + 2 * |chain|
    ensures Render(t, d, chain)[0] == "error: " + ErrorTypeString(t) + ": " + ErrorDescString(d)
    ensures forall i | 0 <= i < |chain| ::
      Render(t, d, chain)[1 + 2 * i] == chain[i].filename + ":" + Numeral(chain[i].lineno, 10) + ":"
      && Render(t, d, chain)[2 + 2 * i] == "    " + chain[i].data
  {
    TraceLinesShape(chain);
  }

  /** Appending a line puts its two lines straight after the header, ahead
      of everything printed before. */
  lemma RenderAfterAppend(t: ErrorType, d: ErrorDesc, el: ErrorLine, chain: seq<ErrorLine>)
    ensures Render(t, d, [el] + chain) == [HeaderLine(t, d)] + EntryLines(el) + TraceLines(chain)
  {
    assert ([el] + chain)[1..] == chain;
  }

  /** ErrorInfo: the error's type and description and the trace of lines,
      head first. */
  class ErrorInfo {
    var errType: ErrorType
    var desc: ErrorDesc
    var chain: seq<ErrorLine>

    /** `error_info_create`: a trace of exactly the given line. */
    constructor (line: AsmLine, errType: ErrorType, desc: ErrorDesc)
      ensures this.errType == errType && this.desc == desc
      ensures chain == [ErrorLineOf(line)]
    {
      var el := CreateErrorLine(line);
      this.errType := errType;
      this.desc := desc;
      chain := [el];
    }

    /** `error_info_append`: the new line becomes the head of the trace and
        the previous entries follow it unchanged. */
    method Append(line: AsmLine)
      modifies this
      ensures chain == [ErrorLineOf(line)] + old(chain)
      ensures errType == old(errType) && desc == old(desc)
    {
      var el := CreateErrorLine(line);
      chain := [el] + chain;
    }

    /** `error_info_print`: the header, then a walk down the trace. */
    method Print() returns (output: seq<string>)
      ensures output == Render(errType, desc, chain)
    {
      output := [HeaderLine(errType, desc)];
      var rest := chain;
      while rest != []
        invariant output + TraceLines(rest) == Render(errType, desc, chain)
        decreases |rest|
      {
        output := output + EntryLines(rest[0]);
        rest := rest[1..];
      }
      assert output + [] == output;
    }
  }
}
