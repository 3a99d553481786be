/** Operand splitting and the instruction encoders
    (src/assembler/instructions.c).

    An instruction parser receives the operand text of one instruction (absent
    when the instruction has none) and either reports an error code or the
    machine code it encodes to. `parse_args` splits the operand text at commas
    into at most three operands; it is a loop filling the caller's array of
    three, proved against the recursive `ArgsFrom`. The encoders for `nop`,
    `inc` and `retn` are the switch tables of the source, and `inc` is
    compared against an encoding derived from the Z80's opcode bit fields. */
module Instructions {
  import opened Common
  import opened InstArgs
  import opened ParseUtil

  /** The `ED_PS_*` error descriptions an instruction parser returns. */
  datatype InstError = TooFewArgs | TooManyArgs | ArgSyntax | Arg0BadReg | Arg0Type

  const MAX_ARGS: nat := 3
  const MAX_MNEMONIC_SIZE: nat := 4

  // ---------------------------------------------------------------- parse_arg

  /** `parse_arg`: a register if the text names one, else a condition if it
      names one, else a syntax error. */
  function ParseArg(piece: string): (r: Result<InstArg, InstError>)
    ensures ParseRegister(piece).Some? ==> r == Ok(ArgRegister(ParseRegister(piece).value))
    ensures ParseRegister(piece).None? && ParseCondition(piece).Some? ==>
      r == Ok(ArgCondition(ParseCondition(piece).value))
    ensures ParseRegister(piece).None? && ParseCondition(piece).None? ==> r == Err(ArgSyntax)
  {
    match ParseRegister(piece)
    case Some(reg) => Ok(ArgRegister(reg))
    case None =>
      match ParseCondition(piece)
      case Some(cond) => Ok(ArgCondition(cond))
      case None => Err(ArgSyntax)
  }

  // --------------------------------------------------------------- parse_args

  /** The characters `parse_args` lets into an operand (the comma aside). */
  predicate IsArgChar(c: char) {
    'a' <= c <= 'z' || '0' <= c <= '9'
    || c == ' ' || c == '+' || c == '-' || c == '(' || c == ')' || c == '_' || c == '.'
  }

  predicate AllArgChars(s: string) {
    forall j | 0 <= j < |s| :: IsArgChar(s[j])
  }

  /** Where the operands after a comma at `k` start: one space after the comma
      is skipped. */
  function AfterComma(s: string, k: nat): (next: nat)
    requires k < |s|
    ensures k < next <= |s|
  {
    if k + 1 < |s| && s[k + 1] == ' ' then k + 2 else k + 1
  }

  /** The operands in `s` when `n` operands came before it. An operand runs to
      the next comma; a bad character in it is a syntax error; once three
      operands are read, anything after the comma that ended the third is one
      too many. */
  function ArgsFrom(s: string, n: nat, parse: string -> Result<InstArg, InstError>): Result<seq<InstArg>, InstError>
    decreases |s|
  {
    var k := FindFirst(s, {','});
    var piece := s[..k];
    if !AllArgChars(piece) then Err(ArgSyntax)
    else if k == |s| then
      if piece == [] then Ok([])
      else
        match parse(piece)
        case Err(e) => Err(e)
        case Ok(a) => Ok([a])
    else
      match parse(piece)
      case Err(e) => Err(e)
      case Ok(a) =>
        var next := AfterComma(s, k);
        if n + 1 >= MAX_ARGS && next < |s| then Err(TooManyArgs)
        else PrependArg(a, ArgsFrom(s[next..], n + 1, parse))
  }

  function PrependArg(a: InstArg, r: Result<seq<InstArg>, InstError>): Result<seq<InstArg>, InstError> {
    match r
    case Err(e) => Err(e)
    case Ok(args) => Ok([a] + args)
  }

  function PrependArgs(xs: seq<InstArg>, r: Result<seq<InstArg>, InstError>): Result<seq<InstArg>, InstError> {
    match r
    case Err(e) => Err(e)
    case Ok(args) => Ok(xs + args)
  }

  /** The operands of a whole operand text, each read by `parse_arg`. */
  function ArgsOf(s: string): Result<seq<InstArg>, InstError> {
    ArgsFrom(s, 0, ParseArg)
  }

  /** Helper for `ScanArgs`: prepending in two steps is prepending once. */
  lemma PrependArgsStep(xs: seq<InstArg>, a: InstArg, r: Result<seq<InstArg>, InstError>)
    ensures PrependArgs(xs, PrependArg(a, r)) == PrependArgs(xs + [a], r)
  {
    if r.Ok? {
      assert xs + ([a] + r.value) == (xs + [a]) + r.value;
    }
  }

  lemma PrependNothing(r: Result<seq<InstArg>, InstError>)
    ensures PrependArgs([], r) == r
  {
    if r.Ok? {
      assert [] + r.value == r.value;
    }
  }

  /** A character that is neither a comma nor allowed in an operand, met
      before any comma, is a syntax error. */
  lemma BadCharRejected(s: string, j: nat, n: nat, parse: string -> Result<InstArg, InstError>)
    requires j < |s| && s[j] != ',' && !IsArgChar(s[j])
    requires forall i | 0 <= i < j :: s[i] != ','
    ensures ArgsFrom(s, n, parse) == Err(ArgSyntax)
  {
    var k := FindFirst(s, {','});
    assert k > j;
    assert s[..k][j] == s[j];
  }

  /** `ArgsFrom` at an operand ended by a comma at `k`. */
  lemma CommaStep(s: string, k: nat, n: nat, parse: string -> Result<InstArg, InstError>)
    requires k < |s| && s[k] == ','
    requires forall j | 0 <= j < k :: s[j] != ',' && IsArgChar(s[j])
    ensures ArgsFrom(s, n, parse) ==
      match parse(s[..k])
      case Err(e) => Err(e)
      case Ok(a) =>
        if n + 1 >= MAX_ARGS && AfterComma(s, k) < |s| then Err(TooManyArgs)
        else PrependArg(a, ArgsFrom(s[AfterComma(s, k)..], n + 1, parse))
  {
    FindFirstUnique(s, {','}, k);
  }

  /** `ArgsFrom` at an operand that ends the text. */
  lemma LastStep(s: string, n: nat, parse: string -> Result<InstArg, InstError>)
    requires forall j | 0 <= j < |s| :: s[j] != ',' && IsArgChar(s[j])
    ensures ArgsFrom(s, n, parse) ==
      if s == [] then Ok([])
      else match parse(s)
        case Err(e) => Err(e)
        case Ok(a) => Ok([a])
  {
    FindFirstUnique(s, {','}, |s|);
    assert s[..|s|] == s;
  }

  /** The characters of an operand scanned so far. */
  predicate Scanned(str: string, start: nat, i: nat)
    requires start <= i <= |str|
  {
    forall j | start <= j < i :: str[j] != ',' && IsArgChar(str[j])
  }

  /** The loop's step at a comma whose operand fails to parse. */
  lemma CommaFails(str: string, start: nat, i: nat, n: nat, parse: string -> Result<InstArg, InstError>)
    requires start <= i < |str| && str[i] == ',' && Scanned(str, start, i)
    requires parse(str[start..i]).Err?
    ensures ArgsFrom(str[start..], n, parse) == Err(parse(str[start..i]).error)
  {
    var s := str[start..];
    assert s[..i - start] == str[start..i];
    CommaStep(s, i - start, n, parse);
  }

  /** The loop's step at a comma whose operand parses as `a`: either that
      was one operand too many, or the scan goes on after the comma with `a`
      appended to the operands read before. */
  lemma CommaParses(str: string, start: nat, i: nat, n: nat, a: InstArg, prev: seq<InstArg>,
                    whole: Result<seq<InstArg>, InstError>, parse: string -> Result<InstArg, InstError>)
    requires start <= i < |str| && str[i] == ',' && Scanned(str, start, i)
    requires parse(str[start..i]) == Ok(a)
    requires whole == PrependArgs(prev, ArgsFrom(str[start..], n, parse))
    ensures n + 1 >= MAX_ARGS && AfterComma(str, i) < |str| ==> whole == Err(TooManyArgs)
    ensures !(n + 1 >= MAX_ARGS && AfterComma(str, i) < |str|) ==>
      whole == PrependArgs(prev + [a], ArgsFrom(str[AfterComma(str, i)..], n + 1, parse))
  {
    CommaAt(str, start, i, n, a, parse);
    PrependArgsStep(prev, a, ArgsFrom(str[AfterComma(str, i)..], n + 1, parse));
  }

  /** `CommaStep` in the loop's coordinates. */
  lemma CommaAt(str: string, start: nat, i: nat, n: nat, a: InstArg, parse: string -> Result<InstArg, InstError>)
    requires start <= i < |str| && str[i] == ',' && Scanned(str, start, i)
    requires parse(str[start..i]) == Ok(a)
    ensures ArgsFrom(str[start..], n, parse) ==
      if n + 1 >= MAX_ARGS && AfterComma(str, i) < |str| then Err(TooManyArgs)
      else PrependArg(a, ArgsFrom(str[AfterComma(str, i)..], n + 1, parse))
  {
    CommaSlice(str, start, i);
    CommaStep(str[start..], i - start, n, parse);
  }

  /** The comma at `i` seen from an operand starting at `start`. */
  lemma CommaSlice(str: string, start: nat, i: nat)
    requires start <= i < |str|
    ensures str[start..][..i - start] == str[start..i]
    ensures AfterComma(str[start..], i - start) == AfterComma(str, i) - start
    ensures str[start..][AfterComma(str[start..], i - start)..] == str[AfterComma(str, i)..]
  {
  }

  /** The loop's step at a character no operand may hold. */
  lemma BadCharFails(str: string, start: nat, i: nat, n: nat, parse: string -> Result<InstArg, InstError>)
    requires start <= i < |str| && str[i] != ',' && !IsArgChar(str[i]) && Scanned(str, start, i)
    ensures ArgsFrom(str[start..], n, parse) == Err(ArgSyntax)
  {
    var s := str[start..];
    assert s[i - start] == str[i];
    BadCharRejected(s, i - start, n, parse);
  }

  /** After the loop: the operand that ends the text. */
  lemma EndParses(str: string, start: nat, n: nat, parse: string -> Result<InstArg, InstError>)
    requires start <= |str| && Scanned(str, start, |str|)
    ensures start == |str| ==> ArgsFrom(str[start..], n, parse) == Ok([])
    ensures start < |str| ==>
      ArgsFrom(str[start..], n, parse) == (match parse(str[start..]) case Err(e) => Err(e) case Ok(a) => Ok([a]))
  {
    var s := str[start..];
    forall j | 0 <= j < |s|
      ensures s[j] != ',' && IsArgChar(s[j])
    {
      assert s[j] == str[start + j];
    }
    LastStep(s, n, parse);
  }

  /** The outcome of `parse_args` once the loop has run to the end. */
  lemma EndResult(str: string, start: nat, n: nat, prev: seq<InstArg>, parse: string -> Result<InstArg, InstError>)
    requires start <= |str| && Scanned(str, start, |str|)
    requires ArgsFrom(str, 0, parse) == PrependArgs(prev, ArgsFrom(str[start..], n, parse))
    ensures start == |str| ==> ArgsFrom(str, 0, parse) == Ok(prev)
    ensures start < |str| && parse(str[start..]).Err? ==> ArgsFrom(str, 0, parse) == Err(parse(str[start..]).error)
    ensures start < |str| && parse(str[start..]).Ok? ==> ArgsFrom(str, 0, parse) == Ok(prev + [parse(str[start..]).value])
  {
    EndParses(str, start, n, parse);
    assert prev + [] == prev;
  }

  /** The inner scan of `parse_args`: from `start`, the characters an
      operand may hold, up to the first that it may not (a comma, a bad
      character) or the end of the text. */
  method ScanOperand(str: string, start: nat) returns (i: nat)
    requires start <= |str|
    ensures start <= i <= |str| && Scanned(str, start, i)
    ensures i < |str| ==> str[i] == ',' || !IsArgChar(str[i])
  {
    i := start;
    while i < |str| && str[i] != ',' && IsArgChar(str[i])
      invariant start <= i <= |str| && Scanned(str, start, i)
    {
      i := i + 1;
    }
  }

  /** The loop of `parse_args`: scans the operand text once, reading an
      operand with `parse` at each comma and at the end, into the caller's
      array of three. */
  method ScanArgs(args: array<InstArg>, str: string, parse: string -> Result<InstArg, InstError>)
    returns (nargs: nat, err: Option<InstError>)
    requires args.Length == MAX_ARGS
    modifies args
    ensures err.None? <==> ArgsFrom(str, 0, parse).Ok?
    ensures err.None? ==> nargs <= MAX_ARGS && args[..nargs] == ArgsFrom(str, 0, parse).value
    ensures err.Some? ==> err.value == ArgsFrom(str, 0, parse).error
  {
    nargs := 0;
    var start := 0;
    assert str[start..] == str;
    assert args[..nargs] == [];
    PrependNothing(ArgsFrom(str, 0, parse));
    var i := ScanOperand(str, start);
    while i < |str|
      invariant 0 <= start <= i <= |str|
      invariant nargs <= MAX_ARGS && (nargs == MAX_ARGS ==> start == |str|)
      invariant Scanned(str, start, i)
      invariant i < |str| ==> str[i] == ',' || !IsArgChar(str[i])
      invariant ArgsFrom(str, 0, parse) == PrependArgs(args[..nargs], ArgsFrom(str[start..], nargs, parse))
      decreases |str| - i
    {
      if str[i] != ',' {
        BadCharFails(str, start, i, nargs, parse);
        return nargs, Some(ArgSyntax);
      }
      nargs, err := CommaOperand(args, nargs, str, start, i, parse, ArgsFrom(str, 0, parse));
      if err.Some? {
        return nargs, err;
      }
      start := AfterComma(str, i);
      i := ScanOperand(str, start);
    }
    EndResult(str, start, nargs, args[..nargs], parse);
    assert str[start..i] == str[start..];
    if i > start {
      var r := parse(str[start..i]);
      if r.Err? {
        return nargs, Some(r.error);
      }
      nargs := Store(args, nargs, r.value);
    }
    return nargs, None;
  }

  /** The body of the loop of `parse_args` at the comma at `i`: the operand
      before it is read and stored, unless it fails to parse or is one too
      many. */
  method CommaOperand(args: array<InstArg>, nargs: nat, str: string, start: nat, i: nat,
                      parse: string -> Result<InstArg, InstError>, ghost whole: Result<seq<InstArg>, InstError>)
    returns (nargs': nat, err: Option<InstError>)
    requires args.Length == MAX_ARGS && nargs < MAX_ARGS
    requires start <= i < |str| && str[i] == ',' && Scanned(str, start, i)
    requires whole == PrependArgs(args[..nargs], ArgsFrom(str[start..], nargs, parse))
    modifies args
    ensures err.Some? ==> whole == Err(err.value)
    ensures err.None? ==> nargs' == nargs + 1 && (nargs' == MAX_ARGS ==> AfterComma(str, i) == |str|)
    ensures err.None? ==> whole == PrependArgs(args[..nargs'], ArgsFrom(str[AfterComma(str, i)..], nargs', parse))
  {
    var r := parse(str[start..i]);
    if r.Err? {
      CommaFails(str, start, i, nargs, parse);
      return nargs, Some(r.error);
    }
    CommaParses(str, start, i, nargs, r.value, args[..nargs], whole, parse);
    nargs' := Store(args, nargs, r.value);
    if nargs' >= MAX_ARGS && AfterComma(str, i) < |str| {
      return nargs', Some(TooManyArgs);
    }
    err := None;
  }

  /** `args[nargs++] = a`. */
  method Store(args: array<InstArg>, nargs: nat, a: InstArg) returns (nargs': nat)
    requires nargs < args.Length
    modifies args
    ensures nargs' == nargs + 1 && args[..nargs'] == old(args[..nargs]) + [a]
  {
    args[nargs] := a;
    nargs' := nargs + 1;
    assert args[..nargs'] == args[..nargs] + [a];
  }

  /** `parse_args`: the operands of `str`, each read by `parse_arg`, stored in
      `args`, or the error that stopped the scan. */
  method ParseArgs(args: array<InstArg>, str: string) returns (nargs: nat, err: Option<InstError>)
    requires args.Length == MAX_ARGS
    modifies args
    ensures err.None? <==> ArgsOf(str).Ok?
    ensures err.None? ==> nargs <= MAX_ARGS && args[..nargs] == ArgsOf(str).value
    ensures err.Some? ==> err.value == ArgsOf(str).error
  {
    nargs, err := ScanArgs(args, str, ParseArg);
  }

  // -------------------------------------------------- what the scan yields

  /** Every operand the scan yields was read by `parse` from a piece of allowed
      characters, so whatever `parse` guarantees of such results holds of the
      whole list. */
  lemma {:induction false} ArgsFromKeeps(s: string, n: nat, parse: string -> Result<InstArg, InstError>, p: InstArg -> bool)
    requires forall piece | AllArgChars(piece) && parse(piece).Ok? :: p(parse(piece).value)
    ensures ArgsFrom(s, n, parse).Ok? ==> forall x | x in ArgsFrom(s, n, parse).value :: p(x)
    decreases |s|
  {
    var k := FindFirst(s, {','});
    if AllArgChars(s[..k]) && k < |s| && parse(s[..k]).Ok? {
      var next := AfterComma(s, k);
      if !(n + 1 >= MAX_ARGS && next < |s|) {
        ArgsFromKeeps(s[next..], n + 1, parse, p);
      }
    }
  }

  /** A successful scan yields at most three operands in all. */
  lemma {:induction false} ArgsBound(s: string, n: nat, parse: string -> Result<InstArg, InstError>)
    requires n < MAX_ARGS
    ensures ArgsFrom(s, n, parse).Ok? ==> n + |ArgsFrom(s, n, parse).value| <= MAX_ARGS
    decreases |s|
  {
    var k := FindFirst(s, {','});
    if AllArgChars(s[..k]) && k < |s| && parse(s[..k]).Ok? {
      var next := AfterComma(s, k);
      if n + 1 < MAX_ARGS {
        ArgsBound(s[next..], n + 1, parse);
      } else if next == |s| {
        assert s[next..] == [];
      }
    }
  }

  /** A successful scan has seen only commas and the characters an operand
      may hold. */
  lemma {:induction false} ArgsCharset(s: string, n: nat, parse: string -> Result<InstArg, InstError>)
    ensures ArgsFrom(s, n, parse).Ok? ==> forall i | 0 <= i < |s| :: s[i] == ',' || IsArgChar(s[i])
    decreases |s|
  {
    if ArgsFrom(s, n, parse).Ok? {
      var k := FindFirst(s, {','});
      assert AllArgChars(s[..k]);
      forall i | 0 <= i < k
        ensures IsArgChar(s[i])
      {
        assert s[..k][i] == s[i];
      }
      if k < |s| {
        var next := AfterComma(s, k);
        ArgsCharset(s[next..], n + 1, parse);
        forall i | next <= i < |s|
          ensures s[i] == ',' || IsArgChar(s[i])
        {
          assert s[next..][i - next] == s[i];
        }
      }
    }
  }

  /** A character outside the operand alphabet, anywhere in the text, makes
      the scan fail. */
  lemma BadCharFailsScan(s: string, i: nat)
    requires i < |s| && s[i] != ',' && !IsArgChar(s[i])
    ensures ArgsOf(s).Err?
  {
    ArgsCharset(s, 0, ParseArg);
  }

  /** Each operand of a successful `parse_args` is a register or a
      condition: indirect, indexed, immediate and port operands are never
      produced. */
  lemma ArgsAreRegistersOrConditions(s: string)
    ensures ArgsOf(s).Ok? ==> forall x | x in ArgsOf(s).value :: x.ArgRegister? || x.ArgCondition?
  {
    ArgsFromKeeps(s, 0, ParseArg, (x: InstArg) => x.ArgRegister? || x.ArgCondition?);
  }

  /** The spelling of `AF'` holds a quote, which no operand may hold. */
  lemma ShadowPairUnreadable(piece: string)
    requires AllArgChars(piece)
    ensures ParseArg(piece) != Ok(ArgRegister(AF'))
  {
    if |piece| == 3 {
      assert Lower(piece)[2] == LowerChar(piece[2]);
      assert IsArgChar(piece[2]);
    }
  }

  /** So `parse_args` never yields the shadow pair `AF'`. */
  lemma ShadowPairNeverParsed(s: string)
    ensures ArgsOf(s).Ok? ==> ArgRegister(AF') !in ArgsOf(s).value
  {
    forall piece | AllArgChars(piece) && ParseArg(piece).Ok?
      ensures ParseArg(piece).value != ArgRegister(AF')
    {
      ShadowPairUnreadable(piece);
    }
    ArgsFromKeeps(s, 0, ParseArg, (x: InstArg) => x != ArgRegister(AF'));
  }

  /** At most three operands come out of `parse_args`. */
  lemma ArgsAtMostThree(s: string)
    ensures ArgsOf(s).Ok? ==> |ArgsOf(s).value| <= MAX_ARGS
  {
    ArgsBound(s, 0, ParseArg);
  }

  /** `parse_arg` tries registers before conditions: `c` is the register. */
  lemma RegisterBeforeCondition()
    ensures ParseCondition("c") == Some(CondC)
    ensures ParseArg("c") == Ok(ArgRegister(C))
  {
    assert Lower("c") == "c";
  }

  // ----------------------------------------------- register lists round trip

  /** Operand texts joined with `", "`, as an operand list is written. */
  function JoinOperands(pieces: seq<string>): string
    requires |pieces| >= 1
  {
    if |pieces| == 1 then pieces[0] else pieces[0] + ", " + JoinOperands(pieces[1..])
  }

  /** A text that can stand as one operand between commas. */
  predicate OperandText(piece: string) {
    |piece| >= 1 && AllArgChars(piece) && forall j | 0 <= j < |piece| :: piece[j] != ','
  }

  /** One operand `piece`, then `", "` and the rest of the list. */
  lemma ListStep(piece: string, rest: string, n: nat, a: InstArg, parse: string -> Result<InstArg, InstError>)
    requires OperandText(piece) && parse(piece) == Ok(a) && n + 1 < MAX_ARGS
    ensures ArgsFrom(piece + ", " + rest, n, parse) == PrependArg(a, ArgsFrom(rest, n + 1, parse))
  {
    var s := piece + ", " + rest;
    var k := |piece|;
    assert s[..k] == piece;
    CommaStep(s, k, n, parse);
    assert AfterComma(s, k) == k + 2;
    assert s[k + 2..] == rest;
  }

  /** The operand that ends the list. */
  lemma LastOperand(piece: string, a: InstArg, n: nat, parse: string -> Result<InstArg, InstError>)
    requires OperandText(piece) && parse(piece) == Ok(a)
    ensures ArgsFrom(piece, n, parse) == Ok([a])
  {
    LastStep(piece, n, parse);
  }

  /** Joining up to three operand texts with `", "` and splitting the result
      again reads each text once, in order. */
  lemma {:induction false} JoinRoundTrip(pieces: seq<string>, args: seq<InstArg>, n: nat,
                                         parse: string -> Result<InstArg, InstError>)
    requires 1 <= |pieces| == |args| && n + |pieces| <= MAX_ARGS
    requires forall i | 0 <= i < |pieces| :: OperandText(pieces[i]) && parse(pieces[i]) == Ok(args[i])
    ensures ArgsFrom(JoinOperands(pieces), n, parse) == Ok(args)
    decreases |pieces|
  {
    var s := JoinOperands(pieces);
    if |pieces| == 1 {
      assert OperandText(pieces[0]) && parse(pieces[0]) == Ok(args[0]);
      assert ArgsFrom(s, n, parse) == Ok([args[0]]) by {
        LastOperand(pieces[0], args[0], n, parse);
      }
      assert args == [args[0]];
    } else {
      var rest := JoinOperands(pieces[1..]);
      assert OperandText(pieces[0]) && parse(pieces[0]) == Ok(args[0]);
      assert ArgsFrom(s, n, parse) == PrependArg(args[0], ArgsFrom(rest, n + 1, parse)) by {
        ListStep(pieces[0], rest, n, args[0], parse);
      }
      assert ArgsFrom(rest, n + 1, parse) == Ok(args[1..]) by {
        JoinRoundTrip(pieces[1..], args[1..], n + 1, parse);
      }
      assert args == [args[0]] + args[1..];
    }
  }

  function RegisterNames(rs: seq<Register>): (names: seq<string>)
    ensures |names| == |rs| && forall i | 0 <= i < |rs| :: names[i] == RegisterName(rs[i])
  {
    seq(|rs|, i requires 0 <= i < |rs| => RegisterName(rs[i]))
  }

  function AsOperands(rs: seq<Register>): (args: seq<InstArg>)
    ensures |args| == |rs| && forall i | 0 <= i < |rs| :: args[i] == ArgRegister(rs[i])
  {
    seq(|rs|, i requires 0 <= i < |rs| => ArgRegister(rs[i]))
  }

  lemma NameIsOperand(r: Register)
    requires r != AF'
    ensures OperandText(RegisterName(r))
    ensures ParseArg(RegisterName(r)) == Ok(ArgRegister(r))
  {
    var name := RegisterName(r);
    LettersAreOperand(name);
    RegisterNameAccepted(name, r);
  }

  /** A word of lower-case letters is its own lower-case form and a valid
      operand text. */
  lemma LettersAreOperand(s: string)
    requires |s| >= 1 && forall j | 0 <= j < |s| :: 'a' <= s[j] <= 'z'
    ensures Lower(s) == s && OperandText(s)
  {
  }

  /** Writing up to three registers (other than `AF'`) separated by `", "` and
      running `parse_args` on the text gives back the same registers in
      order. */
  lemma RegistersRoundTrip(rs: seq<Register>)
    requires 1 <= |rs| <= MAX_ARGS && AF' !in rs
    ensures ArgsOf(JoinOperands(RegisterNames(rs))) == Ok(AsOperands(rs))
  {
    var names, args := RegisterNames(rs), AsOperands(rs);
    forall i | 0 <= i < |rs|
      ensures OperandText(names[i]) && ParseArg(names[i]) == Ok(args[i])
    {
      NameIsOperand(rs[i]);
    }
    JoinRoundTrip(names, args, 0, ParseArg);
  }

  // --------------------------------------------------- argument-count guards

  /** INST_TAKES_NO_ARGS: any operand text at all is one argument too many. */
  function TakesNoArgs(arg: Option<string>): (r: Option<InstError>)
    ensures r.Some? <==> arg.Some?
    ensures r.Some? ==> r.value == TooManyArgs
  {
    if arg.Some? then Some(TooManyArgs) else None
  }

  /** INST_TAKES_ARGS(lo, hi): no operand text is too few; otherwise the split
      operands, unless splitting failed or their count is outside
      `lo`..`hi`. */
  function TakesArgs(arg: Option<string>, lo: nat, hi: nat): (r: Result<seq<InstArg>, InstError>)
    ensures arg.None? ==> r == Err(TooFewArgs)
    ensures arg.Some? && ArgsOf(arg.value).Err? ==> r == Err(ArgsOf(arg.value).error)
    ensures arg.Some? && ArgsOf(arg.value).Ok? ==>
      (|ArgsOf(arg.value).value| < lo ==> r == Err(TooFewArgs))
      && (lo <= |ArgsOf(arg.value).value| && |ArgsOf(arg.value).value| > hi ==> r == Err(TooManyArgs))
    ensures arg.Some? && ArgsOf(arg.value).Ok? && lo <= |ArgsOf(arg.value).value| <= hi ==> r == ArgsOf(arg.value)
    ensures r.Ok? ==> arg.Some? && ArgsOf(arg.value) == r && lo <= |r.value| <= hi && |r.value| <= MAX_ARGS
  {
    if arg.None? then Err(TooFewArgs)
    else
      ArgsAtMostThree(arg.value);
      match ArgsOf(arg.value)
      case Err(e) => Err(e)
      case Ok(args) =>
        if |args| < lo then Err(TooFewArgs)
        else if |args| > hi then Err(TooManyArgs)
        else Ok(args)
  }

  // ---------------------------------------------------------------- encoders

  /** What an encoder emits: the length it reports and the bytes it writes,
      from the first. A byte of the reported length that the encoder leaves
      unwritten is not in `bytes`. */
  datatype Encoding = Encoding(length: nat, bytes: seq<u8>)

  /** INST_PREFIX_: the IX family takes the 0xDD prefix, every other register
      0xFD. */
  function IndexPrefix(reg: Register): (b: u8)
    ensures b == 0xDD <==> reg == IX || reg == IXH || reg == IXL
    ensures b != 0xDD ==> b == 0xFD
  {
    if reg == IX || reg == IXH || reg == IXL then 0xDD else 0xFD
  }

  /** The byte that holds a signed 8-bit displacement (two's complement). */
  function DisplacementByte(d: i8): (b: u8)
    ensures SignedByte(b) == d
  {
    if d < 0 then d + 0x100 else d
  }

  function SignedByte(b: u8): i8 {
    if b >= 0x80 then b - 0x100 else b
  }

  /** parse_inst_nop. */
  function Nop(arg: Option<string>): (r: Result<Encoding, InstError>)
    ensures r.Ok? <==> arg.None?
    ensures r.Ok? ==> r.value == Encoding(1, [0x00])
    ensures r.Err? ==> r.error == TooManyArgs
  {
    match TakesNoArgs(arg)
    case Some(e) => Err(e)
    case None => Ok(Encoding(1, [0x00]))
  }

  /** parse_inst_retn. */
  function Retn(arg: Option<string>): (r: Result<Encoding, InstError>)
    ensures r.Ok? <==> arg.None?
    ensures r.Ok? ==> r.value == Encoding(2, [0xED, 0x45])
    ensures r.Err? ==> r.error == TooManyArgs
  {
    match TakesNoArgs(arg)
    case Some(e) => Err(e)
    case None => Ok(Encoding(2, [0xED, 0x45]))
  }

  /** The switch of parse_inst_inc on its one operand. */
  function IncOperand(a: InstArg): Result<Encoding, InstError> {
    match a
    case ArgRegister(reg) =>
      (match reg
       case A => Ok(Encoding(1, [0x3C]))
       case B => Ok(Encoding(1, [0x04]))
       case C => Ok(Encoding(1, [0x0C]))
       case D => Ok(Encoding(1, [0x14]))
       case E => Ok(Encoding(1, [0x1C]))
       case H => Ok(Encoding(1, [0x24]))
       case L => Ok(Encoding(1, [0x2C]))
       case BC => Ok(Encoding(1, [0x03]))
       case DE => Ok(Encoding(1, [0x13]))
       case HL => Ok(Encoding(1, [0x23]))
       case SP => Ok(Encoding(1, [0x33]))
       case IX => Ok(Encoding(2, [0xDD, 0x23]))
       case IY => Ok(Encoding(2, [0xFD, 0x23]))
       case IXH => Ok(Encoding(2, [0xDD, 0x2C]))
       case IXL => Ok(Encoding(2, [0xFD, 0x2C]))
       case IYH => Ok(Encoding(2, [0xDD, 0x2C]))
       case IYL => Ok(Encoding(2, [0xFD, 0x2C]))
       case _ => Err(Arg0BadReg))
    case ArgIndirect(ind) =>
      if !ind.IndirectRegister? then Err(Arg0Type)
      else if ind.reg != HL then Err(Arg0BadReg)
      else Ok(Encoding(2, [0x34]))
    case ArgIndexed(index) =>
      Ok(Encoding(3, [IndexPrefix(index.reg), 0x34, DisplacementByte(index.offset)]))
    case _ => Err(Arg0Type)
  }

  /** parse_inst_inc: exactly one operand, encoded by the switch. */
  function Inc(arg: Option<string>): Result<Encoding, InstError> {
    match TakesArgs(arg, 1, 1)
    case Err(e) => Err(e)
    case Ok(args) => IncOperand(args[0])
  }

  /** `inc` written with one register operand encodes as that register's
      case of the switch: the guard lets exactly one operand through. */
  lemma IncOfRegisterText(r: Register)
    requires r != AF'
    ensures Inc(Some(RegisterName(r))) == IncOperand(ArgRegister(r))
  {
    NameIsOperand(r);
    LastOperand(RegisterName(r), ArgRegister(r), 0, ParseArg);
  }

  /** parse_inst_inc with its local array of three operands. */
  method ParseInstInc(arg: Option<string>) returns (r: Result<Encoding, InstError>)
    ensures r == Inc(arg)
  {
    if arg.None? {
      return Err(TooFewArgs);
    }
    var args := new InstArg[MAX_ARGS](_ => ArgRegister(A));
    var nargs, err := ParseArgs(args, arg.value);
    if err.Some? {
      return Err(err.value);
    }
    if nargs < 1 {
      return Err(TooFewArgs);
    }
    if nargs > 1 {
      return Err(TooManyArgs);
    }
    assert args[..nargs][0] == args[0];
    r := IncOperand(args[0]);
  }

  // -------------------------------------------- inc against the Z80 opcodes

  /** The 3-bit code of an 8-bit register in the Z80 opcode fields; 6 is
      `(HL)`. */
  function Reg8Code(r: Register): Option<nat> {
    match r
    case B => Some(0) case C => Some(1) case D => Some(2) case E => Some(3)
    case H => Some(4) case L => Some(5) case A => Some(7)
    case _ => None
  }

  /** The 2-bit code of a register pair. */
  function Reg16Code(r: Register): Option<nat> {
    match r
    case BC => Some(0) case DE => Some(1) case HL => Some(2) case SP => Some(3)
    case _ => None
  }

  /** The index register of the IX or IY family a register belongs to. */
  function IndexFamily(r: Register): Option<Register> {
    match r
    case IX => Some(IX) case IXH => Some(IX) case IXL => Some(IX)
    case IY => Some(IY) case IYH => Some(IY) case IYL => Some(IY)
    case _ => None
  }

  /** The half of HL whose opcode a half index register borrows. */
  function IndexHalf(r: Register): (half: Option<Register>)
    ensures half.Some? ==> IndexFamily(r).Some? && Reg8Code(half.value).Some?
  {
    match r
    case IXH => Some(H) case IYH => Some(H)
    case IXL => Some(L) case IYL => Some(L)
    case _ => None
  }

  function FamilyPrefix(family: Register): u8 {
    if family == IX then 0xDD else 0xFD
  }

  /** The INC opcodes of the Z80, built from the opcode fields: `INC r` is
      00 rrr 100, `INC rr` is 00 rr0 011, the index registers and their halves
      take the family prefix before the HL, H or L opcode, and `(IX+d)` puts
      the displacement after the `(HL)` opcode. */
  function CanonicalInc(a: InstArg): Option<seq<u8>> {
    match a
    case ArgRegister(r) =>
      if Reg8Code(r).Some? then Some([4 + 8 * Reg8Code(r).value])
      else if Reg16Code(r).Some? then Some([3 + 16 * Reg16Code(r).value])
      else if r == IX || r == IY then Some([FamilyPrefix(r), 3 + 16 * 2])
      else if IndexHalf(r).Some? then
        Some([FamilyPrefix(IndexFamily(r).value), 4 + 8 * Reg8Code(IndexHalf(r).value).value])
      else None
    case ArgIndirect(ind) =>
      if ind == IndirectRegister(HL) then Some([4 + 8 * 6]) else None
    case ArgIndexed(index) =>
      if index.reg == IX || index.reg == IY then
        Some([FamilyPrefix(index.reg), 4 + 8 * 6, DisplacementByte(index.offset)])
      else None
    case _ => None
  }

  /** Apart from the half index registers IXH, IXL and IYH and the length of
      `(HL)`, the switch of parse_inst_inc is the Z80's INC: it accepts
      exactly the operands the Z80 has an INC for (taking any register as an
      index) and writes that opcode, with its length. */
  lemma IncMatchesZ80(a: InstArg)
    requires a != ArgRegister(IXH) && a != ArgRegister(IXL) && a != ArgRegister(IYH)
    requires a != ArgIndirect(IndirectRegister(HL))
    requires a.ArgIndexed? ==> a.index.reg == IX || a.index.reg == IY
    ensures IncOperand(a).Ok? <==> CanonicalInc(a).Some?
    ensures IncOperand(a).Ok? ==> IncOperand(a).value == Encoding(|CanonicalInc(a).value|, CanonicalInc(a).value)
  {
    match a
    case ArgRegister(r) => IncRegisterMatchesZ80(r);
    case _ =>
  }

  lemma IncRegisterMatchesZ80(r: Register)
    requires r != IXH && r != IXL && r != IYH
    ensures IncOperand(ArgRegister(r)).Ok? <==> CanonicalInc(ArgRegister(r)).Some?
    ensures IncOperand(ArgRegister(r)).Ok? ==>
      IncOperand(ArgRegister(r)).value == Encoding(|CanonicalInc(ArgRegister(r)).value|, CanonicalInc(ArgRegister(r)).value)
  {
    if Reg8Code(r).Some? {
      IncReg8MatchesZ80(r);
    } else if Reg16Code(r).Some? {
      IncReg16MatchesZ80(r);
    } else if IndexFamily(r).Some? {
      IncIndexMatchesZ80(r);
    } else {
      IncBadRegisters(r);
    }
  }

  lemma IncIndexMatchesZ80(r: Register)
    requires IndexFamily(r).Some? && r != IXH && r != IXL && r != IYH
    ensures CanonicalInc(ArgRegister(r)).Some?
    ensures IncOperand(ArgRegister(r)) == Ok(Encoding(2, CanonicalInc(ArgRegister(r)).value))
  {
    if r == IX {
      assert CanonicalInc(ArgRegister(r)) == Some([0xDD, 0x23]);
    } else if r == IY {
      assert CanonicalInc(ArgRegister(r)) == Some([0xFD, 0x23]);
    } else {
      assert CanonicalInc(ArgRegister(r)) == Some([0xFD, 0x2C]);
    }
  }

  lemma IncReg8MatchesZ80(r: Register)
    requires Reg8Code(r).Some?
    ensures IncOperand(ArgRegister(r)) == Ok(Encoding(1, [4 + 8 * Reg8Code(r).value]))
  {
  }

  lemma IncReg16MatchesZ80(r: Register)
    requires Reg16Code(r).Some?
    ensures IncOperand(ArgRegister(r)) == Ok(Encoding(1, [3 + 16 * Reg16Code(r).value]))
  {
  }

  /** Where the switch departs from the Z80: IXH is given IXL's opcode and
      so collides with IYH, which is given IYL's. */
  lemma IncHighHalvesCollide()
    ensures IncOperand(ArgRegister(IXH)) == Ok(Encoding(2, [0xDD, 0x2C]))
    ensures IncOperand(ArgRegister(IYH)) == Ok(Encoding(2, [0xDD, 0x2C]))
    ensures CanonicalInc(ArgRegister(IXH)) == Some([0xDD, 0x24])
    ensures CanonicalInc(ArgRegister(IYH)) == Some([0xFD, 0x24])
  {
  }

  /** IXL is given the IY prefix, not the one INST_PREFIX_ gives it. */
  lemma IncLowIxPrefix()
    ensures IncOperand(ArgRegister(IXL)) == Ok(Encoding(2, [0xFD, 0x2C]))
    ensures IndexPrefix(IXL) == 0xDD
    ensures CanonicalInc(ArgRegister(IXL)) == Some([0xDD, 0x2C])
  {
  }

  /** `inc (hl)` reports two bytes but writes only the one-byte opcode. */
  lemma IncIndirectLength()
    ensures IncOperand(ArgIndirect(IndirectRegister(HL))) == Ok(Encoding(2, [0x34]))
    ensures CanonicalInc(ArgIndirect(IndirectRegister(HL))) == Some([0x34])
  {
  }

  /** The registers `inc` refuses. */
  lemma IncBadRegisters(r: Register)
    ensures IncOperand(ArgRegister(r)).Err? <==> r in {F, I, R, AF, PC, AF'}
    ensures IncOperand(ArgRegister(r)).Err? ==> IncOperand(ArgRegister(r)).error == Arg0BadReg
  {
  }

  /** Since `parse_arg` produces only registers and conditions, what `inc`
      encodes from text is always a register: its indirect and indexed cases
      cannot be reached, and a condition is the wrong operand type. */
  lemma IncFromTextIsRegister(s: string)
    ensures Inc(Some(s)).Ok? ==> ArgsOf(s).Ok? && ArgsOf(s).value[0].ArgRegister?
    ensures ArgsOf(s).Ok? && |ArgsOf(s).value| == 1 && ArgsOf(s).value[0].ArgCondition? ==>
      Inc(Some(s)) == Err(Arg0Type)
  {
    ArgsAreRegistersOrConditions(s);
    if ArgsOf(s).Ok? && |ArgsOf(s).value| >= 1 {
      assert ArgsOf(s).value[0] in ArgsOf(s).value;
    }
  }

  // ------------------------------------------------------- get_inst_parser

  /** The instruction parsers get_inst_parser knows. */
  datatype InstParser = NopParser | IncParser | RetnParser

  function Mnemonic(p: InstParser): string {
    match p
    case NopParser => "nop"
    case IncParser => "inc"
    case RetnParser => "retn"
  }

  /** A mnemonic as the four-character buffer holds it: padded with NULs. */
  function MnemonicBuffer(m: string): (buf: string)
    requires |m| <= MAX_MNEMONIC_SIZE
    ensures |buf| == MAX_MNEMONIC_SIZE && buf[..|m|] == m
    ensures forall j | |m| <= j < MAX_MNEMONIC_SIZE :: buf[j] == '\0'
  {
    m + seq(MAX_MNEMONIC_SIZE - |m|, _ => '\0')
  }

  /** get_inst_parser: the parser whose mnemonic fills the buffer, if any. */
  function GetInstParser(mstr: string): (p: Option<InstParser>)
    requires |mstr| == MAX_MNEMONIC_SIZE
    ensures p.Some? ==> mstr == MnemonicBuffer(Mnemonic(p.value))
  {
    if mstr == MnemonicBuffer("nop") then Some(NopParser)
    else if mstr == MnemonicBuffer("inc") then Some(IncParser)
    else if mstr == MnemonicBuffer("retn") then Some(RetnParser)
    else None
  }

  /** Every known mnemonic finds its parser. */
  lemma GetInstParserFinds(p: InstParser)
    ensures GetInstParser(MnemonicBuffer(Mnemonic(p))) == Some(p)
  {
    var nop, inc, retn := MnemonicBuffer("nop"), MnemonicBuffer("inc"), MnemonicBuffer("retn");
    assert nop[0] == 'n' && inc[0] == 'i' && retn[0] == 'r';
  }

  /** Running the parser found for a mnemonic on an instruction's operand
      text. */
  function Encode(p: InstParser, arg: Option<string>): (r: Result<Encoding, InstError>)
    ensures p != IncParser ==> (r.Ok? <==> arg.None?) && (r.Err? ==> r.error == TooManyArgs)
    ensures p == IncParser && arg.None? ==> r == Err(TooFewArgs)
    ensures r.Ok? ==> 1 <= |r.value.bytes| <= r.value.length <= 3
  {
    match p
    case NopParser => Nop(arg)
    case IncParser => Inc(arg)
    case RetnParser => Retn(arg)
  }
}
