/** The value parsers for directive arguments and instruction operands
    (src/assembler/parse_util.c).

    Every parser either succeeds with a value or fails and leaves its output
    alone. The switch-and-compare parsers are functions returning an `Option`
    (`None` is "returned false, `*result` untouched"). The accumulator and
    scanning loops are methods that take the caller's current `*result` and
    return it unchanged on failure; each is proved equal to a specification
    function, and the lemmas below speak about those. */
module ParseUtil {
  import opened Common
  import opened Lines
  import opened InstArgs

  const MAX_REGION_SIZE: nat := 32
  const INVALID_SIZE_CODE: u8 := 0x8

  /** The characters that end an element of a byte list. */
  const BYTE_SEPARATORS: set<char> := {' ', ','}

  // ---------------------------------------------------------------- parse_bool

  /** `parse_bool`: exactly the six spellings, case-sensitively. */
  function ParseBool(arg: string): (r: Option<bool>)
    ensures r == Some(true) <==> arg == "1" || arg == "on" || arg == "true"
    ensures r == Some(false) <==> arg == "0" || arg == "off" || arg == "false"
  {
    if |arg| == 1 then
      if arg[0] == '0' || arg[0] == '1' then
        assert arg == [arg[0]];
        Some(arg[0] == '1')
      else None
    else if |arg| == 2 then (if arg == "on" then Some(true) else None)
    else if |arg| == 3 then (if arg == "off" then Some(false) else None)
    else if |arg| == 4 then (if arg == "true" then Some(true) else None)
    else if |arg| == 5 then (if arg == "false" then Some(false) else None)
    else None
  }

  // ------------------------------------------------------------ parse_uint32_t

  /** What `parse_uint32_t` accepts: a non-empty run of decimal digits, or `$`
      and a non-empty run of lower-case hex digits, whose value fits in 32 bits. */
  function ParsedUint32(arg: string): Option<u32> {
    if |arg| == 0 then None
    else if arg[0] == '$' then
      var h := arg[1..];
      if |h| > 0 && AllDigits(h, 16) && Value(h, 16) <= UINT32_MAX then Some(Value(h, 16)) else None
    else if AllDigits(arg, 10) && Value(arg, 10) <= UINT32_MAX then Some(Value(arg, 10))
    else None
  }

  /** The accumulator loop shared by `parse_uint32_t` (both radices) and
      `dparse_rom_size`: reads `digits` left to right and gives up at the
      first character that is no digit or as soon as the running value
      passes `bound`. */
  method ReadDigits(digits: string, base: Base, bound: nat) returns (ok: bool, value: nat)
    ensures ok == (AllDigits(digits, base) && Value(digits, base) <= bound)
    ensures ok ==> value == Value(digits, base)
  {
    value := 0;
    var p := 0;
    while p < |digits|
      invariant 0 <= p <= |digits|
      invariant AllDigits(digits[..p], base)
      invariant value == Value(digits[..p], base) <= bound
    {
      var c := digits[p];
      assert digits[..p + 1] == digits[..p] + [c];
      if '0' <= c <= '9' {
        value := value * base + (c as int - '0' as int);
      } else if base == 16 && 'a' <= c <= 'f' {
        value := value * base + 0xA + (c as int - 'a' as int);
      } else {
        return false, value;
      }
      ValueSnoc(digits[..p], c, base);
      if value > bound {
        if AllDigits(digits, base) {
          ValuePrefix(digits, base, p + 1);
        }
        return false, value;
      }
      p := p + 1;
    }
    assert digits[..p] == digits;
    return true, value;
  }

  /** `parse_uint32_t`. */
  method ParseUint32(arg: string, result: u32) returns (ok: bool, result': u32)
    ensures ok == ParsedUint32(arg).Some?
    ensures result' == if ok then ParsedUint32(arg).value else result
  {
    if |arg| == 0 {
      return false, result;
    }
    var value;
    if arg[0] == '$' {
      if |arg| == 1 {
        return false, result;
      }
      ok, value := ReadDigits(arg[1..], 16, UINT32_MAX);
    } else {
      ok, value := ReadDigits(arg, 10, UINT32_MAX);
    }
    result' := if ok then value else result;
  }

  /** A decimal numeral reads back as its value. */
  lemma DecimalRoundTrip(n: u32)
    ensures ParsedUint32(Numeral(n, 10)) == Some(n)
  {
    var s := Numeral(n, 10);
    assert IsDigit(s[0], 10);
  }

  /** `$` and a lower-case hex numeral read back as its value. */
  lemma HexRoundTrip(n: u32)
    ensures ParsedUint32("$" + Numeral(n, 16)) == Some(n)
  {
    assert ("$" + Numeral(n, 16))[1..] == Numeral(n, 16);
  }

  /** Upper-case hex digits are refused. */
  lemma UpperHexRejected(h: string, i: nat)
    requires i < |h| && 'A' <= h[i] <= 'F'
    ensures ParsedUint32("$" + h) == None
  {
    assert ("$" + h)[1..] == h;
    assert !IsDigit(h[i], 16);
  }

  /** Once a prefix of decimal digits is over 2^32 - 1, nothing that follows
      can rescue the parse. */
  lemma {:induction false} DecimalOverflowFails(p: string, t: string)
    requires p != [] && AllDigits(p, 10) && Value(p, 10) > UINT32_MAX
    ensures ParsedUint32(p + t) == None
  {
    var s := p + t;
    assert s[0] == p[0] && IsDigit(p[0], 10);
    if AllDigits(s, 10) {
      ValuePrefix(s, 10, |p|);
      assert s[..|p|] == p;
    }
  }

  // -------------------------------------------------------------- parse_string

  /** The number of backslashes that end `s`. */
  function TrailingBackslashes(s: string): nat
    decreases |s|
  {
    if s == [] || s[|s| - 1] != '\\' then 0 else 1 + TrailingBackslashes(s[..|s| - 1])
  }

  /** Position `i` of a quoted argument holds a quote that is not preceded by
      an odd run of backslashes, so it closes the string. */
  predicate ClosesAt(arg: string, i: nat)
    requires 1 <= i < |arg|
  {
    arg[i] == '"' && TrailingBackslashes(arg[1..i]) % 2 == 0
  }

  /** What `parse_string` accepts: a quote, then characters none of which
      closes the string, then a closing quote as the last character; the
      result is the inner text as written (escapes are not decoded). */
  function ParsedString(arg: string): Option<string> {
    if |arg| < 2 || arg[0] != '"' || arg[|arg| - 1] != '"' then None
    else if ClosesAt(arg, |arg| - 1) && forall i | 1 <= i < |arg| - 1 :: !ClosesAt(arg, i) then
      Some(arg[1..|arg| - 1])
    else None
  }

  /** `parse_string`: scans for the first closing quote while counting
      backslashes; the string must end there. */
  method ParseString(arg: string, result: string, length: nat) returns (ok: bool, result': string, length': nat)
    ensures ok == ParsedString(arg).Some?
    ensures ok ==> result' == ParsedString(arg).value && length' == |result'| == |arg| - 2
    ensures !ok ==> result' == result && length' == length
  {
    if |arg| < 2 || arg[0] != '"' || arg[|arg| - 1] != '"' {
      return false, result, length;
    }
    var i, slashes := 1, 0;
    while i < |arg|
      invariant 1 <= i <= |arg|
      invariant slashes == TrailingBackslashes(arg[1..i])
      invariant forall j | 1 <= j < i :: !ClosesAt(arg, j)
    {
      if arg[i] == '"' && slashes % 2 == 0 {
        break;
      }
      assert arg[1..i + 1][..i - 1] == arg[1..i];
      if arg[i] == '\\' {
        slashes := slashes + 1;
      } else {
        slashes := 0;
      }
      i := i + 1;
    }
    if i != |arg| - 1 {
      // junk after the closing quote, or no closing quote at all
      if i < |arg| - 1 {
        assert ClosesAt(arg, i);
      }
      return false, result, length;
    }
    return true, arg[1..|arg| - 1], |arg| - 2;
  }

  /** Quoting a text without quotes and without a dangling backslash gives
      an argument that reads back as that text. */
  lemma QuotedRoundTrip(x: string)
    requires forall i | 0 <= i < |x| :: x[i] != '"'
    requires TrailingBackslashes(x) % 2 == 0
    ensures ParsedString("\"" + x + "\"") == Some(x)
  {
    var arg := "\"" + x + "\"";
    assert arg[1..|arg| - 1] == x;
    forall i | 1 <= i < |arg| - 1
      ensures !ClosesAt(arg, i)
    {
      assert arg[i] == x[i - 1];
    }
  }

  /** A quote stops a run of trailing backslashes: what ends the text after
      it is counted from the quote on. */
  lemma {:induction false} QuoteStopsBackslashes(p: string, q: string)
    ensures TrailingBackslashes(p + ['"'] + q) == TrailingBackslashes(q)
    decreases |q|
  {
    var s := p + ['"'] + q;
    if q != [] && q[|q| - 1] == '\\' {
      assert s[..|s| - 1] == p + ['"'] + q[..|q| - 1];
      QuoteStopsBackslashes(p, q[..|q| - 1]);
    }
  }

  /** A quote after an odd run of backslashes is escaped: it stays inside the
      string, as do the backslashes, and the string closes at the next
      unescaped quote. */
  lemma EscapedQuoteKept(x: string, y: string)
    requires forall i | 0 <= i < |x| :: x[i] != '"'
    requires forall i | 0 <= i < |y| :: y[i] != '"'
    requires TrailingBackslashes(x) % 2 == 1
    requires TrailingBackslashes(y) % 2 == 0
    ensures ParsedString("\"" + x + "\"" + y + "\"") == Some(x + "\"" + y)
  {
    var arg := "\"" + x + "\"" + y + "\"";
    assert ClosesAt(arg, |arg| - 1) by {
      assert arg[1..|arg| - 1] == x + ['"'] + y;
      QuoteStopsBackslashes(x, y);
    }
    forall i | 1 <= i < |arg| - 1
      ensures !ClosesAt(arg, i)
    {
      InnerQuoteEscaped(arg, x, y, i);
    }
    assert arg[1..|arg| - 1] == x + "\"" + y;
  }

  /** No position inside `"x"y"` closes it, given the escaped middle quote. */
  lemma InnerQuoteEscaped(arg: string, x: string, y: string, i: nat)
    requires forall j | 0 <= j < |x| :: x[j] != '"'
    requires forall j | 0 <= j < |y| :: y[j] != '"'
    requires TrailingBackslashes(x) % 2 == 1
    requires arg == "\"" + x + "\"" + y + "\""
    requires 1 <= i < |arg| - 1
    ensures !ClosesAt(arg, i)
  {
    if i <= |x| {
      assert arg[i] == x[i - 1];
    } else if i == |x| + 1 {
      assert arg[1..i] == x;
    } else {
      assert arg[i] == y[i - |x| - 2];
    }
  }

  /** A string whose closing quote follows an odd run of backslashes is
      refused: that quote is escaped, so the string never closes. */
  lemma EscapedEndRejected(arg: string)
    requires |arg| >= 2
    requires TrailingBackslashes(arg[1..|arg| - 1]) % 2 == 1
    ensures ParsedString(arg) == None
  {
  }

  // --------------------------------------------------------------- parse_bytes

  /** The rest of a byte list, element by element: an element runs to the
      next space or comma and must read as an integer no greater than 255; a
      comma followed by a space is one separator. */
  function ParsedBytesFrom(s: string): Option<seq<u8>>
    decreases |s|
  {
    if s == [] then Some([])
    else
      var k := FindFirst(s, BYTE_SEPARATORS);
      match ParsedUint32(s[..k])
      case None => None
      case Some(v) =>
        if v > UINT8_MAX then None
        else
          match ParsedBytesFrom(RestAfter(s, k))
          case None => None
          case Some(bs) => Some([v as u8] + bs)
  }

  /** What follows the element that ends at `k`: nothing at the end of the
      text, else the text after a comma-and-space or after one separator. */
  function RestAfter(s: string, k: nat): (rest: string)
    requires k <= |s|
    ensures |rest| < |s| || s == []
  {
    if k < |s| - 1 && s[k] == ',' && s[k + 1] == ' ' then s[k + 2..]
    else if k >= |s| then []
    else s[k + 1..]
  }

  /** What `parse_bytes` accepts: a non-empty byte list. */
  function ParsedBytes(arg: string): Option<seq<u8>> {
    if |arg| == 0 then None else ParsedBytesFrom(arg)
  }

  function Prepend(xs: seq<u8>, r: Option<seq<u8>>): Option<seq<u8>> {
    match r
    case None => None
    case Some(ys) => Some(xs + ys)
  }

  /** `parse_bytes`: grows the output one element at a time. */
  method ParseBytes(arg: string, result: seq<u8>, length: nat) returns (ok: bool, result': seq<u8>, length': nat)
    ensures ok == ParsedBytes(arg).Some?
    ensures ok ==> result' == ParsedBytes(arg).value && length' == |result'|
    ensures !ok ==> result' == result && length' == length
  {
    if |arg| == 0 {
      return false, result, length;
    }
    var bytes: seq<u8> := [];
    var p := 0;
    assert arg[p..] == arg;
    assert Prepend(bytes, ParsedBytesFrom(arg)) == ParsedBytesFrom(arg) by {
      match ParsedBytesFrom(arg)
      case None =>
      case Some(ys) => assert bytes + ys == ys;
    }
    while p < |arg|
      invariant 0 <= p <= |arg|
      invariant ParsedBytes(arg) == Prepend(bytes, ParsedBytesFrom(arg[p..]))
      decreases |arg| - p
    {
      var start := p;
      p := ElementEnd(arg, start);
      var okv, temp := ParseUint32(arg[start..p], 0);
      if !okv || temp > UINT8_MAX {
        ByteRejected(arg, start, p, bytes);
        return false, result, length;
      }
      var next;
      if p < |arg| - 1 && arg[p] == ',' && arg[p + 1] == ' ' {
        next := p + 2;
      } else if p >= |arg| {
        next := p;
      } else {
        next := p + 1;
      }
      ByteAccepted(arg, start, p, next, bytes, temp);
      bytes := bytes + [temp as u8];
      if next == p {
        break;
      }
      p := next;
    }
    assert arg[p..] == [];
    return true, bytes, |bytes|;
  }

  /** The loop's step at an element that does not read as a byte. */
  lemma ByteRejected(arg: string, start: nat, p: nat, bytes: seq<u8>)
    requires start < |arg| && start <= p <= |arg|
    requires FindFirst(arg[start..], BYTE_SEPARATORS) == p - start
    requires ParsedBytes(arg) == Prepend(bytes, ParsedBytesFrom(arg[start..]))
    requires ParsedUint32(arg[start..p]).None? || ParsedUint32(arg[start..p]).value > UINT8_MAX
    ensures ParsedBytes(arg) == None
  {
    var s := arg[start..];
    assert s[..p - start] == arg[start..p];
    ElementRejected(s, p - start);
  }

  /** The loop's step at an element that reads as the byte `v`, with the
      next element starting at `next`. */
  lemma ByteAccepted(arg: string, start: nat, p: nat, next: nat, bytes: seq<u8>, v: u32)
    requires start < |arg| && start <= p <= |arg|
    requires FindFirst(arg[start..], BYTE_SEPARATORS) == p - start
    requires ParsedBytes(arg) == Prepend(bytes, ParsedBytesFrom(arg[start..]))
    requires ParsedUint32(arg[start..p]) == Some(v) && v <= UINT8_MAX
    requires next == if p < |arg| - 1 && arg[p] == ',' && arg[p + 1] == ' ' then p + 2
                     else if p >= |arg| then p else p + 1
    ensures next <= |arg|
    ensures ParsedBytes(arg) == Prepend(bytes + [v as u8], ParsedBytesFrom(arg[next..]))
  {
    var s := arg[start..];
    assert ParsedBytesFrom(s) == Prepend([v as u8], ParsedBytesFrom(arg[next..])) by {
      assert s[..p - start] == arg[start..p];
      RestAfterSlice(arg, start, p, next);
      ElementAccepted(s, p - start, v);
    }
    PrependStep(bytes, v as u8, ParsedBytesFrom(arg[next..]));
  }

  /** What follows an element, measured in the whole text. */
  lemma RestAfterSlice(arg: string, start: nat, p: nat, next: nat)
    requires start <= p <= |arg|
    requires next == if p < |arg| - 1 && arg[p] == ',' && arg[p + 1] == ' ' then p + 2
                     else if p >= |arg| then p else p + 1
    ensures next <= |arg| && RestAfter(arg[start..], p - start) == arg[next..]
  {
    var s, k := arg[start..], p - start;
    if k < |s| - 1 && s[k] == ',' && s[k + 1] == ' ' {
      assert s[k + 2..] == arg[p + 2..];
    } else if k >= |s| {
      assert arg[p..] == [];
    } else {
      assert s[k + 1..] == arg[p + 1..];
    }
  }

  /** The scan for the end of one element of a byte list. */
  method ElementEnd(arg: string, start: nat) returns (p: nat)
    requires start <= |arg|
    ensures start <= p <= |arg|
    ensures FindFirst(arg[start..], BYTE_SEPARATORS) == p - start
  {
    p := start;
    while p < |arg| && arg[p] != ' ' && arg[p] != ','
      invariant start <= p <= |arg|
      invariant forall j | 0 <= j < p - start :: arg[start..][j] !in BYTE_SEPARATORS
    {
      p := p + 1;
    }
    FindFirstUnique(arg[start..], BYTE_SEPARATORS, p - start);
  }

  /** The head element of a byte list fails to read, and so does the list. */
  lemma ElementRejected(s: string, k: nat)
    requires s != [] && FindFirst(s, BYTE_SEPARATORS) == k
    requires ParsedUint32(s[..k]).None? || ParsedUint32(s[..k]).value > UINT8_MAX
    ensures ParsedBytesFrom(s) == None
  {
  }

  /** The head element of a byte list reads as a byte, which heads the list. */
  lemma ElementAccepted(s: string, k: nat, v: u32)
    requires s != [] && FindFirst(s, BYTE_SEPARATORS) == k
    requires ParsedUint32(s[..k]) == Some(v) && v <= UINT8_MAX
    ensures ParsedBytesFrom(s) == Prepend([v as u8], ParsedBytesFrom(RestAfter(s, k)))
  {
  }

  lemma PrependStep(xs: seq<u8>, v: u8, r: Option<seq<u8>>)
    ensures Prepend(xs, Prepend([v], r)) == Prepend(xs + [v], r)
  {
    if r.Some? {
      assert xs + ([v] + r.value) == (xs + [v]) + r.value;
    }
  }

  /** Byte values written as decimal numerals joined by one separator. */
  function JoinBytes(bs: seq<u8>, sep: string): (r: string)
    requires |bs| >= 1
    ensures |r| >= 1 && IsDigit(r[0], 10)
    decreases |bs|
  {
    var d := Numeral(bs[0], 10);
    assert IsDigit(d[0], 10);
    if |bs| == 1 then d else d + sep + JoinBytes(bs[1..], sep)
  }

  /** Every separator form the parser knows (a space, a comma, a comma and a
      space) reads back the byte list it joined. */
  lemma {:induction false} BytesRoundTrip(bs: seq<u8>, sep: string)
    requires |bs| >= 1
    requires sep == " " || sep == "," || sep == ", "
    ensures ParsedBytes(JoinBytes(bs, sep)) == Some(bs)
    decreases |bs|
  {
    var d := Numeral(bs[0], 10);
    var s := JoinBytes(bs, sep);
    if |bs| == 1 {
      assert ParsedBytesFrom(s) == Some([bs[0]]) by {
        assert s == d;
        LastElement(d, bs[0]);
      }
      assert [bs[0]] == bs;
    } else {
      var rest := JoinBytes(bs[1..], sep);
      assert ParsedBytesFrom(s) == Prepend([bs[0]], ParsedBytesFrom(rest)) by {
        assert s == d + sep + rest;
        ElementThen(d, bs[0], sep, rest, s);
      }
      assert ParsedBytesFrom(rest) == Some(bs[1..]) by {
        BytesRoundTrip(bs[1..], sep);
      }
      assert [bs[0]] + bs[1..] == bs;
    }
  }

  /** A byte's numeral alone is the list of that byte. */
  lemma LastElement(d: string, b: u8)
    requires d == Numeral(b, 10)
    ensures ParsedBytesFrom(d) == Some([b])
  {
    assert d[..|d|] == d;
    assert d == d + [];
    FirstElement(d, [], d);
    DecimalRoundTrip(b);
    ElementAccepted(d, |d|, b);
    assert [b] + [] == [b];
  }

  /** After a numeral, one separator form is skipped whole, unless a comma is
      followed by a space, which makes the two one separator. */
  lemma SeparatorSkipped(d: string, sep: string, rest: string)
    requires sep == " " || sep == "," || sep == ", "
    requires sep == "," && rest != [] ==> rest[0] != ' '
    ensures RestAfter(d + sep + rest, |d|) == rest
  {
    var s := d + sep + rest;
    if sep == ", " {
      assert s[|d| + 2..] == rest;
    } else {
      assert s[|d| + 1..] == rest;
      assert rest != [] ==> s[|d| + 1] == rest[0];
    }
  }

  /** A numeral followed by nothing or by a separator is the first element. */
  lemma FirstElement(d: string, t: string, s: string)
    requires AllDigits(d, 10) && s == d + t
    requires t == [] || t[0] in BYTE_SEPARATORS
    ensures FindFirst(s, BYTE_SEPARATORS) == |d|
  {
    forall j | 0 <= j < |d|
      ensures s[j] !in BYTE_SEPARATORS
    {
      assert s[j] == d[j] && IsDigit(d[j], 10);
    }
    FindFirstUnique(s, BYTE_SEPARATORS, |d|);
  }

  lemma PrependAll(xs: seq<u8>, ys: seq<u8>, r: Option<seq<u8>>)
    ensures Prepend(xs, Prepend(ys, r)) == Prepend(xs + ys, r)
  {
    if r.Some? {
      assert xs + (ys + r.value) == (xs + ys) + r.value;
    }
  }

  /** A list of bytes that parse, then a separator `c`: the rest of the text
      is read on after them, whatever it holds. */
  lemma {:induction false} JoinThen(bs: seq<u8>, sep: string, c: string, t: string)
    requires |bs| >= 1 && (sep == " " || sep == "," || sep == ", ") && (c == " " || c == "," || c == ", ")
    requires c == "," && t != [] ==> t[0] != ' '
    ensures ParsedBytesFrom(JoinBytes(bs, sep) + c + t) == Prepend(bs, ParsedBytesFrom(t))
    decreases |bs|
  {
    var d := Numeral(bs[0], 10);
    if |bs| == 1 {
      assert JoinBytes(bs, sep) == d;
      ElementThen(d, bs[0], c, t, JoinBytes(bs, sep) + c + t);
      assert [bs[0]] == bs;
    } else {
      JoinStep(bs, sep, c, t);
      JoinThen(bs[1..], sep, c, t);
      PrependHead(bs, ParsedBytesFrom(t));
    }
  }

  /** One step of `JoinThen`: the head byte, then the rest of the list. */
  lemma JoinStep(bs: seq<u8>, sep: string, c: string, t: string)
    requires |bs| >= 2 && (sep == " " || sep == "," || sep == ", ")
    ensures ParsedBytesFrom(JoinBytes(bs, sep) + c + t)
      == Prepend([bs[0]], ParsedBytesFrom(JoinBytes(bs[1..], sep) + c + t))
  {
    var d, j := Numeral(bs[0], 10), JoinBytes(bs[1..], sep);
    JoinHead(bs, sep, c, t, d, j);
    ElementThen(d, bs[0], sep, j + c + t, JoinBytes(bs, sep) + c + t);
  }

  /** A joined list of two or more bytes is its first numeral, the
      separator, and the join of the others, which starts with a digit. */
  lemma JoinHead(bs: seq<u8>, sep: string, c: string, t: string, d: string, j: string)
    requires |bs| >= 2
    requires d == Numeral(bs[0], 10) && j == JoinBytes(bs[1..], sep)
    ensures JoinBytes(bs, sep) + c + t == d + sep + (j + c + t)
    ensures IsDigit((j + c + t)[0], 10)
  {
    JoinUnfold(bs, sep);
    Regroup(d, sep, j, c, t);
  }

  lemma JoinUnfold(bs: seq<u8>, sep: string)
    requires |bs| >= 2
    ensures JoinBytes(bs, sep) == Numeral(bs[0], 10) + sep + JoinBytes(bs[1..], sep)
  {
  }

  lemma Regroup(a: string, b: string, x: string, c: string, t: string)
    ensures a + b + x + c + t == a + b + (x + c + t)
    ensures x != [] ==> (x + c + t)[0] == x[0]
  {
  }

  lemma PrependHead(bs: seq<u8>, r: Option<seq<u8>>)
    requires |bs| >= 1
    ensures Prepend([bs[0]], Prepend(bs[1..], r)) == Prepend(bs, r)
  {
    PrependAll([bs[0]], bs[1..], r);
    assert [bs[0]] + bs[1..] == bs;
  }

  /** A byte's numeral, then a separator: the rest is read on after it. */
  lemma ElementThen(d: string, b: u8, sep: string, rest: string, s: string)
    requires d == Numeral(b, 10) && (sep == " " || sep == "," || sep == ", ")
    requires sep == "," && rest != [] ==> rest[0] != ' '
    requires s == d + sep + rest
    ensures ParsedBytesFrom(s) == Prepend([b], ParsedBytesFrom(rest))
  {
    assert s[..|d|] == d;
    assert FindFirst(s, BYTE_SEPARATORS) == |d| by {
      assert s == d + (sep + rest);
      FirstElement(d, sep + rest, s);
    }
    DecimalRoundTrip(b);
    SeparatorSkipped(d, sep, rest);
    ElementAccepted(s, |d|, b);
  }

  /** The text of a list: the given bytes joined by `sep`, then `c` before
      the element `x` (just `x` when there are no bytes before it). */
  function ListThen(bs: seq<u8>, sep: string, c: string, x: string): string {
    if bs == [] then x else JoinBytes(bs, sep) + c + x
  }

  /** An element read after the bytes before it decides the whole list. */
  lemma ListThenParses(bs: seq<u8>, sep: string, c: string, x: string)
    requires (sep == " " || sep == "," || sep == ", ") && (c == " " || c == "," || c == ", ")
    requires c == "," && x != [] ==> x[0] != ' '
    ensures ParsedBytesFrom(ListThen(bs, sep, c, x)) == Prepend(bs, ParsedBytesFrom(x))
  {
    if bs == [] {
      match ParsedBytesFrom(x)
      case None =>
      case Some(ys) => assert [] + ys == ys;
    } else {
      JoinThen(bs, sep, c, x);
    }
  }

  /** One element over 255, wherever it stands, fails the whole list. */
  lemma LargeElementRejected(bs: seq<u8>, sep: string, c: string, n: u32, t: string)
    requires (sep == " " || sep == "," || sep == ", ") && (c == " " || c == "," || c == ", ")
    requires n > UINT8_MAX
    requires t == [] || t[0] in BYTE_SEPARATORS
    ensures ParsedBytes(ListThen(bs, sep, c, Numeral(n, 10) + t)) == None
  {
    var d := Numeral(n, 10);
    var x := d + t;
    assert ParsedBytesFrom(x) == None by {
      DecimalRoundTrip(n);
      FirstElement(d, t, x);
      assert x[..|d|] == d;
      ElementRejected(x, |d|);
    }
    ListThenParses(bs, sep, c, x);
  }

  /** An empty element fails the whole list: a list that starts with a
      separator, or a separator right after another (a comma and a space
      being one separator). */
  lemma EmptyElementRejected(bs: seq<u8>, sep: string, c: string, t: string)
    requires (sep == " " || sep == "," || sep == ", ") && (c == " " || c == "," || c == ", ")
    requires t != [] && t[0] in BYTE_SEPARATORS
    requires c == "," ==> t[0] == ','
    ensures ParsedBytes(ListThen(bs, sep, c, t)) == None
  {
    assert FindFirst(t, BYTE_SEPARATORS) == 0;
    ListThenParses(bs, sep, c, t);
  }

  /** One trailing separator is accepted and adds nothing. */
  lemma TrailingSeparatorAccepted(bs: seq<u8>, sep: string, c: string)
    requires |bs| >= 1 && (sep == " " || sep == "," || sep == ", ") && (c == " " || c == "," || c == ", ")
    ensures ParsedBytes(JoinBytes(bs, sep) + c) == Some(bs)
  {
    JoinThen(bs, sep, c, []);
    assert JoinBytes(bs, sep) + c + [] == JoinBytes(bs, sep) + c;
    assert bs + [] == bs;
  }

  // ---------------------------------------------- parse_register, parse_condition

  /** The one-letter registers. */
  function Register1(c: char): (r: Option<Register>)
    ensures r.Some? ==> [c] == RegisterName(r.value)
  {
    match c
    case 'a' => Some(A) case 'f' => Some(F) case 'b' => Some(B) case 'c' => Some(C)
    case 'd' => Some(D) case 'e' => Some(E) case 'h' => Some(H) case 'l' => Some(L)
    case 'i' => Some(I) case 'r' => Some(R)
    case _ => None
  }

  /** The two-letter registers. */
  function Register2(buf: string): (r: Option<Register>)
    ensures r.Some? ==> buf == RegisterName(r.value)
  {
    if buf == "af" then Some(AF) else if buf == "bc" then Some(BC)
    else if buf == "de" then Some(DE) else if buf == "hl" then Some(HL)
    else if buf == "ix" then Some(IX) else if buf == "iy" then Some(IY)
    else if buf == "pc" then Some(PC) else if buf == "sp" then Some(SP)
    else None
  }

  /** The three-character registers, the shadow `af'` among them. */
  function Register3(buf: string): (r: Option<Register>)
    ensures r.Some? ==> buf == RegisterName(r.value)
  {
    if buf == "af'" then Some(AF') else if buf == "ixh" then Some(IXH)
    else if buf == "ixl" then Some(IXL) else if buf == "iyh" then Some(IYH)
    else if buf == "iyl" then Some(IYL)
    else None
  }

  /** `parse_register`: the lower-cased argument, one to three characters
      long, is compared against the register spellings. */
  function ParseRegister(arg: string): (r: Option<Register>)
    ensures r.Some? ==> Lower(arg) == RegisterName(r.value)
  {
    if |arg| < 1 || |arg| > 3 then None
    else
      var buf := Lower(arg);
      if |buf| == 1 then
        assert buf == [buf[0]];
        Register1(buf[0])
      else if |buf| == 2 then Register2(buf)
      else Register3(buf)
  }

  /** Every spelling of a register, in any mix of cases, is recognised. */
  lemma RegisterNameAccepted(arg: string, reg: Register)
    requires Lower(arg) == RegisterName(reg)
    ensures ParseRegister(arg) == Some(reg)
  {
    var buf := Lower(arg);
    if |buf| == 1 {
      assert buf == [buf[0]];
      Register1Named(reg);
    } else if |buf| == 2 {
      Register2Named(reg);
    } else {
      Register3Named(reg);
    }
  }

  lemma Register1Named(reg: Register)
    requires |RegisterName(reg)| == 1
    ensures Register1(RegisterName(reg)[0]) == Some(reg)
  {
  }

  lemma Register2Named(reg: Register)
    requires |RegisterName(reg)| == 2
    ensures Register2(RegisterName(reg)) == Some(reg)
  {
  }

  lemma Register3Named(reg: Register)
    requires |RegisterName(reg)| == 3
    ensures Register3(RegisterName(reg)) == Some(reg)
  {
  }

  /** The one-letter conditions; `n` is taken for `CondN`. */
  function Condition1(c: char): (r: Option<Condition>)
    ensures r.Some? ==> [c] == ConditionName(r.value) && r.value != CondZ
  {
    match c
    case 'n' => Some(CondN) case 'c' => Some(CondC) case 'p' => Some(CondP) case 'm' => Some(CondM)
    case _ => None
  }

  /** The two-letter conditions. */
  function Condition2(buf: string): (r: Option<Condition>)
    ensures r.Some? ==> buf == ConditionName(r.value) && r.value != CondZ
  {
    if buf == "nz" then Some(CondNZ) else if buf == "nc" then Some(CondNC)
    else if buf == "po" then Some(CondPO) else if buf == "pe" then Some(CondPE)
    else None
  }

  /** `parse_condition`: the lower-cased argument, one or two characters long,
      is compared against the condition spellings. */
  function ParseCondition(arg: string): (r: Option<Condition>)
    ensures r.Some? ==> Lower(arg) == ConditionName(r.value) && r.value != CondZ
  {
    if |arg| < 1 || |arg| > 2 then None
    else
      var buf := Lower(arg);
      if |buf| == 1 then
        assert buf == [buf[0]];
        Condition1(buf[0])
      else Condition2(buf)
  }

  /** Every condition spelling except that of `CondZ` is recognised. */
  lemma ConditionNameAccepted(arg: string, cond: Condition)
    requires Lower(arg) == ConditionName(cond) && cond != CondZ
    ensures ParseCondition(arg) == Some(cond)
  {
    var buf := Lower(arg);
    if |buf| == 1 {
      assert buf == [buf[0]];
    }
  }

  /** The zero condition cannot be written: `z` is not accepted. */
  lemma ZeroConditionRejected()
    ensures ParseCondition("z") == None && ParseCondition("Z") == None
  {
    assert Lower("z") == "z" && Lower("Z") == "z";
  }

  // ------------------------------------------------------- directive arguments

  /** The argument of a directive line: the text that starts `offset`
      characters into the line (`DIRECTIVE_OFFSET(line, directive) + 1`, a
      macro that is not part of this model, hence a parameter). When the
      offset is past the end the C size is negative, which every parser
      refuses just as it refuses an empty argument. */
  function Argument(line: AsmLine, offset: nat): string {
    if offset <= |line.data| then line.data[offset..] else ""
  }

  /** `dparse_bool`: the boolean spelled from the offset to the end of the
      line. */
  function DParseBool(line: AsmLine, offset: nat): (r: Option<bool>)
    ensures offset > |line.data| ==> r == None
    ensures offset <= |line.data| ==>
      (r == Some(true) <==> line.data[offset..] in {"1", "on", "true"})
      && (r == Some(false) <==> line.data[offset..] in {"0", "off", "false"})
  {
    ParseBool(Argument(line, offset))
  }

  /** `dparse_uint32_t`: the integer spelled from the offset to the end of
      the line. */
  function DParseUint32(line: AsmLine, offset: nat): (r: Option<u32>)
    ensures offset > |line.data| ==> r == None
    ensures offset <= |line.data| ==> r == ParsedUint32(line.data[offset..])
  {
    ParsedUint32(Argument(line, offset))
  }

  /** `dparse_uint16_t`: a 32-bit value that also fits in 16 bits. */
  function DParseUint16(line: AsmLine, offset: nat): (r: Option<u16>)
    ensures r.Some? <==> DParseUint32(line, offset).Some? && DParseUint32(line, offset).value <= UINT16_MAX
    ensures r.Some? ==> r.value == DParseUint32(line, offset).value
  {
    match DParseUint32(line, offset)
    case Some(v) => if v <= UINT16_MAX then Some(v) else None
    case None => None
  }

  /** `dparse_uint8_t`: a 32-bit value that also fits in 8 bits. */
  function DParseUint8(line: AsmLine, offset: nat): (r: Option<u8>)
    ensures r.Some? <==> DParseUint32(line, offset).Some? && DParseUint32(line, offset).value <= UINT8_MAX
    ensures r.Some? ==> r.value == DParseUint32(line, offset).value
  {
    match DParseUint32(line, offset)
    case Some(v) => if v <= UINT8_MAX then Some(v) else None
    case None => None
  }

  /** The multiplier a size unit letter stands for, or 0 for no unit. */
  function UnitFactor(c: char): nat {
    if c == 'K' || c == 'k' then 0x400 else if c == 'M' || c == 'm' then 0x10_0000 else 0
  }

  /** What `dparse_rom_size` accepts: `"<digits> <K|M>B"` with the unit and
      the `B` in either case and at most 65535 before the unit. The product is
      computed in 32-bit unsigned arithmetic and wraps. */
  function RomSizeValue(arg: string): Option<u32> {
    if |arg| < 6 || arg[0] != '"' || arg[|arg| - 1] != '"' then None
    else if arg[|arg| - 2] != 'B' && arg[|arg| - 2] != 'b' then None
    else
      var factor := UnitFactor(arg[|arg| - 3]);
      var digits := arg[1..|arg| - 4];
      if factor == 0 || arg[|arg| - 4] != ' ' then None
      else if !AllDigits(digits, 10) || Value(digits, 10) > UINT16_MAX then None
      else Some((Value(digits, 10) * factor) % 0x1_0000_0000)
  }

  function RomSizeOf(line: AsmLine, offset: nat): Option<u32> {
    RomSizeValue(Argument(line, offset))
  }

  /** `dparse_rom_size`: checks the quotes, the `B` and the unit from the
      end, then accumulates the digits, failing once they pass 65535. */
  method DParseRomSize(line: AsmLine, offset: nat, result: u32) returns (ok: bool, result': u32)
    ensures ok == RomSizeOf(line, offset).Some?
    ensures result' == if ok then RomSizeOf(line, offset).value else result
  {
    var arg := Argument(line, offset);
    if |arg| < 6 {
      return false, result;
    }
    var a, end := 0, |arg| - 1;
    if arg[a] != '"' || arg[end] != '"' {
      return false, result;
    }
    a, end := a + 1, end - 1;
    if arg[end] != 'B' && arg[end] != 'b' {
      return false, result;
    }
    end := end - 1;
    var factor: nat;
    if arg[end] == 'K' || arg[end] == 'k' {
      factor := 0x400;
    } else if arg[end] == 'M' || arg[end] == 'm' {
      factor := 0x10_0000;
    } else {
      return false, result;
    }
    end := end - 1;
    if arg[end] != ' ' {
      return false, result;
    }
    var value;
    ok, value := ReadDigits(arg[1..end], 10, UINT16_MAX);
    result' := if ok then (value * factor) % 0x1_0000_0000 else result;
  }

  /** A ROM size string built from a numeral, a unit letter and a `B` in
      either case reads back as the numeral times the unit, reduced modulo
      2^32 as the C multiplication is. */
  lemma RomSizeRoundTrip(n: u16, unit: char, b: char)
    requires UnitFactor(unit) != 0 && (b == 'B' || b == 'b')
    ensures RomSizeValue("\"" + Numeral(n, 10) + [' ', unit, b, '"']) == Some((n * UnitFactor(unit)) % 0x1_0000_0000)
  {
    var d := Numeral(n, 10);
    var arg := "\"" + d + [' ', unit, b, '"'];
    assert arg[1..|arg| - 4] == d;
  }

  /** Kilobyte sizes never wrap: 65535 KB is below 2^32. */
  lemma KilobytesRoundTrip(n: u16)
    ensures RomSizeValue("\"" + Numeral(n, 10) + " KB\"") == Some(n * 0x400)
  {
    RomSizeRoundTrip(n, 'K', 'B');
    assert " KB\"" == [' ', 'K', 'B', '"'];
  }

  /** Megabyte sizes below 4096 MB do not wrap. */
  lemma MegabytesRoundTrip(n: u16)
    requires n < 4096
    ensures RomSizeValue("\"" + Numeral(n, 10) + " mb\"") == Some(n * 0x10_0000)
  {
    RomSizeRoundTrip(n, 'm', 'b');
    assert " mb\"" == [' ', 'm', 'b', '"'];
  }

  /** 4096 MB is 2^32 bytes, which wraps to a size of 0. */
  lemma FourGigabytesWrap()
    ensures RomSizeValue("\"4096 MB\"") == Some(0)
  {
    RomSizeRoundTrip(4096, 'M', 'B');
    assert Numeral(4096, 10) == "4096";
    assert "\"4096 MB\"" == "\"" + "4096" + [' ', 'M', 'B', '"'];
  }

  /** The text of a C string: everything before the first NUL. */
  function CString(s: string): string {
    s[..FindFirst(s, {'\0'})]
  }

  /** `dparse_region_string`: a quoted region name of 1 to 31 characters,
      mapped by `regionStringToCode` (the foreign `region_string_to_code`);
      a code of 0 means the name is unknown. */
  function DParseRegionString(line: AsmLine, offset: nat, regionStringToCode: string -> u8): (r: Option<u8>)
    ensures r.Some? ==>
      var arg := Argument(line, offset);
      3 <= |arg| <= MAX_REGION_SIZE + 1 && arg[0] == '"' && arg[|arg| - 1] == '"'
      && r.value != 0 && r.value == regionStringToCode(CString(arg[1..|arg| - 1]))
    ensures r.None? ==>
      var arg := Argument(line, offset);
      !(3 <= |arg| <= MAX_REGION_SIZE + 1 && arg[0] == '"' && arg[|arg| - 1] == '"')
      || regionStringToCode(CString(arg[1..|arg| - 1])) == 0
  {
    var arg := Argument(line, offset);
    if |arg| <= 2 || |arg| >= MAX_REGION_SIZE + 2 then None
    else if arg[0] != '"' || arg[|arg| - 1] != '"' then None
    else
      var code := regionStringToCode(CString(arg[1..|arg| - 1]));
      if code != 0 then Some(code) else None
  }

  /** `dparse_size_code`: a byte count, given as a plain integer or else as a
      ROM size string, mapped by `sizeBytesToCode` (the foreign
      `size_bytes_to_code`); `INVALID_SIZE_CODE` means no such size. */
  function DParseSizeCode(line: AsmLine, offset: nat, sizeBytesToCode: nat -> u8): (r: Option<u8>)
    ensures r.Some? ==> r.value != INVALID_SIZE_CODE
    ensures DParseUint32(line, offset).Some? ==>
      r == if sizeBytesToCode(DParseUint32(line, offset).value) != INVALID_SIZE_CODE
           then Some(sizeBytesToCode(DParseUint32(line, offset).value)) else None
    ensures DParseUint32(line, offset).None? && RomSizeOf(line, offset).Some? ==>
      r == if sizeBytesToCode(RomSizeOf(line, offset).value) != INVALID_SIZE_CODE
           then Some(sizeBytesToCode(RomSizeOf(line, offset).value)) else None
    ensures DParseUint32(line, offset).None? && RomSizeOf(line, offset).None? ==> r == None
  {
    var bytes :=
      match DParseUint32(line, offset)
      case Some(v) => Some(v)
      case None => RomSizeOf(line, offset);
    match bytes
    case None => None
    case Some(b) =>
      var code := sizeBytesToCode(b);
      if code != INVALID_SIZE_CODE then Some(code) else None
  }
}
