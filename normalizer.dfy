/** Line normalization (`normalize_line`, src/assembler.c).

    The C routine walks a source line once, copying characters into a buffer
    as long as the line: string literals verbatim, everything else with runs
    of blanks collapsed to one space and leading and trailing blanks dropped,
    stopping at a `;` outside a literal. A line with nothing left is no line.

    `Step` is one iteration of that loop on the loop's variables, `Run` is the
    loop over a whole text, and `NormalizeLine` is the loop itself over a
    character array, proved to compute `Normalize`. The lemmas describe what
    `Normalize` does: when it drops a line, that comments are cut, that
    literals are copied, that the output fits the buffer, and that normalizing
    a normalized line changes nothing. */
module Normalizer {
  import opened Common

  /** The variables of the loop in `normalize_line`; `stopped` is the `break`
      at a comment and `out` is `data[0..di]`. */
  datatype Scan = Scan(
    slashes: nat,
    inString: bool,
    spacePending: bool,
    hasContent: bool,
    stopped: bool,
    out: string)

  const Start: Scan := Scan(0, false, false, false, false, [])

  /** The single space written before a character when blanks preceded it and
      something was already written. */
  function Gap(st: Scan): string {
    if st.spacePending && st.hasContent then " " else ""
  }

  /** One iteration of the loop, on character `c`. The backslash count is
      updated before the quote test, so a quote always sees a count of zero. */
  function Step(st: Scan, c: char): Scan {
    if st.stopped then st
    else
      var slashes := if c == '\\' then st.slashes + 1 else 0;
      var quote := c == '"' && slashes % 2 == 0;
      if st.inString then
        st.(slashes := slashes, inString := !quote, out := st.out + [c])
      else if c == ';' then
        st.(slashes := slashes, stopped := true)
      else if IsBlank(c) then
        st.(slashes := slashes, inString := quote, spacePending := true)
      else
        st.(slashes := slashes, inString := quote, spacePending := false, hasContent := true,
            out := st.out + Gap(st) + [c])
  }

  /** The loop run over `s`, from state `st`. */
  function Feed(st: Scan, s: string): Scan
    decreases |s|
  {
    if s == [] then st else Step(Feed(st, s[..|s| - 1]), s[|s| - 1])
  }

  function Run(s: string): Scan {
    Feed(Start, s)
  }

  /** The normalized line, or `None` when `normalize_line` returns NULL. */
  function Normalize(s: string): Option<string> {
    var st := Run(s);
    if st.hasContent then Some(st.out) else None
  }

  /** `normalize_line` on a buffer of `|source|` characters. */
  method NormalizeLine(source: string) returns (line: Option<string>)
    ensures line == Normalize(source)
  {
    var data := new char[|source|];
    var si, di, slashes := 0, 0, 0;
    var hasContent, spacePending, inString := false, false, false;
    ghost var st := Start;
    while si < |source|
      invariant 0 <= si <= |source| && di <= data.Length
      invariant st == Run(source[..si])
      invariant st == Scan(slashes, inString, spacePending, hasContent, false, data[..di])
    {
      var c := source[si];
      RunSnoc(source, si);
      RunLength(source[..si + 1]);
      ghost var next := Step(st, c);
      if c == '\\' {
        slashes := slashes + 1;
      } else {
        slashes := 0;
      }
      if inString {
        if c == '"' && slashes % 2 == 0 {
          inString := false;
        }
        di := Put(data, di, c);
      } else {
        if c == ';' {
          CommentDiscardsRest(source[..si], source[si + 1..]);
          assert source[..si] + [';'] + source[si + 1..] == source;
          break;
        }
        if c == '"' && slashes % 2 == 0 {
          inString := true;
        }
        if c == '\t' || c == ' ' {
          spacePending := true;
        } else {
          if spacePending {
            if hasContent {
              di := Put(data, di, ' ');
            }
            spacePending := false;
          }
          hasContent := true;
          di := Put(data, di, c);
        }
      }
      si := si + 1;
      st := next;
    }
    if si == |source| {
      assert source[..si] == source;
    }
    if !hasContent {
      return None;
    }
    return Some(data[..di]);
  }

  /** `data[di++] = c`. */
  method Put(data: array<char>, di: nat, c: char) returns (di': nat)
    requires di < data.Length
    modifies data
    ensures di' == di + 1 && data[..di'] == old(data[..di]) + [c]
  {
    data[di] := c;
    di' := di + 1;
    assert data[..di'] == data[..di] + [c];
  }

  // ------------------------------------------------------------------ lemmas

  lemma RunSnoc(s: string, i: nat)
    requires i < |s|
    ensures Run(s[..i + 1]) == Step(Run(s[..i]), s[i])
  {
    assert s[..i + 1][..i] == s[..i];
  }

  lemma {:induction false} FeedAppend(st: Scan, a: string, b: string)
    ensures Feed(st, a + b) == Feed(Feed(st, a), b)
    decreases |b|
  {
    if b == [] {
      assert a + b == a;
    } else {
      assert (a + b)[..|a + b| - 1] == a + b[..|b| - 1];
      FeedAppend(st, a, b[..|b| - 1]);
    }
  }

  lemma {:induction false} FeedStopped(st: Scan, t: string)
    requires st.stopped
    ensures Feed(st, t) == st
    decreases |t|
  {
    if t != [] {
      FeedStopped(st, t[..|t| - 1]);
    }
  }

  /** A `;` outside a literal ends the line: whatever follows it is
      discarded. */
  lemma CommentDiscardsRest(p: string, t: string)
    requires !Run(p).inString
    ensures Normalize(p + [';'] + t) == Normalize(p)
    ensures Run(p + [';'] + t).out == Run(p).out
  {
    FeedAppend(Start, p, [';']);
    assert [';'][..0] == [];
    FeedAppend(Start, p + [';'], t);
    FeedStopped(Run(p + [';']), t);
  }

  /** The output never outgrows the input; a pending space that will be
      written also has room. This is why a buffer of `length` characters is
      enough. */
  lemma {:induction false} RunLength(s: string)
    ensures |Run(s).out| + |Gap(Run(s))| <= |s|
    decreases |s|
  {
    if s != [] {
      RunLength(s[..|s| - 1]);
    }
  }

  /** Blanks leave nothing written and only a pending space. */
  lemma {:induction false} BlankRun(s: string)
    requires AllBlank(s)
    ensures Run(s) == Scan(0, false, s != [], false, false, [])
    decreases |s|
  {
    if s != [] {
      BlankRun(s[..|s| - 1]);
    }
  }

  lemma {:induction false} HasContentStays(st: Scan, t: string)
    requires st.hasContent
    ensures Feed(st, t).hasContent
    decreases |t|
  {
    if t != [] {
      HasContentStays(st, t[..|t| - 1]);
    }
  }

  /** The first character after the leading blanks decides: a comment
      stops the scan with nothing written, anything else is content. */
  lemma AfterBlanks(s: string, k: nat)
    requires k < |s| && AllBlank(s[..k]) && !IsBlank(s[k])
    ensures Run(s).hasContent <==> s[k] != ';'
  {
    var p, t := s[..k + 1], s[k + 1..];
    assert Run(p) == Step(Run(s[..k]), s[k]) by {
      RunSnoc(s, k);
    }
    BlankRun(s[..k]);
    assert Run(s) == Feed(Run(p), t) by {
      assert p + t == s;
      FeedAppend(Start, p, t);
    }
    if s[k] == ';' {
      FeedStopped(Run(p), t);
    } else {
      HasContentStays(Run(p), t);
    }
  }

  /** `normalize_line` gives no line exactly when the line is blank up to its
      end or up to a comment. */
  lemma NormalizeBlankIff(s: string)
    ensures Normalize(s) == None <==>
      var k := LeadingBlanks(s);
      k == |s| || s[k] == ';'
  {
    var k := LeadingBlanks(s);
    if k == |s| {
      assert !Run(s).hasContent by {
        assert s[..k] == s;
        BlankRun(s);
      }
    } else {
      AfterBlanks(s, k);
    }
  }

  /** Text inside a literal that contains no quote is copied as it is. */
  lemma {:induction false} InStringCopies(st: Scan, m: string)
    requires st.inString && !st.stopped
    requires forall i | 0 <= i < |m| :: m[i] != '"'
    ensures Feed(st, m).out == st.out + m
    ensures Feed(st, m).inString && !Feed(st, m).stopped
    decreases |m|
  {
    if m == [] {
      assert st.out + m == st.out;
    } else {
      InStringCopies(st, m[..|m| - 1]);
      assert st.out + m[..|m| - 1] + [m[|m| - 1]] == st.out + m;
    }
  }

  /** A string literal at a point outside any literal reaches the output
      unchanged (preceded by one space when blanks came before it). */
  lemma QuotedTextKept(p: string, m: string)
    requires !Run(p).inString && !Run(p).stopped
    requires forall i | 0 <= i < |m| :: m[i] != '"'
    ensures Run(p + ['"'] + m + ['"']).out == Run(p).out + Gap(Run(p)) + ['"'] + m + ['"']
    ensures !Run(p + ['"'] + m + ['"']).inString && Run(p + ['"'] + m + ['"']).hasContent
    ensures !Run(p + ['"'] + m + ['"']).stopped
  {
    var st := Run(p);
    FeedAppend(Start, p, ['"']);
    assert ['"'][..0] == [];
    var st1 := Run(p + ['"']);
    assert st1.out == st.out + Gap(st) + ['"'] && st1.inString && !st1.stopped;
    FeedAppend(Start, p + ['"'], m);
    InStringCopies(st1, m);
    HasContentStays(st1, m);
    FeedAppend(Start, p + ['"'] + m, ['"']);
  }

  /** The normalizer treats every quote as a delimiter, so a backslash-escaped
      quote ends a literal and the blanks after it are collapsed (unlike
      `parse_string`, which keeps it inside): `"m\"  c` becomes `"m\" c`. */
  lemma EscapedQuoteEndsLiteral(p: string, m: string, c: char)
    requires !Run(p).inString && !Run(p).stopped
    requires forall i | 0 <= i < |m| :: m[i] != '"'
    requires !IsBlank(c) && c != ';'
    ensures var lit := p + ['"'] + m + ['\\', '"'];
      Run(lit + [' ', ' ', c]).out == Run(p).out + Gap(Run(p)) + ['"'] + m + ['\\', '"', ' ', c]
  {
    var m' := m + ['\\'];
    assert forall i | 0 <= i < |m'| :: m'[i] != '"';
    QuotedTextKept(p, m');
    var lit := p + ['"'] + m + ['\\', '"'];
    assert p + ['"'] + m' + ['"'] == lit;
    var st := Run(lit);
    assert Run(lit + [' ', ' ', c]) == Step(Step(Step(st, ' '), ' '), c) by {
      FeedAppend(Start, lit, [' ', ' ', c]);
      FeedThree(st, ' ', ' ', c);
    }
    BlanksThenChar(st, c);
    assert st.out + [' ', c] == Run(p).out + Gap(Run(p)) + ['"'] + m + ['\\', '"', ' ', c];
  }

  /** Two blanks then a word character, outside a literal, emit one space. */
  lemma BlanksThenChar(st: Scan, c: char)
    requires !st.inString && !st.stopped && st.hasContent
    requires !IsBlank(c) && c != ';'
    ensures Step(Step(Step(st, ' '), ' '), c).out == st.out + [' ', c]
  {
    var st2 := Step(Step(st, ' '), ' ');
    assert st2.out == st.out && st2.spacePending && st2.hasContent && !st2.inString && !st2.stopped;
  }

  lemma FeedThree(st: Scan, a: char, b: char, c: char)
    ensures Feed(st, [a, b, c]) == Step(Step(Step(st, a), b), c)
  {
    assert [a, b, c][..2] == [a, b];
    assert [a, b][..1] == [a];
    assert [a][..0] == [];
    assert Feed(st, [a]) == Step(st, a);
    assert Feed(st, [a, b]) == Step(Step(st, a), b);
  }

  // ------------------------------------------ blanks collapse between words

  predicate NoBlank(w: string) {
    forall j | 0 <= j < |w| :: !IsBlank(w[j])
  }

  /** The words of `s`: its maximal runs of characters other than blanks, in
      order. */
  function Words(s: string): (ws: seq<string>)
    ensures forall i | 0 <= i < |ws| :: ws[i] != [] && NoBlank(ws[i])
    ensures s != [] && !IsBlank(s[|s| - 1]) ==> ws != []
    decreases |s|
  {
    if s == [] then []
    else
      var w := Words(s[..|s| - 1]);
      var c := s[|s| - 1];
      if IsBlank(c) then w
      else if |s| == 1 || IsBlank(s[|s| - 2]) then w + [[c]]
      else
        assert s[..|s| - 1][|s| - 2] == s[|s| - 2];
        w[..|w| - 1] + [w[|w| - 1] + [c]]
  }

  /** Words joined by single spaces. */
  function JoinWords(ws: seq<string>): string
    decreases |ws|
  {
    if ws == [] then [] else if |ws| == 1 then ws[0]
    else JoinWords(ws[..|ws| - 1]) + " " + ws[|ws| - 1]
  }

  /** The text of a line before its first `;`. */
  function Code(s: string): string {
    s[..FindFirst(s, {';'})]
  }

  lemma JoinAppend(ws: seq<string>, w: string)
    ensures JoinWords(ws + [w]) == if ws == [] then w else JoinWords(ws) + " " + w
  {
    assert (ws + [w])[..|ws|] == ws;
  }

  lemma JoinExtend(init: seq<string>, last: string, c: char)
    ensures JoinWords(init + [last + [c]]) == JoinWords(init + [last]) + [c]
  {
    JoinAppend(init, last + [c]);
    JoinAppend(init, last);
    if init != [] {
      var a := JoinWords(init);
      assert a + " " + (last + [c]) == (a + " " + last) + [c];
    }
  }

  /** Over a text with no quote and no `;`, the scan has written the words so
      far joined by single spaces; a space is pending exactly after a blank,
      and there is content exactly once a word has begun. */
  lemma {:induction false} RunWords(s: string)
    requires forall i | 0 <= i < |s| :: s[i] != '"' && s[i] != ';'
    ensures !Run(s).inString && !Run(s).stopped
    ensures Run(s).out == JoinWords(Words(s))
    ensures Run(s).hasContent == (Words(s) != [])
    ensures Run(s).spacePending == (s != [] && IsBlank(s[|s| - 1]))
    decreases |s|
  {
    if s != [] {
      var p, c := s[..|s| - 1], s[|s| - 1];
      RunWords(p);
      var w := Words(p);
      if !IsBlank(c) {
        if |s| == 1 || IsBlank(s[|s| - 2]) {
          assert |s| > 1 ==> p[|p| - 1] == s[|s| - 2];
          JoinAppend(w, [c]);
        } else {
          assert p[|p| - 1] == s[|s| - 2];
          assert w == w[..|w| - 1] + [w[|w| - 1]];
          JoinExtend(w[..|w| - 1], w[|w| - 1], c);
        }
      }
    }
  }

  /** On a line without quotes, blanks collapse: the normalized line is the
      words before the first `;` joined by single spaces, and there is no line
      when there are no words. */
  lemma NormalizeQuoteFree(s: string)
    requires forall i | 0 <= i < |s| :: s[i] != '"'
    ensures Normalize(s) == if Words(Code(s)) == [] then None else Some(JoinWords(Words(Code(s))))
  {
    var k := FindFirst(s, {';'});
    var p := s[..k];
    RunWords(p);
    if k < |s| {
      assert s == p + [';'] + s[k + 1..];
      CommentDiscardsRest(p, s[k + 1..]);
    } else {
      assert p == s;
    }
  }

  /** Words joined by single spaces contain no tab, no two blanks in a row,
      and no blank at either end. */
  lemma {:induction false} JoinWordsShape(ws: seq<string>)
    requires forall i | 0 <= i < |ws| :: ws[i] != [] && NoBlank(ws[i])
    ensures JoinWords(ws) == [] <==> ws == []
    ensures forall j | 0 <= j < |JoinWords(ws)| :: JoinWords(ws)[j] != '\t'
    ensures forall j | 0 <= j < |JoinWords(ws)| - 1 ::
      !IsBlank(JoinWords(ws)[j]) || !IsBlank(JoinWords(ws)[j + 1])
    ensures JoinWords(ws) != [] ==>
      !IsBlank(JoinWords(ws)[0]) && !IsBlank(JoinWords(ws)[|JoinWords(ws)| - 1])
    decreases |ws|
  {
    if |ws| > 1 {
      var a, w := JoinWords(ws[..|ws| - 1]), ws[|ws| - 1];
      JoinWordsShape(ws[..|ws| - 1]);
      var t := a + " " + w;
      assert JoinWords(ws) == t;
      forall j | 0 <= j < |t| - 1
        ensures !IsBlank(t[j]) || !IsBlank(t[j + 1])
      {
        if j < |a| - 1 {
          assert t[j] == a[j] && t[j + 1] == a[j + 1];
        } else if j == |a| - 1 {
          assert t[j] == a[|a| - 1];
        } else if j == |a| {
          assert t[j + 1] == w[0];
        } else {
          assert t[j] == w[j - |a| - 1] && t[j + 1] == w[j - |a|];
        }
      }
      forall j | 0 <= j < |t|
        ensures t[j] != '\t'
      {
        if j < |a| {
          assert t[j] == a[j];
        } else if j > |a| {
          assert t[j] == w[j - |a| - 1];
        }
      }
    }
  }

  /** A normalized line without quotes is collapsed: no tab, no two blanks in
      a row, and no blank at either end. */
  lemma QuoteFreeCollapsed(s: string)
    requires forall i | 0 <= i < |s| :: s[i] != '"'
    requires Normalize(s).Some?
    ensures var t := Normalize(s).value;
      t != [] && !IsBlank(t[0]) && !IsBlank(t[|t| - 1])
      && (forall j | 0 <= j < |t| :: t[j] != '\t')
      && (forall j | 0 <= j < |t| - 1 :: !IsBlank(t[j]) || !IsBlank(t[j + 1]))
  {
    NormalizeQuoteFree(s);
    JoinWordsShape(Words(Code(s)));
  }

  /** A word is its own only word. */
  lemma {:induction false} WordsOfWord(s: string)
    requires s != [] && NoBlank(s)
    ensures Words(s) == [s]
    decreases |s|
  {
    if |s| > 1 {
      var p, c := s[..|s| - 1], s[|s| - 1];
      NoBlankPrefix(s);
      WordsOfWord(p);
      WordsExtend(s, p, c);
    } else {
      assert Words(s) == [] + [[s[0]]];
      assert s == [s[0]];
    }
  }

  lemma NoBlankPrefix(s: string)
    requires s != [] && NoBlank(s)
    ensures NoBlank(s[..|s| - 1])
  {
    var p := s[..|s| - 1];
    forall j | 0 <= j < |p|
      ensures !IsBlank(p[j])
    {
      assert p[j] == s[j];
    }
  }

  lemma WordsExtend(s: string, p: string, c: char)
    requires |s| > 1 && NoBlank(s)
    requires p == s[..|s| - 1] && c == s[|s| - 1]
    requires Words(p) == [p]
    ensures Words(s) == [s]
  {
    assert !IsBlank(c) && !IsBlank(s[|s| - 2]);
    assert Words(s) == [p + [c]];
    assert p + [c] == s;
  }

  /** A line with no blank, no quote and no `;` normalizes to itself. */
  lemma PlainLineKept(s: string)
    requires s != [] && NoBlank(s)
    requires forall i | 0 <= i < |s| :: s[i] != '"' && s[i] != ';'
    ensures Normalize(s) == Some(s)
  {
    FindFirstUnique(s, {';'}, |s|);
    assert Code(s) == s;
    WordsOfWord(s);
    NormalizeQuoteFree(s);
  }

  // ----------------------------------------------- normalized lines are fixed

  /** How a run over a line relates to a run over its own output: the same
      output and literal state, with no space ever pending and no stop. */
  predicate Replays(st: Scan, st2: Scan) {
    st2.out == st.out && st2.inString == st.inString && st2.hasContent == st.hasContent
    && !st2.spacePending && !st2.stopped
  }

  lemma ReplayStep(st: Scan, st2: Scan, c: char)
    requires Replays(st, st2)
    ensures |st.out| <= |Step(st, c).out| && Step(st, c).out[..|st.out|] == st.out
    ensures Replays(Step(st, c), Feed(st2, Step(st, c).out[|st.out|..]))
  {
    var next := Step(st, c);
    var delta := next.out[|st.out|..];
    if st.stopped || (!st.inString && (c == ';' || IsBlank(c))) {
      assert delta == [];
    } else if st.inString {
      assert delta == [c] && [c][..0] == [];
    } else if Gap(st) == "" {
      assert delta == [c] && [c][..0] == [];
    } else {
      assert delta == [' ', c] && [' ', c][..1] == [' '] && [' '][..0] == [];
    }
  }

  lemma {:induction false} RunReplays(s: string)
    ensures Replays(Run(s), Run(Run(s).out))
    decreases |s|
  {
    if s != [] {
      var p := s[..|s| - 1];
      var st := Run(p);
      RunReplays(p);
      ReplayStep(st, Run(st.out), s[|s| - 1]);
      var next := Run(s);
      assert next.out == st.out + next.out[|st.out|..];
      FeedAppend(Start, st.out, next.out[|st.out|..]);
    }
  }

  /** Normalizing a normalized line gives it back unchanged. */
  lemma NormalizeIdempotent(s: string)
    requires Normalize(s).Some?
    ensures Normalize(Normalize(s).value) == Normalize(s)
  {
    RunReplays(s);
  }

  /** A normalized line starts with a character that is not blank. */
  predicate Headed(st: Scan) {
    (st.out == [] <==> !st.hasContent)
    && (st.out != [] ==> !IsBlank(st.out[0]))
    && (st.inString ==> st.hasContent)
  }

  lemma {:induction false} RunHeaded(s: string)
    ensures Headed(Run(s))
    decreases |s|
  {
    if s != [] {
      RunHeaded(s[..|s| - 1]);
    }
  }

  lemma NormalizedHead(s: string)
    requires Normalize(s).Some?
    ensures Normalize(s).value != [] && !IsBlank(Normalize(s).value[0])
  {
    RunHeaded(s);
  }
}
