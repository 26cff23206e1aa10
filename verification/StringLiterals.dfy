/**
 Literal extraction: the loop returns the bodies of exactly the closed literals of the text,
 in order; extraction undoes printing; and the literals of a call's arguments are the
 file's own literals between the call's parentheses.
 */
module StringLiterals {
  import opened JsLexer
  import opened Lexemes

  /** `${` occurs in `s`. */
  predicate Interpolates(s: string) {
    exists i :: 0 <= i < |s| - 1 && s[i] == '$' && s[i + 1] == '{'
  }

  /** A backtick body with interpolation has no static value. */
  predicate Resolvable(quote: char, body: string) {
    quote == '`' ==> !Interpolates(body)
  }

  function ValueOf(text: string, l: Lexeme): seq<string> {
    if l.kind.Literal? && l.closed && l.start + 1 < l.end <= |text|
       && Resolvable(l.kind.quote, text[l.start + 1..l.end - 1])
    then [text[l.start + 1..l.end - 1]]
    else []
  }

  /** The bodies of the resolvable literals among `ls`, in order. */
  function LiteralsOf(text: string, ls: seq<Lexeme>): seq<string> {
    if ls == [] then [] else ValueOf(text, ls[0]) + LiteralsOf(text, ls[1..])
  }

  /** Every literal of the list is a slice of the text that stands between two equal quotes. */
  lemma {:induction false} LiteralsAreDelimited(text: string, from: nat, ls: seq<Lexeme>, literal: string)
    requires Lexing(text, from, ls) && literal in LiteralsOf(text, ls)
    ensures exists i, j ::
              && 0 <= i < j < |text| && (text[i] == '\'' || text[i] == '"' || text[i] == '`')
              && text[j] == text[i] && literal == text[i + 1..j]
    decreases |ls|
  {
    if literal in ValueOf(text, ls[0]) {
      var i, j := ls[0].start, ls[0].end - 1;
      assert text[j] == text[i] && literal == text[i + 1..j];
    } else {
      LiteralsAreDelimited(text, ls[0].end, ls[1..], literal);
    }
  }

  lemma {:induction false} LiteralsOfSnoc(text: string, ls: seq<Lexeme>, n: nat)
    requires n < |ls|
    ensures LiteralsOf(text, ls[..n + 1]) == LiteralsOf(text, ls[..n]) + ValueOf(text, ls[n])
    decreases n
  {
    if n == 0 {
      assert ls[..1] == [ls[0]];
    } else {
      LiteralsOfSnoc(text, ls[1..], n - 1);
      assert ls[..n + 1][1..] == ls[1..][..n];
      assert ls[..n][1..] == ls[1..][..n - 1];
    }
  }

  /** Where the loop stands relative to the lexemes: inside number `n`, which it entered in code. */
  ghost predicate InLexeme(text: string, ls: seq<Lexeme>, n: nat, c: Config) {
    && n < |ls|
    && IsLexeme(text, ls[n])
    && ls[n].start <= c.pos < ls[n].end
    && Scan(text, Config(Code, ls[n].start), c.pos) == c
    && (c.state == Code <==> c.pos == ls[n].start)
  }

  /** One iteration either stays inside the lexeme, or leaves it: in code at its end if it is closed. */
  lemma StepInLexeme(text: string, ls: seq<Lexeme>, n: nat, c: Config)
    requires InLexeme(text, ls, n, c)
    ensures var d := Step(text, c);
            if d.pos < ls[n].end then InLexeme(text, ls, n, d) && d.state == StateIn(ls[n].kind) != Code
            else if ls[n].closed then d == Config(Code, ls[n].end)
            else d.state == StateIn(ls[n].kind) != Code
    ensures c.state != Code ==> c.state == StateIn(ls[n].kind)
  {
    var l := ls[n];
    var d := Step(text, c);
    ScanLexeme(text, l, c.pos);
    ScanThrough(text, Config(Code, l.start), c.pos, c.pos + 1);
    ScanLexeme(text, l, c.pos + 1);
    if d.pos < l.end {
      ScanThrough(text, Config(Code, l.start), c.pos, d.pos);
      ScanLexeme(text, l, d.pos);
    }
  }

  lemma EnterLexeme(text: string, ls: seq<Lexeme>, n: nat)
    requires n < |ls| && IsLexeme(text, ls[n]) && ls[n].start < ls[n].end
    ensures InLexeme(text, ls, n, Config(Code, ls[n].start))
  {
    assert Scan(text, Config(Code, ls[n].start), ls[n].start) == Config(Code, ls[n].start);
  }

  lemma FirstLexemeEntered(text: string, ls: seq<Lexeme>)
    requires Lexing(text, 0, ls)
    ensures if text == "" then ls == [] else InLexeme(text, ls, 0, Config(Code, 0))
  {
    LexemesAscend(text, 0, ls);
    if ls != [] {
      EnterLexeme(text, ls, 0);
    }
  }

  /** Past the end of lexeme `n` stands the next lexeme, in code, or the end of the text. */
  lemma NextLexemeEntered(text: string, ls: seq<Lexeme>, n: nat)
    requires Lexing(text, 0, ls) && n < |ls|
    ensures if n + 1 < |ls|
            then ls[n].closed && ls[n].end < |text| && InLexeme(text, ls, n + 1, Config(Code, ls[n].end))
            else ls[n].end == |text|
  {
    LexemesAscend(text, 0, ls);
    if n + 1 < |ls| {
      OnlyLastOpen(text, 0, ls, n);
      EnterLexeme(text, ls, n + 1);
    }
  }

  /** What a step from `prev` to `next` without a skip at `i` adds to the list. */
  function Collected(text: string, prev: State, next: State, literalStart: nat, i: nat): seq<string> {
    if InLiteral(prev) && next == Code && literalStart <= i <= |text|
       && Resolvable(Delimiter(prev), text[literalStart..i])
    then [text[literalStart..i]]
    else []
  }

  /** The loop has collected the literals of the first `n` lexemes and stands in the next one. */
  ghost predicate Extracting(
    text: string, ls: seq<Lexeme>, n: nat, c: Config, literalStart: nat, literals: seq<string>
  ) {
    && n <= |ls|
    && literals == LiteralsOf(text, ls[..n])
    && if c.pos < |text|
       then InLexeme(text, ls, n, c) && (InLiteral(c.state) ==> literalStart == ls[n].start + 1)
       else n == |ls|
  }

  /** What one iteration makes of the variables. */
  function StartAfter(text: string, c: Config, literalStart: nat): nat
    requires c.pos < |text|
  {
    var (next, skip) := Transition(text[c.pos], c.state, NextChar(text, c.pos));
    if !skip && InLiteral(next) && c.state == Code then c.pos + 1 else literalStart
  }

  function AddedBy(text: string, c: Config, literalStart: nat): seq<string>
    requires c.pos < |text|
  {
    var (next, skip) := Transition(text[c.pos], c.state, NextChar(text, c.pos));
    if skip then [] else Collected(text, c.state, next, literalStart, c.pos)
  }

  /** A step that stays in the lexeme adds nothing. */
  lemma StepWithin(text: string, ls: seq<Lexeme>, n: nat, c: Config, literalStart: nat)
    requires c.pos < |text| && InLexeme(text, ls, n, c) && Step(text, c).pos < ls[n].end
    requires InLiteral(c.state) ==> literalStart == ls[n].start + 1
    ensures var d := Step(text, c);
            && InLexeme(text, ls, n, d) && AddedBy(text, c, literalStart) == []
            && (InLiteral(d.state) ==> StartAfter(text, c, literalStart) == ls[n].start + 1)
  {
    StepInLexeme(text, ls, n, c);
  }

  /** A step that leaves the lexeme adds its value. */
  lemma StepOut(text: string, ls: seq<Lexeme>, n: nat, c: Config, literalStart: nat)
    requires c.pos < |text| && InLexeme(text, ls, n, c) && Step(text, c).pos >= ls[n].end
    requires InLiteral(c.state) ==> literalStart == ls[n].start + 1
    ensures AddedBy(text, c, literalStart) == ValueOf(text, ls[n])
    ensures var d := Step(text, c);
            if ls[n].closed then d == Config(Code, ls[n].end) else d.pos >= ls[n].end
  {
    StepInLexeme(text, ls, n, c);
    ScanLexeme(text, ls[n], c.pos);
  }

  lemma ExtractStep(
    text: string, ls: seq<Lexeme>, n: nat, c: Config, literalStart: nat, literals: seq<string>
  ) returns (m: nat)
    requires Lexing(text, 0, ls) && c.pos < |text| && Extracting(text, ls, n, c, literalStart, literals)
    ensures InLiteral(c.state) ==> literalStart <= c.pos
    ensures Extracting(text, ls, m, Step(text, c), StartAfter(text, c, literalStart),
                       literals + AddedBy(text, c, literalStart))
  {
    if Step(text, c).pos < ls[n].end {
      StepWithin(text, ls, n, c, literalStart);
      m := n;
    } else {
      StepOut(text, ls, n, c, literalStart);
      m := n + 1;
      LiteralsOfSnoc(text, ls, n);
      NextLexemeEntered(text, ls, n);
    }
  }

  method ExtractJsStringLiterals(text: string) returns (literals: seq<string>)
    ensures forall ls :: Lexing(text, 0, ls) ==> literals == LiteralsOf(text, ls)
  {
    ghost var ls := LexingExists(text, 0);
    ghost var n := 0;
    FirstLexemeEntered(text, ls);
    literals := [];
    var state, literalStart, i := Code, 0, 0;
    while i < |text|
      invariant Extracting(text, ls, n, Config(state, i), literalStart, literals)
    {
      n := ExtractStep(text, ls, n, Config(state, i), literalStart, literals);
      var prevState := state;
      var (next, skip) := Transition(text[i], state, NextChar(text, i));
      state := next;
      if skip {
        i := i + 2;
        continue;
      }
      if InLiteral(prevState) && state == Code {
        var literal := text[literalStart..i];
        if !(prevState == Backtick && Interpolates(literal)) {
          literals := literals + [literal];
        }
      }
      if InLiteral(state) && prevState == Code {
        literalStart := i + 1;
      }
      i := i + 1;
    }
    assert ls[..|ls|] == ls;
    forall ms | Lexing(text, 0, ms)
      ensures literals == LiteralsOf(text, ms)
    {
      LexingUnique(text, 0, ls, ms);
    }
  }

  // ---------------------------------------------------------------------------------------
  // Extraction undoes printing
  // ---------------------------------------------------------------------------------------

  /** A quoted literal and the code text that stands before it. */
  datatype Printed = Printed(gap: string, quote: char, body: string)

  /** No quote and no slash stands in `s[i..j]`. */
  predicate PlainRange(s: string, i: nat, j: nat)
    requires j <= |s|
  {
    forall k :: i <= k < j ==> !IsQuote(s[k]) && s[k] != '/'
  }

  /** Code text with no quote and no slash. */
  predicate PlainCode(s: string) {
    PlainRange(s, 0, |s|)
  }

  /** Every delimiter in the body is escaped, and the body does not end by escaping what follows it. */
  predicate WellEscaped(quote: char, body: string) {
    && Unescaped(body, 0, |body|)
    && forall i :: 0 <= i < |body| && body[i] == quote ==> !Unescaped(body, 0, i)
  }

  predicate Printable(p: Printed) {
    && PlainCode(p.gap) && WellEscaped(p.quote, p.body)
    && (p.quote == '\'' || p.quote == '"' || p.quote == '`')
  }

  predicate AllPrintable(ps: seq<Printed>) {
    ps == [] || (Printable(ps[0]) && AllPrintable(ps[1..]))
  }

  function Print(ps: seq<Printed>, tail: string): string {
    if ps == [] then tail
    else ps[0].gap + [ps[0].quote] + ps[0].body + [ps[0].quote] + Print(ps[1..], tail)
  }

  ghost predicate Parts(s: string, before: string, behind: string) {
    s == before + "${" + behind
  }

  /** A template, with an interpolation between two parts of its body. */
  ghost predicate IsInterpolated(p: Printed) {
    p.quote == '`' && exists before, behind :: Parts(p.body, before, behind)
  }

  ghost function StaticBody(p: Printed): seq<string> {
    if IsInterpolated(p) then [] else [p.body]
  }

  lemma InterpolatedIff(p: Printed)
    ensures IsInterpolated(p) <==> !Resolvable(p.quote, p.body)
  {
    var s := p.body;
    if i :| 0 <= i < |s| - 1 && s[i] == '$' && s[i + 1] == '{' {
      assert Parts(s, s[..i], s[i + 2..]);
    }
    if before, behind :| Parts(s, before, behind) {
      assert s[|before|] == '$' && s[|before| + 1] == '{';
    }
  }

  ghost function StaticBodies(ps: seq<Printed>): seq<string> {
    if ps == [] then [] else StaticBody(ps[0]) + StaticBodies(ps[1..])
  }

  lemma {:induction false} BackslashRunInSlice(text: string, a: nat, s: string, from: nat, i: nat)
    requires a + |s| <= |text| && text[a..a + |s|] == s && from <= i <= |s|
    ensures BackslashRun(text, a + from, a + i) == BackslashRun(s, from, i)
    decreases i
  {
    if from < i {
      assert s[i - 1] == text[a + i - 1];
      BackslashRunInSlice(text, a, s, from, i - 1);
    }
  }

  lemma PrependLexeme(text: string, l: Lexeme, rest: seq<Lexeme>)
    requires IsLexeme(text, l) && Lexing(text, l.end, rest)
    ensures Lexing(text, l.start, [l] + rest)
    ensures LiteralsOf(text, [l] + rest) == ValueOf(text, l) + LiteralsOf(text, rest)
  {
    assert ([l] + rest)[1..] == rest;
  }

  /** Code without quotes and slashes is divided into single characters, and holds no literal. */
  lemma {:induction false} PlainCodeLexing(text: string, a: nat, b: nat, rest: seq<Lexeme>) returns (ls: seq<Lexeme>)
    requires a <= b <= |text| && PlainRange(text, a, b) && Lexing(text, b, rest)
    ensures Lexing(text, a, ls) && LiteralsOf(text, ls) == LiteralsOf(text, rest)
    decreases b - a
  {
    ls := rest;
    if a < b {
      var tail := PlainCodeLexing(text, a + 1, b, rest);
      var l := Lexeme(CodeChar, a, a + 1, true);
      PrependLexeme(text, l, tail);
      ls := [l] + tail;
    }
  }

  /** A printed literal is one lexeme. */
  lemma PrintedLiteralIsLexeme(text: string, a: nat, p: Printed)
    requires Printable(p) && a + |p.body| + 2 <= |text|
    requires text[a] == p.quote == text[a + 1 + |p.body|] && text[a + 1..a + 1 + |p.body|] == p.body
    ensures IsLexeme(text, Lexeme(Literal(p.quote), a, a + 2 + |p.body|, true))
  {
    var body := p.body;
    BackslashRunInSlice(text, a + 1, body, 0, |body|);
    var l := Lexeme(Literal(p.quote), a, a + 2 + |body|, true);
    forall j | BodyOf(l) <= j < BodyEnd(l)
      ensures !ClosesAt(text, l.kind, BodyOf(l), j)
    {
      BackslashRunInSlice(text, a + 1, body, 0, j - a - 1);
      assert body[j - a - 1] == text[j];
    }
  }

  lemma Middle(x: string, y: string, z: string)
    ensures (x + y + z)[|x|..|x| + |y|] == y
  {
    assert (x + y + z)[..|x| + |y|] == x + y;
  }

  lemma PrintedParts(text: string, a: nat, p: Printed, rest: string)
    requires a <= |text| && text[a..] == p.gap + [p.quote] + p.body + [p.quote] + rest
    ensures var open, after := a + |p.gap|, a + |p.gap| + 2 + |p.body|;
            && after <= |text|
            && text[a..open] == p.gap && text[open] == p.quote
            && text[open + 1..after - 1] == p.body && text[after - 1] == p.quote
            && text[after..] == rest
  {
    var printed := p.gap + [p.quote] + p.body + [p.quote] + rest;
    forall i | 0 <= i < |printed|
      ensures text[a + i] == printed[i]
    {
      assert text[a..][i] == printed[i];
    }
    var open, after := |p.gap|, |p.gap| + 2 + |p.body|;
    assert printed == (p.gap + [p.quote]) + p.body + ([p.quote] + rest);
    Middle(p.gap + [p.quote], p.body, [p.quote] + rest);
    assert printed[..open] == p.gap && printed[after..] == rest;
    assert text[a..a + open] == printed[..open];
    assert text[a + open + 1..a + after - 1] == printed[open + 1..after - 1];
    assert text[a + after..] == printed[after..];
  }

  lemma PrintedValue(text: string, a: nat, p: Printed)
    requires a + |p.body| + 2 <= |text| && text[a + 1..a + 1 + |p.body|] == p.body
    ensures ValueOf(text, Lexeme(Literal(p.quote), a, a + 2 + |p.body|, true)) == StaticBody(p)
  {
    InterpolatedIff(p);
  }

  lemma PrependPrinted(text: string, a: nat, p: Printed, rest: seq<Lexeme>) returns (ls: seq<Lexeme>)
    requires Printable(p) && a + |p.gap| + 2 + |p.body| <= |text|
    requires var open, after := a + |p.gap|, a + |p.gap| + 2 + |p.body|;
             && text[a..open] == p.gap && text[open] == p.quote
             && text[open + 1..after - 1] == p.body && text[after - 1] == p.quote
             && Lexing(text, after, rest)
    ensures Lexing(text, a, ls)
    ensures LiteralsOf(text, ls) == StaticBody(p) + LiteralsOf(text, rest)
  {
    var open := a + |p.gap|;
    var l := Lexeme(Literal(p.quote), open, open + 2 + |p.body|, true);
    PrintedLiteralIsLexeme(text, open, p);
    PrependLexeme(text, l, rest);
    PrintedValue(text, open, p);
    assert forall k :: a <= k < open ==> text[k] == p.gap[k - a];
    ls := PlainCodeLexing(text, a, open, [l] + rest);
  }

  lemma {:induction false} PrintedLexing(text: string, a: nat, ps: seq<Printed>, tail: string) returns (ls: seq<Lexeme>)
    requires AllPrintable(ps)
    requires PlainCode(tail) && a <= |text| && text[a..] == Print(ps, tail)
    ensures Lexing(text, a, ls) && LiteralsOf(text, ls) == StaticBodies(ps)
    decreases |ps|
  {
    if ps == [] {
      assert forall k :: a <= k < |text| ==> text[k] == text[a..][k - a];
      ls := PlainCodeLexing(text, a, |text|, []);
    } else {
      var p, after := ps[0], a + |ps[0].gap| + 2 + |ps[0].body|;
      assert after <= |text| && text[after..] == Print(ps[1..], tail) by {
        PrintedParts(text, a, p, Print(ps[1..], tail));
      }
      var rest := PrintedLexing(text, after, ps[1..], tail);
      PrintedParts(text, a, p, Print(ps[1..], tail));
      ls := PrependPrinted(text, a, p, rest);
    }
  }

  /** Extracting from printed literals gives back every body, in order, less the interpolated templates. */
  lemma ExtractionUndoesPrinting(ps: seq<Printed>, tail: string, ls: seq<Lexeme>)
    requires AllPrintable(ps)
    requires PlainCode(tail) && Lexing(Print(ps, tail), 0, ls)
    ensures LiteralsOf(Print(ps, tail), ls) == StaticBodies(ps)
  {
    var text := Print(ps, tail);
    assert text[0..] == text;
    var ms := PrintedLexing(text, 0, ps, tail);
    LexingUnique(text, 0, ls, ms);
  }

  // ---------------------------------------------------------------------------------------
  // The literals of a call's arguments are literals of the file
  // ---------------------------------------------------------------------------------------

  lemma ClosesInSlice(text: string, a: nat, b: nat, kind: Kind, body: nat, j: nat)
    requires a <= b <= |text| && body <= j && j + CloseWidth(kind) <= b - a
    ensures ClosesAt(text[a..b], kind, body, j) <==> ClosesAt(text, kind, a + body, a + j)
  {
    var slice := text[a..b];
    if j < |slice| {
      assert slice[j] == text[a + j];
    }
    if j + 1 < |slice| {
      assert slice[j + 1] == text[a + j + 1];
    }
    BackslashRunInSlice(text, a, slice, body, j);
  }

  lemma KindInSlice(text: string, i: nat, a: nat, b: nat)
    requires a <= i < b < |text| && text[b] == ')'
    ensures KindAt(text[a..b], i - a) == KindAt(text, i)
  {
    assert text[a..b][i - a] == text[i];
    if i + 1 < b {
      assert text[a..b][i - a + 1] == text[i + 1];
    }
  }

  /** A closed lexeme inside a slice that ends before ')' is a lexeme of the slice. */
  lemma LexemeInSlice(text: string, l: Lexeme, a: nat, b: nat)
    requires IsLexeme(text, l) && l.closed
    requires a <= l.start && l.end <= b < |text| && text[b] == ')'
    ensures IsLexeme(text[a..b], Moved(l, a, 0))
  {
    var slice := text[a..b];
    var m := Moved(l, a, 0);
    KindInSlice(text, l.start, a, b);
    forall j | BodyOf(m) <= j <= BodyEnd(m)
      ensures ClosesAt(slice, m.kind, BodyOf(m), j) <==> ClosesAt(text, l.kind, BodyOf(l), a + j)
    {
      ClosesInSlice(text, a, b, l.kind, BodyOf(m), j);
    }
  }

  /** `ls` are closed lexemes that cover `text[at..b]`. */
  ghost predicate ClosedRun(text: string, ls: seq<Lexeme>, at: nat, b: nat)
    decreases |ls|
  {
    if ls == [] then at == b
    else
      && IsLexeme(text, ls[0]) && ls[0].closed && ls[0].start == at && ls[0].end <= b
      && ClosedRun(text, ls[1..], ls[0].end, b)
  }

  lemma {:induction false} LexingOfSlice(text: string, ls: seq<Lexeme>, a: nat, at: nat, b: nat)
    returns (ms: seq<Lexeme>)
    requires a <= at <= b < |text| && text[b] == ')' && ClosedRun(text, ls, at, b)
    ensures Lexing(text[a..b], at - a, ms) && LiteralsOf(text[a..b], ms) == LiteralsOf(text, ls)
    decreases |ls|
  {
    ms := [];
    if ls != [] {
      var l := ls[0];
      var rest := LexingOfSlice(text, ls[1..], a, l.end, b);
      LexemeInSlice(text, l, a, b);
      ValueInSlice(text, l, a, b);
      PrependLexeme(text[a..b], Moved(l, a, 0), rest);
      ms := [Moved(l, a, 0)] + rest;
    }
  }

  lemma SliceOfSlice(text: string, a: nat, b: nat, i: nat, j: nat)
    requires a <= i <= j <= b <= |text|
    ensures text[a..b][i - a..j - a] == text[i..j]
  {
    var t := text[a..b][i - a..j - a];
    assert forall k :: 0 <= k < |t| ==> t[k] == text[i..j][k];
  }

  lemma ValueInSlice(text: string, l: Lexeme, a: nat, b: nat)
    requires a <= l.start < l.end <= b <= |text|
    ensures ValueOf(text[a..b], Moved(l, a, 0)) == ValueOf(text, l)
  {
    if l.start + 1 < l.end {
      SliceOfSlice(text, a, b, l.start + 1, l.end - 1);
    }
  }

  /** The lexemes of a file from number `n` up to, not including, number `m` are a closed run. */
  lemma {:induction false} ClosedRunOfLexing(text: string, ls: seq<Lexeme>, n: nat, m: nat)
    requires Lexing(text, 0, ls) && n <= m < |ls|
    ensures ls[n].start <= ls[m].start < |text| && ClosedRun(text, ls[n..m], ls[n].start, ls[m].start)
    decreases m - n
  {
    LexemesAscend(text, 0, ls);
    if n < m {
      ClosedRunOfLexing(text, ls, n + 1, m);
      OnlyLastOpen(text, 0, ls, n);
      assert ls[n..m][1..] == ls[n + 1..m];
    }
  }

  /** The lexemes between the '(' (lexeme `n`) and the ')' (lexeme `m`) are a closed run over the text between. */
  lemma ClosedRunBetween(text: string, ls: seq<Lexeme>, n: nat, m: nat)
    requires Lexing(text, 0, ls) && n < m < |ls| && ls[n].kind == CodeChar
    ensures ls[n].start + 1 <= ls[m].start < |text|
    ensures ClosedRun(text, ls[n + 1..m], ls[n].start + 1, ls[m].start)
  {
    LexemesAscend(text, 0, ls);
    ClosedRunOfLexing(text, ls, n + 1, m);
    CodeCharIsOne(text, ls, n);
  }

  /** The literals of a closed run are those of any division of the slice that it covers. */
  lemma LiteralsOfRun(text: string, run: seq<Lexeme>, a: nat, b: nat, ms: seq<Lexeme>)
    requires a <= b < |text| && text[b] == ')' && ClosedRun(text, run, a, b) && Lexing(text[a..b], 0, ms)
    ensures LiteralsOf(text[a..b], ms) == LiteralsOf(text, run)
  {
    var found := LexingOfSlice(text, run, a, a, b);
    LexingUnique(text[a..b], 0, ms, found);
  }

  lemma CodeCharIsOne(text: string, ls: seq<Lexeme>, n: nat)
    requires Lexing(text, 0, ls) && n + 1 < |ls| && ls[n].kind == CodeChar
    ensures ls[n + 1].start == ls[n].start + 1
  {
    LexemesAscend(text, 0, ls);
    assert IsLexeme(text, ls[n]) && ls[n + 1 - 1].end == ls[n + 1].start;
  }

  /** The literals extracted from a call's argument text are the file's own literals between the two parentheses. */
  lemma ArgumentLiteralsAreFileLiterals(
    text: string, ls: seq<Lexeme>, n: nat, m: nat, a: nat, b: nat, ms: seq<Lexeme>
  )
    requires Lexing(text, 0, ls) && n < m < |ls| && ls[n].kind == CodeChar
    requires a == ls[n].start + 1 && b == ls[m].start && a <= b < |text| && text[b] == ')'
    requires Lexing(text[a..b], 0, ms)
    ensures LiteralsOf(text[a..b], ms) == LiteralsOf(text, ls[n + 1..m])
  {
    var run := ls[n + 1..m];
    ClosedRunBetween(text, ls, n, m);
    LiteralsOfRun(text, run, a, b, ms);
  }
}
