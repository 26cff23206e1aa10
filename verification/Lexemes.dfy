/**
 An independent account of where JavaScript code, literals and comments are: a division of the
 text into lexemes, each ended by the first position that may close it. A quote closes a
 literal iff an even number of backslashes stands before it. Every loop of the scanner is
 shown to agree with this division.
 */
module Lexemes {
  import opened JsLexer

  datatype Kind = CodeChar | Literal(quote: char) | LineNote | BlockNote

  /** The half-open span `[start, end)`; `closed` is false when the text ends first. */
  datatype Lexeme = Lexeme(kind: Kind, start: nat, end: nat, closed: bool)

  /** What begins at `i` when `i` is in code. */
  function KindAt(text: string, i: nat): Kind
    requires i < |text|
  {
    if text[i] == '\'' || text[i] == '"' || text[i] == '`' then Literal(text[i])
    else if text[i] == '/' && i + 1 < |text| && text[i + 1] == '/' then LineNote
    else if text[i] == '/' && i + 1 < |text| && text[i + 1] == '*' then BlockNote
    else CodeChar
  }

  /** The lexeme where position `a` has become position `b`. */
  function Moved(l: Lexeme, a: nat, b: nat): Lexeme
    requires a <= l.start && a <= l.end
  {
    l.(start := l.start - a + b, end := l.end - a + b)
  }

  function OpenWidth(kind: Kind): nat {
    if kind.LineNote? || kind.BlockNote? then 2 else 1
  }

  function CloseWidth(kind: Kind): nat {
    if kind.CodeChar? then 0 else if kind.BlockNote? then 2 else 1
  }

  /** The number of consecutive backslashes that end just before `i`, counted back to `from`. */
  function BackslashRun(text: string, from: nat, i: nat): nat
    requires from <= i <= |text|
  {
    if i == from || text[i - 1] != '\\' then 0 else 1 + BackslashRun(text, from, i - 1)
  }

  predicate Unescaped(text: string, from: nat, i: nat)
    requires from <= i <= |text|
  {
    BackslashRun(text, from, i) % 2 == 0
  }

  /** A token of this kind whose body begins at `body` may be closed at `i`. */
  predicate ClosesAt(text: string, kind: Kind, body: nat, i: nat)
    requires body <= i <= |text|
  {
    match kind
    case CodeChar => i == body
    case Literal(q) => i < |text| && text[i] == q && Unescaped(text, body, i)
    case LineNote => i < |text| && text[i] == '\n'
    case BlockNote => i + 1 < |text| && text[i] == '*' && text[i + 1] == '/'
  }

  function BodyOf(l: Lexeme): nat {
    l.start + OpenWidth(l.kind)
  }

  /** The first position that the lexeme's body no longer covers. */
  function BodyEnd(l: Lexeme): int {
    if l.closed then l.end - CloseWidth(l.kind) else l.end
  }

  ghost predicate IsLexeme(text: string, l: Lexeme) {
    && l.start < |text|
    && l.kind == KindAt(text, l.start)
    && (l.kind == CodeChar ==> l.closed)
    && BodyOf(l) <= BodyEnd(l) && l.end <= |text|
    && (if l.closed then ClosesAt(text, l.kind, BodyOf(l), BodyEnd(l)) else l.end == |text|)
    && forall j :: BodyOf(l) <= j < BodyEnd(l) ==> !ClosesAt(text, l.kind, BodyOf(l), j)
  }

  /** `ls` divides `text[from..]` into lexemes; only a lexeme that reaches the end may be open. */
  ghost predicate Lexing(text: string, from: nat, ls: seq<Lexeme>)
    decreases |ls|
  {
    if ls == [] then from == |text|
    else IsLexeme(text, ls[0]) && ls[0].start == from && Lexing(text, ls[0].end, ls[1..])
  }

  // ---------------------------------------------------------------------------------------
  // Every text has exactly one division into lexemes
  // ---------------------------------------------------------------------------------------

  lemma NextLexeme(text: string, i: nat) returns (l: Lexeme)
    requires i < |text|
    ensures IsLexeme(text, l) && l.start == i
  {
    var kind := KindAt(text, i);
    var body := i + OpenWidth(kind);
    var k := body;
    while k < |text| && !ClosesAt(text, kind, body, k)
      invariant body <= k <= |text|
      invariant kind == CodeChar ==> k == body
      invariant forall j :: body <= j < k ==> !ClosesAt(text, kind, body, j)
    {
      k := k + 1;
    }
    if k < |text| || kind == CodeChar {
      l := Lexeme(kind, i, k + CloseWidth(kind), true);
    } else {
      l := Lexeme(kind, i, |text|, false);
    }
  }

  lemma LexingExists(text: string, from: nat) returns (ls: seq<Lexeme>)
    requires from <= |text|
    ensures Lexing(text, from, ls)
    decreases |text| - from
  {
    if from == |text| {
      ls := [];
    } else {
      var l := NextLexeme(text, from);
      var rest := LexingExists(text, l.end);
      ls := [l] + rest;
      assert ls[1..] == rest;
    }
  }

  lemma LexemeUnique(text: string, l: Lexeme, m: Lexeme)
    requires IsLexeme(text, l) && IsLexeme(text, m) && l.start == m.start
    ensures l == m
  {
    assert BodyOf(l) == BodyOf(m);
  }

  lemma {:induction false} LexingUnique(text: string, from: nat, ls: seq<Lexeme>, ms: seq<Lexeme>)
    requires Lexing(text, from, ls) && Lexing(text, from, ms)
    ensures ls == ms
    decreases |ls|
  {
    if ls != [] && ms != [] {
      LexemeUnique(text, ls[0], ms[0]);
      LexingUnique(text, ls[0].end, ls[1..], ms[1..]);
      assert ls == [ls[0]] + ls[1..] && ms == [ms[0]] + ms[1..];
    }
  }

  // ---------------------------------------------------------------------------------------
  // The machine, run over one lexeme
  // ---------------------------------------------------------------------------------------

  function StateIn(kind: Kind): State
    requires kind.Literal? ==> IsQuote(kind.quote)
  {
    match kind
    case CodeChar => Code
    case Literal(q) => QuotedState(q)
    case LineNote => LineComment
    case BlockNote => BlockComment
  }

  /** Inside a body the machine keeps its state, and overshoots exactly the escaped positions. */
  lemma {:induction false} ScanBody(text: string, l: Lexeme, p: nat)
    requires IsLexeme(text, l) && l.kind != CodeChar
    requires BodyOf(l) <= p <= BodyEnd(l)
    ensures var escaped := l.kind.Literal? && !Unescaped(text, BodyOf(l), p);
            Scan(text, Config(Code, l.start), p) == Config(StateIn(l.kind), if escaped then p + 1 else p)
    decreases p
  {
    var c := Config(Code, l.start);
    if p == BodyOf(l) {
      ScanThrough(text, c, l.start + 1, p);
    } else {
      var d := Scan(text, c, p - 1);
      ScanBody(text, l, p - 1);
      ScanThrough(text, c, p - 1, p);
      assert !ClosesAt(text, l.kind, BodyOf(l), p - 1);
    }
  }

  /** The configuration of a scan begun at a lexeme's first character and stopped at `p`. */
  function Expected(text: string, l: Lexeme, p: nat): Config
    requires l.kind == CodeChar || (l.kind.Literal? ==> IsQuote(l.kind.quote))
    requires l.start <= p <= l.end <= |text|
    requires BodyOf(l) <= BodyEnd(l)
  {
    if p == l.start || (l.closed && p == l.end) then Config(Code, p)
    else if l.closed && l.kind.BlockNote? && p == l.end - 1 then Config(Code, l.end)
    else if p < BodyOf(l) then Config(StateIn(l.kind), BodyOf(l))
    else if l.kind.Literal? && !Unescaped(text, BodyOf(l), p) then Config(StateIn(l.kind), p + 1)
    else Config(StateIn(l.kind), p)
  }

  lemma ScanLexeme(text: string, l: Lexeme, p: nat)
    requires IsLexeme(text, l) && l.start <= p <= l.end
    ensures Scan(text, Config(Code, l.start), p) == Expected(text, l, p)
  {
    var c := Config(Code, l.start);
    if l.kind == CodeChar || p <= l.start {
      // one step in code, or none
    } else if p < BodyOf(l) {
      ScanThrough(text, c, l.start, p);
    } else if p <= BodyEnd(l) {
      ScanBody(text, l, p);
    } else {
      ScanBody(text, l, BodyEnd(l));
      ScanThrough(text, c, BodyEnd(l), p);
    }
  }

  // ---------------------------------------------------------------------------------------
  // The machine, run over a whole text
  // ---------------------------------------------------------------------------------------

  /**
   `p` is past the first character of a literal or comment and not past its end. The last
   character of a closed block comment is exempt: a scan asked to stop there has already
   consumed the whole of the two-character close.
   */
  predicate Within(l: Lexeme, p: nat) {
    && l.kind != CodeChar
    && l.start < p
    && (if l.closed then p < l.end else p <= l.end)
    && !(l.closed && l.kind.BlockNote? && p + 1 == l.end)
  }

  lemma {:induction false} LexemesAscend(text: string, from: nat, ls: seq<Lexeme>)
    requires Lexing(text, from, ls)
    ensures from <= |text|
    ensures forall n :: 0 <= n < |ls| ==> from <= ls[n].start < ls[n].end <= |text| && IsLexeme(text, ls[n])
    ensures forall n :: 0 < n < |ls| ==> ls[n - 1].end == ls[n].start
    ensures if ls == [] then from == |text| else ls[0].start == from && ls[|ls| - 1].end == |text|
    decreases |ls|
  {
    if ls != [] {
      var rest := ls[1..];
      LexemesAscend(text, ls[0].end, rest);
      forall n | 0 < n < |ls|
        ensures from <= ls[n].start < ls[n].end <= |text| && IsLexeme(text, ls[n])
        ensures ls[n - 1].end == ls[n].start
      {
        assert ls[n] == rest[n - 1];
        assert n > 1 ==> ls[n - 1] == rest[n - 2];
      }
    }
  }

  lemma {:induction false} ScanLandsOnLexeme(text: string, from: nat, ls: seq<Lexeme>, n: nat)
    requires Lexing(text, from, ls) && n < |ls|
    ensures from <= ls[n].start < |text| && CodeAt(text, from, ls[n].start)
    decreases n
  {
    LexemesAscend(text, from, ls);
    if n > 0 {
      ScanLandsOnLexeme(text, from, ls, n - 1);
      ScanLexeme(text, ls[n - 1], ls[n].start);
      ScanThrough(text, Config(Code, from), ls[n - 1].start, ls[n].start);
      OnlyLastOpen(text, from, ls, n - 1);
    }
  }

  lemma {:induction false} OnlyLastOpen(text: string, from: nat, ls: seq<Lexeme>, n: nat)
    requires Lexing(text, from, ls) && n + 1 < |ls|
    ensures ls[n].closed
  {
    LexemesAscend(text, from, ls);
    assert ls[n].end == ls[n + 1].start < |text|;
  }

  /** Within the span of lexeme `n`, the scan of the whole text is the scan of that lexeme. */
  lemma ScanOverLexeme(text: string, from: nat, ls: seq<Lexeme>, n: nat, p: nat)
    requires Lexing(text, from, ls) && n < |ls| && ls[n].start <= p <= ls[n].end
    ensures IsLexeme(text, ls[n]) && from <= p <= |text|
    ensures Scan(text, Config(Code, from), p) == Expected(text, ls[n], p)
  {
    LexemesAscend(text, from, ls);
    ScanLandsOnLexeme(text, from, ls, n);
    ScanLexeme(text, ls[n], p);
    ScanThrough(text, Config(Code, from), ls[n].start, p);
  }

  lemma StopInLexeme(text: string, from: nat, ls: seq<Lexeme>, n: nat, p: nat)
    requires Lexing(text, from, ls) && n < |ls| && ls[n].start <= p <= ls[n].end
    ensures p <= |text|
    ensures Scan(text, Config(Code, from), p).state != Code <==> Within(ls[n], p)
  {
    ScanOverLexeme(text, from, ls, n, p);
  }

  lemma {:induction false} CoveringLexeme(text: string, from: nat, ls: seq<Lexeme>, p: nat) returns (n: nat)
    requires Lexing(text, from, ls) && from <= p < |text|
    ensures n < |ls| && ls[n].start <= p < ls[n].end
  {
    LexemesAscend(text, from, ls);
    n := 0;
    while ls[n].end <= p
      invariant n < |ls| && ls[n].start <= p
      decreases |ls| - n
    {
      n := n + 1;
    }
  }

  /** The scan from `from` knows, at every stop, whether it is inside a literal or comment. */
  lemma ScanFindsLexemes(text: string, from: nat, ls: seq<Lexeme>, p: nat)
    requires Lexing(text, from, ls) && from <= p <= |text|
    ensures Scan(text, Config(Code, from), p).state != Code <==> exists n :: 0 <= n < |ls| && Within(ls[n], p)
  {
    LexemesAscend(text, from, ls);
    forall n | 0 <= n < |ls| && Within(ls[n], p)
      ensures Scan(text, Config(Code, from), p).state != Code
    {
      StopInLexeme(text, from, ls, n, p);
    }
    if ls != [] && Scan(text, Config(Code, from), p).state != Code {
      var n := |ls| - 1;
      if p < |text| {
        n := CoveringLexeme(text, from, ls, p);
      }
      StopInLexeme(text, from, ls, n, p);
    }
  }

  /** The scan rests in code exactly on the beginnings of lexemes, and on a closed end of the text. */
  lemma CodeAtIsBoundary(text: string, from: nat, ls: seq<Lexeme>, p: nat)
    requires Lexing(text, from, ls) && from <= p <= |text|
    ensures CodeAt(text, from, p) <==>
            if p < |text| then exists n :: 0 <= n < |ls| && ls[n].start == p
            else ls == [] || ls[|ls| - 1].closed
  {
    LexemesAscend(text, from, ls);
    if p < |text| {
      if n :| 0 <= n < |ls| && ls[n].start == p {
        ScanOverLexeme(text, from, ls, n, p);
      }
      var n := CoveringLexeme(text, from, ls, p);
      ScanOverLexeme(text, from, ls, n, p);
    } else if ls != [] {
      ScanOverLexeme(text, from, ls, |ls| - 1, p);
    }
  }

  /** The position query, as a loop over `i` and `state`. */
  method IsPosInsideStringOrComment(text: string, endPos: nat) returns (inside: bool)
    requires endPos <= |text|
    ensures inside <==> Scan(text, Config(Code, 0), endPos).state != Code
    ensures forall ls :: Lexing(text, 0, ls) ==> (inside <==> exists n :: 0 <= n < |ls| && Within(ls[n], endPos))
  {
    var state, i := Code, 0;
    while i < endPos
      invariant Scan(text, Config(state, i), endPos) == Scan(text, Config(Code, 0), endPos)
    {
      var (next, skip) := Transition(text[i], state, NextChar(text, i));
      state := next;
      if skip {
        i := i + 2;
      } else {
        i := i + 1;
      }
    }
    forall ls | Lexing(text, 0, ls)
      ensures state != Code <==> exists n :: 0 <= n < |ls| && Within(ls[n], endPos)
    {
      ScanFindsLexemes(text, 0, ls, endPos);
    }
    return state != Code;
  }

  /** In the text of one empty block comment, the query denies that the closing slash is inside. */
  lemma CommentEndIsMissed()
    ensures exists l :: Lexing("/**/", 0, [l]) && l == Lexeme(BlockNote, 0, 4, true) && !Within(l, 3)
    ensures Scan("/**/", Config(Code, 0), 3).state == Code
  {
    var text := "/**/";
    var l := Lexeme(BlockNote, 0, 4, true);
    assert IsLexeme(text, l);
    assert Lexing(text, 4, []);
    assert [l][1..] == [];
    assert Lexing(text, 0, [l]);
    ScanFindsLexemes(text, 0, [l], 3);
  }
}
