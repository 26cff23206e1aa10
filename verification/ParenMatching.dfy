/**
 The balanced scan told in lexemes: the position it returns is the parenthesis that matches in
 the list of the file's lexemes, where parentheses inside literals and comments do not exist.
 */
module ParenMatching {
  import opened Lexemes
  import opened CallArguments

  predicate IsParen(text: string, l: Lexeme, c: char) {
    l.kind == CodeChar && l.start < |text| && text[l.start] == c
  }

  /** What a lexeme adds to the nesting. */
  function Count(text: string, l: Lexeme): int {
    if IsParen(text, l, '(') then 1 else if IsParen(text, l, ')') then -1 else 0
  }

  /** Opening less closing parentheses among the lexemes. */
  function Nesting(text: string, ls: seq<Lexeme>): int {
    if ls == [] then 0
    else
      Nesting(text, ls[..|ls| - 1]) + Count(text, ls[|ls| - 1])
  }

  /** Lexeme `q` closes the group that lexeme `p` opens. */
  ghost predicate Matching(text: string, ls: seq<Lexeme>, p: nat, q: nat) {
    && p < q < |ls|
    && IsParen(text, ls[p], '(') && IsParen(text, ls[q], ')')
    && Nesting(text, ls[..q + 1]) == Nesting(text, ls[..p])
    && forall r :: p < r <= q ==> Nesting(text, ls[..r]) > Nesting(text, ls[..p])
  }

  /** The span of lexeme `n`, and where the next one begins. */
  lemma SpanOf(text: string, ls: seq<Lexeme>, n: nat)
    requires Lexing(text, 0, ls) && n < |ls|
    ensures ls[n].start < ls[n].end <= |text|
    ensures ls[n].end == if n + 1 < |ls| then ls[n + 1].start else |text|
    ensures n == 0 ==> ls[n].start == 0
  {
    LexemesAscend(text, 0, ls);
    assert n + 1 < |ls| ==> ls[n + 1 - 1].end == ls[n + 1].start;
  }

  /** Inside a lexeme the depth changes at its first character only. */
  lemma {:induction false} DepthOverLexeme(text: string, ls: seq<Lexeme>, n: nat, k: nat)
    requires Lexing(text, 0, ls) && n < |ls| && ls[n].start < k <= ls[n].end
    ensures k <= |text| && Depth(text, 0, k) == Depth(text, 0, ls[n].start) + Weight(text, 0, ls[n].start)
    decreases k
  {
    SpanOf(text, ls, n);
    if k > ls[n].start + 1 {
      DepthOverLexeme(text, ls, n, k - 1);
      ScanOverLexeme(text, 0, ls, n, k - 1);
    }
  }

  /** What a lexeme's first character weighs is what the lexeme counts. */
  lemma WeightOfLexeme(text: string, ls: seq<Lexeme>, n: nat)
    requires Lexing(text, 0, ls) && n < |ls|
    ensures ls[n].start < |text| && Weight(text, 0, ls[n].start) == Count(text, ls[n])
  {
    LexemesAscend(text, 0, ls);
    ScanLandsOnLexeme(text, 0, ls, n);
  }

  lemma NestingSnoc(text: string, ls: seq<Lexeme>, n: nat)
    requires n < |ls|
    ensures Nesting(text, ls[..n + 1]) == Nesting(text, ls[..n]) + Count(text, ls[n])
  {
    assert ls[..n + 1][..n] == ls[..n];
  }

  /** Where lexeme `n` begins, or the text ends. */
  function StartOf(text: string, ls: seq<Lexeme>, n: nat): nat
    requires n <= |ls|
  {
    if n < |ls| then ls[n].start else |text|
  }

  /** The scan's depth at a lexeme is the nesting of the lexemes before it. */
  lemma {:induction false} DepthIsNesting(text: string, ls: seq<Lexeme>, n: nat)
    requires Lexing(text, 0, ls) && n <= |ls|
    ensures StartOf(text, ls, n) <= |text| && Depth(text, 0, StartOf(text, ls, n)) == Nesting(text, ls[..n])
    decreases n
  {
    if n > 0 {
      DepthIsNesting(text, ls, n - 1);
      SpanOf(text, ls, n - 1);
      DepthOverLexeme(text, ls, n - 1, ls[n - 1].end);
      WeightOfLexeme(text, ls, n - 1);
      NestingSnoc(text, ls, n - 1);
    } else if |ls| > 0 {
      SpanOf(text, ls, 0);
    }
  }

  /** Past the first character of a lexeme the depth is the nesting of the lexemes up to and with it. */
  lemma DepthInside(text: string, ls: seq<Lexeme>, n: nat, k: nat)
    requires Lexing(text, 0, ls) && n < |ls| && ls[n].start < k <= ls[n].end
    ensures k <= |text| && Depth(text, 0, k) == Nesting(text, ls[..n + 1])
  {
    SpanOf(text, ls, n);
    DepthOverLexeme(text, ls, n, k);
    DepthOverLexeme(text, ls, n, ls[n].end);
    DepthIsNesting(text, ls, n + 1);
  }

  lemma {:induction false} StartsAscend(text: string, ls: seq<Lexeme>, p: nat, q: nat)
    requires Lexing(text, 0, ls) && p < q < |ls|
    ensures ls[p].start < ls[p].end <= ls[q].start < ls[q].end
    decreases q
  {
    SpanOf(text, ls, q);
    SpanOf(text, ls, q - 1);
    if p < q - 1 {
      StartsAscend(text, ls, p, q - 1);
    }
  }

  /** A position behind the start of lexeme `p`, up to the start of lexeme `q`, ends inside a lexeme between them. */
  lemma LexemeBetween(text: string, ls: seq<Lexeme>, p: nat, q: nat, j: nat) returns (n: nat)
    requires Lexing(text, 0, ls) && p < q < |ls| && ls[p].start < j <= ls[q].start <= |text|
    ensures p <= n < q && ls[n].start < j <= ls[n].end
  {
    SpanOf(text, ls, q);
    n := CoveringLexeme(text, 0, ls, j - 1);
    if n < p {
      StartsAscend(text, ls, n, p);
    } else if q < n {
      StartsAscend(text, ls, q, n);
    }
  }

  /** Matching in the list of lexemes is the end of the group in the text. */
  lemma MatchingEndsGroup(text: string, ls: seq<Lexeme>, p: nat, q: nat)
    requires Lexing(text, 0, ls) && Matching(text, ls, p, q)
    ensures EndsGroup(text, ls[p].start, ls[q].start)
  {
    var start, k := ls[p].start, ls[q].start;
    StartsAscend(text, ls, p, q);
    SpanOf(text, ls, q);
    ScanLandsOnLexeme(text, 0, ls, q);
    DepthIsNesting(text, ls, p);
    DepthInside(text, ls, q, k + 1);
    forall j | start < j <= k
      ensures Depth(text, 0, j) > Depth(text, 0, start)
    {
      var n := LexemeBetween(text, ls, p, q, j);
      DepthInside(text, ls, n, j);
    }
  }

  /** And the end of the group in the text is the match in the list of lexemes. */
  lemma EndsGroupMatches(text: string, ls: seq<Lexeme>, p: nat, q: nat)
    requires Lexing(text, 0, ls) && p < q < |ls| && IsParen(text, ls[p], '(')
    requires EndsGroup(text, ls[p].start, ls[q].start)
    ensures Matching(text, ls, p, q)
  {
    var start, k := ls[p].start, ls[q].start;
    SpanOf(text, ls, q);
    CodeParen(text, ls, q);
    DepthIsNesting(text, ls, p);
    DepthInside(text, ls, q, k + 1);
    forall r | p < r <= q
      ensures Nesting(text, ls[..r]) > Nesting(text, ls[..p])
    {
      DepthIsNesting(text, ls, r);
      StartsAscend(text, ls, p, r);
      if r < q {
        StartsAscend(text, ls, r, q);
      }
    }
  }

  /** A lexeme that begins with a parenthesis is a character of code. */
  lemma CodeParen(text: string, ls: seq<Lexeme>, n: nat)
    requires Lexing(text, 0, ls) && n < |ls| && ls[n].start < |text|
    requires text[ls[n].start] == '(' || text[ls[n].start] == ')'
    ensures ls[n].kind == CodeChar
  {
    LexemesAscend(text, 0, ls);
  }

  /** The balanced scan from the '(' of lexeme `p` returns the start of lexeme `q` exactly when the two match. */
  lemma FirstReturnIsMatching(text: string, ls: seq<Lexeme>, p: nat, q: nat)
    requires Lexing(text, 0, ls) && p < q < |ls| && IsParen(text, ls[p], '(')
    ensures FirstReturn(text, ls[p].start, ls[q].start) <==> Matching(text, ls, p, q)
  {
    ScanLandsOnLexeme(text, 0, ls, p);
    LocalCloseIsFileClose(text, ls[p].start, ls[q].start);
    if EndsGroup(text, ls[p].start, ls[q].start) {
      EndsGroupMatches(text, ls, p, q);
    }
    if Matching(text, ls, p, q) {
      MatchingEndsGroup(text, ls, p, q);
    }
  }
}
