/**
 What the collector sees of a file: its lexemes without blanks and comments. Files with the same
 tokens have the same fingerprints for the same calls, however they are laid out.
 */
module Tokens {
  import opened Lexemes
  import opened CallArguments
  import opened ParenMatching
  import opened StringLiterals
  import opened CallTargets

  datatype Token = Token(kind: Kind, closed: bool, text: string)

  /** A lexeme's token: none for a blank or a comment. */
  function TokenOf(text: string, l: Lexeme): seq<Token> {
    if !(l.start < l.end <= |text|) || l.kind.LineNote? || l.kind.BlockNote? then []
    else if l.kind.CodeChar? && IsBlank(text[l.start]) then []
    else [Token(l.kind, l.closed, text[l.start..l.end])]
  }

  function TokensOf(text: string, ls: seq<Lexeme>): seq<Token> {
    if ls == [] then [] else TokenOf(text, ls[0]) + TokensOf(text, ls[1..])
  }

  /** The number of tokens before lexeme `n`. */
  function TokenIndex(text: string, ls: seq<Lexeme>, n: nat): nat
    requires n <= |ls|
  {
    |TokensOf(text, ls[..n])|
  }

  lemma TokensCons(text: string, l: Lexeme, ls: seq<Lexeme>)
    ensures TokensOf(text, [l] + ls) == TokenOf(text, l) + TokensOf(text, ls)
  {
    assert ([l] + ls)[1..] == ls;
  }

  lemma {:induction false} TokensConcat(text: string, a: seq<Lexeme>, b: seq<Lexeme>)
    ensures TokensOf(text, a + b) == TokensOf(text, a) + TokensOf(text, b)
    decreases |a|
  {
    if a == [] {
      assert a + b == b;
    } else {
      var head, rest := a[0], a[1..];
      TokensConcat(text, rest, b);
      assert a == [head] + rest && a + b == [head] + (rest + b);
      TokensCons(text, head, rest);
      TokensCons(text, head, rest + b);
    }
  }

  lemma TokensSnoc(text: string, ls: seq<Lexeme>, n: nat)
    requires n < |ls|
    ensures TokensOf(text, ls[..n + 1]) == TokensOf(text, ls[..n]) + TokenOf(text, ls[n])
  {
    assert ls[..n + 1] == ls[..n] + [ls[n]];
    TokensConcat(text, ls[..n], [ls[n]]);
    TokensCons(text, ls[n], []);
    assert [ls[n]] + [] == [ls[n]];
  }

  /** The tokens of lexemes `p..q` are a slice of the tokens. */
  lemma TokensOfSlice(text: string, ls: seq<Lexeme>, p: nat, q: nat)
    requires p <= q <= |ls|
    ensures TokenIndex(text, ls, p) <= TokenIndex(text, ls, q) <= |TokensOf(text, ls)|
    ensures TokensOf(text, ls[p..q]) == TokensOf(text, ls)[TokenIndex(text, ls, p)..TokenIndex(text, ls, q)]
  {
    var a, b, c := ls[..p], ls[p..q], ls[q..];
    assert ls == (a + b) + c && ls[..q] == a + b;
    TokensConcat(text, a + b, c);
    TokensConcat(text, a, b);
  }

  lemma TokensOfPrefix(text: string, ls: seq<Lexeme>, n: nat)
    requires n <= |ls|
    ensures TokenIndex(text, ls, n) <= |TokensOf(text, ls)|
    ensures TokensOf(text, ls[..n]) == TokensOf(text, ls)[..TokenIndex(text, ls, n)]
  {
    TokensOfSlice(text, ls, 0, n);
    assert ls[0..n] == ls[..n];
  }

  /** A lexeme that is a token is the token at its index. */
  lemma TokenAtIndex(text: string, ls: seq<Lexeme>, n: nat)
    requires n < |ls| && TokenOf(text, ls[n]) != []
    ensures var i := TokenIndex(text, ls, n);
            && i < |TokensOf(text, ls)| && TokenOf(text, ls[n]) == [TokensOf(text, ls)[i]]
            && TokenIndex(text, ls, n + 1) == i + 1
  {
    TokensSnoc(text, ls, n);
    TokensOfPrefix(text, ls, n + 1);
    ElementBehind(TokensOf(text, ls), TokensOf(text, ls[..n]), TokenOf(text, ls[n]));
  }

  lemma ElementBehind(ts: seq<Token>, before: seq<Token>, one: seq<Token>)
    requires |one| == 1 && |before| < |ts| && ts[..|before| + 1] == before + one
    ensures one == [ts[|before|]]
  {
    assert ts[..|before| + 1][|before|] == one[0];
  }

  /** Every token comes from a lexeme. */
  lemma {:induction false} LexemeOfToken(text: string, ls: seq<Lexeme>, n: nat, j: nat) returns (k: nat)
    requires n <= |ls| && j < TokenIndex(text, ls, n)
    ensures k < n && TokenIndex(text, ls, k) == j && TokenOf(text, ls[k]) != []
    decreases n
  {
    TokensSnoc(text, ls, n - 1);
    if j < TokenIndex(text, ls, n - 1) {
      k := LexemeOfToken(text, ls, n - 1, j);
    } else {
      k := n - 1;
    }
  }

  lemma TokenIndexAscends(text: string, ls: seq<Lexeme>, p: nat, q: nat)
    requires p <= q <= |ls|
    ensures TokenIndex(text, ls, p) <= TokenIndex(text, ls, q)
    ensures p < q && TokenOf(text, ls[p]) != [] ==> TokenIndex(text, ls, p) < TokenIndex(text, ls, q)
  {
    TokensOfSlice(text, ls, p, q);
    if p < q && TokenOf(text, ls[p]) != [] {
      TokenAtIndex(text, ls, p);
      TokensOfSlice(text, ls, p + 1, q);
    }
  }

  // ---------------------------------------------------------------------------------------
  // Nesting and literals are matters of tokens
  // ---------------------------------------------------------------------------------------

  predicate IsParenToken(t: Token, c: char) {
    t.kind == CodeChar && t.text == [c]
  }

  function TokenCount(t: Token): int {
    if IsParenToken(t, '(') then 1 else if IsParenToken(t, ')') then -1 else 0
  }

  /** Opening less closing parentheses among the first `i` tokens. */
  function TokenNesting(ts: seq<Token>, i: nat): int
    requires i <= |ts|
  {
    if i == 0 then 0 else TokenNesting(ts, i - 1) + TokenCount(ts[i - 1])
  }

  lemma TokenOfParen(text: string, l: Lexeme, c: char)
    requires IsLexeme(text, l) && l.end <= |text| && !IsBlank(c)
    ensures IsParen(text, l, c) <==> TokenOf(text, l) != [] && IsParenToken(TokenOf(text, l)[0], c)
  {
    if l.kind == CodeChar {
      assert l.end == l.start + 1;
      assert text[l.start..l.end] == [text[l.start]];
    }
  }

  lemma CountOfToken(text: string, l: Lexeme)
    requires IsLexeme(text, l) && l.end <= |text|
    ensures Count(text, l) == if TokenOf(text, l) == [] then 0 else TokenCount(TokenOf(text, l)[0])
  {
    TokenOfParen(text, l, '(');
    TokenOfParen(text, l, ')');
  }

  /** The next lexeme moves the index, and the nesting, by its token. */
  lemma NestingStep(text: string, ls: seq<Lexeme>, n: nat)
    requires n < |ls| && IsLexeme(text, ls[n]) && ls[n].end <= |text|
    ensures TokenIndex(text, ls, n) <= TokenIndex(text, ls, n + 1) <= |TokensOf(text, ls)|
    ensures TokenNesting(TokensOf(text, ls), TokenIndex(text, ls, n + 1)) ==
            TokenNesting(TokensOf(text, ls), TokenIndex(text, ls, n)) + Count(text, ls[n])
  {
    CountOfToken(text, ls[n]);
    TokensOfPrefix(text, ls, n + 1);
    TokensSnoc(text, ls, n);
    if TokenOf(text, ls[n]) != [] {
      TokenAtIndex(text, ls, n);
    }
  }

  /** The nesting before lexeme `n` is the nesting before its index. */
  lemma {:induction false} NestingAtIndex(text: string, ls: seq<Lexeme>, n: nat)
    requires Lexing(text, 0, ls) && n <= |ls|
    ensures TokenIndex(text, ls, n) <= |TokensOf(text, ls)|
    ensures Nesting(text, ls[..n]) == TokenNesting(TokensOf(text, ls), TokenIndex(text, ls, n))
    decreases n
  {
    if n > 0 {
      LexemesAscend(text, 0, ls);
      NestingAtIndex(text, ls, n - 1);
      NestingSnoc(text, ls, n - 1);
      NestingStep(text, ls, n - 1);
    }
  }

  /** The values of a literal token. */
  function TokenValue(t: Token): seq<string> {
    if t.kind.Literal? && t.closed && |t.text| >= 2 && Resolvable(t.kind.quote, t.text[1..|t.text| - 1])
    then [t.text[1..|t.text| - 1]]
    else []
  }

  function TokenLiterals(ts: seq<Token>): seq<string> {
    if ts == [] then [] else TokenValue(ts[0]) + TokenLiterals(ts[1..])
  }

  lemma ValueOfToken(text: string, l: Lexeme)
    requires l.start < l.end <= |text|
    ensures ValueOf(text, l) == if TokenOf(text, l) == [] then [] else TokenValue(TokenOf(text, l)[0])
  {
    if l.kind.Literal? && l.start + 1 < l.end {
      var slice := text[l.start..l.end];
      SliceOfSlice(text, l.start, l.end, l.start + 1, l.end - 1);
      assert slice[1..|slice| - 1] == text[l.start + 1..l.end - 1];
    }
  }

  lemma {:induction false} LiteralsOfTokens(text: string, ls: seq<Lexeme>)
    requires forall i :: 0 <= i < |ls| ==> ls[i].start < ls[i].end <= |text|
    ensures LiteralsOf(text, ls) == TokenLiterals(TokensOf(text, ls))
    decreases |ls|
  {
    if ls != [] {
      var rest := ls[1..];
      LiteralsOfTokens(text, rest);
      ValueOfToken(text, ls[0]);
      var here := TokenOf(text, ls[0]);
      if here == [] {
        assert here + TokensOf(text, rest) == TokensOf(text, rest);
      } else {
        assert (here + TokensOf(text, rest))[1..] == TokensOf(text, rest);
      }
    }
  }

  // ---------------------------------------------------------------------------------------
  // Calls are matters of tokens
  // ---------------------------------------------------------------------------------------

  /** Token `j` closes the group that token `i` opens. */
  ghost predicate TokensMatch(ts: seq<Token>, i: nat, j: nat) {
    && i < j < |ts|
    && IsParenToken(ts[i], '(') && IsParenToken(ts[j], ')')
    && TokenNesting(ts, j + 1) == TokenNesting(ts, i)
    && forall r :: i < r <= j ==> TokenNesting(ts, r) > TokenNesting(ts, i)
  }

  lemma TokensMatchOnce(ts: seq<Token>, i: nat, j: nat, k: nat)
    requires TokensMatch(ts, i, j) && TokensMatch(ts, i, k)
    ensures j == k
  {
  }

  lemma ParenIndex(text: string, ls: seq<Lexeme>, n: nat, c: char)
    requires Lexing(text, 0, ls) && n < |ls| && IsParen(text, ls[n], c) && !IsBlank(c)
    ensures TokenOf(text, ls[n]) != [] && TokenIndex(text, ls, n) < |TokensOf(text, ls)|
    ensures TokenIndex(text, ls, n + 1) == TokenIndex(text, ls, n) + 1
    ensures IsParenToken(TokensOf(text, ls)[TokenIndex(text, ls, n)], c)
  {
    LexemesAscend(text, 0, ls);
    TokenOfParen(text, ls[n], c);
    TokenAtIndex(text, ls, n);
  }

  /** A place between two tokens behind lexeme `p` is the index of a lexeme behind it. */
  lemma LexemeBehind(text: string, ls: seq<Lexeme>, p: nat, q: nat, r: nat) returns (n: nat)
    requires p < q < |ls| && TokenIndex(text, ls, p) < r <= TokenIndex(text, ls, q)
    ensures p < n <= q && TokenIndex(text, ls, n) == r
  {
    n := q;
    if r < TokenIndex(text, ls, q) {
      n := LexemeOfToken(text, ls, q, r);
      if n <= p {
        TokenIndexAscends(text, ls, n, p);
      }
    }
  }

  /** Behind lexeme `p` the nesting of tokens is the nesting of lexemes somewhere behind it. */
  lemma NestingBehind(text: string, ls: seq<Lexeme>, p: nat, q: nat, r: nat)
    requires Lexing(text, 0, ls) && Matching(text, ls, p, q)
    requires TokenIndex(text, ls, p) < r <= TokenIndex(text, ls, q)
    ensures r <= |TokensOf(text, ls)| && TokenNesting(TokensOf(text, ls), r) > Nesting(text, ls[..p])
  {
    var n := LexemeBehind(text, ls, p, q, r);
    NestingAtIndex(text, ls, n);
  }

  /** Two parentheses, as tokens. */
  lemma ParenTokens(text: string, ls: seq<Lexeme>, p: nat, q: nat)
    requires Lexing(text, 0, ls) && p < q < |ls| && IsParen(text, ls[p], '(') && IsParen(text, ls[q], ')')
    ensures var ts, i, j := TokensOf(text, ls), TokenIndex(text, ls, p), TokenIndex(text, ls, q);
            i < j < |ts| && IsParenToken(ts[i], '(') && IsParenToken(ts[j], ')')
  {
    ParenIndex(text, ls, p, '(');
    ParenIndex(text, ls, q, ')');
    TokenIndexAscends(text, ls, p, q);
  }

  /** The nesting before a parenthesis, and behind one. */
  lemma NestingAroundParen(text: string, ls: seq<Lexeme>, n: nat, c: char)
    requires Lexing(text, 0, ls) && n < |ls| && IsParen(text, ls[n], c) && !IsBlank(c)
    ensures var ts, i := TokensOf(text, ls), TokenIndex(text, ls, n);
            && i < |ts| && Nesting(text, ls[..n]) == TokenNesting(ts, i)
            && Nesting(text, ls[..n + 1]) == TokenNesting(ts, i + 1)
  {
    ParenIndex(text, ls, n, c);
    NestingAtIndex(text, ls, n);
    NestingAtIndex(text, ls, n + 1);
  }

  /** Matching lexemes are matching tokens. */
  lemma MatchingTokens(text: string, ls: seq<Lexeme>, p: nat, q: nat)
    requires Lexing(text, 0, ls) && Matching(text, ls, p, q)
    ensures TokensMatch(TokensOf(text, ls), TokenIndex(text, ls, p), TokenIndex(text, ls, q))
  {
    var ts, i, j := TokensOf(text, ls), TokenIndex(text, ls, p), TokenIndex(text, ls, q);
    ParenTokens(text, ls, p, q);
    NestingAroundParen(text, ls, p, '(');
    NestingAroundParen(text, ls, q, ')');
    forall r | i < r <= j
      ensures TokenNesting(ts, r) > TokenNesting(ts, i)
    {
      NestingBehind(text, ls, p, q, r);
    }
  }

  lemma TokenNestingBehind(text: string, ls: seq<Lexeme>, p: nat, q: nat, r: nat)
    requires Lexing(text, 0, ls) && p < r <= q < |ls| && IsParen(text, ls[p], '(')
    requires TokensMatch(TokensOf(text, ls), TokenIndex(text, ls, p), TokenIndex(text, ls, q))
    ensures Nesting(text, ls[..r]) > TokenNesting(TokensOf(text, ls), TokenIndex(text, ls, p))
  {
    ParenIndex(text, ls, p, '(');
    NestingAtIndex(text, ls, r);
    TokenIndexAscends(text, ls, p, r);
    TokenIndexAscends(text, ls, r, q);
  }

  /** And lexemes whose tokens match do match. */
  lemma TokensMatching(text: string, ls: seq<Lexeme>, p: nat, q: nat)
    requires Lexing(text, 0, ls) && p < q < |ls| && IsParen(text, ls[p], '(') && IsParen(text, ls[q], ')')
    requires TokensMatch(TokensOf(text, ls), TokenIndex(text, ls, p), TokenIndex(text, ls, q))
    ensures Matching(text, ls, p, q)
  {
    NestingAroundParen(text, ls, p, '(');
    NestingAroundParen(text, ls, q, ')');
    forall r | p < r <= q
      ensures Nesting(text, ls[..r]) > Nesting(text, ls[..p])
    {
      TokenNestingBehind(text, ls, p, q, r);
    }
  }

  /** The literals between two lexemes, the first of which is a token, are those between their indices. */
  lemma LiteralsBetween(text: string, ls: seq<Lexeme>, p: nat, q: nat)
    requires Lexing(text, 0, ls) && p < q < |ls| && TokenOf(text, ls[p]) != []
    ensures var ts, i, j := TokensOf(text, ls), TokenIndex(text, ls, p), TokenIndex(text, ls, q);
            i < j <= |ts| && LiteralsOf(text, ls[p + 1..q]) == TokenLiterals(ts[i + 1..j])
  {
    TokenAtIndex(text, ls, p);
    TokensOfSlice(text, ls, p + 1, q);
    LexemesAscend(text, 0, ls);
    LiteralsOfTokens(text, ls[p + 1..q]);
  }

  /** What stands between matching lexemes is what stands between matching tokens. */
  lemma BetweenTokens(text: string, ls: seq<Lexeme>, p: nat, q: nat, ts: seq<Token>, i: nat) returns (j: nat)
    requires Lexing(text, 0, ls) && Matching(text, ls, p, q)
    requires ts == TokensOf(text, ls) && i == TokenIndex(text, ls, p)
    ensures TokensMatch(ts, i, j) && Between(text, ls, p, q, false) == TokenLiterals(ts[i + 1..j])
  {
    j := TokenIndex(text, ls, q);
    ParenIndex(text, ls, p, '(');
    LiteralsBetween(text, ls, p, q);
    MatchingTokens(text, ls, p, q);
  }

  /** The token of a parenthesis belongs to a lexeme that is that parenthesis. */
  lemma ParenOfToken(text: string, ls: seq<Lexeme>, j: nat, c: char) returns (n: nat)
    requires Lexing(text, 0, ls) && j < |TokensOf(text, ls)| && IsParenToken(TokensOf(text, ls)[j], c) && !IsBlank(c)
    ensures n < |ls| && TokenIndex(text, ls, n) == j && IsParen(text, ls[n], c)
  {
    assert ls[..|ls|] == ls;
    n := LexemeOfToken(text, ls, |ls|, j);
    TokenAtIndex(text, ls, n);
    LexemesAscend(text, 0, ls);
    TokenOfParen(text, ls[n], c);
  }

  /** Equal tokens, and a group closed in one text, close the same group in the other. */
  lemma GroupCarriesOver(
    text: string, ls: seq<Lexeme>, p: nat, q: nat, other: string, ms: seq<Lexeme>, p': nat
  ) returns (q': nat)
    requires Lexing(text, 0, ls) && Lexing(other, 0, ms) && TokensOf(text, ls) == TokensOf(other, ms)
    requires Matching(text, ls, p, q) && p' < |ms| && IsParen(other, ms[p'], '(')
    requires TokenIndex(text, ls, p) == TokenIndex(other, ms, p')
    ensures Matching(other, ms, p', q')
  {
    MatchingTokens(text, ls, p, q);
    q' := ParenOfToken(other, ms, TokenIndex(text, ls, q), ')');
    if q' <= p' {
      TokenIndexAscends(other, ms, q', p');
    }
    TokensMatching(other, ms, p', q');
  }

  /** The two matches are calls outside literals and comments whose '(' is the same token, or neither is such a call. */
  ghost predicate SameCall(text: string, ls: seq<Lexeme>, m: Match, other: string, ms: seq<Lexeme>, m': Match) {
    && (BeginsLexeme(ls, m.start) <==> BeginsLexeme(ms, m'.start))
    && (BeginsLexeme(ls, m.start) ==>
          exists p: nat, p': nat ::
            && OpensAt(text, ls, m, p) && OpensAt(other, ms, m', p')
            && TokenIndex(text, ls, p) == TokenIndex(other, ms, p'))
  }

  /** Lexeme `p` is the '(' that ends the match. */
  predicate OpensAt(text: string, ls: seq<Lexeme>, m: Match, p: nat) {
    p < |ls| && IsParen(text, ls[p], '(') && ls[p].start + 1 == m.end
  }

  /** In texts with the same tokens the same call has the same literals between its parentheses. */
  lemma SameBetween(
    text: string, ls: seq<Lexeme>, p: nat, q: nat, other: string, ms: seq<Lexeme>, p': nat, q': nat
  )
    requires Lexing(text, 0, ls) && Lexing(other, 0, ms) && TokensOf(text, ls) == TokensOf(other, ms)
    requires Matching(text, ls, p, q) && Matching(other, ms, p', q')
    requires TokenIndex(text, ls, p) == TokenIndex(other, ms, p')
    ensures Between(text, ls, p, q, false) == Between(other, ms, p', q', false)
  {
    var ts, i := TokensOf(text, ls), TokenIndex(text, ls, p);
    var j := BetweenTokens(text, ls, p, q, ts, i);
    var k := BetweenTokens(other, ms, p', q', ts, i);
    TokensMatchOnce(ts, i, j, k);
  }

  /** In texts with the same tokens the same call contributes the same. */
  lemma SameContribution(text: string, ls: seq<Lexeme>, m: Match, other: string, ms: seq<Lexeme>, m': Match)
    requires Lexing(text, 0, ls) && Lexing(other, 0, ms) && TokensOf(text, ls) == TokensOf(other, ms)
    requires SameCall(text, ls, m, other, ms, m')
    ensures Contribution(text, ls, m, false) == Contribution(other, ms, m', false)
  {
    if BeginsLexeme(ls, m.start) {
      var p: nat, p': nat :| OpensAt(text, ls, m, p) && OpensAt(other, ms, m', p')
                             && TokenIndex(text, ls, p) == TokenIndex(other, ms, p');
      forall r: nat, q: nat | CallAt(text, ls, m, r, q)
        ensures r == p && exists q': nat :: CallAt(other, ms, m', p', q')
      {
        StartsDiffer(text, ls, p, r);
        var q' := GroupCarriesOver(text, ls, p, q, other, ms, p');
        assert CallAt(other, ms, m', p', q');
      }
      forall r': nat, q': nat | CallAt(other, ms, m', r', q')
        ensures r' == p' && exists q: nat :: CallAt(text, ls, m, p, q)
      {
        StartsDiffer(other, ms, p', r');
        var q := GroupCarriesOver(other, ms, p', q', text, ls, p);
        assert CallAt(text, ls, m, p, q);
      }
      forall r: nat, q: nat, r': nat, q': nat | CallAt(text, ls, m, r, q) && CallAt(other, ms, m', r', q')
        ensures Between(text, ls, r, q, false) == Between(other, ms, r', q', false)
      {
        SameBetween(text, ls, p, q, other, ms, p', q');
      }
    }
  }

  /** In texts with the same tokens the same calls have the same fingerprints. */
  lemma {:induction false} SameContributions(
    text: string, ls: seq<Lexeme>, matches: seq<Match>, other: string, ms: seq<Lexeme>, matches': seq<Match>
  )
    requires Lexing(text, 0, ls) && Lexing(other, 0, ms) && TokensOf(text, ls) == TokensOf(other, ms)
    requires |matches| == |matches'|
    requires forall i :: 0 <= i < |matches| ==> SameCall(text, ls, matches[i], other, ms, matches'[i])
    ensures Contributions(text, ls, matches, false) == Contributions(other, ms, matches', false)
    decreases |matches|
  {
    if matches != [] {
      var n := |matches| - 1;
      SameContributions(text, ls, matches[..n], other, ms, matches'[..n]);
      SameContribution(text, ls, matches[n], other, ms, matches'[n]);
    }
  }
}
