/**
 Breaking a call over lines. The collector for `require` and `import` looks only at calls whose
 arguments hold a line break, so a line break put into a one-line call can bring fingerprints
 that were not there before. This module says exactly when.
 */
module BrokenCalls {
  import opened Lexemes
  import opened CallArguments
  import opened ParenMatching
  import opened StringLiterals
  import opened CallTargets
  import opened Tokens
  import opened Reformatting

  // ---------------------------------------------------------------------------------------
  // What a call contributes
  // ---------------------------------------------------------------------------------------

  /** A match outside literals and comments whose '(' has a partner. */
  ghost predicate IsCall(text: string, ls: seq<Lexeme>, m: Match) {
    BeginsLexeme(ls, m.start) && exists p: nat, q: nat :: CallAt(text, ls, m, p, q)
  }

  /** Matching is unique. */
  lemma MatchesOnce(text: string, ls: seq<Lexeme>, p: nat, q: nat, q': nat)
    requires Matching(text, ls, p, q) && Matching(text, ls, p, q')
    ensures q == q'
  {
  }

  lemma CallContributes(text: string, ls: seq<Lexeme>, m: Match, p: nat, q: nat, multiline: bool)
    requires Lexing(text, 0, ls) && BeginsLexeme(ls, m.start) && CallAt(text, ls, m, p, q)
    ensures Contribution(text, ls, m, multiline) == Between(text, ls, p, q, multiline)
  {
    forall p': nat, q': nat | CallAt(text, ls, m, p', q')
      ensures p' == p && q' == q
    {
      StartsDiffer(text, ls, p, p');
      MatchesOnce(text, ls, p, q, q');
    }
  }

  /** The argument text of the call holds a line break. */
  predicate Broken(text: string, ls: seq<Lexeme>, p: nat, q: nat)
    requires p < |ls| && q < |ls| && ls[p].start < ls[q].start <= |text|
  {
    '\n' in text[ls[p].start + 1..ls[q].start]
  }

  lemma ParensInText(text: string, ls: seq<Lexeme>, p: nat, q: nat)
    requires Lexing(text, 0, ls) && p < q < |ls|
    ensures ls[p].start < ls[q].start < |text|
  {
    StartsAscend(text, ls, p, q);
    LexemesAscend(text, 0, ls);
  }

  // ---------------------------------------------------------------------------------------
  // A call, before and after a blank is put in
  // ---------------------------------------------------------------------------------------

  lemma CloseKept(text: string, l: Lexeme, other: string, m: Lexeme, at: nat)
    requires Corresponds(text, l, other, m, at) && IsLexeme(text, l) && IsLexeme(other, m)
    requires l.end <= |text| && m.end <= |other| && IsParen(text, l, ')')
    ensures IsParen(other, m, ')')
  {
    TokenOfParen(text, l, ')');
    TokenOfParen(other, m, ')');
  }

  lemma CallKept(text: string, ls: seq<Lexeme>, other: string, ms: seq<Lexeme>, n: nat, m: Match, p: nat, q: nat)
    requires IsSpacing(text, ls, other, ms, n) && Lexing(text, 0, ls) && Lexing(other, 0, ms)
    requires CallAt(text, ls, m, p, q)
    ensures CallAt(other, ms, SpacedMatch(ls[n].start, m), Place(n, p), Place(n, q))
  {
    OpensKept(text, ls, other, ms, n, m, p);
    assert Corresponds(text, ls[q], other, ms[Place(n, q)], ls[n].start);
    LexemesAscend(text, 0, ls);
    LexemesAscend(other, 0, ms);
    CloseKept(text, ls[q], other, ms[Place(n, q)], ls[n].start);
    MatchingTokens(text, ls, p, q);
    TokensKept(text, ls, other, ms, n);
    IndexKept(text, ls, other, ms, n, q);
    TokensMatching(other, ms, Place(n, p), Place(n, q));
  }

  /** The blank makes no call of a match that was none. */
  lemma NoCallKept(text: string, ls: seq<Lexeme>, other: string, ms: seq<Lexeme>, n: nat, m: Match)
    requires IsSpacing(text, ls, other, ms, n) && Lexing(text, 0, ls) && Lexing(other, 0, ms)
    requires IsCallMatch(text, m) && !IsCall(text, ls, m)
    ensures !IsCall(other, ms, SpacedMatch(ls[n].start, m))
  {
    var m' := SpacedMatch(ls[n].start, m);
    BeginsKept(text, ls, other, ms, n, m.start);
    if BeginsLexeme(ls, m.start) {
      var p := OpensSomewhere(text, ls, m);
      OpensKept(text, ls, other, ms, n, m, p);
      TokensKept(text, ls, other, ms, n);
      forall p': nat, q': nat | CallAt(other, ms, m', p', q')
        ensures exists q: nat :: CallAt(text, ls, m, p, q)
      {
        StartsDiffer(other, ms, Place(n, p), p');
        var q := GroupCarriesOver(other, ms, p', q', text, ls, p);
        assert CallAt(text, ls, m, p, q);
      }
    }
  }

  /** A blank put in among the characters from `a` to `b`, or before or behind them. */
  lemma BreakInSpaced(text: string, at: nat, blank: char, a: nat, b: nat)
    requires at <= |text| && a < b < |text|
    ensures Position(at, a) < Position(at, b) <= |Spaced(text, at, blank)|
    ensures '\n' in Spaced(text, at, blank)[Position(at, a) + 1..Position(at, b)] <==>
              '\n' in text[a + 1..b] || (blank == '\n' && a < at <= b)
  {
    var other := Spaced(text, at, blank);
    if at <= a {
      assert other[a + 2..b + 1] == text[a + 1..b];
    } else if b < at {
      assert other[a + 1..b] == text[a + 1..b];
    } else {
      assert other[a + 1..b + 1] == text[a + 1..at] + [blank] + text[at..b];
      assert text[a + 1..b] == text[a + 1..at] + text[at..b];
    }
  }

  /** The argument text holds a break afterwards if it held one, or one is put in between the parentheses. */
  lemma BrokenAfter(
    text: string, ls: seq<Lexeme>, n: nat, blank: char, ms: seq<Lexeme>, p: nat, q: nat
  )
    requires Lexing(text, 0, ls) && n < |ls| && ls[n].start <= |text| && p < q < |ls|
    requires IsSpacing(text, ls, Spaced(text, ls[n].start, blank), ms, n)
    ensures ls[p].start < ls[q].start < |text|
    ensures var other := Spaced(text, ls[n].start, blank);
            && ms[Place(n, p)].start < ms[Place(n, q)].start <= |other|
            && (Broken(other, ms, Place(n, p), Place(n, q)) <==>
                  Broken(text, ls, p, q) || (blank == '\n' && p < n <= q))
  {
    var at, other := ls[n].start, Spaced(text, ls[n].start, blank);
    ParensInText(text, ls, p, q);
    StartsDiffer(text, ls, p, n);
    StartsDiffer(text, ls, n, q);
    StartsDiffer(text, ls, n, p);
    StartsDiffer(text, ls, q, n);
    assert Corresponds(text, ls[p], other, ms[Place(n, p)], at);
    assert Corresponds(text, ls[q], other, ms[Place(n, q)], at);
    BreakInSpaced(text, at, blank, ls[p].start, ls[q].start);
  }

  // ---------------------------------------------------------------------------------------
  // When the line collector's answer stays the same
  // ---------------------------------------------------------------------------------------

  /** Where the collector looks for line breaks, a call contributes what it does elsewhere, or nothing. */
  lemma LineContribution(text: string, ls: seq<Lexeme>, m: Match, p: nat, q: nat)
    requires Lexing(text, 0, ls) && BeginsLexeme(ls, m.start) && CallAt(text, ls, m, p, q)
    ensures ls[p].start < ls[q].start < |text|
    ensures Contribution(text, ls, m, true) ==
            if Broken(text, ls, p, q) then Contribution(text, ls, m, false) else []
  {
    ParensInText(text, ls, p, q);
    CallContributes(text, ls, m, p, q, true);
    CallContributes(text, ls, m, p, q, false);
  }

  lemma LineContributionAfter(
    text: string, ls: seq<Lexeme>, n: nat, blank: char, ms: seq<Lexeme>, m: Match, p: nat, q: nat
  )
    requires Lexing(text, 0, ls) && n < |ls| && ls[n].start <= |text|
    requires Lexing(Spaced(text, ls[n].start, blank), 0, ms)
    requires IsSpacing(text, ls, Spaced(text, ls[n].start, blank), ms, n)
    requires IsCallMatch(text, m) && BeginsLexeme(ls, m.start) && CallAt(text, ls, m, p, q)
    ensures ls[p].start < ls[q].start < |text|
    ensures Contribution(Spaced(text, ls[n].start, blank), ms, SpacedMatch(ls[n].start, m), true) ==
            if Broken(text, ls, p, q) || (blank == '\n' && p < n <= q)
            then Contribution(text, ls, m, false) else []
  {
    var other, m' := Spaced(text, ls[n].start, blank), SpacedMatch(ls[n].start, m);
    CallKept(text, ls, other, ms, n, m, p, q);
    BeginsKept(text, ls, other, ms, n, m.start);
    BrokenAfter(text, ls, n, blank, ms, p, q);
    LineContribution(other, ms, m', Place(n, p), Place(n, q));
    TokensKept(text, ls, other, ms, n);
    SpacedIsSameCall(text, ls, other, ms, n, m);
    SameContribution(text, ls, m, other, ms, m');
  }

  lemma NoContribution(text: string, ls: seq<Lexeme>, m: Match, multiline: bool)
    requires !IsCall(text, ls, m)
    ensures Contribution(text, ls, m, multiline) == []
  {
  }

  /** The blank breaks the call `p`, `q` of the match, which had no line break in its arguments before. */
  ghost predicate FirstBreak(text: string, ls: seq<Lexeme>, n: nat, blank: char, m: Match, p: nat, q: nat) {
    && BeginsLexeme(ls, m.start) && CallAt(text, ls, m, p, q)
    && blank == '\n' && p < n <= q
    && ls[p].start < ls[q].start <= |text| && !Broken(text, ls, p, q)
  }

  ghost predicate BreaksCall(text: string, ls: seq<Lexeme>, n: nat, blank: char, m: Match) {
    exists p: nat, q: nat :: FirstBreak(text, ls, n, blank, m, p, q)
  }

  /** A match adds to what is collected exactly if its call is broken for the first time; nothing is ever lost. */
  lemma ContributionAfter(text: string, ls: seq<Lexeme>, n: nat, blank: char, ms: seq<Lexeme>, m: Match)
    requires Lexing(text, 0, ls) && n < |ls| && ls[n].start <= |text|
    requires Lexing(Spaced(text, ls[n].start, blank), 0, ms)
    requires IsSpacing(text, ls, Spaced(text, ls[n].start, blank), ms, n)
    requires IsCallMatch(text, m)
    ensures var before := Contribution(text, ls, m, true);
            var after := Contribution(Spaced(text, ls[n].start, blank), ms, SpacedMatch(ls[n].start, m), true);
            if BreaksCall(text, ls, n, blank, m) then before == [] && after == Contribution(text, ls, m, false)
            else after == before
  {
    var other, m' := Spaced(text, ls[n].start, blank), SpacedMatch(ls[n].start, m);
    if IsCall(text, ls, m) {
      var p: nat, q: nat :| CallAt(text, ls, m, p, q);
      LineContribution(text, ls, m, p, q);
      LineContributionAfter(text, ls, n, blank, ms, m, p, q);
      forall p': nat, q': nat | FirstBreak(text, ls, n, blank, m, p', q')
        ensures p' == p && q' == q
      {
        StartsDiffer(text, ls, p, p');
        MatchesOnce(text, ls, p, q, q');
      }
      if !Broken(text, ls, p, q) && blank == '\n' && p < n <= q {
        assert FirstBreak(text, ls, n, blank, m, p, q);
      }
    } else {
      NoCallKept(text, ls, other, ms, n, m);
      NoContribution(text, ls, m, true);
      NoContribution(other, ms, m', true);
    }
  }

  // ---------------------------------------------------------------------------------------
  // The fingerprints of all matches
  // ---------------------------------------------------------------------------------------

  /** The match is not broken for the first time, or its literals do not name `scripts/ops`. */
  ghost predicate KeepsCall(text: string, ls: seq<Lexeme>, n: nat, blank: char, m: Match) {
    BreaksCall(text, ls, n, blank, m) ==>
      forall i :: 0 <= i < |Contribution(text, ls, m, false)| ==> !HasScriptsOps(Contribution(text, ls, m, false)[i])
  }

  lemma {:induction false} NoFingerprintsIff(path: string, name: string, literals: seq<string>)
    ensures FingerprintsOf(path, name, literals) == [] <==>
              forall i :: 0 <= i < |literals| ==> !HasScriptsOps(literals[i])
  {
    if literals != [] {
      NoFingerprintsIff(path, name, literals[1..]);
      assert forall i :: 0 < i < |literals| ==> literals[i] == literals[1..][i - 1];
    }
  }

  /** Two lists that have each grown, or not, are the same when joined exactly if both are the same. */
  lemma JoinedSame<T>(a: seq<T>, b: seq<T>, c: seq<T>, d: seq<T>)
    requires |a| <= |c| && |b| <= |d|
    ensures a + b == c + d <==> a == c && b == d
  {
    if a + b == c + d {
      assert |a| == |c| && |b| == |d|;
      assert a == (a + b)[..|a|] && c == (c + d)[..|c|];
      assert b == (a + b)[|a|..] && d == (c + d)[|c|..];
    }
  }

  /** What the line collector makes of one match, and of all. */
  ghost function LineFingerprint(
    text: string, ls: seq<Lexeme>, path: string, name: string, m: Match
  ): seq<Fingerprint> {
    FingerprintsOf(path, name, Contribution(text, ls, m, true))
  }

  ghost function LineFingerprints(
    text: string, ls: seq<Lexeme>, path: string, name: string, matches: seq<Match>
  ): seq<Fingerprint> {
    FingerprintsOf(path, name, Contributions(text, ls, matches, true))
  }

  lemma LineFingerprintsSnoc(
    text: string, ls: seq<Lexeme>, path: string, name: string, init: seq<Match>, last: Match
  )
    ensures LineFingerprints(text, ls, path, name, init + [last]) ==
            LineFingerprints(text, ls, path, name, init) + LineFingerprint(text, ls, path, name, last)
  {
    assert (init + [last])[..|init|] == init;
    FingerprintsOfAppend(path, name, Contributions(text, ls, init, true), Contribution(text, ls, last, true));
  }

  /** A blank put in before lexeme `n`, and the division of the text that comes of it. */
  ghost predicate IsSpacedBy(text: string, ls: seq<Lexeme>, n: nat, blank: char, other: string, ms: seq<Lexeme>) {
    && Lexing(text, 0, ls) && n < |ls| && ls[n].start <= |text| && other == Spaced(text, ls[n].start, blank)
    && Lexing(other, 0, ms) && IsSpacing(text, ls, other, ms, n)
  }

  lemma FingerprintAfter(
    text: string, ls: seq<Lexeme>, n: nat, blank: char, other: string, ms: seq<Lexeme>,
    path: string, name: string, m: Match
  )
    requires IsSpacedBy(text, ls, n, blank, other, ms) && IsCallMatch(text, m)
    ensures var before := LineFingerprint(text, ls, path, name, m);
            var after := LineFingerprint(other, ms, path, name, SpacedMatch(ls[n].start, m));
            |before| <= |after| && (before == after <==> KeepsCall(text, ls, n, blank, m))
  {
    ContributionAfter(text, ls, n, blank, ms, m);
    NoFingerprintsIff(path, name, Contribution(text, ls, m, false));
  }

  ghost predicate KeepsCalls(text: string, ls: seq<Lexeme>, n: nat, blank: char, matches: seq<Match>) {
    forall i :: 0 <= i < |matches| ==> KeepsCall(text, ls, n, blank, matches[i])
  }

  lemma KeepsCallsSnoc(text: string, ls: seq<Lexeme>, n: nat, blank: char, init: seq<Match>, last: Match)
    ensures KeepsCalls(text, ls, n, blank, init + [last]) <==>
              KeepsCalls(text, ls, n, blank, init) && KeepsCall(text, ls, n, blank, last)
  {
    var all := init + [last];
    assert all[|init|] == last && forall i :: 0 <= i < |init| ==> all[i] == init[i];
  }

  lemma {:induction false} FingerprintsAfter(
    text: string, ls: seq<Lexeme>, n: nat, blank: char, other: string, ms: seq<Lexeme>,
    path: string, name: string, matches: seq<Match>
  )
    requires IsSpacedBy(text, ls, n, blank, other, ms)
    requires forall i :: 0 <= i < |matches| ==> IsCallMatch(text, matches[i])
    ensures var before := LineFingerprints(text, ls, path, name, matches);
            var after := LineFingerprints(other, ms, path, name, SpacedMatches(ls[n].start, matches));
            |before| <= |after| && (before == after <==> KeepsCalls(text, ls, n, blank, matches))
    decreases |matches|
  {
    if matches != [] {
      var at, k := ls[n].start, |matches| - 1;
      var init, last := matches[..k], matches[k];
      assert matches == init + [last];
      assert SpacedMatches(at, matches) == SpacedMatches(at, init) + [SpacedMatch(at, last)];
      FingerprintsAfter(text, ls, n, blank, other, ms, path, name, init);
      FingerprintAfter(text, ls, n, blank, other, ms, path, name, last);
      LineFingerprintsSnoc(text, ls, path, name, init, last);
      LineFingerprintsSnoc(other, ms, path, name, SpacedMatches(at, init), SpacedMatch(at, last));
      KeepsCallsSnoc(text, ls, n, blank, init, last);
      JoinedSame(
        LineFingerprints(text, ls, path, name, init), LineFingerprint(text, ls, path, name, last),
        LineFingerprints(other, ms, path, name, SpacedMatches(at, init)),
        LineFingerprint(other, ms, path, name, SpacedMatch(at, last)));
    }
  }

  /**
   A blank before any lexeme leaves the fingerprints of the line collector as they were exactly
   if it is no line break that is the first one between the parentheses of a call in which a
   literal names `scripts/ops`; and it never takes any away.
   */
  lemma BlankKeepsLineFingerprintsIff(
    text: string, ls: seq<Lexeme>, n: nat, blank: char, ms: seq<Lexeme>, path: string, name: string, matches: seq<Match>
  )
    requires Lexing(text, 0, ls) && n < |ls| && IsBlank(blank) && ls[n].start <= |text|
    requires Lexing(Spaced(text, ls[n].start, blank), 0, ms)
    requires forall i :: 0 <= i < |matches| ==> IsCallMatch(text, matches[i])
    ensures var other, moved := Spaced(text, ls[n].start, blank), SpacedMatches(ls[n].start, matches);
            var before := FingerprintsOf(path, name, Contributions(text, ls, matches, true));
            var after := FingerprintsOf(path, name, Contributions(other, ms, moved, true));
            |before| <= |after| && (before == after <==> KeepsCalls(text, ls, n, blank, matches))
  {
    var other := Spaced(text, ls[n].start, blank);
    var spaced := SpacedLexing(text, ls, n, blank);
    LexingUnique(other, 0, ms, spaced);
    FingerprintsAfter(text, ls, n, blank, other, ms, path, name, matches);
  }

  // ---------------------------------------------------------------------------------------
  // A call that is new once it is broken
  // ---------------------------------------------------------------------------------------

  /** `name(gap"body")` */
  function CallText(name: string, gap: string, body: string): string {
    name + "(" + gap + "\"" + body + "\")"
  }

  predicate NoParens(s: string) {
    forall i :: 0 <= i < |s| ==> s[i] != '(' && s[i] != ')'
  }

  /** A name, some plain text before the literal, and a body that needs no care. */
  predicate SimpleCall(name: string, gap: string, body: string) {
    && name != "" && PlainCode(name) && NoParens(name)
    && PlainCode(gap) && NoParens(gap) && WellEscaped('"', body)
  }

  /** One lexeme for each of the characters from `a` to `b`. */
  function Chars(a: nat, b: nat): seq<Lexeme>
    requires a <= b
    decreases b - a
  {
    if a == b then [] else [Lexeme(CodeChar, a, a + 1, true)] + Chars(a + 1, b)
  }

  lemma {:induction false} CharsLength(a: nat, b: nat)
    requires a <= b
    ensures |Chars(a, b)| == b - a
    ensures forall i :: 0 <= i < b - a ==> Chars(a, b)[i] == Lexeme(CodeChar, a + i, a + i + 1, true)
    decreases b - a
  {
    if a < b {
      CharsLength(a + 1, b);
    }
  }

  lemma {:induction false} CharsLexing(text: string, a: nat, b: nat, rest: seq<Lexeme>)
    requires a <= b <= |text| && PlainRange(text, a, b) && Lexing(text, b, rest)
    ensures Lexing(text, a, Chars(a, b) + rest)
    decreases b - a
  {
    if a == b {
      assert Chars(a, b) + rest == rest;
    } else {
      var l, tail := Lexeme(CodeChar, a, a + 1, true), Chars(a + 1, b) + rest;
      CharsLexing(text, a + 1, b, rest);
      assert Chars(a, b) == [l] + Chars(a + 1, b);
      assert Chars(a, b) + rest == [l] + tail;
      assert IsLexeme(text, l);
      PrependLexeme(text, l, tail);
    }
  }

  /** Where the literal of the call begins. */
  function QuoteAt(name: string, gap: string): nat {
    |name| + 1 + |gap|
  }

  function CallLexemes(name: string, gap: string, body: string): seq<Lexeme> {
    var a := QuoteAt(name, gap);
    var b := a + |body| + 2;
    Chars(0, a) + [Lexeme(Literal('"'), a, b, true), Lexeme(CodeChar, b, b + 1, true)]
  }

  lemma CallTextParts(name: string, gap: string, body: string)
    requires SimpleCall(name, gap, body)
    ensures var text, a, p := CallText(name, gap, body), QuoteAt(name, gap), |name|;
            && |text| == a + |body| + 3 && PlainRange(text, 0, a) && text[p] == '('
            && (forall i :: 0 <= i < a && i != p ==> text[i] != '(' && text[i] != ')')
            && text[a] == '"' && text[a + 1..a + 1 + |body|] == body && text[a + 1 + |body|] == '"'
            && text[a + |body| + 2] == ')'
  {
    var text := CallText(name, gap, body);
    assert forall i :: 0 <= i < |name| ==> text[i] == name[i];
    assert forall i :: 0 <= i < |gap| ==> text[|name| + 1 + i] == gap[i];
  }

  /** A literal and a closing parenthesis at the end of a text. */
  lemma LiteralAndClose(text: string, a: nat, body: string)
    requires |text| == a + |body| + 3 && WellEscaped('"', body)
    requires text[a] == '"' == text[a + 1 + |body|] && text[a + 1..a + 1 + |body|] == body
    requires text[a + |body| + 2] == ')'
    ensures var b := a + |body| + 2;
            Lexing(text, a, [Lexeme(Literal('"'), a, b, true), Lexeme(CodeChar, b, b + 1, true)])
  {
    var b := a + |body| + 2;
    var literal, close := Lexeme(Literal('"'), a, b, true), Lexeme(CodeChar, b, b + 1, true);
    PrintedLiteralIsLexeme(text, a, Printed("", '"', body));
    assert IsLexeme(text, close);
    PrependLexeme(text, close, []);
    assert [close] + [] == [close];
    PrependLexeme(text, literal, [close]);
    assert [literal] + [close] == [literal, close];
  }

  lemma CallLexing(name: string, gap: string, body: string)
    requires SimpleCall(name, gap, body)
    ensures Lexing(CallText(name, gap, body), 0, CallLexemes(name, gap, body))
  {
    var text, a := CallText(name, gap, body), QuoteAt(name, gap);
    var b := a + |body| + 2;
    CallTextParts(name, gap, body);
    LiteralAndClose(text, a, body);
    CharsLexing(text, 0, a, [Lexeme(Literal('"'), a, b, true), Lexeme(CodeChar, b, b + 1, true)]);
  }

  lemma CallLexemeAt(name: string, gap: string, body: string, i: nat)
    requires i < QuoteAt(name, gap) + 2
    ensures |CallLexemes(name, gap, body)| == QuoteAt(name, gap) + 2
    ensures var a, l := QuoteAt(name, gap), CallLexemes(name, gap, body)[i];
            l == if i < a then Lexeme(CodeChar, i, i + 1, true)
                 else if i == a then Lexeme(Literal('"'), a, a + |body| + 2, true)
                 else Lexeme(CodeChar, a + |body| + 2, a + |body| + 3, true)
  {
    CharsLength(0, QuoteAt(name, gap));
  }

  /** The only parentheses are those of the call. */
  lemma {:induction false} CallNesting(name: string, gap: string, body: string, r: nat)
    requires SimpleCall(name, gap, body) && r <= QuoteAt(name, gap) + 2
    ensures |CallLexemes(name, gap, body)| == QuoteAt(name, gap) + 2
    ensures Nesting(CallText(name, gap, body), CallLexemes(name, gap, body)[..r])
            == if |name| < r < QuoteAt(name, gap) + 2 then 1 else 0
    decreases r
  {
    CallLexemeAt(name, gap, body, 0);
    if r > 0 {
      CallNesting(name, gap, body, r - 1);
      NestingSnoc(CallText(name, gap, body), CallLexemes(name, gap, body), r - 1);
      CallLexemeAt(name, gap, body, r - 1);
      CallTextParts(name, gap, body);
    }
  }

  lemma CallMatches(name: string, gap: string, body: string)
    requires SimpleCall(name, gap, body)
    ensures Matching(CallText(name, gap, body), CallLexemes(name, gap, body), |name|, QuoteAt(name, gap) + 1)
  {
    var text, ls, p, q := CallText(name, gap, body), CallLexemes(name, gap, body), |name|, QuoteAt(name, gap) + 1;
    CallTextParts(name, gap, body);
    CallLexemeAt(name, gap, body, p);
    CallLexemeAt(name, gap, body, q);
    CallNesting(name, gap, body, p);
    CallNesting(name, gap, body, q + 1);
    forall r | p < r <= q
      ensures Nesting(text, ls[..r]) > Nesting(text, ls[..p])
    {
      CallNesting(name, gap, body, r);
    }
  }

  lemma {:induction false} CharsThenLiteral(text: string, a: nat, b: nat, l: Lexeme)
    requires a <= b
    ensures LiteralsOf(text, Chars(a, b) + [l]) == ValueOf(text, l)
    decreases b - a
  {
    if a == b {
      assert Chars(a, b) + [l] == [l];
    } else {
      CharsThenLiteral(text, a + 1, b, l);
      assert Chars(a, b) + [l] == [Lexeme(CodeChar, a, a + 1, true)] + (Chars(a + 1, b) + [l]);
    }
  }

  lemma LexemesInCall(name: string, gap: string, body: string)
    ensures var ls, p, a := CallLexemes(name, gap, body), |name|, QuoteAt(name, gap);
            |ls| == a + 2 && ls[p + 1..a + 1] == Chars(p + 1, a) + [Lexeme(Literal('"'), a, a + |body| + 2, true)]
  {
    CharsLength(0, QuoteAt(name, gap));
    CharsLength(|name| + 1, QuoteAt(name, gap));
  }

  /** Between its parentheses stands the one literal. */
  lemma CallLiteral(name: string, gap: string, body: string)
    requires SimpleCall(name, gap, body)
    ensures var text, ls, q := CallText(name, gap, body), CallLexemes(name, gap, body), QuoteAt(name, gap) + 1;
            |name| < q < |ls| && LiteralsOf(text, ls[|name| + 1..q]) == [body]
  {
    var text, a := CallText(name, gap, body), QuoteAt(name, gap);
    CallTextParts(name, gap, body);
    LexemesInCall(name, gap, body);
    CharsThenLiteral(text, |name| + 1, a, Lexeme(Literal('"'), a, a + |body| + 2, true));
  }

  /** The match of the call's name and parenthesis. */
  function CallMatch(name: string): Match {
    Match(0, |name| + 1)
  }

  lemma CallIsMatched(name: string, gap: string, body: string)
    requires SimpleCall(name, gap, body)
    ensures IsCallMatch(CallText(name, gap, body), CallMatch(name))
    ensures BeginsLexeme(CallLexemes(name, gap, body), 0)
  {
    CallTextParts(name, gap, body);
    CallLexemeAt(name, gap, body, 0);
  }

  lemma CallIsPaired(name: string, gap: string, body: string)
    requires SimpleCall(name, gap, body)
    ensures CallAt(CallText(name, gap, body), CallLexemes(name, gap, body), CallMatch(name), |name|,
                   QuoteAt(name, gap) + 1)
  {
    CallMatches(name, gap, body);
    CallLexemeAt(name, gap, body, |name|);
  }

  lemma CallIsCall(name: string, gap: string, body: string)
    requires SimpleCall(name, gap, body)
    ensures var text, ls, m := CallText(name, gap, body), CallLexemes(name, gap, body), CallMatch(name);
            && IsCallMatch(text, m) && BeginsLexeme(ls, m.start)
            && CallAt(text, ls, m, |name|, QuoteAt(name, gap) + 1)
            && Contribution(text, ls, m, false) == [body]
  {
    var text, ls, q := CallText(name, gap, body), CallLexemes(name, gap, body), QuoteAt(name, gap) + 1;
    CallLexing(name, gap, body);
    CallIsMatched(name, gap, body);
    CallIsPaired(name, gap, body);
    CallLiteral(name, gap, body);
    CallContributes(text, ls, CallMatch(name), |name|, q, false);
  }

  /** The call's argument text, which has no line break. */
  lemma CallArgument(name: string, gap: string, body: string)
    requires SimpleCall(name, gap, body) && '\n' !in gap && '\n' !in body
    ensures var text, b := CallText(name, gap, body), QuoteAt(name, gap) + |body| + 2;
            |name| + 1 <= b <= |text| && '\n' !in text[|name| + 1..b]
  {
    assert CallText(name, gap, body)[|name| + 1..QuoteAt(name, gap) + |body| + 2] == gap + "\"" + body + "\"";
  }

  /** The call on one line contributes nothing. */
  lemma OneLineCall(name: string, gap: string, body: string)
    requires SimpleCall(name, gap, body) && '\n' !in gap && '\n' !in body
    ensures Contribution(CallText(name, gap, body), CallLexemes(name, gap, body), CallMatch(name), true) == []
  {
    CallLexing(name, gap, body);
    CallIsCall(name, gap, body);
    ArgumentUnbroken(name, gap, body);
    UnbrokenIsSilent(CallText(name, gap, body), CallLexemes(name, gap, body), CallMatch(name),
                     |name|, QuoteAt(name, gap) + 1);
  }

  lemma ArgumentUnbroken(name: string, gap: string, body: string)
    requires SimpleCall(name, gap, body) && '\n' !in gap && '\n' !in body
    ensures var text, ls := CallText(name, gap, body), CallLexemes(name, gap, body);
            var p, q := |name|, QuoteAt(name, gap) + 1;
            p < q < |ls| && ls[p].start + 1 <= ls[q].start <= |text| && '\n' !in text[ls[p].start + 1..ls[q].start]
  {
    CallArgument(name, gap, body);
    CallParens(name, gap, body);
  }

  /** A call without a line break between its parentheses. */
  lemma UnbrokenIsSilent(text: string, ls: seq<Lexeme>, m: Match, p: nat, q: nat)
    requires Lexing(text, 0, ls) && IsCallMatch(text, m) && BeginsLexeme(ls, m.start) && CallAt(text, ls, m, p, q)
    requires p < q < |ls| && ls[p].start + 1 <= ls[q].start <= |text| && '\n' !in text[ls[p].start + 1..ls[q].start]
    ensures Contribution(text, ls, m, true) == []
  {
    LineContribution(text, ls, m, p, q);
  }

  lemma CallParens(name: string, gap: string, body: string)
    ensures var ls, q := CallLexemes(name, gap, body), QuoteAt(name, gap) + 1;
            |ls| == q + 1 && ls[|name|].start == |name| && ls[q].start == q + |body| + 1
  {
    CallLexemeAt(name, gap, body, |name|);
    CallLexemeAt(name, gap, body, QuoteAt(name, gap) + 1);
  }

  lemma BrokenText(name: string, gap: string, body: string)
    ensures var text := CallText(name, gap, body);
            |name| + 1 <= |text| && Spaced(text, |name| + 1, '\n') == name + "(\n" + gap + "\"" + body + "\")"
  {
    var text := CallText(name, gap, body);
    assert text[..|name| + 1] == name + "(" && text[|name| + 1..] == gap + "\"" + body + "\")";
  }

  /** With a line break behind its parenthesis, it contributes its literal. */
  lemma BrokenCall(name: string, gap: string, body: string, other: string, ms: seq<Lexeme>)
    requires SimpleCall(name, gap, body)
    requires other == name + "(\n" + gap + "\"" + body + "\")" && Lexing(other, 0, ms)
    ensures Contribution(other, ms, CallMatch(name), true) == [body]
  {
    var text, ls, p, q := CallText(name, gap, body), CallLexemes(name, gap, body), |name|, QuoteAt(name, gap) + 1;
    var m, n := CallMatch(name), p + 1;
    CallLexing(name, gap, body);
    CallIsCall(name, gap, body);
    CallStarts(name, gap, body);
    BrokenText(name, gap, body);
    assert SpacedMatch(n, m) == m;
    BreakAdds(text, ls, n, other, ms, m, p, q);
  }

  lemma CallStarts(name: string, gap: string, body: string)
    ensures var ls := CallLexemes(name, gap, body);
            |ls| == QuoteAt(name, gap) + 2 && ls[|name| + 1].start == |name| + 1
  {
    CallLexemeAt(name, gap, body, |name| + 1);
  }

  lemma BreakAdds(
    text: string, ls: seq<Lexeme>, n: nat, other: string, ms: seq<Lexeme>, m: Match, p: nat, q: nat
  )
    requires Lexing(text, 0, ls) && p < n <= q < |ls| && ls[n].start <= |text|
    requires other == Spaced(text, ls[n].start, '\n') && Lexing(other, 0, ms)
    requires IsCallMatch(text, m) && BeginsLexeme(ls, m.start) && CallAt(text, ls, m, p, q)
    ensures Contribution(other, ms, SpacedMatch(ls[n].start, m), true) == Contribution(text, ls, m, false)
  {
    var spaced := SpacedLexing(text, ls, n, '\n');
    LexingUnique(other, 0, ms, spaced);
    LineContributionAfter(text, ls, n, '\n', ms, m, p, q);
  }

  const ONE_LINE := "require(b + \"scripts/ops/x\")"
  const BROKEN := "require(\nb + \"scripts/ops/x\")"

  lemma {:induction false} NoBackslashNoRun(body: string, i: nat)
    requires i <= |body| && '\\' !in body
    ensures BackslashRun(body, 0, i) == 0
  {
    assert forall k :: 0 <= k < |body| ==> body[k] in body;
  }

  lemma CleanBody(body: string)
    requires '\\' !in body && '"' !in body
    ensures WellEscaped('"', body)
  {
    NoBackslashNoRun(body, |body|);
    assert forall k :: 0 <= k < |body| ==> body[k] in body;
  }

  lemma RequireIsSimple()
    ensures SimpleCall("require", "b + ", "scripts/ops/x")
  {
    CleanBody("scripts/ops/x");
  }

  lemma RequireTexts()
    ensures CallText("require", "b + ", "scripts/ops/x") == ONE_LINE
    ensures "require" + "(\n" + "b + " + "\"" + "scripts/ops/x" + "\")" == BROKEN
  {
  }

  lemma OneFingerprint(path: string, name: string, literal: string)
    requires HasScriptsOps(literal)
    ensures |FingerprintsOf(path, name, [literal])| == 1
  {
  }

  /** A call that has no fingerprint, and has one once it is broken behind its parenthesis. */
  lemma BrokenRequireIsNew(path: string, ls: seq<Lexeme>, ms: seq<Lexeme>)
    requires Lexing(ONE_LINE, 0, ls) && Lexing(BROKEN, 0, ms)
    ensures FingerprintsOf(path, "require", Contribution(ONE_LINE, ls, CallMatch("require"), true)) == []
    ensures |FingerprintsOf(path, "require", Contribution(BROKEN, ms, CallMatch("require"), true))| == 1
  {
    var name, gap, body := "require", "b + ", "scripts/ops/x";
    RequireIsSimple();
    RequireTexts();
    CallLexing(name, gap, body);
    LexingUnique(ONE_LINE, 0, ls, CallLexemes(name, gap, body));
    OneLineCall(name, gap, body);
    BrokenCall(name, gap, body, BROKEN, ms);
    assert "scripts/ops" <= body;
    OneFingerprint(path, name, body);
  }
}
