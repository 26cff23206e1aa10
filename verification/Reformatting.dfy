/**
 Reformatting a file: a blank put in before any of its lexemes leaves the tokens, and with them
 the fingerprints of its calls, as they were.
 */
module Reformatting {
  import opened JsLexer
  import opened Lexemes
  import opened CallArguments
  import opened ParenMatching
  import opened StringLiterals
  import opened CallTargets
  import opened Tokens

  // ---------------------------------------------------------------------------------------
  // Behind the blank
  // ---------------------------------------------------------------------------------------

  /** From `a` on the one text reads like the other from `b` on. */
  ghost predicate SameFrom(text: string, a: nat, other: string, b: nat) {
    && a <= |text| && |text| - a == |other| - b
    && forall k :: a <= k < |text| ==> other[k - a + b] == text[k]
  }

  lemma {:induction false} BackslashMoved(text: string, a: nat, other: string, b: nat, from: nat, i: nat)
    requires SameFrom(text, a, other, b) && a <= from <= i <= |text|
    ensures BackslashRun(other, from - a + b, i - a + b) == BackslashRun(text, from, i)
    decreases i
  {
    if from < i {
      assert other[i - 1 - a + b] == text[i - 1];
      BackslashMoved(text, a, other, b, from, i - 1);
    }
  }

  lemma ClosesMoved(text: string, a: nat, other: string, b: nat, kind: Kind, body: nat, j: nat)
    requires SameFrom(text, a, other, b) && a <= body <= j <= |text|
    ensures ClosesAt(other, kind, body - a + b, j - a + b) <==> ClosesAt(text, kind, body, j)
  {
    BackslashMoved(text, a, other, b, body, j);
    assert j < |text| ==> other[j - a + b] == text[j];
    assert j + 1 < |text| ==> other[j + 1 - a + b] == text[j + 1];
  }

  lemma KindMoved(text: string, a: nat, other: string, b: nat, i: nat)
    requires SameFrom(text, a, other, b) && a <= i < |text|
    ensures KindAt(other, i - a + b) == KindAt(text, i)
  {
    assert other[i - a + b] == text[i];
    assert i + 1 < |text| ==> other[i + 1 - a + b] == text[i + 1];
  }

  lemma LexemeMoved(text: string, a: nat, other: string, b: nat, l: Lexeme)
    requires SameFrom(text, a, other, b) && IsLexeme(text, l) && a <= l.start < l.end
    ensures IsLexeme(other, Moved(l, a, b))
  {
    var m := Moved(l, a, b);
    KindMoved(text, a, other, b, l.start);
    if l.closed {
      ClosesMoved(text, a, other, b, l.kind, BodyOf(l), BodyEnd(l));
    }
    forall j | BodyOf(m) <= j < BodyEnd(m)
      ensures !ClosesAt(other, m.kind, BodyOf(m), j)
    {
      ClosesMoved(text, a, other, b, l.kind, BodyOf(l), j - b + a);
    }
  }

  lemma TokenMoved(text: string, a: nat, other: string, b: nat, l: Lexeme)
    requires SameFrom(text, a, other, b) && a <= l.start < l.end <= |text|
    ensures TokenOf(other, Moved(l, a, b)) == TokenOf(text, l)
  {
    var m := Moved(l, a, b);
    assert other[m.start] == text[l.start];
    assert other[m.start..m.end] == text[l.start..l.end];
  }

  lemma {:induction false} LexingMoved(text: string, a: nat, other: string, b: nat, from: nat, ls: seq<Lexeme>)
    returns (ms: seq<Lexeme>)
    requires SameFrom(text, a, other, b) && a <= from && Lexing(text, from, ls)
    ensures Lexing(other, from - a + b, ms) && |ms| == |ls|
    ensures forall i :: 0 <= i < |ls| ==>
              a <= ls[i].start < ls[i].end <= |text| && ms[i] == Moved(ls[i], a, b)
    decreases |ls|
  {
    LexemesAscend(text, from, ls);
    ms := [];
    if ls != [] {
      var l := ls[0];
      var rest := LexingMoved(text, a, other, b, l.end, ls[1..]);
      LexemeMoved(text, a, other, b, l);
      ms := [Moved(l, a, b)] + rest;
      assert ms[1..] == rest;
    }
  }

  // ---------------------------------------------------------------------------------------
  // Before the blank
  // ---------------------------------------------------------------------------------------

  /** The texts begin alike, and then the other one has a blank. */
  ghost predicate SameUpTo(text: string, other: string, at: nat) {
    && at <= |text| && at < |other| && IsBlank(other[at])
    && forall k :: 0 <= k < at ==> other[k] == text[k]
  }

  lemma {:induction false} BackslashKept(text: string, other: string, at: nat, from: nat, i: nat)
    requires SameUpTo(text, other, at) && from <= i <= at
    ensures BackslashRun(other, from, i) == BackslashRun(text, from, i)
    decreases i
  {
    if from < i {
      BackslashKept(text, other, at, from, i - 1);
    }
  }

  lemma ClosesKept(text: string, other: string, at: nat, kind: Kind, body: nat, j: nat)
    requires SameUpTo(text, other, at) && body <= j && j + CloseWidth(kind) <= at
    ensures ClosesAt(other, kind, body, j) <==> ClosesAt(text, kind, body, j)
  {
    BackslashKept(text, other, at, body, j);
  }

  lemma KindKept(text: string, other: string, at: nat, l: Lexeme)
    requires SameUpTo(text, other, at) && IsLexeme(text, l) && l.closed && l.end <= at
    ensures KindAt(other, l.start) == l.kind
  {
    if l.start + 1 == at {
      assert l.kind == CodeChar;
    }
  }

  /** A closed lexeme before the blank is one of the other text too. */
  lemma LexemeKept(text: string, other: string, at: nat, l: Lexeme)
    requires SameUpTo(text, other, at) && IsLexeme(text, l) && l.closed && l.start < l.end <= at
    ensures IsLexeme(other, l) && TokenOf(other, l) == TokenOf(text, l)
  {
    KindKept(text, other, at, l);
    ClosesKept(text, other, at, l.kind, BodyOf(l), BodyEnd(l));
    forall j | BodyOf(l) <= j < BodyEnd(l)
      ensures !ClosesAt(other, l.kind, BodyOf(l), j)
    {
      ClosesKept(text, other, at, l.kind, BodyOf(l), j);
    }
    assert other[l.start..l.end] == text[l.start..l.end];
  }

  lemma {:induction false} LexingKept(
    text: string, other: string, from: nat, at: nat, before: seq<Lexeme>, rest: seq<Lexeme>
  )
    requires SameUpTo(text, other, at) && ClosedRun(text, before, from, at) && Lexing(other, at, rest)
    ensures Lexing(other, from, before + rest)
    decreases |before|
  {
    if before == [] {
      assert before + rest == rest;
    } else {
      var l := before[0];
      LexemeKept(text, other, at, l);
      LexingKept(text, other, l.end, at, before[1..], rest);
      assert before + rest == [l] + (before[1..] + rest);
      PrependLexeme(other, l, before[1..] + rest);
    }
  }

  // ---------------------------------------------------------------------------------------
  // The whole text
  // ---------------------------------------------------------------------------------------

  /** The text with a blank put in at `at`. */
  function Spaced(text: string, at: nat, blank: char): string
    requires at <= |text|
  {
    text[..at] + [blank] + text[at..]
  }

  lemma SpacedParts(text: string, at: nat, blank: char)
    requires at <= |text| && IsBlank(blank)
    ensures SameUpTo(text, Spaced(text, at, blank), at)
    ensures SameFrom(text, at, Spaced(text, at, blank), at + 1)
  {
  }

  /** Where lexeme `i` is found when another one has been put in as number `n`. */
  function Place(n: nat, i: nat): nat {
    if i < n then i else i + 1
  }

  /** A division of the spaced text: the lexemes as they were, the later ones moved by one, and the blank in between. */
  ghost predicate IsSpacing(text: string, ls: seq<Lexeme>, other: string, ms: seq<Lexeme>, n: nat) {
    && n < |ls| && |ms| == |ls| + 1 && TokenOf(other, ms[n]) == [] && ms[n].start == ls[n].start
    && forall i :: 0 <= i < |ls| ==> Corresponds(text, ls[i], other, ms[Place(n, i)], ls[n].start)
  }

  /** The same lexeme, at its place in the spaced text. */
  ghost predicate Corresponds(text: string, l: Lexeme, other: string, m: Lexeme, at: nat) {
    && TokenOf(other, m) == TokenOf(text, l) && m.kind == l.kind
    && m.start == Position(at, l.start)
  }

  /** Where a character is found when a blank has been put in at `at`. */
  function Position(at: nat, x: nat): nat {
    if x < at then x else x + 1
  }

  lemma SpacingBefore(text: string, ls: seq<Lexeme>, n: nat, blank: char, i: nat)
    requires Lexing(text, 0, ls) && i < n < |ls| && IsBlank(blank)
    ensures ls[n].start <= |text|
    ensures Corresponds(text, ls[i], Spaced(text, ls[n].start, blank), ls[i], ls[n].start)
  {
    LexemesAscend(text, 0, ls);
    StartsAscend(text, ls, i, n);
    OnlyLastOpen(text, 0, ls, i);
    SpacedParts(text, ls[n].start, blank);
    LexemeKept(text, Spaced(text, ls[n].start, blank), ls[n].start, ls[i]);
  }

  lemma SpacingBehind(text: string, at: nat, blank: char, l: Lexeme)
    requires IsBlank(blank) && at <= l.start < l.end <= |text|
    ensures Corresponds(text, l, Spaced(text, at, blank), Moved(l, at, at + 1), at)
  {
    SpacedParts(text, at, blank);
    TokenMoved(text, at, Spaced(text, at, blank), at + 1, l);
  }

  lemma BlankLexeme(text: string, at: nat, blank: char)
    requires at <= |text| && IsBlank(blank)
    ensures var l, other := Lexeme(CodeChar, at, at + 1, true), Spaced(text, at, blank);
            IsLexeme(other, l) && TokenOf(other, l) == []
  {
  }

  lemma LexingFrom(text: string, ls: seq<Lexeme>, n: nat)
    requires Lexing(text, 0, ls) && n < |ls|
    ensures Lexing(text, ls[n].start, ls[n..])
    decreases n
  {
    LexingFromTail(text, 0, ls, n);
  }

  lemma {:induction false} LexingFromTail(text: string, from: nat, ls: seq<Lexeme>, n: nat)
    requires Lexing(text, from, ls) && n < |ls|
    ensures Lexing(text, ls[n].start, ls[n..])
    decreases n
  {
    if n == 0 {
      assert ls[0..] == ls;
    } else {
      LexingFromTail(text, ls[0].end, ls[1..], n - 1);
      assert ls[1..][n - 1..] == ls[n..];
    }
  }

  /** From the blank on: the blank, and the later lexemes moved by one. */
  lemma SpacedTail(text: string, ls: seq<Lexeme>, n: nat, blank: char) returns (tail: seq<Lexeme>)
    requires Lexing(text, 0, ls) && n < |ls| && IsBlank(blank)
    ensures var at := ls[n].start;
            && at <= |text| && Lexing(Spaced(text, at, blank), at, tail) && |tail| == |ls| - n + 1
            && tail[0] == Lexeme(CodeChar, at, at + 1, true)
            && forall i :: n <= i < |ls| ==>
                 Corresponds(text, ls[i], Spaced(text, at, blank), tail[i - n + 1], at)
  {
    LexemesAscend(text, 0, ls);
    var at := ls[n].start;
    var other := Spaced(text, at, blank);
    SpacedParts(text, at, blank);
    LexingFrom(text, ls, n);
    var moved := LexingMoved(text, at, other, at + 1, at, ls[n..]);
    var l := Lexeme(CodeChar, at, at + 1, true);
    BlankLexeme(text, at, blank);
    PrependLexeme(other, l, moved);
    tail := [l] + moved;
    forall i | n <= i < |ls|
      ensures Corresponds(text, ls[i], other, tail[i - n + 1], at)
    {
      assert ls[n..][i - n] == ls[i] && tail[i - n + 1] == moved[i - n];
      SpacingBehind(text, at, blank, ls[i]);
    }
  }

  /** A blank before lexeme `n`: the text has a division with the same lexemes otherwise. */
  lemma SpacedLexing(text: string, ls: seq<Lexeme>, n: nat, blank: char) returns (ms: seq<Lexeme>)
    requires Lexing(text, 0, ls) && n < |ls| && IsBlank(blank)
    ensures ls[n].start <= |text|
    ensures Lexing(Spaced(text, ls[n].start, blank), 0, ms)
    ensures IsSpacing(text, ls, Spaced(text, ls[n].start, blank), ms, n)
  {
    var tail := SpacedTail(text, ls, n, blank);
    var at := ls[n].start;
    var other := Spaced(text, at, blank);
    JoinAtBlank(text, ls, n, blank, tail);
    BlankLexeme(text, at, blank);
    ms := ls[0..n] + tail;
    forall i | 0 <= i < |ls|
      ensures Corresponds(text, ls[i], other, ms[Place(n, i)], at)
    {
      if i < n {
        SpacingBefore(text, ls, n, blank, i);
      } else {
        assert ms[i + 1] == tail[i - n + 1];
      }
    }
  }

  lemma JoinAtBlank(text: string, ls: seq<Lexeme>, n: nat, blank: char, tail: seq<Lexeme>)
    requires Lexing(text, 0, ls) && n < |ls| && IsBlank(blank)
    requires ls[n].start <= |text| && Lexing(Spaced(text, ls[n].start, blank), ls[n].start, tail)
    ensures Lexing(Spaced(text, ls[n].start, blank), 0, ls[0..n] + tail)
  {
    var at := ls[n].start;
    LexemesAscend(text, 0, ls);
    SpacedParts(text, at, blank);
    ClosedRunOfLexing(text, ls, 0, n);
    LexingKept(text, Spaced(text, at, blank), 0, at, ls[0..n], tail);
  }

  /** The blank changes neither the tokens nor the index of any. */
  lemma {:induction false} IndexKept(text: string, ls: seq<Lexeme>, other: string, ms: seq<Lexeme>, n: nat, i: nat)
    requires IsSpacing(text, ls, other, ms, n) && i <= |ls|
    ensures TokensOf(other, ms[..Place(n, i)]) == TokensOf(text, ls[..i])
    decreases i
  {
    if i > 0 {
      IndexKept(text, ls, other, ms, n, i - 1);
      IndexStep(text, ls, other, ms, n, i - 1);
    }
    if i == n {
      TokensSnoc(other, ms, n);
    }
  }

  lemma IndexStep(text: string, ls: seq<Lexeme>, other: string, ms: seq<Lexeme>, n: nat, i: nat)
    requires IsSpacing(text, ls, other, ms, n) && i < |ls|
    requires TokensOf(other, ms[..Place(n, i)]) == TokensOf(text, ls[..i])
    ensures TokensOf(other, ms[..Place(n, i) + 1]) == TokensOf(text, ls[..i + 1])
  {
    assert Corresponds(text, ls[i], other, ms[Place(n, i)], ls[n].start);
    TokensSnoc(text, ls, i);
    TokensSnoc(other, ms, Place(n, i));
  }

  lemma TokensKept(text: string, ls: seq<Lexeme>, other: string, ms: seq<Lexeme>, n: nat)
    requires IsSpacing(text, ls, other, ms, n)
    ensures TokensOf(other, ms) == TokensOf(text, ls)
  {
    IndexKept(text, ls, other, ms, n, |ls|);
    assert ls[..|ls|] == ls && ms[..|ms|] == ms;
  }

  // ---------------------------------------------------------------------------------------
  // The calls
  // ---------------------------------------------------------------------------------------

  /** The same match in the spaced text. */
  function SpacedMatch(at: nat, m: Match): Match {
    Match(Position(at, m.start), if m.end > 0 then Position(at, m.end - 1) + 1 else 0)
  }

  lemma SpacedIsMatch(text: string, at: nat, blank: char, m: Match)
    requires at <= |text| && IsBlank(blank) && IsCallMatch(text, m)
    ensures IsCallMatch(Spaced(text, at, blank), SpacedMatch(at, m))
  {
    var other, m' := Spaced(text, at, blank), SpacedMatch(at, m);
    forall k | m'.start <= k < m'.end
      ensures !IsQuote(other[k]) && other[k] != '/'
    {
      if k < at {
        assert other[k] == text[k];
      } else if k > at {
        assert other[k] == text[k - 1];
      }
    }
  }

  lemma BeginsKept(text: string, ls: seq<Lexeme>, other: string, ms: seq<Lexeme>, n: nat, x: nat)
    requires IsSpacing(text, ls, other, ms, n)
    ensures BeginsLexeme(ls, x) <==> BeginsLexeme(ms, Position(ls[n].start, x))
  {
    var at := ls[n].start;
    if i :| 0 <= i < |ls| && ls[i].start == x {
      assert Corresponds(text, ls[i], other, ms[Place(n, i)], at);
    }
    if k :| 0 <= k < |ms| && ms[k].start == Position(at, x) {
      assert k != n;
      var i := if k < n then k else k - 1;
      assert Corresponds(text, ls[i], other, ms[Place(n, i)], at);
    }
  }

  lemma OpensKept(text: string, ls: seq<Lexeme>, other: string, ms: seq<Lexeme>, n: nat, m: Match, p: nat)
    requires IsSpacing(text, ls, other, ms, n) && Lexing(text, 0, ls) && Lexing(other, 0, ms)
    requires OpensAt(text, ls, m, p)
    ensures OpensAt(other, ms, SpacedMatch(ls[n].start, m), Place(n, p))
    ensures TokenIndex(other, ms, Place(n, p)) == TokenIndex(text, ls, p)
  {
    var at, q := ls[n].start, Place(n, p);
    assert Corresponds(text, ls[p], other, ms[q], at);
    LexemesAscend(text, 0, ls);
    LexemesAscend(other, 0, ms);
    ParenKept(text, ls[p], other, ms[q], at);
    IndexKept(text, ls, other, ms, n, p);
  }

  lemma ParenKept(text: string, l: Lexeme, other: string, m: Lexeme, at: nat)
    requires Corresponds(text, l, other, m, at) && IsLexeme(text, l) && IsLexeme(other, m)
    requires l.end <= |text| && m.end <= |other| && IsParen(text, l, '(')
    ensures IsParen(other, m, '(')
  {
    TokenOfParen(text, l, '(');
    TokenOfParen(other, m, '(');
  }

  /** A match outside literals and comments ends in a '(' of its own lexeme. */
  lemma OpensSomewhere(text: string, ls: seq<Lexeme>, m: Match) returns (p: nat)
    requires Lexing(text, 0, ls) && IsCallMatch(text, m) && BeginsLexeme(ls, m.start)
    ensures OpensAt(text, ls, m, p)
  {
    CodeAtIsBoundary(text, 0, ls, m.start);
    CodeOverPlain(text, m.start, m.end - 1);
    p := LexemeAt(text, ls, m.end - 1);
    CodeParen(text, ls, p);
  }

  lemma SpacedIsSameCall(text: string, ls: seq<Lexeme>, other: string, ms: seq<Lexeme>, n: nat, m: Match)
    requires IsSpacing(text, ls, other, ms, n) && Lexing(text, 0, ls) && Lexing(other, 0, ms)
    requires IsCallMatch(text, m)
    ensures SameCall(text, ls, m, other, ms, SpacedMatch(ls[n].start, m))
  {
    BeginsKept(text, ls, other, ms, n, m.start);
    if BeginsLexeme(ls, m.start) {
      var p := OpensSomewhere(text, ls, m);
      OpensKept(text, ls, other, ms, n, m, p);
    }
  }

  function SpacedMatches(at: nat, matches: seq<Match>): seq<Match> {
    seq(|matches|, i requires 0 <= i < |matches| => SpacedMatch(at, matches[i]))
  }

  /**
   A blank, or a line break, before any lexeme of a file changes no fingerprint of the calls that
   are collected over whole contents, as long as it leaves them their matches, moved: calls that
   are only laid out anew are not new.
   */
  lemma BlankKeepsFingerprints(
    text: string, ls: seq<Lexeme>, n: nat, blank: char, ms: seq<Lexeme>, path: string, name: string, matches: seq<Match>
  )
    requires Lexing(text, 0, ls) && n < |ls| && IsBlank(blank) && ls[n].start <= |text|
    requires Lexing(Spaced(text, ls[n].start, blank), 0, ms)
    requires forall i :: 0 <= i < |matches| ==> IsCallMatch(text, matches[i])
    ensures var other, moved := Spaced(text, ls[n].start, blank), SpacedMatches(ls[n].start, matches);
            && (forall i :: 0 <= i < |moved| ==> IsCallMatch(other, moved[i]))
            && FingerprintsOf(path, name, Contributions(other, ms, moved, false))
               == FingerprintsOf(path, name, Contributions(text, ls, matches, false))
  {
    var at := ls[n].start;
    var other, moved := Spaced(text, at, blank), SpacedMatches(at, matches);
    var spaced := SpacedLexing(text, ls, n, blank);
    LexingUnique(other, 0, ms, spaced);
    TokensKept(text, ls, other, ms, n);
    forall i | 0 <= i < |matches|
      ensures IsCallMatch(other, moved[i]) && SameCall(text, ls, matches[i], other, ms, moved[i])
    {
      SpacedIsMatch(text, at, blank, matches[i]);
      SpacedIsSameCall(text, ls, other, ms, n, matches[i]);
    }
    SameContributions(text, ls, matches, other, ms, moved);
  }
}
