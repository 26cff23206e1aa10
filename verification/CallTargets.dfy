/**
 Collecting call targets: the position query, the balanced scan, literal extraction and
 normalisation put together, for match positions that a regular expression has found.
 */
module CallTargets {
  import opened JsLexer
  import opened Lexemes
  import opened CallArguments
  import opened ParenMatching
  import opened StringLiterals
  import opened Selections
  import JsSpelling
  import JsTarget

  /** A match of `\b<name>\s*\(`, as the half-open span `[start, end)` of the content. */
  datatype Match = Match(start: nat, end: nat)

  predicate IsCallMatch(content: string, m: Match) {
    && m.start < m.end <= |content|
    && PlainRange(content, m.start, m.end)
    && content[m.end - 1] == '('
  }

  datatype Fingerprint = Fingerprint(path: string, language: string, kind: string, target: string)

  /** `scripts/ops` or `scripts.ops` occurs in the value. */
  predicate HasScriptsOps(value: string) {
    |value| >= 11 &&
    ("scripts/ops" <= value || "scripts.ops" <= value || HasScriptsOps(value[1..]))
  }

  /** The search finds the module name wherever it stands. */
  lemma {:induction false} HasScriptsOpsIff(value: string)
    ensures HasScriptsOps(value) <==>
              exists i :: 0 <= i <= |value| && ("scripts/ops" <= value[i..] || "scripts.ops" <= value[i..])
    decreases |value|
  {
    if |value| >= 11 {
      HasScriptsOpsIff(value[1..]);
      assert value[0..] == value;
      assert forall i :: 0 <= i <= |value| - 1 ==> value[1..][i..] == value[i + 1..];
      if i :| 0 <= i <= |value| && ("scripts/ops" <= value[i..] || "scripts.ops" <= value[i..]) {
        assert i > 0 ==> value[i..] == value[1..][i - 1..];
      }
    }
  }

  function FingerprintsOf(path: string, kind: string, literals: seq<string>): seq<Fingerprint> {
    if literals == [] then []
    else if HasScriptsOps(literals[0]) then
      [Fingerprint(path, "javascript", kind, JsTarget.Normalized(literals[0]))]
      + FingerprintsOf(path, kind, literals[1..])
    else FingerprintsOf(path, kind, literals[1..])
  }

  /** `scripts/ops` or `scripts.ops` stands somewhere in the literal. */
  ghost predicate NamesModule(literal: string) {
    exists i :: 0 <= i <= |literal| && ("scripts/ops" <= literal[i..] || "scripts.ops" <= literal[i..])
  }

  /** The target is in normal form, its pieces are those left of the literal, and both lead to the same place. */
  predicate IsFingerprintOf(fp: Fingerprint, path: string, kind: string, literal: string) {
    && fp.path == path && fp.language == "javascript" && fp.kind == kind
    && JsTarget.Canonical(fp.target) && JsSpelling.Split(fp.target) == JsSpelling.Pieces(literal)
    && var whole := JsTarget.Slashes(JsTarget.Strip(literal));
       JsTarget.Segments(fp.target, "") == JsTarget.Segments(whole, "")
       && JsTarget.Absolute(fp.target) == JsTarget.Absolute(whole)
  }

  /** One fingerprint for each literal that names the module, in order. */
  ghost predicate Fingerprinted(fps: seq<Fingerprint>, path: string, kind: string, literals: seq<string>) {
    exists named: seq<string> :: IsSelection(named, literals, NamesModule) && AreFingerprintsOf(fps, path, kind, named)
  }

  predicate AreFingerprintsOf(fps: seq<Fingerprint>, path: string, kind: string, named: seq<string>) {
    |fps| == |named| && forall j :: 0 <= j < |fps| ==> IsFingerprintOf(fps[j], path, kind, named[j])
  }

  lemma FingerprintOfLiteral(path: string, kind: string, literal: string)
    ensures IsFingerprintOf(Fingerprint(path, "javascript", kind, JsTarget.Normalized(literal)), path, kind, literal)
  {
    JsTarget.NormalizedIsCanonical(literal);
    JsTarget.NormalizationKeepsPath(literal);
    JsSpelling.PiecesOfNormalized(literal);
  }

  lemma {:induction false} FingerprintsAreFingerprinted(path: string, kind: string, literals: seq<string>)
    ensures Fingerprinted(FingerprintsOf(path, kind, literals), path, kind, literals)
    decreases |literals|
  {
    if literals == [] {
      SelectionOfNone(NamesModule);
      assert AreFingerprintsOf([], path, kind, []);
    } else {
      var head, rest := literals[0], literals[1..];
      assert literals == [head] + rest;
      FingerprintsAreFingerprinted(path, kind, rest);
      FingerprintedCons(FingerprintsOf(path, kind, rest), path, kind, head, rest);
    }
  }

  lemma FingerprintedCons(fps: seq<Fingerprint>, path: string, kind: string, head: string, rest: seq<string>)
    requires Fingerprinted(fps, path, kind, rest)
    ensures var fp := Fingerprint(path, "javascript", kind, JsTarget.Normalized(head));
            Fingerprinted(if HasScriptsOps(head) then [fp] + fps else fps, path, kind, [head] + rest)
  {
    var fp := Fingerprint(path, "javascript", kind, JsTarget.Normalized(head));
    var named: seq<string> :| IsSelection(named, rest, NamesModule) && AreFingerprintsOf(fps, path, kind, named);
    SelectionOfCons(head, rest, NamesModule, named);
    HasScriptsOpsIff(head);
    FingerprintOfLiteral(path, kind, head);
    if NamesModule(head) {
      MoreFingerprints(fp, fps, path, kind, head, named);
    }
  }

  lemma MoreFingerprints(
    fp: Fingerprint, fps: seq<Fingerprint>, path: string, kind: string, head: string, named: seq<string>
  )
    requires IsFingerprintOf(fp, path, kind, head) && AreFingerprintsOf(fps, path, kind, named)
    ensures AreFingerprintsOf([fp] + fps, path, kind, [head] + named)
  {
  }

  /** Two spellings of a target have the same fingerprint exactly if the same pieces are left of both. */
  lemma SameFingerprintIff(path: string, kind: string, a: string, b: string)
    requires HasScriptsOps(a) && HasScriptsOps(b)
    ensures FingerprintsOf(path, kind, [a]) == FingerprintsOf(path, kind, [b])
            <==> JsSpelling.Pieces(a) == JsSpelling.Pieces(b)
  {
    JsSpelling.SameTargetIff(a, b);
    assert FingerprintsOf(path, kind, [a])[0].target == JsTarget.Normalized(a);
    assert FingerprintsOf(path, kind, [b])[0].target == JsTarget.Normalized(b);
  }

  /** A lexeme begins at the position. */
  ghost predicate BeginsLexeme(ls: seq<Lexeme>, pos: nat) {
    exists n :: 0 <= n < |ls| && ls[n].start == pos
  }

  /** Lexeme `p` is the '(' that ends the match, and lexeme `q` matches it. */
  ghost predicate CallAt(content: string, ls: seq<Lexeme>, m: Match, p: nat, q: nat) {
    Matching(content, ls, p, q) && ls[p].start + 1 == m.end
  }

  /** The literals between lexemes `p` and `q`; none if a line break is asked for and the text between has none. */
  function Between(content: string, ls: seq<Lexeme>, p: nat, q: nat, multiline: bool): seq<string>
    requires p < q < |ls|
  {
    if multiline && !(ls[p].start < ls[q].start <= |content| && '\n' in content[ls[p].start + 1..ls[q].start]) then []
    else LiteralsOf(content, ls[p + 1..q])
  }

  /**
   What a match contributes, told in terms of the file's lexemes alone: nothing unless the match
   starts on a lexeme of its own, outside literals and comments, and its '(' has a partner;
   otherwise the literals between the two.
   */
  ghost function Contribution(content: string, ls: seq<Lexeme>, m: Match, multiline: bool): seq<string> {
    if BeginsLexeme(ls, m.start) && exists p: nat, q: nat :: CallAt(content, ls, m, p, q) then
      var p: nat, q: nat :| CallAt(content, ls, m, p, q);
      Between(content, ls, p, q, multiline)
    else []
  }

  /** What the matches contribute, one after the other. */
  ghost function Contributions(content: string, ls: seq<Lexeme>, matches: seq<Match>, multiline: bool): seq<string> {
    if matches == [] then []
    else
      var n := |matches| - 1;
      Contributions(content, ls, matches[..n], multiline) + Contribution(content, ls, matches[n], multiline)
  }

  /** From a position in code, the scan stays in code over text without quotes and slashes. */
  lemma {:induction false} CodeOverPlain(content: string, i: nat, j: nat)
    requires i <= j <= |content| && CodeAt(content, 0, i) && PlainRange(content, i, j)
    ensures CodeAt(content, 0, j)
    decreases j - i
  {
    if i < j {
      ScanThrough(content, Config(Code, 0), i, i + 1);
      assert Scan(content, Config(Code, i), i + 1) == Config(Code, i + 1);
      CodeOverPlain(content, i + 1, j);
    }
  }

  /** Not being inside a string or comment means resting in code, except on the slash that ends a comment. */
  lemma QueryMeansCode(content: string, p: nat)
    requires p < |content| && content[p] != '/'
    ensures Scan(content, Config(Code, 0), p).state == Code <==> CodeAt(content, 0, p)
  {
    var ls := LexingExists(content, 0);
    var n := CoveringLexeme(content, 0, ls, p);
    ScanOverLexeme(content, 0, ls, n, p);
  }

  lemma LexemeAt(content: string, ls: seq<Lexeme>, p: nat) returns (n: nat)
    requires Lexing(content, 0, ls) && p < |content| && CodeAt(content, 0, p)
    ensures n < |ls| && ls[n].start == p
  {
    CodeAtIsBoundary(content, 0, ls, p);
    n :| 0 <= n < |ls| && ls[n].start == p;
  }

  /** No two lexemes begin at the same position. */
  lemma StartsDiffer(content: string, ls: seq<Lexeme>, p: nat, q: nat)
    requires Lexing(content, 0, ls) && p < |ls| && q < |ls|
    ensures ls[p].start < ls[q].start ==> p < q
    ensures ls[p].start == ls[q].start ==> p == q
  {
    if p < q {
      StartsAscend(content, ls, p, q);
    } else if q < p {
      StartsAscend(content, ls, q, p);
    }
  }

  /** The balanced scan from `start` finds a close. */
  ghost predicate Returns(content: string, start: nat) {
    exists k: nat :: FirstReturn(content, start, k)
  }

  /** A match that is skipped, or whose group never ends, contributes nothing. */
  lemma NoGroupNoCall(content: string, ls: seq<Lexeme>, m: Match, multiline: bool)
    requires IsCallMatch(content, m) && Lexing(content, 0, ls)
    requires CodeAt(content, 0, m.start) ==> !Returns(content, m.end - 1)
    ensures Contribution(content, ls, m, multiline) == []
  {
    CodeAtIsBoundary(content, 0, ls, m.start);
    forall p: nat, q: nat | CallAt(content, ls, m, p, q) && BeginsLexeme(ls, m.start)
      ensures false
    {
      FirstReturnIsMatching(content, ls, p, q);
    }
  }

  /** Only one pair of lexemes is the call of a match: the '(' and the close that the local scan finds. */
  lemma CallIsFirstReturn(content: string, ls: seq<Lexeme>, m: Match, k: nat, p: nat, q: nat)
    requires IsCallMatch(content, m) && Lexing(content, 0, ls)
    requires FirstReturn(content, m.end - 1, k) && CallAt(content, ls, m, p, q)
    ensures ls[p].start == m.end - 1 && ls[q].start == k < |content|
  {
    FirstReturnIsMatching(content, ls, p, q);
  }

  lemma CallExists(content: string, ls: seq<Lexeme>, m: Match, k: nat)
    requires IsCallMatch(content, m) && Lexing(content, 0, ls)
    requires CodeAt(content, 0, m.end - 1) && FirstReturn(content, m.end - 1, k) && m.end <= k
    ensures exists p: nat, q: nat :: CallAt(content, ls, m, p, q)
  {
    var open := LexemeAt(content, ls, m.end - 1);
    LocalCloseIsFileClose(content, m.end - 1, k);
    var close := LexemeAt(content, ls, k);
    StartsDiffer(content, ls, open, close);
    CodeParen(content, ls, open);
    FirstReturnIsMatching(content, ls, open, close);
    assert CallAt(content, ls, m, open, close);
  }

  /** When the group of the '(' ends at `k`, the match contributes the literals of the slice between. */
  lemma GroupLiterals(content: string, ls: seq<Lexeme>, m: Match, k: nat, literals: seq<string>, multiline: bool)
    requires IsCallMatch(content, m) && Lexing(content, 0, ls)
    requires CodeAt(content, 0, m.start) && CodeAt(content, 0, m.end - 1) && FirstReturn(content, m.end - 1, k)
    requires m.end <= k
    requires multiline ==> '\n' in content[m.end..k]
    requires forall ms :: Lexing(content[m.end..k], 0, ms) ==> literals == LiteralsOf(content[m.end..k], ms)
    ensures Contribution(content, ls, m, multiline) == literals
  {
    CodeAtIsBoundary(content, 0, ls, m.start);
    CallExists(content, ls, m, k);
    forall p: nat, q: nat | CallAt(content, ls, m, p, q)
      ensures Between(content, ls, p, q, multiline) == literals
    {
      CallIsFirstReturn(content, ls, m, k, p, q);
      var ms := LexingExists(content[m.end..k], 0);
      ArgumentLiteralsAreFileLiterals(content, ls, p, q, m.end, k, ms);
    }
  }

  /** Arguments on one line contribute nothing where a line break is asked for. */
  lemma OneLineContributesNothing(content: string, ls: seq<Lexeme>, m: Match, k: nat)
    requires IsCallMatch(content, m) && Lexing(content, 0, ls)
    requires FirstReturn(content, m.end - 1, k) && m.end <= k && '\n' !in content[m.end..k]
    ensures Contribution(content, ls, m, true) == []
  {
    forall p: nat, q: nat | CallAt(content, ls, m, p, q)
      ensures Between(content, ls, p, q, true) == []
    {
      CallIsFirstReturn(content, ls, m, k, p, q);
    }
  }

  /** One round of the collecting loops; `multiline` is the extra test of the one for `require` and `import`. */
  method CallLiterals(content: string, m: Match, multiline: bool) returns (literals: seq<string>)
    requires IsCallMatch(content, m)
    ensures forall ls :: Lexing(content, 0, ls) ==> literals == Contribution(content, ls, m, multiline)
  {
    var inside := IsPosInsideStringOrComment(content, m.start);
    QueryMeansCode(content, m.start);
    if !inside {
      CodeOverPlain(content, m.start, m.end - 1);
      var args := ExtractCallArgs(content, m.end - 1);
      if args.Some? {
        ghost var k: nat :| m.end <= k && FirstReturn(content, m.end - 1, k) && args.value == content[m.end..k];
        if multiline && '\n' !in args.value {
          forall ls | Lexing(content, 0, ls)
            ensures Contribution(content, ls, m, multiline) == []
          {
            OneLineContributesNothing(content, ls, m, k);
          }
          return [];
        }
        literals := ExtractJsStringLiterals(args.value);
        forall ls | Lexing(content, 0, ls)
          ensures literals == Contribution(content, ls, m, multiline)
        {
          GroupLiterals(content, ls, m, k, literals, multiline);
        }
        return;
      }
    }
    forall ls | Lexing(content, 0, ls)
      ensures Contribution(content, ls, m, multiline) == []
    {
      NoGroupNoCall(content, ls, m, multiline);
    }
    return [];
  }

  /** The filter and normalisation of one call's literals. */
  method FingerprintLiterals(path: string, name: string, literals: seq<string>) returns (fingerprints: seq<Fingerprint>)
    ensures fingerprints == FingerprintsOf(path, name, literals)
    ensures Fingerprinted(fingerprints, path, name, literals)
  {
    fingerprints := [];
    for j := 0 to |literals|
      invariant fingerprints == FingerprintsOf(path, name, literals[..j])
    {
      FingerprintsOfAppend(path, name, literals[..j], [literals[j]]);
      assert literals[..j + 1] == literals[..j] + [literals[j]];
      if HasScriptsOps(literals[j]) {
        var target := JsTarget.NormalizeJsTarget(literals[j]);
        fingerprints := fingerprints + [Fingerprint(path, "javascript", name, target)];
      }
    }
    assert literals[..|literals|] == literals;
    FingerprintsAreFingerprinted(path, name, literals);
  }

  /** The collecting loop over the matches of one function name. */
  method CollectCallTargets(content: string, path: string, name: string, matches: seq<Match>, multiline: bool)
    returns (fingerprints: seq<Fingerprint>)
    requires forall i :: 0 <= i < |matches| ==> IsCallMatch(content, matches[i])
    ensures forall ls :: Lexing(content, 0, ls) ==>
              && fingerprints == FingerprintsOf(path, name, Contributions(content, ls, matches, multiline))
              && Fingerprinted(fingerprints, path, name, Contributions(content, ls, matches, multiline))
  {
    fingerprints := [];
    for n := 0 to |matches|
      invariant forall ls :: Lexing(content, 0, ls) ==>
                  fingerprints == FingerprintsOf(path, name, Contributions(content, ls, matches[..n], multiline))
    {
      var literals := CallLiterals(content, matches[n], multiline);
      var more := FingerprintLiterals(path, name, literals);
      forall ls | Lexing(content, 0, ls)
        ensures fingerprints + more ==
                FingerprintsOf(path, name, Contributions(content, ls, matches[..n + 1], multiline))
      {
        assert matches[..n + 1][..n] == matches[..n];
        FingerprintsOfAppend(path, name, Contributions(content, ls, matches[..n], multiline), literals);
      }
      fingerprints := fingerprints + more;
    }
    assert matches[..|matches|] == matches;
    forall ls | Lexing(content, 0, ls)
      ensures Fingerprinted(fingerprints, path, name, Contributions(content, ls, matches, multiline))
    {
      FingerprintsAreFingerprinted(path, name, Contributions(content, ls, matches, multiline));
    }
  }

  lemma {:induction false} FingerprintsOfAppend(path: string, kind: string, a: seq<string>, b: seq<string>)
    ensures FingerprintsOf(path, kind, a + b) == FingerprintsOf(path, kind, a) + FingerprintsOf(path, kind, b)
  {
    if a == [] {
      assert a + b == b;
    } else {
      FingerprintsOfAppend(path, kind, a[1..], b);
      assert (a + b)[0] == a[0] && (a + b)[1..] == a[1..] + b;
    }
  }
}
