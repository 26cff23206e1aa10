/**
 The names of numbered governance scripts: the search as the regular expression makes it, and
 what it finds told without it. Case is folded for ASCII letters only.
 */
module NumberedNames {
  function LowerCase(c: char): char {
    if 'A' <= c <= 'Z' then c - 'A' + 'a' else c
  }

  function LowerCaseAll(s: string): string {
    seq(|s|, i requires 0 <= i < |s| => LowerCase(s[i]))
  }

  /** `[-_]?\d` at the head of `s`. */
  predicate StartsNumber(s: string) {
    var t := if s != "" && (s[0] == '-' || s[0] == '_') then s[1..] else s;
    t != "" && '0' <= t[0] <= '9'
  }

  /** The search for `(?:^|[_.-])(phase|adg)[-_]?\d` from a place where `^` or a separator matches, or not. */
  predicate HasNumberedWord(s: string, atStart: bool) {
    s != "" &&
    (|| (atStart && "phase" <= s && StartsNumber(s[5..]))
     || (atStart && "adg" <= s && StartsNumber(s[3..]))
     || HasNumberedWord(s[1..], IsSeparator(s[0])))
  }

  predicate IsSeparator(c: char) {
    c == '_' || c == '.' || c == '-'
  }

  /** `(phase|adg)[-_]?\d` at position `i`. */
  predicate NumberedWordAt(s: string, i: nat) {
    i <= |s| && (("phase" <= s[i..] && StartsNumber(s[i..][5..])) || ("adg" <= s[i..] && StartsNumber(s[i..][3..])))
  }

  predicate SearchHit(s: string, atStart: bool, i: nat) {
    i < |s| && NumberedWordAt(s, i) && if i == 0 then atStart else IsSeparator(s[i - 1])
  }

  /** The search succeeds exactly when a numbered word stands at the start or behind a separator. */
  lemma {:induction false} HasNumberedWordIff(s: string, atStart: bool)
    ensures HasNumberedWord(s, atStart) <==> exists i: nat :: SearchHit(s, atStart, i)
    decreases |s|
  {
    if s != "" {
      var t := s[1..];
      HasNumberedWordIff(t, IsSeparator(s[0]));
      assert s[0..] == s;
      assert NumberedWordAt(s, 0) && atStart ==> SearchHit(s, atStart, 0);
      forall i: nat
        ensures SearchHit(t, IsSeparator(s[0]), i) <==> SearchHit(s, atStart, i + 1)
      {
        assert i <= |t| ==> t[i..] == s[i + 1..];
      }
      forall i: nat | SearchHit(s, atStart, i)
        ensures HasNumberedWord(s, atStart)
      {
        if i > 0 {
          assert SearchHit(t, IsSeparator(s[0]), i - 1);
        }
      }
    }
  }

  /** The part behind the last slash. */
  function Basename(path: string): string {
    if '/' in path then Basename(path[1..]) else path
  }

  predicate NumberedScript(path: string) {
    "scripts/" <= path && HasNumberedWord(LowerCaseAll(Basename(path)), true)
  }

  // ---------------------------------------------------------------------------------------
  // Numbered scripts, told without the search
  // ---------------------------------------------------------------------------------------

  /** The same letters, in either case; `lower` is in lower case. */
  predicate SameLetters(word: string, lower: string) {
    && |word| == |lower|
    && forall i :: 0 <= i < |word| ==> word[i] == lower[i] || ('A' <= word[i] <= 'Z' && word[i] - 'A' + 'a' == lower[i])
  }

  /** Perhaps a mark, and a digit. */
  ghost predicate BeginsWithNumber(s: string) {
    exists mark, tail: string, d: char ::
      s == mark + [d] + tail && (mark == "" || mark == "-" || mark == "_") && '0' <= d <= '9'
  }

  /** The word, in any case, and a number. */
  ghost predicate BeginsWith(s: string, lower: string) {
    exists word, rest: string :: s == word + rest && SameLetters(word, lower) && BeginsWithNumber(rest)
  }

  /** `phase` or `adg` with a number stands at the start or behind a separator. */
  ghost predicate IsNumberedName(name: string) {
    exists i: nat :: i <= |name| && (BeginsWith(name[i..], "phase") || BeginsWith(name[i..], "adg"))
      && (i == 0 || name[i - 1] == '_' || name[i - 1] == '.' || name[i - 1] == '-')
  }

  /** Position `k` begins the last component of the path. */
  predicate LastComponent(path: string, k: nat) {
    k <= |path| && (k == 0 || path[k - 1] == '/') && '/' !in path[k..]
  }

  /** A file under `scripts/` with a numbered name. */
  ghost predicate IsNumberedScript(path: string) {
    && (exists rest: string :: path == "scripts/" + rest)
    && exists k: nat :: LastComponent(path, k) && IsNumberedName(path[k..])
  }

  lemma {:induction false} BasenameIs(path: string, k: nat)
    requires LastComponent(path, k)
    ensures Basename(path) == path[k..]
    decreases k
  {
    if k > 0 {
      assert path[1..][k - 1..] == path[k..];
      assert k > 1 ==> path[1..][k - 2] == path[k - 1];
      BasenameIs(path[1..], k - 1);
    } else {
      assert path[0..] == path;
    }
  }

  lemma {:induction false} BasenameExists(path: string) returns (k: nat)
    ensures LastComponent(path, k)
    decreases |path|
  {
    k := 0;
    assert path[0..] == path;
    if '/' in path {
      var j := BasenameExists(path[1..]);
      k := j + 1;
      assert path[1..][j..] == path[k..];
      assert path == [path[0]] + path[1..];
      assert j > 0 ==> path[1..][j - 1] == path[k - 1];
      assert path[1..][0..] == path[1..];
    }
  }

  lemma LowerConcat(s: string, t: string)
    ensures LowerCaseAll(s + t) == LowerCaseAll(s) + LowerCaseAll(t)
  {
  }

  lemma LowerWordIff(word: string, lower: string)
    requires forall i :: 0 <= i < |lower| ==> 'a' <= lower[i] <= 'z'
    ensures LowerCaseAll(word) == lower <==> SameLetters(word, lower)
  {
    if LowerCaseAll(word) == lower {
      forall i | 0 <= i < |word|
        ensures word[i] == lower[i] || ('A' <= word[i] <= 'Z' && word[i] - 'A' + 'a' == lower[i])
      {
        assert LowerCaseAll(word)[i] == lower[i];
      }
    }
  }

  lemma StartsNumberIff(s: string)
    ensures StartsNumber(LowerCaseAll(s)) <==> BeginsWithNumber(s)
  {
    var l := LowerCaseAll(s);
    if StartsNumber(l) {
      if s[0] == '-' || s[0] == '_' {
        assert l[1..][0] == LowerCase(s[1]);
        assert s == [s[0]] + [s[1]] + s[2..];
      } else {
        assert s == "" + [s[0]] + s[1..];
      }
    }
    if mark: string, tail: string, d: char :|
      s == mark + [d] + tail && (mark == "" || mark == "-" || mark == "_") && '0' <= d <= '9'
    {
      assert mark != "" ==> s[0] == mark[0] && l[1..][0] == LowerCase(s[1]) == d;
      assert mark == "" ==> s[0] == d;
    }
  }

  /** The search for one word at the head of a text, and what it finds. */
  lemma WordIff(s: string, lower: string)
    requires forall k :: 0 <= k < |lower| ==> 'a' <= lower[k] <= 'z'
    ensures lower <= LowerCaseAll(s) && StartsNumber(LowerCaseAll(s)[|lower|..]) <==> BeginsWith(s, lower)
  {
    var n := |lower|;
    if n <= |s| {
      SplitWord(s[..n], s[n..], lower);
      assert s == s[..n] + s[n..];
    }
    if word: string, rest: string :| s == word + rest && SameLetters(word, lower) && BeginsWithNumber(rest) {
      SplitWord(word, rest, lower);
    }
  }

  lemma SplitWord(word: string, rest: string, lower: string)
    requires |word| == |lower| && forall k :: 0 <= k < |lower| ==> 'a' <= lower[k] <= 'z'
    ensures var l := LowerCaseAll(word + rest);
            lower <= l && StartsNumber(l[|lower|..]) <==> SameLetters(word, lower) && BeginsWithNumber(rest)
  {
    LowerConcat(word, rest);
    LowerWordIff(word, lower);
    StartsNumberIff(rest);
    var l := LowerCaseAll(word + rest);
    assert l[..|lower|] == LowerCaseAll(word) && l[|lower|..] == LowerCaseAll(rest);
    assert lower <= l <==> l[..|lower|] == lower;
  }

  lemma LowerSuffix(name: string, i: nat)
    requires i <= |name|
    ensures LowerCaseAll(name)[i..] == LowerCaseAll(name[i..])
  {
  }

  lemma SearchHitIff(name: string, i: nat)
    requires i <= |name|
    ensures SearchHit(LowerCaseAll(name), true, i) <==>
              && (BeginsWith(name[i..], "phase") || BeginsWith(name[i..], "adg"))
              && (i == 0 || name[i - 1] == '_' || name[i - 1] == '.' || name[i - 1] == '-')
  {
    LowerSuffix(name, i);
    WordIff(name[i..], "phase");
    WordIff(name[i..], "adg");
  }

  lemma NumberedNameIff(name: string)
    ensures HasNumberedWord(LowerCaseAll(name), true) <==> IsNumberedName(name)
  {
    HasNumberedWordIff(LowerCaseAll(name), true);
    if i: nat :| SearchHit(LowerCaseAll(name), true, i) {
      SearchHitIff(name, i);
    }
    if i: nat :| i <= |name| && (BeginsWith(name[i..], "phase") || BeginsWith(name[i..], "adg"))
                 && (i == 0 || name[i - 1] == '_' || name[i - 1] == '.' || name[i - 1] == '-') {
      SearchHitIff(name, i);
    }
  }

  /** A path is taken for a numbered script exactly if it is a file under `scripts/` with such a name. */
  lemma NumberedScriptIff(path: string)
    ensures NumberedScript(path) <==> IsNumberedScript(path)
  {
    var k := BasenameExists(path);
    BasenameIs(path, k);
    NumberedNameIff(path[k..]);
    if "scripts/" <= path {
      assert path == "scripts/" + path[8..];
    }
    forall j: nat | LastComponent(path, j)
      ensures path[j..] == path[k..]
    {
      BasenameIs(path, j);
    }
  }
}
