/** Normalisation of a dependency target before fingerprints are compared. */
module JsTarget {
  /** The characters that Python's `str.strip` removes. */
  predicate IsSpace(c: char) {
    || '\t' <= c <= '\r' || '\U{1C}' <= c <= ' ' || c == '\U{85}' || c == '\U{A0}' || c == '\U{1680}'
    || '\U{2000}' <= c <= '\U{200A}' || c == '\U{2028}' || c == '\U{2029}' || c == '\U{202F}'
    || c == '\U{205F}' || c == '\U{3000}'
  }

  function StripLeft(s: string): string {
    if s != "" && IsSpace(s[0]) then StripLeft(s[1..]) else s
  }

  function StripRight(s: string): string {
    if s != "" && IsSpace(s[|s| - 1]) then StripRight(s[..|s| - 1]) else s
  }

  function Strip(s: string): string {
    StripRight(StripLeft(s))
  }

  /** Backslashes become slashes. */
  function Slashes(s: string): string {
    seq(|s|, i requires 0 <= i < |s| => if s[i] == '\\' then '/' else s[i])
  }

  predicate HasDoubleSlash(s: string) {
    exists i :: 0 <= i < |s| - 1 && s[i] == '/' && s[i + 1] == '/'
  }

  /** Python's `replace("//", "/")`: non-overlapping occurrences, from the left. */
  function ReplaceDouble(s: string): string {
    if s == "" then ""
    else if |s| >= 2 && s[0] == '/' && s[1] == '/' then "/" + ReplaceDouble(s[2..])
    else [s[0]] + ReplaceDouble(s[1..])
  }

  /** Every run of slashes becomes one slash, in one pass. */
  function Collapse(s: string): string {
    if s == "" then ""
    else if |s| >= 2 && s[0] == '/' && s[1] == '/' then Collapse(s[1..])
    else [s[0]] + Collapse(s[1..])
  }

  /** Leading `./` prefixes are dropped, as many as there are. */
  function DropDotSlash(s: string): string {
    if |s| >= 2 && s[0] == '.' && s[1] == '/' then DropDotSlash(s[2..]) else s
  }

  function Normalized(raw: string): string {
    DropDotSlash(Collapse(Slashes(Strip(raw))))
  }

  predicate Blank(s: string) {
    forall i :: 0 <= i < |s| ==> IsSpace(s[i])
  }

  lemma {:induction false} StripSpaceBehind(s: string)
    requires s != "" && IsSpace(s[|s| - 1])
    ensures Strip(s[..|s| - 1]) == Strip(s)
    decreases |s|
  {
    var t := s[..|s| - 1];
    if |s| == 1 {
      assert t == "" && StripLeft(s) == "";
    } else if IsSpace(s[0]) {
      assert t[1..] == s[1..][..|s| - 2];
      StripSpaceBehind(s[1..]);
    } else {
      assert StripLeft(s) == s && StripLeft(t) == t;
    }
  }

  /** Stripping takes away the white space around a text, all of it, and nothing else. */
  lemma {:induction false} StripAround(before: string, text: string, after: string)
    requires Blank(before) && Blank(after)
    requires text == "" || (!IsSpace(text[0]) && !IsSpace(text[|text| - 1]))
    ensures Strip(before + text + after) == text
    decreases |before| + |after|
  {
    var s := before + text + after;
    if before != "" {
      assert s[1..] == before[1..] + text + after;
      StripAround(before[1..], text, after);
    } else if after != "" {
      assert s[..|s| - 1] == before + text + after[..|after| - 1];
      StripSpaceBehind(s);
      StripAround(before, text, after[..|after| - 1]);
    } else {
      assert s == text;
    }
  }

  lemma {:induction false} ReplaceDoubleShrinks(s: string)
    ensures |ReplaceDouble(s)| <= |s|
    ensures HasDoubleSlash(s) ==> |ReplaceDouble(s)| < |s|
    ensures s != "" ==> ReplaceDouble(s) != "" && ReplaceDouble(s)[0] == s[0]
    decreases |s|
  {
    if s == "" {
    } else if |s| >= 2 && s[0] == '/' && s[1] == '/' {
      ReplaceDoubleShrinks(s[2..]);
    } else {
      ReplaceDoubleShrinks(s[1..]);
      if i :| 0 <= i < |s| - 1 && s[i] == '/' && s[i + 1] == '/' {
        assert s[1..][i - 1] == '/' && s[1..][i] == '/';
      }
    }
  }

  /** One round of replacement leaves the collapsed form as it was. */
  lemma {:induction false} CollapseAbsorbsReplace(s: string)
    ensures Collapse(ReplaceDouble(s)) == Collapse(s)
    decreases |s|
  {
    if s == "" {
    } else if |s| >= 2 && s[0] == '/' && s[1] == '/' {
      var t := s[2..];
      CollapseAbsorbsReplace(t);
      ReplaceDoubleShrinks(t);
      assert s[1..][1..] == t && ("/" + ReplaceDouble(t))[1..] == ReplaceDouble(t);
    } else {
      var t := s[1..];
      CollapseAbsorbsReplace(t);
      ReplaceDoubleShrinks(t);
      assert ([s[0]] + ReplaceDouble(t))[1..] == ReplaceDouble(t);
    }
  }

  lemma {:induction false} CollapseOfSingle(s: string)
    requires !HasDoubleSlash(s)
    ensures Collapse(s) == s
    decreases |s|
  {
    if s != "" {
      assert forall i :: 0 <= i < |s| - 1 ==> s[1..][i] == s[i + 1];
      CollapseOfSingle(s[1..]);
      assert s == [s[0]] + s[1..];
    }
  }

  /** The two loops: the replacement is repeated until nothing is left to replace. */
  method NormalizeJsTarget(raw: string) returns (normalized: string)
    ensures normalized == Normalized(raw)
  {
    normalized := Slashes(Strip(raw));
    while HasDoubleSlash(normalized)
      invariant Collapse(normalized) == Collapse(Slashes(Strip(raw)))
      decreases |normalized|
    {
      ReplaceDoubleShrinks(normalized);
      CollapseAbsorbsReplace(normalized);
      normalized := ReplaceDouble(normalized);
    }
    CollapseOfSingle(normalized);
    while |normalized| >= 2 && normalized[..2] == "./"
      invariant DropDotSlash(normalized) == Normalized(raw)
      decreases |normalized|
    {
      normalized := normalized[2..];
    }
  }

  // ---------------------------------------------------------------------------------------
  // The form of a normalised target
  // ---------------------------------------------------------------------------------------

  predicate Canonical(s: string) {
    && '\\' !in s
    && !HasDoubleSlash(s)
    && !(|s| >= 2 && s[0] == '.' && s[1] == '/')
  }

  lemma {:induction false} CollapseIsSingle(s: string)
    ensures !HasDoubleSlash(Collapse(s)) && |Collapse(s)| <= |s|
    ensures s != "" ==> Collapse(s) != "" && Collapse(s)[0] == s[0] && Collapse(s)[|Collapse(s)| - 1] == s[|s| - 1]
    ensures forall c :: c in Collapse(s) ==> c in s
    decreases |s|
  {
    if s != "" {
      CollapseIsSingle(s[1..]);
    }
  }

  lemma {:induction false} DropIsSuffix(s: string)
    ensures |DropDotSlash(s)| <= |s| && DropDotSlash(s) == s[|s| - |DropDotSlash(s)|..]
    ensures var t := DropDotSlash(s); !(|t| >= 2 && t[0] == '.' && t[1] == '/')
    decreases |s|
  {
    if |s| >= 2 && s[0] == '.' && s[1] == '/' {
      DropIsSuffix(s[2..]);
    }
  }

  lemma NormalizedIsCanonical(raw: string)
    ensures Canonical(Normalized(raw))
  {
    var u := Slashes(Strip(raw));
    var t := Collapse(u);
    CollapseIsSingle(u);
    DropIsSuffix(t);
    SuffixIsSingle(t, |t| - |DropDotSlash(t)|);
    assert '\\' !in u;
  }

  lemma SuffixIsSingle(t: string, k: nat)
    requires k <= |t| && !HasDoubleSlash(t)
    ensures !HasDoubleSlash(t[k..]) && forall c :: c in t[k..] ==> c in t
  {
    assert forall i :: 0 <= i < |t[k..]| ==> t[k..][i] == t[k + i];
  }

  // ---------------------------------------------------------------------------------------
  // Normalisation keeps the meaning of a path
  // ---------------------------------------------------------------------------------------

  function Segment(name: string): seq<string> {
    if name == "" || name == "." then [] else [name]
  }

  /**
   The names a path goes through, `name` being the one read so far; empty names and `.` stand
   for staying where one is.
   */
  function Segments(path: string, name: string): seq<string> {
    if path == "" then Segment(name)
    else if path[0] == '/' then Segment(name) + Segments(path[1..], "")
    else Segments(path[1..], name + [path[0]])
  }

  predicate Absolute(path: string) {
    path != "" && path[0] == '/'
  }

  lemma {:induction false} CollapseKeepsSegments(s: string, name: string)
    ensures Segments(Collapse(s), name) == Segments(s, name)
    decreases |s|
  {
    if s == "" {
    } else if |s| >= 2 && s[0] == '/' && s[1] == '/' {
      CollapseKeepsSegments(s[1..], name);
      assert Segments(s[1..], "") == Segments(s[2..], "");
    } else {
      var t := Collapse(s[1..]);
      assert ([s[0]] + t)[1..] == t;
      CollapseKeepsSegments(s[1..], if s[0] == '/' then "" else name + [s[0]]);
    }
  }

  lemma {:induction false} DropKeepsSegments(s: string)
    requires !HasDoubleSlash(s)
    ensures Segments(DropDotSlash(s), "") == Segments(s, "")
    ensures Absolute(DropDotSlash(s)) == Absolute(s)
    decreases |s|
  {
    if |s| >= 2 && s[0] == '.' && s[1] == '/' {
      var t := s[2..];
      assert s[1..][1..] == t && "" + "." == ".";
      assert Segments(s, "") == Segments(s[1..], "" + ['.']) == Segments(t, "");
      assert forall i :: 0 <= i < |t| ==> t[i] == s[i + 2];
      DropKeepsSegments(t);
    }
  }

  /** The normalised target names the same file: the same segments, and absolute iff it was. */
  lemma NormalizationKeepsPath(raw: string)
    ensures Segments(Normalized(raw), "") == Segments(Slashes(Strip(raw)), "")
    ensures Absolute(Normalized(raw)) == Absolute(Slashes(Strip(raw)))
  {
    var u := Slashes(Strip(raw));
    CollapseIsSingle(u);
    CollapseKeepsSegments(u, "");
    DropKeepsSegments(Collapse(u));
  }

  // ---------------------------------------------------------------------------------------
  // When a second pass changes nothing
  // ---------------------------------------------------------------------------------------

  lemma {:induction false} StripLeftIsSuffix(s: string)
    ensures |StripLeft(s)| <= |s| && (StripLeft(s) != "" ==> !IsSpace(StripLeft(s)[0]))
    ensures s != "" && IsSpace(s[0]) ==> |StripLeft(s)| < |s|
    decreases |s|
  {
    if s != "" && IsSpace(s[0]) {
      StripLeftIsSuffix(s[1..]);
    }
  }

  lemma {:induction false} StripRightIsPrefix(s: string)
    ensures var t := StripRight(s); |t| <= |s| && t == s[..|t|] && (t != "" ==> !IsSpace(t[|t| - 1]))
    decreases |s|
  {
    if s != "" && IsSpace(s[|s| - 1]) {
      StripRightIsPrefix(s[..|s| - 1]);
    }
  }

  predicate BeginsWithSpace(s: string) {
    s != "" && IsSpace(s[0])
  }

  lemma StripFacts(s: string)
    ensures |Strip(s)| <= |s| && !BeginsWithSpace(Strip(s))
    ensures Strip(s) != "" ==> !IsSpace(Strip(s)[|Strip(s)| - 1])
    ensures BeginsWithSpace(s) ==> |Strip(s)| < |s|
  {
    StripLeftIsSuffix(s);
    StripRightIsPrefix(StripLeft(s));
  }

  lemma NormalizedShrinks(raw: string)
    ensures |Normalized(raw)| <= |Strip(raw)|
    ensures var n := Normalized(raw); n != "" ==> !IsSpace(n[|n| - 1])
  {
    var u := Slashes(Strip(raw));
    StripFacts(raw);
    CollapseIsSingle(u);
    DropIsSuffix(Collapse(u));
  }

  /** A second normalisation changes the result iff the first one has bared a space at its head. */
  lemma SecondPass(raw: string)
    ensures Normalized(Normalized(raw)) == Normalized(raw) <==> !BeginsWithSpace(Normalized(raw))
  {
    var n := Normalized(raw);
    NormalizedIsCanonical(raw);
    NormalizedShrinks(raw);
    StripFacts(n);
    NormalizedShrinks(n);
    if !BeginsWithSpace(n) {
      assert Slashes(n) == n;
      CollapseOfSingle(n);
    }
  }

  predicate IsSlash(c: char) {
    c == '/' || c == '\\'
  }

  function DropSlashes(s: string): string {
    if s != "" && IsSlash(s[0]) then DropSlashes(s[1..]) else s
  }

  /** The text begins with one or more `./` (slashes of either kind, repeated or not) and then a space. */
  predicate SpaceAfterDotSlashes(s: string)
    decreases |s|
  {
    && |s| >= 2 && s[0] == '.' && IsSlash(s[1])
    && |DropSlashes(s[1..])| < |s|
    && var rest := DropSlashes(s[1..]);
    rest != "" && (IsSpace(rest[0]) || SpaceAfterDotSlashes(rest))
  }

  lemma {:induction false} CollapseOfSlashes(s: string)
    requires s != "" && IsSlash(s[0])
    ensures |DropSlashes(s)| < |s|
    ensures Collapse(Slashes(s)) == "/" + Collapse(Slashes(DropSlashes(s)))
    decreases |s|
  {
    assert Slashes(s)[1..] == Slashes(s[1..]);
    if |s| >= 2 && IsSlash(s[1]) {
      CollapseOfSlashes(s[1..]);
    } else {
      assert DropSlashes(s) == s[1..];
    }
  }

  lemma {:induction false} HeadAfterDrop(s: string)
    ensures BeginsWithSpace(DropDotSlash(Collapse(Slashes(s)))) <==> BeginsWithSpace(s) || SpaceAfterDotSlashes(s)
    decreases |s|
  {
    var u := Slashes(s);
    CollapseIsSingle(u);
    if |s| >= 2 && s[0] == '.' {
      assert u[1..] == Slashes(s[1..]);
      assert Collapse(u) == "." + Collapse(u[1..]);
      CollapseIsSingle(u[1..]);
      if IsSlash(s[1]) {
        var rest := DropSlashes(s[1..]);
        CollapseOfSlashes(s[1..]);
        assert Collapse(u) == "./" + Collapse(Slashes(rest));
        assert Collapse(u)[2..] == Collapse(Slashes(rest));
        HeadAfterDrop(rest);
      }
    }
  }

  /**
   Normalising twice equals normalising once exactly when no space follows the leading `./`
   prefixes of the stripped target; in particular on every target without white space.
   */
  lemma IdempotentIff(raw: string)
    ensures Normalized(Normalized(raw)) == Normalized(raw) <==> !SpaceAfterDotSlashes(Strip(raw))
  {
    SecondPass(raw);
    StripFacts(raw);
    HeadAfterDrop(Strip(raw));
  }

  lemma SecondPassCanDiffer()
    ensures Normalized("./ a") == " a" && Normalized(" a") == "a"
  {
    assert StripLeft("./ a") == "./ a" && StripRight("./ a") == "./ a";
    assert Slashes("./ a") == "./ a";
    assert !HasDoubleSlash("./ a");
    CollapseOfSingle("./ a");
    assert DropDotSlash("./ a") == " a";
    assert StripLeft(" a") == StripLeft("a") == "a";
    assert Slashes("a") == "a";
    CollapseOfSingle("a");
  }
}
