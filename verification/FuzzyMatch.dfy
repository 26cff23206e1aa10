/** Matching a team name against a part of a URL. Lower-casing is a parameter. */
module FuzzyMatch {
  import opened EditDistance
  import opened Selections

  predicate IsAlphanumeric(c: char) {
    'a' <= c <= 'z' || '0' <= c <= '9'
  }

  function KeepAlphanumeric(s: string): string {
    if s == "" then ""
    else if IsAlphanumeric(s[0]) then [s[0]] + KeepAlphanumeric(s[1..])
    else KeepAlphanumeric(s[1..])
  }

  /** The length of the club word that stands at the head of `s`, or 0. */
  function ClubWord(s: string): (n: nat)
    ensures n <= |s|
  {
    if "fc" <= s then 2 else if "united" <= s then 6 else if "city" <= s || "town" <= s then 4 else 0
  }

  /** One pass from the left, without looking again at what a removal brings together. */
  function DropClubWords(s: string): string {
    if s == "" then ""
    else if ClubWord(s) > 0 then DropClubWords(s[ClubWord(s)..])
    else [s[0]] + DropClubWords(s[1..])
  }

  function Normalize(lower: string -> string, s: string): string {
    DropClubWords(KeepAlphanumeric(lower(s)))
  }

  predicate Includes(s: string, part: string) {
    part <= s || (s != "" && Includes(s[1..], part))
  }

  /** One text contains the other, or at most two single-character edits lead from one to the other. */
  ghost predicate Alike(s: string, t: string) {
    Includes(t, s) || Includes(s, t) || WithinEdits(s, t, 2)
  }

  method Matches(lower: string -> string, teamName: string, urlPart: string) returns (matched: bool)
    ensures matched <==> Alike(Normalize(lower, teamName), Normalize(lower, urlPart))
  {
    var teamNorm := Normalize(lower, teamName);
    var urlNorm := Normalize(lower, urlPart);
    if Includes(urlNorm, teamNorm) || Includes(teamNorm, urlNorm) {
      return true;
    }
    var distance := Levenshtein(teamNorm, urlNorm);
    DistanceIsShortest(teamNorm, urlNorm, 2);
    return distance <= 2;
  }

  lemma AlikeSymmetric(s: string, t: string)
    ensures Alike(s, t) <==> Alike(t, s)
  {
    DistanceIsShortest(s, t, 2);
    DistanceIsShortest(t, s, 2);
    Symmetric(s, t);
  }

  lemma {:induction false} IncludesLength(s: string, part: string)
    requires Includes(s, part)
    ensures |part| <= |s|
  {
    if !(part <= s) {
      IncludesLength(s[1..], part);
    }
  }

  /** Texts whose lengths differ by more than two are alike only if the longer contains the shorter. */
  lemma LongTextsNeedContainment(s: string, t: string)
    requires |t| > |s| + 2
    ensures Alike(s, t) <==> Includes(t, s)
  {
    DistanceIsShortest(s, t, 2);
    LengthBounds(s, t);
    if Includes(s, t) {
      IncludesLength(s, t);
    }
  }

  /** Equal arguments match; so does everything with a name that normalises to nothing. */
  lemma AlwaysMatch(lower: string -> string, s: string, t: string)
    ensures Alike(Normalize(lower, s), Normalize(lower, s))
    ensures Normalize(lower, s) == "" ==> Alike(Normalize(lower, s), Normalize(lower, t))
  {
    assert Includes(Normalize(lower, t), "");
  }

  lemma {:induction false} KeepPrefix(s: string, t: string)
    requires forall i :: 0 <= i < |s| ==> IsAlphanumeric(s[i])
    ensures KeepAlphanumeric(s + t) == s + KeepAlphanumeric(t)
  {
    if s == "" {
      assert s + t == t;
    } else {
      KeepPrefix(s[1..], t);
      assert (s + t)[0] == s[0] && (s + t)[1..] == s[1..] + t;
    }
  }

  lemma {:induction false} KeptAreAlphanumeric(s: string)
    ensures forall i :: 0 <= i < |KeepAlphanumeric(s)| ==> IsAlphanumeric(KeepAlphanumeric(s)[i])
  {
    if s != "" {
      KeptAreAlphanumeric(s[1..]);
    }
  }

  /** Exactly the alphanumeric characters are kept, in order. */
  lemma {:induction false} KeptIsSelection(s: string)
    ensures IsSelection(KeepAlphanumeric(s), s, IsAlphanumeric)
  {
    if s == "" {
      SelectionOfNone(IsAlphanumeric);
    } else {
      KeptIsSelection(s[1..]);
      SelectionOfCons(s[0], s[1..], IsAlphanumeric, KeepAlphanumeric(s[1..]));
      assert s == [s[0]] + s[1..];
    }
  }

  /** A club word stands at position `i`. */
  predicate WordAt(s: string, i: nat)
    requires i <= |s|
  {
    "fc" <= s[i..] || "united" <= s[i..] || "city" <= s[i..] || "town" <= s[i..]
  }

  predicate IsClubWord(w: string) {
    w == "fc" || w == "united" || w == "city" || w == "town"
  }

  lemma WordIsFound(w: string, rest: string)
    requires IsClubWord(w)
    ensures ClubWord(w + rest) == |w| && DropClubWords(w + rest) == DropClubWords(rest)
  {
    assert w + rest != "" && (w + rest)[0] == w[0] && (w + rest)[|w|..] == rest;
  }

  lemma LetterStays(s: string)
    requires s != "" && !WordAt(s, 0)
    ensures DropClubWords(s) == [s[0]] + DropClubWords(s[1..])
  {
    assert s[0..] == s;
  }

  lemma WordInRest(s: string, i: nat)
    requires i < |s|
    ensures WordAt(s[1..], i) <==> WordAt(s, i + 1)
  {
    assert s[1..][i..] == s[i + 1..];
  }

  /** The first club word goes, and the pass continues behind it. */
  lemma {:induction false} FirstWordDrops(s: string, i: nat, w: string, rest: string)
    requires IsClubWord(w) && i <= |s| && s[i..] == w + rest && forall j :: 0 <= j < i ==> !WordAt(s, j)
    ensures DropClubWords(s) == s[..i] + DropClubWords(rest)
  {
    if i == 0 {
      assert s == s[0..] == w + rest;
      WordIsFound(w, rest);
      assert s[..0] == "";
    } else {
      NoWordInTail(s, i);
      assert s[1..][i - 1..] == s[i..];
      FirstWordDrops(s[1..], i - 1, w, rest);
      assert !WordAt(s, 0);
      LetterStays(s);
      HeadAndTail(s, i, DropClubWords(rest));
    }
  }

  lemma HeadAndTail(s: string, i: nat, dropped: string)
    requires 0 < i <= |s|
    ensures s[..i] + dropped == [s[0]] + (s[1..][..i - 1] + dropped)
  {
    assert s[..i] == [s[0]] + s[1..][..i - 1];
  }

  lemma NoWordInTail(s: string, i: nat)
    requires 0 < i <= |s| && forall j :: 0 <= j < i ==> !WordAt(s, j)
    ensures forall j :: 0 <= j < i - 1 ==> !WordAt(s[1..], j)
  {
    forall j | 0 <= j < i - 1
      ensures !WordAt(s[1..], j)
    {
      WordInRest(s, j);
    }
  }

  /** Without a club word nothing goes. */
  lemma WithoutWordStays(s: string)
    requires forall i :: 0 <= i < |s| ==> !WordAt(s, i)
    ensures DropClubWords(s) == s
  {
    assert forall i :: 0 <= i < |s| ==> !WordAt(s, i) && ClubWord(s[i..]) == 0;
    NoClubWordNoDrop(s);
  }

  lemma {:induction false} IncludesIff(s: string, part: string)
    ensures Includes(s, part) <==> exists i :: 0 <= i <= |s| && part <= s[i..]
    decreases |s|
  {
    assert s[0..] == s;
    if s != "" {
      IncludesIff(s[1..], part);
      assert forall i :: 0 <= i <= |s[1..]| ==> s[1..][i..] == s[i + 1..];
      if i :| 0 < i <= |s| && part <= s[i..] {
        assert part <= s[1..][i - 1..];
      }
      if i :| 0 <= i <= |s[1..]| && part <= s[1..][i..] {
        assert part <= s[i + 1..];
      }
    }
  }

  lemma {:induction false} DropKeepsAlphanumeric(s: string)
    requires forall i :: 0 <= i < |s| ==> IsAlphanumeric(s[i])
    ensures forall i :: 0 <= i < |DropClubWords(s)| ==> IsAlphanumeric(DropClubWords(s)[i])
    decreases |s|
  {
    if s == "" {
    } else if ClubWord(s) > 0 {
      DropKeepsAlphanumeric(s[ClubWord(s)..]);
    } else {
      DropKeepsAlphanumeric(s[1..]);
    }
  }

  lemma {:induction false} NoClubWordNoDrop(s: string)
    requires forall i :: 0 <= i < |s| ==> ClubWord(s[i..]) == 0
    ensures DropClubWords(s) == s
    decreases |s|
  {
    if s != "" {
      assert s[0..] == s;
      assert forall i :: 0 <= i < |s| - 1 ==> s[1..][i..] == s[i + 1..];
      NoClubWordNoDrop(s[1..]);
    }
  }

  /** Alphanumeric, with no club word in it. */
  predicate Plain(s: string) {
    forall i :: 0 <= i < |s| ==> IsAlphanumeric(s[i]) && ClubWord(s[i..]) == 0
  }

  /** A normalised text is alphanumeric; a plain text that `lower` keeps is left as it is. */
  lemma NormalizedForm(lower: string -> string, s: string)
    ensures forall i :: 0 <= i < |Normalize(lower, s)| ==> IsAlphanumeric(Normalize(lower, s)[i])
    ensures lower(s) == s && Plain(s) ==> Normalize(lower, s) == s
  {
    KeptAreAlphanumeric(lower(s));
    DropKeepsAlphanumeric(KeepAlphanumeric(lower(s)));
    if lower(s) == s && Plain(s) {
      KeepPrefix(s, "");
      assert s + "" == s;
      NoClubWordNoDrop(s);
    }
  }

  /** Lower-casing leaves a text of digits and lower-case letters as it is. */
  ghost predicate KeepsPlain(lower: string -> string) {
    forall s :: Plain(s) ==> lower(s) == s
  }

  function Run(c: char, n: nat): string {
    seq(n, i => c)
  }

  /** A run of one digit that is longer by three than `s` is like `s` only if it contains `s`. */
  lemma LongRun(lower: string -> string, s: string, c: char)
    requires KeepsPlain(lower) && (c == '0' || c == '1')
    ensures var run := Run(c, |s| + 3);
            Normalize(lower, run) == run && (Alike(s, run) ==> forall i :: 0 <= i < |s| ==> s[i] == c)
  {
    var run := Run(c, |s| + 3);
    assert Plain(run);
    NormalizedForm(lower, run);
    LongTextsNeedContainment(s, run);
    if Includes(run, s) {
      IncludedInRun(run, s, c);
    }
  }

  lemma {:induction false} IncludedInRun(run: string, s: string, c: char)
    requires Includes(run, s) && forall i :: 0 <= i < |run| ==> run[i] == c
    ensures forall i :: 0 <= i < |s| ==> s[i] == c
    decreases |run|
  {
    if !(s <= run) {
      IncludedInRun(run[1..], s, c);
    }
  }

  /** A name matches every URL part exactly when it normalises to nothing. */
  lemma MatchesEverythingIff(lower: string -> string, s: string)
    requires KeepsPlain(lower)
    ensures (forall t :: Alike(Normalize(lower, s), Normalize(lower, t))) <==> Normalize(lower, s) == ""
  {
    var n := Normalize(lower, s);
    if n == "" {
      forall t
        ensures Alike(n, Normalize(lower, t))
      {
        AlwaysMatch(lower, s, t);
      }
    } else {
      LongRun(lower, n, '0');
      LongRun(lower, n, '1');
      assert n[0] != '0' || n[0] != '1';
    }
  }

  /** Such a name is "United FC", in any lower-casing to "united fc": it is made of club words only. */
  lemma ClubWordsVanish(lower: string -> string, s: string)
    requires lower(s) == "united fc"
    ensures Normalize(lower, s) == ""
  {
    KeepPrefix("united", " fc");
    assert "united" + " fc" == "united fc" && " fc"[1..] == "fc";
    KeepPrefix("fc", "");
    assert "fc" + "" == "fc";
    assert "unitedfc"[6..] == "fc" && "fc"[2..] == "";
    assert DropClubWords("unitedfc") == DropClubWords("fc") == "";
  }
}
