/** Line offsets, for text whose only line break is '\n'. */
module LineIndex {
  predicate IsLine(s: string) {
    forall i :: 0 <= i < |s| ==> s[i] != '\n'
  }

  /** The lines, each followed by a break. */
  function Unlines(lines: seq<string>): string {
    if lines == [] then "" else lines[0] + "\n" + Unlines(lines[1..])
  }

  /** `lines` is `content.splitlines()`: the break behind the last line may be missing, unless that line is empty. */
  ghost predicate IsSplit(content: string, lines: seq<string>) {
    && (forall i :: 0 <= i < |lines| ==> IsLine(lines[i]))
    && (|| content == Unlines(lines)
        || (lines != [] && lines[|lines| - 1] != "" && content + "\n" == Unlines(lines)))
  }

  /** `s.count("\n")` */
  function Breaks(s: string): nat {
    if s == "" then 0 else (if s[0] == '\n' then 1 else 0) + Breaks(s[1..])
  }

  /** The sum of the line lengths plus one, over the first `n` lines. */
  function PrefixSum(lines: seq<string>, n: nat): nat
    requires n <= |lines|
  {
    if n == 0 then 0 else PrefixSum(lines, n - 1) + |lines[n - 1]| + 1
  }

  method LineStarts(lines: seq<string>) returns (starts: seq<nat>)
    ensures |starts| == |lines|
    ensures forall k :: 0 <= k < |lines| ==> starts[k] == PrefixSum(lines, k)
  {
    starts := [];
    var pos := 0;
    for n := 0 to |lines|
      invariant |starts| == n && pos == PrefixSum(lines, n)
      invariant forall k :: 0 <= k < n ==> starts[k] == PrefixSum(lines, k)
    {
      starts := starts + [pos];
      pos := pos + |lines[n]| + 1;
    }
  }

  lemma {:induction false} BreaksOfConcat(a: string, b: string)
    ensures Breaks(a + b) == Breaks(a) + Breaks(b)
  {
    if a == "" {
      assert a + b == b;
    } else {
      BreaksOfConcat(a[1..], b);
      assert (a + b)[0] == a[0] && (a + b)[1..] == a[1..] + b;
    }
  }

  lemma {:induction false} LineHasNoBreak(line: string)
    requires IsLine(line)
    ensures Breaks(line) == 0
  {
    if line != "" {
      LineHasNoBreak(line[1..]);
    }
  }

  lemma {:induction false} UnlinesOfConcat(a: seq<string>, b: seq<string>)
    ensures Unlines(a + b) == Unlines(a) + Unlines(b)
  {
    if a == [] {
      assert a + b == b;
    } else {
      UnlinesOfConcat(a[1..], b);
      assert (a + b)[0] == a[0] && (a + b)[1..] == a[1..] + b;
      assert a[0] + "\n" + (Unlines(a[1..]) + Unlines(b)) == (a[0] + "\n" + Unlines(a[1..])) + Unlines(b);
    }
  }

  lemma UnlinesOfOne(line: string)
    ensures Unlines([line]) == line + "\n"
  {
    assert [line][1..] == [];
  }

  /** The running sum is the length, and the line number the break count, of the lines before. */
  lemma {:induction false} LinesBefore(lines: seq<string>, k: nat)
    requires k <= |lines| && forall i :: 0 <= i < |lines| ==> IsLine(lines[i])
    ensures |Unlines(lines[..k])| == PrefixSum(lines, k) && Breaks(Unlines(lines[..k])) == k
    decreases k
  {
    if k > 0 {
      var line := lines[k - 1];
      LinesBefore(lines, k - 1);
      assert lines[..k] == lines[..k - 1] + [line];
      UnlinesOfConcat(lines[..k - 1], [line]);
      UnlinesOfOne(line);
      BreaksOfConcat(Unlines(lines[..k - 1]), line + "\n");
      BreaksOfConcat(line, "\n");
      LineHasNoBreak(line);
      assert Breaks("\n") == 1;
    }
  }

  /** The text is the lines before line `k`, that line, and what follows it: nothing, or a break and the later lines. */
  lemma LineInContent(content: string, lines: seq<string>, k: nat) returns (rest: string)
    requires IsSplit(content, lines) && k < |lines|
    ensures content == Unlines(lines[..k]) + lines[k] + rest && (rest == "" || rest[0] == '\n')
  {
    var before, line, after := lines[..k], lines[k], lines[k + 1..];
    assert lines == before + [line] + after;
    UnlinesOfConcat(before + [line], after);
    UnlinesOfConcat(before, [line]);
    UnlinesOfOne(line);
    var all := Unlines(before) + line + "\n" + Unlines(after);
    assert Unlines(lines) == all;
    var broken := "\n" + Unlines(after);
    assert all == Unlines(before) + line + broken;
    if content == Unlines(lines) {
      rest := broken;
    } else {
      rest := broken[..|broken| - 1];
      assert content == all[..|all| - 1];
    }
  }

  lemma Parts(content: string, before: string, line: string, rest: string, m: nat)
    requires content == before + line + rest && m <= |line|
    ensures var start := |before|;
            && content[start..start + |line|] == line
            && content[start + m..start + |line|] == line[m..]
  {
  }

  /** A match at `m` within line `k` is the match at `starts[k] + m` of the whole text. */
  lemma MatchPosition(content: string, lines: seq<string>, k: nat, m: nat)
    requires IsSplit(content, lines) && k < |lines| && m <= |lines[k]|
    ensures var line, start := lines[k], PrefixSum(lines, k);
            && start + |line| <= |content|
            && content[start..start + |line|] == line
            && content[start + m..start + |line|] == line[m..]
  {
    LinesBefore(lines, k);
    var rest := LineInContent(content, lines, k);
    Parts(content, Unlines(lines[..k]), lines[k], rest, m);
  }

  /** Counting breaks before a position in line `k`, or before the line's start, gives back `k`. */
  lemma LineNumber(content: string, lines: seq<string>, k: nat, m: nat)
    requires IsSplit(content, lines) && k < |lines| && m <= |lines[k]|
    ensures PrefixSum(lines, k) + m <= |content| && Breaks(content[..PrefixSum(lines, k) + m]) == k
  {
    LinesBefore(lines, k);
    var rest := LineInContent(content, lines, k);
    BreaksBefore(content, Unlines(lines[..k]), lines[k], rest, m);
  }

  lemma BreaksBefore(content: string, before: string, line: string, rest: string, m: nat)
    requires content == before + line + rest && IsLine(line) && m <= |line|
    ensures |before| + m <= |content| && Breaks(content[..|before| + m]) == Breaks(before)
  {
    assert content[..|before| + m] == before + line[..m];
    BreaksInLine(before, line, m);
  }

  lemma BreaksInLine(before: string, line: string, m: nat)
    requires IsLine(line) && m <= |line|
    ensures Breaks(before + line[..m]) == Breaks(before)
  {
    BreaksOfConcat(before, line[..m]);
    LineHasNoBreak(line[..m]);
  }

  /** `splitlines` itself, one line at a time. */
  function SplitLines(s: string): seq<string> {
    var k := FirstBreak(s);
    if s == "" then [] else if k == |s| then [s] else [s[..k]] + SplitLines(s[k + 1..])
  }

  function FirstBreak(s: string): (k: nat)
    ensures k <= |s| && IsLine(s[..k]) && (k < |s| ==> s[k] == '\n')
  {
    if s == "" || s[0] == '\n' then 0
    else
      var k := 1 + FirstBreak(s[1..]);
      assert forall i :: 0 < i < k ==> s[i] == s[1..][..k - 1][i - 1];
      k
  }

  lemma {:induction false} SplitLinesSplits(s: string)
    ensures IsSplit(s, SplitLines(s))
    decreases |s|
  {
    var k := FirstBreak(s);
    if s != "" && k < |s| {
      var rest := s[k + 1..];
      SplitLinesSplits(rest);
      var lines := SplitLines(rest);
      assert SplitLines(s)[1..] == lines;
      assert s == s[..k] + "\n" + rest;
      if rest != Unlines(lines) {
        assert s + "\n" == s[..k] + "\n" + (rest + "\n");
        assert SplitLines(s)[|lines|] == lines[|lines| - 1];
      }
    } else if s != "" {
      assert s[..k] == s;
      UnlinesOfOne(s);
    }
  }
}
