/**
 Balanced parentheses: the scan that starts at a call's '(' and finds the ')' that closes it,
 proved against the nesting depth of code-level parentheses in the whole file.
 */
module CallArguments {
  import opened Options
  import opened JsLexer

  /** What position `j` adds to the nesting depth, for a scan begun at `from`. */
  function Weight(text: string, from: nat, j: nat): int
    requires j < |text|
  {
    if !CodeAt(text, from, j) then 0
    else if text[j] == '(' then 1
    else if text[j] == ')' then -1
    else 0
  }

  /** Code-level '(' less code-level ')' in `text[from..k]`. */
  function Depth(text: string, from: nat, k: nat): int
    requires from <= k <= |text|
  {
    if k == from then 0 else Depth(text, from, k - 1) + Weight(text, from, k - 1)
  }

  /** `j` is a code-level ')' after which the depth is zero. */
  predicate ReturnsToZero(text: string, from: nat, j: nat)
    requires from <= j < |text|
  {
    CodeAt(text, from, j) && text[j] == ')' && Depth(text, from, j + 1) == 0
  }

  /** `k` is the first code-level ')' after which the depth is zero. */
  ghost predicate FirstReturn(text: string, from: nat, k: nat) {
    from <= k < |text| && ReturnsToZero(text, from, k) && forall j :: from <= j < k ==> !ReturnsToZero(text, from, j)
  }

  method BalancedParenRange(text: string, start: nat) returns (close: Option<nat>)
    ensures close.Some? ==> FirstReturn(text, start, close.value)
    ensures close.None? ==> forall j :: start <= j < |text| ==> !ReturnsToZero(text, start, j)
  {
    var depth, state, i := 0, Code, start;
    while i < |text|
      invariant start <= i
      invariant i <= |text| ==> Scan(text, Config(Code, start), i) == Config(state, i) && depth == Depth(text, start, i)
      invariant forall j :: start <= j < i && j < |text| ==> !ReturnsToZero(text, start, j)
    {
      var ch := text[i];
      ghost var before := state;
      var (next, skip) := Transition(ch, state, NextChar(text, i));
      state := next;
      ScanThrough(text, Config(Code, start), i, i + 1);
      assert CodeAt(text, start, i) <==> before == Code;
      if skip {
        if i + 2 <= |text| {
          ScanThrough(text, Config(Code, start), i, i + 2);
          assert Scan(text, Config(before, i), i + 2) == Config(state, i + 2);
          assert Depth(text, start, i + 2) == Depth(text, start, i + 1) + Weight(text, start, i + 1);
        }
        i := i + 2;
        continue;
      }
      assert Scan(text, Config(before, i), i + 1) == Config(state, i + 1);
      if state == Code {
        if ch == '(' {
          depth := depth + 1;
        } else if ch == ')' {
          depth := depth - 1;
          if depth == 0 {
            return Some(i);
          }
        }
      }
      i := i + 1;
    }
    return None;
  }

  predicate IsBlank(c: char) {
    c == ' ' || c == '\t' || c == '\n'
  }

  /** The first position at or after `i` that holds no blank. */
  function SkipBlanks(text: string, i: nat): nat
    decreases |text| - i
  {
    if i < |text| && IsBlank(text[i]) then SkipBlanks(text, i + 1) else i
  }

  /** All that is skipped is spaces, tabs and line breaks, and none of them is left in front. */
  lemma {:induction false} SkipsBlanks(text: string, i: nat)
    requires i <= |text|
    ensures var pos := SkipBlanks(text, i);
            && i <= pos <= |text|
            && (forall k :: i <= k < pos ==> text[k] == ' ' || text[k] == '\t' || text[k] == '\n')
            && (pos < |text| ==> text[pos] != ' ' && text[pos] != '\t' && text[pos] != '\n')
    decreases |text| - i
  {
    if i < |text| && IsBlank(text[i]) {
      SkipsBlanks(text, i + 1);
    }
  }

  method ExtractCallArgs(text: string, funcMatchEnd: nat) returns (args: Option<string>)
    ensures var pos := SkipBlanks(text, funcMatchEnd);
            match args
            case Some(inner) =>
              pos < |text| && text[pos] == '(' &&
              exists k: nat :: pos < k && FirstReturn(text, pos, k) && inner == text[pos + 1..k]
            case None =>
              pos < |text| && text[pos] == '(' ==> forall k: nat :: !FirstReturn(text, pos, k)
  {
    var pos := funcMatchEnd;
    while pos < |text| && IsBlank(text[pos])
      invariant SkipBlanks(text, pos) == SkipBlanks(text, funcMatchEnd)
      decreases |text| - pos
    {
      pos := pos + 1;
    }
    if pos >= |text| || text[pos] != '(' {
      return None;
    }
    var close := BalancedParenRange(text, pos);
    if close.None? {
      return None;
    }
    assert CodeAt(text, pos, pos) && text[close.value] == ')';
    return Some(text[pos + 1..close.value]);
  }

  // ---------------------------------------------------------------------------------------
  // The local scan and the whole file
  // ---------------------------------------------------------------------------------------

  /** The local depth is the change of the file's depth since the scan began. */
  lemma {:induction false} DepthIsRelative(text: string, from: nat, start: nat, k: nat)
    requires from <= start <= k <= |text| && CodeAt(text, from, start)
    ensures Depth(text, start, k) == Depth(text, from, k) - Depth(text, from, start)
    decreases k
  {
    if start < k {
      DepthIsRelative(text, from, start, k - 1);
      LocalScanAgrees(text, from, start, k - 1);
    }
  }

  /** Between an opening parenthesis and its close the depth never falls back to zero. */
  lemma {:induction false} OpenUntilReturn(text: string, start: nat, k: nat)
    requires start < k <= |text| && text[start] == '('
    requires forall j :: start <= j < k ==> !ReturnsToZero(text, start, j)
    ensures Depth(text, start, k) >= 1
    decreases k
  {
    assert Depth(text, start, start) == 0;
    if start + 1 < k {
      OpenUntilReturn(text, start, k - 1);
      assert !ReturnsToZero(text, start, k - 1);
    } else {
      assert CodeAt(text, start, start);
    }
  }

  /** `k` ends the group opened at `start`: the file's depth first falls back there to what it was before `start`. */
  ghost predicate EndsGroup(text: string, start: nat, k: nat) {
    && start < k < |text|
    && CodeAt(text, 0, k) && text[k] == ')'
    && Depth(text, 0, k + 1) == Depth(text, 0, start)
    && forall j :: start < j <= k ==> Depth(text, 0, j) > Depth(text, 0, start)
  }

  /**
   When the whole-file scan is in code on a '(', the local search returns exactly the
   parenthesis that ends the group in the file's own terms.
   */
  lemma LocalCloseIsFileClose(text: string, start: nat, k: nat)
    requires start < |text| && CodeAt(text, 0, start) && text[start] == '('
    ensures FirstReturn(text, start, k) <==> EndsGroup(text, start, k)
  {
    if FirstReturn(text, start, k) {
      assert CodeAt(text, start, start);
      LocalScanAgrees(text, 0, start, k);
      DepthIsRelative(text, 0, start, k + 1);
      forall j | start < j <= k
        ensures Depth(text, 0, j) > Depth(text, 0, start)
      {
        OpenUntilReturn(text, start, j);
        DepthIsRelative(text, 0, start, j);
      }
    }
    if EndsGroup(text, start, k) {
      LocalScanAgrees(text, 0, start, k);
      DepthIsRelative(text, 0, start, k + 1);
      forall j | start <= j < k
        ensures !ReturnsToZero(text, start, j)
      {
        DepthIsRelative(text, 0, start, j + 1);
        assert Depth(text, 0, j + 1) > Depth(text, 0, start);
      }
    }
  }

  /** A slice that ends before a ')' is scanned alone as it is scanned in place. */
  lemma SliceCodeAt(text: string, a: nat, b: nat, k: nat)
    requires a <= b < |text| && text[b] == ')' && k <= b - a
    ensures CodeAt(text[a..b], 0, k) <==> CodeAt(text, a, a + k)
  {
    ScanSlice(text, a, b, Config(Code, 0), k);
  }

  lemma {:induction false} SliceDepth(text: string, a: nat, b: nat, k: nat)
    requires a <= b < |text| && text[b] == ')' && k <= b - a
    ensures Depth(text[a..b], 0, k) == Depth(text, a, a + k)
    decreases k
  {
    if k > 0 {
      SliceDepth(text, a, b, k - 1);
      SliceCodeAt(text, a, b, k - 1);
    }
  }

  /** What a call's argument text is: balanced, never below zero, and ending in code. */
  ghost predicate Balanced(args: string) {
    && CodeAt(args, 0, |args|)
    && Depth(args, 0, |args|) == 0
    && forall k :: 0 <= k <= |args| ==> Depth(args, 0, k) >= 0
  }

  /** The argument text of every call that has one is balanced when read on its own. */
  lemma CallArgsBalanced(text: string, pos: nat, k: nat)
    requires FirstReturn(text, pos, k) && text[pos] == '('
    ensures pos + 1 <= k && Balanced(text[pos + 1..k])
  {
    assert CodeAt(text, pos, pos);
    var a := pos + 1;
    assert CodeAt(text, pos, a) by {
      assert Scan(text, Step(text, Config(Code, pos)), a) == Config(Code, a);
    }
    assert Depth(text, pos, a) == 1 by {
      assert Depth(text, pos, pos) == 0;
    }
    forall j | 0 <= j <= k - a
      ensures Depth(text[a..k], 0, j) == Depth(text, pos, a + j) - 1 >= 0
    {
      SliceDepth(text, a, k, j);
      DepthIsRelative(text, pos, a, a + j);
      OpenUntilReturn(text, pos, a + j);
    }
    SliceCodeAt(text, a, k, k - a);
    LocalScanAgrees(text, pos, a, k);
    assert Depth(text, pos, k + 1) == Depth(text, pos, k) - 1;
  }
}
