/** Trimming and splitting as JavaScript strings do them. */
module CookieText {
  /** What `trim` removes and `\s` matches. */
  predicate IsSpace(c: char) {
    || '\t' <= c <= '\r' || c == ' ' || c == '\U{A0}' || c == '\U{1680}' || '\U{2000}' <= c <= '\U{200A}'
    || c == '\U{2028}' || c == '\U{2029}' || c == '\U{202F}' || c == '\U{205F}' || c == '\U{3000}' || c == '\U{FEFF}'
  }

  function TrimLeft(s: string): string {
    if s != "" && IsSpace(s[0]) then TrimLeft(s[1..]) else s
  }

  function TrimRight(s: string): string {
    if s != "" && IsSpace(s[|s| - 1]) then TrimRight(s[..|s| - 1]) else s
  }

  function Trim(s: string): string {
    TrimRight(TrimLeft(s))
  }

  predicate Trimmed(s: string) {
    s == "" || (!IsSpace(s[0]) && !IsSpace(s[|s| - 1]))
  }

  /** The index of the first `c`, or the length when there is none. */
  function Index(s: string, c: char): (k: nat)
    ensures k <= |s|
    ensures k < |s| ==> s[k] == c
    ensures c !in s[..k]
  {
    if s == "" || s[0] == c then 0
    else
      var k := 1 + Index(s[1..], c);
      assert s[..k] == [s[0]] + s[1..][..k - 1];
      k
  }

  /** `split(c)` */
  function Split(s: string, c: char): (pieces: seq<string>)
    ensures pieces != []
    decreases |s|
  {
    var k := Index(s, c);
    if k == |s| then [s] else [s[..k]] + Split(s[k + 1..], c)
  }

  lemma {:induction false} TrimLeftShrinks(s: string)
    ensures |TrimLeft(s)| <= |s| && TrimLeft(s) == s[|s| - |TrimLeft(s)|..]
    ensures TrimLeft(s) == "" || !IsSpace(TrimLeft(s)[0])
    decreases |s|
  {
    if s != "" && IsSpace(s[0]) {
      TrimLeftShrinks(s[1..]);
    }
  }

  /** `split(/;\s*\/)`: white space behind a semicolon goes with it. */
  function SplitPairs(s: string): (pieces: seq<string>)
    ensures pieces != []
    decreases |s|
  {
    var k := Index(s, ';');
    if k == |s| then [s]
    else
      TrimLeftShrinks(s[k + 1..]);
      [s[..k]] + SplitPairs(TrimLeft(s[k + 1..]))
  }

  /** `join(glue)` */
  function Join(pieces: seq<string>, glue: string): string {
    if pieces == [] then ""
    else if |pieces| == 1 then pieces[0]
    else pieces[0] + glue + Join(pieces[1..], glue)
  }

  function TrimAll(pieces: seq<string>): (trimmed: seq<string>)
    ensures |trimmed| == |pieces|
  {
    seq(|pieces|, i requires 0 <= i < |pieces| => Trim(pieces[i]))
  }

  // ---------------------------------------------------------------------------------------

  lemma {:induction false} TrimRightShrinks(s: string)
    ensures |TrimRight(s)| <= |s| && TrimRight(s) == s[..|TrimRight(s)|]
    ensures TrimRight(s) == "" || !IsSpace(TrimRight(s)[|TrimRight(s)| - 1])
    decreases |s|
  {
    if s != "" && IsSpace(s[|s| - 1]) {
      TrimRightShrinks(s[..|s| - 1]);
    }
  }

  /** Trimming yields a slice of the text without white space at either end. */
  lemma TrimIsSlice(s: string)
    ensures Trimmed(Trim(s))
    ensures exists a, b :: 0 <= a <= b <= |s| && Trim(s) == s[a..b]
    ensures forall c :: c in Trim(s) ==> c in s
  {
    var l := TrimLeft(s);
    TrimLeftShrinks(s);
    TrimRightShrinks(l);
    var a := |s| - |l|;
    assert Trim(s) == s[a..a + |Trim(s)|];
  }

  lemma TrimTrimmed(s: string)
    requires Trimmed(s)
    ensures Trim(s) == s
  {
  }

  lemma IndexUnique(s: string, c: char, k: nat)
    requires k <= |s| && c !in s[..k] && (k < |s| ==> s[k] == c)
    ensures Index(s, c) == k
  {
    var i := Index(s, c);
    assert forall j :: 0 <= j < k ==> s[j] in s[..k];
    assert forall j :: 0 <= j < i ==> s[j] in s[..i];
  }

  /** A text whose first piece is `head` and whose rest is `tail`. */
  lemma SplitHead(head: string, tail: string, c: char)
    requires c !in head
    ensures Split(head + [c] + tail, c) == [head] + Split(tail, c)
    ensures Split(head, c) == [head]
  {
    var s := head + [c] + tail;
    assert s[..|head|] == head && s[|head| + 1..] == tail;
    IndexUnique(s, c, |head|);
    assert head[..|head|] == head;
    IndexUnique(head, c, |head|);
  }

  lemma IndexOfRest(s: string, c: char)
    requires s != "" && s[0] != c
    ensures Index(s, c) == 1 + Index(s[1..], c)
  {
  }

  /** White space before a text does not show in its trimmed pieces. */
  lemma SpaceBeforePieces(s: string)
    requires s != "" && IsSpace(s[0])
    ensures TrimAll(Split(s, ';')) == TrimAll(Split(s[1..], ';'))
  {
    var t := s[1..];
    var k := Index(t, ';');
    IndexOfRest(s, ';');
    var a, b := Split(s, ';'), Split(t, ';');
    assert a[0][1..] == b[0];
    assert Trim(a[0]) == Trim(b[0]);
    if k < |t| {
      assert s[k + 2..] == t[k + 1..];
      assert a[1..] == b[1..];
    }
    assert forall i :: 0 < i < |a| ==> a[i] == a[1..][i - 1] && b[i] == b[1..][i - 1];
  }

  lemma {:induction false} TrimLeftKeepsPieces(s: string)
    ensures TrimAll(Split(TrimLeft(s), ';')) == TrimAll(Split(s, ';'))
    decreases |s|
  {
    if s != "" && IsSpace(s[0]) {
      SpaceBeforePieces(s);
      TrimLeftKeepsPieces(s[1..]);
    }
  }

  /** Splitting at `;\s*` and at `;` gives the same trimmed pieces. */
  lemma {:induction false} PairsArePieces(s: string)
    ensures TrimAll(SplitPairs(s)) == TrimAll(Split(s, ';'))
    decreases |s|
  {
    var k := Index(s, ';');
    if k < |s| {
      var rest := s[k + 1..];
      TrimLeftShrinks(rest);
      PairsArePieces(TrimLeft(rest));
      TrimLeftKeepsPieces(rest);
      TrimAllOfCons(s[..k], SplitPairs(TrimLeft(rest)));
      TrimAllOfCons(s[..k], Split(rest, ';'));
    }
  }

  lemma TrimAllOfCons(head: string, tail: seq<string>)
    ensures TrimAll([head] + tail) == [Trim(head)] + TrimAll(tail)
  {
  }

  /** Trimming a text does not change its trimmed pieces. */
  lemma TrimKeepsPieces(s: string)
    ensures TrimAll(Split(Trim(s), ';')) == TrimAll(Split(s, ';'))
  {
    TrimLeftKeepsPieces(s);
    TrimRightKeepsPieces(TrimLeft(s));
  }

  lemma {:induction false} SplitSpaceBehind(s: string)
    requires s != "" && IsSpace(s[|s| - 1])
    ensures TrimAll(Split(s[..|s| - 1], ';')) == TrimAll(Split(s, ';'))
    decreases |s|
  {
    var t := s[..|s| - 1];
    var k := Index(s, ';');
    if k == |s| {
      assert ';' !in t by {
        assert forall c :: c in t ==> c in s[..k];
      }
      SplitHead(t, "", ';');
      TrimSpaceBehind(s);
    } else {
      var rest := s[k + 1..];
      assert s == s[..k] + [';'] + rest && t == s[..k] + [';'] + rest[..|rest| - 1];
      SplitHead(s[..k], rest, ';');
      SplitHead(s[..k], rest[..|rest| - 1], ';');
      SplitSpaceBehind(rest);
      TrimAllOfCons(s[..k], Split(rest, ';'));
      TrimAllOfCons(s[..k], Split(rest[..|rest| - 1], ';'));
    }
  }

  /** White space behind a text is trimmed away. */
  lemma {:induction false} TrimSpaceBehind(s: string)
    requires s != "" && IsSpace(s[|s| - 1])
    ensures Trim(s[..|s| - 1]) == Trim(s)
    decreases |s|
  {
    var t := s[..|s| - 1];
    if |s| == 1 {
      assert t == "" && TrimLeft(s) == "";
    } else if IsSpace(s[0]) {
      assert t[1..] == s[1..][..|s| - 2];
      TrimSpaceBehind(s[1..]);
    } else {
      assert TrimLeft(s) == s && TrimLeft(t) == t;
    }
  }

  predicate Blank(s: string) {
    forall i :: 0 <= i < |s| ==> IsSpace(s[i])
  }

  /** Trimming takes away the white space around a text, all of it, and nothing else. */
  lemma {:induction false} TrimAround(before: string, text: string, after: string)
    requires Blank(before) && Trimmed(text) && Blank(after)
    ensures Trim(before + text + after) == text
    decreases |before| + |after|
  {
    var s := before + text + after;
    if before != "" {
      assert s[1..] == before[1..] + text + after;
      TrimAround(before[1..], text, after);
    } else if after != "" {
      assert s[..|s| - 1] == before + text + after[..|after| - 1];
      TrimSpaceBehind(s);
      TrimAround(before, text, after[..|after| - 1]);
    } else {
      assert s == text;
      TrimTrimmed(text);
    }
  }

  lemma {:induction false} TrimAfterTrimRight(s: string)
    ensures Trim(TrimRight(s)) == Trim(s)
    decreases |s|
  {
    if s != "" && IsSpace(s[|s| - 1]) {
      TrimSpaceBehind(s);
      TrimAfterTrimRight(s[..|s| - 1]);
    }
  }

  lemma {:induction false} TrimLeftOfPair(name: string, rest: string)
    ensures TrimLeft(name + "=" + rest) == TrimLeft(name) + "=" + rest
  {
    var s := name + "=" + rest;
    if name == "" {
      assert s[0] == '=' && s == "=" + rest;
    } else if IsSpace(name[0]) {
      assert s[0] == name[0] && s[1..] == name[1..] + "=" + rest;
      TrimLeftOfPair(name[1..], rest);
    } else {
      assert s[0] == name[0];
    }
  }

  lemma {:induction false} TrimRightOfPair(front: string, value: string)
    ensures TrimRight(front + "=" + value) == front + "=" + TrimRight(value)
    decreases |value|
  {
    var s, n := front + "=" + value, |value|;
    if value == "" {
      assert s == front + "=" && s[|s| - 1] == '=';
    } else if IsSpace(value[n - 1]) {
      assert s[|s| - 1] == value[n - 1] && s[..|s| - 1] == front + "=" + value[..n - 1];
      TrimRightOfPair(front, value[..n - 1]);
    } else {
      assert s[|s| - 1] == value[n - 1];
    }
  }

  /** Trimming a pair trims its outer ends. */
  lemma TrimOfPair(name: string, value: string)
    ensures Trim(name + "=" + value) == TrimLeft(name) + "=" + TrimRight(value)
  {
    TrimLeftOfPair(name, value);
    TrimRightOfPair(TrimLeft(name), value);
  }

  lemma PairParts(name: string, value: string)
    requires '=' !in name
    ensures var pair := name + "=" + value;
            Index(pair, '=') == |name| && pair[..|name|] == name && pair[|name| + 1..] == value
  {
    var pair := name + "=" + value;
    assert pair[..|name|] == name && pair[|name| + 1..] == value;
    IndexUnique(pair, '=', |name|);
  }

  /** A text of two parts splits into the pieces of both. */
  lemma {:induction false} SplitOfSum(s: string, t: string, c: char)
    ensures Split(s + [c] + t, c) == Split(s, c) + Split(t, c)
    decreases |s|
  {
    var k := Index(s, c);
    if k == |s| {
      assert s[..k] == s;
      SplitHead(s, t, c);
    } else {
      var head, rest := s[..k], s[k + 1..];
      assert s + [c] + t == head + [c] + (rest + [c] + t);
      SplitHead(head, rest + [c] + t, c);
      SplitOfSum(rest, t, c);
      assert [head] + (Split(rest, c) + Split(t, c)) == [head] + Split(rest, c) + Split(t, c);
    }
  }

  lemma {:induction false} TrimRightKeepsPieces(s: string)
    ensures TrimAll(Split(TrimRight(s), ';')) == TrimAll(Split(s, ';'))
    decreases |s|
  {
    if s != "" && IsSpace(s[|s| - 1]) {
      SplitSpaceBehind(s);
      TrimRightKeepsPieces(s[..|s| - 1]);
    }
  }

  /** `join(c)` puts back together what `split(c)` took apart. */
  lemma {:induction false} JoinUndoesSplit(s: string, c: char)
    ensures Join(Split(s, c), [c]) == s
    decreases |s|
  {
    var k := Index(s, c);
    if k < |s| {
      JoinUndoesSplit(s[k + 1..], c);
      var rest := Split(s[k + 1..], c);
      assert Split(s, c)[1..] == rest;
      assert Join(Split(s, c), [c]) == s[..k] + [c] + Join(rest, [c]);
      assert s == s[..k] + [c] + s[k + 1..];
    }
  }
}
