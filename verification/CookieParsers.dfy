/**
 The three cookie-string parsers and the header printer. The header is the `cookie-string` of
 section 4.2.1 of RFC 6265: pairs `name=value` joined by "; ".
 */
module CookieParsers {
  import opened CookieText
  import opened Selections

  datatype Cookie = Cookie(name: string, value: string)

  /** The pair that a trimmed piece holds: none without '=', otherwise split at the first one. */
  function PairIn(piece: string): seq<Cookie> {
    var k := Index(piece, '=');
    if k == |piece| then [] else [Cookie(Trim(piece[..k]), Trim(piece[k + 1..]))]
  }

  function PairsIn(pieces: seq<string>): seq<Cookie> {
    if pieces == [] then [] else PairIn(pieces[0]) + PairsIn(pieces[1..])
  }

  /** The cookies with a name. */
  function Named(cookies: seq<Cookie>): seq<Cookie> {
    if cookies == [] then []
    else if cookies[0].name == "" then Named(cookies[1..])
    else [cookies[0]] + Named(cookies[1..])
  }

  /** Every pair between semicolons, in order, named or not. */
  function AllPairs(s: string): seq<Cookie> {
    PairsIn(TrimAll(Split(s, ';')))
  }

  /** What a cookie string stands for. */
  function Parsed(s: string): seq<Cookie> {
    Named(AllPairs(s))
  }

  lemma PairsInCons(piece: string, rest: seq<string>)
    ensures PairsIn([piece] + rest) == PairIn(piece) + PairsIn(rest)
  {
    assert ([piece] + rest)[1..] == rest;
  }

  lemma {:induction false} PairsInSnoc(pieces: seq<string>, last: string)
    ensures PairsIn(pieces + [last]) == PairsIn(pieces) + PairIn(last)
    decreases |pieces|
  {
    if pieces == [] {
      assert pieces + [last] == [last] + [];
      PairsInCons(last, []);
    } else {
      var head, rest := pieces[0], pieces[1..];
      PairsInSnoc(rest, last);
      assert pieces == [head] + rest && pieces + [last] == [head] + (rest + [last]);
      PairsInCons(head, rest);
      PairsInCons(head, rest + [last]);
    }
  }

  lemma NamedOfCons(c: Cookie, rest: seq<Cookie>)
    ensures Named([c] + rest) == (if c.name == "" then [] else [c]) + Named(rest)
  {
    assert ([c] + rest)[1..] == rest;
  }

  lemma {:induction false} NamedSnoc(a: seq<Cookie>, c: Cookie)
    ensures Named(a + [c]) == Named(a) + (if c.name == "" then [] else [c])
  {
    if a == [] {
      assert a + [c] == [c];
    } else {
      NamedSnoc(a[1..], c);
      assert a == [a[0]] + a[1..] && a + [c] == [a[0]] + (a[1..] + [c]);
      NamedOfCons(a[0], a[1..]);
      NamedOfCons(a[0], a[1..] + [c]);
    }
  }

  // ---------------------------------------------------------------------------------------
  // What the pairs of a cookie string are: three laws that leave no other choice
  // ---------------------------------------------------------------------------------------

  lemma {:induction false} PairsInSum(pieces: seq<string>, more: seq<string>)
    ensures PairsIn(pieces + more) == PairsIn(pieces) + PairsIn(more)
  {
    if pieces == [] {
      assert pieces + more == more;
    } else {
      PairsInSum(pieces[1..], more);
      FirstOfSum(pieces, more);
      Associates(PairIn(pieces[0]), PairsIn(pieces[1..]), PairsIn(more));
    }
  }

  lemma FirstOfSum(pieces: seq<string>, more: seq<string>)
    requires pieces != []
    ensures PairsIn(pieces + more) == PairIn(pieces[0]) + PairsIn(pieces[1..] + more)
  {
    assert (pieces + more)[0] == pieces[0] && (pieces + more)[1..] == pieces[1..] + more;
  }

  lemma Associates(a: seq<Cookie>, b: seq<Cookie>, c: seq<Cookie>)
    ensures a + (b + c) == a + b + c
  {
  }

  /** The pairs of a text in two parts, with a semicolon between them, are those of both parts. */
  lemma PairsOfParts(s: string, t: string)
    ensures AllPairs(s + ";" + t) == AllPairs(s) + AllPairs(t)
  {
    SplitOfSum(s, t, ';');
    var a, b := Split(s, ';'), Split(t, ';');
    assert TrimAll(a + b) == TrimAll(a) + TrimAll(b);
    PairsInSum(TrimAll(a), TrimAll(b));
  }

  /** A part without an equals sign holds no pair. */
  lemma NoPairWithoutEquals(piece: string)
    requires ';' !in piece && '=' !in piece
    ensures AllPairs(piece) == []
  {
    SplitHead(piece, "", ';');
    TrimIsSlice(piece);
    var trimmed := Trim(piece);
    assert TrimAll([piece]) == [trimmed];
    assert trimmed[..|trimmed|] == trimmed;
    IndexUnique(trimmed, '=', |trimmed|);
    assert PairsIn([trimmed]) == PairIn(trimmed) + PairsIn([]);
  }

  /** A part with one is split at the first, and both sides are trimmed; further equals signs belong to the value. */
  lemma PairOfPart(name: string, value: string)
    requires '=' !in name && ';' !in name && ';' !in value
    ensures AllPairs(name + "=" + value) == [Cookie(Trim(name), Trim(value))]
  {
    var piece := name + "=" + value;
    SplitHead(piece, "", ';');
    TrimOfPair(name, value);
    PairInTrimmed(name, value);
    assert TrimAll([piece]) == [Trim(piece)];
    assert PairsIn([Trim(piece)]) == PairIn(Trim(piece)) + PairsIn([]);
  }

  lemma PairInTrimmed(name: string, value: string)
    requires '=' !in name
    ensures PairIn(TrimLeft(name) + "=" + TrimRight(value)) == [Cookie(Trim(name), Trim(value))]
  {
    TrimLeftShrinks(name);
    PairParts(TrimLeft(name), TrimRight(value));
    assert TrimLeft(TrimLeft(name)) == TrimLeft(name);
    TrimAfterTrimRight(value);
  }

  predicate IsNamed(c: Cookie) {
    c.name != ""
  }

  /** The first two parsers keep exactly the pairs with a name, in order. */
  lemma {:induction false} NamedIsSelection(cookies: seq<Cookie>)
    ensures IsSelection(Named(cookies), cookies, IsNamed)
  {
    if cookies == [] {
      SelectionOfNone(IsNamed);
    } else {
      NamedIsSelection(cookies[1..]);
      SelectionOfCons(cookies[0], cookies[1..], IsNamed, Named(cookies[1..]));
      assert cookies == [cookies[0]] + cookies[1..];
    }
  }

  /** The cookie, if any, that the loop takes from one pair. */
  function Kept(pair: string): seq<Cookie> {
    var trimmed := Trim(pair);
    var k := Index(trimmed, '=');
    if k == |trimmed| || Trim(trimmed[..k]) == "" then [] else [Cookie(Trim(trimmed[..k]), Trim(trimmed[k + 1..]))]
  }

  lemma NamedPair(pair: string)
    ensures Named(PairIn(Trim(pair))) == Kept(pair)
  {
  }

  lemma NamedAppendPair(cookies: seq<Cookie>, piece: string)
    ensures Named(cookies + PairIn(piece)) == Named(cookies) + Named(PairIn(piece))
  {
    var k := Index(piece, '=');
    if k == |piece| {
      assert cookies + [] == cookies;
    } else {
      NamedSnoc(cookies, Cookie(Trim(piece[..k]), Trim(piece[k + 1..])));
    }
  }

  /** What the next pair adds to the list. */
  lemma CollectNext(pairs: seq<string>, n: nat)
    requires n < |pairs|
    ensures Named(PairsIn(TrimAll(pairs)[..n + 1])) == Named(PairsIn(TrimAll(pairs)[..n])) + Kept(pairs[n])
  {
    assert TrimAll(pairs)[..n + 1] == TrimAll(pairs)[..n] + [TrimAll(pairs)[n]];
    PairsInSnoc(TrimAll(pairs)[..n], TrimAll(pairs)[n]);
    NamedAppendPair(PairsIn(TrimAll(pairs)[..n]), TrimAll(pairs)[n]);
    NamedPair(pairs[n]);
  }

  /** The parser of the command-line capture tool. */
  method ParseCaptured(cookieStr: string) returns (cookies: seq<Cookie>)
    ensures cookies == Parsed(cookieStr)
  {
    cookies := [];
    var pairs := SplitPairs(cookieStr);
    PairsArePieces(cookieStr);
    cookies := CollectPairs(pairs);
  }

  /** The parser of the manual import tool, which trims first and stops early on nothing. */
  method ParseImported(cookieStr: string) returns (cookies: seq<Cookie>)
    ensures cookies == Parsed(cookieStr)
  {
    cookies := [];
    var cleanStr := Trim(cookieStr);
    TrimKeepsPieces(cookieStr);
    if cleanStr == "" {
      assert Split("", ';') == [""] && TrimAll([""]) == [""];
      return;
    }
    var pairs := SplitPairs(cleanStr);
    PairsArePieces(cleanStr);
    cookies := CollectPairs(pairs);
  }

  /** The loop that these two parsers share, word for word. */
  method CollectPairs(pairs: seq<string>) returns (cookies: seq<Cookie>)
    ensures cookies == Named(PairsIn(TrimAll(pairs)))
  {
    cookies := [];
    for n := 0 to |pairs|
      invariant cookies == Named(PairsIn(TrimAll(pairs)[..n]))
    {
      CollectNext(pairs, n);
      var trimmed := Trim(pairs[n]);
      if trimmed == "" {
        continue;
      }
      var eqIndex := Index(trimmed, '=');
      if eqIndex == |trimmed| {
        continue;
      }
      var name := Trim(trimmed[..eqIndex]);
      var value := Trim(trimmed[eqIndex + 1..]);
      if name != "" {
        cookies := cookies + [Cookie(name, value)];
      }
    }
    assert TrimAll(pairs)[..|pairs|] == TrimAll(pairs);
  }

  predicate HoldsPair(s: string) {
    s != "" && '=' in s
  }

  function Holding(pieces: seq<string>): seq<string> {
    if pieces == [] then []
    else if HoldsPair(pieces[0]) then [pieces[0]] + Holding(pieces[1..])
    else Holding(pieces[1..])
  }

  /** The pieces that the filter drops hold no pair. */
  lemma {:induction false} FilterKeepsPairs(pieces: seq<string>)
    ensures PairsIn(Holding(pieces)) == PairsIn(pieces)
  {
    if pieces != [] {
      FilterKeepsPairs(pieces[1..]);
      var p := pieces[0];
      if HoldsPair(p) {
        assert Holding(pieces)[1..] == Holding(pieces[1..]);
      } else {
        assert Index(p, '=') < |p| ==> p[Index(p, '=')] in p;
      }
    }
  }

  lemma {:induction false} HeldPiecesHold(pieces: seq<string>)
    ensures forall i :: 0 <= i < |Holding(pieces)| ==> HoldsPair(Holding(pieces)[i])
  {
    if pieces != [] {
      HeldPiecesHold(pieces[1..]);
    }
  }

  /** Splitting at every '=' and joining the tail is splitting at the first '='. */
  lemma SplitJoinIsFirst(pair: string)
    requires HoldsPair(pair)
    ensures PairIn(pair) == [Cookie(Trim(Split(pair, '=')[0]), Trim(Join(Split(pair, '=')[1..], "=")))]
  {
    var k := Index(pair, '=');
    assert pair[..|pair|] == pair;
    JoinUndoesSplit(pair[k + 1..], '=');
    assert Split(pair, '=')[1..] == Split(pair[k + 1..], '=');
  }

  /** The loop over the pairs that hold an '='. */
  method CollectInjected(pairs: seq<string>) returns (cookies: seq<Cookie>)
    requires forall i :: 0 <= i < |pairs| ==> HoldsPair(pairs[i])
    ensures cookies == PairsIn(pairs)
  {
    cookies := [];
    for n := 0 to |pairs|
      invariant cookies == PairsIn(pairs[..n])
    {
      var pair := pairs[n];
      assert pairs[..n + 1] == pairs[..n] + [pair];
      PairsInSnoc(pairs[..n], pair);
      SplitJoinIsFirst(pair);
      var parts := Split(pair, '=');
      cookies := cookies + [Cookie(Trim(parts[0]), Trim(Join(parts[1..], "=")))];
    }
    assert pairs[..|pairs|] == pairs;
  }

  /** The parser of the injection tool: split, trim, filter, then split and join; it keeps unnamed pairs. */
  method ParseInjected(cookieStr: string) returns (cookies: seq<Cookie>)
    ensures cookies == AllPairs(cookieStr)
  {
    var pieces := TrimAll(Split(cookieStr, ';'));
    FilterKeepsPairs(pieces);
    HeldPiecesHold(pieces);
    cookies := CollectInjected(Holding(pieces));
  }

  /** The three parsers agree on every input, once the third one's unnamed pairs are dropped. */
  method ParsersAgree(cookieStr: string) returns (captured: seq<Cookie>, imported: seq<Cookie>, injected: seq<Cookie>)
    ensures captured == imported == Named(injected)
  {
    captured := ParseCaptured(cookieStr);
    imported := ParseImported(cookieStr);
    injected := ParseInjected(cookieStr);
  }

  // ---------------------------------------------------------------------------------------
  // The printer
  // ---------------------------------------------------------------------------------------

  function Pair(c: Cookie): string {
    c.name + "=" + c.value
  }

  function Header(cookies: seq<Cookie>): string {
    Join(seq(|cookies|, i requires 0 <= i < |cookies| => Pair(cookies[i])), "; ")
  }

  /** The header of one cookie, and of a cookie before others. */
  lemma HeaderOfMore(c: Cookie, rest: seq<Cookie>)
    ensures Header([c]) == c.name + "=" + c.value
    ensures rest != [] ==> Header([c] + rest) == c.name + "=" + c.value + "; " + Header(rest)
  {
    var pairs := seq(|rest|, i requires 0 <= i < |rest| => Pair(rest[i]));
    var all := [c] + rest;
    assert seq(|all|, i requires 0 <= i < |all| => Pair(all[i])) == [Pair(c)] + pairs;
    assert seq(1, i requires 0 <= i < 1 => Pair([c][i])) == [Pair(c)];
    assert ([Pair(c)] + pairs)[1..] == pairs;
  }

  /** A pair that survives being printed and split again; its name may be empty. */
  predicate Loose(c: Cookie) {
    && Trimmed(c.name) && Trimmed(c.value)
    && '=' !in c.name && ';' !in c.name && ';' !in c.value
  }

  predicate Clean(c: Cookie) {
    Loose(c) && c.name != ""
  }

  lemma PairOfPrinted(c: Cookie)
    requires Loose(c)
    ensures ';' !in Pair(c) && Trim(Pair(c)) == Pair(c) && PairIn(Pair(c)) == [c]
  {
    var p := Pair(c);
    assert p[..|c.name|] == c.name && p[|c.name| + 1..] == c.value;
    IndexUnique(p, '=', |c.name|);
    TrimTrimmed(c.name);
    TrimTrimmed(c.value);
    TrimTrimmed(p);
  }

  lemma HeaderOfCons(c: Cookie, rest: seq<Cookie>)
    ensures Header([c] + rest) == if rest == [] then Pair(c) else Pair(c) + "; " + Header(rest)
  {
    var cs := [c] + rest;
    var printed := seq(|cs|, i requires 0 <= i < |cs| => Pair(cs[i]));
    assert printed[1..] == seq(|rest|, i requires 0 <= i < |rest| => Pair(rest[i]));
  }

  lemma ParseOne(c: Cookie)
    requires Loose(c)
    ensures AllPairs(Pair(c)) == [c]
  {
    PairOfPrinted(c);
    SplitHead(Pair(c), "", ';');
    assert TrimAll([Pair(c)]) == [Pair(c)];
    assert PairsIn([Pair(c)]) == PairIn(Pair(c)) + PairsIn([]);
  }

  lemma ParseCons(c: Cookie, rest: string)
    requires Loose(c)
    ensures AllPairs(Pair(c) + "; " + rest) == [c] + AllPairs(rest)
  {
    var tail := " " + rest;
    PairOfPrinted(c);
    assert Pair(c) + "; " + rest == Pair(c) + [';'] + tail;
    SplitHead(Pair(c), tail, ';');
    TrimAllOfCons(Pair(c), Split(tail, ';'));
    SpaceBeforePieces(tail);
    assert tail[1..] == rest;
  }

  /** Parsing a header of loose pairs gives back every pair, in order. */
  lemma {:induction false} ParseUndoesPrint(cookies: seq<Cookie>)
    requires forall i :: 0 <= i < |cookies| ==> Loose(cookies[i])
    ensures AllPairs(Header(cookies)) == cookies
  {
    if cookies == [] {
      assert Header([]) == "" && Split("", ';') == [""] && TrimAll([""]) == [""];
    } else {
      var c, rest := cookies[0], cookies[1..];
      assert cookies == [c] + rest;
      HeaderOfCons(c, rest);
      if rest == [] {
        ParseOne(c);
      } else {
        ParseUndoesPrint(rest);
        ParseCons(c, Header(rest));
      }
    }
  }

  // ---------------------------------------------------------------------------------------
  // Exactly which cookie lists survive
  // ---------------------------------------------------------------------------------------

  lemma {:induction false} PiecesHoldNoSemicolon(s: string)
    ensures forall i :: 0 <= i < |Split(s, ';')| ==> ';' !in Split(s, ';')[i]
    decreases |s|
  {
    var k := Index(s, ';');
    if k < |s| {
      PiecesHoldNoSemicolon(s[k + 1..]);
    } else {
      assert s[..k] == s;
    }
  }

  lemma PairIsLoose(piece: string)
    requires ';' !in piece
    ensures forall i :: 0 <= i < |PairIn(piece)| ==> Loose(PairIn(piece)[i])
  {
    var k := Index(piece, '=');
    if k < |piece| {
      TrimIsSlice(piece[..k]);
      TrimIsSlice(piece[k + 1..]);
      assert forall c :: c in piece[k + 1..] || c in piece[..k] ==> c in piece;
    }
  }

  lemma {:induction false} PairsAreLoose(pieces: seq<string>)
    requires forall i :: 0 <= i < |pieces| ==> ';' !in pieces[i]
    ensures forall i :: 0 <= i < |PairsIn(pieces)| ==> Loose(PairsIn(pieces)[i])
  {
    if pieces != [] {
      PairIsLoose(pieces[0]);
      PairsAreLoose(pieces[1..]);
    }
  }

  lemma {:induction false} NamedAreClean(cookies: seq<Cookie>)
    requires forall i :: 0 <= i < |cookies| ==> Loose(cookies[i])
    ensures forall i :: 0 <= i < |Named(cookies)| ==> Clean(Named(cookies)[i])
    ensures (forall i :: 0 <= i < |cookies| ==> Clean(cookies[i])) ==> Named(cookies) == cookies
  {
    if cookies != [] {
      NamedAreClean(cookies[1..]);
      assert cookies == [cookies[0]] + cookies[1..];
      assert (forall i :: 0 <= i < |cookies| ==> Clean(cookies[i])) ==> Clean(cookies[0]) && Clean(cookies[0]);
    }
  }

  /** A parsed list is clean, whatever the input. */
  lemma ParsedIsClean(s: string)
    ensures forall i :: 0 <= i < |Parsed(s)| ==> Clean(Parsed(s)[i])
  {
    var pieces := Split(s, ';');
    PiecesHoldNoSemicolon(s);
    forall i | 0 <= i < |TrimAll(pieces)|
      ensures ';' !in TrimAll(pieces)[i]
    {
      TrimIsSlice(pieces[i]);
    }
    PairsAreLoose(TrimAll(pieces));
    NamedAreClean(AllPairs(s));
  }

  /** Printing and parsing give back the list exactly when every cookie in it is clean. */
  lemma RoundTripIff(cookies: seq<Cookie>)
    ensures Parsed(Header(cookies)) == cookies <==> forall i :: 0 <= i < |cookies| ==> Clean(cookies[i])
  {
    ParsedIsClean(Header(cookies));
    if forall i :: 0 <= i < |cookies| ==> Clean(cookies[i]) {
      ParseUndoesPrint(cookies);
      NamedAreClean(cookies);
    }
  }

  /** Parsing is stable: printing what was parsed and parsing again changes nothing. */
  lemma ParseStable(s: string)
    ensures Parsed(Header(Parsed(s))) == Parsed(s)
  {
    ParsedIsClean(s);
    RoundTripIff(Parsed(s));
  }
}
