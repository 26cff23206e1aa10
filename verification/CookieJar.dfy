/**
 The cookie jar: an insertion-ordered map, updated in place, that stands for the log of all
 the pairs ever set in it.
 */
module CookieJar {
  import opened Options
  import opened CookieText
  import opened CookieParsers
  import opened Selections

  /** `Map.set`: a known name keeps its place and takes the new value, a new name goes last. */
  function Put(entries: seq<Cookie>, c: Cookie): seq<Cookie> {
    if entries == [] then [c]
    else if entries[0].name == c.name then [c] + entries[1..]
    else [entries[0]] + Put(entries[1..], c)
  }

  // ---------------------------------------------------------------------------------------
  // The log, and what it comes to
  // ---------------------------------------------------------------------------------------

  /** The names of the log, each where it first occurs. */
  function Names(log: seq<Cookie>): seq<string> {
    if log == [] then []
    else
      var before, name := Names(log[..|log| - 1]), log[|log| - 1].name;
      if name in before then before else before + [name]
  }

  /** The value set last under the name. */
  function LastValue(log: seq<Cookie>, name: string): string {
    if log == [] then ""
    else if log[|log| - 1].name == name then log[|log| - 1].value
    else LastValue(log[..|log| - 1], name)
  }

  /** Each name once, in order of first insertion, with its last value. */
  function Current(log: seq<Cookie>): seq<Cookie> {
    seq(|Names(log)|, i requires 0 <= i < |Names(log)| => Cookie(Names(log)[i], LastValue(log, Names(log)[i])))
  }

  /** The position of the first entry with the name. */
  predicate FirstAt(log: seq<Cookie>, name: string, k: nat) {
    k < |log| && log[k].name == name && forall j :: 0 <= j < k ==> log[j].name != name
  }

  lemma FirstAtSnoc(init: seq<Cookie>, last: Cookie, name: string, k: nat)
    requires k < |init|
    ensures FirstAt(init + [last], name, k) <==> FirstAt(init, name, k)
  {
    var log := init + [last];
    assert forall j :: 0 <= j <= k ==> log[j] == init[j];
  }

  lemma {:induction false} NamesCoverLog(log: seq<Cookie>)
    ensures forall c :: c in log ==> c.name in Names(log)
    decreases |log|
  {
    if log != [] {
      NamesCoverLog(log[..|log| - 1]);
      assert forall c :: c in log ==> c in log[..|log| - 1] || c == log[|log| - 1];
    }
  }

  lemma {:induction false} NamesOccur(log: seq<Cookie>, i: nat) returns (k: nat)
    requires i < |Names(log)|
    ensures FirstAt(log, Names(log)[i], k)
    decreases |log|
  {
    var init, last := log[..|log| - 1], log[|log| - 1];
    assert log == init + [last];
    if i < |Names(init)| {
      k := NamesOccur(init, i);
      FirstAtSnoc(init, last, Names(init)[i], k);
    } else {
      k := |init|;
      NamesCoverLog(init);
      assert forall j :: 0 <= j < |init| ==> log[j] == init[j] && init[j] in init;
    }
  }

  /** `Names` misses no name and keeps the order of first occurrence. */
  lemma {:induction false} NamesInFirstOrder(log: seq<Cookie>, i: nat, j: nat, k: nat, l: nat)
    requires i < j < |Names(log)| && FirstAt(log, Names(log)[i], k) && FirstAt(log, Names(log)[j], l)
    ensures k < l
    decreases |log|
  {
    var init, last := log[..|log| - 1], log[|log| - 1];
    assert log == init + [last];
    if j < |Names(init)| {
      var k' := NamesOccur(init, i);
      var l' := NamesOccur(init, j);
      FirstAtSnoc(init, last, Names(log)[i], k');
      FirstAtSnoc(init, last, Names(log)[j], l');
      NamesInFirstOrder(init, i, j, k', l');
    } else {
      var k' := NamesOccur(init, i);
      FirstAtSnoc(init, last, Names(log)[i], k');
      NamesCoverLog(init);
      assert forall m :: 0 <= m < |init| ==> log[m] == init[m] && init[m] in init;
    }
  }

  /** Without repetition: two places of `Names` never hold the same name. */
  lemma NamesDistinct(log: seq<Cookie>)
    ensures forall i, j :: 0 <= i < j < |Names(log)| ==> Names(log)[i] != Names(log)[j]
  {
    forall i, j | 0 <= i < j < |Names(log)|
      ensures Names(log)[i] != Names(log)[j]
    {
      var k := NamesOccur(log, i);
      if Names(log)[i] == Names(log)[j] {
        NamesInFirstOrder(log, i, j, k, k);
      }
    }
  }

  lemma {:induction false} PutAt(entries: seq<Cookie>, c: Cookie, n: nat)
    requires forall i :: 0 <= i < n && i < |entries| ==> entries[i].name != c.name
    requires n < |entries| ==> entries[n].name == c.name
    requires n <= |entries|
    ensures Put(entries, c) == if n < |entries| then entries[n := c] else entries + [c]
    decreases n
  {
    if n > 0 {
      PutAt(entries[1..], c, n - 1);
      assert entries == [entries[0]] + entries[1..];
    }
  }

  lemma LastValueSnoc(log: seq<Cookie>, c: Cookie, name: string)
    ensures LastValue(log + [c], name) == if name == c.name then c.value else LastValue(log, name)
  {
    assert (log + [c])[..|log|] == log;
  }

  /** The map refines the log: setting a pair is appending it to the log. */
  lemma PutRefinesLog(log: seq<Cookie>, c: Cookie)
    ensures Put(Current(log), c) == Current(log + [c])
  {
    var names, after := Names(log), Names(log + [c]);
    assert (log + [c])[..|log|] == log;
    NamesDistinct(log);
    var n := |names|;
    if c.name in names {
      n :| 0 <= n < |names| && names[n] == c.name;
    }
    PutAt(Current(log), c, n);
    forall i | 0 <= i < |after|
      ensures Put(Current(log), c)[i] == Current(log + [c])[i]
    {
      LastValueSnoc(log, c, after[i]);
    }
  }

  /** The position of the last entry with the name. */
  predicate LastAt(log: seq<Cookie>, name: string, k: nat) {
    k < |log| && log[k].name == name && forall j :: k < j < |log| ==> log[j].name != name
  }

  /** The value set last wins. */
  lemma {:induction false} LastValueIsLast(log: seq<Cookie>, name: string, k: nat)
    requires LastAt(log, name, k)
    ensures LastValue(log, name) == log[k].value && log[k] in Current(log)
    decreases |log|
  {
    if k < |log| - 1 {
      LastValueIsLast(log[..|log| - 1], name, k);
    }
    NamesCoverLog(log);
    var i :| 0 <= i < |Names(log)| && Names(log)[i] == name;
    assert Current(log)[i] == log[k];
  }

  // ---------------------------------------------------------------------------------------
  // The jar
  // ---------------------------------------------------------------------------------------

  /** A cookie given to the constructor; null, or with parts missing. */
  datatype InitialCookie = Null | Given(name: Option<string>, value: Option<string>)

  function InitialPair(c: InitialCookie): seq<Cookie> {
    if c.Given? && c.name.Some? && c.name.value != ""
    then [Cookie(c.name.value, if c.value.Some? then c.value.value else "")]
    else []
  }

  function InitialLog(cs: seq<InitialCookie>): seq<Cookie> {
    if cs == [] then [] else InitialLog(cs[..|cs| - 1]) + InitialPair(cs[|cs| - 1])
  }

  predicate HasName(c: InitialCookie) {
    c.Given? && c.name.Some? && c.name.value != ""
  }

  predicate StandsFor(c: InitialCookie, entry: Cookie) {
    && HasName(c) && entry.name == c.name.value
    && entry.value == if c.value.Some? then c.value.value else ""
  }

  /** One entry for each initial cookie with a name, in order; a missing value is empty. */
  ghost predicate IsInitial(cs: seq<InitialCookie>, log: seq<Cookie>) {
    Answers(cs, log, HasName, StandsFor)
  }

  lemma {:induction false} InitialLogIsInitial(cs: seq<InitialCookie>)
    ensures IsInitial(cs, InitialLog(cs))
  {
    if cs == [] {
      AnswersNone(HasName, StandsFor);
    } else {
      var n := |cs| - 1;
      InitialLogIsInitial(cs[..n]);
      AnswersSnoc(cs, InitialLog(cs[..n]), InitialPair(cs[n]), HasName, StandsFor);
    }
  }

  /** The pair that one Set-Cookie line sets: what stands before the first ';', if its name part is not empty. */
  function AbsorbedPair(raw: string): seq<Cookie> {
    var pair := Split(raw, ';')[0];
    var k := Index(pair, '=');
    if k == 0 || k == |pair| then [] else [Cookie(Trim(pair[..k]), Trim(pair[k + 1..]))]
  }

  function AbsorbedLog(raws: seq<string>): seq<Cookie> {
    if raws == [] then [] else AbsorbedLog(raws[..|raws| - 1]) + AbsorbedPair(raws[|raws| - 1])
  }

  /** The line is name=value, and behind it nothing or a semicolon and attributes. */
  predicate Reads(raw: string, name: string, value: string, attributes: string) {
    && raw == name + "=" + value + attributes
    && name != "" && '=' !in name && ';' !in name && ';' !in value
    && (attributes == "" || attributes[0] == ';')
  }

  /** The line sets the cookie: the two parts, without the white space around them. */
  ghost predicate SetsCookie(raw: string, c: Cookie) {
    exists name, value, attributes ::
      Reads(raw, name, value, attributes) && c == Cookie(Trim(name), Trim(value))
  }

  /** The first equals sign stands before the first semicolon, and something before it. */
  ghost predicate HasPair(raw: string) {
    exists k: nat :: SeparatedAt(raw, k)
  }

  predicate SeparatedAt(raw: string, k: nat) {
    0 < k < |raw| && raw[k] == '=' && '=' !in raw[..k] && ';' !in raw[..k]
  }

  lemma ReadParts(raw: string, name: string, value: string, attributes: string)
    requires Reads(raw, name, value, attributes)
    ensures AbsorbedPair(raw) == [Cookie(Trim(name), Trim(value))]
  {
    var pair := name + "=" + value;
    if attributes == "" {
      assert raw == pair;
      SplitHead(pair, "", ';');
    } else {
      assert raw == pair + [';'] + attributes[1..];
      SplitHead(pair, attributes[1..], ';');
    }
    PairParts(name, value);
  }

  lemma PartsOfPair(raw: string) returns (name: string, value: string, attributes: string)
    requires AbsorbedPair(raw) != []
    ensures Reads(raw, name, value, attributes)
  {
    var end := Index(raw, ';');
    var pair := raw[..end];
    assert Split(raw, ';')[0] == pair;
    var k := Index(pair, '=');
    name, value, attributes := pair[..k], pair[k + 1..], raw[end..];
    assert raw == name + "=" + value + attributes;
    assert forall c :: c in name || c in value ==> c in pair;
  }

  /** What a Set-Cookie line sets, and that it sets nothing else. */
  lemma AbsorbedPairIff(raw: string, c: Cookie)
    ensures AbsorbedPair(raw) == [c] <==> SetsCookie(raw, c)
  {
    if AbsorbedPair(raw) == [c] {
      var name, value, attributes := PartsOfPair(raw);
      ReadParts(raw, name, value, attributes);
    }
    if SetsCookie(raw, c) {
      var name, value, attributes :| Reads(raw, name, value, attributes) && c == Cookie(Trim(name), Trim(value));
      ReadParts(raw, name, value, attributes);
    }
  }

  /** A line sets nothing exactly if no equals sign, or only one that begins it, stands before the first semicolon. */
  lemma NothingAbsorbedIff(raw: string)
    ensures AbsorbedPair(raw) == [] <==> !HasPair(raw)
  {
    if AbsorbedPair(raw) != [] {
      var name, value, attributes := PartsOfPair(raw);
      assert raw[..|name|] == name;
      assert SeparatedAt(raw, |name|);
    }
    if HasPair(raw) {
      var k: nat :| SeparatedAt(raw, k);
      SeparatedReads(raw, k);
      var end := Index(raw[k + 1..], ';');
      ReadParts(raw, raw[..k], raw[k + 1..][..end], raw[k + 1..][end..]);
    }
  }

  lemma SeparatedReads(raw: string, k: nat)
    requires SeparatedAt(raw, k)
    ensures var rest := raw[k + 1..];
            var end := Index(rest, ';');
            Reads(raw, raw[..k], rest[..end], rest[end..])
  {
    var name, rest := raw[..k], raw[k + 1..];
    var end := Index(rest, ';');
    var value, attributes := rest[..end], rest[end..];
    assert rest == value + attributes;
    assert raw == name + "=" + rest;
    Regrouped(name + "=", value, attributes);
  }

  lemma Regrouped(x: string, y: string, z: string)
    ensures x + (y + z) == x + y + z
  {
  }

  /** A line sets the printed cookie: white space around its parts and attributes behind it change nothing. */
  lemma AbsorbUndoesPrint(c: Cookie, a: string, b: string, d: string, e: string, attributes: string)
    requires Clean(c) && Blank(a) && Blank(b) && Blank(d) && Blank(e)
    requires attributes == "" || attributes[0] == ';'
    ensures AbsorbedLog([a + c.name + b + "=" + d + c.value + e + attributes]) == [c]
  {
    var name, value := a + c.name + b, d + c.value + e;
    var raw := a + c.name + b + "=" + d + c.value + e + attributes;
    assert raw == name + "=" + value + attributes;
    TrimAround(a, c.name, b);
    TrimAround(d, c.value, e);
    ReadParts(raw, name, value, attributes);
    assert [raw][..0] == [];
  }

  /** One entry for each line that sets something, in order, and it is what the line sets. */
  ghost predicate IsAbsorbed(raws: seq<string>, added: seq<Cookie>) {
    Answers(raws, added, HasPair, SetsCookie)
  }

  lemma {:induction false} AbsorbedLogIsAbsorbed(raws: seq<string>)
    ensures IsAbsorbed(raws, AbsorbedLog(raws))
  {
    if raws == [] {
      AnswersNone(HasPair, SetsCookie);
    } else {
      var n := |raws| - 1;
      AbsorbedLogIsAbsorbed(raws[..n]);
      NothingAbsorbedIff(raws[n]);
      if HasPair(raws[n]) {
        AbsorbedPairIff(raws[n], AbsorbedPair(raws[n])[0]);
      }
      AnswersSnoc(raws, AbsorbedLog(raws[..n]), AbsorbedPair(raws[n]), HasPair, SetsCookie);
    }
  }

  /** Absorbing some lines and then others is absorbing them all. */
  lemma {:induction false} AbsorbedLogOfSum(raws: seq<string>, more: seq<string>)
    ensures AbsorbedLog(raws + more) == AbsorbedLog(raws) + AbsorbedLog(more)
    decreases |more|
  {
    if more == [] {
      assert raws + more == raws;
    } else {
      var n := |more| - 1;
      assert (raws + more)[..|raws + more| - 1] == raws + more[..n] && (raws + more)[|raws + more| - 1] == more[n];
      AbsorbedLogOfSum(raws, more[..n]);
      calc {
        AbsorbedLog(raws + more);
        AbsorbedLog(raws + more[..n]) + AbsorbedPair(more[n]);
        AbsorbedLog(raws) + AbsorbedLog(more[..n]) + AbsorbedPair(more[n]);
        AbsorbedLog(raws) + (AbsorbedLog(more[..n]) + AbsorbedPair(more[n]));
      }
    }
  }

  lemma AbsorbedLogSnoc(raws: seq<string>, n: nat)
    requires n < |raws|
    ensures AbsorbedLog(raws[..n + 1]) == AbsorbedLog(raws[..n]) + AbsorbedPair(raws[n])
  {
    assert raws[..n + 1][..n] == raws[..n];
  }

  lemma InitialLogSnoc(cs: seq<InitialCookie>, n: nat)
    requires n < |cs|
    ensures InitialLog(cs[..n + 1]) == InitialLog(cs[..n]) + InitialPair(cs[n])
  {
    assert cs[..n + 1][..n] == cs[..n];
  }

  class Jar {
    var cookies: seq<Cookie>
    ghost var log: seq<Cookie>

    ghost predicate Valid()
      reads this
    {
      cookies == Current(log)
    }

    constructor (initialCookies: seq<InitialCookie>)
      ensures Valid() && log == InitialLog(initialCookies) && IsInitial(initialCookies, log)
    {
      cookies, log := [], [];
      new;
      for n := 0 to |initialCookies|
        invariant Valid() && log == InitialLog(initialCookies[..n])
      {
        var cookie := initialCookies[n];
        InitialLogSnoc(initialCookies, n);
        if cookie.Given? && cookie.name.Some? && cookie.name.value != "" {
          Set(Cookie(cookie.name.value, if cookie.value.Some? then cookie.value.value else ""));
        }
      }
      assert initialCookies[..|initialCookies|] == initialCookies;
      InitialLogIsInitial(initialCookies);
    }

    method Set(c: Cookie)
      requires Valid()
      modifies this
      ensures Valid() && log == old(log) + [c]
    {
      PutRefinesLog(log, c);
      cookies := Put(cookies, c);
      log := log + [c];
    }

    method Absorb(setCookies: seq<string>)
      requires Valid()
      modifies this
      ensures Valid() && log == old(log) + AbsorbedLog(setCookies)
      ensures IsAbsorbed(setCookies, log[|old(log)|..])
    {
      for n := 0 to |setCookies|
        invariant Valid() && log == old(log) + AbsorbedLog(setCookies[..n])
      {
        AbsorbedLogSnoc(setCookies, n);
        var pair := Split(setCookies[n], ';')[0];
        var separatorIndex := Index(pair, '=');
        if separatorIndex == 0 || separatorIndex == |pair| {
          continue;
        }
        Set(Cookie(Trim(pair[..separatorIndex]), Trim(pair[separatorIndex + 1..])));
      }
      assert setCookies[..|setCookies|] == setCookies;
      AbsorbedLogIsAbsorbed(setCookies);
    }

    method ToHeader() returns (header: string)
      requires Valid()
      ensures header == Header(Current(log))
    {
      header := Header(cookies);
    }
  }

  // ---------------------------------------------------------------------------------------
  // A jar's header, parsed
  // ---------------------------------------------------------------------------------------

  lemma AbsorbedIsLoose(raw: string)
    ensures forall c :: c in AbsorbedPair(raw) ==> Loose(c)
  {
    var pair := Split(raw, ';')[0];
    PiecesHoldNoSemicolon(raw);
    var k := Index(pair, '=');
    if 0 < k < |pair| {
      TrimIsSlice(pair[..k]);
      TrimIsSlice(pair[k + 1..]);
      assert forall c :: c in pair[k + 1..] || c in pair[..k] ==> c in pair;
    }
  }

  lemma {:induction false} AbsorbedLogIsLoose(raws: seq<string>)
    ensures forall c :: c in AbsorbedLog(raws) ==> Loose(c)
  {
    if raws != [] {
      AbsorbedLogIsLoose(raws[..|raws| - 1]);
      AbsorbedIsLoose(raws[|raws| - 1]);
    }
  }

  /** Every current value was set under its name at some time. */
  lemma {:induction false} CurrentComesFromLog(log: seq<Cookie>, name: string)
    requires name in Names(log)
    ensures Cookie(name, LastValue(log, name)) in log
    decreases |log|
  {
    var init := log[..|log| - 1];
    if log[|log| - 1].name != name {
      CurrentComesFromLog(init, name);
      assert Cookie(name, LastValue(init, name)) in init;
    }
  }

  /**
   When every pair in the log is as absorbed lines give them, parsing the jar's header gives each
   name once, in order of first insertion, with its last value, except a blank name, which the
   parser drops.
   */
  lemma HeaderStandsForLog(log: seq<Cookie>)
    requires forall c :: c in log ==> Loose(c)
    ensures Parsed(Header(Current(log))) == Named(Current(log)) && AllPairs(Header(Current(log))) == Current(log)
  {
    var cookies := Current(log);
    forall i | 0 <= i < |cookies|
      ensures Loose(cookies[i])
    {
      CurrentComesFromLog(log, cookies[i].name);
    }
    ParseUndoesPrint(cookies);
  }

  /** Nothing is lost in the header exactly when no blank name was ever set. */
  lemma HeaderLosesNothingIff(log: seq<Cookie>)
    requires forall c :: c in log ==> Loose(c)
    ensures Parsed(Header(Current(log))) == Current(log) <==> forall c :: c in log ==> c.name != ""
  {
    var cookies := Current(log);
    forall i | 0 <= i < |cookies|
      ensures Loose(cookies[i]) && cookies[i] in log
    {
      CurrentComesFromLog(log, cookies[i].name);
    }
    RoundTripIff(cookies);
    if forall i :: 0 <= i < |cookies| ==> Clean(cookies[i]) {
      NamesCoverLog(log);
      forall c | c in log
        ensures c.name != ""
      {
        var i :| 0 <= i < |Names(log)| && Names(log)[i] == c.name;
        assert Clean(cookies[i]);
      }
    }
  }

  /** A line whose name part is white space sets a blank name, so something can be lost. */
  lemma BlankNameIsAbsorbed()
    ensures AbsorbedPair(" =x") == [Cookie("", "x")]
  {
    assert Index(" =x", ';') == 3 && Index(" =x", '=') == 1;
    assert " =x"[..3] == " =x" && " =x"[..1] == " " && " =x"[2..] == "x";
    assert TrimLeft(" ") == "" && TrimLeft("x") == "x";
  }

  /** All the lines of several responses, in the order they come. */
  function AllLines(batches: seq<seq<string>>): seq<string> {
    if batches == [] then [] else AllLines(batches[..|batches| - 1]) + batches[|batches| - 1]
  }

  /**
   A new jar, any number of `absorb` calls, `toHeader`, and the header parsed again: each name
   once, in order of first insertion, with its last value, but for a blank one.
   */
  method AbsorbPrintParse(batches: seq<seq<string>>) returns (parsed: seq<Cookie>)
    ensures var log := AbsorbedLog(AllLines(batches));
            IsAbsorbed(AllLines(batches), log) && parsed == Named(Current(log))
  {
    var jar := new Jar([]);
    for n := 0 to |batches|
      invariant jar.Valid() && fresh(jar) && jar.log == AbsorbedLog(AllLines(batches[..n]))
      invariant forall c :: c in jar.log ==> Loose(c)
    {
      assert batches[..n + 1][..n] == batches[..n];
      AbsorbedLogIsLoose(batches[n]);
      AbsorbedLogOfSum(AllLines(batches[..n]), batches[n]);
      jar.Absorb(batches[n]);
    }
    assert batches[..|batches|] == batches;
    AbsorbedLogIsAbsorbed(AllLines(batches));
    HeaderStandsForLog(jar.log);
    var header := jar.ToHeader();
    parsed := ParseCaptured(header);
  }
}
