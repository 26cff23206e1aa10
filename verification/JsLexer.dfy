/**
 The string/comment state machine of the reverse-dependency scanner, and the run of that
 machine which every one of its loops performs.
 */
module JsLexer {
  import opened Options

  datatype State = Code | SingleQuoted | DoubleQuoted | Backtick | LineComment | BlockComment

  /** Where a loop stands: its `state` and its index `i`, which may have skipped past the end. */
  datatype Config = Config(state: State, pos: nat)

  predicate IsQuote(c: char) {
    c == '\'' || c == '"' || c == '`'
  }

  /** The state that an opening quote leads to. */
  function QuotedState(c: char): State
    requires IsQuote(c)
  {
    if c == '\'' then SingleQuoted else if c == '"' then DoubleQuoted else Backtick
  }

  predicate InLiteral(state: State) {
    state == SingleQuoted || state == DoubleQuoted || state == Backtick
  }

  function Delimiter(state: State): char
    requires InLiteral(state)
  {
    match state
    case SingleQuoted => '\''
    case DoubleQuoted => '"'
    case Backtick => '`'
  }

  function TransitionInside(ch: char, state: State, next: Option<char>): (State, bool)
  {
    match state
    case LineComment => (if ch == '\n' then Code else state, false)
    case BlockComment => if ch == '*' && next == Some('/') then (Code, true) else (state, false)
    case Code => (state, false)
    case _ =>
      if ch == '\\' then (state, true)
      else (if ch == Delimiter(state) then Code else state, false)
  }

  function TransitionCode(ch: char, next: Option<char>): (State, bool) {
    if IsQuote(ch) then (QuotedState(ch), false)
    else if ch == '/' && next == Some('/') then (LineComment, true)
    else if ch == '/' && next == Some('*') then (BlockComment, true)
    else (Code, false)
  }

  /** The new state, and whether the next character is skipped. */
  function Transition(ch: char, state: State, next: Option<char>): (State, bool) {
    if state != Code then TransitionInside(ch, state, next) else TransitionCode(ch, next)
  }

  function NextChar(text: string, i: nat): Option<char> {
    if i + 1 < |text| then Some(text[i + 1]) else None
  }

  /** One loop iteration: a transition, then an advance by one or two. */
  function Step(text: string, c: Config): Config
    requires c.pos < |text|
  {
    var (state, skip) := Transition(text[c.pos], c.state, NextChar(text, c.pos));
    Config(state, if skip then c.pos + 2 else c.pos + 1)
  }

  /** Where the loop `while i < end` stands when it stops. */
  function Scan(text: string, c: Config, end: nat): Config
    requires end <= |text|
    decreases if c.pos < end then end - c.pos else 0
  {
    if c.pos >= end then c else Scan(text, Step(text, c), end)
  }

  /** Stopping a scan on the way and going on from there changes nothing. */
  lemma {:induction false} ScanThrough(text: string, c: Config, mid: nat, end: nat)
    requires mid <= end <= |text|
    ensures Scan(text, c, end) == Scan(text, Scan(text, c, mid), end)
    decreases if c.pos < mid then mid - c.pos else 0
  {
    if c.pos < mid {
      ScanThrough(text, Step(text, c), mid, end);
    }
  }

  /** A scan stops at its bound, or one past it when the last transition skipped a character. */
  lemma {:induction false} ScanStops(text: string, c: Config, end: nat)
    requires c.pos <= end <= |text|
    ensures end <= Scan(text, c, end).pos <= end + 1
    decreases end - c.pos
  {
    if c.pos < end {
      var d := Step(text, c);
      if d.pos <= end {
        ScanStops(text, d, end);
      }
    }
  }

  /** The scan started in code at `from` comes to rest exactly on `k`, in code. */
  predicate CodeAt(text: string, from: nat, k: nat)
    requires k <= |text|
  {
    Scan(text, Config(Code, from), k) == Config(Code, k)
  }

  /**
   A scan started afresh at a position where the outer scan is in code agrees with the outer
   scan ever after.
   */
  lemma LocalScanAgrees(text: string, from: nat, start: nat, k: nat)
    requires from <= start <= k <= |text|
    requires CodeAt(text, from, start)
    ensures Scan(text, Config(Code, start), k) == Scan(text, Config(Code, from), k)
    ensures CodeAt(text, start, k) <==> CodeAt(text, from, k)
  {
    ScanThrough(text, Config(Code, from), start, k);
  }

  /** One step in a slice that ends before no slash and no star is a step in the whole. */
  lemma StepSlice(text: string, a: nat, b: nat, c: Config)
    requires a <= b <= |text| && c.pos < b - a
    requires b < |text| ==> text[b] != '/' && text[b] != '*'
    ensures var d := Step(text[a..b], c); Step(text, Config(c.state, a + c.pos)) == Config(d.state, a + d.pos)
  {
    var slice := text[a..b];
    assert slice[c.pos] == text[a + c.pos];
    if c.pos + 1 < |slice| {
      assert NextChar(slice, c.pos) == NextChar(text, a + c.pos);
    }
  }

  /** Scanning a slice in isolation is scanning that part of the whole, up to a landing on the slice's end. */
  lemma {:induction false} ScanSlice(text: string, a: nat, b: nat, c: Config, end: nat)
    requires a <= b <= |text| && c.pos <= |text[a..b]| && end <= b - a
    requires b < |text| ==> text[b] != '/' && text[b] != '*'
    ensures Scan(text[a..b], c, end).state == Scan(text, Config(c.state, a + c.pos), a + end).state
    ensures Scan(text[a..b], c, end).pos + a == Scan(text, Config(c.state, a + c.pos), a + end).pos
    decreases end - c.pos
  {
    var slice := text[a..b];
    if c.pos < end {
      var d := Step(slice, c);
      StepSlice(text, a, b, c);
      if d.pos <= |slice| {
        ScanSlice(text, a, b, d, end);
      }
    }
  }
}
