# FootballPrediction: verified models of its algorithmic cores

A Dafny 4.11 project that models the parts of the repository that compute something on their
own, and proves what they are for. Run `dafny verify dfyconfig.toml` in this directory.

## What is modelled

- **The JavaScript scanner of the growth freeze** (`JsLexer`, `Lexemes`, `CallArguments`,
  `ParenMatching`, `StringLiterals`, `CallTargets`, `Tokens`, `Reformatting`, `BrokenCalls`).
  The scanner has one six-state machine and three loops around it: a position query, a search
  for balanced parentheses and an extractor of string literals. `Lexemes` gives an account of
  the text that does not mention the machine: a division into code characters, literals and
  comments, in which a quote closes a literal iff an even number of backslashes stands before
  it. Every text has exactly one such division, and each loop is proved to agree with it, so the
  loops agree with each other. The last result is that of the collecting loop: the literals it
  reports for a call are those between the call's parenthesis and the matching parenthesis in
  the list of lexemes. `Tokens` and `Reformatting` show that blanks and comments between lexemes
  do not matter to it, where it looks at whole contents; `BrokenCalls` says when line breaks
  matter to the collector that looks for them.
- **Target normalisation and line offsets** (`JsTarget`, `JsSpelling`, `LineIndex`). `JsSpelling` tells the
  normal form by the pieces between slashes, without the code's replacements.
- **The growth-freeze gate** (`GrowthFreeze`, `NumberedNames`, `GrowthHistory`, `StringOrder`): its checks, the
  way it combines them, and what it guarantees about whole histories of commits.
- **The fuzzy matcher** (`EditDistance`, `FuzzyMatch`): the in-place Levenshtein matrix, its
  optimality over all sequences of single-character edits, and the metric laws.
- **Cookies** (`CookieText`, `CookieParsers`, `CookieJar`): three parsers, a printer for the
  `cookie-string` of section 4.2.1 of RFC 6265, and the mutable, insertion-ordered jar. Cookie
  pairs are taken apart as in section 5.2 of RFC 6265: at the first `=`, both parts trimmed.
- **Walk-forward validation** (`WalkForward`).
- **The evidence lifecycle of a review** (`ReviewLifecycle`), with every step free to fail
  before or after taking effect.
- **Cool-down register, port pool, odds timeline and probability pipeline** (`CoolDown`,
  `PortPool`, `OddsTimeline`, `MatchOdds`, `ValueGap`).

Code that changes state in the repository is a class or a method with a loop here; pure code is
functions and lemmas. `Options` holds the optional value, `Selections` says what picking elements in
order means, `Arithmetic` and `Reals` hold facts about numbers.

## What the code does that a reader might not expect

- The position query denies that the final slash of a block comment is inside the comment, since
  the two-character close is consumed at once (`Lexemes.IsPosInsideStringOrComment`).
- `_normalize_js_target` is not idempotent: the removal of `./` can bare a space
  (`JsTarget.IdempotentIff`, with an example in `JsTarget.SecondPassCanDiffer`).
- Not every two spellings of one path are normalised to the same target: a `.` in the middle stays, and
  so does a slash at the end (`JsSpelling.SameTargetIff` says exactly which are,
  `JsSpelling.InnerDotStays` gives those that are not).
- A team name that normalises to nothing, as one made of club words does, matches every URL, and
  no other name does (`FuzzyMatch.MatchesEverythingIff`, `FuzzyMatch.ClubWordsVanish`).
- A blank cookie name is kept by the jar and lost by the parser (`CookieJar.HeaderLosesNothingIff`).
- The matches of the last date fall in no test interval when the span is a whole number of steps
  (`WalkForward.LastDateTestedIff`).
- With a step of zero days or fewer, and something to test, the loop of the walk-forward generator
  never reaches its end (`WalkForward.LoopEndsIff`).
- Although the receipt is written last, it can be left without its evidence: if the run fails
  behind it, because its worktree cannot be removed for one, and the unlink of the receipt fails
  where that of some evidence does not (`ReviewLifecycle.Directory.RunReview` says exactly when,
  `ReviewLifecycle.OrphanedReceipt` gives a run).
- A capture of exactly three points ends the wait but fails validation, which wants more than
  the number that its constant calls a minimum (`OddsTimeline.AcceptedIff`).
- A retry merges two captures, logs the number of points, and then starts over: the merged
  timeline is not used, even where it would be accepted (`OddsTimeline.Harvest`,
  `OddsTimeline.MergedWouldDo`).
- Worker 0 of a pool of several ports has no port, worker 1 less the size of the pool has the first
  (`PortPool.HasPortIff`). Expanding an empty pool fills it with minus infinity
  (`PortPool.Pool.ExpandPorts`).
- A larger value gap in favour of the home side can lower the predicted ratio of home to away: the
  set is renormalised only when it is off by more than a hundredth, and the injury adjustment
  that follows meets numbers of another scale (`ValueGap.GapKeepsOrderIff` says exactly when it
  cannot happen, `ValueGap.LargerGapLowerRatio` gives a prediction).
- A call that is only broken over several lines can be reported as new, although reformatting is
  meant not to be: the collector for `require` and `import` sees the literals of a call only if
  its arguments hold a line break (`BrokenCalls.BlankKeepsLineFingerprintsIff` says exactly when,
  `BrokenCalls.BrokenRequireIsNew` gives a call).
- Without odds no outcome is ever of high value (`MatchOdds.NoFlagsWithoutOdds`), and the limits that
  the estimate is cut off at are never reached (`MatchOdds.LimitsNeverBind`).

## Model

| member | source | states |
|---|---|---|
| `JsLexer.ScanThrough` | scripts/ci/governance_reverse_dependency.py:216-223 | a scan stopped anywhere and continued from there ends where the uninterrupted scan ends |
| `JsLexer.ScanStops` | scripts/ci/governance_reverse_dependency.py:216-223 | a scan stops at its bound or one past it |
| `JsLexer.LocalScanAgrees` | scripts/ci/governance_reverse_dependency.py:227-238 | a scan begun afresh where the outer scan is in code agrees with it at every later stop |
| `JsLexer.ScanSlice` | scripts/ci/governance_reverse_dependency.py:260 | a slice that ends before a character that completes no comment is scanned alone as it is scanned in place |
| `Lexemes.NextLexeme` | scripts/ci/governance_reverse_dependency.py:167-198 | at every position of code some lexeme begins |
| `Lexemes.LexingExists` | scripts/ci/governance_reverse_dependency.py:201-209 | every text can be divided into lexemes: code characters, literals closed by the first quote behind an even number of backslashes, line comments, block comments |
| `Lexemes.LexingUnique` | scripts/ci/governance_reverse_dependency.py:201-209 | that division is unique |
| `Lexemes.ScanLexeme` | scripts/ci/governance_reverse_dependency.py:167-198 | the exact state and index of the machine at every stop inside one lexeme, including the overshoot over escapes and two-character delimiters |
| `Lexemes.ScanFindsLexemes` | scripts/ci/governance_reverse_dependency.py:212-224 | at every stop the machine is outside code exactly when the stop lies within a literal or comment of the division |
| `Lexemes.CodeAtIsBoundary` | scripts/ci/governance_reverse_dependency.py:212-224 | the machine rests in code exactly on the beginnings of lexemes and on a closed end of the text |
| `Lexemes.IsPosInsideStringOrComment` | scripts/ci/governance_reverse_dependency.py:212-224 | the position query answers true exactly when the position is within a literal or comment; the final slash of a closed block comment is the one exempt position |
| `Lexemes.CommentEndIsMissed` | scripts/ci/governance_reverse_dependency.py:172-173 | the exempt position on a concrete text: the query denies that the last character of a block comment is inside it |
| `CallArguments.BalancedParenRange` | scripts/ci/governance_reverse_dependency.py:227-247 | the result is the first code-level close at which the depth is zero; none exactly when there is no such close |
| `CallArguments.ExtractCallArgs` | scripts/ci/governance_reverse_dependency.py:250-260 | the text between the first non-blank, if it is an opening parenthesis, and its close; none exactly when either is missing |
| `CallArguments.SkipsBlanks` | scripts/ci/governance_reverse_dependency.py:252-253 | exactly the spaces, tabs and line breaks before the parenthesis are skipped |
| `CallArguments.DepthIsRelative` | scripts/ci/governance_reverse_dependency.py:227-247 | the local depth is the change of the file depth since the local scan began |
| `CallArguments.OpenUntilReturn` | scripts/ci/governance_reverse_dependency.py:239-245 | between the opening parenthesis and its close the depth stays positive |
| `CallArguments.LocalCloseIsFileClose` | scripts/ci/governance_reverse_dependency.py:227-247 | from a code-level opening parenthesis, the local search finds exactly the position at which the depth of the whole file first falls back |
| `CallArguments.SliceCodeAt` | scripts/ci/governance_reverse_dependency.py:260 | the argument text is in code at exactly the positions where the file is |
| `CallArguments.CallArgsBalanced` | scripts/ci/governance_reverse_dependency.py:250-260 | argument text is balanced, never goes below depth zero and ends in code when it is read on its own |
| `ParenMatching.DepthIsNesting` | scripts/ci/governance_reverse_dependency.py:227-247 | the depth that the scan keeps is the nesting of the parenthesis lexemes before it |
| `ParenMatching.FirstReturnIsMatching` | scripts/ci/governance_reverse_dependency.py:227-247 | the balanced scan returns a lexeme exactly when it is the matching parenthesis in the list of lexemes |
| `StringLiterals.StepInLexeme` | scripts/ci/governance_reverse_dependency.py:279-299 | one iteration stays inside its lexeme or leaves it in code at its closed end |
| `StringLiterals.ExtractJsStringLiterals` | scripts/ci/governance_reverse_dependency.py:263-300 | the result is the bodies of the closed literals of the unique division, in order, without the interpolated templates |
| `StringLiterals.LiteralsAreDelimited` | scripts/ci/governance_reverse_dependency.py:283-298 | every extracted literal is a slice of the text between two equal quotes |
| `StringLiterals.ExtractionUndoesPrinting` | scripts/ci/governance_reverse_dependency.py:263-300 | extracting from printed literals, any quotes, any well-escaped bodies, plain code between, gives back every body in order less the interpolated templates |
| `StringLiterals.PrintedLiteralIsLexeme` | scripts/ci/governance_reverse_dependency.py:175-181 | a well-escaped body between equal quotes is one lexeme |
| `StringLiterals.ArgumentLiteralsAreFileLiterals` | scripts/ci/governance_reverse_dependency.py:478-482 | the literals extracted from an argument text are the literals of the file between the two parentheses |
| `CallTargets.QueryMeansCode` | scripts/ci/governance_reverse_dependency.py:473-474 | except on a slash, not being inside a string or comment means that the scan rests in code there |
| `CallTargets.CodeOverPlain` | scripts/ci/governance_reverse_dependency.py:471-475 | from a code position the scan is still in code behind text without quotes and slashes, so at the parenthesis of a match |
| `CallTargets.HasScriptsOpsIff` | scripts/ci/governance_reverse_dependency.py:22-48 | the module name is found wherever it stands |
| `CallTargets.CallLiterals` | scripts/ci/governance_reverse_dependency.py:400-412 | a match contributes the literals between its parenthesis and the matching one in the list of lexemes; nothing if it starts inside a lexeme, has no partner, or must span lines and does not |
| `CallTargets.FingerprintLiterals` | scripts/ci/governance_reverse_dependency.py:330-331 | as many fingerprints as literals that hold scripts/ops or scripts.ops, in their order; each has the given path and kind, language javascript, and a canonical target with the pieces, the segments and the absoluteness of the literal |
| `CallTargets.CollectCallTargets` | scripts/ci/governance_reverse_dependency.py:467-483 | the fingerprints of all matches of one function name, in order: those of the literals that the matches contribute, told as for one match |
| `CallTargets.SameFingerprintIff` | scripts/ci/governance_reverse_dependency.py:330-331 | two spellings of a target have the same fingerprint exactly if the same pieces are left once white space, inner and repeated slashes and leading dots are gone |
| `Tokens.MatchingTokens` | scripts/ci/governance_reverse_dependency.py:227-247 | parentheses that match in the list of lexemes match in the list without blanks and comments |
| `Tokens.SameContributions` | scripts/ci/governance_reverse_dependency.py:588-591 | in two files that differ in blanks and comments only the same calls contribute the same literals, where calls are collected over the whole content |
| `Reformatting.SpacedLexing` | scripts/ci/governance_reverse_dependency.py:588-591 | a blank put in before a lexeme leaves every other lexeme as it was, the later ones moved by one |
| `Reformatting.BlankKeepsFingerprints` | scripts/ci/governance_reverse_dependency.py:588-591 | a blank or line break put in before any lexeme leaves the fingerprints of the calls, collected over the whole content, as they were |
| `BrokenCalls.ContributionAfter` | scripts/ci/governance_reverse_dependency.py:392-414 | for the collector of calls over several lines, a blank changes what a match contributes only if it is the first line break in its arguments, and then adds the literals that were not seen before |
| `BrokenCalls.BlankKeepsLineFingerprintsIff` | scripts/ci/governance_reverse_dependency.py:588-591 | the fingerprints of that collector stay as they were exactly if no call in which a literal names scripts/ops is broken for the first time; none is ever lost |
| `BrokenCalls.BrokenRequireIsNew` | scripts/ci/governance_reverse_dependency.py:392-414 | a call without fingerprint that has one once it is broken behind its parenthesis |
| `JsTarget.ReplaceDoubleShrinks` | scripts/ci/governance_reverse_dependency.py:311-312 | a round of replacement shortens any text with a double slash, so the loop ends |
| `JsTarget.CollapseAbsorbsReplace` | scripts/ci/governance_reverse_dependency.py:311-312 | a round of replacement does not change the one-pass collapse of slash runs |
| `JsTarget.NormalizeJsTarget` | scripts/ci/governance_reverse_dependency.py:303-317 | the two loops compute strip, slash conversion, one-pass collapse and removal of leading ./ |
| `JsTarget.NormalizedIsCanonical` | scripts/ci/governance_reverse_dependency.py:303-317 | the result has no backslash, no double slash and no leading ./ |
| `JsTarget.NormalizationKeepsPath` | scripts/ci/governance_reverse_dependency.py:313-317 | the result goes through the same path segments as the stripped target and is absolute iff it is |
| `JsTarget.IdempotentIff` | scripts/ci/governance_reverse_dependency.py:303-317 | a second normalisation changes nothing exactly when no space follows the leading ./ prefixes |
| `JsTarget.SecondPassCanDiffer` | scripts/ci/governance_reverse_dependency.py:310-316 | a target that a second normalisation does change |
| `JsSpelling.PiecesOfNormalized` | scripts/ci/governance_reverse_dependency.py:303-317 | the normal form splits at its slashes into exactly the pieces of the target that are not dropped |
| `JsTarget.StripAround` | scripts/ci/governance_reverse_dependency.py:310 | stripping takes away all the white space around a target and nothing else |
| `JsSpelling.SameTargetIff` | scripts/ci/governance_reverse_dependency.py:303-317 | two targets are normalised to the same text exactly if the same pieces are left of both |
| `JsSpelling.CanonicalStays` | scripts/ci/governance_reverse_dependency.py:303-317 | a trimmed target in normal form is left as it is |
| `JsSpelling.InnerDotStays` | scripts/ci/governance_reverse_dependency.py:313-317 | a dot in the middle of a path leads nowhere and stays: the same path without it is another target |
| `LineIndex.LineStarts` | scripts/ci/governance_reverse_dependency.py:491-495 | the running position at line k is the sum of the earlier lengths plus one each |
| `LineIndex.SplitLinesSplits` | scripts/ci/governance_reverse_dependency.py:489 | splitting yields lines without breaks whose rejoining is the text, up to a final break |
| `LineIndex.LinesBefore` | scripts/ci/governance_reverse_dependency.py:444 | the sum of lengths plus one is the length of the lines before, and they hold as many breaks as lines |
| `LineIndex.MatchPosition` | scripts/ci/governance_reverse_dependency.py:497-506 | slicing the content at the line start gives the line, so a match in the line is at its absolute position in the content |
| `LineIndex.LineNumber` | scripts/ci/governance_reverse_dependency.py:436 | counting breaks before any position of line k gives k |
| `EditDistance.Levenshtein` | archive_vault_2026/archive_v6/precision_strike.js:179-192 | the matrix is filled so that its last cell is the distance of the recurrence |
| `EditDistance.AdjacentCells` | archive_vault_2026/archive_v6/precision_strike.js:186-188 | neighbouring cells differ by at most one |
| `EditDistance.CellIsLeast` | archive_vault_2026/archive_v6/precision_strike.js:186-188 | taking only the diagonal on equal characters still yields the least over all three predecessors |
| `EditDistance.ZeroIffEqual` | archive_vault_2026/archive_v6/precision_strike.js:179-192 | the distance is zero exactly for equal strings |
| `EditDistance.Symmetric` | archive_vault_2026/archive_v6/precision_strike.js:179-192 | the distance is symmetric |
| `EditDistance.Triangle` | archive_vault_2026/archive_v6/precision_strike.js:179-192 | the triangle inequality |
| `EditDistance.LengthBounds` | archive_vault_2026/archive_v6/precision_strike.js:179-192 | the distance lies between the difference of the lengths and the longer length |
| `EditDistance.OneEdit` | archive_vault_2026/archive_v6/precision_strike.js:186-188 | a single insertion, deletion or substitution anywhere changes a string by a distance of at most one |
| `EditDistance.NoShorterScript` | archive_vault_2026/archive_v6/precision_strike.js:179-192 | no sequence of edits, at any positions and in any order, is shorter than the distance |
| `EditDistance.CellScript` | archive_vault_2026/archive_v6/precision_strike.js:179-192 | some sequence of edits is exactly as long as the cell says |
| `EditDistance.DistanceIsShortest` | archive_vault_2026/archive_v6/precision_strike.js:179-192 | the target is reachable within n edits exactly when the distance is at most n |
| `FuzzyMatch.Matches` | archive_vault_2026/archive_v6/precision_strike.js:165-195 | a match means that one normalised text contains the other or that two edits suffice |
| `FuzzyMatch.NormalizedForm` | archive_vault_2026/archive_v6/precision_strike.js:166-168 | a normalised text is alphanumeric, and alphanumeric text without a club word is left as it is |
| `FuzzyMatch.KeptIsSelection` | archive_vault_2026/archive_v6/precision_strike.js:166-167 | exactly the alphanumeric characters are kept, in order |
| `FuzzyMatch.FirstWordDrops` | archive_vault_2026/archive_v6/precision_strike.js:168 | the first club word goes, what stands before it stays, and the pass continues behind it |
| `FuzzyMatch.WithoutWordStays` | archive_vault_2026/archive_v6/precision_strike.js:168 | a text without a club word is left as it is |
| `FuzzyMatch.IncludesIff` | archive_vault_2026/archive_v6/precision_strike.js:174 | inclusion means that the part begins at some position |
| `FuzzyMatch.AlikeSymmetric` | archive_vault_2026/archive_v6/precision_strike.js:165-195 | matching is symmetric |
| `FuzzyMatch.AlwaysMatch` | archive_vault_2026/archive_v6/precision_strike.js:174-176 | equal arguments match; a name that normalises to nothing matches everything |
| `FuzzyMatch.MatchesEverythingIff` | archive_vault_2026/archive_v6/precision_strike.js:165-195 | a name matches every URL part exactly when it normalises to nothing, for any lower-casing that keeps plain texts |
| `FuzzyMatch.ClubWordsVanish` | archive_vault_2026/archive_v6/precision_strike.js:166-168 | the name "United FC" is such a name |
| `FuzzyMatch.LongTextsNeedContainment` | archive_vault_2026/archive_v6/precision_strike.js:174-194 | texts whose lengths differ by more than two match only by containment |
| `CookieText.PairsArePieces` | scripts/capture_auth_cli.js:32-35 | splitting at a semicolon with white space and splitting at the semicolon give the same trimmed pieces |
| `CookieText.TrimKeepsPieces` | scripts/import_manual_cookies.js:33-39 | trimming the whole string first does not change the trimmed pieces |
| `CookieText.JoinUndoesSplit` | scripts/inject_cookie.js:97-98 | joining with a character undoes splitting at it |
| `CookieText.TrimAround` | scripts/capture_auth_cli.js:41-42 | trimming takes away all the white space around a text and nothing else |
| `CookieParsers.ParseCaptured` | scripts/capture_auth_cli.js:30-57 | the push loop returns the named pairs between semicolons, in order |
| `CookieParsers.ParseImported` | scripts/import_manual_cookies.js:29-67 | so does the one with the early return |
| `CookieParsers.SplitJoinIsFirst` | scripts/inject_cookie.js:97-104 | splitting at every equals sign and joining the tail splits at the first |
| `CookieParsers.ParseInjected` | scripts/inject_cookie.js:90-113 | the third parser returns all pairs between semicolons, unnamed ones too |
| `CookieParsers.ParsersAgree` | scripts/inject_cookie.js:90-113 | on every input the three parsers agree once the unnamed pairs of the third are dropped |
| `CookieParsers.PairsOfParts` | scripts/capture_auth_cli.js:32-35 | the pairs of two texts with a semicolon between them are those of both, in order |
| `CookieParsers.NoPairWithoutEquals` | scripts/capture_auth_cli.js:37-40 | a part without an equals sign holds no pair |
| `CookieParsers.PairOfPart` | scripts/capture_auth_cli.js:37-44 | a part with an equals sign is one pair, split at the first, both sides trimmed; with the two laws before, this leaves no choice for any input |
| `CookieParsers.NamedIsSelection` | scripts/capture_auth_cli.js:44-54 | of the pairs exactly those with a name are kept, in order |
| `CookieParsers.ParseUndoesPrint` | archive/recon_v2_research/research_api_direct.js:48-52 | parsing a printed header gives back every pair in order |
| `CookieParsers.HeaderOfMore` | archive/recon_v2_research/research_api_direct.js:48-52 | the header of one cookie, and of a cookie before others |
| `CookieParsers.ParsedIsClean` | scripts/capture_auth_cli.js:41-44 | parsed names are trimmed, not empty, and free of equals signs and semicolons; values are trimmed and free of semicolons |
| `CookieParsers.RoundTripIff` | archive/recon_v2_research/research_api_direct.js:48-52 | printing and parsing give back the list exactly when every cookie in it is clean |
| `CookieParsers.ParseStable` | scripts/capture_auth_cli.js:30-57 | printing a parsed list and parsing again changes nothing |
| `CookieJar.PutRefinesLog` | archive/recon_v2_research/research_api_direct.js:26-39 | setting a pair in the ordered map is appending it to the log |
| `CookieJar.NamesInFirstOrder` | archive/recon_v2_research/research_api_direct.js:41-43 | names stand in the order of first insertion |
| `CookieJar.NamesDistinct` | archive/recon_v2_research/research_api_direct.js:41-43 | each name stands once |
| `CookieJar.Jar.constructor` | archive/recon_v2_research/research_api_direct.js:17-24 | the new map stands for one entry for each initial cookie with a name, in order, a missing value being empty |
| `CookieJar.Jar.Absorb` | archive/recon_v2_research/research_api_direct.js:26-39 | absorbing appends one entry for each line with a pair, in order, and it is the one that the line sets; the map is still what the log comes to |
| `CookieJar.AbsorbUndoesPrint` | archive/recon_v2_research/research_api_direct.js:28-37 | a line that prints a clean cookie, with any white space around both parts and any attributes behind a semicolon or none, sets exactly that cookie |
| `CookieJar.AbsorbedPairIff` | archive/recon_v2_research/research_api_direct.js:28-37 | a line sets a cookie exactly if it reads name=value up to its end or a semicolon, the name up to the first equals sign, and the cookie is both parts trimmed |
| `CookieJar.NothingAbsorbedIff` | archive/recon_v2_research/research_api_direct.js:30-33 | a line sets nothing exactly if no equals sign, or only one that begins it, stands before the first semicolon |
| `CookieJar.LastValueIsLast` | archive/recon_v2_research/research_api_direct.js:34-37 | what the log comes to holds the entry set last under each name |
| `CookieJar.Jar.ToHeader` | archive/recon_v2_research/research_api_direct.js:41-45 | the header prints what the log comes to |
| `CookieJar.AbsorbedLogIsLoose` | archive/recon_v2_research/research_api_direct.js:28-37 | absorbed pairs are trimmed and free of semicolons, names free of equals signs |
| `CookieJar.HeaderStandsForLog` | archive/recon_v2_research/research_api_direct.js:26-45 | for a log of absorbed pairs, parsing the header gives each name once, in first-insertion order, with its last value; blank names are dropped |
| `CookieJar.HeaderLosesNothingIff` | archive/recon_v2_research/research_api_direct.js:26-45 | nothing is dropped exactly when no blank name was ever set |
| `CookieJar.BlankNameIsAbsorbed` | archive/recon_v2_research/research_api_direct.js:29-37 | a line that sets a blank name |
| `CookieJar.AbsorbPrintParse` | archive/recon_v2_research/research_api_direct.js:17-45 | a new jar, any number of absorb calls, the header, and the header parsed: of the cookies that the lines set, told without the code, each name once, in first-insertion order, with its last value, blank names dropped |
| `WalkForward.Validate` | archive_vault_2026/legacy_v446/walk_forward_backtest.py:247-308 | the windows that are yielded, whenever the loop ends: number k is, exactly if some match is dated after the start of every window up to it, at least the minimum in the training days before its start and one in the test days from it; starts are the first date plus the training days plus k - 1 times the test days; both sets hold exactly the matches between the bounds, in order |
| `WalkForward.WantedIff` | archive_vault_2026/legacy_v446/walk_forward_backtest.py:264-285 | a window is wanted, in terms of dates alone, exactly if its round takes place and has enough samples |
| `WalkForward.LoopEndsIff` | archive_vault_2026/legacy_v446/walk_forward_backtest.py:264-308 | the loop reaches its end exactly when the step is positive or there is nothing to do |
| `WalkForward.RoundsStop` | archive_vault_2026/legacy_v446/walk_forward_backtest.py:264-281 | a round takes place exactly while its date is before the last date |
| `WalkForward.TestIntervalsTile` | archive_vault_2026/legacy_v446/walk_forward_backtest.py:264-277 | every match dated from the first current date up to, not including, the last date is in the test set of exactly one round |
| `WalkForward.EarlyMatchesUntested` | archive_vault_2026/legacy_v446/walk_forward_backtest.py:264-277 | a match before the first current date is in no test set |
| `WalkForward.LastDateTestedIff` | archive_vault_2026/legacy_v446/walk_forward_backtest.py:266 | a match of the last date is in a test set exactly when the span is positive and no whole number of steps |
| `WalkForward.TrainBeforeTest` | archive_vault_2026/legacy_v446/walk_forward_backtest.py:269-277 | in every window each training match is strictly before the start of testing and no test match is |
| `WalkForward.WindowsApart` | archive_vault_2026/legacy_v446/walk_forward_backtest.py:267-308 | ids increase strictly and no match is tested in two windows |
| `WalkForward.SelectIsExact` | archive_vault_2026/legacy_v446/walk_forward_backtest.py:276-277 | a selection holds exactly the rows in its half-open interval |
| `WalkForward.NoFutureLeakage` | archive_vault_2026/legacy_v446/walk_forward_backtest.py:269-305 | changing features or results, not dates, from a cut on changes neither the windows nor the training set of any window that starts testing by the cut |
| `StringOrder.SortSorts` | scripts/ci/governance_growth_gate.py:209 | sorting yields an ordered permutation |
| `StringOrder.AtMostIff` | scripts/ci/governance_growth_gate.py:209 | the order is that of the first difference between two texts, a prefix coming first |
| `StringOrder.SortForgetsOrder` | scripts/ci/governance_growth_gate.py:209 | the sorted list does not depend on the order of collection |
| `StringOrder.SortedListFacts` | scripts/ci/governance_growth_gate.py:116-123 | the sorted list of a set is ordered and has each member once |
| `GrowthFreeze.FindFingerprints` | scripts/ci/governance_reverse_dependency.py:548-577 | a fingerprint is found under a path exactly if the file stands under src/ at the revision and the scanner for its ending, .py or one of the six of JavaScript, returns it for the content; exactly the files with fingerprints are listed, each with its set |
| `GrowthFreeze.FileFingerprintsIff` | scripts/ci/governance_reverse_dependency.py:563-572 | a file has exactly the fingerprints that the scanner of its ending returns; files outside src/, without content or with another ending have none |
| `GrowthFreeze.FileErrors` | scripts/ci/governance_reverse_dependency.py:596-615 | one message for each parse failure if there are any, otherwise one for each new fingerprint, in the order of kind and target |
| `GrowthFreeze.ReportedIff` | scripts/ci/governance_reverse_dependency.py:596-615 | a fingerprint of a file is reported exactly if it is a parse failure, or the file has none and it is new |
| `GrowthFreeze.CheckReverseDependencies` | scripts/ci/governance_reverse_dependency.py:580-617 | the reports of the head files with fingerprints, sorted by path, one after the other; a missing revision raises |
| `GrowthFreeze.CheckReportsAndManifests` | scripts/ci/governance_growth_gate.py:105-126 | the messages for the new, unauthorised reports and then manifests, each group sorted by path |
| `GrowthFreeze.NewUnderIff` | scripts/ci/governance_growth_gate.py:105-126 | new are exactly the paths under the prefix that are there at head, not at base, and not authorised |
| `NumberedNames.HasNumberedWordIff` | scripts/ci/governance_growth_gate.py:34-38 | a basename is numbered exactly when phase or adg and a digit stand at its start or behind a separator |
| `NumberedNames.NumberedScriptIff` | scripts/ci/governance_growth_gate.py:34-38 | a path is taken for a numbered script exactly if it stands under scripts/ and in its last component phase or adg, in any case, stands at the start or behind a separator, followed by a digit or by one of - and _ and a digit |
| `GrowthFreeze.CheckNumberedScripts` | scripts/ci/governance_growth_gate.py:134-156 | the messages for the arriving, unauthorised numbered scripts, in the order of the diff |
| `GrowthHistory.Combine` | scripts/ci/governance_growth_gate.py:197-210 | the sorted list holds every error of every check as often as it is made, and the failure message of every check that raised |
| `GrowthHistory.NothingReportedIff` | scripts/ci/governance_reverse_dependency.py:580-617 | the list is empty exactly when every head file parses and its fingerprints are a subset of those at base |
| `GrowthHistory.NewDependencyIsReported` | scripts/ci/governance_reverse_dependency.py:580-617 | whenever the head scan of a file returns a fingerprint that the base scan of that path does not, or a parse error, something has grown, so the gate does not answer nothing |
| `GrowthHistory.SilentDocuments` | scripts/ci/governance_growth_gate.py:105-126 | no message exactly when reports and manifests have not grown |
| `GrowthHistory.SilentScripts` | scripts/ci/governance_growth_gate.py:134-156 | no message exactly when no blocked change arrives |
| `GrowthHistory.ScriptMessagesTell` | scripts/ci/governance_growth_gate.py:134-156 | one message for each addition or rename that brings a numbered script without authorisation, in the order of the diff, with its path |
| `GrowthHistory.RunGate` | scripts/ci/governance_growth_gate.py:190-210 | a failing check hides no other; the answer is empty exactly when git answered and nothing has grown |
| `GrowthHistory.HistoryNeverGrows` | scripts/ci/governance_growth_gate.py:190-210 | along any history in which the gate has nothing to say to each commit, run against the one before, dependencies, reports, manifests and numbered scripts never grow, except by what has been authorised since |
| `GrowthHistory.RemovedStaysRemoved` | scripts/ci/governance_reverse_dependency.py:580-617 | a dependency once removed stays removed |
| `ReviewLifecycle.EvidenceDistinct` | scripts/devops/claude_deepseek_independent_review.py:354-375 | no two evidence files of a run share a name with each other or with the receipt |
| `ReviewLifecycle.EvidenceIff` | scripts/devops/claude_deepseek_independent_review.py:354-375 | exactly which files a receipt rests on: raw and final answer always, the prompt only of a review in one piece, three files for each chunk of one in chunks |
| `ReviewLifecycle.EvidenceOrder` | scripts/devops/claude_deepseek_independent_review.py:356-373 | the files of a review in chunks are written chunk by chunk, prompt, raw and final answer, and then the two of the whole |
| `ReviewLifecycle.Directory.Write` | scripts/devops/claude_deepseek_independent_review.py:111-116 | exclusive creation: an existing file is never touched, whatever fails |
| `ReviewLifecycle.Directory.WriteAll` | scripts/devops/claude_deepseek_independent_review.py:356-375 | evidence is written in order; after the first failure exactly the files before it are there, and its own if it took effect |
| `ReviewLifecycle.Directory.CreatedFacts` | scripts/devops/claude_deepseek_independent_review.py:354-464 | whenever a run has written its receipt, it has written all the evidence that the receipt rests on |
| `ReviewLifecycle.Directory.Review` | scripts/devops/claude_deepseek_independent_review.py:245-464 | exactly which files a run creates before it returns or raises, and when it returns |
| `ReviewLifecycle.Directory.Cleanup` | scripts/devops/claude_deepseek_independent_review.py:467-501 | exactly what is left: what was there before, what is to be kept, and of the rest what could not be removed; and exactly when it reports a failure |
| `ReviewLifecycle.Directory.RunReview` | scripts/devops/claude_deepseek_independent_review.py:507-528 | returns exactly if every step goes well, and then receipt and evidence exist and no worktree is left; if it raises, the new files left are exactly those it created and could not unlink; exactly when a receipt is left without its evidence; earlier files are untouched for every way of failing |
| `ReviewLifecycle.OrphanedReceipt` | scripts/devops/claude_deepseek_independent_review.py:491-500 | a run that leaves a receipt and nothing else |
| `CoolDown.CoolingMeansLastEntry` | config/factory_config.js:527-551 | cooling means that the last entry of the worker is less than the duration old |
| `CoolDown.CoolingFades` | config/factory_config.js:542-551 | once cooled down, a worker stays so until it enters again |
| `CoolDown.Register.EnterCoolDown` | config/factory_config.js:527-536 | entering appends to the log |
| `CoolDown.Register.IsInCoolDown` | config/factory_config.js:542-551 | the answer is that of the log, and deleting an entry changes no later answer |
| `CoolDown.Register.GetRemainingTime` | config/factory_config.js:557-561 | positive exactly while cooling, and exactly the time until cooling ends |
| `PortPool.Pool.ExpandPorts` | config/factory_config.js:259-264 | the old ports stay in front, the pool reaches the larger of its size and the count, and is distinct exactly if it was and has a number to count on from, or at most one port; with no ports the new ones are minus infinity |
| `PortPool.RotationReturns` | config/factory_config.js:241-245 | as many rotations as ports lead back |
| `PortPool.RotationReaches` | config/factory_config.js:241-245 | rotation comes to every port of the pool within one cycle |
| `PortPool.RotationApart` | config/factory_config.js:241-245 | and to none twice |
| `PortPool.NextOfMember` | config/factory_config.js:241-245 | a port of the pool is followed by the next one, the last by the first |
| `PortPool.NextOfUnknown` | config/factory_config.js:241-245 | an unknown port is followed by the first one |
| `PortPool.WorkersInOrder` | config/factory_config.js:231-235 | workers from 1 on take the ports in their order and begin again behind the last |
| `PortPool.LoadBalancedIff` | config/factory_config.js:231-235 | any block of consecutive workers numbered from 1, as documented, loads the ports evenly to within one worker; for blocks that begin below, exactly which do, from the numbers of the workers |
| `PortPool.FirstLoadBelowOne` | config/factory_config.js:231-235 | how many workers below 1 share the first port |
| `PortPool.HasPortIff` | config/factory_config.js:231-235 | a worker has a port exactly if its number is at least 1, or 1 less a multiple of the size of the pool, and then it shares the first |
| `OddsTimeline.SortSorts` | archive_vault_2026/archive_v6/bet365_ultimate_redo.js:487 | the sorted timeline is an ascending permutation |
| `OddsTimeline.SortStable` | archive_vault_2026/archive_v6/bet365_ultimate_redo.js:487 | points of equal time keep their order |
| `OddsTimeline.BuildSentiment` | archive_vault_2026/archive_v6/bet365_ultimate_redo.js:483-556 | the timeline is sorted in place; the ends, the marked history, the three largest changes, each a bound that is attained, and the volatility, both rounded to four digits |
| `OddsTimeline.RoundedIsNearest` | archive_vault_2026/archive_v6/bet365_ultimate_redo.js:552-555 | the rounded number is within half a ten-thousandth, and no number with four digits is nearer |
| `OddsTimeline.RoundedDigits` | archive_vault_2026/archive_v6/bet365_ultimate_redo.js:552-555 | it has four digits, and of two numbers as near it is the one further from zero |
| `OddsTimeline.LargestChangesBound` | archive_vault_2026/archive_v6/bet365_ultimate_redo.js:501-508 | field by field: no step of the home, draw or away odds is larger than the change stated for it, up to the rounding |
| `OddsTimeline.OneOpenOneClose` | archive_vault_2026/archive_v6/bet365_ultimate_redo.js:522-526 | exactly the first entry is the opening, and exactly the last, if it is not the first, the closing |
| `OddsTimeline.VolatilityZeroIff` | archive_vault_2026/archive_v6/bet365_ultimate_redo.js:510-519 | with positive odds the volatility, before rounding, is a number, not negative, and zero exactly if the odds never change |
| `OddsTimeline.TwoPointVolatility` | archive_vault_2026/archive_v6/bet365_ultimate_redo.js:510-519 | of two points the volatility is the mean percentage by which the three odds change |
| `OddsTimeline.VolatilityAverages` | archive_vault_2026/archive_v6/bet365_ultimate_redo.js:510-519 | of more points it is the mean over the neighbours: a further point adds the volatility of one step |
| `OddsTimeline.VolatilityExistsIff` | archive_vault_2026/archive_v6/bet365_ultimate_redo.js:510-519 | it is a number exactly if no point but the last has odds of zero |
| `OddsTimeline.ClosingNearOpening` | archive_vault_2026/archive_v6/bet365_ultimate_redo.js:493-508 | the ends of a series are no further apart than its largest change once per step |
| `OddsTimeline.AcceptedIff` | archive_vault_2026/archive_v6/bet365_ultimate_redo.js:129-163 | a capture is accepted exactly if it has more than three points and no time of zero at either end; which of those that end the wait are not |
| `OddsTimeline.Harvest` | archive_vault_2026/archive_v6/bet365_ultimate_redo.js:732-761 | what is saved is the first capture that is accepted by itself, within the retries; merged timelines are only counted |
| `OddsTimeline.MergedWouldDo` | archive_vault_2026/archive_v6/bet365_ultimate_redo.js:748-756 | two captures refused one by one whose merged timeline would be accepted |
| `OddsTimeline.MergeIsStrict` | archive_vault_2026/archive_v6/bet365_ultimate_redo.js:749-751 | the merged timeline ascends strictly and holds exactly the first point of every time |
| `MatchOdds.ProbabilitySet.constructor` | archive_vault_2026/legacy_v446/predict_weekend.py:128-135 | the fields hold the renormalised values |
| `MatchOdds.SettledIsSound` | archive_vault_2026/legacy_v446/predict_weekend.py:128-135 | positive numbers settle to positive ones whose sum is within a hundredth of one |
| `MatchOdds.EloIsSound` | archive_vault_2026/legacy_v446/predict_weekend.py:428-443 | the Elo formula gives positive probabilities that sum to one, whatever the power of ten |
| `MatchOdds.RatedSetIff` | archive_vault_2026/legacy_v446/predict_weekend.py:428-443 | the set of two ratings is the one solution of three equations: the sum is one, away is home times the power, the draw falls from 0.28 by 0.0005 a point of the gap, down to 0.2 at 160 points |
| `MatchOdds.FavouriteIff` | archive_vault_2026/legacy_v446/predict_weekend.py:432-443 | home is more likely than away exactly if the power of ten is below one |
| `MatchOdds.SmallerPowerRaises` | archive_vault_2026/legacy_v446/predict_weekend.py:432-443 | a smaller power never lowers the ratio of home to away, whatever the ratings do to the draw |
| `MatchOdds.DrawFalls` | archive_vault_2026/legacy_v446/predict_weekend.py:434-436 | a wider gap between the ratings never raises the draw |
| `MatchOdds.ValueMoves` | archive_vault_2026/legacy_v446/predict_weekend.py:462-474 | within the limits a hundred million of value moves exactly two hundredths from away to home |
| `MatchOdds.InjuriesMove` | archive_vault_2026/legacy_v446/predict_weekend.py:494-505 | within the limits an injury at home moves exactly half a hundredth from home to away |
| `MatchOdds.AdjustedIsSound` | archive_vault_2026/legacy_v446/predict_weekend.py:462-505 | either adjustment keeps the set sound |
| `MatchOdds.Pipeline` | archive_vault_2026/legacy_v446/predict_weekend.py:445-505 | so does any sequence of adjustments |
| `MatchOdds.Predict` | archive_vault_2026/legacy_v446/predict_weekend.py:643-655 | without features the set solves the equations of the ratings; with them the sets made one after the other hold what the pipeline says; always sound |
| `MatchOdds.HomeRatioMonotone` | archive_vault_2026/legacy_v446/predict_weekend.py:462-474 | the value adjustment by itself: a larger gap never lowers the ratio of home to away, clamps and renormalisation included |
| `MatchOdds.InjuryRatioMonotone` | archive_vault_2026/legacy_v446/predict_weekend.py:494-505 | more injuries on the home side never raise that ratio |
| `ValueGap.EloIsRated` | archive_vault_2026/legacy_v446/predict_weekend.py:428-443 | what the ratings give sums to one, with a draw between 0.2 and 0.28 |
| `ValueGap.GapKeepsOrderIff` | archive_vault_2026/legacy_v446/predict_weekend.py:643-655 | for what the ratings give, a larger value gap never lowers the predicted ratio of home to away, after both adjustments, exactly if the injury gap is 0 or at least 162 either way |
| `ValueGap.LargerGapLowerRatio` | archive_vault_2026/legacy_v446/predict_weekend.py:643-655 | a larger gap in favour of the home side, and a lower predicted ratio, with one injury |
| `MatchOdds.ThreeValueBetsIff` | archive_vault_2026/legacy_v446/predict_weekend.py:273-290 | a sound set with a positive expected value on all three outcomes exists exactly against odds that imply less than 1.01 |
| `MatchOdds.ValuesAreGains` | archive_vault_2026/legacy_v446/predict_weekend.py:273-290 | with valid odds each outcome has the gain expected on that outcome: the odds less the stake if it comes, minus the stake if not; positive exactly above the implied probability |
| `MatchOdds.LimitsNeverBind` | archive_vault_2026/legacy_v446/predict_weekend.py:292-344 | without valid odds the limits of the five bands cut nothing off: the values are the linear ones, and positive exactly between 0.7 and 1 |
| `MatchOdds.NoFlagsWithoutOdds` | archive_vault_2026/legacy_v446/predict_weekend.py:292-344 | without valid odds every expected value is below 1.5%, so none passes the thresholds of 5% and 10% |

## Left out

- Regular expressions that locate calls and imports, the multi-line import search, and Python `ast` scanning: match positions and the fingerprints of a file's content are given. The regular expressions call a dynamic import on one line `dynamic-es-import` and the loop over several lines calls it `import`, so that reformatting one makes it new. A blank inside a name, and for the collector over lines a line break before the parenthesis, takes the match away.
- JavaScript that the scanner does not know about, regular-expression literals and code inside template interpolation: the model follows the scanner.
- Text with line breaks other than `\n`, and paths with white space around them.
- Git itself: trees are maps, `git diff` is a given list of changes. Histories assume that each base is an ancestor of its head, so that the three-dot diff lists every arriving path. Git puts paths with non-ASCII characters in quotes unless told otherwise; the prefix test of the numbered scripts misses a path that begins with a quote, and the test of the extension a path under `src/` that ends with one: paths are taken to be plain.
- Unicode case folding and Unicode digits in `_GOVERNANCE_SCRIPT_RE`: only ASCII letters and digits are matched. Exceptions other than `RuntimeError` pass through the gate and are not modelled.
- Lower-casing in the fuzzy matcher is a parameter, any function on strings.
- The fixed fields of a parsed cookie (domain, path, expiry, flags), and values that are not strings.
- Sorting of the data frame, missing dates, model training and metrics: the split does not depend on the order of rows. The date arithmetic has no end here; in pandas a negative step would run out of dates and raise.
- Floating-point rounding: numbers are reals. Infinity and NaN, which odds of zero lead to, are one absent value.
- The contents of evidence files and receipts, signatures and validation: a write stores given data, and every step without effect on the directory is one that may fail. Concurrent reviews in one directory and retained invocations.
- Clocks that run backwards.
- Browser automation, network, database and console reporting.
