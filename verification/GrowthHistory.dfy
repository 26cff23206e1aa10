/**
 The gate as a whole, and what it means for a history of commits that each pass it:
 reverse dependencies, reports, manifests and numbered scripts never grow.
 */
module GrowthHistory {
  import opened StringOrder
  import opened GrowthFreeze
  import opened NumberedNames
  import opened Selections

  function FailureMessage(check: string, message: string): string {
    "GOV-GROWTH-GATE: Governance growth freeze check failed (" + check + "): " + message
  }

  /** What a check adds to the gate's list: its errors, or one message that says it failed. */
  function Contribution(check: string, outcome: Outcome): seq<string> {
    match outcome
    case Errors(list) => list
    case Raised(message) => [FailureMessage(check, message)]
  }

  /** Each error of the check is in the list, as often as the check gives it; if it raised, that is in the list. */
  ghost predicate HoldsAll(errors: seq<string>, check: string, outcome: Outcome) {
    match outcome
    case Errors(list) => multiset(list) <= multiset(errors)
    case Raised(message) => FailureMessage(check, message) in multiset(errors)
  }

  /** The loop over the three checks, whose outcomes are given in their order. */
  method Combine(outcomes: seq<(string, Outcome)>) returns (errors: seq<string>)
    ensures Sorted(errors)
    ensures multiset(errors) == Contributed(outcomes, |outcomes|)
    ensures forall i :: 0 <= i < |outcomes| ==> HoldsAll(errors, outcomes[i].0, outcomes[i].1)
  {
    errors := [];
    for n := 0 to |outcomes|
      invariant multiset(errors) == Contributed(outcomes, n)
    {
      match outcomes[n].1 {
        case Errors(list) => errors := errors + list;
        case Raised(message) => errors := errors + [FailureMessage(outcomes[n].0, message)];
      }
    }
    SortSorts(errors);
    errors := Sort(errors);
    forall i | 0 <= i < |outcomes|
      ensures HoldsAll(errors, outcomes[i].0, outcomes[i].1)
    {
      ContributionAmong(outcomes, |outcomes|, i);
      ContributionHeld(errors, outcomes[i].0, outcomes[i].1);
    }
  }

  /** Everything that the first `n` checks contribute, each string as often as it is contributed. */
  function Contributed(outcomes: seq<(string, Outcome)>, n: nat): multiset<string>
    requires n <= |outcomes|
  {
    if n == 0 then multiset{}
    else Contributed(outcomes, n - 1) + multiset(Contribution(outcomes[n - 1].0, outcomes[n - 1].1))
  }

  lemma {:induction false} ContributionAmong(outcomes: seq<(string, Outcome)>, n: nat, i: nat)
    requires i < n <= |outcomes|
    ensures multiset(Contribution(outcomes[i].0, outcomes[i].1)) <= Contributed(outcomes, n)
    decreases n
  {
    if i < n - 1 {
      ContributionAmong(outcomes, n - 1, i);
    }
    InSum(multiset(Contribution(outcomes[i].0, outcomes[i].1)), Contributed(outcomes, n - 1),
          multiset(Contribution(outcomes[n - 1].0, outcomes[n - 1].1)));
  }

  lemma InSum(x: multiset<string>, a: multiset<string>, b: multiset<string>)
    ensures x <= a || x <= b ==> x <= a + b
  {
  }

  lemma ContributionHeld(errors: seq<string>, check: string, outcome: Outcome)
    requires multiset(Contribution(check, outcome)) <= multiset(errors)
    ensures HoldsAll(errors, check, outcome)
  {
    if outcome.Raised? {
      assert FailureMessage(check, outcome.message) in multiset(Contribution(check, outcome));
    }
  }

  // ---------------------------------------------------------------------------------------
  // One step: what an empty answer means
  // ---------------------------------------------------------------------------------------

  /** Whatever the scanners find in the file at head is no parse failure, and they find it there at base. */
  ghost predicate FileFrozen(base: Tree, head: Tree, scan: Scanner, path: string) {
    forall fp :: Found(head, scan, path, fp) ==> fp.kind != "parse-error" && Found(base, scan, path, fp)
  }

  lemma FileFrozenIff(base: Tree, head: Tree, scan: Scanner, path: string)
    ensures FileFrozen(base, head, scan, path) <==>
              && !Unparsed(FileFingerprints(head, scan, path))
              && FileFingerprints(head, scan, path) <= FileFingerprints(base, scan, path)
  {
    forall fp
      ensures Found(head, scan, path, fp) <==> fp in FileFingerprints(head, scan, path)
      ensures Found(base, scan, path, fp) <==> fp in FileFingerprints(base, scan, path)
    {
      FileFingerprintsIff(head, scan, path, fp);
      FileFingerprintsIff(base, scan, path, fp);
    }
  }

  ghost predicate DependenciesFrozen(base: Tree, head: Tree, scan: Scanner) {
    forall p :: FileFrozen(base, head, scan, p)
  }

  predicate IsDocument(path: string) {
    "docs/_reports/" <= path || "docs/_manifests/" <= path
  }

  /** Every report and manifest at head is there at base, or authorised. */
  ghost predicate DocumentsFrozen(base: Tree, head: Tree, authorized: set<string>) {
    forall p :: p in head && IsDocument(p) ==> p in base || p in authorized
  }

  /** The change is an addition, or a rename to its path. */
  predicate BringsPath(c: Change) {
    c.status == "A" || (c.status != "" && c.status[0] == 'R')
  }

  /** No change brings a numbered script that is not authorised. */
  ghost predicate NoBlockedChange(changes: seq<Change>, authorized: set<string>) {
    forall c :: c in changes && BringsPath(c) && IsNumberedScript(c.path) ==> c.path in authorized
  }

  lemma BlockedIff(c: Change, authorized: set<string>)
    ensures BlockedChange(c, authorized) <==> BringsPath(c) && IsNumberedScript(c.path) && c.path !in authorized
  {
    NumberedScriptIff(c.path);
  }

  /** A file's report is empty exactly when the file parses and has nothing new. */
  lemma SilentFile(
    path: string, headFps: set<Fingerprint>, baseFps: set<Fingerprint>, order: seq<Fingerprint>, errors: seq<string>
  )
    requires IsFileReport(path, headFps, baseFps, order, errors)
    ensures errors == [] <==> !Unparsed(headFps) && headFps <= baseFps
  {
    var reported := ReportedOf(headFps, baseFps);
    assert |multiset(order)| == |order| && |multiset(reported)| == |reported|;
    if Unparsed(headFps) {
      var fp :| fp in headFps && fp.kind == "parse-error";
      assert fp in reported;
    } else {
      assert forall fp :: fp in headFps && fp !in baseFps <==> fp in reported;
      assert headFps <= baseFps ==> reported == {};
    }
  }

  ghost predicate AllFrozen(base: Tree, head: Tree, scan: Scanner, files: seq<string>) {
    forall p :: p in files ==> FileFrozen(base, head, scan, p)
  }

  lemma AllFrozenSnoc(base: Tree, head: Tree, scan: Scanner, files: seq<string>, n: nat)
    requires n + 1 == |files|
    ensures AllFrozen(base, head, scan, files) <==>
              AllFrozen(base, head, scan, files[..n]) && FileFrozen(base, head, scan, files[n])
  {
    assert files == files[..n] + [files[n]];
  }

  lemma {:induction false} SilentReport(files: seq<string>, base: Tree, head: Tree, scan: Scanner, errors: seq<string>)
    requires IsReport(files, base, head, scan, errors)
    ensures errors == [] <==> AllFrozen(base, head, scan, files)
    decreases |files|
  {
    if files != [] {
      var n := |files| - 1;
      var headFps, baseFps := FileFingerprints(head, scan, files[n]), FileFingerprints(base, scan, files[n]);
      var k: nat, order :| k <= |errors| && IsReport(files[..n], base, head, scan, errors[..k])
                           && IsFileReport(files[n], headFps, baseFps, order, errors[k..]);
      SilentReport(files[..n], base, head, scan, errors[..k]);
      SilentFile(files[n], headFps, baseFps, order, errors[k..]);
      FileFrozenIff(base, head, scan, files[n]);
      AllFrozenSnoc(base, head, scan, files, n);
      assert errors == [] <==> errors[..k] == [] && errors[k..] == [];
    }
  }

  /** The dependency check reports nothing exactly when dependencies are frozen. */
  lemma NothingReportedIff(base: Tree, head: Tree, scan: Scanner, errors: seq<string>)
    requires IsReport(SortedList(FilesWithFingerprints(head, scan)), base, head, scan, errors)
    ensures errors == [] <==> DependenciesFrozen(base, head, scan)
  {
    var files := FilesWithFingerprints(head, scan);
    SortedListFacts(files);
    SilentReport(SortedList(files), base, head, scan, errors);
    forall p | p !in files
      ensures FileFrozen(base, head, scan, p)
    {
      assert FileFingerprints(head, scan, p) == {};
      FileFrozenIff(base, head, scan, p);
    }
  }

  /** Git has answered every question, and nothing has grown from base to head. */
  ghost predicate NothingGrown(repo: Repo, scan: Scanner, authorized: set<string>, baseRef: string, headRef: string) {
    && baseRef in repo.trees && headRef in repo.trees && repo.diff(baseRef, headRef).Some?
    && DocumentsFrozen(repo.trees[baseRef], repo.trees[headRef], authorized)
    && NoBlockedChange(repo.diff(baseRef, headRef).value, authorized)
    && DependenciesFrozen(repo.trees[baseRef], repo.trees[headRef], scan)
  }

  /** What a scanner newly finds at head, or cannot parse, keeps the gate from answering nothing. */
  lemma NewDependencyIsReported(
    repo: Repo, scan: Scanner, authorized: set<string>, baseRef: string, headRef: string, path: string, fp: Fingerprint
  )
    requires baseRef in repo.trees && headRef in repo.trees && Found(repo.trees[headRef], scan, path, fp)
    requires fp.kind == "parse-error" || !Found(repo.trees[baseRef], scan, path, fp)
    ensures !NothingGrown(repo, scan, authorized, baseRef, headRef)
  {
    assert !FileFrozen(repo.trees[baseRef], repo.trees[headRef], scan, path);
  }

  /**
   The gate. It answers with the sorted list of everything its checks contribute, so no check
   that fails hides another's errors; it answers nothing exactly when nothing has grown.
   */
  method RunGate(repo: Repo, scan: Scanner, authorized: set<string>, baseRef: string, headRef: string)
    returns (errors: seq<string>, ghost documents: Outcome, ghost scripts: Outcome, ghost dependencies: Outcome)
    ensures IsDocumentOutcome(repo, authorized, baseRef, headRef, documents)
    ensures IsScriptOutcome(repo, authorized, baseRef, headRef, scripts)
    ensures IsDependencyOutcome(repo, scan, baseRef, headRef, dependencies)
    ensures Sorted(errors)
    ensures multiset(errors) ==
            multiset(Contribution("reports/manifests", documents))
            + multiset(Contribution("governance scripts", scripts))
            + multiset(Contribution("reverse deps", dependencies))
    ensures errors == [] <==> NothingGrown(repo, scan, authorized, baseRef, headRef)
  {
    var first := CheckReportsAndManifests(repo, authorized, baseRef, headRef);
    var second := CheckNumberedScripts(repo, authorized, baseRef, headRef);
    var third := CheckReverseDependencies(repo, scan, baseRef, headRef);
    documents, scripts, dependencies := first, second, third;
    var outcomes := [("reports/manifests", first), ("governance scripts", second), ("reverse deps", third)];
    errors := Combine(outcomes);
    ThreeContributions(outcomes);
    assert |multiset(errors)| == |errors|;
    SilentOutcomes(repo, scan, authorized, baseRef, headRef, first, second, third);
  }

  lemma ThreeContributions(outcomes: seq<(string, Outcome)>)
    requires |outcomes| == 3
    ensures var x := multiset(Contribution(outcomes[0].0, outcomes[0].1));
            var y := multiset(Contribution(outcomes[1].0, outcomes[1].1));
            var z := multiset(Contribution(outcomes[2].0, outcomes[2].1));
            Contributed(outcomes, 3) == x + y + z
            && (|x + y + z| == 0 <==> outcomes[0].1 == outcomes[1].1 == outcomes[2].1 == Errors([]))
  {
    assert Contributed(outcomes, 1) == multiset(Contribution(outcomes[0].0, outcomes[0].1));
    assert Contributed(outcomes, 2) == Contributed(outcomes, 1) + multiset(Contribution(outcomes[1].0, outcomes[1].1));
    EmptyContribution(outcomes[0].0, outcomes[0].1);
    EmptyContribution(outcomes[1].0, outcomes[1].1);
    EmptyContribution(outcomes[2].0, outcomes[2].1);
  }

  lemma EmptyContribution(check: string, outcome: Outcome)
    ensures |multiset(Contribution(check, outcome))| == 0 <==> outcome == Errors([])
  {
    assert |multiset(Contribution(check, outcome))| == |Contribution(check, outcome)|;
  }

  /** All three checks are silent exactly when nothing has grown. */
  lemma SilentOutcomes(
    repo: Repo, scan: Scanner, authorized: set<string>, baseRef: string, headRef: string,
    documents: Outcome, scripts: Outcome, dependencies: Outcome
  )
    requires IsDocumentOutcome(repo, authorized, baseRef, headRef, documents)
    requires IsScriptOutcome(repo, authorized, baseRef, headRef, scripts)
    requires IsDependencyOutcome(repo, scan, baseRef, headRef, dependencies)
    ensures documents == scripts == dependencies == Errors([])
            <==> NothingGrown(repo, scan, authorized, baseRef, headRef)
  {
    if documents.Errors? {
      var base, head := repo.trees[baseRef], repo.trees[headRef];
      SilentDocuments(base, head, authorized);
      NothingReportedIff(base, head, scan, dependencies.list);
    }
    if scripts.Errors? {
      SilentScripts(repo.diff(baseRef, headRef).value, authorized);
    }
  }

  lemma NothingNewIff(base: Tree, head: Tree, prefix: string, authorized: set<string>)
    ensures NewUnder(base, head, prefix, authorized) == {}
            <==> FilesUnder(head, prefix) <= FilesUnder(base, prefix) + authorized
  {
    var arrived := NewUnder(base, head, prefix, authorized);
    assert forall p :: p in arrived <==> p in FilesUnder(head, prefix) && p !in FilesUnder(base, prefix) + authorized;
  }

  lemma SilentList(paths: set<string>, format: string -> string)
    ensures Each(SortedList(paths), format) == [] <==> paths == {}
  {
    SortedListFacts(paths);
    assert |multiset(SortedList(paths))| == |SortedList(paths)|;
  }

  lemma SilentDocuments(base: Tree, head: Tree, authorized: set<string>)
    ensures DocumentMessages(base, head, authorized) == [] <==> DocumentsFrozen(base, head, authorized)
  {
    SilentList(NewUnder(base, head, REPORT_PREFIX, authorized), ReportMessage);
    SilentList(NewUnder(base, head, MANIFEST_PREFIX, authorized), ManifestMessage);
    NothingNewIff(base, head, REPORT_PREFIX, authorized);
    NothingNewIff(base, head, MANIFEST_PREFIX, authorized);
    DocumentsFrozenIff(base, head, authorized);
  }

  lemma DocumentsFrozenIff(base: Tree, head: Tree, authorized: set<string>)
    ensures DocumentsFrozen(base, head, authorized) <==>
              && FilesUnder(head, REPORT_PREFIX) <= FilesUnder(base, REPORT_PREFIX) + authorized
              && FilesUnder(head, MANIFEST_PREFIX) <= FilesUnder(base, MANIFEST_PREFIX) + authorized
  {
    UnderFrozenIff(base, head, REPORT_PREFIX, authorized);
    UnderFrozenIff(base, head, MANIFEST_PREFIX, authorized);
  }

  lemma UnderFrozenIff(base: Tree, head: Tree, prefix: string, authorized: set<string>)
    ensures FilesUnder(head, prefix) <= FilesUnder(base, prefix) + authorized
            <==> forall p :: p in head && prefix <= p ==> p in base || p in authorized
  {
    assert forall p :: p in FilesUnder(head, prefix) <==> p in head && prefix <= p;
    assert forall p :: p in FilesUnder(base, prefix) <==> p in base && prefix <= p;
  }

  lemma {:induction false} SilentScripts(changes: seq<Change>, authorized: set<string>)
    ensures ScriptMessages(changes, authorized) == [] <==> NoBlockedChange(changes, authorized)
    decreases |changes|
  {
    if changes != [] {
      var n := |changes| - 1;
      SilentScripts(changes[..n], authorized);
      LastChange(changes, authorized);
    }
  }

  lemma LastChange(changes: seq<Change>, authorized: set<string>)
    requires changes != []
    ensures NoBlockedChange(changes, authorized) <==>
              && NoBlockedChange(changes[..|changes| - 1], authorized)
              && !BlockedChange(changes[|changes| - 1], authorized)
  {
    var n := |changes| - 1;
    BlockedIff(changes[n], authorized);
    assert forall c :: c in changes <==> c in changes[..n] || c == changes[n];
  }

  ghost function BringsScript(authorized: set<string>): Change -> bool {
    c => BringsPath(c) && IsNumberedScript(c.path) && c.path !in authorized
  }

  predicate NamesPath(c: Change, message: string) {
    message == PhaseMessage(c.path)
  }

  /** One message for each change that brings a numbered script without authorisation, in order, with its path. */
  lemma {:induction false} ScriptMessagesTell(changes: seq<Change>, authorized: set<string>)
    ensures Answers(changes, ScriptMessages(changes, authorized), BringsScript(authorized), NamesPath)
    decreases |changes|
  {
    if changes == [] {
      AnswersNone(BringsScript(authorized), NamesPath);
    } else {
      var n := |changes| - 1;
      ScriptMessagesTell(changes[..n], authorized);
      BlockedIff(changes[n], authorized);
      var more := if BlockedChange(changes[n], authorized) then [PhaseMessage(changes[n].path)] else [];
      AnswersSnoc(changes, ScriptMessages(changes[..n], authorized), more, BringsScript(authorized), NamesPath);
    }
  }

  // ---------------------------------------------------------------------------------------
  // Whole histories
  // ---------------------------------------------------------------------------------------

  /** What `git diff -M` lists when base is an ancestor of head: every path new at head arrives in some entry. */
  ghost predicate ListsArrivals(base: Tree, head: Tree, changes: seq<Change>) {
    forall p :: p in head && p !in base ==> exists c :: c in changes && c.path == p && BringsPath(c)
  }

  /**
   Each commit passes the gate, run with the commit before it as base; `authorized[i]` is the list
   of authorised additions in force at commit `i`.
   */
  ghost predicate PassingHistory(repo: Repo, scan: Scanner, authorized: seq<set<string>>, refs: seq<string>) {
    && |authorized| == |refs|
    && forall i :: 0 < i < |refs| ==>
         && NothingGrown(repo, scan, authorized[i], refs[i - 1], refs[i])
         && ListsArrivals(repo.trees[refs[i - 1]], repo.trees[refs[i]], repo.diff(refs[i - 1], refs[i]).value)
  }

  /** What has been authorised behind commit `i`, up to and at commit `j`. */
  function AuthorizedSince(authorized: seq<set<string>>, i: nat, j: nat): set<string>
    requires i <= j < |authorized|
    decreases j
  {
    if i == j then {} else AuthorizedSince(authorized, i, j - 1) + authorized[j]
  }

  ghost function NumberedScripts(tree: Tree): set<string> {
    set p | p in tree && IsNumberedScript(p)
  }

  lemma ScriptsFrozen(base: Tree, head: Tree, changes: seq<Change>, authorized: set<string>)
    requires ListsArrivals(base, head, changes) && NoBlockedChange(changes, authorized)
    ensures NumberedScripts(head) <= NumberedScripts(base) + authorized
  {
    forall p | p in NumberedScripts(head)
      ensures p in NumberedScripts(base) + authorized
    {
      if p !in base {
        var c :| c in changes && c.path == p && BringsPath(c);
      }
    }
  }

  /** From base to head nothing has grown but by what is authorised. */
  ghost predicate NeverGrows(base: Tree, head: Tree, scan: Scanner, authorized: set<string>) {
    && DependenciesFrozen(base, head, scan)
    && DocumentsFrozen(base, head, authorized)
    && NumberedScripts(head) <= NumberedScripts(base) + authorized
  }

  /** What one empty answer of the gate guarantees. */
  lemma StepNeverGrows(repo: Repo, scan: Scanner, authorized: seq<set<string>>, refs: seq<string>, i: nat)
    requires PassingHistory(repo, scan, authorized, refs) && 0 < i < |refs|
    ensures refs[i - 1] in repo.trees && refs[i] in repo.trees
    ensures NeverGrows(repo.trees[refs[i - 1]], repo.trees[refs[i]], scan, authorized[i])
  {
    assert NothingGrown(repo, scan, authorized[i], refs[i - 1], refs[i]);
    ScriptsFrozen(
      repo.trees[refs[i - 1]], repo.trees[refs[i]], repo.diff(refs[i - 1], refs[i]).value, authorized[i]);
  }

  lemma GrowthComposes(a: Tree, b: Tree, c: Tree, scan: Scanner, x: set<string>, y: set<string>)
    requires NeverGrows(a, b, scan, x) && NeverGrows(b, c, scan, y)
    ensures NeverGrows(a, c, scan, x + y)
  {
    forall p
      ensures FileFrozen(a, c, scan, p)
    {
      assert FileFrozen(a, b, scan, p) && FileFrozen(b, c, scan, p);
    }
  }

  lemma GrowthOfNothing(a: Tree, b: Tree, scan: Scanner, x: set<string>)
    requires NeverGrows(a, b, scan, x)
    ensures NeverGrows(a, b, scan, {} + x)
  {
    assert {} + x == x;
  }

  /**
   Along any history in which the gate answers nothing at each commit, run with the commit
   before it as base, a later commit has, file by file, only dependencies that the earlier one
   had, and only reports, manifests and numbered scripts that it had or that have been authorised
   since.
   */
  lemma {:induction false} HistoryNeverGrows(
    repo: Repo, scan: Scanner, authorized: seq<set<string>>, refs: seq<string>, i: nat, j: nat
  )
    requires PassingHistory(repo, scan, authorized, refs) && i < j < |refs|
    ensures refs[i] in repo.trees && refs[j] in repo.trees
    ensures NeverGrows(repo.trees[refs[i]], repo.trees[refs[j]], scan, AuthorizedSince(authorized, i, j))
    decreases j
  {
    StepNeverGrows(repo, scan, authorized, refs, j);
    if i < j - 1 {
      HistoryNeverGrows(repo, scan, authorized, refs, i, j - 1);
      GrowthComposes(
        repo.trees[refs[i]], repo.trees[refs[j - 1]], repo.trees[refs[j]], scan,
        AuthorizedSince(authorized, i, j - 1), authorized[j]);
    } else {
      GrowthOfNothing(repo.trees[refs[i]], repo.trees[refs[j]], scan, authorized[j]);
    }
  }

  /** A dependency that one commit of a passing history does not have, no later one has. */
  lemma RemovedStaysRemoved(
    repo: Repo, scan: Scanner, authorized: seq<set<string>>, refs: seq<string>,
    i: nat, j: nat, path: string, fp: Fingerprint
  )
    requires PassingHistory(repo, scan, authorized, refs) && i < j < |refs|
    requires refs[i] in repo.trees && !Found(repo.trees[refs[i]], scan, path, fp)
    ensures refs[j] in repo.trees && !Found(repo.trees[refs[j]], scan, path, fp)
  {
    HistoryNeverGrows(repo, scan, authorized, refs, i, j);
    assert FileFrozen(repo.trees[refs[i]], repo.trees[refs[j]], scan, path);
  }
}
