/**
 The growth-freeze gate. A revision's tree is a map from paths to contents; a file that git
 lists but cannot show has no content. Scanning one file's content is a parameter.
 */
module GrowthFreeze {
  import opened Options
  import CallTargets
  import opened NumberedNames
  import opened StringOrder

  type Fingerprint = CallTargets.Fingerprint
  type Tree = map<string, Option<string>>

  const REPORT_PREFIX := "docs/_reports/"
  const MANIFEST_PREFIX := "docs/_manifests/"

  /** An entry of `git diff --name-status -M`: for a rename, `path` is the new name. */
  datatype Change = Change(status: string, path: string)

  /** What git answers: trees by revision, the changes from one revision to another, and its words when it fails. */
  datatype Repo = Repo(
    trees: map<string, Tree>,
    diff: (string, string) -> Option<seq<Change>>,
    complaint: string -> string
  )

  /** The two file scanners. */
  datatype Scanner = Scanner(
    python: (string, string) -> seq<Fingerprint>,
    javascript: (string, string) -> seq<Fingerprint>
  )

  /** A check's list of errors, or the exception it raised. */
  datatype Outcome = Errors(list: seq<string>) | Raised(message: string)

  // ---------------------------------------------------------------------------------------
  // Fingerprints of a tree
  // ---------------------------------------------------------------------------------------

  predicate EndsWith(s: string, suffix: string) {
    |suffix| <= |s| && s[|s| - |suffix|..] == suffix
  }

  predicate IsJavaScript(path: string) {
    exists e :: e in {".js", ".ts", ".jsx", ".tsx", ".mjs", ".cjs"} && EndsWith(path, e)
  }

  /** The fingerprints of one path of the tree: none outside `src/`, without content, or in another language. */
  function FileFingerprints(tree: Tree, scan: Scanner, path: string): set<Fingerprint> {
    if path in tree && "src/" <= path && tree[path].Some? then
      var content := tree[path].value;
      if EndsWith(path, ".py") then (set fp | fp in scan.python(path, content))
      else if IsJavaScript(path) then (set fp | fp in scan.javascript(path, content))
      else {}
    else {}
  }

  ghost predicate Ends(path: string, ending: string) {
    exists stem: string :: path == stem + ending
  }

  /**
   What a scanner finds, told by the tree and the scanners alone: the file stands under `src/`, has
   content, and the scanner for its ending returns the fingerprint.
   */
  ghost predicate Found(tree: Tree, scan: Scanner, path: string, fp: Fingerprint) {
    && path in tree && tree[path].Some? && (exists rest: string :: path == "src/" + rest)
    && ((Ends(path, ".py") && fp in scan.python(path, tree[path].value))
        || (EndsLikeScript(path) && fp in scan.javascript(path, tree[path].value)))
  }

  ghost predicate EndsLikeScript(path: string) {
    || Ends(path, ".js") || Ends(path, ".ts") || Ends(path, ".jsx") || Ends(path, ".tsx")
    || Ends(path, ".mjs") || Ends(path, ".cjs")
  }

  lemma EndsIff(path: string, ending: string)
    ensures EndsWith(path, ending) <==> Ends(path, ending)
  {
    if EndsWith(path, ending) {
      assert path == path[..|path| - |ending|] + ending;
    }
  }

  lemma EndsLikeScriptIff(path: string)
    ensures IsJavaScript(path) <==> EndsLikeScript(path)
    ensures IsJavaScript(path) ==> !EndsWith(path, ".py")
  {
    EndsIff(path, ".js");
    EndsIff(path, ".ts");
    EndsIff(path, ".jsx");
    EndsIff(path, ".tsx");
    EndsIff(path, ".mjs");
    EndsIff(path, ".cjs");
    if EndsWith(path, ".py") {
      assert path[|path| - 1] == 'y';
    }
  }

  lemma UnderSrcIff(path: string)
    ensures "src/" <= path <==> exists rest: string :: path == "src/" + rest
  {
    if "src/" <= path {
      assert path == "src/" + path[4..];
    }
  }

  /** A file's fingerprints are exactly those that its scanner finds. */
  lemma FileFingerprintsIff(tree: Tree, scan: Scanner, path: string, fp: Fingerprint)
    ensures fp in FileFingerprints(tree, scan, path) <==> Found(tree, scan, path, fp)
  {
    UnderSrcIff(path);
    EndsIff(path, ".py");
    EndsLikeScriptIff(path);
  }

  /** The files with fingerprints, and those fingerprints. */
  method FindFingerprints(tree: Tree, scan: Scanner) returns (deps: map<string, set<Fingerprint>>)
    ensures forall p :: p in deps <==> FileFingerprints(tree, scan, p) != {}
    ensures forall p :: p in deps ==> deps[p] == FileFingerprints(tree, scan, p)
    ensures forall p, fp :: (p in deps && fp in deps[p]) <==> Found(tree, scan, p, fp)
  {
    deps := map[];
    var files := set p | p in tree && "src/" <= p;
    while files != {}
      invariant forall p :: p in files ==> p in tree && "src/" <= p
      invariant forall p :: p in deps ==> p !in files && FileFingerprints(tree, scan, p) != {}
      invariant forall p :: FileFingerprints(tree, scan, p) != {} ==> p in files || p in deps
      invariant forall p :: p in deps ==> deps[p] == FileFingerprints(tree, scan, p)
    {
      var path :| path in files;
      files := files - {path};
      if tree[path].None? {
        continue;
      }
      var content := tree[path].value;
      var fps: seq<Fingerprint>;
      if EndsWith(path, ".py") {
        fps := scan.python(path, content);
      } else if IsJavaScript(path) {
        fps := scan.javascript(path, content);
      } else {
        continue;
      }
      if fps != [] {
        assert fps[0] in FileFingerprints(tree, scan, path);
        deps := deps[path := set fp | fp in fps];
      }
    }
    forall p, fp
      ensures (p in deps && fp in deps[p]) <==> Found(tree, scan, p, fp)
    {
      FileFingerprintsIff(tree, scan, p, fp);
    }
  }

  // ---------------------------------------------------------------------------------------
  // Reverse dependencies
  // ---------------------------------------------------------------------------------------

  function ParseMessage(path: string, fp: Fingerprint): string {
    "GOV-GROWTH-REVERSE-DEPENDENCY: " + path + ": AST parse failure \U{2014} cannot scan (fail-closed). " + fp.target
  }

  function NewMessage(path: string, fp: Fingerprint): string {
    "GOV-GROWTH-REVERSE-DEPENDENCY: " + path + ": New " + fp.language + " " + fp.kind + " \U{2192} " + fp.target
    + ". Growth freeze is active."
  }

  predicate Unparsed(fps: set<Fingerprint>) {
    exists fp :: fp in fps && fp.kind == "parse-error"
  }

  /** What is reported of a file: its parse failures alone if there are any, otherwise what is new. */
  function ReportedOf(headFps: set<Fingerprint>, baseFps: set<Fingerprint>): set<Fingerprint> {
    if Unparsed(headFps) then set fp | fp in headFps && fp.kind == "parse-error" else headFps - baseFps
  }

  predicate ParseFailure(fp: Fingerprint) {
    fp.kind == "parse-error"
  }

  /** A fingerprint is reported if it is a parse failure, or if there is none and it is new. */
  lemma ReportedIff(headFps: set<Fingerprint>, baseFps: set<Fingerprint>, fp: Fingerprint)
    ensures fp in ReportedOf(headFps, baseFps) <==>
              && fp in headFps
              && (ParseFailure(fp) || (fp !in baseFps && forall other :: other in headFps ==> !ParseFailure(other)))
  {
    if other :| other in headFps && ParseFailure(other) {
      assert Unparsed(headFps);
    }
  }

  function MessageOf(path: string, unparsed: bool, fp: Fingerprint): string {
    if unparsed then ParseMessage(path, fp) else NewMessage(path, fp)
  }

  /** The order of the key `(kind, target)`. */
  predicate KeyAtMost(f: Fingerprint, g: Fingerprint) {
    if f.kind == g.kind then AtMost(f.target, g.target) else AtMost(f.kind, g.kind)
  }

  ghost predicate KeysAscend(fps: seq<Fingerprint>) {
    forall i, j :: 0 <= i < j < |fps| ==> KeyAtMost(fps[i], fps[j])
  }

  /** One message for each reported fingerprint; those of new ones in the order of their keys. */
  ghost predicate IsFileReport(
    path: string, headFps: set<Fingerprint>, baseFps: set<Fingerprint>, order: seq<Fingerprint>, errors: seq<string>
  ) {
    && multiset(order) == multiset(ReportedOf(headFps, baseFps))
    && (!Unparsed(headFps) ==> KeysAscend(order))
    && |errors| == |order|
    && forall i :: 0 <= i < |order| ==> errors[i] == MessageOf(path, Unparsed(headFps), order[i])
  }

  lemma KeyTransitive(f: Fingerprint, g: Fingerprint, h: Fingerprint)
    requires KeyAtMost(f, g) && KeyAtMost(g, h)
    ensures KeyAtMost(f, h)
  {
    if f.kind == g.kind == h.kind {
      Transitive(f.target, g.target, h.target);
    } else {
      Total(g.kind, g.kind);
      Transitive(f.kind, g.kind, h.kind);
      if f.kind == h.kind {
        Antisymmetric(f.kind, g.kind);
      }
    }
  }

  lemma KeyTotal(f: Fingerprint, g: Fingerprint)
    ensures KeyAtMost(f, g) || KeyAtMost(g, f)
  {
    Total(f.kind, g.kind);
    Total(f.target, g.target);
  }

  /** A fingerprint with the least key. */
  method Least(fps: set<Fingerprint>) returns (least: Fingerprint)
    requires fps != {}
    ensures least in fps && forall fp :: fp in fps ==> KeyAtMost(least, fp)
  {
    least :| least in fps;
    var rest := fps - {least};
    KeyTotal(least, least);
    while rest != {}
      invariant rest <= fps && least in fps
      invariant forall fp :: fp in fps - rest ==> KeyAtMost(least, fp)
    {
      var fp :| fp in rest;
      rest := rest - {fp};
      KeyTotal(fp, fp);
      KeyTotal(fp, least);
      if KeyAtMost(fp, least) {
        forall g | g in fps - rest
          ensures KeyAtMost(fp, g)
        {
          if g != fp {
            KeyTransitive(fp, least, g);
          }
        }
        least := fp;
      }
    }
  }

  /** A set, iterated over. */
  method ListOf(fps: set<Fingerprint>) returns (order: seq<Fingerprint>)
    ensures multiset(order) == multiset(fps)
  {
    order := [];
    var rest := fps;
    while rest != {}
      invariant rest <= fps && multiset(order) + multiset(rest) == multiset(fps)
    {
      var fp :| fp in rest;
      assert multiset(rest) == multiset(rest - {fp}) + multiset{fp};
      rest := rest - {fp};
      order := order + [fp];
    }
  }

  method SortByKey(fps: set<Fingerprint>) returns (order: seq<Fingerprint>)
    ensures multiset(order) == multiset(fps) && KeysAscend(order)
  {
    order := [];
    var rest := fps;
    while rest != {}
      invariant rest <= fps && multiset(order) + multiset(rest) == multiset(fps)
      invariant KeysAscend(order)
      invariant forall i, g :: 0 <= i < |order| && g in rest ==> KeyAtMost(order[i], g)
    {
      var fp := Least(rest);
      assert multiset(rest) == multiset(rest - {fp}) + multiset{fp};
      rest := rest - {fp};
      order := order + [fp];
    }
  }

  method FileErrors(path: string, headFps: set<Fingerprint>, baseFps: set<Fingerprint>)
    returns (errors: seq<string>, ghost order: seq<Fingerprint>)
    ensures IsFileReport(path, headFps, baseFps, order, errors)
  {
    var parseErrors := set fp | fp in headFps && fp.kind == "parse-error";
    if parseErrors != {} {
      var failures := ListOf(parseErrors);
      assert Unparsed(headFps);
      return seq(|failures|, i requires 0 <= i < |failures| => ParseMessage(path, failures[i])), failures;
    }
    assert !Unparsed(headFps) by {
      assert forall fp :: fp in headFps && fp.kind == "parse-error" ==> fp in parseErrors;
    }
    var news := SortByKey(headFps - baseFps);
    return seq(|news|, i requires 0 <= i < |news| => NewMessage(path, news[i])), news;
  }

  /** The reports of the files, one after the other. */
  ghost predicate IsReport(files: seq<string>, base: Tree, head: Tree, scan: Scanner, errors: seq<string>)
    decreases |files|
  {
    if files == [] then errors == []
    else
      var n := |files| - 1;
      exists k: nat, order :: k <= |errors| && IsReport(files[..n], base, head, scan, errors[..k])
        && IsFileReport(files[n], FileFingerprints(head, scan, files[n]), FileFingerprints(base, scan, files[n]),
                        order, errors[k..])
  }

  lemma IsReportSnoc(
    files: seq<string>, n: nat, base: Tree, head: Tree, scan: Scanner,
    errors: seq<string>, more: seq<string>, order: seq<Fingerprint>
  )
    requires n < |files| && IsReport(files[..n], base, head, scan, errors)
    requires IsFileReport(
               files[n], FileFingerprints(head, scan, files[n]), FileFingerprints(base, scan, files[n]), order, more)
    ensures IsReport(files[..n + 1], base, head, scan, errors + more)
  {
    var all := files[..n + 1];
    assert all[..n] == files[..n] && all[n] == files[n];
    assert (errors + more)[..|errors|] == errors && (errors + more)[|errors|..] == more;
  }

  function FilesWithFingerprints(tree: Tree, scan: Scanner): set<string> {
    set p | p in tree && FileFingerprints(tree, scan, p) != {}
  }

  /** Raised if a revision is missing; otherwise the reports of the head files, sorted by path. */
  ghost predicate IsDependencyOutcome(repo: Repo, scan: Scanner, baseRef: string, headRef: string, outcome: Outcome) {
    && (outcome.Errors? <==> baseRef in repo.trees && headRef in repo.trees)
    && (outcome.Errors? ==>
          var base, head := repo.trees[baseRef], repo.trees[headRef];
          IsReport(SortedList(FilesWithFingerprints(head, scan)), base, head, scan, outcome.list))
  }

  method CheckReverseDependencies(repo: Repo, scan: Scanner, baseRef: string, headRef: string)
    returns (outcome: Outcome)
    ensures IsDependencyOutcome(repo, scan, baseRef, headRef, outcome)
  {
    if baseRef !in repo.trees {
      return Raised(repo.complaint(baseRef));
    }
    var baseDeps := FindFingerprints(repo.trees[baseRef], scan);
    if headRef !in repo.trees {
      return Raised(repo.complaint(headRef));
    }
    var headDeps := FindFingerprints(repo.trees[headRef], scan);
    ghost var base, head := repo.trees[baseRef], repo.trees[headRef];
    var errors: seq<string> := [];
    var files := SortSet(headDeps.Keys);
    assert headDeps.Keys == FilesWithFingerprints(head, scan);
    SortedListFacts(headDeps.Keys);
    for n := 0 to |files|
      invariant IsReport(files[..n], base, head, scan, errors)
    {
      var path := files[n];
      var baseFps := if path in baseDeps then baseDeps[path] else {};
      var more, order := FileErrors(path, headDeps[path], baseFps);
      IsReportSnoc(files, n, base, head, scan, errors, more, order);
      errors := errors + more;
    }
    assert files[..|files|] == files;
    outcome := Errors(errors);
  }

  // ---------------------------------------------------------------------------------------
  // Reports and manifests
  // ---------------------------------------------------------------------------------------

  function FilesUnder(tree: Tree, prefix: string): set<string> {
    set p | p in tree && prefix <= p
  }

  function ReportMessage(path: string): string {
    "GOV-GROWTH-REPORT: Unauthorized new report under docs/_reports: " + path + ". Growth freeze is active."
  }

  function ManifestMessage(path: string): string {
    "GOV-GROWTH-MANIFEST: Unauthorized new manifest under docs/_manifests: " + path + ". Growth freeze is active."
  }

  /** The messages for the paths, in order. */
  function Each(paths: seq<string>, format: string -> string): seq<string> {
    seq(|paths|, i requires 0 <= i < |paths| => format(paths[i]))
  }

  function NewUnder(base: Tree, head: Tree, prefix: string, authorized: set<string>): set<string> {
    FilesUnder(head, prefix) - FilesUnder(base, prefix) - authorized
  }

  /** What is new under a prefix: there at head, not at base, and not authorised. */
  lemma NewUnderIff(base: Tree, head: Tree, prefix: string, authorized: set<string>, path: string)
    ensures path in NewUnder(base, head, prefix, authorized) <==>
              prefix <= path && path in head && path !in base && path !in authorized
  {
  }

  /** The messages for new reports and then for new manifests, each group sorted by path. */
  ghost function DocumentMessages(base: Tree, head: Tree, authorized: set<string>): seq<string> {
    Each(SortedList(NewUnder(base, head, REPORT_PREFIX, authorized)), ReportMessage)
    + Each(SortedList(NewUnder(base, head, MANIFEST_PREFIX, authorized)), ManifestMessage)
  }

  /** Raised if a revision is missing; otherwise the messages for what is new. */
  ghost predicate IsDocumentOutcome(
    repo: Repo, authorized: set<string>, baseRef: string, headRef: string, outcome: Outcome
  ) {
    && (outcome.Errors? <==> baseRef in repo.trees && headRef in repo.trees)
    && (outcome.Errors? ==> outcome.list == DocumentMessages(repo.trees[baseRef], repo.trees[headRef], authorized))
  }

  method CheckReportsAndManifests(repo: Repo, authorized: set<string>, baseRef: string, headRef: string)
    returns (outcome: Outcome)
    ensures IsDocumentOutcome(repo, authorized, baseRef, headRef, outcome)
  {
    if baseRef !in repo.trees {
      return Raised(repo.complaint(baseRef));
    }
    if headRef !in repo.trees {
      return Raised(repo.complaint(headRef));
    }
    var base, head := repo.trees[baseRef], repo.trees[headRef];
    var reports := SortSet(NewUnder(base, head, REPORT_PREFIX, authorized));
    var manifests := SortSet(NewUnder(base, head, MANIFEST_PREFIX, authorized));
    return Errors(Each(reports, ReportMessage) + Each(manifests, ManifestMessage));
  }

  // ---------------------------------------------------------------------------------------
  // Numbered governance scripts
  // ---------------------------------------------------------------------------------------

  function PhaseMessage(path: string): string {
    "GOV-GROWTH-PHASE: Unauthorized new numbered governance script: " + path
    + ". Governance script number growth is frozen."
  }

  /** Added, or renamed to this path. */
  predicate Arrives(c: Change) {
    c.status == "A" || "R" <= c.status
  }

  predicate BlockedChange(c: Change, authorized: set<string>) {
    Arrives(c) && NumberedScript(c.path) && c.path !in authorized
  }

  /** The messages for the blocked changes, in the order of the changes. */
  function ScriptMessages(changes: seq<Change>, authorized: set<string>): seq<string> {
    if changes == [] then []
    else
      var n := |changes| - 1;
      ScriptMessages(changes[..n], authorized)
      + if BlockedChange(changes[n], authorized) then [PhaseMessage(changes[n].path)] else []
  }

  /** Raised if git fails; otherwise the messages for the blocked changes. */
  ghost predicate IsScriptOutcome(
    repo: Repo, authorized: set<string>, baseRef: string, headRef: string, outcome: Outcome
  ) {
    && (outcome.Errors? <==> repo.diff(baseRef, headRef).Some?)
    && (outcome.Errors? ==> outcome.list == ScriptMessages(repo.diff(baseRef, headRef).value, authorized))
  }

  method CheckNumberedScripts(repo: Repo, authorized: set<string>, baseRef: string, headRef: string)
    returns (outcome: Outcome)
    ensures IsScriptOutcome(repo, authorized, baseRef, headRef, outcome)
  {
    if repo.diff(baseRef, headRef).None? {
      return Raised(repo.complaint(baseRef + "..." + headRef));
    }
    var entries := repo.diff(baseRef, headRef).value;
    var errors: seq<string> := [];
    for n := 0 to |entries|
      invariant errors == ScriptMessages(entries[..n], authorized)
    {
      assert entries[..n + 1][..n] == entries[..n];
      var path := entries[n].path;
      if !Arrives(entries[n]) {
        continue;
      }
      if NumberedScript(path) && path !in authorized {
        errors := errors + [PhaseMessage(path)];
      }
    }
    assert entries[..|entries|] == entries;
    return Errors(errors);
  }
}
