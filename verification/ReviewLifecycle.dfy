/**
 The evidence lifecycle of one non-retaining review: the receipt is written last, and a run
 that fails anywhere takes its own files away again. Every step that can fail asks a `world`
 what happens, so the contracts hold for every point and every way of failing.
 */
module ReviewLifecycle {
  import opened Options

  datatype Role = Raw | Final | Prompt | Receipt | ChunkPrompt(i: nat) | ChunkRaw(i: nat) | ChunkFinal(i: nat)

  /** The name of an evidence file: its role and the identifier of the run that writes it. */
  datatype Name = Name(run: nat, role: Role)

  /** What becomes of a step: it succeeds, fails without effect, or takes effect and then fails. */
  datatype Fault = Fine | FailsBefore | FailsAfter

  /** The steps that can fail. `Preparing`, `Asking` and `Validating` have no effect on the directory. */
  datatype Step =
    | Preparing | AddingWorktree | Asking | Writing(name: Name) | Validating
    | RemovingWorktree(worktree: nat) | Unlinking(name: Name)

  /** A review's shape: reviewed in one piece, or in chunks. */
  datatype Plan = Whole | Chunked(chunks: nat)

  function ChunkFiles(run: nat, n: nat): seq<Name> {
    if n == 0 then []
    else
      ChunkFiles(run, n - 1)
      + [Name(run, ChunkPrompt(n - 1)), Name(run, ChunkRaw(n - 1)), Name(run, ChunkFinal(n - 1))]
  }

  /** The evidence that the receipt of the run rests on, in the order of its writing. */
  function Evidence(run: nat, plan: Plan): seq<Name> {
    match plan
    case Whole => [Name(run, Raw), Name(run, Final), Name(run, Prompt)]
    case Chunked(n) => ChunkFiles(run, n) + [Name(run, Raw), Name(run, Final)]
  }

  predicate Distinct(names: seq<Name>) {
    forall i, j :: 0 <= i < j < |names| ==> names[i] != names[j]
  }

  predicate IsChunkRole(role: Role, n: nat) {
    match role
    case ChunkPrompt(i) => i < n
    case ChunkRaw(i) => i < n
    case ChunkFinal(i) => i < n
    case _ => false
  }

  lemma {:induction false} ChunkFilesAmong(run: nat, n: nat)
    ensures forall m :: m in ChunkFiles(run, n) ==> m.run == run && IsChunkRole(m.role, n)
  {
    if n > 0 {
      ChunkFilesAmong(run, n - 1);
    }
  }

  lemma StillDistinct(names: seq<Name>, x: Name, y: Name, z: Name)
    requires Distinct(names) && x !in names && y !in names && z !in names && x != y && y != z && x != z
    ensures Distinct(names + [x, y, z])
  {
    assert forall i :: 0 <= i < |names| ==> names[i] in names;
  }

  lemma {:induction false} ChunkFilesDistinct(run: nat, n: nat)
    ensures Distinct(ChunkFiles(run, n))
  {
    if n > 0 {
      ChunkFilesDistinct(run, n - 1);
      ChunkFilesAmong(run, n - 1);
      StillDistinct(ChunkFiles(run, n - 1), Name(run, ChunkPrompt(n - 1)), Name(run, ChunkRaw(n - 1)),
                    Name(run, ChunkFinal(n - 1)));
    }
  }

  /** No two evidence files of a run share a name, and none is called like its receipt. */
  lemma EvidenceDistinct(run: nat, plan: Plan)
    ensures Distinct(Evidence(run, plan))
    ensures forall m :: m in Evidence(run, plan) ==> m.run == run && m.role != Receipt
  {
    if plan.Chunked? {
      ChunkFilesDistinct(run, plan.chunks);
      ChunkFilesAmong(run, plan.chunks);
      var chunks := ChunkFiles(run, plan.chunks);
      assert forall i :: 0 <= i < |chunks| ==> chunks[i] in chunks;
    }
  }

  lemma {:induction false} ChunkFilesAt(run: nat, n: nat, i: nat)
    requires i < n
    ensures var files := ChunkFiles(run, n);
            && |files| == 3 * n
            && files[3 * i] == Name(run, ChunkPrompt(i))
            && files[3 * i + 1] == Name(run, ChunkRaw(i))
            && files[3 * i + 2] == Name(run, ChunkFinal(i))
  {
    if i < n - 1 {
      ChunkFilesAt(run, n - 1, i);
    } else if n > 1 {
      ChunkFilesAt(run, n - 1, 0);
    }
  }

  /**
   What a receipt rests on. Of a review in one piece it is the answer as it came, the final answer
   and the prompt; of one in chunks, three files for every chunk and the two answers put together.
   */
  lemma EvidenceIff(run: nat, plan: Plan, m: Name)
    ensures m in Evidence(run, plan) <==>
              && m.run == run
              && match m.role
                 case Raw => true
                 case Final => true
                 case Prompt => plan == Whole
                 case Receipt => false
                 case ChunkPrompt(i) => plan.Chunked? && i < plan.chunks
                 case ChunkRaw(i) => plan.Chunked? && i < plan.chunks
                 case ChunkFinal(i) => plan.Chunked? && i < plan.chunks
  {
    if plan.Chunked? {
      var n, files := plan.chunks, ChunkFiles(run, plan.chunks);
      ChunkFilesAmong(run, n);
      if m.run == run && IsChunkRole(m.role, n) {
        ChunkFilesAt(run, n, m.role.i);
        var i := m.role.i;
        assert files[3 * i] in files && files[3 * i + 1] in files && files[3 * i + 2] in files;
      }
    }
  }

  /** In the order of its writing: chunk by chunk, prompt, answer and final answer, then the whole. */
  lemma EvidenceOrder(run: nat, n: nat, i: nat)
    requires i < n
    ensures var names := Evidence(run, Chunked(n));
            && |names| == 3 * n + 2
            && names[3 * i] == Name(run, ChunkPrompt(i))
            && names[3 * i + 1] == Name(run, ChunkRaw(i))
            && names[3 * i + 2] == Name(run, ChunkFinal(i))
            && names[3 * n..] == [Name(run, Raw), Name(run, Final)]
  {
    ChunkFilesAt(run, n, i);
  }

  /** The first files are still there, as they were. */
  ghost predicate Keeps(before: map<Name, string>, after: map<Name, string>) {
    forall n :: n in before ==> n in after && after[n] == before[n]
  }

  /** Every one of the files is new, and its write goes well. */
  ghost predicate AllWritten(world: Step -> Fault, existing: set<Name>, names: seq<Name>) {
    forall i :: 0 <= i < |names| ==> names[i] !in existing && world(Writing(names[i])) == Fine
  }

  /** The files that come into being when they are written in order, up to the first write that fails. */
  ghost function Written(world: Step -> Fault, existing: set<Name>, names: seq<Name>): set<Name> {
    set i | 0 <= i < |names| && AllWritten(world, existing, names[..i])
            && names[i] !in existing && world(Writing(names[i])) != FailsBefore :: names[i]
  }

  /** One write more: it adds its file unless it fails without effect, and ends the writing if it fails. */
  lemma WrittenSnoc(world: Step -> Fault, existing: set<Name>, names: seq<Name>, n: nat)
    requires n < |names| && AllWritten(world, existing, names[..n])
    ensures Written(world, existing, names[..n + 1]) == Written(world, existing, names[..n])
              + if names[n] !in existing && world(Writing(names[n])) != FailsBefore then {names[n]} else {}
    ensures var ok := names[n] !in existing && world(Writing(names[n])) == Fine;
            && (ok ==> AllWritten(world, existing, names[..n + 1]))
            && (!ok ==> !AllWritten(world, existing, names)
                        && Written(world, existing, names) == Written(world, existing, names[..n + 1]))
  {
    var before, after := names[..n], names[..n + 1];
    assert after == before + [names[n]];
    assert forall i :: 0 <= i <= n ==> after[..i] == names[..i];
    assert forall i :: 0 <= i < n ==> before[..i] == names[..i];
    if names[n] in existing || world(Writing(names[n])) != Fine {
      forall i | n < i < |names|
        ensures !AllWritten(world, existing, names[..i])
      {
        assert names[..i][n] == names[n];
      }
    }
  }

  lemma WrittenAmong(world: Step -> Fault, existing: set<Name>, names: seq<Name>)
    ensures forall n :: n in Written(world, existing, names) ==> n in names
  {
  }

  /** A file's turn comes only once. */
  lemma WrittenNotYet(world: Step -> Fault, existing: set<Name>, names: seq<Name>, n: nat)
    requires Distinct(names) && n < |names|
    ensures names[n] !in Written(world, existing, names[..n])
  {
  }

  /** The evidence directory and the repository's worktrees in it, as one review run sees them. */
  class Directory {
    var files: map<Name, string>
    var worktrees: set<nat>
    const world: Step -> Fault

    constructor (world: Step -> Fault)
      ensures this.world == world && files == map[] && worktrees == {}
    {
      this.world := world;
      files, worktrees := map[], {};
    }

    /** The run comes to the point where evidence is written. */
    ghost predicate Answered(run: nat, plan: Plan)
      reads this
    {
      && world(Preparing) == Fine && run !in worktrees && world(AddingWorktree) == Fine
      && world(Asking) == Fine && plan != Chunked(0)
    }

    /** The run comes to the point where the receipt is written, and it is. */
    ghost predicate ReceiptWritten(run: nat, plan: Plan)
      reads this
    {
      && Answered(run, plan) && AllWritten(world, files.Keys, Evidence(run, plan)) && world(Validating) == Fine
      && Name(run, Receipt) !in files && world(Writing(Name(run, Receipt))) != FailsBefore
    }

    /** The run reaches its end, and its worktree can be removed. */
    ghost predicate Completes(run: nat, plan: Plan)
      reads this
    {
      && ReceiptWritten(run, plan) && world(Writing(Name(run, Receipt))) == Fine
      && world(RemovingWorktree(run)) == Fine
    }

    /** The files that the run brings into being before it cleans up. */
    ghost function Created(run: nat, plan: Plan): set<Name>
      reads this
    {
      (if Answered(run, plan) then Written(world, files.Keys, Evidence(run, plan)) else {})
      + if ReceiptWritten(run, plan) then {Name(run, Receipt)} else {}
    }

    /**
     The receipt has been written, the run still fails, and of the unlinks that follow the
     receipt's fails where that of some evidence does not.
     */
    ghost predicate ReceiptOrphaned(run: nat, plan: Plan)
      reads this
    {
      && ReceiptWritten(run, plan) && !Completes(run, plan)
      && world(Unlinking(Name(run, Receipt))) == FailsBefore
      && exists n :: n in Evidence(run, plan) && world(Unlinking(n)) != FailsBefore
    }

    /** What the run creates is new; it is evidence, all of it if the receipt is written, and then the receipt. */
    lemma CreatedFacts(run: nat, plan: Plan)
      ensures forall n :: n in Created(run, plan) ==>
                n !in files && (n in Evidence(run, plan) || n == Name(run, Receipt))
      ensures Name(run, Receipt) in Created(run, plan) <==> ReceiptWritten(run, plan)
      ensures ReceiptWritten(run, plan) ==> forall n :: n in Evidence(run, plan) ==> n in Created(run, plan)
    {
      EvidenceDistinct(run, plan);
      var names := Evidence(run, plan);
      if ReceiptWritten(run, plan) {
        forall n | n in names
          ensures n in Created(run, plan)
        {
          var i :| 0 <= i < |names| && names[i] == n;
          assert AllWritten(world, files.Keys, names[..i]);
        }
      }
    }

    /** Exclusive creation: a file that exists is never opened. A write that fails midway leaves any content. */
    method Write(name: Name, data: string) returns (ok: bool)
      modifies this`files
      ensures ok <==> name !in old(files) && world(Writing(name)) == Fine
      ensures Keeps(old(files), files)
      ensures files.Keys == old(files.Keys) + if world(Writing(name)) != FailsBefore then {name} else {}
      ensures ok ==> files[name] == data
    {
      if name in files || world(Writing(name)) == FailsBefore {
        return false;
      }
      ok := world(Writing(name)) == Fine;
      var content := data;
      if !ok {
        content := *;
      }
      files := files[name := content];
    }

    method AddWorktree(run: nat) returns (ok: bool)
      modifies this`worktrees
      ensures ok <==> run !in old(worktrees) && world(AddingWorktree) == Fine
      ensures worktrees == old(worktrees) + if world(AddingWorktree) != FailsBefore then {run} else {}
    {
      if run in worktrees || world(AddingWorktree) == FailsBefore {
        return false;
      }
      worktrees := worktrees + {run};
      return world(AddingWorktree) == Fine;
    }

    /** The evidence writes, in order, up to the first that fails. */
    method WriteAll(names: seq<Name>, data: string) returns (ok: bool)
      requires Distinct(names)
      modifies this`files
      ensures ok <==> AllWritten(world, old(files.Keys), names)
      ensures Keeps(old(files), files) && files.Keys == old(files.Keys) + Written(world, old(files.Keys), names)
    {
      ghost var existing := files.Keys;
      for i := 0 to |names|
        invariant AllWritten(world, existing, names[..i])
        invariant Keeps(old(files), files)
        invariant files.Keys == existing + Written(world, existing, names[..i])
      {
        WrittenNotYet(world, existing, names, i);
        ok := Write(names[i], data);
        WrittenSnoc(world, existing, names, i);
        if !ok {
          return false;
        }
      }
      assert names[..|names|] == names;
      return true;
    }

    /** The review proper; `None` when it raises. The receipt is its last write. */
    method Review(run: nat, plan: Plan, data: string) returns (receipt: Option<Name>)
      modifies this
      ensures Keeps(old(files), files) && files.Keys == old(files.Keys) + old(Created(run, plan))
      ensures worktrees == old(worktrees) || worktrees == old(worktrees) + {run}
      ensures old(ReceiptWritten(run, plan)) ==> worktrees == old(worktrees) + {run}
      ensures receipt == if old(ReceiptWritten(run, plan)) && world(Writing(Name(run, Receipt))) == Fine
                         then Some(Name(run, Receipt)) else None
    {
      EvidenceDistinct(run, plan);
      if world(Preparing) != Fine {
        return None;
      }
      var ok := AddWorktree(run);
      assert ok && world(Asking) == Fine && plan != Chunked(0) <==> old(Answered(run, plan));
      if !ok || world(Asking) != Fine || plan == Chunked(0) {
        return None;
      }
      ok := WriteAll(Evidence(run, plan), data);
      if !ok || world(Validating) != Fine {
        assert !old(ReceiptWritten(run, plan));
        return None;
      }
      WrittenAmong(world, old(files.Keys), Evidence(run, plan));
      ok := Write(Name(run, Receipt), data);
      receipt := if ok then Some(Name(run, Receipt)) else None;
    }

    method RemoveWorktree(run: nat) returns (ok: bool)
      modifies this`worktrees
      ensures ok <==> world(RemovingWorktree(run)) == Fine
      ensures worktrees == old(worktrees) - if world(RemovingWorktree(run)) != FailsBefore then {run} else {}
    {
      if world(RemovingWorktree(run)) != FailsBefore {
        worktrees := worktrees - {run};
      }
      return world(RemovingWorktree(run)) == Fine;
    }

    method Unlink(name: Name) returns (ok: bool)
      modifies this`files
      ensures ok <==> world(Unlinking(name)) == Fine
      ensures files == old(files) - if world(Unlinking(name)) != FailsBefore then {name} else {}
    {
      if world(Unlinking(name)) != FailsBefore {
        files := files - {name};
      }
      return world(Unlinking(name)) == Fine;
    }

    /** Some worktree that was not there before cannot be removed. */
    ghost predicate RemovalFails(beforeWorktrees: set<nat>)
      reads this
    {
      exists w :: w in worktrees - beforeWorktrees && world(RemovingWorktree(w)) != Fine
    }

    ghost predicate UnlinkFails(beforeFiles: set<Name>)
      reads this
    {
      exists n :: n in files.Keys - beforeFiles && world(Unlinking(n)) != Fine
    }

    /**
     Remove what this run has created: worktrees always; files unless they are to be kept and
     every worktree could be removed. What cannot be removed stays, and nothing else of it.
     */
    method Cleanup(beforeFiles: set<Name>, beforeWorktrees: set<nat>, preserve: bool) returns (failed: bool)
      modifies this
      ensures forall w :: w in worktrees <==>
                w in old(worktrees) && (w in beforeWorktrees || world(RemovingWorktree(w)) == FailsBefore)
      ensures var purge := !preserve || old(RemovalFails(beforeWorktrees));
              && (failed <==> old(RemovalFails(beforeWorktrees)) || (purge && old(UnlinkFails(beforeFiles))))
              && forall n :: n in files <==>
                   n in old(files) && (n in beforeFiles || !purge || world(Unlinking(n)) == FailsBefore)
      ensures Keeps(files, old(files))
    {
      failed := false;
      var created := worktrees - beforeWorktrees;
      ghost var removals := created;
      while created != {}
        invariant created <= removals && files == old(files)
        invariant forall w :: w in worktrees <==>
                    w in old(worktrees)
                    && (w in beforeWorktrees || w in created || world(RemovingWorktree(w)) == FailsBefore)
        invariant failed <==> exists w :: w in removals - created && world(RemovingWorktree(w)) != Fine
      {
        var w :| w in created;
        assert removals - (created - {w}) == (removals - created) + {w};
        created := created - {w};
        var ok := RemoveWorktree(w);
        if !ok {
          failed := true;
        }
      }
      assert removals - created == removals;
      if !preserve || failed {
        var artifacts := files.Keys - beforeFiles;
        ghost var all, removalFailed, left := artifacts, failed, worktrees;
        while artifacts != {}
          invariant worktrees == left && artifacts <= all && Keeps(files, old(files))
          invariant forall n :: n in files <==>
                      n in old(files) && (n in beforeFiles || n in artifacts || world(Unlinking(n)) == FailsBefore)
          invariant failed <==> removalFailed || exists n :: n in all - artifacts && world(Unlinking(n)) != Fine
        {
          var name :| name in artifacts;
          assert all - (artifacts - {name}) == (all - artifacts) + {name};
          artifacts := artifacts - {name};
          var ok := Unlink(name);
          if !ok {
            failed := true;
          }
        }
        assert all - artifacts == all;
      }
    }

    /**
     The run as its caller sees it. It returns exactly when every step goes well, and then the
     receipt and all its evidence are there and its worktree is not. If it raises, the new files
     left are exactly those it has created and could not unlink: none, if every unlink takes
     effect. A receipt is left without some of its evidence in exactly one case.
     */
    method RunReview(run: nat, plan: Plan, data: string) returns (receipt: Option<Name>)
      modifies this
      ensures Keeps(old(files), files) && old(worktrees) <= worktrees
      ensures receipt.Some? <==> old(Completes(run, plan))
      ensures receipt.Some? ==>
                && receipt.value == Name(run, Receipt) && receipt.value in files
                && (forall n :: n in Evidence(run, plan) ==> n in files)
                && worktrees == old(worktrees)
      ensures receipt.None? ==> forall n :: n in files <==>
                n in old(files) || (n in old(Created(run, plan)) && world(Unlinking(n)) == FailsBefore)
      ensures world(RemovingWorktree(run)) != FailsBefore ==> worktrees == old(worktrees)
      ensures old(ReceiptOrphaned(run, plan)) <==>
                && Name(run, Receipt) in files && Name(run, Receipt) !in old(files)
                && exists n :: n in Evidence(run, plan) && n !in files
    {
      CreatedFacts(run, plan);
      var beforeWorktrees := worktrees;
      var beforeFiles := files.Keys;
      receipt := Review(run, plan, data);
      var failed := Cleanup(beforeFiles, beforeWorktrees, receipt.Some?);
      if failed {
        receipt := None;
      }
    }
  }

  /** A worktree that cannot be removed and a receipt that cannot be unlinked: the receipt is all that is left. */
  method OrphanedReceipt(run: nat, data: string) returns (d: Directory)
    ensures d.files.Keys == {Name(run, Receipt)}
  {
    var receipt := Name(run, Receipt);
    var world := step => if step == RemovingWorktree(run) || step == Unlinking(receipt) then FailsBefore else Fine;
    d := new Directory(world);
    var answer := d.RunReview(run, Whole, data);
  }
}
