/** The deletion coordinator, `handle_deletion` in src/lib.rs: in forced
    mode it removes every listed directory in order; otherwise it asks the
    user, through a terminal prompt, which ones to remove. Both modes give
    up on the first removal that fails and keep the removals already done. */
module Deletion {
  import opened FileSystem

  /** What the multi-select prompt returns: the indices the user checked,
      or a failure of the prompt itself. */
  datatype PromptReply = Chosen(indices: seq<nat>) | Failed

  /** The prompt only offers indices of the items it shows. */
  predicate ValidReply(reply: PromptReply, count: nat)
  {
    reply.Chosen? ==> forall k :: 0 <= k < |reply.indices| ==> reply.indices[k] < count
  }

  /** The prompt, seen as a function of the items it shows, behaves as a
      real multi-select does for every list of items. */
  ghost predicate WellBehaved(prompt: seq<TargetDirInfo> -> PromptReply)
  {
    forall items :: ValidReply(prompt(items), |items|)
  }

  /** `set` after `remove_dir_all(p)` succeeds: `p` and everything below it
      are gone, and nothing else. */
  function Without(present: set<Path>, p: Path): set<Path>
  {
    set q | q in present && !(p <= q)
  }

  /** The outcome of a run of removals: the paths removed, in order, the
      paths still present, and what the run returns. */
  datatype Run = Run(removed: seq<Path>, present: set<Path>, outcome: Result<()>)

  /** Removing `ps` in order from a disk holding `present`, where removing
      a path in `refused` fails. A removal of a path that is no longer
      there fails too. The first failure ends the run. */
  function RemoveEach(present: set<Path>, refused: set<Path>, ps: seq<Path>): Run
    decreases |ps|
  {
    if ps == [] then Run([], present, Ok(()))
    else if ps[0] !in present then Run([], present, Err(NotFound))
    else if ps[0] in refused then Run([], present, Err(RemoveFailed))
    else
      var rest := RemoveEach(Without(present, ps[0]), refused, ps[1..]);
      Run([ps[0]] + rest.removed, rest.present, rest.outcome)
  }

  /** The paths of the listed directories, in list order. */
  function PathsOf(targets: seq<TargetDirInfo>): seq<Path>
  {
    seq(|targets|, i requires 0 <= i < |targets| => targets[i].path)
  }

  /** The paths of the selected directories, in selection order. */
  function SelectedPaths(targets: seq<TargetDirInfo>, indices: seq<nat>): seq<Path>
    requires forall k :: 0 <= k < |indices| ==> indices[k] < |targets|
  {
    seq(|indices|, k requires 0 <= k < |indices| => targets[indices[k]].path)
  }

  /** `handle_deletion(target_info, force)`, with the terminal check and the
      prompt given as inputs. */
  function DeletionRun(targets: seq<TargetDirInfo>, force: bool, interactive: bool,
                    reply: PromptReply, present: set<Path>, refused: set<Path>): Run
    requires ValidReply(reply, |targets|)
  {
    if force then RemoveEach(present, refused, PathsOf(targets))
    else if !interactive then Run([], present, Ok(()))
    else match reply
      case Failed => Run([], present, Err(PromptFailed))
      case Chosen(indices) =>
        if indices == [] then Run([], present, Ok(()))
        else RemoveEach(present, refused, SelectedPaths(targets, indices))
  }

  // ---- Lemmas.

  /** A run removes a prefix of its list. It succeeds exactly when it
      removes the whole list; otherwise the entry after the prefix is the
      one that failed, because it was refused or no longer there, and no
      later entry was attempted. */
  lemma {:induction false} RemoveEachOutcome(present: set<Path>, refused: set<Path>, ps: seq<Path>)
    ensures var r := RemoveEach(present, refused, ps);
      && |r.removed| <= |ps| && r.removed == ps[..|r.removed|]
      && (r.outcome.Ok? <==> |r.removed| == |ps|)
      && (r.outcome.Err? ==>
            var k := |r.removed|;
            || (r.outcome == Err(RemoveFailed) && ps[k] in refused)
            || (r.outcome == Err(NotFound) && ps[k] !in RemovedUpTo(present, ps, k)))
    decreases |ps|
  {
    if ps != [] && ps[0] in present && ps[0] !in refused {
      var rest := RemoveEach(Without(present, ps[0]), refused, ps[1..]);
      RemoveEachOutcome(Without(present, ps[0]), refused, ps[1..]);
      if rest.outcome.Err? {
        var k := |rest.removed|;
        assert ps[1..][k] == ps[k + 1];
        RemovedUpToStep(present, ps, k + 1);
      }
    }
  }

  /** What is left of `present` after removing the first `k` entries of
      `ps`, whether or not they were present. */
  function RemovedUpTo(present: set<Path>, ps: seq<Path>, k: nat): set<Path>
    requires k <= |ps|
  {
    if k == 0 then present else Without(RemovedUpTo(present, ps, k - 1), ps[k - 1])
  }

  lemma {:induction false} RemovedUpToStep(present: set<Path>, ps: seq<Path>, k: nat)
    requires 0 < k <= |ps|
    ensures RemovedUpTo(present, ps, k) == RemovedUpTo(Without(present, ps[0]), ps[1..], k - 1)
    decreases k
  {
    if k > 1 {
      RemovedUpToStep(present, ps, k - 1);
    }
  }

  /** A run removes exactly what lies below the paths it removed: every
      removed path was present and not refused, and a path below none of
      them is still there. Nothing outside the list is touched. */
  lemma {:induction false} RemoveEachFrame(present: set<Path>, refused: set<Path>, ps: seq<Path>)
    ensures var r := RemoveEach(present, refused, ps);
      && (forall k :: 0 <= k < |r.removed| ==> r.removed[k] !in refused)
      && (forall q :: q in r.present <==>
            q in present && forall k :: 0 <= k < |r.removed| ==> !(r.removed[k] <= q))
    decreases |ps|
  {
    if ps != [] && ps[0] in present && ps[0] !in refused {
      var rest := RemoveEach(Without(present, ps[0]), refused, ps[1..]);
      RemoveEachFrame(Without(present, ps[0]), refused, ps[1..]);
      var r := RemoveEach(present, refused, ps);
      assert r.removed == [ps[0]] + rest.removed;
      forall q
        ensures q in r.present <==>
          q in present && forall k :: 0 <= k < |r.removed| ==> !(r.removed[k] <= q)
      {
        if q in present && forall k :: 0 <= k < |r.removed| ==> !(r.removed[k] <= q) {
          assert !(r.removed[0] <= q);
          forall k | 0 <= k < |rest.removed| ensures !(rest.removed[k] <= q) {
            assert rest.removed[k] == r.removed[k + 1];
          }
        }
        if q in r.present {
          forall k | 0 <= k < |r.removed| ensures !(r.removed[k] <= q) {
            if k > 0 { assert r.removed[k] == rest.removed[k - 1]; }
          }
        }
      }
    }
  }

  /** When every removal succeeds, none of the listed paths is left. */
  lemma AllRemovedWhenOk(present: set<Path>, refused: set<Path>, ps: seq<Path>)
    requires RemoveEach(present, refused, ps).outcome.Ok?
    ensures forall k :: 0 <= k < |ps| ==> ps[k] !in RemoveEach(present, refused, ps).present
  {
    RemoveEachOutcome(present, refused, ps);
    RemoveEachFrame(present, refused, ps);
    var r := RemoveEach(present, refused, ps);
    forall k | 0 <= k < |ps| ensures ps[k] !in r.present {
      assert r.removed[k] == ps[k];
      assert r.removed[k] <= ps[k];
    }
  }

  /** A run over paths that are all present, none refused and none below
      another succeeds and removes every one of them. */
  lemma {:induction false} RemoveEachSucceeds(present: set<Path>, refused: set<Path>, ps: seq<Path>)
    requires PrefixFree(ps)
    requires forall k :: 0 <= k < |ps| ==> ps[k] in present && ps[k] !in refused
    ensures RemoveEach(present, refused, ps) == Run(ps, RemoveEach(present, refused, ps).present, Ok(()))
    decreases |ps|
  {
    if ps != [] {
      var rest := ps[1..];
      assert PrefixFree(rest) by {
        forall i, j | 0 <= i < |rest| && 0 <= j < |rest| && i != j ensures !(rest[i] <= rest[j]) {
          assert rest[i] == ps[i + 1] && rest[j] == ps[j + 1];
        }
      }
      forall k | 0 <= k < |rest| ensures rest[k] in Without(present, ps[0]) && rest[k] !in refused {
        assert rest[k] == ps[k + 1];
        assert !(ps[0] <= ps[k + 1]);
      }
      RemoveEachSucceeds(Without(present, ps[0]), refused, rest);
      assert [ps[0]] + rest == ps;
    }
  }

  /** Forced mode: the run over the whole list, in list order. */
  lemma ForcedRemovesInOrder(targets: seq<TargetDirInfo>, interactive: bool, reply: PromptReply,
                             present: set<Path>, refused: set<Path>)
    requires ValidReply(reply, |targets|)
    ensures var r := DeletionRun(targets, true, interactive, reply, present, refused);
      && |r.removed| <= |targets|
      && (forall k :: 0 <= k < |r.removed| ==> r.removed[k] == targets[k].path)
      && (r.outcome.Ok? <==> |r.removed| == |targets|)
  {
    RemoveEachOutcome(present, refused, PathsOf(targets));
  }

  /** Interactive mode off a terminal, a failed prompt and an empty
      selection delete nothing; only the failed prompt is an error. */
  lemma NothingDeletedWithoutSelection(targets: seq<TargetDirInfo>, interactive: bool,
                                       reply: PromptReply, present: set<Path>, refused: set<Path>)
    requires ValidReply(reply, |targets|)
    requires !interactive || reply.Failed? || reply == Chosen([])
    ensures var r := DeletionRun(targets, false, interactive, reply, present, refused);
      && r.removed == [] && r.present == present
      && (r.outcome.Err? <==> interactive && reply.Failed?)
      && (r.outcome.Err? ==> r.outcome.error == PromptFailed)
  {
  }

  /** Interactive mode: only the selected directories are removed, in
      selection order, and the run succeeds exactly when all of them are. */
  lemma InteractiveRemovesSelection(targets: seq<TargetDirInfo>, indices: seq<nat>,
                                    present: set<Path>, refused: set<Path>)
    requires ValidReply(Chosen(indices), |targets|) && indices != []
    ensures var r := DeletionRun(targets, false, true, Chosen(indices), present, refused);
      && |r.removed| <= |indices|
      && (forall k :: 0 <= k < |r.removed| ==> r.removed[k] == targets[indices[k]].path)
      && (r.outcome.Ok? <==> |r.removed| == |indices|)
  {
    RemoveEachOutcome(present, refused, SelectedPaths(targets, indices));
  }

  /** In either mode every removed path is one of the listed directories,
      and a path below none of the removed ones is still there. */
  lemma DeletionStaysInList(targets: seq<TargetDirInfo>, force: bool, interactive: bool,
                            reply: PromptReply, present: set<Path>, refused: set<Path>)
    requires ValidReply(reply, |targets|)
    ensures var r := DeletionRun(targets, force, interactive, reply, present, refused);
      && (forall k :: 0 <= k < |r.removed| ==> exists i :: 0 <= i < |targets| && r.removed[k] == targets[i].path)
      && (forall q :: q in r.present <==>
            q in present && forall k :: 0 <= k < |r.removed| ==> !(r.removed[k] <= q))
  {
    var r := DeletionRun(targets, force, interactive, reply, present, refused);
    if force {
      RemoveEachOutcome(present, refused, PathsOf(targets));
      RemoveEachFrame(present, refused, PathsOf(targets));
      forall k | 0 <= k < |r.removed|
        ensures exists i :: 0 <= i < |targets| && r.removed[k] == targets[i].path
      {
        assert r.removed[k] == targets[k].path;
      }
    } else if interactive && reply.Chosen? && reply.indices != [] {
      var ps := SelectedPaths(targets, reply.indices);
      RemoveEachOutcome(present, refused, ps);
      RemoveEachFrame(present, refused, ps);
      forall k | 0 <= k < |r.removed|
        ensures exists i :: 0 <= i < |targets| && r.removed[k] == targets[i].path
      {
        assert r.removed[k] == targets[reply.indices[k]].path;
      }
    }
  }

  // ---- The disk and the imperative coordinator.

  /** The part of the file system deletion acts on: the paths present, the
      paths whose removal the system refuses, and the removals done so far. */
  class Disk {
    var present: set<Path>
    var log: seq<Path>
    const refused: set<Path>

    constructor (present: set<Path>, refused: set<Path>)
      ensures this.present == present && this.refused == refused && log == []
    {
      this.present := present;
      this.refused := refused;
      log := [];
    }

    /** `fs::remove_dir_all(p)`: fails when `p` is not there or is refused,
        otherwise removes `p` and everything below it. */
    method RemoveDirAll(p: Path) returns (r: Result<()>)
      modifies this
      ensures r == (if p !in old(present) then Err(NotFound)
                    else if p in refused then Err(RemoveFailed) else Ok(()))
      ensures present == (if r.Ok? then Without(old(present), p) else old(present))
      ensures log == (if r.Ok? then old(log) + [p] else old(log))
    {
      if p !in present {
        return Err(NotFound);
      }
      if p in refused {
        return Err(RemoveFailed);
      }
      present := Without(present, p);
      log := log + [p];
      return Ok(());
    }
  }

  /** The loop both modes share: remove each path in order, returning the
      first error. */
  method RemoveInOrder(disk: Disk, ps: seq<Path>) returns (r: Result<()>)
    modifies disk
    ensures var run := RemoveEach(old(disk.present), disk.refused, ps);
      r == run.outcome && disk.present == run.present && disk.log == old(disk.log) + run.removed
  {
    ghost var run := RemoveEach(disk.present, disk.refused, ps);
    var i := 0;
    while i < |ps|
      invariant 0 <= i <= |ps|
      invariant var rest := RemoveEach(disk.present, disk.refused, ps[i..]);
        run == Run(ps[..i] + rest.removed, rest.present, rest.outcome)
      invariant disk.log == old(disk.log) + ps[..i]
    {
      assert ps[i..][1..] == ps[i + 1..];
      assert ps[..i + 1] == ps[..i] + [ps[i]];
      var removed := disk.RemoveDirAll(ps[i]);
      if removed.Err? {
        return removed;
      }
      i := i + 1;
    }
    assert ps[..i] == ps;
    return Ok(());
  }

  /** `handle_deletion(target_info, force)`: `interactive` says whether
      stdin and stderr are both terminals, and `prompt` is the user's answer
      to the multi-select over the listed directories. */
  method HandleDeletion(disk: Disk, targets: seq<TargetDirInfo>, force: bool, interactive: bool,
                        prompt: seq<TargetDirInfo> -> PromptReply) returns (r: Result<()>)
    requires ValidReply(prompt(targets), |targets|)
    modifies disk
    ensures var run := DeletionRun(targets, force, interactive, prompt(targets), old(disk.present), disk.refused);
      r == run.outcome && disk.present == run.present && disk.log == old(disk.log) + run.removed
  {
    if force {
      r := RemoveInOrder(disk, PathsOf(targets));
      return;
    }
    if !interactive {
      return Ok(());
    }
    var selections := prompt(targets);
    if selections.Failed? {
      return Err(PromptFailed);
    }
    if |selections.indices| == 0 {
      return Ok(());
    }
    r := RemoveInOrder(disk, SelectedPaths(targets, selections.indices));
  }
}
