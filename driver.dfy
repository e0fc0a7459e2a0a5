/** The driver, `main` in src/main.rs: check the directory, scan it, size
    each candidate, sort largest first, then either report the list with
    its total or hand it to the deletion coordinator, and map the result to
    the process exit status. */
module Driver {
  import opened FileSystem
  import opened Scanner
  import opened Sizing
  import opened Ordering
  import opened Deletion

  /** The parsed command line. `force` is only accepted together with
      `delete` by the argument parser; the driver does not rely on it. */
  datatype Cli = Cli(debug: bool, targetDir: Path, delete: bool, force: bool)

  datatype ExitCode = Success | Failure

  /** The printed table in report mode: the rows in display order and the
      total row. */
  datatype Report = Report(rows: seq<TargetDirInfo>, total: nat)

  /** Everything a run of the program does that the model observes. */
  datatype Outcome = Outcome(exit: ExitCode, report: Option<Report>, removed: seq<Path>, present: set<Path>)

  /** The `filter_map` over the scanned paths: each path whose sizing
      succeeds, with its size, in scan order; the others are dropped. */
  function Measured(root: Node, dirs: seq<Path>): seq<TargetDirInfo>
  {
    if dirs == [] then []
    else
      var last := dirs[|dirs| - 1];
      Measured(root, dirs[..|dirs| - 1])
      + match SizeAt(root, last)
        case Ok(size) => [TargetDirInfo(last, size)]
        case Err(_) => []
  }

  /** `main()`, with the file system, the terminal check and the prompt
      given as inputs. */
  function Pipeline(cli: Cli, root: Node, interactive: bool, prompt: seq<TargetDirInfo> -> PromptReply,
                    present: set<Path>, refused: set<Path>): Outcome
    requires WellBehaved(prompt)
  {
    if !Exists(root, cli.targetDir) then Outcome(Failure, None, [], present)
    else match Scan(root, cli.targetDir)
      case Err(_) => Outcome(Failure, None, [], present)
      case Ok(dirs) =>
        if dirs == [] then Outcome(Success, None, [], present)
        else
          var rows := SortDesc(Measured(root, dirs));
          if !cli.delete then Outcome(Success, Some(Report(rows, Total(rows))), [], present)
          else
            var run := DeletionRun(rows, cli.force, interactive, prompt(rows), present, refused);
            Outcome(if run.outcome.Ok? then Success else Failure, None, run.removed, run.present)
  }

  // ---- Lemmas.

  /** Every kept row is a scanned path with the size measured for it, and
      every scanned path whose sizing succeeds is kept; the others are
      dropped. */
  lemma {:induction false} MeasuredKeepsExactlySized(root: Node, dirs: seq<Path>)
    ensures |Measured(root, dirs)| <= |dirs|
    ensures forall t :: t in Measured(root, dirs) <==> t.path in dirs && SizeAt(root, t.path) == Ok(t.size)
    decreases |dirs|
  {
    if dirs != [] {
      var init, last := dirs[..|dirs| - 1], dirs[|dirs| - 1];
      MeasuredKeepsExactlySized(root, init);
      assert dirs == init + [last];
      forall t: TargetDirInfo ensures t.path in dirs <==> t.path in init || t.path == last {
      }
    }
  }

  /** A missing directory or a failed scan ends the run with FAILURE
      before any sizing, report or deletion. */
  lemma EarlyFailure(cli: Cli, root: Node, interactive: bool, prompt: seq<TargetDirInfo> -> PromptReply,
                     present: set<Path>, refused: set<Path>)
    requires WellBehaved(prompt)
    requires !Exists(root, cli.targetDir) || Scan(root, cli.targetDir).Err?
    ensures Pipeline(cli, root, interactive, prompt, present, refused) == Outcome(Failure, None, [], present)
  {
  }

  /** A scan that finds nothing ends the run with SUCCESS, no report and no
      deletion. */
  lemma NothingFound(cli: Cli, root: Node, interactive: bool, prompt: seq<TargetDirInfo> -> PromptReply,
                     present: set<Path>, refused: set<Path>)
    requires WellBehaved(prompt)
    requires Exists(root, cli.targetDir) && Scan(root, cli.targetDir) == Ok([])
    ensures Pipeline(cli, root, interactive, prompt, present, refused) == Outcome(Success, None, [], present)
  {
  }

  /** Report mode: nothing is deleted, the exit status is SUCCESS, and the
      report lists exactly the candidates whose sizing succeeded, each with
      its size, largest first, with their sum as the total. */
  lemma ReportMode(cli: Cli, root: Node, interactive: bool, prompt: seq<TargetDirInfo> -> PromptReply,
                   present: set<Path>, refused: set<Path>)
    requires WellBehaved(prompt)
    requires !cli.delete && Exists(root, cli.targetDir) && Scan(root, cli.targetDir).Ok?
    requires Scan(root, cli.targetDir).value != []
    ensures var o := Pipeline(cli, root, interactive, prompt, present, refused);
      var kept := Measured(root, Scan(root, cli.targetDir).value);
      && o.exit == Success && o.removed == [] && o.present == present
      && o.report.Some?
      && multiset(o.report.value.rows) == multiset(kept)
      && SortedBySize(o.report.value.rows)
      && o.report.value.total == Total(kept)
      && (forall t :: t in o.report.value.rows <==>
            t.path in Scan(root, cli.targetDir).value && SizeAt(root, t.path) == Ok(t.size))
  {
    var dirs := Scan(root, cli.targetDir).value;
    var kept := Measured(root, dirs);
    SortDescCorrect(kept);
    SortDescTotal(kept);
    MeasuredKeepsExactlySized(root, dirs);
    forall t: TargetDirInfo ensures t in SortDesc(kept) <==> t in kept {
      assert t in SortDesc(kept) <==> t in multiset(SortDesc(kept));
    }
  }

  /** Delete mode: no report is printed, the exit status is FAILURE exactly
      when deletion returns an error, and deletion sees the sized
      candidates largest first. */
  lemma DeleteMode(cli: Cli, root: Node, interactive: bool, prompt: seq<TargetDirInfo> -> PromptReply,
                   present: set<Path>, refused: set<Path>)
    requires WellBehaved(prompt)
    requires cli.delete && Exists(root, cli.targetDir) && Scan(root, cli.targetDir).Ok?
    requires Scan(root, cli.targetDir).value != []
    ensures var o := Pipeline(cli, root, interactive, prompt, present, refused);
      var rows := SortDesc(Measured(root, Scan(root, cli.targetDir).value));
      var run := DeletionRun(rows, cli.force, interactive, prompt(rows), present, refused);
      && o.report.None?
      && (o.exit == Failure <==> run.outcome.Err?)
      && o.removed == run.removed && o.present == run.present
      && SortedBySize(rows)
  {
    SortDescCorrect(Measured(root, Scan(root, cli.targetDir).value));
  }

  /** The exit status is FAILURE exactly when the directory is missing,
      the scan fails, or the deletion fails. */
  lemma ExitStatus(cli: Cli, root: Node, interactive: bool, prompt: seq<TargetDirInfo> -> PromptReply,
                   present: set<Path>, refused: set<Path>)
    requires WellBehaved(prompt)
    ensures Pipeline(cli, root, interactive, prompt, present, refused).exit == Failure <==>
      || !Exists(root, cli.targetDir)
      || Scan(root, cli.targetDir).Err?
      || (cli.delete && Scan(root, cli.targetDir).value != [] &&
          var rows := SortDesc(Measured(root, Scan(root, cli.targetDir).value));
          DeletionRun(rows, cli.force, interactive, prompt(rows), present, refused).outcome.Err?)
  {
  }

  /** A run only ever removes directories the scan returned, and removes
      nothing in report mode. */
  lemma RemovesOnlyScanned(cli: Cli, root: Node, interactive: bool, prompt: seq<TargetDirInfo> -> PromptReply,
                           present: set<Path>, refused: set<Path>)
    requires WellBehaved(prompt)
    ensures var o := Pipeline(cli, root, interactive, prompt, present, refused);
      && (o.removed != [] ==> cli.delete && Exists(root, cli.targetDir) && Scan(root, cli.targetDir).Ok?)
      && (o.removed != [] ==> forall k :: 0 <= k < |o.removed| ==> o.removed[k] in Scan(root, cli.targetDir).value)
      && (!cli.delete ==> o.removed == [] && o.present == present)
  {
    var o := Pipeline(cli, root, interactive, prompt, present, refused);
    if Exists(root, cli.targetDir) && Scan(root, cli.targetDir).Ok? && Scan(root, cli.targetDir).value != [] && cli.delete {
      var dirs := Scan(root, cli.targetDir).value;
      var kept := Measured(root, dirs);
      var rows := SortDesc(kept);
      SortDescCorrect(kept);
      MeasuredKeepsExactlySized(root, dirs);
      DeletionStaysInList(rows, cli.force, interactive, prompt(rows), present, refused);
      forall k | 0 <= k < |o.removed| ensures o.removed[k] in dirs {
        var i :| 0 <= i < |rows| && o.removed[k] == rows[i].path;
        assert rows[i] in multiset(kept);
      }
    }
  }

  /** Dropping the rows whose sizing failed keeps the paths free of one
      another. */
  lemma {:induction false} MeasuredPrefixFree(root: Node, dirs: seq<Path>)
    requires PrefixFree(dirs)
    ensures PrefixFreeRows(Measured(root, dirs))
    decreases |dirs|
  {
    if dirs != [] {
      var init, last := dirs[..|dirs| - 1], dirs[|dirs| - 1];
      assert forall k :: 0 <= k < |init| ==> init[k] == dirs[k];
      MeasuredPrefixFree(root, init);
      MeasuredKeepsExactlySized(root, init);
      var m := Measured(root, init);
      if SizeAt(root, last).Ok? {
        var y := TargetDirInfo(last, SizeAt(root, last).value);
        forall t | t in m ensures !(t.path <= y.path) && !(y.path <= t.path) {
          var k :| 0 <= k < |init| && init[k] == t.path;
          assert dirs[k] == t.path;
        }
        AppendPrefixFree(m, y);
      }
    }
  }

  lemma PathsOfPrefixFree(rows: seq<TargetDirInfo>)
    requires PrefixFreeRows(rows)
    ensures PrefixFree(PathsOf(rows))
  {
    var ps := PathsOf(rows);
    forall i, j | 0 <= i < |ps| && 0 <= j < |ps| && i != j ensures !(ps[i] <= ps[j]) {
      assert ps[i] == rows[i].path && ps[j] == rows[j].path;
    }
  }

  /** Every sorted row is a scanned directory, and every kept row is among
      the sorted ones. */
  lemma SortedRowsAreScanned(root: Node, dirs: seq<Path>)
    ensures var rows := SortDesc(Measured(root, dirs));
      && (forall k :: 0 <= k < |rows| ==> rows[k].path in dirs)
      && (forall t :: t in Measured(root, dirs) ==> t.path in PathsOf(rows))
  {
    var kept := Measured(root, dirs);
    var rows := SortDesc(kept);
    var ps := PathsOf(rows);
    SortDescCorrect(kept);
    MeasuredKeepsExactlySized(root, dirs);
    forall k | 0 <= k < |rows| ensures rows[k].path in dirs {
      assert rows[k] in multiset(kept);
    }
    forall t | t in kept ensures t.path in ps {
      assert t in multiset(rows);
      var i :| 0 <= i < |rows| && rows[i] == t;
      assert ps[i] == t.path;
    }
  }

  /** The rows handed to deletion come from existing, unrefused scanned
      directories none of which lies below another, and every row kept
      after sizing is among them. */
  lemma RowsRemovable(root: Node, dirs: seq<Path>, refused: set<Path>)
    requires PrefixFree(dirs)
    requires forall p :: p in dirs ==> IsDirAt(root, p) && p !in refused
    ensures var ps := PathsOf(SortDesc(Measured(root, dirs)));
      && PrefixFree(ps)
      && (forall k :: 0 <= k < |ps| ==> ps[k] in PathsIn(root) && ps[k] !in refused)
      && (forall t :: t in Measured(root, dirs) ==> t.path in ps)
  {
    var rows := SortDesc(Measured(root, dirs));
    var ps := PathsOf(rows);
    MeasuredPrefixFree(root, dirs);
    SortDescPrefixFree(Measured(root, dirs));
    PathsOfPrefixFree(rows);
    SortedRowsAreScanned(root, dirs);
    forall k | 0 <= k < |ps| ensures ps[k] in PathsIn(root) && ps[k] !in refused {
      assert ps[k] == rows[k].path;
      LookupInPathsIn(root, ps[k]);
    }
  }

  /** Forced deletion on a disk holding exactly the scanned tree, where no
      scanned directory is refused and the base listing repeats no name,
      removes every directory whose sizing succeeded and exits with
      SUCCESS. */
  lemma ForcedDeleteRemovesAll(cli: Cli, root: Node, interactive: bool, prompt: seq<TargetDirInfo> -> PromptReply,
                               refused: set<Path>)
    requires WellBehaved(prompt)
    requires cli.delete && cli.force
    requires IsDirAt(root, cli.targetDir) && UniqueNames(Lookup(root, cli.targetDir).value.entries)
    requires Scan(root, cli.targetDir).Ok?
    requires forall p :: p in Scan(root, cli.targetDir).value ==> p !in refused
    ensures var o := Pipeline(cli, root, interactive, prompt, PathsIn(root), refused);
      && o.exit == Success
      && forall t :: t in Measured(root, Scan(root, cli.targetDir).value) ==>
           t.path in o.removed && t.path !in o.present
  {
    var dirs := Scan(root, cli.targetDir).value;
    if dirs != [] {
      var ps := PathsOf(SortDesc(Measured(root, dirs)));
      ScanPrefixFree(root, cli.targetDir);
      ScanResultsAreArtifactDirs(root, cli.targetDir);
      RowsRemovable(root, dirs, refused);
      RemoveEachSucceeds(PathsIn(root), refused, ps);
      AllRemovedWhenOk(PathsIn(root), refused, ps);
    }
  }

  // ---- The imperative driver.

  /** `main()`. The parallel sizing is a map with no shared state, so it is
      run here one candidate after another; the table is printed only as a
      report value, and `debug` only prints. */
  method Run(cli: Cli, root: Node, interactive: bool, prompt: seq<TargetDirInfo> -> PromptReply, disk: Disk)
    returns (exit: ExitCode, report: Option<Report>)
    requires WellBehaved(prompt)
    modifies disk
    ensures var o := Pipeline(cli, root, interactive, prompt, old(disk.present), disk.refused);
      && exit == o.exit && report == o.report
      && disk.present == o.present && disk.log == old(disk.log) + o.removed
  {
    if !Exists(root, cli.targetDir) {
      return Failure, None;
    }
    var scanned := FindTargetDirs(root, cli.targetDir, cli.debug);
    if scanned.Err? {
      return Failure, None;
    }
    var targetDirs := scanned.value;
    if |targetDirs| == 0 {
      return Success, None;
    }

    var measured := MeasureAll(root, targetDirs);
    var rows := SortRows(measured);

    if !cli.delete {
      return Success, Some(Report(rows, Total(rows)));
    }
    var deleted := HandleDeletion(disk, rows, cli.force, interactive, prompt);
    if deleted.Err? {
      return Failure, None;
    }
    return Success, None;
  }

  /** The sizing step: `calculate_dir_size` on each scanned path, keeping
      the paths whose sizing succeeds. */
  method MeasureAll(root: Node, targetDirs: seq<Path>) returns (measured: seq<TargetDirInfo>)
    ensures measured == Measured(root, targetDirs)
  {
    measured := [];
    for i := 0 to |targetDirs|
      invariant measured == Measured(root, targetDirs[..i])
    {
      assert targetDirs[..i + 1][..i] == targetDirs[..i];
      var size := CalculateDirSize(root, targetDirs[i]);
      if size.Ok? {
        measured := measured + [TargetDirInfo(targetDirs[i], size.value)];
      }
    }
    assert targetDirs[..|targetDirs|] == targetDirs;
  }

  /** The sorting step: the measured list, copied into a vector and
      sorted in place, largest first. */
  method SortRows(measured: seq<TargetDirInfo>) returns (rows: seq<TargetDirInfo>)
    ensures rows == SortDesc(measured)
  {
    var targetInfo := new TargetDirInfo[|measured|](k requires 0 <= k < |measured| => measured[k]);
    assert targetInfo[..] == measured;
    SortBySize(targetInfo);
    rows := targetInfo[..];
  }
}
