/** The unit tests of src/lib.rs and a small three-project workspace,
    restated as facts about the model. */
module Scenarios {
  import opened FileSystem
  import opened Scanner
  import opened Sizing
  import opened Ordering
  import opened Deletion
  import opened Driver

  function FileEntry(name: string, len: nat): Entry
  {
    Entry(name, File(len, true), true)
  }

  function DirEntry(name: string, es: seq<Entry>): Entry
  {
    Entry(name, Dir(es, true), true)
  }

  /** `test_calculate_dir_size_*`: an empty directory, one 13-byte file,
      two 5-byte files, and a 3-byte file beside a directory holding a
      5-byte file measure 0, 13, 10 and 8 bytes. */
  lemma SizingTests()
    ensures SizeOf(Dir([], true)) == Ok(0)
    ensures SizeOf(Dir([FileEntry("test.txt", 13)], true)) == Ok(13)
    ensures SizeOf(Dir([FileEntry("file1.txt", 5), FileEntry("file2.txt", 5)], true)) == Ok(10)
    ensures SizeOf(Dir([DirEntry("nested", [FileEntry("nested.txt", 5)]), FileEntry("top.txt", 3)], true)) == Ok(8)
  {
    var one := [FileEntry("test.txt", 13)];
    assert one[..0] == [];
    var two := [FileEntry("file1.txt", 5), FileEntry("file2.txt", 5)];
    assert two[..1] == [two[0]] && two[..1][..0] == [];
    var inner := [FileEntry("nested.txt", 5)];
    assert inner[..0] == [];
    var nested := [DirEntry("nested", inner), FileEntry("top.txt", 3)];
    assert nested[..1] == [nested[0]] && nested[..1][..0] == [];
  }

  /** `test_find_target_dirs_*`: an empty directory scans to nothing, a
      lone `project1/target` is found, and a child called `target` is
      returned by itself. */
  lemma ScannerTests()
    ensures Scan(Dir([], true), []) == Ok([])
    ensures Scan(Dir([DirEntry("project1", [DirEntry("target", [])])], true), []) == Ok([["project1", "target"]])
    ensures Scan(Dir([DirEntry("target", [])], true), []) == Ok([["target"]])
  {
    var t := DirEntry("target", []);
    var p := DirEntry("project1", [t]);
    assert [t][..0] == [] && [p][..0] == [];
    assert ["project1", "target"][1..] == ["target"] && ["target"][1..] == [];
    assert [] + ["project1"] == ["project1"] && ["project1"] + [TargetName] == ["project1", "target"];
    assert [] + ["target"] == ["target"];
    var r := Dir([p], true);
    assert Lookup(r, ["project1"]) == Some(p.node);
    assert Lookup(p.node, ["target"]) == Some(t.node);
    assert Lookup(r, ["project1", "target"]) == Some(t.node);
    assert ScanEntries(r, [], [p]) == Scanning([["project1", "target"]]);
  }

  /** A workspace directory holding `proj1/target` (one 5-byte file),
      `proj2/target` (one 3-byte file) and `proj3` without a `target`; the
      scan runs on the workspace itself, the empty path. */
  function Workspace(): Node
  {
    Dir([DirEntry("proj1", [DirEntry("target", [FileEntry("a", 5)])]),
         DirEntry("proj2", [DirEntry("target", [FileEntry("b", 3)])]),
         DirEntry("proj3", [])], true)
  }

  /** What each path of the workspace resolves to. */
  lemma WorkspaceLookups()
    ensures Lookup(Workspace(), ["proj1"]) == Some(Dir([DirEntry("target", [FileEntry("a", 5)])], true))
    ensures Lookup(Workspace(), ["proj2"]) == Some(Dir([DirEntry("target", [FileEntry("b", 3)])], true))
    ensures Lookup(Workspace(), ["proj3"]) == Some(Dir([], true))
    ensures Lookup(Workspace(), ["proj1", "target"]) == Some(Dir([FileEntry("a", 5)], true))
    ensures Lookup(Workspace(), ["proj2", "target"]) == Some(Dir([FileEntry("b", 3)], true))
    ensures Lookup(Workspace(), ["proj3", "target"]) == None
  {
    var es := Workspace().entries;
    assert FindEntry(es, "proj1") == Some(0);
    assert FindEntry(es[1..], "proj2") == Some(0);
    assert FindEntry(es, "proj2") == Some(1);
    assert FindEntry(es[1..][1..], "proj3") == Some(0);
    assert FindEntry(es[1..], "proj3") == Some(1);
    assert FindEntry(es, "proj3") == Some(2);
    assert ["proj1", "target"][1..] == ["target"] && ["target"][1..] == [];
    assert ["proj2", "target"][1..] == ["target"];
    assert ["proj3", "target"][1..] == ["target"];
    assert ["proj1"][1..] == [] && ["proj2"][1..] == [] && ["proj3"][1..] == [];
  }

  /** A readable directory with three readable children, none called
      `target`, of which the first two hold a `target` directory and the
      third does not, scans to the first two `target` paths in order. */
  lemma {:induction false} ThreeChildScan(root: Node, e0: Entry, e1: Entry, e2: Entry)
    requires root == Dir([e0, e1, e2], true)
    requires e0.ok && e1.ok && e2.ok
    requires e0.name != TargetName && e1.name != TargetName && e2.name != TargetName
    requires IsDirAt(root, [e0.name]) && IsDirAt(root, [e0.name, TargetName])
    requires IsDirAt(root, [e1.name]) && IsDirAt(root, [e1.name, TargetName])
    requires IsDirAt(root, [e2.name]) && !IsDirAt(root, [e2.name, TargetName])
    ensures Scan(root, []) == Ok([[e0.name, TargetName], [e1.name, TargetName]])
  {
    var es := [e0, e1, e2];
    assert [] + [e0.name] == [e0.name] && [e0.name] + [TargetName] == [e0.name, TargetName];
    assert [] + [e1.name] == [e1.name] && [e1.name] + [TargetName] == [e1.name, TargetName];
    assert [] + [e2.name] == [e2.name] && [e2.name] + [TargetName] == [e2.name, TargetName];
    assert !Decisive(root, [], es[0]) && !Decisive(root, [], es[1]) && !Decisive(root, [], es[2]);
    NormalScan(root, []);
    assert es[1..] == [e1, e2] && [e1, e2][1..] == [e2] && [e2][1..] == [];
    assert Candidates(root, [], [e2]) == [];
    assert Candidates(root, [], [e1, e2]) == [[e1.name, TargetName]];
    assert Candidates(root, [], es) == [[e0.name, TargetName], [e1.name, TargetName]];
  }

  /** Scanning the workspace finds the two `target` directories, in
      listing order, and skips `proj3`. */
  lemma WorkspaceScan()
    ensures Scan(Workspace(), []) == Ok([["proj1", "target"], ["proj2", "target"]])
  {
    var es := Workspace().entries;
    WorkspaceLookups();
    ThreeChildScan(Workspace(), es[0], es[1], es[2]);
  }

  /** The two `target` directories measure 5 and 3 bytes. */
  lemma WorkspaceSizes()
    ensures SizeAt(Workspace(), ["proj1", "target"]) == Ok(5)
    ensures SizeAt(Workspace(), ["proj2", "target"]) == Ok(3)
  {
    WorkspaceLookups();
    SingleFileSize("a", 5);
    SingleFileSize("b", 3);
  }

  /** Two directories measuring 5 and 3 bytes, scanned in that order,
      keep their order in the report and add up to 8. */
  lemma {:induction false} TwoRows(root: Node, t1: Path, t2: Path)
    requires SizeAt(root, t1) == Ok(5) && SizeAt(root, t2) == Ok(3)
    ensures SortDesc(Measured(root, [t1, t2])) == [TargetDirInfo(t1, 5), TargetDirInfo(t2, 3)]
    ensures Total([TargetDirInfo(t1, 5), TargetDirInfo(t2, 3)]) == 8
  {
    var r1, r2 := TargetDirInfo(t1, 5), TargetDirInfo(t2, 3);
    assert [t1, t2][..1] == [t1] && [t1][..0] == [];
    assert Measured(root, [t1]) == [r1];
    assert Measured(root, [t1, t2]) == [r1, r2];
    assert [r1, r2][..1] == [r1] && [r1][..0] == [];
    assert SortDesc([r1]) == Insert([], r1) == [r1];
    assert Insert([r1], r2) == [r1, r2];
    assert [r1, r2][1..] == [r2] && [r2][1..] == [];
    assert Total([r2]) == 3 + Total([]) == 3;
    assert Total([r1, r2]) == 5 + Total([r2]);
  }

  /** Report mode on the workspace lists proj1's `target` first with 5
      bytes, then proj2's with 3, with a total of 8, and exits with
      SUCCESS. */
  lemma WorkspaceReport(prompt: seq<TargetDirInfo> -> PromptReply, present: set<Path>, refused: set<Path>)
    requires WellBehaved(prompt)
    ensures var o := Pipeline(Cli(false, [], false, false), Workspace(), false, prompt, present, refused);
      && o.exit == Success
      && o.report == Some(Report([TargetDirInfo(["proj1", "target"], 5),
                                  TargetDirInfo(["proj2", "target"], 3)], 8))
  {
    WorkspaceScan();
    WorkspaceSizes();
    TwoRows(Workspace(), ["proj1", "target"], ["proj2", "target"]);
  }

  /** Forced deletion on a disk holding exactly the workspace's paths
      removes both `target` directories and exits with SUCCESS. */
  lemma WorkspaceForcedDelete(prompt: seq<TargetDirInfo> -> PromptReply)
    requires WellBehaved(prompt)
    ensures var o := Pipeline(Cli(false, [], true, true), Workspace(), false, prompt, PathsIn(Workspace()), {});
      && o.exit == Success
      && ["proj1", "target"] in o.removed && ["proj1", "target"] !in o.present
      && ["proj2", "target"] in o.removed && ["proj2", "target"] !in o.present
  {
    var es := Workspace().entries;
    assert UniqueNames(es) by {
      assert es[0].name == "proj1" && es[1].name == "proj2" && es[2].name == "proj3";
    }
    WorkspaceScan();
    WorkspaceSizes();
    var t1, t2 := ["proj1", "target"], ["proj2", "target"];
    TwoRows(Workspace(), t1, t2);
    MeasuredKeepsExactlySized(Workspace(), [t1, t2]);
    assert TargetDirInfo(t1, 5) in Measured(Workspace(), [t1, t2]);
    assert TargetDirInfo(t2, 3) in Measured(Workspace(), [t1, t2]);
    ForcedDeleteRemovesAll(Cli(false, [], true, true), Workspace(), false, prompt, {});
  }
}
