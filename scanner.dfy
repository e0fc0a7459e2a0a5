/** The directory scanner, `find_target_dirs` in src/lib.rs: one pass over
    the immediate children of a base directory that collects each child's
    `target` subdirectory, and stops at once with that child alone when a
    child directory is itself called `target`. */
module Scanner {
  import opened FileSystem

  /** Where the scan loop stands after some entries: still scanning with the
      paths collected so far, or stopped early with its final result. */
  datatype ScanState = Scanning(found: seq<Path>) | Stopped(result: Result<seq<Path>>)

  /** What one position of the listing of `base` does to the scan. */
  function Step(root: Node, base: Path, s: ScanState, e: Entry): ScanState
  {
    match s
    case Stopped(_) => s
    case Scanning(found) =>
      if !e.ok then Stopped(Err(EntryFailed))
      else
        var path := base + [e.name];
        if !IsDirAt(root, path) then s
        else if e.name == TargetName then Stopped(Ok([path]))
        else if IsDirAt(root, path + [TargetName]) then Scanning(found + [path + [TargetName]])
        else s
  }

  /** The scan after every position of `es`, in listing order. */
  function ScanEntries(root: Node, base: Path, es: seq<Entry>): ScanState
  {
    if es == [] then Scanning([])
    else Step(root, base, ScanEntries(root, base, es[..|es| - 1]), es[|es| - 1])
  }

  /** `find_target_dirs(base, debug)`: canonicalizing or listing the base can
      fail, and so can reading any entry before the scan stops. */
  function Scan(root: Node, base: Path): Result<seq<Path>>
  {
    match Lookup(root, base)
    case None => Err(NotFound)
    case Some(n) =>
      if !n.Dir? || !n.readable then Err(ReadDirFailed)
      else match ScanEntries(root, base, n.entries)
        case Scanning(found) => Ok(found)
        case Stopped(r) => r
  }

  // ---- Reference definitions.

  /** The `child/target` paths, in listing order, of the children of `base`
      that are directories holding a `target` directory. */
  function Candidates(root: Node, base: Path, es: seq<Entry>): seq<Path>
  {
    if es == [] then []
    else
      var path := base + [es[0].name];
      (if IsDirAt(root, path) && IsDirAt(root, path + [TargetName])
       then [path + [TargetName]] else [])
      + Candidates(root, base, es[1..])
  }

  /** An entry that ends the scan: an unreadable position, or a child
      directory called `target`. */
  predicate Decisive(root: Node, base: Path, e: Entry)
  {
    !e.ok || (IsDirAt(root, base + [e.name]) && e.name == TargetName)
  }

  /** How many entries of `es` are directories. */
  function DirCount(root: Node, base: Path, es: seq<Entry>): nat
  {
    if es == [] then 0
    else (if IsDirAt(root, base + [es[0].name]) then 1 else 0) + DirCount(root, base, es[1..])
  }

  /** A path the scan may return: a directory called `target`, one or two
      levels below `base`. */
  predicate IsArtifactDir(root: Node, base: Path, p: Path)
  {
    IsDirAt(root, p) && |base| < |p| <= |base| + 2 && p[..|base|] == base
    && p[|p| - 1] == TargetName
  }

  // ---- Lemmas.

  /** Once stopped, the scan ignores the rest of the listing. */
  lemma {:induction false} StoppedStays(root: Node, base: Path, es: seq<Entry>, k: nat)
    requires k <= |es| && ScanEntries(root, base, es[..k]).Stopped?
    ensures ScanEntries(root, base, es) == ScanEntries(root, base, es[..k])
    decreases |es| - k
  {
    if k < |es| {
      assert es[..k + 1][..k] == es[..k];
      StoppedStays(root, base, es, k + 1);
    } else {
      assert es[..k] == es;
    }
  }

  /** Before any decisive entry the scan keeps collecting: it has gathered
      the candidates of the entries it has seen. */
  lemma {:induction false} ScanUntilDecisive(root: Node, base: Path, es: seq<Entry>)
    requires forall i :: 0 <= i < |es| ==> !Decisive(root, base, es[i])
    ensures ScanEntries(root, base, es) == Scanning(Candidates(root, base, es))
    decreases |es|
  {
    if es != [] {
      var init, last := es[..|es| - 1], es[|es| - 1];
      ScanUntilDecisive(root, base, init);
      CandidatesAppend(root, base, init, last);
      assert init + [last] == es;
    }
  }

  lemma {:induction false} CandidatesAppend(root: Node, base: Path, es: seq<Entry>, e: Entry)
    ensures Candidates(root, base, es + [e]) == Candidates(root, base, es) + Candidates(root, base, [e])
    decreases |es|
  {
    if es == [] {
      assert es + [e] == [e];
    } else {
      assert (es + [e])[1..] == es[1..] + [e];
      CandidatesAppend(root, base, es[1..], e);
    }
  }

  /** The first decisive entry fixes the result: an unreadable position
      fails the scan, and a child directory called `target` is returned
      alone, whatever was collected before or would follow. */
  lemma FirstDecisiveEntry(root: Node, base: Path, es: seq<Entry>, j: nat)
    requires j < |es| && Decisive(root, base, es[j])
    requires forall i :: 0 <= i < j ==> !Decisive(root, base, es[i])
    ensures !es[j].ok ==> ScanEntries(root, base, es) == Stopped(Err(EntryFailed))
    ensures es[j].ok ==> ScanEntries(root, base, es) == Stopped(Ok([base + [TargetName]]))
  {
    var prefix := es[..j];
    assert es[..j + 1][..j] == prefix;
    ScanUntilDecisive(root, base, prefix);
    StoppedStays(root, base, es, j + 1);
  }

  /** A child directory called `target` short-circuits the scan: the result
      is exactly `[base/target]`. */
  lemma ShortCircuit(root: Node, base: Path, j: nat)
    requires IsDirAt(root, base) && Lookup(root, base).value.readable
    requires var es := Lookup(root, base).value.entries;
      j < |es| && es[j].ok && es[j].name == TargetName && IsDirAt(root, base + [TargetName])
      && forall i :: 0 <= i < j ==> !Decisive(root, base, es[i])
    ensures Scan(root, base) == Ok([base + [TargetName]])
  {
    FirstDecisiveEntry(root, base, Lookup(root, base).value.entries, j);
  }

  /** Without a decisive entry the result is the candidate list: the
      `child/target` paths of exactly those directory children holding a
      `target` directory, in listing order. */
  lemma NormalScan(root: Node, base: Path)
    requires IsDirAt(root, base) && Lookup(root, base).value.readable
    requires var es := Lookup(root, base).value.entries;
      forall i :: 0 <= i < |es| ==> !Decisive(root, base, es[i])
    ensures Scan(root, base) == Ok(Candidates(root, base, Lookup(root, base).value.entries))
  {
    ScanUntilDecisive(root, base, Lookup(root, base).value.entries);
  }

  /** An unreadable entry reached before any short-circuit fails the whole
      scan, with no partial result. */
  lemma EntryErrorFailsScan(root: Node, base: Path, j: nat)
    requires IsDirAt(root, base) && Lookup(root, base).value.readable
    requires var es := Lookup(root, base).value.entries;
      j < |es| && !es[j].ok && forall i :: 0 <= i < j ==> !Decisive(root, base, es[i])
    ensures Scan(root, base) == Err(EntryFailed)
  {
    FirstDecisiveEntry(root, base, Lookup(root, base).value.entries, j);
  }

  /** A base that cannot be canonicalized or listed fails the scan. */
  lemma BaseErrorFailsScan(root: Node, base: Path)
    requires !IsDirAt(root, base) || !Lookup(root, base).value.readable
    ensures Scan(root, base).Err?
    ensures !Exists(root, base) ==> Scan(root, base) == Err(NotFound)
  {
  }

  /** A child that is not a directory neither contributes nor stops the
      scan, even when it is called `target`. */
  lemma {:induction false} NonDirectoryIgnored(root: Node, base: Path, a: seq<Entry>, e: Entry, b: seq<Entry>)
    requires e.ok && !IsDirAt(root, base + [e.name])
    ensures ScanEntries(root, base, a + [e] + b) == ScanEntries(root, base, a + b)
    decreases |b|
  {
    if b == [] {
      assert (a + [e] + b)[..|a| + 1 - 1] == a;
      assert a + b == a;
    } else {
      var b' := b[..|b| - 1];
      assert (a + [e] + b)[..|a + [e] + b| - 1] == a + [e] + b';
      assert (a + b)[..|a + b| - 1] == a + b';
      NonDirectoryIgnored(root, base, a, e, b');
    }
  }

  /** An empty base directory scans to an empty result, not an error. */
  lemma EmptyBase(root: Node, base: Path)
    requires Lookup(root, base) == Some(Dir([], true))
    ensures Scan(root, base) == Ok([])
  {
  }

  /** A readable base with no decisive entry and no child holding a `target`
      directory scans to an empty result. */
  lemma {:induction false} NoMatchesScanEmpty(root: Node, base: Path)
    requires IsDirAt(root, base) && Lookup(root, base).value.readable
    requires var es := Lookup(root, base).value.entries;
      forall i :: 0 <= i < |es| ==>
        (!Decisive(root, base, es[i]) && !IsDirAt(root, base + [es[i].name] + [TargetName]))
    ensures Scan(root, base) == Ok([])
  {
    var es := Lookup(root, base).value.entries;
    NormalScan(root, base);
    NoCandidates(root, base, es);
  }

  lemma {:induction false} NoCandidates(root: Node, base: Path, es: seq<Entry>)
    requires forall i :: 0 <= i < |es| ==> !IsDirAt(root, base + [es[i].name] + [TargetName])
    ensures Candidates(root, base, es) == []
    decreases |es|
  {
    if es != [] {
      assert forall i :: 0 <= i < |es[1..]| ==> es[1..][i] == es[i + 1];
      NoCandidates(root, base, es[1..]);
    }
  }

  /** Every path the scan returns is an existing directory called `target`
      at most two levels below `base`, and there are no more of them than
      there are child directories. */
  lemma ScanResultsAreArtifactDirs(root: Node, base: Path)
    requires Scan(root, base).Ok?
    ensures forall p :: p in Scan(root, base).value ==> IsArtifactDir(root, base, p)
    ensures IsDirAt(root, base) &&
      |Scan(root, base).value| <= DirCount(root, base, Lookup(root, base).value.entries)
  {
    var es := Lookup(root, base).value.entries;
    ScanEntriesInvariant(root, base, es);
  }

  /** What holds of the scan state after any prefix of the listing. */
  lemma {:induction false} ScanEntriesInvariant(root: Node, base: Path, es: seq<Entry>)
    ensures match ScanEntries(root, base, es)
      case Scanning(found) =>
        (forall p :: p in found ==> IsArtifactDir(root, base, p))
        && |found| <= DirCount(root, base, es)
      case Stopped(r) =>
        r.Ok? ==>
          ((forall p :: p in r.value ==> IsArtifactDir(root, base, p))
           && |r.value| <= DirCount(root, base, es))
    decreases |es|
  {
    if es != [] {
      var init, last := es[..|es| - 1], es[|es| - 1];
      ScanEntriesInvariant(root, base, init);
      DirCountAppend(root, base, init, last);
      assert init + [last] == es;
      var path := base + [last.name];
      assert (path + [TargetName])[..|base|] == base;
      assert path[..|base|] == base;
    }
  }

  /** With no name repeated in the listing, the paths collected so far are
      distinct `child/target` paths of the same depth, so none lies below
      another; a scan that stops with a result returns a single path. */
  lemma {:induction false} ScanEntriesPrefixFree(root: Node, base: Path, es: seq<Entry>)
    requires UniqueNames(es)
    ensures match ScanEntries(root, base, es)
      case Scanning(found) =>
        PrefixFree(found)
        && forall p :: p in found ==> exists k :: 0 <= k < |es| && p == base + [es[k].name] + [TargetName]
      case Stopped(r) => r.Ok? ==> |r.value| == 1
    decreases |es|
  {
    if es != [] {
      var init, last := es[..|es| - 1], es[|es| - 1];
      assert forall k :: 0 <= k < |init| ==> init[k] == es[k];
      ScanEntriesPrefixFree(root, base, init);
      var s := ScanEntries(root, base, init);
      if s.Scanning? {
        var found := s.found;
        forall p | p in found ensures exists k :: 0 <= k < |es| && p == base + [es[k].name] + [TargetName] {
          var k :| 0 <= k < |init| && p == base + [init[k].name] + [TargetName];
          assert init[k] == es[k];
        }
        var np := base + [last.name] + [TargetName];
        forall p | p in found ensures !(p <= np) && !(np <= p) {
          var k :| 0 <= k < |init| && p == base + [init[k].name] + [TargetName];
          assert es[k].name != es[|es| - 1].name;
          assert p[|base|] != np[|base|];
        }
        assert PrefixFree(found + [np]) by {
          var f := found + [np];
          forall i, j | 0 <= i < |f| && 0 <= j < |f| && i != j ensures !(f[i] <= f[j]) {
            if i < |found| && j < |found| {
              assert f[i] == found[i] && f[j] == found[j];
            } else if i < |found| {
              assert f[i] in found && f[j] == np;
            } else {
              assert f[j] in found && f[i] == np;
            }
          }
        }
      }
    }
  }

  /** The paths a scan of a listing without repeated names returns are
      distinct, and none lies below another. */
  lemma ScanPrefixFree(root: Node, base: Path)
    requires IsDirAt(root, base) && UniqueNames(Lookup(root, base).value.entries)
    requires Scan(root, base).Ok?
    ensures PrefixFree(Scan(root, base).value)
  {
    ScanEntriesPrefixFree(root, base, Lookup(root, base).value.entries);
  }

  lemma {:induction false} DirCountAppend(root: Node, base: Path, es: seq<Entry>, e: Entry)
    ensures DirCount(root, base, es + [e]) ==
      DirCount(root, base, es) + (if IsDirAt(root, base + [e.name]) then 1 else 0)
    decreases |es|
  {
    if es == [] {
      assert es + [e] == [e];
    } else {
      assert (es + [e])[1..] == es[1..] + [e];
      DirCountAppend(root, base, es[1..], e);
    }
  }

  // ---- The imperative scan.

  /** `find_target_dirs(base, debug)`. The `debug` flag only prints, so it
      has no effect on the result. */
  method FindTargetDirs(root: Node, base: Path, debug: bool) returns (r: Result<seq<Path>>)
    ensures r == Scan(root, base)
  {
    var canonical := Lookup(root, base);
    if canonical.None? {
      return Err(NotFound);
    }
    if !canonical.value.Dir? || !canonical.value.readable {
      return Err(ReadDirFailed);
    }
    var es := canonical.value.entries;
    var targetDirs: seq<Path> := [];
    var i := 0;
    while i < |es|
      invariant 0 <= i <= |es|
      invariant ScanEntries(root, base, es[..i]) == Scanning(targetDirs)
    {
      var entry := es[i];
      assert es[..i + 1][..i] == es[..i];
      if !entry.ok {
        StoppedStays(root, base, es, i + 1);
        return Err(EntryFailed);
      }
      var path := base + [entry.name];
      if IsDirAt(root, path) {
        if entry.name == TargetName {
          StoppedStays(root, base, es, i + 1);
          return Ok([path]);
        }
        var targetPath := path + [TargetName];
        if IsDirAt(root, targetPath) {
          targetDirs := targetDirs + [targetPath];
        }
      }
      i := i + 1;
    }
    assert es[..i] == es;
    return Ok(targetDirs);
  }
}
