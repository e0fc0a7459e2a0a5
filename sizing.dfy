/** The size accountant, `calculate_dir_size` in src/lib.rs: the number of
    bytes under a path, summed over a recursive walk that gives up on the
    first read that fails. */
module Sizing {
  import opened FileSystem

  /** What the walk returns for one node: a file's length, the sum over a
      directory's listing, zero for anything else. */
  function SizeOf(n: Node): Result<nat>
  {
    match n
    case File(len, statOk) => if statOk then Ok(len) else Err(MetadataFailed)
    case Dir(es, readable) => if readable then EntriesSize(es) else Err(ReadDirFailed)
    case Special => Ok(0)
  }

  /** The running total after the walk has visited every position of `es`,
      in listing order; the first failure ends the walk. */
  function EntriesSize(es: seq<Entry>): Result<nat>
  {
    if es == [] then Ok(0)
    else
      var last := es[|es| - 1];
      match EntriesSize(es[..|es| - 1])
      case Err(e) => Err(e)
      case Ok(total) =>
        if !last.ok then Err(EntryFailed)
        else match SizeOf(last.node)
          case Err(e) => Err(e)
          case Ok(s) => Ok(total + s)
  }

  /** `calculate_dir_size(path)`: a path that is neither a file nor a
      directory, including one that does not exist, measures zero. */
  function SizeAt(root: Node, p: Path): Result<nat>
  {
    match Lookup(root, p)
    case None => Ok(0)
    case Some(n) => SizeOf(n)
  }

  // ---- Reference definitions: the bytes under a node, and whether every
  // ---- read below it succeeds.

  /** The sum of the lengths of all files reachable from `n`. */
  function Bytes(n: Node): nat
  {
    match n
    case File(len, _) => len
    case Dir(es, _) => BytesOf(es)
    case Special => 0
  }

  function BytesOf(es: seq<Entry>): nat
  {
    if es == [] then 0 else Bytes(es[0].node) + BytesOf(es[1..])
  }

  /** Every listing, every entry and every file length below `n` can be read. */
  predicate Healthy(n: Node)
  {
    match n
    case File(_, statOk) => statOk
    case Dir(es, readable) => readable && AllHealthy(es)
    case Special => true
  }

  predicate AllHealthy(es: seq<Entry>)
  {
    forall i :: 0 <= i < |es| ==> es[i].ok && Healthy(es[i].node)
  }

  /** Two running totals in sequence: the first failure wins, otherwise the
      totals add up. */
  function Combine(a: Result<nat>, b: Result<nat>): Result<nat>
  {
    match a
    case Err(e) => Err(e)
    case Ok(x) => match b
      case Err(e) => Err(e)
      case Ok(y) => Ok(x + y)
  }

  /** Sizing a listing is additive over any split of it, and the error it
      reports is the first one in listing order. */
  lemma {:induction false} EntriesSizeAppend(a: seq<Entry>, b: seq<Entry>)
    ensures EntriesSize(a + b) == Combine(EntriesSize(a), EntriesSize(b))
    decreases |b|
  {
    if b == [] {
      assert a + b == a;
    } else {
      var b' := b[..|b| - 1];
      assert (a + b)[..|a + b| - 1] == a + b';
      assert (a + b)[|a + b| - 1] == b[|b| - 1];
      EntriesSizeAppend(a, b');
    }
  }

  lemma {:induction false} BytesOfAppend(a: seq<Entry>, b: seq<Entry>)
    ensures BytesOf(a + b) == BytesOf(a) + BytesOf(b)
    decreases |a|
  {
    if a == [] {
      assert a + b == b;
    } else {
      assert (a + b)[1..] == a[1..] + b;
      BytesOfAppend(a[1..], b);
    }
  }

  /** The walk succeeds exactly when every read below the node succeeds, and
      it then returns the sum of the lengths of all reachable files. */
  lemma {:induction false} SizeOfIsBytes(n: Node)
    ensures SizeOf(n).Ok? <==> Healthy(n)
    ensures Healthy(n) ==> SizeOf(n) == Ok(Bytes(n))
    decreases n, 1
  {
    match n
    case File(_, _) =>
    case Special =>
    case Dir(es, readable) =>
      EntriesSizeIsBytes(es);
  }

  lemma {:induction false} EntriesSizeIsBytes(es: seq<Entry>)
    ensures EntriesSize(es).Ok? <==> AllHealthy(es)
    ensures AllHealthy(es) ==> EntriesSize(es) == Ok(BytesOf(es))
    decreases es, 0
  {
    if es != [] {
      var init, last := es[..|es| - 1], es[|es| - 1];
      assert init + [last] == es;
      EntriesSizeIsBytes(init);
      SizeOfIsBytes(last.node);
      BytesOfAppend(init, [last]);
      assert BytesOf([last]) == Bytes(last.node);
      if AllHealthy(es) {
        assert AllHealthy(init) by {
          forall i | 0 <= i < |init| ensures init[i].ok && Healthy(init[i].node) {
            assert init[i] == es[i];
          }
        }
      } else if AllHealthy(init) {
        assert !(last.ok && Healthy(last.node)) by {
          if last.ok && Healthy(last.node) {
            forall i | 0 <= i < |es| ensures es[i].ok && Healthy(es[i].node) {
              if i < |init| { assert es[i] == init[i]; }
            }
          }
        }
      }
    }
  }

  /** A file measures its length; a path that is neither a file nor a
      directory measures zero. */
  lemma SizeAtLeaf(root: Node, p: Path)
    requires !IsDirAt(root, p)
    ensures Lookup(root, p).None? ==> SizeAt(root, p) == Ok(0)
    ensures Lookup(root, p) == Some(Special) ==> SizeAt(root, p) == Ok(0)
    ensures forall len: nat :: Lookup(root, p) == Some(File(len, true)) ==> SizeAt(root, p) == Ok(len)
  {
  }

  /** A directory measures the sum of its children: the lengths of its files
      plus the sizes of its subdirectories. An empty directory measures 0. */
  lemma {:induction false} DirSizeIsSumOfChildren(es: seq<Entry>)
    requires forall i :: 0 <= i < |es| ==> es[i].ok && SizeOf(es[i].node).Ok?
    ensures SizeOf(Dir(es, true)) == Ok(ChildrenTotal(es))
  {
    if es != [] {
      var init, last := es[..|es| - 1], es[|es| - 1];
      assert init + [last] == es;
      assert forall i :: 0 <= i < |init| ==> init[i] == es[i];
      DirSizeIsSumOfChildren(init);
      EntriesSizeAppend(init, [last]);
      ChildrenTotalAppend(init, last);
    }
  }

  /** The sum of the sizes of the children that can be measured. */
  function ChildrenTotal(es: seq<Entry>): nat
  {
    if es == [] then 0
    else
      (match SizeOf(es[0].node) case Ok(s) => s case Err(_) => 0) + ChildrenTotal(es[1..])
  }

  lemma {:induction false} ChildrenTotalAppend(es: seq<Entry>, e: Entry)
    ensures ChildrenTotal(es + [e]) ==
      ChildrenTotal(es) + (match SizeOf(e.node) case Ok(s) => s case Err(_) => 0)
    decreases |es|
  {
    if es == [] {
      assert es + [e] == [e];
    } else {
      assert (es + [e])[1..] == es[1..] + [e];
      ChildrenTotalAppend(es[1..], e);
    }
  }

  /** A listing holding one readable file measures that file's length. */
  lemma {:induction false} SingleFileSize(name: string, len: nat)
    ensures EntriesSize([Entry(name, File(len, true), true)]) == Ok(len)
  {
    var f := Entry(name, File(len, true), true);
    assert [f][..0] == [];
  }

  lemma {:induction false} AddFileToListing(a: seq<Entry>, b: seq<Entry>, name: string, len: nat, total: nat)
    requires EntriesSize(a + b) == Ok(total)
    ensures EntriesSize(a + [Entry(name, File(len, true), true)] + b) == Ok(total + len)
  {
    var f := Entry(name, File(len, true), true);
    SingleFileSize(name, len);
    EntriesSizeAppend(a, b);
    SplitInThree(a, [f], b);
    CombineWithLength(EntriesSize(a), EntriesSize(b), len, total);
  }

  /** Keeps the additivity step out of the listing lemmas, whose unfolding
      of `EntriesSize` makes it expensive there. */
  lemma CombineWithLength(ra: Result<nat>, rb: Result<nat>, len: nat, total: nat)
    requires Combine(ra, rb) == Ok(total)
    ensures Combine(Combine(ra, Ok(len)), rb) == Ok(total + len)
  {
  }

  lemma SplitInThree(a: seq<Entry>, m: seq<Entry>, b: seq<Entry>)
    ensures EntriesSize(a + m + b) == Combine(Combine(EntriesSize(a), EntriesSize(m)), EntriesSize(b))
  {
    EntriesSizeAppend(a, m);
    EntriesSizeAppend(a + m, b);
  }

  /** Adding a readable file of `len` bytes anywhere in a directory that
      measures `total` makes it measure exactly `total + len`. */
  lemma AddFileGrowsSize(a: seq<Entry>, b: seq<Entry>, name: string, len: nat, total: nat)
    requires SizeOf(Dir(a + b, true)) == Ok(total)
    ensures SizeOf(Dir(a + [Entry(name, File(len, true), true)] + b, true)) == Ok(total + len)
  {
    AddFileToListing(a, b, name, len, total);
  }

  /** Any failing read below a directory makes the whole measurement fail. */
  lemma {:induction false} ErrorBelowIsFatal(es: seq<Entry>, i: nat)
    requires i < |es| && (!es[i].ok || SizeOf(es[i].node).Err?)
    ensures SizeOf(Dir(es, true)).Err?
  {
    EntriesSizeIsBytes(es);
    SizeOfIsBytes(es[i].node);
  }

  /** Measuring the path of a child, as the walk of the source does when it
      recurses on `entry.path()`, measures the node the listing yielded for
      it, provided the listing does not repeat a name. */
  lemma ChildPathSize(root: Node, p: Path, es: seq<Entry>, readable: bool, i: nat)
    requires Lookup(root, p) == Some(Dir(es, readable))
    requires i < |es| && UniqueNames(es)
    ensures SizeAt(root, p + [es[i].name]) == SizeOf(es[i].node)
  {
    LookupAppend(root, p, [es[i].name]);
    LookupChild(es, readable, i);
  }

  // ---- The imperative walk.

  /** `calculate_dir_size(path)`. */
  method CalculateDirSize(root: Node, path: Path) returns (r: Result<nat>)
    ensures r == SizeAt(root, path)
  {
    var n := Lookup(root, path);
    if n.None? {
      return Ok(0);
    }
    r := MeasureNode(n.value);
  }

  /** The loop of `calculate_dir_size` over one node, recursing into
      subdirectories and accumulating `totalSize`. */
  method MeasureNode(n: Node) returns (r: Result<nat>)
    ensures r == SizeOf(n)
    decreases n
  {
    if n.Dir? {
      if !n.readable {
        return Err(ReadDirFailed);
      }
      var es := n.entries;
      var totalSize: nat := 0;
      var i := 0;
      while i < |es|
        invariant 0 <= i <= |es|
        invariant EntriesSize(es[..i]) == Ok(totalSize)
      {
        var entry := es[i];
        assert es[..i + 1][..i] == es[..i];
        if !entry.ok {
          EntriesSizeAppend(es[..i + 1], es[i + 1..]);
          assert es[..i + 1] + es[i + 1..] == es;
          return Err(EntryFailed);
        }
        match entry.node {
          case File(len, statOk) =>
            if !statOk {
              EntriesSizeAppend(es[..i + 1], es[i + 1..]);
              assert es[..i + 1] + es[i + 1..] == es;
              return Err(MetadataFailed);
            }
            totalSize := totalSize + len;
          case Dir(_, _) =>
            var sub := MeasureNode(entry.node);
            if sub.Err? {
              EntriesSizeAppend(es[..i + 1], es[i + 1..]);
              assert es[..i + 1] + es[i + 1..] == es;
              return sub;
            }
            totalSize := totalSize + sub.value;
          case Special =>
        }
        i := i + 1;
      }
      assert es[..i] == es;
      return Ok(totalSize);
    } else if n.File? {
      if !n.statOk {
        return Err(MetadataFailed);
      }
      return Ok(n.length);
    }
    return Ok(0);
  }
}
