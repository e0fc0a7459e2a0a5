/** The file-system tree that every stage of the pipeline reads, the I/O
    errors the stages can meet, and the record that carries a measured
    artifact directory from one stage to the next.

    The tree is a snapshot of the disk: a directory lists its entries in the
    order `read_dir` yields them, and each position of that listing may itself
    fail. Paths are absolute and already canonical, so resolving a path is a
    walk from the root, one name per component. */
module FileSystem {

  /** A path from the root of the file system, one name per component. */
  type Path = seq<string>

  /** The fixed name of a build-artifact directory. */
  const TargetName: string := "target"

  /** The I/O failures the pipeline distinguishes, one per operation that
      can fail. */
  datatype IoError =
    | NotFound        // the path does not exist (canonicalize, remove_dir_all)
    | ReadDirFailed   // read_dir on an unreadable directory or on a non-directory
    | EntryFailed     // the directory iterator yielded an error at some position
    | MetadataFailed  // the metadata of a file could not be read
    | RemoveFailed    // remove_dir_all was refused (permissions, files in use)
    | PromptFailed    // the selection prompt could not be completed

  datatype Option<T> = None | Some(value: T)

  datatype Result<T> = Ok(value: T) | Err(error: IoError)

  /** A file-system object as the type checks `is_file` and `is_dir` see it.
      `statOk` is false when reading the length of the file fails;
      `readable` is false when listing the directory fails. A `Special`
      node (socket, device, fifo) is neither a file nor a directory. */
  datatype Node =
    | File(length: nat, statOk: bool)
    | Dir(entries: seq<Entry>, readable: bool)
    | Special

  /** One position of a directory listing. `ok` is false when the iterator
      yields an error at this position instead of the entry. */
  datatype Entry = Entry(name: string, node: Node, ok: bool)

  /** The record lib.rs calls `TargetDirInfo`: an artifact directory and the
      number of bytes measured under it. */
  datatype TargetDirInfo = TargetDirInfo(path: Path, size: nat)

  /** The position of the first entry called `name`, if any. */
  function FindEntry(es: seq<Entry>, name: string): (r: Option<nat>)
    ensures r.Some? ==> r.value < |es| && es[r.value].name == name
    ensures r.Some? ==> forall j :: 0 <= j < r.value ==> es[j].name != name
    ensures r.None? ==> forall j :: 0 <= j < |es| ==> es[j].name != name
  {
    if es == [] then None
    else if es[0].name == name then Some(0)
    else match FindEntry(es[1..], name)
      case None => None
      case Some(k) => Some(k + 1)
  }

  /** Resolves `p` below `n`; `None` when some component does not exist. */
  function Lookup(n: Node, p: Path): Option<Node>
    decreases p
  {
    if p == [] then Some(n)
    else match n
      case Dir(es, _) =>
        (match FindEntry(es, p[0])
         case None => None
         case Some(k) => Lookup(es[k].node, p[1..]))
      case _ => None
  }

  /** `p.exists()`. */
  predicate Exists(root: Node, p: Path) {
    Lookup(root, p).Some?
  }

  /** `p.is_dir()`: `p` exists and is a directory. */
  predicate IsDirAt(root: Node, p: Path) {
    var n := Lookup(root, p);
    n.Some? && n.value.Dir?
  }

  /** A directory listing in which no name occurs twice, as in every real
      directory. */
  predicate UniqueNames(es: seq<Entry>) {
    forall i, j :: 0 <= i < j < |es| ==> es[i].name != es[j].name
  }

  /** Looking up `dir/name` finds the entry the listing yields under that
      name. This is what lets the size accountant read an entry's node where
      the source resolves the entry's path again. */
  lemma LookupChild(es: seq<Entry>, readable: bool, i: nat)
    requires i < |es| && UniqueNames(es)
    ensures Lookup(Dir(es, readable), [es[i].name]) == Some(es[i].node)
  {
    var k := FindEntry(es, es[i].name);
    assert k.Some? && k.value == i;
    assert [es[i].name][1..] == [];
  }

  /** Resolving a path in two steps is resolving it at once. */
  lemma {:induction false} LookupAppend(n: Node, p: Path, q: Path)
    ensures Lookup(n, p + q) ==
      match Lookup(n, p)
      case None => None
      case Some(m) => Lookup(m, q)
    decreases p
  {
    if p == [] {
      assert p + q == q;
    } else {
      assert (p + q)[0] == p[0];
      assert (p + q)[1..] == p[1..] + q;
      match n
      case Dir(es, _) =>
        match FindEntry(es, p[0]) {
          case None =>
          case Some(k) => LookupAppend(es[k].node, p[1..], q);
        }
      case File(_, _) =>
      case Special =>
    }
  }

  /** Every path that resolves below `n`, `n` itself included: the paths a
      disk holding exactly this tree has present. */
  function PathsIn(n: Node): set<Path>
    decreases n, 1
  {
    {[]} + match n
      case Dir(es, _) => ChildPaths(es)
      case _ => {}
  }

  function ChildPaths(es: seq<Entry>): set<Path>
    decreases es, 0
  {
    if es == [] then {}
    else (set q | q in PathsIn(es[0].node) :: [es[0].name] + q) + ChildPaths(es[1..])
  }

  lemma {:induction false} ChildPathsHas(es: seq<Entry>, k: nat, q: Path)
    requires k < |es| && q in PathsIn(es[k].node)
    ensures [es[k].name] + q in ChildPaths(es)
    decreases k
  {
    if k > 0 {
      assert es[1..][k - 1] == es[k];
      ChildPathsHas(es[1..], k - 1, q);
    }
  }

  /** Every path that resolves in the tree is one of its paths. */
  lemma {:induction false} LookupInPathsIn(n: Node, p: Path)
    requires Lookup(n, p).Some?
    ensures p in PathsIn(n)
    decreases p
  {
    if p != [] {
      var es := n.entries;
      var k := FindEntry(es, p[0]).value;
      LookupInPathsIn(es[k].node, p[1..]);
      ChildPathsHas(es, k, p[1..]);
      assert [es[k].name] + p[1..] == p;
    }
  }

  /** No path of `ps` lies below another of its positions, so removing one
      never removes another; in particular no path occurs twice. */
  predicate PrefixFree(ps: seq<Path>)
  {
    forall i, j :: 0 <= i < |ps| && 0 <= j < |ps| && i != j ==> !(ps[i] <= ps[j])
  }
}
