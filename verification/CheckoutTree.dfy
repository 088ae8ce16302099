/** The working files of a checkout, and the walk that finds the untracked ones. */
module CheckoutTree {
  import opened Wrappers
  import opened Bytes
  import opened FileModes
  import opened Ordering
  import opened Paths
  import opened Fingerprint

  /** A snapshot of a working tree.  A directory holds its entries as `sorted(os.listdir())` gives them. */
  datatype Node =
    | Regular(executable: bool, body: seq<Byte>)
    | Symlink(target: seq<Byte>)
    | Directory(entries: seq<Child>)
    | Special

  datatype Child = Child(name: Name, node: Node)

  function ChildNamed(entries: seq<Child>, name: Name): Option<Node> {
    if entries == [] then None
    else if entries[0].name == name then Some(entries[0].node)
    else ChildNamed(entries[1..], name)
  }

  /** The node that a sequence of names leads to through directories. */
  function NodeAt(root: Node, names: seq<Name>): Option<Node> {
    if names == [] then Some(root)
    else
      match NodeAt(root, names[..|names| - 1])
      case Some(Directory(entries)) => ChildNamed(entries, names[|names| - 1])
      case _ => None
  }

  datatype TreeRefusal = UnsafePath | SpecialFile

  function RowOf(path: Path, node: Option<Node>): Result<FileRow, TreeRefusal> {
    match node
    case None => Success(FileRow(path, 0, []))
    case Some(Symlink(target)) => Success(FileRow(path, SYMLINK_MODE, target))
    case Some(Regular(executable, body)) => Success(FileRow(path, if executable then EXECUTABLE_MODE else REGULAR_MODE, body))
    case Some(Directory(_)) => Success(FileRow(path, DIRECTORY_MODE, []))
    case Some(Special) => Failure(SpecialFile)
  }

  /** `_file`. */
  function FileAt(root: Node, path: Path): Result<FileRow, TreeRefusal> {
    if !SafePath(path) then Failure(UnsafePath) else RowOf(path, NodeAt(root, Split(path)))
  }

  // ---------------------------------------------------------------- the walk

  /** What the walk consults: the index paths, whether case is ignored, and the ignore rules. */
  datatype Filter = Filter(indexed: set<Path>, casefold: bool, ignored: (Path, bool) -> bool) {

    predicate InIndex(path: Path) {
      path in indexed || (casefold && exists p :: p in indexed && Lower(p) == Lower(path))
    }

    predicate HasChildren(path: Path) {
      exists p :: p in indexed && (path + [SLASH] <= p || (casefold && Lower(path) + [SLASH] <= Lower(p)))
    }

    /** The walk enters or reports this path. */
    predicate Visits(path: Path, name: Name, directory: bool) {
      !IsDotGit(name) && !InIndex(path) && (HasChildren(path) || !ignored(path, directory))
    }
  }

  function Untracked(root: Node, entries: seq<Child>, relative: Path, filter: Filter)
    : Result<seq<FileRow>, TreeRefusal>
    decreases entries
  {
    if entries == [] then Success([])
    else
      var head :- UntrackedAt(root, entries[0], relative, filter);
      var rest :- Untracked(root, entries[1..], relative, filter);
      Success(head + rest)
  }

  function UntrackedAt(root: Node, child: Child, relative: Path, filter: Filter): Result<seq<FileRow>, TreeRefusal>
    decreases child
  {
    var path := Join(relative, child.name);
    if !filter.Visits(path, child.name, child.node.Directory?) then Success([])
    else if child.node.Directory? then Untracked(root, child.node.entries, path, filter)
    else
      var row :- FileAt(root, path);
      Success([row])
  }

  /** The walk's result when `found` is listed already and the rest of the entries yield `rest`. */
  ghost function Finish(found: seq<FileRow>, rest: Result<seq<FileRow>, TreeRefusal>): Result<seq<FileRow>, TreeRefusal> {
    match rest
    case Success(rows) => Success(found + rows)
    case Failure(_) => rest
  }

  lemma FinishChild(root: Node, entries: seq<Child>, relative: Path, filter: Filter, found: seq<FileRow>)
    requires entries != []
    ensures Finish(found, Untracked(root, entries, relative, filter)) ==
            match UntrackedAt(root, entries[0], relative, filter)
            case Success(rows) => Finish(found + rows, Untracked(root, entries[1..], relative, filter))
            case Failure(error) => Failure(error)
    ensures found + [] == found
  {
    var head := UntrackedAt(root, entries[0], relative, filter);
    var rest := Untracked(root, entries[1..], relative, filter);
    if head.Success? && rest.Success? {
      assert found + (head.value + rest.value) == found + head.value + rest.value;
    }
  }

  /** The nested `walk`, appending to the list `found`. */
  method Walk(root: Node, directory: Node, relative: Path, filter: Filter, found: seq<FileRow>)
    returns (r: Result<seq<FileRow>, TreeRefusal>)
    requires directory.Directory?
    ensures r == Finish(found, Untracked(root, directory.entries, relative, filter))
    decreases directory
  {
    var untracked := found;
    assert directory.entries[0..] == directory.entries;
    for i := 0 to |directory.entries|
      invariant Finish(found, Untracked(root, directory.entries, relative, filter))
                == Finish(untracked, Untracked(root, directory.entries[i..], relative, filter))
    {
      ghost var rest := directory.entries[i..];
      assert rest[1..] == directory.entries[i + 1..];
      FinishChild(root, rest, relative, filter, untracked);
      var child := directory.entries[i];
      assert rest[0] == child;
      hide Untracked, Finish;
      if IsDotGit(child.name) {
        continue;
      }
      var path := Join(relative, child.name);
      if filter.InIndex(path) {
        continue;
      }
      var isDirectory := child.node.Directory?;
      if !filter.HasChildren(path) && filter.ignored(path, isDirectory) {
        continue;
      }
      if isDirectory {
        untracked :- Walk(root, child.node, path, filter, untracked);
      } else {
        var row :- FileAt(root, path);
        untracked := untracked + [row];
      }
    }
    assert untracked + [] == untracked;
    return Success(untracked);
  }
}
