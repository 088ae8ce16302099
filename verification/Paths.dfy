/** Repository paths as byte strings, and as the sequences of names they join. */
module Paths {
  import opened Bytes
  import opened Ordering

  type Name = seq<Byte>

  const SLASH: Byte := 47

  const DOT_GIT: Name := [46, 103, 105, 116]

  predicate IsDotGit(name: Name) { Lower(name) == DOT_GIT }

  /** `path.split(b"/")`. */
  function Split(p: Path): (parts: seq<Name>)
    ensures |parts| > 0
  {
    if p == [] then [[]]
    else if p[0] == SLASH then [[]] + Split(p[1..])
    else
      var rest := Split(p[1..]);
      [[p[0]] + rest[0]] + rest[1..]
  }

  /** `(relative + b"/" if relative else b"") + name`. */
  function Join(relative: Path, name: Name): Path {
    if relative == [] then name else relative + [SLASH] + name
  }

  function PathOf(names: seq<Name>): Path {
    if names == [] then [] else Join(PathOf(names[..|names| - 1]), names[|names| - 1])
  }

  /** What `_safe_path` demands of one component. */
  predicate SafeName(name: Name) {
    name != [] && name != [46] && name != [46, 46] && !IsDotGit(name)
  }

  /** `_safe_path`, away from Windows. */
  predicate SafePath(p: Path) {
    0 !in p && forall i :: 0 <= i < |Split(p)| ==> SafeName(Split(p)[i])
  }

  /** A name that a directory can hold. */
  predicate FileName(name: Name) {
    name != [] && name != [46] && name != [46, 46] && SLASH !in name && 0 !in name
  }

  lemma {:induction false} SplitWhole(name: Name)
    requires SLASH !in name
    ensures Split(name) == [name]
  {
    if name != [] {
      assert name[0] in name && forall b :: b in name[1..] ==> b in name;
      SplitWhole(name[1..]);
      assert name == [name[0]] + name[1..];
    }
  }

  lemma {:induction false} SplitJoined(p: Path, name: Name)
    requires SLASH !in name
    ensures Split(p + [SLASH] + name) == Split(p) + [name]
  {
    var q := p + [SLASH] + name;
    if p == [] {
      assert q[1..] == name;
      SplitWhole(name);
    } else {
      assert q[1..] == p[1..] + [SLASH] + name && q[0] == p[0];
      SplitJoined(p[1..], name);
    }
  }

  ghost predicate FileNames(names: seq<Name>) {
    forall i :: 0 <= i < |names| ==> FileName(names[i])
  }

  lemma {:induction false} PathOfNonempty(names: seq<Name>)
    requires FileNames(names) && names != []
    ensures PathOf(names) != []
  {
  }

  /** Splitting a joined path gives its names back, so different names never join to one path. */
  lemma {:induction false} SplitPathOf(names: seq<Name>)
    requires FileNames(names) && names != []
    ensures Split(PathOf(names)) == names
  {
    var n := |names| - 1;
    var front, last := names[..n], names[n];
    assert names == front + [last] && FileName(last);
    if n == 0 {
      assert PathOf(front) == [];
      SplitWhole(last);
    } else {
      assert FileNames(front);
      PathOfNonempty(front);
      SplitPathOf(front);
      SplitJoined(PathOf(front), last);
    }
  }

  lemma {:induction false} NoNulInPath(names: seq<Name>)
    requires FileNames(names)
    ensures 0 !in PathOf(names)
  {
    if names != [] {
      NoNulInPath(names[..|names| - 1]);
      assert FileName(names[|names| - 1]);
    }
  }

  lemma PathOfAppend(names: seq<Name>, name: Name)
    ensures PathOf(names + [name]) == Join(PathOf(names), name)
  {
    assert (names + [name])[..|names|] == names;
  }
}
