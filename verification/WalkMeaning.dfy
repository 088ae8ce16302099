/** The walk lists exactly the reportable files, each once. */
module WalkMeaning {
  import opened Wrappers
  import opened Paths
  import opened Fingerprint
  import opened CheckoutTree
  import opened Ordering

  ghost predicate ValidNode(node: Node) {
    node.Directory? ==>
      && (forall i :: 0 <= i < |node.entries| ==> FileName(node.entries[i].name) && ValidNode(node.entries[i].node))
      && (forall i, j :: 0 <= i < j < |node.entries| ==> node.entries[i].name != node.entries[j].name)
  }

  /** The last component is not `.git`, the path is not in the index, and it is not pruned:
      it is not ignored, or the index has a path below it. */
  predicate Visible(root: Node, names: seq<Name>, filter: Filter) {
    && names != []
    && NodeAt(root, names).Some?
    && filter.Visits(PathOf(names), names[|names| - 1], NodeAt(root, names).value.Directory?)
  }

  ghost predicate AllVisible(root: Node, names: seq<Name>, filter: Filter) {
    forall k :: 0 < k <= |names| ==> Visible(root, names[..k], filter)
  }

  /** A file that is no directory, and that no component of its path hides. */
  ghost predicate Reportable(root: Node, names: seq<Name>, filter: Filter) {
    && Visible(root, names, filter)
    && AllVisible(root, names, filter)
    && !NodeAt(root, names).value.Directory?
  }

  // ---------------------------------------------------------------- nodes and their names

  lemma {:induction false} ChildNamedAt(entries: seq<Child>, i: nat)
    requires i < |entries|
    requires forall i, j :: 0 <= i < j < |entries| ==> entries[i].name != entries[j].name
    ensures ChildNamed(entries, entries[i].name) == Some(entries[i].node)
  {
    if i > 0 {
      ChildNamedAt(entries[1..], i - 1);
    }
  }

  lemma {:induction false} ChildNamedIsEntry(entries: seq<Child>, name: Name) returns (i: nat)
    requires ChildNamed(entries, name).Some?
    ensures i < |entries| && entries[i].name == name && ChildNamed(entries, name) == Some(entries[i].node)
  {
    if entries[0].name == name {
      i := 0;
    } else {
      i := ChildNamedIsEntry(entries[1..], name);
      i := i + 1;
    }
  }

  lemma NodeAtAppend(root: Node, names: seq<Name>, name: Name)
    ensures NodeAt(root, names + [name]) ==
            match NodeAt(root, names)
            case Some(Directory(entries)) => ChildNamed(entries, name)
            case _ => None
  {
    assert (names + [name])[..|names|] == names;
  }

  lemma {:induction false} NamesAreValid(root: Node, names: seq<Name>)
    requires ValidNode(root) && NodeAt(root, names).Some?
    ensures FileNames(names) && ValidNode(NodeAt(root, names).value)
  {
    if names != [] {
      var front := names[..|names| - 1];
      NamesAreValid(root, front);
      var i := ChildNamedIsEntry(NodeAt(root, front).value.entries, names[|names| - 1]);
      assert names == front + [names[|names| - 1]];
    }
  }

  lemma VisibleWhole(root: Node, names: seq<Name>, filter: Filter)
    requires names != [] && AllVisible(root, names, filter)
    ensures Visible(root, names, filter)
  {
    assert names[..|names|] == names;
    hide Visible;
    assert Visible(root, names[..|names|], filter);
  }

  lemma VisibleName(root: Node, names: seq<Name>, filter: Filter, i: nat)
    requires AllVisible(root, names, filter) && FileNames(names) && i < |names|
    ensures SafeName(names[i])
  {
    hide NodeAt, PathOf, IsDotGit;
    assert Visible(root, names[..i + 1], filter);
    assert names[..i + 1][i] == names[i] && FileName(names[i]);
  }

  lemma SafeJoined(names: seq<Name>)
    requires names != [] && FileNames(names) && forall i :: 0 <= i < |names| ==> SafeName(names[i])
    ensures SafePath(PathOf(names)) && Split(PathOf(names)) == names
  {
    SplitPathOf(names);
    NoNulInPath(names);
    hide SafeName, PathOf, Split, FileNames;
  }

  lemma FileAtIs(root: Node, path: Path)
    requires SafePath(path)
    ensures FileAt(root, path) == RowOf(path, NodeAt(root, Split(path)))
  {
    hide SafePath, RowOf, NodeAt, Split;
  }

  /** `_file` finds the node that the names lead to. */
  lemma FileAtNames(root: Node, names: seq<Name>, filter: Filter)
    requires ValidNode(root) && names != [] && AllVisible(root, names, filter)
    ensures FileAt(root, PathOf(names)) == RowOf(PathOf(names), NodeAt(root, names))
  {
    VisibleWhole(root, names, filter);
    assert NodeAt(root, names).Some?;
    hide *;
    NamesAreValid(root, names);
    forall i | 0 <= i < |names|
      ensures SafeName(names[i])
    {
      VisibleName(root, names, filter, i);
    }
    SafeJoined(names);
    FileAtIs(root, PathOf(names));
  }

  // ---------------------------------------------------------------- one directory

  /** `entries` are the last entries of the directory that `prefix` names, and `prefix` is visible. */
  ghost predicate Walking(root: Node, prefix: seq<Name>, from: nat, entries: seq<Child>, filter: Filter) {
    && ValidNode(root)
    && NodeAt(root, prefix).Some? && NodeAt(root, prefix).value.Directory?
    && from <= |NodeAt(root, prefix).value.entries|
    && entries == NodeAt(root, prefix).value.entries[from..]
    && AllVisible(root, prefix, filter)
  }

  lemma ChildNode(root: Node, prefix: seq<Name>, from: nat, entries: seq<Child>, filter: Filter)
    requires Walking(root, prefix, from, entries, filter) && entries != []
    ensures NodeAt(root, prefix + [entries[0].name]) == Some(entries[0].node)
    ensures PathOf(prefix + [entries[0].name]) == Join(PathOf(prefix), entries[0].name)
    ensures Walking(root, prefix, from + 1, entries[1..], filter)
    ensures AllVisible(root, prefix + [entries[0].name], filter) <==>
            filter.Visits(Join(PathOf(prefix), entries[0].name), entries[0].name, entries[0].node.Directory?)
  {
    var child, all := entries[0], NodeAt(root, prefix).value.entries;
    NamesAreValid(root, prefix);
    assert all[from] == child;
    ChildNamedAt(all, from);
    NodeAtAppend(root, prefix, child.name);
    PathOfAppend(prefix, child.name);
    var names := prefix + [child.name];
    assert names[..|names|] == names;
    assert Visible(root, names, filter) <==> filter.Visits(PathOf(names), child.name, child.node.Directory?);
    forall k | 0 < k <= |names|
      ensures k <= |prefix| ==> names[..k] == prefix[..k]
      ensures k == |names| ==> names[..k] == names
    {
    }
  }

  /** The first component below `prefix` names one of the entries. */
  ghost predicate Under(prefix: seq<Name>, entries: seq<Child>, names: seq<Name>) {
    && |prefix| < |names| && prefix <= names
    && exists i :: 0 <= i < |entries| && entries[i].name == names[|prefix|]
  }

  /** `r` is the row of a reportable file below the entries. */
  ghost predicate Comes(root: Node, prefix: seq<Name>, entries: seq<Child>, filter: Filter, names: seq<Name>, r: FileRow) {
    && Under(prefix, entries, names)
    && Reportable(root, names, filter)
    && RowOf(PathOf(names), NodeAt(root, names)) == Success(r)
  }

  /** Every listed row is that of a reportable file. */
  lemma {:induction false} ListedIsReportable(
    root: Node, prefix: seq<Name>, from: nat, entries: seq<Child>, filter: Filter, rows: seq<FileRow>, r: FileRow)
    returns (names: seq<Name>)
    requires Walking(root, prefix, from, entries, filter)
    requires Untracked(root, entries, PathOf(prefix), filter) == Success(rows) && r in rows
    ensures Comes(root, prefix, entries, filter, names, r)
    decreases entries
  {
    var child, tail := entries[0], entries[1..];
    ChildNode(root, prefix, from, entries, filter);
    var head := UntrackedAt(root, child, PathOf(prefix), filter).value;
    var rest := Untracked(root, tail, PathOf(prefix), filter).value;
    assert rows == head + rest;
    hide Untracked, UntrackedAt, NodeAt, AllVisible, ValidNode, PathOf, Reportable, RowOf, Walking;
    if r in head {
      names := ListedBelowChild(root, prefix, from, entries, filter, head, r);
    } else {
      names := ListedIsReportable(root, prefix, from + 1, tail, filter, rest, r);
      var i :| 0 <= i < |tail| && tail[i].name == names[|prefix|];
      assert entries[i + 1].name == names[|prefix|];
    }
  }

  lemma {:induction false} ListedBelowChild(
    root: Node, prefix: seq<Name>, from: nat, entries: seq<Child>, filter: Filter, head: seq<FileRow>, r: FileRow)
    returns (names: seq<Name>)
    requires Walking(root, prefix, from, entries, filter) && entries != []
    requires UntrackedAt(root, entries[0], PathOf(prefix), filter) == Success(head) && r in head
    ensures Comes(root, prefix, entries[..1], filter, names, r)
    decreases entries[0]
  {
    var child := entries[0];
    ChildNode(root, prefix, from, entries, filter);
    var here := prefix + [child.name];
    assert entries[..1][0].name == child.name;
    if child.node.Directory? {
      assert child.node.entries[0..] == child.node.entries;
      names := ListedIsReportable(root, here, 0, child.node.entries, filter, head, r);
      assert names[|prefix|] == here[|prefix|];
    } else {
      names := here;
      FileAtNames(root, here, filter);
    }
  }

  /** Every reportable file is listed, and none of them is a special file. */
  lemma {:induction false} ReportableIsListed(
    root: Node, prefix: seq<Name>, from: nat, entries: seq<Child>, filter: Filter, rows: seq<FileRow>, names: seq<Name>)
    requires Walking(root, prefix, from, entries, filter)
    requires Untracked(root, entries, PathOf(prefix), filter) == Success(rows)
    requires Under(prefix, entries, names) && Reportable(root, names, filter)
    ensures RowOf(PathOf(names), NodeAt(root, names)).Success?
    ensures RowOf(PathOf(names), NodeAt(root, names)).value in rows
    decreases entries
  {
    var child, tail := entries[0], entries[1..];
    ChildNode(root, prefix, from, entries, filter);
    var head := UntrackedAt(root, child, PathOf(prefix), filter).value;
    var rest := Untracked(root, tail, PathOf(prefix), filter).value;
    assert rows == head + rest;
    hide Untracked, UntrackedAt, NodeAt, AllVisible, ValidNode, PathOf, Reportable, RowOf, Walking;
    if child.name == names[|prefix|] {
      ReportableBelowChild(root, prefix, from, entries, filter, head, names);
    } else {
      var i :| 0 <= i < |entries| && entries[i].name == names[|prefix|];
      assert tail[i - 1].name == names[|prefix|];
      ReportableIsListed(root, prefix, from + 1, tail, filter, rest, names);
    }
  }

  lemma PrefixExtends(prefix: seq<Name>, names: seq<Name>)
    requires prefix <= names && |prefix| < |names|
    ensures names[..|prefix| + 1] == prefix + [names[|prefix|]]
    ensures |names| == |prefix| + 1 ==> names == prefix + [names[|prefix|]]
    ensures prefix + [names[|prefix|]] <= names
  {
  }

  lemma {:induction false} ReportableBelowChild(
    root: Node, prefix: seq<Name>, from: nat, entries: seq<Child>, filter: Filter, head: seq<FileRow>, names: seq<Name>)
    requires Walking(root, prefix, from, entries, filter) && entries != []
    requires UntrackedAt(root, entries[0], PathOf(prefix), filter) == Success(head)
    requires |prefix| < |names| && prefix <= names && names[|prefix|] == entries[0].name
    requires Reportable(root, names, filter)
    ensures RowOf(PathOf(names), NodeAt(root, names)).Success?
    ensures RowOf(PathOf(names), NodeAt(root, names)).value in head
    decreases entries[0]
  {
    var child := entries[0];
    ChildNode(root, prefix, from, entries, filter);
    var here := prefix + [child.name];
    PrefixExtends(prefix, names);
    VisiblePrefix(root, names, filter, |prefix| + 1);
    if |names| == |here| {
      FileAtNames(root, here, filter);
    } else {
      var i := NextComponent(root, names, filter, here, child.node);
      assert child.node.entries[0..] == child.node.entries;
      assert Walking(root, here, 0, child.node.entries, filter);
      assert Under(here, child.node.entries, names);
      assert Untracked(root, child.node.entries, PathOf(here), filter) == Success(head);
      hide *;
      ReportableIsListed(root, here, 0, child.node.entries, filter, head, names);
    }
  }

  lemma NextComponent(root: Node, names: seq<Name>, filter: Filter, here: seq<Name>, node: Node) returns (i: nat)
    requires AllVisible(root, names, filter) && |here| < |names| && here <= names
    requires NodeAt(root, here) == Some(node)
    ensures node.Directory? && i < |node.entries| && node.entries[i].name == names[|here|]
  {
    PrefixExtends(here, names);
    assert Visible(root, names[..|here| + 1], filter);
    NodeAtAppend(root, here, names[|here|]);
    i := ChildNamedIsEntry(node.entries, names[|here|]);
  }

  lemma VisiblePrefix(root: Node, names: seq<Name>, filter: Filter, n: nat)
    requires AllVisible(root, names, filter) && n <= |names|
    ensures AllVisible(root, names[..n], filter)
  {
    forall k | 0 < k <= n
      ensures names[..n][..k] == names[..k]
    {
    }
  }

  /** A refusal is due to a reportable special file. */
  lemma {:induction false} RefusalIsSpecial(
    root: Node, prefix: seq<Name>, from: nat, entries: seq<Child>, filter: Filter) returns (names: seq<Name>)
    requires Walking(root, prefix, from, entries, filter)
    requires Untracked(root, entries, PathOf(prefix), filter).Failure?
    ensures Under(prefix, entries, names) && Reportable(root, names, filter)
    ensures NodeAt(root, names) == Some(Special)
    ensures Untracked(root, entries, PathOf(prefix), filter) == Failure(SpecialFile)
    decreases entries
  {
    var child, tail := entries[0], entries[1..];
    ChildNode(root, prefix, from, entries, filter);
    if UntrackedAt(root, child, PathOf(prefix), filter).Failure? {
      names := RefusalBelowChild(root, prefix, from, entries, filter);
    } else {
      names := RefusalIsSpecial(root, prefix, from + 1, tail, filter);
      var i :| 0 <= i < |tail| && tail[i].name == names[|prefix|];
      assert entries[i + 1].name == names[|prefix|];
    }
  }

  lemma {:induction false} RefusalBelowChild(
    root: Node, prefix: seq<Name>, from: nat, entries: seq<Child>, filter: Filter) returns (names: seq<Name>)
    requires Walking(root, prefix, from, entries, filter) && entries != []
    requires UntrackedAt(root, entries[0], PathOf(prefix), filter).Failure?
    ensures Under(prefix, entries, names) && Reportable(root, names, filter)
    ensures NodeAt(root, names) == Some(Special)
    ensures UntrackedAt(root, entries[0], PathOf(prefix), filter) == Failure(SpecialFile)
    decreases entries[0]
  {
    hide NodeAt, PathOf, Join, ValidNode;
    var child := entries[0];
    ChildNode(root, prefix, from, entries, filter);
    var here := prefix + [child.name];
    if child.node.Directory? {
      assert child.node.entries[0..] == child.node.entries;
      names := RefusalIsSpecial(root, here, 0, child.node.entries, filter);
      assert names[|prefix|] == here[|prefix|];
    } else {
      names := here;
      FileAtNames(root, here, filter);
    }
  }

  ghost predicate DistinctPaths(rows: seq<FileRow>) {
    forall i, j :: 0 <= i < j < |rows| ==> rows[i].path != rows[j].path
  }

  /** No path is listed twice. */
  lemma {:induction false} ListedOnce(
    root: Node, prefix: seq<Name>, from: nat, entries: seq<Child>, filter: Filter, rows: seq<FileRow>)
    requires Walking(root, prefix, from, entries, filter)
    requires Untracked(root, entries, PathOf(prefix), filter) == Success(rows)
    ensures DistinctPaths(rows)
    decreases entries
  {
    if entries != [] {
      var child, tail := entries[0], entries[1..];
      ChildNode(root, prefix, from, entries, filter);
      var head := UntrackedAt(root, child, PathOf(prefix), filter).value;
      var rest := Untracked(root, tail, PathOf(prefix), filter).value;
      if child.node.Directory? && filter.Visits(Join(PathOf(prefix), child.name), child.name, true) {
        assert child.node.entries[0..] == child.node.entries;
        ListedOnce(root, prefix + [child.name], 0, child.node.entries, filter, head);
      }
      ListedOnce(root, prefix, from + 1, tail, filter, rest);
      forall i, j | 0 <= i < |head| && 0 <= j < |rest|
        ensures head[i].path != rest[j].path
      {
        SiblingsDiffer(root, prefix, from, entries, filter, head, head[i], rest, rest[j]);
      }
      assert rows == head + rest;
    }
  }

  lemma RowPathSplits(root: Node, filter: Filter, names: seq<Name>, r: FileRow)
    requires ValidNode(root) && Reportable(root, names, filter)
    requires RowOf(PathOf(names), NodeAt(root, names)) == Success(r)
    ensures Split(r.path) == names
  {
    NamesAreValid(root, names);
    SplitPathOf(names);
  }

  lemma SiblingsDiffer(
    root: Node, prefix: seq<Name>, from: nat, entries: seq<Child>, filter: Filter,
    head: seq<FileRow>, a: FileRow, rest: seq<FileRow>, b: FileRow)
    requires Walking(root, prefix, from, entries, filter) && entries != []
    requires UntrackedAt(root, entries[0], PathOf(prefix), filter) == Success(head) && a in head
    requires Untracked(root, entries[1..], PathOf(prefix), filter) == Success(rest) && b in rest
    ensures a.path != b.path
  {
    ChildNode(root, prefix, from, entries, filter);
    hide Untracked, UntrackedAt, NodeAt, AllVisible, ValidNode, PathOf;
    var first := ListedBelowChild(root, prefix, from, entries, filter, head, a);
    var second := ListedIsReportable(root, prefix, from + 1, entries[1..], filter, rest, b);
    NamesAreValid(root, prefix);
    var i :| 0 <= i < |entries[1..]| && entries[1..][i].name == second[|prefix|];
    assert entries[i + 1] == NodeAt(root, prefix).value.entries[from + i + 1];
    assert entries[0] == NodeAt(root, prefix).value.entries[from];
    assert first[|prefix|] != second[|prefix|];
    RowPathSplits(root, filter, first, a);
    RowPathSplits(root, filter, second, b);
  }

  /** From the root: the walk succeeds unless a reportable file is special, and then it lists exactly
      the rows of the reportable files, each once. */
  lemma WalkMeaning(root: Node, filter: Filter)
    requires ValidNode(root) && root.Directory?
    ensures var r := Untracked(root, root.entries, [], filter);
            && (r.Success? <==> !exists names :: Reportable(root, names, filter) && NodeAt(root, names) == Some(Special))
            && (r.Success? ==>
                && DistinctPaths(r.value)
                && (forall row :: row in r.value <==>
                      exists names :: Reportable(root, names, filter) && RowOf(PathOf(names), NodeAt(root, names)) == Success(row)))
  {
    var r := Untracked(root, root.entries, [], filter);
    assert root.entries[0..] == root.entries;
    assert Walking(root, [], 0, root.entries, filter);
    assert PathOf([]) == [];
    forall names | Reportable(root, names, filter)
      ensures Under([], root.entries, names)
      ensures r.Success? ==> RowOf(PathOf(names), NodeAt(root, names)).Success?
      ensures r.Success? ==> RowOf(PathOf(names), NodeAt(root, names)).value in r.value
    {
      assert Visible(root, names[..1], filter);
      assert names[..1] == [] + [names[0]];
      NodeAtAppend(root, [], names[0]);
      var i := ChildNamedIsEntry(root.entries, names[0]);
      if r.Success? {
        ReportableIsListed(root, [], 0, root.entries, filter, r.value, names);
      }
    }
    if r.Failure? {
      var names := RefusalIsSpecial(root, [], 0, root.entries, filter);
    } else {
      ListedOnce(root, [], 0, root.entries, filter, r.value);
      forall row | row in r.value
        ensures exists names :: Reportable(root, names, filter) && RowOf(PathOf(names), NodeAt(root, names)) == Success(row)
      {
        var names := ListedIsReportable(root, [], 0, root.entries, filter, r.value, row);
      }
    }
  }
}
