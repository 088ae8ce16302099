/**
 * Attribute and ignore rules.  A macro attribute that is set expands to further assignments, which
 * a worklist takes before the rest; a recursive depth-first expansion says what that computes.
 */
module Attributes {
  import opened Wrappers
  import opened FileModes
  import opened Bytes
  import opened Ordering
  import opened Paths
  import opened EndOfLine
  import opened RuleLines
  import opened Fingerprint
  import opened CheckoutTree
  import opened Observing

  type Macros = map<EndOfLine.Name, seq<Assignment>>

  // ---------------------------------------------------------------- macro expansion

  predicate Expands(a: Assignment, macros: Macros, seen: set<EndOfLine.Name>) {
    a.value.Set? && a.name in macros && a.name !in seen
  }

  lemma SeenShrinks(macros: Macros, seen: set<EndOfLine.Name>, more: set<EndOfLine.Name>)
    requires seen <= more
    ensures |macros.Keys - more| <= |macros.Keys - seen|
    ensures forall name :: name in macros && name in more && name !in seen ==>
              |macros.Keys - more| < |macros.Keys - seen|
  {
    var left, right := macros.Keys - more, macros.Keys - seen;
    Smaller(left, right);
  }

  lemma {:induction false} Smaller<T>(a: set<T>, b: set<T>)
    requires a <= b
    ensures |a| <= |b|
    ensures a < b ==> |a| < |b|
  {
    assert b == a + (b - a);
    assert a < b ==> b - a != {};
  }

  /** The assignments in the order of a depth-first expansion, and the macros expanded on the way.
      A macro is expanded once, where it is first met. */
  ghost function Expansion(items: seq<Assignment>, macros: Macros, seen: set<EndOfLine.Name>)
    : (r: (seq<Assignment>, set<EndOfLine.Name>))
    ensures seen <= r.1
    decreases |macros.Keys - seen|, |items|
  {
    if items == [] then ([], seen)
    else if Expands(items[0], macros, seen) then
      SeenShrinks(macros, seen, seen + {items[0].name});
      var (inner, seen1) := Expansion(macros[items[0].name], macros, seen + {items[0].name});
      SeenShrinks(macros, seen, seen1);
      var (rest, seen2) := Expansion(items[1..], macros, seen1);
      ([items[0]] + inner + rest, seen2)
    else
      var (rest, seen1) := Expansion(items[1..], macros, seen);
      ([items[0]] + rest, seen1)
  }

  /** `attrs[name] = value`, one after the other. */
  function AssignAll(attrs: Attrs, assignments: seq<Assignment>): Attrs
    decreases |assignments|
  {
    if assignments == [] then attrs
    else AssignAll(attrs[assignments[0].name := assignments[0].value], assignments[1..])
  }

  /** The last assignment to a name. */
  function LastAssigned(assignments: seq<Assignment>, name: EndOfLine.Name): Option<Value> {
    if assignments == [] then None
    else
      var last := assignments[|assignments| - 1];
      if last.name == name then Some(last.value) else LastAssigned(assignments[..|assignments| - 1], name)
  }

  lemma {:induction false} AssignAllConcat(attrs: Attrs, a: seq<Assignment>, b: seq<Assignment>)
    ensures AssignAll(attrs, a + b) == AssignAll(AssignAll(attrs, a), b)
    decreases |a|
  {
    if a == [] {
      assert a + b == b;
    } else {
      AssignAllConcat(attrs[a[0].name := a[0].value], a[1..], b);
      assert (a + b)[1..] == a[1..] + b;
    }
  }

  /** The last assignment wins. */
  lemma {:induction false} LastAssignmentWins(attrs: Attrs, assignments: seq<Assignment>, name: EndOfLine.Name)
    ensures var r := AssignAll(attrs, assignments);
            match LastAssigned(assignments, name)
            case Some(value) => name in r && r[name] == value
            case None => (name in r <==> name in attrs) && (name in attrs ==> r[name] == attrs[name])
    decreases |assignments|
  {
    if assignments != [] {
      var front, last := assignments[..|assignments| - 1], assignments[|assignments| - 1];
      assert assignments == front + [last];
      AssignAllConcat(attrs, front, [last]);
      LastAssignmentWins(attrs, front, name);
    }
  }

  lemma ExpansionFirst(items: seq<Assignment>, macros: Macros, seen: set<EndOfLine.Name>)
    requires items != []
    ensures Expansion(items, macros, seen) ==
            if Expands(items[0], macros, seen) then
              var (inner, seen1) := Expansion(macros[items[0].name], macros, seen + {items[0].name});
              var (rest, seen2) := Expansion(items[1..], macros, seen1);
              ([items[0]] + inner + rest, seen2)
            else
              var (rest, seen1) := Expansion(items[1..], macros, seen);
              ([items[0]] + rest, seen1)
  {
  }

  /** Expanding a list and then another, with the macros seen so far, expands their concatenation. */
  lemma {:induction false} ExpansionConcat(a: seq<Assignment>, b: seq<Assignment>, macros: Macros, seen: set<EndOfLine.Name>)
    ensures var (first, seen1) := Expansion(a, macros, seen);
            var (second, seen2) := Expansion(b, macros, seen1);
            Expansion(a + b, macros, seen) == (first + second, seen2)
    decreases |macros.Keys - seen|, |a|
  {
    if a == [] {
      assert a + b == b;
      var (second, _) := Expansion(b, macros, seen);
      assert [] + second == second;
    } else {
      hide *;
      var first, rest, all := a[0], a[1..], a + b;
      ExpansionFirst(a, macros, seen);
      ExpansionFirst(all, macros, seen);
      FirstOfConcat(a, b);
      if Expands(first, macros, seen) {
        InnerShrinks(first, macros, seen);
        var (inner, seen1) := Expansion(macros[first.name], macros, seen + {first.name});
        SeenShrinks(macros, seen, seen1);
        ExpansionConcat(rest, b, macros, seen1);
        var (done, seen2) := Expansion(rest, macros, seen1);
        Regrouped([first] + inner, done, Expansion(b, macros, seen2).0);
      } else {
        ExpansionConcat(rest, b, macros, seen);
        var (done, seen2) := Expansion(rest, macros, seen);
        Regrouped([first], done, Expansion(b, macros, seen2).0);
      }
    }
  }

  lemma FirstOfConcat(a: seq<Assignment>, b: seq<Assignment>)
    requires a != []
    ensures a + b != [] && (a + b)[0] == a[0] && (a + b)[1..] == a[1..] + b
  {
  }

  lemma Regrouped(a: seq<Assignment>, b: seq<Assignment>, c: seq<Assignment>)
    ensures a + (b + c) == a + b + c
  {
  }

  lemma InnerShrinks(first: Assignment, macros: Macros, seen: set<EndOfLine.Name>)
    requires Expands(first, macros, seen)
    ensures first.name in macros && first.name !in seen
    ensures seen + {first.name} <= Expansion(macros[first.name], macros, seen + {first.name}).1
  {
    hide Expansion;
  }

  /** What the worklist still assigns from a state. */
  ghost function Remaining(pending: seq<Assignment>, macros: Macros, attrs: Attrs, seen: set<EndOfLine.Name>): Attrs {
    AssignAll(attrs, Expansion(pending, macros, seen).0)
  }

  lemma WorklistStep(pending: seq<Assignment>, macros: Macros, attrs: Attrs, seen: set<EndOfLine.Name>)
    requires pending != []
    ensures var first, rest := pending[0], pending[1..];
            Remaining(pending, macros, attrs, seen) ==
            if Expands(first, macros, seen)
            then Remaining(macros[first.name] + rest, macros, attrs[first.name := first.value], seen + {first.name})
            else Remaining(rest, macros, attrs[first.name := first.value], seen)
  {
    var first, rest := pending[0], pending[1..];
    ExpansionFirst(pending, macros, seen);
    var all := Expansion(pending, macros, seen).0;
    if Expands(first, macros, seen) {
      ExpansionConcat(macros[first.name], rest, macros, seen + {first.name});
      hide Expansion;
      var more := Expansion(macros[first.name] + rest, macros, seen + {first.name}).0;
      assert all == [first] + more;
    } else {
      hide Expansion;
      assert all == [first] + Expansion(rest, macros, seen).0;
    }
    hide Expansion;
    assert all[0] == first;
  }

  /** The worklist.  It ends for every macro table, cyclic ones included: a step either marks a macro
      as seen or takes an assignment away. */
  method ApplyValues(values: seq<Assignment>, macros: Macros, given: Attrs) returns (attrs: Attrs)
    ensures attrs == AssignAll(given, Expansion(values, macros, {}).0)
  {
    attrs := given;
    var pending := values;
    var seen: set<EndOfLine.Name> := {};
    while pending != []
      invariant Remaining(pending, macros, attrs, seen) == Remaining(values, macros, given, {})
      decreases |macros.Keys - seen|, |pending|
    {
      WorklistStep(pending, macros, attrs, seen);
      hide Expansion, Remaining;
      var first := pending[0];
      pending := pending[1..];
      attrs := attrs[first.name := first.value];
      if first.value.Set? && first.name in macros && first.name !in seen {
        SeenShrinks(macros, seen, seen + {first.name});
        seen := seen + {first.name};
        pending := macros[first.name] + pending;
      }
    }
  }

  // ---------------------------------------------------------------- rule files

  type Rule = (Pattern, seq<Assignment>)

  /** What libraries do: reading one line of an attribute file, matching a path, and reading an ignore file. */
  datatype Library = Library(
    reader: Reader,
    matchPath: (seq<Rule>, Path) -> seq<Assignment>,
    ignores: (seq<Byte>, bool, Path) -> Option<bool>)

  datatype RulesRefusal = NotRegular | BadTree(tree: TreeRefusal) | MissingBlob | NotBlob | UnterminatedPattern

  /** The macro table after the lines of a file; a later definition replaces an earlier one. */
  function MacrosOf(lines: seq<Line>, macros: Macros): Macros {
    if lines == [] then macros
    else
      var front := MacrosOf(lines[..|lines| - 1], macros);
      match lines[|lines| - 1]
      case MacroLine(name, values) => front[name := values]
      case PatternLine(_, _) => front
  }

  function Folded(casefold: bool, bytes: seq<Byte>): seq<Byte> { if casefold then Lower(bytes) else bytes }

  function PatternsOf(lines: seq<Line>, casefold: bool): seq<Rule> {
    if lines == [] then []
    else
      PatternsOf(lines[..|lines| - 1], casefold) +
      match lines[|lines| - 1]
      case MacroLine(_, _) => []
      case PatternLine(pattern, values) => [(Folded(casefold, pattern), values)]
  }

  // "text", "diff", "merge" and "binary"
  const DIFF_NAME: EndOfLine.Name := [100, 105, 102, 102]
  const MERGE_NAME: EndOfLine.Name := [109, 101, 114, 103, 101]
  const BINARY_NAME: EndOfLine.Name := [98, 105, 110, 97, 114, 121]

  const INITIAL_MACROS: Macros :=
    map[BINARY_NAME := [Assignment(TEXT_NAME, Unset), Assignment(DIFF_NAME, Unset), Assignment(MERGE_NAME, Unset)]]

  /** The macro table, and the assignments made so far, over the files applied so far. */
  datatype Applied = Applied(macros: Macros, trace: seq<Assignment>)

  /** One rule file and the path relative to its directory. */
  datatype Source = Source(body: Option<seq<Byte>>, relative: Path)

  /** The nested `apply`. */
  ghost function ApplyFile(library: Library, casefold: bool, source: Source, before: Applied): Result<Applied, RulesRefusal> {
    if source.body.None? then Success(before)
    else
      match ReadBody(library.reader, source.body.value)
      case None => Failure(UnterminatedPattern)
      case Some(lines) =>
        var macros := MacrosOf(lines, before.macros);
        var values := library.matchPath(PatternsOf(lines, casefold), Folded(casefold, source.relative));
        Success(Applied(macros, before.trace + Expansion(values, macros, {}).0))
  }

  /** The files one after the other. */
  ghost function ApplyFiles(library: Library, casefold: bool, sources: seq<Source>, before: Applied): Result<Applied, RulesRefusal> {
    if sources == [] then Success(before)
    else
      var front :- ApplyFiles(library, casefold, sources[..|sources| - 1], before);
      ApplyFile(library, casefold, sources[|sources| - 1], front)
  }

  lemma MacrosAppend(lines: seq<Line>, line: Line, macros: Macros)
    ensures MacrosOf(lines + [line], macros) ==
            if line.MacroLine? then MacrosOf(lines, macros)[line.name := line.values] else MacrosOf(lines, macros)
  {
    assert (lines + [line])[..|lines|] == lines;
  }

  lemma PatternsAppend(lines: seq<Line>, line: Line, casefold: bool)
    ensures PatternsOf(lines + [line], casefold) ==
            if line.MacroLine? then PatternsOf(lines, casefold)
            else PatternsOf(lines, casefold) + [(Folded(casefold, line.pattern), line.values)]
  {
    assert (lines + [line])[..|lines|] == lines;
  }

  /** One turn of the loop over the lines of a file. */
  method TakeLine(reader: Reader, raw: seq<Byte>) returns (r: Option<seq<Line>>)
    ensures r == ReadLine(reader, raw)
  {
    var line := Strip(raw);
    if line == [] || line[0] == HASH {
      return Some([]);
    }
    hide Strip, ClosingQuote;
    var pattern, values;
    if line[0] == QUOTE {
      var end := FindClosingQuote(line);
      if end >= |line| {
        return None;
      }
      pattern := reader.unescape(line[1..end]);
      values := reader.parse(STAND_IN + line[end + 1..]).1;
    } else {
      var parsed := reader.parse(line);
      pattern, values := parsed.0, parsed.1;
    }
    if MACRO_PREFIX <= pattern {
      return Some([MacroLine(pattern[|MACRO_PREFIX|..], values)]);
    }
    return Some([PatternLine(pattern, values)]);
  }

  /** The loop over the lines of a file, which fills the macro table and the list of patterns. */
  method ParseLines(reader: Reader, body: seq<Byte>, casefold: bool, given: Macros)
    returns (r: Option<(Macros, seq<Rule>)>)
    ensures match ReadBody(reader, body)
            case None => r == None
            case Some(lines) => r == Some((MacrosOf(lines, given), PatternsOf(lines, casefold)))
  {
    var macros: Macros, patterns: seq<Rule> := given, [];
    var raws := SplitLines(body);
    ghost var lines: seq<Line> := [];
    assert ReadAll(reader, raws[..0]) == Some(lines);
    hide SplitLines, ReadLine, ReadAll, MacrosOf, PatternsOf, Folded;
    assert macros == MacrosOf(lines, given) && patterns == PatternsOf(lines, casefold) by { NoLines(given, casefold); }
    for i := 0 to |raws|
      invariant ReadAll(reader, raws[..i]) == Some(lines)
      invariant macros == MacrosOf(lines, given) && patterns == PatternsOf(lines, casefold)
    {
      ReadAllStep(reader, raws, i);
      var taken := TakeLine(reader, raws[i]);
      if taken.None? {
        ReadAllRefuses(reader, raws, i + 1);
        return None;
      }
      AtMostOneLine(reader, raws[i]);
      ghost var more := lines + taken.value;
      if taken.value != [] {
        var line := taken.value[0];
        assert more == lines + [line] by { assert taken.value == [line]; }
        MacrosAppend(lines, line, given);
        PatternsAppend(lines, line, casefold);
        match line {
          case MacroLine(name, values) => macros := macros[name := values];
          case PatternLine(pattern, values) => patterns := patterns + [(Folded(casefold, pattern), values)];
        }
      } else {
        assert more == lines;
      }
      lines := more;
    }
    assert raws[..|raws|] == raws;
    return Some((macros, patterns));
  }

  lemma NoLines(given: Macros, casefold: bool)
    ensures MacrosOf([], given) == given && PatternsOf([], casefold) == []
  {
  }

  lemma AtMostOneLine(reader: Reader, raw: seq<Byte>)
    ensures ReadLine(reader, raw).Some? ==> |ReadLine(reader, raw).value| <= 1
  {
  }

  /** `b"/".join(parts)`. */
  function JoinParts(parts: seq<Path>): Path {
    if |parts| == 0 then [] else if |parts| == 1 then parts[0]
    else JoinParts(parts[..|parts| - 1]) + [SLASH] + parts[|parts| - 1]
  }

  // ".gitattributes" and ".gitignore"
  const GIT_ATTRIBUTES: Path := [46, 103, 105, 116, 97, 116, 116, 114, 105, 98, 117, 116, 101, 115]
  const GIT_IGNORE: Path := [46, 103, 105, 116, 105, 103, 110, 111, 114, 101]

  predicate EndsWith(path: Path, suffix: Path) {
    |suffix| <= |path| && path[|path| - |suffix|..] == suffix
  }

  /** The last opinion that is not silent. */
  function LastOpinion(opinions: seq<Option<bool>>): Option<bool> {
    if opinions == [] then None
    else if opinions[|opinions| - 1].Some? then opinions[|opinions| - 1]
    else LastOpinion(opinions[..|opinions| - 1])
  }

  lemma LastOpinionStep(opinions: seq<Option<bool>>, value: Option<bool>)
    ensures LastOpinion(opinions + [value]) == if value.Some? then value else LastOpinion(opinions)
  {
    assert (opinions + [value])[..|opinions|] == opinions;
  }

  /** The rules of a repository, with the resources read so far. */
  class RepositoryRules {
    const library: Library
    const root: Node
    const indexed: map<Path, IndexRow>
    const objects: map<Digest, Object>
    const casefold: bool
    const globalIgnore: seq<seq<Byte>>
    const systemAttrs: Option<seq<Byte>>
    const globalAttrs: Option<seq<Byte>>
    const infoAttrs: Option<seq<Byte>>
    var cache: map<Path, Option<seq<Byte>>>

    constructor (library: Library, repo: Repository, indexed: map<Path, IndexRow>, globalIgnore: seq<seq<Byte>>,
                 systemAttrs: Option<seq<Byte>>, globalAttrs: Option<seq<Byte>>, infoAttrs: Option<seq<Byte>>)
      ensures Valid()
      ensures this.library == library && this.root == repo.root && this.indexed == indexed && this.objects == repo.objects
      ensures this.casefold == repo.rules.casefold && this.globalIgnore == globalIgnore
      ensures this.systemAttrs == systemAttrs && this.globalAttrs == globalAttrs && this.infoAttrs == infoAttrs
    {
      this.library, this.root, this.indexed, this.objects := library, repo.root, indexed, repo.objects;
      this.casefold, this.globalIgnore := repo.rules.casefold, globalIgnore;
      this.systemAttrs, this.globalAttrs, this.infoAttrs := systemAttrs, globalAttrs, infoAttrs;
      cache := map[];
    }

    /** The working file, or else the index's blob, except that an ignore file counts only when it is present. */
    function BodyOf(path: Path): Result<Option<seq<Byte>>, RulesRefusal> {
      match FileAt(root, path)
      case Failure(reason) => Failure(BadTree(reason))
      case Success(file) =>
        if file.mode != 0 && file.mode != REGULAR_MODE && file.mode != EXECUTABLE_MODE then Failure(NotRegular)
        else if file.mode != 0 then Success(Some(file.body))
        else if path !in indexed || EndsWith(path, GIT_IGNORE) then Success(None)
        else if indexed[path].oid !in objects then Failure(MissingBlob)
        else
          match objects[indexed[path].oid]
          case Blob(data) => Success(Some(data))
          case OtherObject => Failure(NotBlob)
    }

    /** Nothing is cached but what reading would return. */
    ghost predicate Valid()
      reads this
    {
      forall path :: path in cache ==> BodyOf(path) == Success(cache[path])
    }

    method Body(path: Path) returns (r: Result<Option<seq<Byte>>, RulesRefusal>)
      requires Valid()
      modifies this
      ensures Valid() && r == BodyOf(path)
      ensures r.Success? ==> cache == old(cache)[path := r.value]
      ensures r.Failure? ==> cache == old(cache)
    {
      if path !in cache {
        var body :- BodyOf(path);
        cache := cache[path := body];
      }
      assert cache[path := cache[path]] == cache;
      return Success(cache[path]);
    }

    /** The rule file of a directory, with the path relative to it. */
    function SourceAt(path: Path, depth: nat): Result<Source, RulesRefusal>
      requires depth < |Split(path)|
    {
      var parts := Split(path);
      var body :- BodyOf(Join(JoinParts(parts[..depth]), GIT_ATTRIBUTES));
      Success(Source(body, JoinParts(parts[depth..])))
    }

    ghost function AppliedAt(path: Path, depth: nat, before: Applied): Result<Applied, RulesRefusal>
      requires depth < |Split(path)|
    {
      var source :- SourceAt(path, depth);
      ApplyFile(library, casefold, source, before)
    }

    /** The files of the first directories of a path. */
    ghost function AppliedBelow(path: Path, depth: nat, before: Applied): Result<Applied, RulesRefusal>
      requires depth <= |Split(path)|
    {
      if depth == 0 then Success(before)
      else
        var front :- AppliedBelow(path, depth - 1, before);
        AppliedAt(path, depth - 1, front)
    }

    lemma AppliedBelowStart(path: Path, before: Applied)
      ensures AppliedBelow(path, 0, before) == Success(before)
    {
    }

    lemma AppliedBelowStep(path: Path, depth: nat, before: Applied)
      requires depth < |Split(path)|
      ensures AppliedBelow(path, depth + 1, before) ==
              match AppliedBelow(path, depth, before)
              case Success(front) => AppliedAt(path, depth, front)
              case Failure(reason) => Failure(reason)
    {
      hide AppliedAt, Split;
    }

    /** `attributes`: the system and global files, one file per directory from the root down, and the
        repository's own file, in this order. */
    ghost function AppliedTo(path: Path): Result<Applied, RulesRefusal> {
      var system :- ApplyFile(library, casefold, Source(systemAttrs, path), Applied(INITIAL_MACROS, []));
      var global :- ApplyFile(library, casefold, Source(globalAttrs, path), system);
      var local :- AppliedBelow(path, |Split(path)|, global);
      ApplyFile(library, casefold, Source(infoAttrs, path), local)
    }

    method Apply(source: Source, macros: Macros, attrs: Attrs, ghost before: Applied)
      returns (r: Result<(Macros, Attrs), RulesRefusal>)
      requires macros == before.macros && attrs == AssignAll(map[], before.trace)
      ensures match ApplyFile(library, casefold, source, before)
              case Success(after) => r == Success((after.macros, AssignAll(map[], after.trace)))
              case Failure(reason) => r == Failure(reason)
    {
      if source.body.None? {
        return Success((macros, attrs));
      }
      var parsed := ParseLines(library.reader, source.body.value, casefold, macros);
      if parsed.None? {
        return Failure(UnterminatedPattern);
      }
      hide ReadBody, MacrosOf, PatternsOf;
      var table := parsed.value.0;
      var values := library.matchPath(parsed.value.1, Folded(casefold, source.relative));
      var updated := ApplyValues(values, table, attrs);
      AssignAllConcat(map[], before.trace, Expansion(values, table, {}).0);
      return Success((table, updated));
    }

    method AttributesOf(path: Path) returns (r: Result<Attrs, RulesRefusal>)
      requires Valid()
      modifies this
      ensures Valid()
      ensures match AppliedTo(path)
              case Success(after) => r == Success(AssignAll(map[], after.trace))
              case Failure(reason) => r == Failure(reason)
    {
      hide ApplyFile, AppliedBelow, JoinParts, Join, Split;
      ghost var applied := Applied(INITIAL_MACROS, []);
      var state := (INITIAL_MACROS, map[]);
      state :- Apply(Source(systemAttrs, path), state.0, state.1, applied);
      applied := ApplyFile(library, casefold, Source(systemAttrs, path), applied).value;
      state :- Apply(Source(globalAttrs, path), state.0, state.1, applied);
      applied := ApplyFile(library, casefold, Source(globalAttrs, path), applied).value;
      ghost var global := applied;
      AppliedBelowStart(path, global);
      var parts := Split(path);
      for depth := 0 to |parts|
        invariant Valid()
        invariant AppliedBelow(path, depth, global) == Success(applied)
        invariant state == (applied.macros, AssignAll(map[], applied.trace))
      {
        AppliedBelowStep(path, depth, global);
        var body := Body(Join(JoinParts(parts[..depth]), GIT_ATTRIBUTES));
        if body.Failure? {
          AppliedBelowRefuses(path, depth + 1, |parts|, global);
          return Failure(body.error);
        }
        var source := Source(body.value, JoinParts(parts[depth..]));
        var next := Apply(source, state.0, state.1, applied);
        if next.Failure? {
          AppliedBelowRefuses(path, depth + 1, |parts|, global);
          return Failure(next.error);
        }
        state := next.value;
        applied := ApplyFile(library, casefold, source, applied).value;
      }
      state :- Apply(Source(infoAttrs, path), state.0, state.1, applied);
      return Success(state.1);
    }

    function Query(path: Path, directory: bool): Path { path + (if directory then [SLASH] else []) }

    /** What the global ignore files say, in order. */
    function GlobalOpinions(path: Path, directory: bool): seq<Option<bool>> {
      seq(|globalIgnore|, i requires 0 <= i < |globalIgnore| =>
        library.ignores(globalIgnore[i], casefold, Query(path, directory)))
    }

    /** What the ignore file of one directory says; an absent file says nothing. */
    function LocalOpinion(path: Path, directory: bool, depth: nat): Result<Option<bool>, RulesRefusal>
      requires depth < |Split(path)|
    {
      var parts := Split(path);
      var body :- BodyOf(Join(JoinParts(parts[..depth]), GIT_IGNORE));
      Success(if body.None? then None
              else library.ignores(body.value, casefold, Query(JoinParts(parts[depth..]), directory)))
    }

    /** What the ignore files of the first directories of a path say. */
    function LocalOpinions(path: Path, directory: bool, depth: nat): Result<seq<Option<bool>>, RulesRefusal>
      requires depth <= |Split(path)|
    {
      if depth == 0 then Success([])
      else
        var front :- LocalOpinions(path, directory, depth - 1);
        var last :- LocalOpinion(path, directory, depth - 1);
        Success(front + [last])
    }

    /** The body of the loop over the directories. */
    method IgnoreFileOpinion(path: Path, directory: bool, depth: nat) returns (r: Result<Option<bool>, RulesRefusal>)
      requires Valid() && depth < |Split(path)|
      modifies this
      ensures Valid() && r == LocalOpinion(path, directory, depth)
    {
      var parts := Split(path);
      var body :- Body(Join(JoinParts(parts[..depth]), GIT_IGNORE));
      if body.None? {
        return Success(None);
      }
      return Success(library.ignores(body.value, casefold, Query(JoinParts(parts[depth..]), directory)));
    }

    /** The loop over the global ignore files. */
    method GlobalOpinion(path: Path, directory: bool) returns (matched: Option<bool>)
      ensures matched == LastOpinion(GlobalOpinions(path, directory))
    {
      var query := Query(path, directory);
      matched := None;
      ghost var global := GlobalOpinions(path, directory);
      for i := 0 to |globalIgnore|
        invariant matched == LastOpinion(global[..i])
      {
        var value := library.ignores(globalIgnore[i], casefold, query);
        LastOpinionStep(global[..i], value);
        assert global[..i + 1] == global[..i] + [value];
        if value.Some? {
          matched := value;
        }
      }
      assert global[..|globalIgnore|] == global;
    }

    lemma LocalOpinionsStep(path: Path, directory: bool, depth: nat)
      requires depth < |Split(path)| && LocalOpinions(path, directory, depth).Success?
      ensures LocalOpinions(path, directory, depth + 1) ==
              match LocalOpinion(path, directory, depth)
              case Success(last) => Success(LocalOpinions(path, directory, depth).value + [last])
              case Failure(reason) => Failure(reason)
    {
      hide RepositoryRules.LocalOpinion, Split;
    }

    /** `ignored`: the last opinion decides, so a deeper ignore file overrules those above it. */
    method Ignored(path: Path, directory: bool) returns (r: Result<bool, RulesRefusal>)
      requires Valid()
      modifies this
      ensures Valid()
      ensures match LocalOpinions(path, directory, |Split(path)|)
              case Success(local) => r == Success(LastOpinion(GlobalOpinions(path, directory) + local) == Some(true))
              case Failure(reason) => r == Failure(reason)
    {
      var matched := GlobalOpinion(path, directory);
      ghost var global := GlobalOpinions(path, directory);
      ghost var local: seq<Option<bool>> := [];
      assert global + local == global;
      var parts := Split(path);
      assert LocalOpinions(path, directory, 0) == Success(local);
      hide LastOpinion, RepositoryRules.GlobalOpinions, RepositoryRules.LocalOpinion, RepositoryRules.LocalOpinions, Split;
      for depth := 0 to |parts|
        invariant Valid()
        invariant LocalOpinions(path, directory, depth) == Success(local)
        invariant matched == LastOpinion(global + local)
      {
        LocalOpinionsStep(path, directory, depth);
        var value := IgnoreFileOpinion(path, directory, depth);
        if value.Failure? {
          LocalOpinionsRefuse(path, directory, depth + 1, |parts|);
          return Failure(value.error);
        }
        if value.value.Some? {
          matched := value.value;
        }
        LastOpinionStep(global + local, value.value);
        assert global + local + [value.value] == global + (local + [value.value]);
        local := local + [value.value];
      }
      return Success(matched == Some(true));
    }

    lemma RefusalStays(path: Path, directory: bool, depth: nat)
      requires depth < |Split(path)| && LocalOpinions(path, directory, depth).Failure?
      ensures LocalOpinions(path, directory, depth + 1) == LocalOpinions(path, directory, depth)
    {
      hide RepositoryRules.LocalOpinion, Split;
    }

    lemma {:induction false} LocalOpinionsRefuse(path: Path, directory: bool, depth: nat, end: nat)
      requires depth <= end <= |Split(path)| && LocalOpinions(path, directory, depth).Failure?
      ensures LocalOpinions(path, directory, end) == LocalOpinions(path, directory, depth)
    {
      hide *;
      if depth < end {
        LocalOpinionsRefuse(path, directory, depth, end - 1);
        RefusalStays(path, directory, end - 1);
      }
    }

    lemma AppliedRefusalStays(path: Path, depth: nat, before: Applied)
      requires depth < |Split(path)| && AppliedBelow(path, depth, before).Failure?
      ensures AppliedBelow(path, depth + 1, before) == AppliedBelow(path, depth, before)
    {
      hide RepositoryRules.AppliedAt, Split;
    }

    lemma {:induction false} AppliedBelowRefuses(path: Path, depth: nat, end: nat, before: Applied)
      requires depth <= end <= |Split(path)| && AppliedBelow(path, depth, before).Failure?
      ensures AppliedBelow(path, end, before) == AppliedBelow(path, depth, before)
    {
      hide *;
      if depth < end {
        AppliedBelowRefuses(path, depth, end - 1, before);
        AppliedRefusalStays(path, end - 1, before);
      }
    }
  }

  lemma ApplyFilesLast(library: Library, casefold: bool, front: seq<Source>, last: Source, before: Applied)
    ensures ApplyFiles(library, casefold, front + [last], before) ==
            match ApplyFiles(library, casefold, front, before)
            case Success(applied) => ApplyFile(library, casefold, last, applied)
            case Failure(reason) => Failure(reason)
  {
    assert (front + [last])[..|front|] == front;
  }

  lemma AppliedBelowStep(rules: RepositoryRules, path: Path, depth: nat, before: Applied)
    requires depth < |Split(path)| && rules.AppliedBelow(path, depth + 1, before).Success?
    ensures rules.AppliedBelow(path, depth, before).Success? && rules.SourceAt(path, depth).Success?
    ensures rules.AppliedBelow(path, depth + 1, before)
            == ApplyFile(rules.library, rules.casefold, rules.SourceAt(path, depth).value,
                         rules.AppliedBelow(path, depth, before).value)
  {
    hide ApplyFile, RepositoryRules.SourceAt, Split;
  }

  lemma NoDirectories(rules: RepositoryRules, path: Path, before: Applied)
    ensures ApplyFiles(rules.library, rules.casefold, [], before) == rules.AppliedBelow(path, 0, before)
  {
    hide Split;
  }

  lemma SourcesAppend(rules: RepositoryRules, path: Path, front: seq<Source>, last: Source)
    requires |front| < |Split(path)| && rules.SourceAt(path, |front|) == Success(last)
    requires forall d :: 0 <= d < |front| ==> rules.SourceAt(path, d) == Success(front[d])
    ensures forall d :: 0 <= d < |front| + 1 ==> rules.SourceAt(path, d) == Success((front + [last])[d])
  {
    hide RepositoryRules.SourceAt, Split;
  }

  lemma {:induction false} DirectoriesInOrder(rules: RepositoryRules, path: Path, depth: nat, before: Applied) returns (sources: seq<Source>)
    requires depth <= |Split(path)| && rules.AppliedBelow(path, depth, before).Success?
    ensures |sources| == depth
    ensures forall d :: 0 <= d < depth ==> rules.SourceAt(path, d) == Success(sources[d])
    ensures ApplyFiles(rules.library, rules.casefold, sources, before) == rules.AppliedBelow(path, depth, before)
    decreases depth
  {
    hide *;
    if depth == 0 {
      sources := [];
      NoDirectories(rules, path, before);
    } else {
      AppliedBelowStep(rules, path, depth - 1, before);
      var last := rules.SourceAt(path, depth - 1).value;
      var front := DirectoriesInOrder(rules, path, depth - 1, before);
      sources := front + [last];
      SourcesAppend(rules, path, front, last);
      ApplyFilesLast(rules.library, rules.casefold, front, last, before);
    }
  }

  lemma {:induction false} ApplyFilesConcat(
    library: Library, casefold: bool, a: seq<Source>, b: seq<Source>, before: Applied)
    requires ApplyFiles(library, casefold, a, before).Success?
    ensures ApplyFiles(library, casefold, a + b, before)
            == ApplyFiles(library, casefold, b, ApplyFiles(library, casefold, a, before).value)
    decreases |b|
  {
    if b == [] {
      assert a + b == a;
    } else {
      assert (a + b)[..|a + b| - 1] == a + b[..|b| - 1];
      ApplyFilesConcat(library, casefold, a, b[..|b| - 1], before);
    }
  }

  lemma ApplyOne(library: Library, casefold: bool, source: Source, before: Applied)
    ensures ApplyFiles(library, casefold, [source], before) == ApplyFile(library, casefold, source, before)
  {
    assert [source][..0] == [];
  }

  /** The files are applied from the system file over the directories down to the repository's own file. */
  lemma FilesInOrder(rules: RepositoryRules, path: Path) returns (sources: seq<Source>)
    requires rules.AppliedTo(path).Success?
    ensures |sources| == |Split(path)| + 3
    ensures sources[0] == Source(rules.systemAttrs, path) && sources[1] == Source(rules.globalAttrs, path)
    ensures forall d :: 0 <= d < |Split(path)| ==> rules.SourceAt(path, d) == Success(sources[d + 2])
    ensures sources[|Split(path)| + 2] == Source(rules.infoAttrs, path)
    ensures ApplyFiles(rules.library, rules.casefold, sources, Applied(INITIAL_MACROS, [])) == rules.AppliedTo(path)
  {
    var l, c, start := rules.library, rules.casefold, Applied(INITIAL_MACROS, []);
    var system, global, info := Source(rules.systemAttrs, path), Source(rules.globalAttrs, path), Source(rules.infoAttrs, path);
    var s1 := ApplyFile(l, c, system, start).value;
    var s2 := ApplyFile(l, c, global, s1).value;
    var directories := DirectoriesInOrder(rules, path, |Split(path)|, s2);
    sources := [system] + [global] + directories + [info];
    hide ApplyFile, ApplyFiles;
    ApplyOne(l, c, system, start);
    ApplyOne(l, c, global, s1);
    ApplyFilesConcat(l, c, [system], [global], start);
    ApplyFilesConcat(l, c, [system] + [global], directories, start);
    ApplyFilesConcat(l, c, [system] + [global] + directories, [info], start);
    ApplyOne(l, c, info, rules.AppliedBelow(path, |Split(path)|, s2).value);
  }

  /** Over several files, the last one that assigns a name decides it. */
  lemma LastFileDecides(
    library: Library, casefold: bool, sources: seq<Source>, k: nat, name: EndOfLine.Name, before: Applied)
    requires k < |sources|
    requires ApplyFiles(library, casefold, sources, before).Success?
    ensures ApplyFiles(library, casefold, sources[..k], before).Success?
    ensures ApplyFiles(library, casefold, sources[..k + 1], before).Success?
    ensures var done := ApplyFiles(library, casefold, sources[..k], before).value;
            var after := ApplyFiles(library, casefold, sources[..k + 1], before).value;
            var all := ApplyFiles(library, casefold, sources, before).value;
            && |done.trace| <= |after.trace| <= |all.trace|
            && (LastAssigned(after.trace[|done.trace|..], name).Some?
                && LastAssigned(all.trace[|after.trace|..], name).None? ==>
                  LastAssigned(all.trace, name) == LastAssigned(after.trace[|done.trace|..], name))
  {
    TraceGrows(library, casefold, sources, k, before);
    TraceGrows(library, casefold, sources, k + 1, before);
    assert sources[..k + 1][..k] == sources[..k];
    TraceGrows(library, casefold, sources[..k + 1], k, before);
    var done := ApplyFiles(library, casefold, sources[..k], before).value.trace;
    var after := ApplyFiles(library, casefold, sources[..k + 1], before).value.trace;
    var all := ApplyFiles(library, casefold, sources, before).value.trace;
    hide ApplyFiles;
    assert all == after + all[|after|..];
    assert after == done + after[|done|..];
    LastAssignedConcat(after, all[|after|..], name);
    LastAssignedConcat(done, after[|done|..], name);
  }

  lemma {:induction false} TraceGrows(library: Library, casefold: bool, sources: seq<Source>, k: nat, before: Applied)
    requires k <= |sources| && ApplyFiles(library, casefold, sources, before).Success?
    ensures ApplyFiles(library, casefold, sources[..k], before).Success?
    ensures ApplyFiles(library, casefold, sources[..k], before).value.trace <= ApplyFiles(library, casefold, sources, before).value.trace
    decreases |sources|
  {
    if k == |sources| {
      assert sources[..k] == sources;
    } else {
      var front := sources[..|sources| - 1];
      assert front[..k] == sources[..k];
      TraceGrows(library, casefold, front, k, before);
    }
  }

  lemma {:induction false} LastAssignedConcat(a: seq<Assignment>, b: seq<Assignment>, name: EndOfLine.Name)
    ensures LastAssigned(a + b, name) == if LastAssigned(b, name).Some? then LastAssigned(b, name) else LastAssigned(a, name)
    decreases |b|
  {
    if b == [] {
      assert a + b == a;
    } else {
      assert (a + b)[..|a + b| - 1] == a + b[..|b| - 1];
      LastAssignedConcat(a, b[..|b| - 1], name);
    }
  }

  /** The assignments that one of several files makes. */
  ghost function OwnAssignments(library: Library, casefold: bool, sources: seq<Source>, k: nat, before: Applied)
    : seq<Assignment>
    requires k < |sources| && ApplyFiles(library, casefold, sources, before).Success?
  {
    LastFileDecides(library, casefold, sources, k, [], before);
    ApplyFiles(library, casefold, sources[..k + 1], before).value.trace[
      |ApplyFiles(library, casefold, sources[..k], before).value.trace|..]
  }

  /** What the files from one position on assign to a name. */
  ghost function LastFrom(library: Library, casefold: bool, sources: seq<Source>, k: nat, name: EndOfLine.Name, before: Applied)
    : Option<Value>
    requires k <= |sources| && ApplyFiles(library, casefold, sources, before).Success?
    decreases |sources| - k
  {
    if k == |sources| then None
    else
      var later := LastFrom(library, casefold, sources, k + 1, name, before);
      if later.Some? then later else LastAssigned(OwnAssignments(library, casefold, sources, k, before), name)
  }

  lemma {:induction false} LastFromTrace(
    library: Library, casefold: bool, sources: seq<Source>, k: nat, name: EndOfLine.Name, before: Applied)
    requires k <= |sources| && ApplyFiles(library, casefold, sources, before).Success?
    ensures ApplyFiles(library, casefold, sources[..k], before).Success?
    ensures var all := ApplyFiles(library, casefold, sources, before).value.trace;
            var done := ApplyFiles(library, casefold, sources[..k], before).value.trace;
            done <= all && LastAssigned(all[|done|..], name) == LastFrom(library, casefold, sources, k, name, before)
    decreases |sources| - k
  {
    TraceGrows(library, casefold, sources, k, before);
    if k == |sources| {
      assert sources[..k] == sources;
    } else {
      var all := ApplyFiles(library, casefold, sources, before).value.trace;
      var done := ApplyFiles(library, casefold, sources[..k], before).value.trace;
      LastFromTrace(library, casefold, sources, k + 1, name, before);
      TraceGrows(library, casefold, sources, k + 1, before);
      TraceGrows(library, casefold, sources[..k + 1], k, before);
      assert sources[..k + 1][..k] == sources[..k];
      var after := ApplyFiles(library, casefold, sources[..k + 1], before).value.trace;
      hide ApplyFiles, LastAssigned;
      assert all[|done|..] == after[|done|..] + all[|after|..];
      LastAssignedConcat(after[|done|..], all[|after|..], name);
    }
  }

  /**
   * The dictionary that `attributes` returns: a name has the value that the last file assigning it, in the order system,
   * global, directories from the root down, repository, assigns it last; a name that no file assigns is missing.
   */
  lemma DictionaryByFiles(rules: RepositoryRules, path: Path, name: EndOfLine.Name) returns (sources: seq<Source>)
    requires rules.AppliedTo(path).Success?
    ensures |sources| == |Split(path)| + 3
    ensures sources[0] == Source(rules.systemAttrs, path) && sources[1] == Source(rules.globalAttrs, path)
    ensures forall d :: 0 <= d < |Split(path)| ==> rules.SourceAt(path, d) == Success(sources[d + 2])
    ensures sources[|Split(path)| + 2] == Source(rules.infoAttrs, path)
    ensures var start := Applied(INITIAL_MACROS, []);
            ApplyFiles(rules.library, rules.casefold, sources, start) == rules.AppliedTo(path)
    ensures var start := Applied(INITIAL_MACROS, []);
            match LastFrom(rules.library, rules.casefold, sources, 0, name, start)
            case Some(value) =>
              var attrs := AssignAll(map[], rules.AppliedTo(path).value.trace); name in attrs && attrs[name] == value
            case None => name !in AssignAll(map[], rules.AppliedTo(path).value.trace)
  {
    hide *;
    var start := Applied(INITIAL_MACROS, []);
    sources := FilesInOrder(rules, path);
    LastFromTrace(rules.library, rules.casefold, sources, 0, name, start);
    NothingApplied(rules.library, rules.casefold, sources, start);
    var trace := rules.AppliedTo(path).value.trace;
    assert trace[0..] == trace;
    LastAssignmentWins(map[], trace, name);
  }

  lemma NothingApplied(library: Library, casefold: bool, sources: seq<Source>, before: Applied)
    ensures ApplyFiles(library, casefold, sources[..0], before) == Success(before)
  {
  }
}
