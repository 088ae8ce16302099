/** Reading a Git configuration file with the files it includes, refusing whatever cannot be followed exactly. */
module ConfigIncludes {
  import opened Wrappers
  import opened Strings
  import opened ActiveSets

  /** The library's limit on nested includes. */
  const MAX_INCLUDES: nat := 10

  datatype Setting = Setting(key: string, value: string)

  /** A line that matters: a setting, or the path of an `include`, or of an `includeIf` with its condition. */
  datatype Directive = Set(setting: Setting) | Include(path: string) | IncludeIf(condition: string, path: string)

  /** What can be opened at a canonical path. */
  datatype File = Missing | Unreadable | Malformed | Parsed(directives: seq<Directive>)

  /** The file system and the state of the repository, as the reader sees them. */
  datatype Surroundings = Surroundings(
    files: string -> File,
    resolve: (string, string) -> string,         // an include path, seen from a file, made canonical
    gitdir: (string, string, bool) -> bool,      // a pattern, the file that has it, and whether case counts
    onBranch: (string, string) -> bool)

  datatype Reason =
    | PrefixInclude
    | UnsupportedCondition
    | RecursiveInclude
    | UnreadableInclude
    | MalformedFile
    | NoSuchFile

  const PREFIX := "%(prefix)"
  const HAS_CONFIG := "hasconfig:"
  const GIT_DIR_ANY_CASE := "gitdir/i:"
  const GIT_DIR := "gitdir:"
  const ON_BRANCH := "onbranch:"

  /** Whether a conditional include applies. */
  function Applies(env: Surroundings, file: string, condition: string): Result<bool, Reason> {
    if Contains(condition, PREFIX) then Failure(PrefixInclude)
    else if HAS_CONFIG <= condition then Failure(UnsupportedCondition)
    else if GIT_DIR_ANY_CASE <= condition then Success(env.gitdir(condition[|GIT_DIR_ANY_CASE|..], file, true))
    else if GIT_DIR <= condition then Success(env.gitdir(condition[|GIT_DIR|..], file, false))
    else if ON_BRANCH <= condition then Success(env.onBranch(condition, file))
    else Failure(UnsupportedCondition)
  }

  /** The file a directive includes, if it includes one. */
  function Target(env: Surroundings, file: string, d: Directive): Result<Option<string>, Reason>
    requires !d.Set?
  {
    if PREFIX <= d.path then Failure(PrefixInclude)
    else
      var applies :- if d.IncludeIf? then Applies(env, file, d.condition) else Success(true);
      Success(if applies then Some(env.resolve(d.path, file)) else None)
  }

  /** The settings of the first directives of a file, those of an included file in the place of the directive. */
  ghost function Settings(env: Surroundings, file: string, directives: seq<Directive>, active: set<string>)
    : Result<seq<Setting>, Reason>
    requires |active| <= MAX_INCLUDES + 1
    decreases MAX_INCLUDES + 1 - |active|, |directives|, 1
  {
    if directives == [] then Success([])
    else
      var front :- Settings(env, file, directives[..|directives| - 1], active);
      var last :- SettingsOf(env, file, directives[|directives| - 1], active);
      Success(front + last)
  }

  ghost function SettingsOf(env: Surroundings, file: string, d: Directive, active: set<string>): Result<seq<Setting>, Reason>
    requires |active| <= MAX_INCLUDES + 1
    decreases MAX_INCLUDES + 1 - |active|, 0, 1
  {
    if d.Set? then Success([d.setting])
    else
      var target :- Target(env, file, d);
      if target.None? then Success([]) else Included(env, target.value, active)
  }

  /** The settings of an included file; a missing file has none. */
  ghost function Included(env: Surroundings, canonical: string, active: set<string>): Result<seq<Setting>, Reason>
    requires |active| <= MAX_INCLUDES + 1
    decreases MAX_INCLUDES + 1 - |active|, 0, 0
  {
    if canonical in active || |active| > MAX_INCLUDES then Failure(RecursiveInclude)
    else
      match env.files(canonical)
      case Missing => Success([])
      case Unreadable => Failure(UnreadableInclude)
      case Malformed => Failure(MalformedFile)
      case Parsed(directives) => Settings(env, canonical, directives, active + {canonical})
  }

  /** `_strict_config`: the outermost file must exist. */
  ghost function Configuration(env: Surroundings, canonical: string): Result<seq<Setting>, Reason> {
    match env.files(canonical)
    case Missing => Failure(NoSuchFile)
    case Unreadable => Failure(UnreadableInclude)
    case Malformed => Failure(MalformedFile)
    case Parsed(directives) => Settings(env, canonical, directives, {canonical})
  }

  lemma SettingsStep(env: Surroundings, file: string, directives: seq<Directive>, active: set<string>, i: nat)
    requires |active| <= MAX_INCLUDES + 1 && i < |directives|
    ensures Settings(env, file, directives[..i + 1], active) ==
            match Settings(env, file, directives[..i], active)
            case Failure(reason) => Failure(reason)
            case Success(front) =>
              match SettingsOf(env, file, directives[i], active)
              case Failure(reason) => Failure(reason)
              case Success(last) => Success(front + last)
  {
    assert directives[..i + 1][..i] == directives[..i];
    hide SettingsOf;
  }

  lemma {:induction false} SettingsRefuse(
    env: Surroundings, file: string, directives: seq<Directive>, active: set<string>, i: nat)
    requires |active| <= MAX_INCLUDES + 1 && i <= |directives|
    requires Settings(env, file, directives[..i], active).Failure?
    ensures Settings(env, file, directives, active) == Settings(env, file, directives[..i], active)
    decreases |directives| - i
  {
    if i == |directives| {
      assert directives[..i] == directives;
    } else {
      SettingsStep(env, file, directives, active, i);
      SettingsRefuse(env, file, directives, active, i + 1);
    }
    hide Settings, SettingsOf;
  }

  // ---------------------------------------------------------------- reading, step by step

  /** Reads the directives of a file.  Whatever the outcome, `active` is left as it was found. */
  method ReadDirectives(env: Surroundings, file: string, directives: seq<Directive>, active: ActiveSet)
    returns (r: Result<seq<Setting>, Reason>)
    requires active.Valid() && |active.members| <= MAX_INCLUDES + 1
    modifies active
    ensures active.Valid() && active.members == old(active.members) && active.stack == old(active.stack)
    ensures r == Settings(env, file, directives, old(active.members))
    decreases MAX_INCLUDES + 1 - |active.members|, 2
  {
    var settings: seq<Setting> := [];
    ghost var inside := active.members;
    assert Settings(env, file, directives[..0], inside) == Success(settings);
    hide Settings, SettingsOf, ActiveSet.Valid;
    for i := 0 to |directives|
      invariant active.Valid() && active.members == inside && active.stack == old(active.stack)
      invariant Settings(env, file, directives[..i], inside) == Success(settings)
    {
      SettingsStep(env, file, directives, inside, i);
      var next := ReadDirective(env, file, directives[i], active);
      if next.Failure? {
        SettingsRefuse(env, file, directives, inside, i + 1);
        return next;
      }
      settings := settings + next.value;
    }
    assert directives[..|directives|] == directives;
    return Success(settings);
  }

  /** `_process_include`, or a plain setting. */
  method ReadDirective(env: Surroundings, file: string, d: Directive, active: ActiveSet)
    returns (r: Result<seq<Setting>, Reason>)
    requires active.Valid() && |active.members| <= MAX_INCLUDES + 1
    modifies active
    ensures active.Valid() && active.members == old(active.members) && active.stack == old(active.stack)
    ensures r == SettingsOf(env, file, d, old(active.members))
    decreases MAX_INCLUDES + 1 - |active.members|, 1
  {
    if d.Set? {
      return Success([d.setting]);
    }
    hide Settings, ActiveSet.Valid;
    var target :- Target(env, file, d);
    if target.None? {
      return Success([]);
    }
    r := ReadInclude(env, target.value, active);
  }

  method ReadInclude(env: Surroundings, canonical: string, active: ActiveSet) returns (r: Result<seq<Setting>, Reason>)
    requires active.Valid() && |active.members| <= MAX_INCLUDES + 1
    modifies active
    ensures active.Valid() && active.members == old(active.members) && active.stack == old(active.stack)
    ensures r == Included(env, canonical, old(active.members))
    decreases MAX_INCLUDES + 1 - |active.members|, 0
  {
    var entered := active.Enter(canonical, MAX_INCLUDES + 1);
    if !entered {
      return Failure(RecursiveInclude);
    }
    hide Settings;
    match env.files(canonical) {
      case Missing => r := Success([]);
      case Unreadable => r := Failure(UnreadableInclude);
      case Malformed => r := Failure(MalformedFile);
      case Parsed(directives) => r := ReadDirectives(env, canonical, directives, active);
    }
    active.Leave(canonical);
  }

  method StrictConfig(env: Surroundings, canonical: string) returns (r: Result<seq<Setting>, Reason>)
    ensures r == Configuration(env, canonical)
  {
    match env.files(canonical) {
      case Missing => return Failure(NoSuchFile);
      case Unreadable => return Failure(UnreadableInclude);
      case Malformed => return Failure(MalformedFile);
      case Parsed(directives) =>
        var active := new ActiveSet();
        var entered := active.Enter(canonical);
        hide Settings;
        r := ReadDirectives(env, canonical, directives, active);
    }
  }

  // ---------------------------------------------------------------- how deep includes go

  /** The file `outer` includes the file `inner`, which can be read. */
  ghost predicate Includes(env: Surroundings, outer: string, inner: string) {
    && env.files(outer).Parsed? && env.files(inner).Parsed?
    && exists d :: d in env.files(outer).directives && !d.Set? && Target(env, outer, d) == Success(Some(inner))
  }

  lemma {:induction false} IncludedIsRead(
    env: Surroundings, file: string, directives: seq<Directive>, active: set<string>, i: nat, inner: string)
    requires |active| <= MAX_INCLUDES + 1 && Settings(env, file, directives, active).Success?
    requires i < |directives| && !directives[i].Set? && Target(env, file, directives[i]) == Success(Some(inner))
    ensures Included(env, inner, active).Success?
    decreases |directives|
  {
    var n := |directives| - 1;
    hide Target, Included;
    if i < n {
      assert directives[..n][i] == directives[i];
      IncludedIsRead(env, file, directives[..n], active, i, inner);
    } else {
      assert SettingsOf(env, file, directives[n], active).Success?;
    }
  }

  ghost predicate Chain(env: Surroundings, chain: seq<string>) {
    chain != [] && forall i :: 0 <= i < |chain| - 1 ==> Includes(env, chain[i], chain[i + 1])
  }

  lemma RestOfChain(env: Surroundings, chain: seq<string>)
    requires Chain(env, chain) && |chain| > 1
    ensures Chain(env, chain[1..])
  {
    forall i | 0 <= i < |chain| - 2
      ensures Includes(env, chain[1..][i], chain[1..][i + 1])
    {
      assert Includes(env, chain[i + 1], chain[i + 2]);
    }
  }

  /** A configuration that can be read has no cycle of includes, and none deeper than the limit. */
  lemma {:induction false} IncludesAreBounded(env: Surroundings, chain: seq<string>, active: set<string>)
    requires |active| <= MAX_INCLUDES + 1
    requires Chain(env, chain) && env.files(chain[0]).Parsed? && Included(env, chain[0], active).Success?
    ensures |active| + |chain| <= MAX_INCLUDES + 1
    ensures forall i :: 0 <= i < |chain| ==> chain[i] !in active
    ensures forall i, j :: 0 <= i < j < |chain| ==> chain[i] != chain[j]
    decreases |chain|
  {
    if |chain| > 1 {
      var outer, rest := chain[0], chain[1..];
      var directives := env.files(outer).directives;
      assert Includes(env, chain[0], chain[1]);
      var d :| d in directives && !d.Set? && Target(env, outer, d) == Success(Some(chain[1]));
      var i :| 0 <= i < |directives| && directives[i] == d;
      IncludedIsRead(env, outer, directives, active + {outer}, i, chain[1]);
      RestOfChain(env, chain);
      hide Settings, Included, Includes, Target;
      IncludesAreBounded(env, rest, active + {outer});
      assert forall k :: 0 < k < |chain| ==> chain[k] == rest[k - 1];
    }
  }

  lemma OutermostIncluded(env: Surroundings, canonical: string)
    requires env.files(canonical).Parsed?
    ensures Included(env, canonical, {}) == Configuration(env, canonical)
  {
    assert {} + {canonical} == {canonical};
    hide Settings;
  }

  /** `_strict_config`: a file that can be read starts no cycle of includes, and none nested deeper than ten. */
  lemma ConfigurationIsBounded(env: Surroundings, canonical: string, chain: seq<string>)
    requires Configuration(env, canonical).Success?
    requires Chain(env, chain) && chain[0] == canonical
    ensures |chain| <= MAX_INCLUDES + 1
    ensures forall i, j :: 0 <= i < j < |chain| ==> chain[i] != chain[j]
  {
    assert env.files(canonical).Parsed?;
    OutermostIncluded(env, canonical);
    hide *;
    IncludesAreBounded(env, chain, {});
  }
}
