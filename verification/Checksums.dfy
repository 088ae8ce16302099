/** The sha256sum tables that a release signs: how they are written, and how a consumer reads them. */
module Checksums {
  import opened Wrappers
  import opened Strings

  datatype Subject = Subject(name: string, digest: string)

  datatype Reason = NamedTwice | MalformedTable | DuplicateFilename | EmptyTable

  const DIGEST_LENGTH: nat := 64

  predicate LowerHex(c: char) { '0' <= c <= '9' || 'a' <= c <= 'f' }

  predicate IsDigest(s: string) { |s| == DIGEST_LENGTH && forall i :: 0 <= i < |s| ==> LowerHex(s[i]) }

  predicate IsName(s: string) { |s| > 0 && forall i :: 0 <= i < |s| ==> NameChar(s[i]) }

  // ---------------------------------------------------------------- writing

  function Line(s: Subject): string { s.digest + "  " + s.name }

  function Print(subjects: seq<Subject>): string {
    if subjects == [] then [] else Line(subjects[0]) + ['\n'] + Print(subjects[1..])
  }

  predicate DistinctNames(subjects: seq<Subject>) {
    forall i, j :: 0 <= i < j < |subjects| ==> subjects[i].name != subjects[j].name
  }

  /** `names.count(name)`. */
  function Count(subjects: seq<Subject>, name: string): nat {
    if subjects == [] then 0 else (if subjects[0].name == name then 1 else 0) + Count(subjects[1..], name)
  }

  lemma {:induction false} CountMeaning(subjects: seq<Subject>, name: string)
    ensures Count(subjects, name) > 0 <==> exists i :: 0 <= i < |subjects| && subjects[i].name == name
  {
    if subjects != [] {
      CountMeaning(subjects[1..], name);
      assert forall i :: 1 <= i < |subjects| ==> subjects[i] == subjects[1..][i - 1];
    }
  }

  lemma {:induction false} CountTwice(subjects: seq<Subject>)
    ensures DistinctNames(subjects) <==> forall i :: 0 <= i < |subjects| ==> Count(subjects, subjects[i].name) <= 1
  {
    if subjects != [] {
      var rest := subjects[1..];
      CountTwice(rest);
      CountMeaning(rest, subjects[0].name);
      assert forall i :: 1 <= i < |subjects| ==> subjects[i] == rest[i - 1];
      if DistinctNames(subjects) {
        assert DistinctNames(rest);
      }
    }
  }

  /** `write_provenance_subjects`. */
  method WriteSubjects(subjects: seq<Subject>) returns (r: Result<string, Reason>)
    ensures r == if DistinctNames(subjects) then Success(Print(subjects)) else Failure(NamedTwice)
  {
    CountTwice(subjects);
    hide DistinctNames;
    for i := 0 to |subjects|
      invariant forall k :: 0 <= k < i ==> Count(subjects, subjects[k].name) <= 1
    {
      if Count(subjects, subjects[i].name) > 1 {
        return Failure(NamedTwice);
      }
    }
    return Success(Print(subjects));
  }

  // ---------------------------------------------------------------- reading

  /** The line boundaries of `str.splitlines`. */
  predicate Breaks(c: char) {
    '\n' <= c <= '\r' || '\U{1c}' <= c <= '\U{1e}' || c == '\U{85}' || c == '\U{2028}' || c == '\U{2029}'
  }

  function LineEnd(s: string): (end: nat)
    ensures end <= |s| && (end < |s| ==> Breaks(s[end])) && forall i :: 0 <= i < end ==> !Breaks(s[i])
  {
    if s == [] || Breaks(s[0]) then 0 else 1 + LineEnd(s[1..])
  }

  /** `str.splitlines`. */
  function SplitLines(s: string): (lines: seq<string>)
    decreases |s|
  {
    if s == [] then []
    else
      var end := LineEnd(s);
      if end == |s| then [s]
      else
        var next := if s[end] == '\r' && end + 1 < |s| && s[end + 1] == '\n' then end + 2 else end + 1;
        [s[..end]] + SplitLines(s[next..])
  }

  /** `re.fullmatch(r"([0-9a-f]{64}) [ *]([A-Za-z0-9._-]+)", line)`. */
  function ParseLine(line: string): (s: Option<Subject>) {
    if |line| > DIGEST_LENGTH + 2 && IsDigest(line[..DIGEST_LENGTH]) && line[DIGEST_LENGTH] == ' '
       && (line[DIGEST_LENGTH + 1] == ' ' || line[DIGEST_LENGTH + 1] == '*') && IsName(line[DIGEST_LENGTH + 2..])
    then Some(Subject(line[DIGEST_LENGTH + 2..], line[..DIGEST_LENGTH]))
    else None
  }

  /** The entries of the lines read so far. */
  function Entries(lines: seq<string>): Result<map<string, string>, Reason> {
    if lines == [] then Success(map[])
    else
      var front :- Entries(lines[..|lines| - 1]);
      match ParseLine(lines[|lines| - 1])
      case None => Failure(MalformedTable)
      case Some(s) => if s.name in front then Failure(DuplicateFilename) else Success(front[s.name := s.digest])
  }

  function Table(body: string): Result<map<string, string>, Reason> {
    var entries :- Entries(SplitLines(body));
    if entries == map[] then Failure(EmptyTable) else Success(entries)
  }

  lemma EntriesStep(lines: seq<string>, i: nat)
    requires i < |lines|
    ensures Entries(lines[..i + 1]) ==
            match Entries(lines[..i])
            case Failure(reason) => Failure(reason)
            case Success(front) =>
              match ParseLine(lines[i])
              case None => Failure(MalformedTable)
              case Some(s) => if s.name in front then Failure(DuplicateFilename) else Success(front[s.name := s.digest])
  {
    assert lines[..i + 1][..i] == lines[..i];
    hide ParseLine;
  }

  lemma {:induction false} EntriesRefuse(lines: seq<string>, i: nat)
    requires i <= |lines| && Entries(lines[..i]).Failure?
    ensures Entries(lines) == Entries(lines[..i])
    decreases |lines| - i
  {
    if i == |lines| {
      assert lines[..i] == lines;
    } else {
      EntriesStep(lines, i);
      EntriesRefuse(lines, i + 1);
    }
    hide Entries, ParseLine;
  }

  /** `checksum_table`. */
  method ChecksumTable(body: string) returns (r: Result<map<string, string>, Reason>)
    ensures r == Table(body)
  {
    var lines := SplitLines(body);
    var result: map<string, string> := map[];
    assert Entries(lines[..0]) == Success(result);
    hide Entries, ParseLine, SplitLines;
    for i := 0 to |lines|
      invariant Entries(lines[..i]) == Success(result)
    {
      EntriesStep(lines, i);
      var parsed := ParseLine(lines[i]);
      if parsed.None? {
        EntriesRefuse(lines, i + 1);
        return Failure(MalformedTable);
      }
      if parsed.value.name in result {
        EntriesRefuse(lines, i + 1);
        return Failure(DuplicateFilename);
      }
      result := result[parsed.value.name := parsed.value.digest];
    }
    assert lines[..|lines|] == lines;
    if result == map[] {
      return Failure(EmptyTable);
    }
    return Success(result);
  }

  // ---------------------------------------------------------------- what is read

  /** The subjects of a table, by name; the last one for a name counts. */
  function ByName(subjects: seq<Subject>): (m: map<string, string>)
    ensures forall name :: name in m <==> exists i :: 0 <= i < |subjects| && subjects[i].name == name
  {
    if subjects == [] then map[]
    else
      var front, last := subjects[..|subjects| - 1], subjects[|subjects| - 1];
      assert subjects == front + [last];
      ByName(front)[last.name := last.digest]
  }

  /** The lines are those of some subjects. */
  predicate Shows(lines: seq<string>, subjects: seq<Subject>) {
    |lines| == |subjects| && forall i :: 0 <= i < |lines| ==> ParseLine(lines[i]) == Some(subjects[i])
  }

  lemma DistinctAppend(front: seq<Subject>, last: Subject)
    ensures DistinctNames(front + [last]) <==>
            DistinctNames(front) && !exists i :: 0 <= i < |front| && front[i].name == last.name
  {
    var all := front + [last];
    assert forall i :: 0 <= i < |front| ==> all[i] == front[i];
    assert all[|front|] == last;
    if DistinctNames(all) {
      assert forall i :: 0 <= i < |front| ==> all[i].name != all[|front|].name;
    }
  }

  /** Lines that all parse are accepted exactly when no name repeats, and give each name its digest. */
  lemma {:induction false} EntriesMeaning(lines: seq<string>, subjects: seq<Subject>)
    requires Shows(lines, subjects)
    ensures Entries(lines) == if DistinctNames(subjects) then Success(ByName(subjects)) else Failure(DuplicateFilename)
    decreases |lines|
  {
    if lines != [] {
      var n := |lines| - 1;
      var front, last := subjects[..n], subjects[n];
      assert subjects == front + [last];
      EntriesMeaning(lines[..n], front);
      DistinctAppend(front, last);
      EntriesStep(lines, n);
      assert lines[..n + 1] == lines;
      assert ByName(subjects) == ByName(front)[last.name := last.digest];
      hide Entries, ParseLine, DistinctNames, ByName;
    }
  }

  lemma {:induction false} UnreadableLineRefused(lines: seq<string>, i: nat)
    requires i < |lines| && ParseLine(lines[i]).None?
    ensures Entries(lines).Failure?
  {
    EntriesStep(lines, i);
    if Entries(lines[..i]).Failure? {
      EntriesRefuse(lines, i);
    } else {
      EntriesRefuse(lines, i + 1);
    }
    hide Entries, ParseLine;
  }

  function Read(lines: seq<string>): (subjects: seq<Subject>)
    requires forall i :: 0 <= i < |lines| ==> ParseLine(lines[i]).Some?
    ensures Shows(lines, subjects)
  {
    seq(|lines|, i requires 0 <= i < |lines| => ParseLine(lines[i]).value)
  }

  /** A table is accepted exactly when it has a line, every line has the right form, and no name repeats. */
  lemma AcceptedExactly(body: string)
    ensures var lines := SplitLines(body);
            Table(body).Success? <==>
            && lines != [] && (forall i :: 0 <= i < |lines| ==> ParseLine(lines[i]).Some?)
            && DistinctNames(Read(lines))
    ensures Table(body).Success? ==> Table(body).value == ByName(Read(SplitLines(body)))
  {
    var lines := SplitLines(body);
    hide SplitLines, ParseLine, DistinctNames;
    if i :| 0 <= i < |lines| && ParseLine(lines[i]).None? {
      UnreadableLineRefused(lines, i);
    } else {
      var subjects := Read(lines);
      EntriesMeaning(lines, subjects);
      if lines != [] {
        assert subjects[0].name in ByName(subjects);
      } else {
        assert ByName(subjects) == map[];
      }
      hide Entries, ByName;
    }
  }

  // ---------------------------------------------------------------- writing, then reading

  /** What the release names its files and digests. */
  predicate Safe(s: Subject) { IsDigest(s.digest) && IsName(s.name) }

  lemma LineParts(s: Subject)
    requires |s.digest| == DIGEST_LENGTH
    ensures var line := Line(s);
            && |line| == DIGEST_LENGTH + 2 + |s.name|
            && line[..DIGEST_LENGTH] == s.digest && line[DIGEST_LENGTH + 2..] == s.name
            && line[DIGEST_LENGTH] == ' ' && line[DIGEST_LENGTH + 1] == ' '
  {
  }

  lemma LineRoundTrip(s: Subject)
    requires Safe(s)
    ensures ParseLine(Line(s)) == Some(s)
  {
    LineParts(s);
    hide Line, IsDigest, IsName;
    assert |s.name| > 0 && |s.digest| == DIGEST_LENGTH by { SafeSizes(s); }
  }

  lemma SafeSizes(s: Subject)
    requires Safe(s)
    ensures |s.name| > 0 && |s.digest| == DIGEST_LENGTH
  {
  }

  predicate Unbroken(s: string) { forall i :: 0 <= i < |s| ==> !Breaks(s[i]) }

  lemma LineUnbroken(s: Subject)
    requires Safe(s)
    ensures Unbroken(Line(s)) && Line(s) != []
  {
    LineParts(s);
    var line := Line(s);
    forall i | 0 <= i < |line|
      ensures !Breaks(line[i])
    {
      if i < DIGEST_LENGTH {
        assert line[i] == s.digest[i];
      } else if i >= DIGEST_LENGTH + 2 {
        assert line[i] == s.name[i - DIGEST_LENGTH - 2];
      }
    }
  }

  lemma {:induction false} FirstBreak(line: string, rest: string)
    requires Unbroken(line)
    ensures LineEnd(line + ['\n'] + rest) == |line|
  {
    var s := line + ['\n'] + rest;
    assert s[|line|] == '\n';
    assert forall i :: 0 <= i < |line| ==> s[i] == line[i];
    hide LineEnd;
  }

  lemma SplitFirst(line: string, rest: string)
    requires Unbroken(line)
    ensures SplitLines(line + ['\n'] + rest) == [line] + SplitLines(rest)
  {
    var s := line + ['\n'] + rest;
    FirstBreak(line, rest);
    assert s[|line|] == '\n' && s[..|line|] == line && s[|line| + 1..] == rest;
    hide LineEnd, Breaks;
  }

  function LinesOf(subjects: seq<Subject>): (lines: seq<string>)
    ensures |lines| == |subjects| && forall i :: 0 <= i < |lines| ==> lines[i] == Line(subjects[i])
  {
    seq(|subjects|, i requires 0 <= i < |subjects| => Line(subjects[i]))
  }

  lemma {:induction false} PrintedLines(subjects: seq<Subject>)
    requires forall i :: 0 <= i < |subjects| ==> Safe(subjects[i])
    ensures SplitLines(Print(subjects)) == LinesOf(subjects)
  {
    if subjects == [] {
      assert LinesOf(subjects) == [];
    } else {
      hide *;
      PrintedLines(subjects[1..]);
      LineUnbroken(subjects[0]);
      SplitFirst(Line(subjects[0]), Print(subjects[1..]));
      FirstLine(subjects);
    }
  }

  lemma FirstLine(subjects: seq<Subject>)
    requires subjects != []
    ensures Print(subjects) == Line(subjects[0]) + ['\n'] + Print(subjects[1..])
    ensures LinesOf(subjects) == [Line(subjects[0])] + LinesOf(subjects[1..])
  {
    hide Line;
  }

  /**
   * The consumer reads back exactly the subjects the release wrote.  Both refuse a list of such subjects precisely
   * when a name repeats; the consumer also refuses the empty list.
   */
  lemma TableRoundTrip(subjects: seq<Subject>)
    requires forall i :: 0 <= i < |subjects| ==> Safe(subjects[i])
    ensures Table(Print(subjects)) ==
            if subjects == [] then Failure(EmptyTable)
            else if DistinctNames(subjects) then Success(ByName(subjects))
            else Failure(DuplicateFilename)
  {
    PrintedLines(subjects);
    var lines := LinesOf(subjects);
    forall i | 0 <= i < |subjects|
      ensures ParseLine(lines[i]) == Some(subjects[i])
    {
      LineRoundTrip(subjects[i]);
    }
    EntriesMeaning(lines, subjects);
    hide SplitLines, Print, ParseLine, Entries, Safe, Line;
    if subjects != [] {
      assert subjects[0].name in ByName(subjects);
    }
  }

  /** With distinct names, each name is read with the digest it was written with. */
  lemma {:induction false} DigestsKept(subjects: seq<Subject>, i: nat)
    requires DistinctNames(subjects) && i < |subjects|
    ensures subjects[i].name in ByName(subjects) && ByName(subjects)[subjects[i].name] == subjects[i].digest
    decreases |subjects|
  {
    if i < |subjects| - 1 {
      DigestsKept(subjects[..|subjects| - 1], i);
    }
  }
}
