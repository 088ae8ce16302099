/**
 * Watching a guest's serial output for a marker.  Each turn is one bounded read and one poll of the
 * process; the turns are those that begin before the deadline.
 */
module SerialScan {
  import opened Wrappers
  import opened Bytes
  import opened Strings

  const NEWLINE: Byte := 10

  /** What one turn reads (nothing when the read would block, no bytes at the end) and what the poll says. */
  datatype Turn = Turn(chunk: Option<seq<Byte>>, status: Option<int>) {
    predicate Finished() {
      chunk == Some([]) || (chunk.None? && status.Some?)
    }

    function Bytes(): seq<Byte> { if chunk.Some? then chunk.value else [] }
  }

  datatype Watch = Watch(decode: seq<Byte> -> string, ready: string, exact: bool, refusal: Option<string>) {
    predicate Refuses(line: seq<Byte>) {
      refusal.Some? && Contains(decode(line), refusal.value)
    }

    predicate Announces(line: seq<Byte>) {
      if exact then StripLineEnd(decode(line)) == ready else Contains(decode(line), ready)
    }
  }

  datatype Verdict = Ready | Refused(line: seq<Byte>) | Exited(status: int) | TimedOut(partial: seq<Byte>)

  /** `line.rstrip("\r\n")`. */
  function StripLineEnd(line: string): string {
    if line != [] && (line[|line| - 1] == '\r' || line[|line| - 1] == '\n') then StripLineEnd(line[..|line| - 1]) else line
  }

  // ---------------------------------------------------------------- lines of a stream

  /** The position of the first newline, or the length. */
  function LineEnd(s: seq<Byte>): (k: nat)
    ensures k <= |s|
    ensures k < |s| ==> s[k] == NEWLINE
    ensures forall i :: 0 <= i < k ==> s[i] != NEWLINE
  {
    if s == [] || s[0] == NEWLINE then 0 else 1 + LineEnd(s[1..])
  }

  function Before(line: seq<Byte>, lines: seq<seq<Byte>>): seq<seq<Byte>> { [line] + lines }

  /** The complete lines, each with its newline. */
  function Lines(s: seq<Byte>): seq<seq<Byte>> {
    var k := LineEnd(s);
    if k == |s| then [] else Before(s[..k + 1], Lines(s[k + 1..]))
  }

  /** What follows the last newline. */
  function Tail(s: seq<Byte>): seq<Byte> {
    var k := LineEnd(s);
    if k == |s| then s else Tail(s[k + 1..])
  }

  /** The lines of a finished stream: an unterminated last line counts. */
  function AllLines(s: seq<Byte>): seq<seq<Byte>> {
    Lines(s) + (if Tail(s) == [] then [] else [Tail(s)])
  }

  function Flat(lines: seq<seq<Byte>>): seq<Byte> {
    if lines == [] then [] else Flat(lines[..|lines| - 1]) + lines[|lines| - 1]
  }

  lemma LineEndIs(s: seq<Byte>, k: nat)
    requires k < |s| && s[k] == NEWLINE && forall i :: 0 <= i < k ==> s[i] != NEWLINE
    ensures LineEnd(s) == k
  {
  }

  lemma TailAfterFirst(s: seq<Byte>, k: nat)
    requires k < |s| && LineEnd(s) == k
    ensures Tail(s) == Tail(s[k + 1..])
  {
    hide LineEnd, Lines;
  }

  lemma LinesUnfold(s: seq<Byte>, k: nat)
    requires k < |s| && LineEnd(s) == k
    ensures Lines(s) == Before(s[..k + 1], Lines(s[k + 1..]))
  {
    hide LineEnd, Tail, Before;
  }

  lemma BeforeIs(line: seq<Byte>, lines: seq<seq<Byte>>)
    ensures Before(line, lines) == [line] + lines
  {
  }

  lemma LinesAfterFirst(s: seq<Byte>, k: nat)
    requires k < |s| && LineEnd(s) == k
    ensures Lines(s) == [s[..k + 1]] + Lines(s[k + 1..]) && Tail(s) == Tail(s[k + 1..])
  {
    hide *;
    LinesUnfold(s, k);
    BeforeIs(s[..k + 1], Lines(s[k + 1..]));
    TailAfterFirst(s, k);
  }

  lemma CutConcat(a: seq<Byte>, b: seq<Byte>, k: nat)
    requires k <= |a|
    ensures (a + b)[..k] == a[..k] && (a + b)[k..] == a[k..] + b
  {
  }

  lemma LinesAssociative(a: seq<seq<Byte>>, b: seq<seq<Byte>>, c: seq<seq<Byte>>)
    ensures a + b + c == a + (b + c)
  {
  }

  /** Where a stream is cut does not matter: the rest of the first part continues the last line. */
  lemma {:induction false} LinesConcat(a: seq<Byte>, b: seq<Byte>)
    ensures Lines(a + b) == Lines(a) + Lines(Tail(a) + b)
    ensures Tail(a + b) == Tail(Tail(a) + b)
    decreases |a|
  {
    var k := LineEnd(a);
    if k < |a| {
      hide *;
      var line, rest := a[..k + 1], a[k + 1..];
      LinesConcat(rest, b);
      LinesAfterFirst(a, k);
      LineEndIs(a + b, k);
      LinesAfterFirst(a + b, k);
      CutConcat(a, b, k + 1);
      LinesAssociative([line], Lines(rest), Lines(Tail(rest) + b));
    } else {
      assert Lines(a) == [] && Tail(a) == a;
    }
  }

  lemma {:induction false} TailIsOneLine(s: seq<Byte>)
    ensures Lines(Tail(s)) == [] && Tail(Tail(s)) == Tail(s)
    decreases |s|
  {
    var k := LineEnd(s);
    if k < |s| {
      TailIsOneLine(s[k + 1..]);
    }
  }

  lemma AllLinesConcat(a: seq<Byte>, b: seq<Byte>)
    ensures AllLines(a + b) == Lines(a) + AllLines(Tail(a) + b)
  {
    LinesConcat(a, b);
  }

  lemma {:induction false} FlatConcat(a: seq<seq<Byte>>, b: seq<seq<Byte>>)
    ensures Flat(a + b) == Flat(a) + Flat(b)
    decreases |b|
  {
    if b == [] {
      assert a + b == a;
    } else {
      hide *;
      var front, last := b[..|b| - 1], b[|b| - 1];
      FlatConcat(a, front);
      FlatLast(a, b);
      Associative(Flat(a), Flat(front), last);
    }
  }

  lemma FlatLast(a: seq<seq<Byte>>, b: seq<seq<Byte>>)
    requires b != []
    ensures Flat(b) == Flat(b[..|b| - 1]) + b[|b| - 1]
    ensures Flat(a + b) == Flat(a + b[..|b| - 1]) + b[|b| - 1]
  {
    assert (a + b)[..|a + b| - 1] == a + b[..|b| - 1];
  }

  lemma FlatOne(line: seq<Byte>)
    ensures Flat([line]) == line
  {
    assert [line][..0] == [] && [] + line == line;
  }

  /** No byte is lost or repeated when a stream is cut into lines. */
  lemma {:induction false} LinesConserve(s: seq<Byte>)
    ensures Flat(Lines(s)) + Tail(s) == s
    decreases |s|
  {
    var k := LineEnd(s);
    if k < |s| {
      var line, rest := s[..k + 1], s[k + 1..];
      assert s == line + rest;
      LinesConserve(rest);
      OneMoreLine(line, Lines(rest), Tail(rest));
      assert Lines(s) == [line] + Lines(rest) && Tail(s) == Tail(rest);
      hide *;
    }
  }

  lemma OneMoreLine(line: seq<Byte>, lines: seq<seq<Byte>>, tail: seq<Byte>)
    ensures Flat([line] + lines) + tail == line + (Flat(lines) + tail)
  {
    hide *;
    FlatConcat([line], lines);
    FlatOne(line);
    Associative(line, Flat(lines), tail);
  }

  lemma AllLinesConserve(s: seq<Byte>)
    ensures Flat(AllLines(s)) == s
  {
    LinesConserve(s);
    FlatConcat(Lines(s), [Tail(s)]);
    FlatOne(Tail(s));
    assert Lines(s) + [] == Lines(s) && Flat(Lines(s)) + [] == Flat(Lines(s));
  }

  // ---------------------------------------------------------------- the verdict, by whole streams

  /** The verdict of the first line that refuses or announces readiness; refusal is looked for first. */
  function Scan(lines: seq<seq<Byte>>, watch: Watch): (r: Option<Verdict>)
    ensures r.Some? ==> r.value.Ready? || r.value.Refused?
  {
    if lines == [] then None
    else if watch.Refuses(lines[0]) then Some(Refused(lines[0]))
    else if watch.Announces(lines[0]) then Some(Ready)
    else Scan(lines[1..], watch)
  }

  lemma {:induction false} ScanConcat(a: seq<seq<Byte>>, b: seq<seq<Byte>>, watch: Watch)
    ensures Scan(a + b, watch) == if Scan(a, watch).Some? then Scan(a, watch) else Scan(b, watch)
  {
    if a == [] {
      assert a + b == b;
    } else {
      assert (a + b)[0] == a[0] && (a + b)[1..] == a[1..] + b;
      ScanConcat(a[1..], b, watch);
    }
  }

  function Stream(turns: seq<Turn>): seq<Byte> {
    if turns == [] then [] else turns[0].Bytes() + Stream(turns[1..])
  }

  /** The first turn that finishes the output, or the number of turns. */
  function FirstFinished(turns: seq<Turn>): (k: nat)
    ensures k <= |turns|
    ensures k < |turns| ==> turns[k].Finished()
    ensures forall i :: 0 <= i < k ==> !turns[i].Finished()
  {
    if turns == [] || turns[0].Finished() then 0 else 1 + FirstFinished(turns[1..])
  }

  function Otherwise(verdict: Option<Verdict>, other: Verdict): Verdict {
    if verdict.Some? then verdict.value else other
  }

  /** The verdict over whole streams, given bytes that are pending already.  While the output goes on
      only complete lines count; at its end all lines do, then the exit status; else watching goes on. */
  function OutcomeFrom(pending: seq<Byte>, turns: seq<Turn>, watch: Watch): Verdict
    decreases |turns|
  {
    var k := FirstFinished(turns);
    var stream := pending + Stream(turns[..k]);
    if k == |turns| then Otherwise(Scan(Lines(stream), watch), TimedOut(Tail(stream)))
    else
      Otherwise(Scan(AllLines(stream), watch),
                if turns[k].status.Some? then Exited(turns[k].status.value)
                else OutcomeFrom([], turns[k + 1..], watch))
  }

  function Outcome(turns: seq<Turn>, watch: Watch): Verdict { OutcomeFrom([], turns, watch) }

  lemma FirstTurn(pending: seq<Byte>, turns: seq<Turn>, k: nat)
    requires turns != [] && !turns[0].Finished() && k == FirstFinished(turns[1..])
    ensures FirstFinished(turns) == k + 1
    ensures pending + Stream(turns[..k + 1]) == pending + turns[0].Bytes() + Stream(turns[1..][..k])
    ensures k + 1 < |turns| ==> turns[k + 1] == turns[1..][k] && turns[k + 2..] == turns[1..][k + 1..]
  {
    assert turns[..k + 1][1..] == turns[1..][..k] && turns[..k + 1][0] == turns[0];
    Associative(pending, turns[0].Bytes(), Stream(turns[1..][..k]));
  }

  /** A stream that is read in two parts. */
  lemma ScanInTwo(read: seq<Byte>, later: seq<Byte>, watch: Watch)
    ensures Tail(read + later) == Tail(Tail(read) + later)
    ensures Scan(Lines(read + later), watch) ==
            if Scan(Lines(read), watch).Some? then Scan(Lines(read), watch) else Scan(Lines(Tail(read) + later), watch)
    ensures Scan(AllLines(read + later), watch) ==
            if Scan(Lines(read), watch).Some? then Scan(Lines(read), watch) else Scan(AllLines(Tail(read) + later), watch)
  {
    hide *;
    LinesConcat(read, later);
    AllLinesConcat(read, later);
    ScanConcat(Lines(read), Lines(Tail(read) + later), watch);
    ScanConcat(Lines(read), AllLines(Tail(read) + later), watch);
  }

  /** What decides when no line does, once a turn has found the end of the output or of the process. */
  function Behind(turns: seq<Turn>, watch: Watch, k: nat): Verdict
    requires k < |turns|
  {
    if turns[k].status.Some? then Exited(turns[k].status.value) else OutcomeFrom([], turns[k + 1..], watch)
  }

  lemma OutcomeIs(pending: seq<Byte>, turns: seq<Turn>, watch: Watch, k: nat, stream: seq<Byte>)
    requires k == FirstFinished(turns) && stream == pending + Stream(turns[..k])
    ensures k <= |turns|
    ensures OutcomeFrom(pending, turns, watch) ==
            if k == |turns| then Otherwise(Scan(Lines(stream), watch), TimedOut(Tail(stream)))
            else Otherwise(Scan(AllLines(stream), watch), Behind(turns, watch, k))
  {
    hide Otherwise, Scan, AllLines, Stream, FirstFinished, Lines, Tail;
  }

  lemma OtherwiseTwice(a: Option<Verdict>, b: Option<Verdict>, v: Verdict)
    ensures Otherwise(if a.Some? then a else b, v) == Otherwise(a, Otherwise(b, v))
  {
  }

  lemma UnfinishedTurn(pending: seq<Byte>, turns: seq<Turn>, watch: Watch)
    requires turns != [] && !turns[0].Finished()
    ensures var read := pending + turns[0].Bytes();
            OutcomeFrom(pending, turns, watch) ==
            Otherwise(Scan(Lines(read), watch), OutcomeFrom(Tail(read), turns[1..], watch))
  {
    var k := FirstFinished(turns[1..]);
    var read, later := pending + turns[0].Bytes(), Stream(turns[1..][..k]);
    FirstTurn(pending, turns, k);
    ScanInTwo(read, later, watch);
    hide *;
    OutcomeIs(pending, turns, watch, k + 1, read + later);
    OutcomeIs(Tail(read), turns[1..], watch, k, Tail(read) + later);
    OtherwiseTwice(Scan(Lines(read), watch), Scan(Lines(Tail(read) + later), watch), TimedOut(Tail(read + later)));
    OtherwiseTwice(Scan(Lines(read), watch), Scan(AllLines(Tail(read) + later), watch),
                   if k + 1 < |turns| then Behind(turns, watch, k + 1) else Ready);
  }

  lemma FinishedTurn(pending: seq<Byte>, turns: seq<Turn>, watch: Watch)
    requires turns != [] && turns[0].Finished()
    ensures pending + turns[0].Bytes() == pending
    ensures OutcomeFrom(pending, turns, watch) ==
            Otherwise(Scan(AllLines(pending), watch),
                      if turns[0].status.Some? then Exited(turns[0].status.value) else OutcomeFrom([], turns[1..], watch))
  {
    assert turns[..0] == [];
    assert pending + [] == pending;
  }

  // ---------------------------------------------------------------- the loop

  /** The loop over the lines of one turn. */
  method ScanLines(lines: seq<seq<Byte>>, watch: Watch, given: seq<seq<Byte>>)
    returns (verdict: Option<Verdict>, captured: seq<seq<Byte>>)
    ensures verdict == Scan(lines, watch)
    ensures given <= captured <= given + lines
    ensures verdict.None? ==> captured == given + lines
  {
    captured := given;
    assert lines[0..] == lines && given + lines[..0] == given;
    for i := 0 to |lines|
      invariant captured == given + lines[..i]
      invariant Scan(lines, watch) == Scan(lines[i..], watch)
    {
      assert lines[i..][1..] == lines[i + 1..] && given + lines[..i + 1] == given + lines[..i] + [lines[i]];
      assert given + lines == given + lines[..i + 1] + lines[i + 1..];
      captured := captured + [lines[i]];
      if watch.Refuses(lines[i]) {
        return Some(Refused(lines[i])), captured;
      }
      if watch.Announces(lines[i]) {
        return Some(Ready), captured;
      }
    }
    assert lines[..|lines|] == lines;
    return None, captured;
  }

  lemma {:induction false} StreamStep(turns: seq<Turn>, i: nat)
    requires i < |turns|
    ensures Stream(turns[..i + 1]) == Stream(turns[..i]) + turns[i].Bytes()
  {
    if i > 0 {
      StreamStep(turns[1..], i - 1);
      assert turns[..i + 1][1..] == turns[1..][..i] && turns[..i][1..] == turns[1..][..i - 1];
    }
  }

  lemma {:induction false} StreamPrefix(turns: seq<Turn>, i: nat)
    requires i <= |turns|
    ensures Stream(turns[..i]) <= Stream(turns)
    decreases |turns| - i
  {
    if i < |turns| {
      StreamStep(turns, i);
      StreamPrefix(turns, i + 1);
    } else {
      assert turns[..i] == turns;
    }
  }

  lemma {:induction false} FlatPrefix(a: seq<seq<Byte>>, b: seq<seq<Byte>>)
    requires a <= b
    ensures Flat(a) <= Flat(b)
  {
    FlatConcat(a, b[|a|..]);
    assert b == a + b[|a|..];
  }

  /** What one turn decides: its lines, and at the end of the output the exit status. */
  function TurnVerdict(pending: seq<Byte>, turn: Turn, watch: Watch): (r: Option<Verdict>)
    ensures r.Some? ==> !r.value.TimedOut?
  {
    var read := pending + turn.Bytes();
    var found := Scan(if turn.Finished() then AllLines(read) else Lines(read), watch);
    if found.Some? then found
    else if turn.Finished() && turn.status.Some? then Some(Exited(turn.status.value))
    else None
  }

  function PendingAfter(pending: seq<Byte>, turn: Turn): seq<Byte> {
    if turn.Finished() then [] else Tail(pending + turn.Bytes())
  }

  lemma TurnStep(pending: seq<Byte>, turns: seq<Turn>, watch: Watch)
    requires turns != []
    ensures OutcomeFrom(pending, turns, watch) ==
            Otherwise(TurnVerdict(pending, turns[0], watch), OutcomeFrom(PendingAfter(pending, turns[0]), turns[1..], watch))
  {
    if turns[0].Finished() {
      FinishedTurn(pending, turns, watch);
    } else {
      UnfinishedTurn(pending, turns, watch);
    }
  }

  lemma PendingIsOneLine(pending: seq<Byte>, turn: Turn)
    ensures var after := PendingAfter(pending, turn); Lines(after) == [] && Tail(after) == after
  {
    TailIsOneLine(pending + turn.Bytes());
  }

  /** The body of the loop. */
  method TakeTurn(turn: Turn, given: seq<Byte>, watch: Watch, before: seq<seq<Byte>>)
    returns (decided: Option<Verdict>, pending: seq<Byte>, captured: seq<seq<Byte>>)
    ensures decided == TurnVerdict(given, turn, watch)
    ensures pending == PendingAfter(given, turn)
    ensures Flat(captured) <= Flat(before) + (given + turn.Bytes())
    ensures decided.None? ==> Flat(captured) + pending == Flat(before) + (given + turn.Bytes())
  {
    pending := given;
    var finished := turn.Finished();
    if turn.chunk.Some? {
      pending := pending + turn.chunk.value;
    }
    assert given + [] == given;
    ghost var read := given + turn.Bytes();
    var lines := Lines(pending);
    pending := Tail(pending);
    if finished && pending != [] {
      lines := lines + [pending];
      pending := [];
    }
    assert lines == if finished then AllLines(read) else Lines(read);
    TurnConserves(read, lines, pending, finished);
    hide Lines, Tail, AllLines, Scan, Flat;
    decided, captured := ScanLines(lines, watch, before);
    LinesFollow(before, lines, captured, pending, read);
    if decided.None? && finished && turn.status.Some? {
      decided := Some(Exited(turn.status.value));
    }
  }

  /** `run_until_ready`: its verdict is that of the whole streams, however they are cut into reads, and
      what it captured is what it read. */
  method RunUntilReady(turns: seq<Turn>, watch: Watch) returns (verdict: Verdict, captured: seq<seq<Byte>>)
    ensures verdict == Outcome(turns, watch)
    ensures Flat(captured) <= Stream(turns)
    ensures verdict.TimedOut? ==> Flat(captured) + verdict.partial == Stream(turns)
  {
    var pending: seq<Byte> := [];
    captured := [];
    assert turns[0..] == turns && turns[..0] == [];
    for i := 0 to |turns|
      invariant Outcome(turns, watch) == OutcomeFrom(pending, turns[i..], watch)
      invariant Flat(captured) + pending == Stream(turns[..i])
      invariant Lines(pending) == [] && Tail(pending) == pending
    {
      ghost var rest := turns[i..];
      assert rest[0] == turns[i] && rest[1..] == turns[i + 1..];
      hide Flat, Stream, OutcomeFrom, TurnVerdict, PendingAfter, Lines, Tail;
      TurnStep(pending, rest, watch);
      StreamStep(turns, i);
      StreamPrefix(turns, i + 1);
      Associative(Flat(captured), pending, turns[i].Bytes());
      PendingIsOneLine(pending, turns[i]);
      var decided;
      decided, pending, captured := TakeTurn(turns[i], pending, watch, captured);
      if decided.Some? {
        return decided.value, captured;
      }
    }
    assert turns[..|turns|] == turns && turns[|turns|..] == [];
    assert pending + [] == pending;
    return TimedOut(pending), captured;
  }

  lemma TurnConserves(read: seq<Byte>, lines: seq<seq<Byte>>, pending: seq<Byte>, finished: bool)
    requires lines == if finished then AllLines(read) else Lines(read)
    requires pending == if finished then [] else Tail(read)
    ensures Flat(lines) + pending == read
  {
    hide *;
    LinesConserve(read);
    AllLinesConserve(read);
  }

  lemma LinesFollow(before: seq<seq<Byte>>, lines: seq<seq<Byte>>, captured: seq<seq<Byte>>, pending: seq<Byte>, read: seq<Byte>)
    requires before <= captured <= before + lines && Flat(lines) + pending == read
    ensures Flat(captured) <= Flat(before) + read
    ensures captured == before + lines ==> Flat(captured) + pending == Flat(before) + read
  {
    hide *;
    FlatConcat(before, lines);
    FlatPrefix(captured, before + lines);
    Associative(Flat(before), Flat(lines), pending);
  }

  // ---------------------------------------------------------------- what does not matter

  /** Runs that read the same bytes, in whatever chunks, before the same continuation have the same verdict. */
  lemma {:induction false} ChunkingDoesNotMatter(a: seq<Turn>, b: seq<Turn>, rest: seq<Turn>, watch: Watch)
    requires forall i :: 0 <= i < |a| ==> !a[i].Finished()
    requires forall i :: 0 <= i < |b| ==> !b[i].Finished()
    requires Stream(a) == Stream(b)
    requires rest != [] ==> rest[0].Finished()
    ensures Outcome(a + rest, watch) == Outcome(b + rest, watch)
  {
    FirstFinishedBehind(a, rest);
    FirstFinishedBehind(b, rest);
    assert (a + rest)[..|a|] == a && (b + rest)[..|b|] == b;
    if rest != [] {
      assert (a + rest)[|a|] == rest[0] == (b + rest)[|b|];
      assert (a + rest)[|a| + 1..] == rest[1..] == (b + rest)[|b| + 1..];
    }
  }

  lemma {:induction false} FirstFinishedBehind(a: seq<Turn>, rest: seq<Turn>)
    requires forall i :: 0 <= i < |a| ==> !a[i].Finished()
    requires rest != [] ==> rest[0].Finished()
    ensures FirstFinished(a + rest) == |a|
  {
    if a == [] {
      assert a + rest == rest;
    } else {
      assert (a + rest)[0] == a[0] && (a + rest)[1..] == a[1..] + rest;
      FirstFinishedBehind(a[1..], rest);
    }
  }

  /** A verdict that has been reached is not changed by later turns. */
  lemma {:induction false} VerdictStands(pending: seq<Byte>, turns: seq<Turn>, more: seq<Turn>, watch: Watch)
    requires !OutcomeFrom(pending, turns, watch).TimedOut?
    ensures OutcomeFrom(pending, turns + more, watch) == OutcomeFrom(pending, turns, watch)
    decreases |turns|
  {
    if turns == [] {
      assert turns[..0] == [] && pending + [] == pending && turns + more == more;
      EarlyVerdict(pending, more, watch);
    } else {
      var all, read := turns + more, pending + turns[0].Bytes();
      assert all[0] == turns[0] && all[1..] == turns[1..] + more;
      if turns[0].Finished() {
        FinishedTurn(pending, turns, watch);
        FinishedTurn(pending, all, watch);
        if Scan(AllLines(pending), watch).None? && turns[0].status.None? {
          VerdictStands([], turns[1..], more, watch);
        }
      } else {
        UnfinishedTurn(pending, turns, watch);
        UnfinishedTurn(pending, all, watch);
        if Scan(Lines(read), watch).None? {
          VerdictStands(Tail(read), turns[1..], more, watch);
        }
      }
    }
  }

  lemma EarlyVerdict(pending: seq<Byte>, turns: seq<Turn>, watch: Watch)
    requires Scan(Lines(pending), watch).Some?
    ensures OutcomeFrom(pending, turns, watch) == Scan(Lines(pending), watch).value
  {
    var k := FirstFinished(turns);
    var later := Stream(turns[..k]);
    LinesConcat(pending, later);
    AllLinesConcat(pending, later);
    ScanConcat(Lines(pending), Lines(Tail(pending) + later), watch);
    ScanConcat(Lines(pending), AllLines(Tail(pending) + later), watch);
  }

  /** The first exit status a poll reports. */
  function FirstStatus(turns: seq<Turn>): Option<int> {
    if turns == [] then None else if turns[0].status.Some? then turns[0].status else FirstStatus(turns[1..])
  }

  lemma OutcomeFromStart(turns: seq<Turn>, watch: Watch)
    ensures Outcome(turns, watch) == OutcomeFrom([], turns, watch)
  {
  }

  lemma NothingPending(stream: seq<Byte>)
    ensures [] + stream == stream
  {
  }

  /** What follows the end of the output changes neither the bytes nor the verdict's lines. */
  lemma SilentFrom(turns: seq<Turn>, watch: Watch, k: nat)
    requires k < |turns| && forall i :: k <= i < |turns| ==> turns[i].chunk == Some([])
    ensures Stream(turns) == Stream(turns[..k])
    ensures Behind(turns, watch, k) ==
            match FirstStatus(turns[k..])
            case Some(status) => Exited(status)
            case None => TimedOut([])
  {
    var rest := turns[k..];
    assert turns == turns[..k] + rest && rest[0] == turns[k] && rest[1..] == turns[k + 1..];
    SilentEnd(rest, watch);
    StreamConcat(turns[..k], rest);
    assert Stream(turns[..k]) + [] == Stream(turns[..k]);
    hide OutcomeFrom, Stream;
    SilentEnd(rest[1..], watch);
  }

  /** Once a read finds the end of the output, the verdict is that of the lines of the whole output in
      order, and without a deciding line the exit status, if the process ends before the deadline. */
  lemma EndOfOutput(turns: seq<Turn>, watch: Watch)
    requires var k := FirstFinished(turns);
             k < |turns| && forall i :: k <= i < |turns| ==> turns[i].chunk == Some([])
    ensures var k := FirstFinished(turns);
            && Stream(turns) == Stream(turns[..k])
            && Outcome(turns, watch) ==
               Otherwise(Scan(AllLines(Stream(turns)), watch),
                         match FirstStatus(turns[k..])
                         case Some(status) => Exited(status)
                         case None => TimedOut([]))
  {
    var k := FirstFinished(turns);
    hide *;
    NothingPending(Stream(turns[..k]));
    OutcomeIs([], turns, watch, k, Stream(turns[..k]));
    OutcomeFromStart(turns, watch);
    SilentFrom(turns, watch, k);
  }

  lemma {:induction false} StreamConcat(a: seq<Turn>, b: seq<Turn>)
    ensures Stream(a + b) == Stream(a) + Stream(b)
  {
    if a == [] {
      assert a + b == b;
    } else {
      assert (a + b)[0] == a[0] && (a + b)[1..] == a[1..] + b;
      StreamConcat(a[1..], b);
    }
  }

  lemma {:induction false} SilentEnd(turns: seq<Turn>, watch: Watch)
    requires forall i :: 0 <= i < |turns| ==> turns[i].chunk == Some([])
    ensures Stream(turns) == []
    ensures OutcomeFrom([], turns, watch) ==
            match FirstStatus(turns)
            case Some(status) => Exited(status)
            case None => TimedOut([])
  {
    if turns == [] {
      assert turns[..0] == [] && [] + Stream([]) == [];
    } else {
      FinishedTurn([], turns, watch);
      SilentEnd(turns[1..], watch);
      assert AllLines([]) == [];
    }
  }
}
