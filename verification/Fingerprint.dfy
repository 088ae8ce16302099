/** The canonical byte stream that a version-2 checkout fingerprint hashes. */
module Fingerprint {
  import opened Wrappers
  import opened Bytes
  import opened Ordering

  datatype IndexRow = IndexRow(path: Path, mode: nat, stage: nat, flags: nat, oid: Digest)
  datatype FileRow = FileRow(path: Path, mode: nat, body: seq<Byte>)
  datatype Observation = Observation(
    head: Digest, index: seq<IndexRow>, working: seq<FileRow>, untracked: seq<FileRow>)

  /** `int.to_bytes` refuses a value that does not fit. */
  datatype Overflow = Overflow

  // "mvm-checkout-v2\0"
  const MAGIC: seq<Byte> := [109, 118, 109, 45, 99, 104, 101, 99, 107, 111, 117, 116, 45, 118, 50, 0]
  const TAG_I: seq<Byte> := [73]
  const TAG_W: seq<Byte> := [87]
  const TAG_U: seq<Byte> := [85]

  // ---------------------------------------------------------------- the encoding

  function Field(body: seq<Byte>): seq<Byte> { LittleEndian(|body|, 8) + body }

  function EncodeIndexRow(e: IndexRow): seq<Byte> {
    Field(e.path) + LittleEndian(e.mode, 4) + LittleEndian(e.stage, 4) + LittleEndian(e.flags, 4) + e.oid
  }

  function EncodeFileRow(f: FileRow): seq<Byte> {
    Field(f.path) + LittleEndian(f.mode, 4) + Field(f.body)
  }

  function EncodeIndex(rows: seq<IndexRow>): seq<Byte> {
    if rows == [] then [] else EncodeIndex(rows[..|rows| - 1]) + EncodeIndexRow(rows[|rows| - 1])
  }

  function EncodeFiles(rows: seq<FileRow>): seq<Byte> {
    if rows == [] then [] else EncodeFiles(rows[..|rows| - 1]) + EncodeFileRow(rows[|rows| - 1])
  }

  function Section(tag: seq<Byte>, rows: seq<FileRow>): seq<Byte> {
    tag + LittleEndian(|rows|, 8) + EncodeFiles(rows)
  }

  function IndexSection(rows: seq<IndexRow>): seq<Byte> {
    TAG_I + LittleEndian(|rows|, 8) + EncodeIndex(rows)
  }

  function Preimage(o: Observation): seq<Byte> {
    MAGIC + o.head + IndexSection(o.index) + Section(TAG_W, o.working) + Section(TAG_U, o.untracked)
  }

  const LIMIT_32: nat := 0x1_0000_0000
  const LIMIT_64: nat := 0x1_0000_0000_0000_0000

  predicate IndexRowFits(e: IndexRow) {
    |e.path| < LIMIT_64 && e.mode < LIMIT_32 && e.stage < LIMIT_32 && e.flags < LIMIT_32
  }

  predicate FileRowFits(f: FileRow) {
    |f.path| < LIMIT_64 && f.mode < LIMIT_32 && |f.body| < LIMIT_64
  }

  predicate IndexFits(rows: seq<IndexRow>) { forall i :: 0 <= i < |rows| ==> IndexRowFits(rows[i]) }

  predicate FilesFit(rows: seq<FileRow>) { forall i :: 0 <= i < |rows| ==> FileRowFits(rows[i]) }

  /** Every length and number has the room the encoding gives it. */
  predicate Fits(o: Observation) {
    && |o.index| < LIMIT_64 && |o.working| < LIMIT_64 && |o.untracked| < LIMIT_64
    && IndexFits(o.index) && FilesFit(o.working) && FilesFit(o.untracked)
  }

  // ---------------------------------------------------------------- feeding the hasher

  /** A `hashlib` object: the bytes absorbed so far; the hash itself stays abstract. */
  class Hasher {
    var absorbed: seq<Byte>

    constructor (initial: seq<Byte>)
      ensures absorbed == initial
    {
      absorbed := initial;
    }

    method Update(bytes: seq<Byte>)
      modifies this
      ensures absorbed == old(absorbed) + bytes
    {
      absorbed := absorbed + bytes;
    }

    /** `update(value.to_bytes(width, "little"))`, for the width whose values stay below `limit`. */
    method UpdateInt(value: nat, width: nat, limit: nat) returns (r: Result<(), Overflow>)
      modifies this
      ensures r.Success? <==> value < limit
      ensures absorbed == if value < limit then old(absorbed) + LittleEndian(value, width) else old(absorbed)
    {
      if value >= limit {
        return Failure(Overflow);
      }
      Update(LittleEndian(value, width));
      return Success(());
    }

    /** `_field`. */
    method UpdateField(body: seq<Byte>) returns (r: Result<(), Overflow>)
      modifies this
      ensures r.Success? <==> |body| < LIMIT_64
      ensures r.Success? ==> absorbed == old(absorbed) + Field(body)
    {
      hide LittleEndian;
      var _ :- UpdateInt(|body|, 8, LIMIT_64);
      Update(body);
      Associative(old(absorbed), LittleEndian(|body|, 8), body);
      return Success(());
    }

    method UpdateIndexRow(e: IndexRow) returns (r: Result<(), Overflow>)
      modifies this
      ensures r.Success? <==> IndexRowFits(e)
      ensures r.Success? ==> absorbed == old(absorbed) + EncodeIndexRow(e)
    {
      hide LittleEndian, Field;
      ghost var start, row := absorbed, Field(e.path);
      var _ :- UpdateField(e.path);
      var _ :- UpdateInt(e.mode, 4, LIMIT_32);
      Associative(start, row, LittleEndian(e.mode, 4));
      row := row + LittleEndian(e.mode, 4);
      var _ :- UpdateInt(e.stage, 4, LIMIT_32);
      Associative(start, row, LittleEndian(e.stage, 4));
      row := row + LittleEndian(e.stage, 4);
      var _ :- UpdateInt(e.flags, 4, LIMIT_32);
      Associative(start, row, LittleEndian(e.flags, 4));
      row := row + LittleEndian(e.flags, 4);
      Update(e.oid);
      Associative(start, row, e.oid);
      return Success(());
    }

    method UpdateFileRow(f: FileRow) returns (r: Result<(), Overflow>)
      modifies this
      ensures r.Success? <==> FileRowFits(f)
      ensures r.Success? ==> absorbed == old(absorbed) + EncodeFileRow(f)
    {
      hide LittleEndian, Field;
      ghost var start, row := absorbed, Field(f.path);
      var _ :- UpdateField(f.path);
      var _ :- UpdateInt(f.mode, 4, LIMIT_32);
      Associative(start, row, LittleEndian(f.mode, 4));
      row := row + LittleEndian(f.mode, 4);
      var _ :- UpdateField(f.body);
      Associative(start, row, Field(f.body));
      return Success(());
    }

    method UpdateIndex(rows: seq<IndexRow>) returns (r: Result<(), Overflow>)
      modifies this
      ensures r.Success? <==> |rows| < LIMIT_64 && IndexFits(rows)
      ensures r.Success? ==> absorbed == old(absorbed) + IndexSection(rows)
    {
      hide LittleEndian, EncodeIndexRow, IndexRowFits;
      ghost var start, header := absorbed, TAG_I;
      Update(TAG_I);
      var _ :- UpdateInt(|rows|, 8, LIMIT_64);
      Associative(start, header, LittleEndian(|rows|, 8));
      header := header + LittleEndian(|rows|, 8);
      assert header + EncodeIndex(rows[..0]) == header;
      for i := 0 to |rows|
        invariant absorbed == start + (header + EncodeIndex(rows[..i]))
        invariant IndexFits(rows[..i])
      {
        var row := UpdateIndexRow(rows[i]);
        if row.Failure? {
          return row;
        }
        EncodeIndexStep(rows, i);
        Associative(header, EncodeIndex(rows[..i]), EncodeIndexRow(rows[i]));
        Associative(start, header + EncodeIndex(rows[..i]), EncodeIndexRow(rows[i]));
      }
      assert rows[..|rows|] == rows;
      return Success(());
    }

    method UpdateSection(tag: seq<Byte>, rows: seq<FileRow>) returns (r: Result<(), Overflow>)
      modifies this
      ensures r.Success? <==> |rows| < LIMIT_64 && FilesFit(rows)
      ensures r.Success? ==> absorbed == old(absorbed) + Section(tag, rows)
    {
      hide LittleEndian, EncodeFileRow, FileRowFits;
      ghost var start, header := absorbed, tag;
      Update(tag);
      var _ :- UpdateInt(|rows|, 8, LIMIT_64);
      Associative(start, header, LittleEndian(|rows|, 8));
      header := header + LittleEndian(|rows|, 8);
      assert header + EncodeFiles(rows[..0]) == header;
      for i := 0 to |rows|
        invariant absorbed == start + (header + EncodeFiles(rows[..i]))
        invariant FilesFit(rows[..i])
      {
        var row := UpdateFileRow(rows[i]);
        if row.Failure? {
          return row;
        }
        EncodeFilesStep(rows, i);
        Associative(header, EncodeFiles(rows[..i]), EncodeFileRow(rows[i]));
        Associative(start, header + EncodeFiles(rows[..i]), EncodeFileRow(rows[i]));
      }
      assert rows[..|rows|] == rows;
      return Success(());
    }
  }

  lemma EncodeIndexStep(rows: seq<IndexRow>, i: nat)
    requires i < |rows|
    ensures EncodeIndex(rows[..i + 1]) == EncodeIndex(rows[..i]) + EncodeIndexRow(rows[i])
  {
    assert rows[..i + 1][..i] == rows[..i];
  }

  lemma EncodeFilesStep(rows: seq<FileRow>, i: nat)
    requires i < |rows|
    ensures EncodeFiles(rows[..i + 1]) == EncodeFiles(rows[..i]) + EncodeFileRow(rows[i])
  {
    assert rows[..i + 1][..i] == rows[..i];
  }

  /** `fingerprint_v2`: the digest of the canonical bytes, unless a value does not fit its field. */
  method FingerprintV2(
    sha256: seq<Byte> -> Digest, head: Digest, index: seq<IndexRow>, working: seq<FileRow>, untracked: seq<FileRow>)
    returns (r: Result<Digest, Overflow>)
    ensures var o := Observation(head, index, working, untracked);
            (r.Success? <==> Fits(o)) && (r.Success? ==> r.value == sha256(Preimage(o)))
  {
    hide IndexSection, Section, IndexFits, FilesFit;
    var h := new Hasher(MAGIC + head);
    var _ :- h.UpdateIndex(index);
    var _ :- h.UpdateSection(TAG_W, working);
    var _ :- h.UpdateSection(TAG_U, untracked);
    return Success(sha256(h.absorbed));
  }

  // ---------------------------------------------------------------- decoding

  function TakeInt(data: seq<Byte>, width: nat): Option<(nat, seq<Byte>)> {
    if |data| < width then None else Some((FromLittleEndian(data[..width]), data[width..]))
  }

  function TakeBytes(data: seq<Byte>, n: nat): Option<(seq<Byte>, seq<Byte>)> {
    if |data| < n then None else Some((data[..n], data[n..]))
  }

  function TakeField(data: seq<Byte>): Option<(seq<Byte>, seq<Byte>)> {
    match TakeInt(data, 8)
    case None => None
    case Some((n, rest)) => TakeBytes(rest, n)
  }

  function TakeIndexRow(data: seq<Byte>, width: nat): Option<(IndexRow, seq<Byte>)> {
    match TakeField(data)
    case None => None
    case Some((path, d1)) =>
      match TakeInt(d1, 4)
      case None => None
      case Some((mode, d2)) =>
        match TakeInt(d2, 4)
        case None => None
        case Some((stage, d3)) =>
          match TakeInt(d3, 4)
          case None => None
          case Some((flags, d4)) =>
            match TakeBytes(d4, width)
            case None => None
            case Some((oid, rest)) => Some((IndexRow(path, mode, stage, flags, oid), rest))
  }

  function TakeFileRow(data: seq<Byte>): Option<(FileRow, seq<Byte>)> {
    match TakeField(data)
    case None => None
    case Some((path, d1)) =>
      match TakeInt(d1, 4)
      case None => None
      case Some((mode, d2)) =>
        match TakeField(d2)
        case None => None
        case Some((body, rest)) => Some((FileRow(path, mode, body), rest))
  }

  function TakeIndex(data: seq<Byte>, count: nat, width: nat): Option<(seq<IndexRow>, seq<Byte>)> {
    if count == 0 then Some(([], data))
    else
      match TakeIndexRow(data, width)
      case None => None
      case Some((row, d1)) =>
        match TakeIndex(d1, count - 1, width)
        case None => None
        case Some((rows, rest)) => Some(([row] + rows, rest))
  }

  function TakeFiles(data: seq<Byte>, count: nat): Option<(seq<FileRow>, seq<Byte>)> {
    if count == 0 then Some(([], data))
    else
      match TakeFileRow(data)
      case None => None
      case Some((row, d1)) =>
        match TakeFiles(d1, count - 1)
        case None => None
        case Some((rows, rest)) => Some(([row] + rows, rest))
  }

  function TakeTag(data: seq<Byte>, tag: seq<Byte>): Option<seq<Byte>> {
    if tag <= data then Some(data[|tag|..]) else None
  }

  function TakeSection(data: seq<Byte>, tag: seq<Byte>): Option<(seq<FileRow>, seq<Byte>)> {
    match TakeTag(data, tag)
    case None => None
    case Some(d1) =>
      match TakeInt(d1, 8)
      case None => None
      case Some((count, rest)) => TakeFiles(rest, count)
  }

  function TakeIndexSection(data: seq<Byte>, width: nat): Option<(seq<IndexRow>, seq<Byte>)> {
    match TakeTag(data, TAG_I)
    case None => None
    case Some(d1) =>
      match TakeInt(d1, 8)
      case None => None
      case Some((count, rest)) => TakeIndex(rest, count, width)
  }

  /** Reads a preimage back, for a repository whose object names are `width` bytes long. */
  function Decode(data: seq<Byte>, width: nat): Option<Observation> {
    match TakeTag(data, MAGIC)
    case None => None
    case Some(d1) =>
      match TakeBytes(d1, width)
      case None => None
      case Some((head, d2)) =>
        match TakeIndexSection(d2, width)
        case None => None
        case Some((index, d3)) =>
          match TakeSection(d3, TAG_W)
          case None => None
          case Some((working, d4)) =>
            match TakeSection(d4, TAG_U)
            case None => None
            case Some((untracked, rest)) =>
              if rest == [] then Some(Observation(head, index, working, untracked)) else None
  }

  // ---------------------------------------------------------------- round trips

  lemma TakeIntRoundTrip(value: nat, width: nat, rest: seq<Byte>)
    requires value < Pow(256, width)
    ensures TakeInt(Cat(LittleEndian(value, width), rest), width) == Some((value, rest))
  {
    TakeBytesRoundTrip(LittleEndian(value, width), rest);
    LittleEndianRoundTrip(value, width);
    hide LittleEndian, FromLittleEndian, Cat;
  }

  lemma TakeBytesRoundTrip(bytes: seq<Byte>, rest: seq<Byte>)
    ensures TakeBytes(Cat(bytes, rest), |bytes|) == Some((bytes, rest))
  {
    var data := bytes + rest;
    assert data[..|bytes|] == bytes && data[|bytes|..] == rest;
  }

  lemma TakeTagRoundTrip(tag: seq<Byte>, rest: seq<Byte>)
    ensures TakeTag(Cat(tag, rest), tag) == Some(rest)
  {
    var data := tag + rest;
    assert tag <= data && data[|tag|..] == rest;
  }

  lemma FieldIs(body: seq<Byte>)
    ensures Field(body) == Cat(LittleEndian(|body|, 8), body)
  {
    hide LittleEndian;
  }

  lemma TakeFieldRoundTrip(body: seq<Byte>, rest: seq<Byte>)
    requires |body| < LIMIT_64
    ensures TakeField(Cat(Field(body), rest)) == Some((body, rest))
  {
    PowersOf256();
    hide LittleEndian, TakeInt, TakeBytes, Pow, Field, Cat;
    FieldIs(body);
    CatCat(LittleEndian(|body|, 8), body, rest);
    TakeIntRoundTrip(|body|, 8, Cat(body, rest));
    TakeBytesRoundTrip(body, rest);
  }

  lemma IndexRowIs(e: IndexRow, rest: seq<Byte>)
    ensures Cat(EncodeIndexRow(e), rest) ==
            Cat(Field(e.path), Cat(LittleEndian(e.mode, 4), Cat(LittleEndian(e.stage, 4),
                Cat(LittleEndian(e.flags, 4), Cat(e.oid, rest)))))
  {
    var path, mode, stage, flags := Field(e.path), LittleEndian(e.mode, 4), LittleEndian(e.stage, 4), LittleEndian(e.flags, 4);
    assert EncodeIndexRow(e) == Cat(Cat(Cat(Cat(path, mode), stage), flags), e.oid) by { hide LittleEndian, Field; }
    hide *;
    CatCat(Cat(Cat(Cat(path, mode), stage), flags), e.oid, rest);
    CatCat(Cat(Cat(path, mode), stage), flags, Cat(e.oid, rest));
    CatCat(Cat(path, mode), stage, Cat(flags, Cat(e.oid, rest)));
    CatCat(path, mode, Cat(stage, Cat(flags, Cat(e.oid, rest))));
  }

  lemma TakeIndexRowRoundTrip(e: IndexRow, rest: seq<Byte>)
    requires IndexRowFits(e)
    ensures TakeIndexRow(Cat(EncodeIndexRow(e), rest), |e.oid|) == Some((e, rest))
  {
    PowersOf256();
    hide LittleEndian, FromLittleEndian, TakeInt, TakeBytes, TakeField, Field, Cat, Pow, EncodeIndexRow;
    var d4 := Cat(e.oid, rest);
    var d3 := Cat(LittleEndian(e.flags, 4), d4);
    var d2 := Cat(LittleEndian(e.stage, 4), d3);
    IndexRowIs(e, rest);
    TakeFieldRoundTrip(e.path, Cat(LittleEndian(e.mode, 4), d2));
    TakeIntRoundTrip(e.mode, 4, d2);
    TakeIntRoundTrip(e.stage, 4, d3);
    TakeIntRoundTrip(e.flags, 4, d4);
    TakeBytesRoundTrip(e.oid, rest);
  }

  lemma FileRowIs(f: FileRow, rest: seq<Byte>)
    ensures Cat(EncodeFileRow(f), rest) == Cat(Field(f.path), Cat(LittleEndian(f.mode, 4), Cat(Field(f.body), rest)))
  {
    var path, mode, body := Field(f.path), LittleEndian(f.mode, 4), Field(f.body);
    assert EncodeFileRow(f) == Cat(Cat(path, mode), body) by { hide LittleEndian, Field; }
    hide *;
    CatCat(Cat(path, mode), body, rest);
    CatCat(path, mode, Cat(body, rest));
  }

  lemma TakeFileRowRoundTrip(f: FileRow, rest: seq<Byte>)
    requires FileRowFits(f)
    ensures TakeFileRow(Cat(EncodeFileRow(f), rest)) == Some((f, rest))
  {
    PowersOf256();
    hide LittleEndian, FromLittleEndian, TakeInt, TakeBytes, TakeField, Field, Cat, Pow, EncodeFileRow;
    FileRowIs(f, rest);
    TakeFieldRoundTrip(f.path, Cat(LittleEndian(f.mode, 4), Cat(Field(f.body), rest)));
    TakeIntRoundTrip(f.mode, 4, Cat(Field(f.body), rest));
    TakeFieldRoundTrip(f.body, rest);
  }

  lemma EncodeIndexLast(rows: seq<IndexRow>, last: IndexRow)
    ensures EncodeIndex(rows + [last]) == Cat(EncodeIndex(rows), EncodeIndexRow(last))
  {
    hide EncodeIndexRow;
    assert (rows + [last])[..|rows|] == rows;
  }

  lemma EncodeFilesLast(rows: seq<FileRow>, last: FileRow)
    ensures EncodeFiles(rows + [last]) == Cat(EncodeFiles(rows), EncodeFileRow(last))
  {
    hide EncodeFileRow;
    assert (rows + [last])[..|rows|] == rows;
  }

  lemma NothingEncoded(rest: seq<Byte>)
    ensures EncodeIndex([]) == [] && EncodeFiles([]) == [] && Cat([], rest) == rest && Cat(rest, []) == rest
  {
  }

  lemma {:induction false} EncodeIndexCons(row: IndexRow, rows: seq<IndexRow>)
    ensures EncodeIndex([row] + rows) == Cat(EncodeIndexRow(row), EncodeIndex(rows))
  {
    hide *;
    NothingEncoded(EncodeIndexRow(row));
    if rows == [] {
      EncodeIndexLast([], row);
      assert [row] + rows == [] + [row];
    } else {
      var front, last := rows[..|rows| - 1], rows[|rows| - 1];
      EncodeIndexCons(row, front);
      EncodeIndexLast(front, last);
      EncodeIndexLast([row] + front, last);
      assert rows == front + [last] && [row] + rows == [row] + front + [last];
      CatCat(EncodeIndexRow(row), EncodeIndex(front), EncodeIndexRow(last));
    }
  }

  lemma {:induction false} EncodeFilesCons(row: FileRow, rows: seq<FileRow>)
    ensures EncodeFiles([row] + rows) == Cat(EncodeFileRow(row), EncodeFiles(rows))
  {
    hide *;
    NothingEncoded(EncodeFileRow(row));
    if rows == [] {
      EncodeFilesLast([], row);
      assert [row] + rows == [] + [row];
    } else {
      var front, last := rows[..|rows| - 1], rows[|rows| - 1];
      EncodeFilesCons(row, front);
      EncodeFilesLast(front, last);
      EncodeFilesLast([row] + front, last);
      assert rows == front + [last] && [row] + rows == [row] + front + [last];
      CatCat(EncodeFileRow(row), EncodeFiles(front), EncodeFileRow(last));
    }
  }

  lemma TakeIndexStep(data: seq<Byte>, row: IndexRow, d1: seq<Byte>, rows: seq<IndexRow>, width: nat, rest: seq<Byte>)
    requires TakeIndexRow(data, width) == Some((row, d1)) && TakeIndex(d1, |rows|, width) == Some((rows, rest))
    ensures TakeIndex(data, |rows| + 1, width) == Some(([row] + rows, rest))
  {
    hide TakeIndexRow;
  }

  lemma TakeFilesStep(data: seq<Byte>, row: FileRow, d1: seq<Byte>, rows: seq<FileRow>, rest: seq<Byte>)
    requires TakeFileRow(data) == Some((row, d1)) && TakeFiles(d1, |rows|) == Some((rows, rest))
    ensures TakeFiles(data, |rows| + 1) == Some(([row] + rows, rest))
  {
    hide TakeFileRow;
  }

  lemma TakeNothing(rest: seq<Byte>, width: nat)
    ensures TakeIndex(rest, 0, width) == Some(([], rest)) && TakeFiles(rest, 0) == Some(([], rest))
  {
  }

  lemma RowsCons<T>(rows: seq<T>)
    requires rows != []
    ensures rows == [rows[0]] + rows[1..]
  {
  }

  lemma IndexFitsCons(rows: seq<IndexRow>, width: nat)
    requires rows != [] && IndexFits(rows) && forall i :: 0 <= i < |rows| ==> |rows[i].oid| == width
    ensures IndexRowFits(rows[0]) && IndexFits(rows[1..])
    ensures |rows[0].oid| == width && forall i :: 0 <= i < |rows[1..]| ==> |rows[1..][i].oid| == width
  {
    hide IndexRowFits;
  }

  lemma {:induction false} TakeIndexRoundTrip(rows: seq<IndexRow>, width: nat, rest: seq<Byte>)
    requires IndexFits(rows) && forall i :: 0 <= i < |rows| ==> |rows[i].oid| == width
    ensures TakeIndex(Cat(EncodeIndex(rows), rest), |rows|, width) == Some((rows, rest))
  {
    hide *;
    if rows == [] {
      NothingEncoded(rest);
      TakeNothing(rest, width);
    } else {
      var row, more := rows[0], rows[1..];
      IndexFitsCons(rows, width);
      RowsCons(rows);
      EncodeIndexCons(row, more);
      CatCat(EncodeIndexRow(row), EncodeIndex(more), rest);
      TakeIndexRowRoundTrip(row, Cat(EncodeIndex(more), rest));
      TakeIndexRoundTrip(more, width, rest);
      TakeIndexStep(Cat(EncodeIndex(rows), rest), row, Cat(EncodeIndex(more), rest), more, width, rest);
    }
  }

  lemma FilesFitCons(rows: seq<FileRow>)
    requires rows != [] && FilesFit(rows)
    ensures FileRowFits(rows[0]) && FilesFit(rows[1..])
  {
    hide FileRowFits;
  }

  lemma {:induction false} TakeFilesRoundTrip(rows: seq<FileRow>, rest: seq<Byte>)
    requires FilesFit(rows)
    ensures TakeFiles(Cat(EncodeFiles(rows), rest), |rows|) == Some((rows, rest))
  {
    hide *;
    if rows == [] {
      NothingEncoded(rest);
      TakeNothing(rest, 0);
    } else {
      var row, more := rows[0], rows[1..];
      FilesFitCons(rows);
      RowsCons(rows);
      EncodeFilesCons(row, more);
      CatCat(EncodeFileRow(row), EncodeFiles(more), rest);
      TakeFileRowRoundTrip(row, Cat(EncodeFiles(more), rest));
      TakeFilesRoundTrip(more, rest);
      TakeFilesStep(Cat(EncodeFiles(rows), rest), row, Cat(EncodeFiles(more), rest), more, rest);
    }
  }

  lemma ThreeParts(tag: seq<Byte>, count: seq<Byte>, body: seq<Byte>, rest: seq<Byte>)
    ensures Cat(Cat(Cat(tag, count), body), rest) == Cat(tag, Cat(count, Cat(body, rest)))
  {
    hide Cat;
    CatCat(Cat(tag, count), body, rest);
    CatCat(tag, count, Cat(body, rest));
  }

  lemma SectionIs(tag: seq<Byte>, rows: seq<FileRow>)
    ensures Section(tag, rows) == Cat(Cat(tag, LittleEndian(|rows|, 8)), EncodeFiles(rows))
  {
    hide LittleEndian, EncodeFiles;
  }

  lemma IndexSectionIs(rows: seq<IndexRow>)
    ensures IndexSection(rows) == Cat(Cat(TAG_I, LittleEndian(|rows|, 8)), EncodeIndex(rows))
  {
    hide LittleEndian, EncodeIndex;
  }

  lemma TakeSectionRoundTrip(tag: seq<Byte>, rows: seq<FileRow>, rest: seq<Byte>)
    requires |rows| < LIMIT_64 && FilesFit(rows)
    ensures TakeSection(Cat(Section(tag, rows), rest), tag) == Some((rows, rest))
  {
    PowersOf256();
    hide Section, LittleEndian, EncodeFiles, TakeTag, TakeInt, TakeFiles, FilesFit, Cat, Pow;
    var count, body := LittleEndian(|rows|, 8), EncodeFiles(rows);
    SectionIs(tag, rows);
    ThreeParts(tag, count, body, rest);
    TakeTagRoundTrip(tag, Cat(count, Cat(body, rest)));
    TakeIntRoundTrip(|rows|, 8, Cat(body, rest));
    TakeFilesRoundTrip(rows, rest);
  }

  lemma TakeIndexSectionRoundTrip(rows: seq<IndexRow>, width: nat, rest: seq<Byte>)
    requires |rows| < LIMIT_64 && IndexFits(rows) && forall i :: 0 <= i < |rows| ==> |rows[i].oid| == width
    ensures TakeIndexSection(Cat(IndexSection(rows), rest), width) == Some((rows, rest))
  {
    PowersOf256();
    hide IndexSection, LittleEndian, EncodeIndex, TakeTag, TakeInt, TakeIndex, IndexFits, Cat, Pow;
    var count, body := LittleEndian(|rows|, 8), EncodeIndex(rows);
    IndexSectionIs(rows);
    ThreeParts(TAG_I, count, body, rest);
    TakeTagRoundTrip(TAG_I, Cat(count, Cat(body, rest)));
    TakeIntRoundTrip(|rows|, 8, Cat(body, rest));
    TakeIndexRoundTrip(rows, width, rest);
  }

  /** Every object name in the observation is `width` bytes long. */
  predicate HasWidth(o: Observation, width: nat) {
    |o.head| == width && forall i :: 0 <= i < |o.index| ==> |o.index[i].oid| == width
  }

  lemma PreimageIs(o: Observation)
    ensures Preimage(o) ==
            Cat(MAGIC, Cat(o.head, Cat(IndexSection(o.index),
                Cat(Section(TAG_W, o.working), Cat(Section(TAG_U, o.untracked), [])))))
  {
    var index, working, untracked := IndexSection(o.index), Section(TAG_W, o.working), Section(TAG_U, o.untracked);
    assert Preimage(o) == Cat(Cat(Cat(Cat(MAGIC, o.head), index), working), untracked) by { hide IndexSection, Section; }
    hide *;
    NothingEncoded(untracked);
    CatCat(Cat(Cat(MAGIC, o.head), index), working, untracked);
    CatCat(Cat(MAGIC, o.head), index, Cat(working, untracked));
    CatCat(MAGIC, o.head, Cat(index, Cat(working, untracked)));
  }

  /** The decoder recovers the observation from its canonical bytes. */
  lemma PreimageRoundTrip(o: Observation, width: nat)
    requires Fits(o) && HasWidth(o, width)
    ensures Decode(Preimage(o), width) == Some(o)
  {
    hide Preimage, IndexSection, Section, TakeTag, TakeBytes, TakeIndexSection, TakeSection, Cat, IndexFits, FilesFit;
    PreimageIs(o);
    var d4 := Cat(Section(TAG_U, o.untracked), []);
    var d3 := Cat(Section(TAG_W, o.working), d4);
    var d2 := Cat(IndexSection(o.index), d3);
    TakeTagRoundTrip(MAGIC, Cat(o.head, d2));
    TakeBytesRoundTrip(o.head, d2);
    TakeIndexSectionRoundTrip(o.index, width, d3);
    TakeSectionRoundTrip(TAG_W, o.working, d4);
    TakeSectionRoundTrip(TAG_U, o.untracked, []);
  }

  /** Two different observations of repositories with equally long object names never share a preimage. */
  lemma PreimageInjective(a: Observation, b: Observation, width: nat)
    requires Fits(a) && Fits(b) && HasWidth(a, width) && HasWidth(b, width)
    ensures Preimage(a) == Preimage(b) <==> a == b
  {
    if Preimage(a) == Preimage(b) {
      PreimageRoundTrip(a, width);
      PreimageRoundTrip(b, width);
    }
  }

  /** The HEAD is not framed: for every HEAD there are two observations, the second with a longer
      HEAD, that have the same preimage. */
  lemma LongerHeadCollides(head: Digest, path: Path) returns (a: Observation, b: Observation)
    requires |path| < LIMIT_64
    ensures Fits(a) && Fits(b) && a.head == head && |b.head| > |head|
    ensures Preimage(a) == Preimage(b)
  {
    var index, working := IndexSection([]), Section(TAG_W, []);
    var body := index + working + Section(TAG_U, []);
    assert |body| == 27 by {
      assert EncodeFiles([]) == [] && EncodeIndex([]) == [];
    }
    var file := FileRow(path, 0, body);
    var tag, row := TAG_U + LittleEndian(1, 8), Field(path) + LittleEndian(0, 4) + LittleEndian(|body|, 8);
    var front := index + working + tag + row;
    a, b := Observation(head, [], [], [file]), Observation(head + front, [], [], []);
    OneFileSection(file);
    assert |front| > 0 && Fits(a) && Fits(b);
    var untracked := Section(TAG_U, [file]);
    assert untracked == tag + row + body;
    hide LittleEndian, Field, EncodeFiles, EncodeIndex, IndexSection, Section;
    assert Preimage(a) == MAGIC + head + front + body by {
      FileSectionMoves(MAGIC + head, index, working, tag, row, body);
    }
    assert Preimage(b) == MAGIC + head + front + body by {
      FileSectionMoves(MAGIC + head, front, [], index, working, Section(TAG_U, []));
      Associative(MAGIC, head, front);
    }
  }

  lemma FileSectionMoves(a: seq<Byte>, b: seq<Byte>, c: seq<Byte>, d: seq<Byte>, e: seq<Byte>, f: seq<Byte>)
    ensures a + b + c + (d + e + f) == a + (b + c + d + e) + f
    ensures c == [] ==> a + b + d + e + f == a + b + (d + e + f)
  {
  }

  lemma OneFileSection(file: FileRow)
    ensures Section(TAG_U, [file])
            == TAG_U + LittleEndian(1, 8) + (Field(file.path) + LittleEndian(file.mode, 4) + LittleEndian(|file.body|, 8)) + file.body
  {
    EncodeFilesStep([file], 0);
    assert [file][..1] == [file] && EncodeFiles([file][..0]) == [];
    hide EncodeFiles, LittleEndian;
    assert EncodeFiles([file]) == EncodeFileRow(file);
    assert EncodeFileRow(file) == Field(file.path) + LittleEndian(file.mode, 4) + LittleEndian(|file.body|, 8) + file.body;
  }
}
