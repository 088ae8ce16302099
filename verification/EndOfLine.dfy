/** End-of-line statistics and the conversion of working files before they are compared. */
module EndOfLine {
  import opened Wrappers
  import opened Bytes
  import opened FileModes

  const CR: Byte := 13
  const LF: Byte := 10

  // ---------------------------------------------------------------- text statistics

  datatype Kind = PairCr | PairLf | LoneCr | BareLf | Nonprintable | Printable

  predicate IsControl(b: Byte) {
    b == 127 || (b < 32 && b != 8 && b != 9 && b != 27 && b != 12)
  }

  /** What the byte at one position is, given its neighbours. */
  function KindAt(body: seq<Byte>, i: nat): Kind
    requires i < |body|
  {
    if body[i] == CR then if i + 1 < |body| && body[i + 1] == LF then PairCr else LoneCr
    else if body[i] == LF then if i > 0 && body[i - 1] == CR then PairLf else BareLf
    else if IsControl(body[i]) then Nonprintable
    else Printable
  }

  /** How many positions from `i` on have the kind. */
  function Count(body: seq<Byte>, kind: Kind, i: nat): nat
    requires i <= |body|
    decreases |body| - i
  {
    if i == |body| then 0
    else (if KindAt(body, i) == kind then 1 else 0) + Count(body, kind, i + 1)
  }

  /** `_text_stats` by positions: whether the body is binary, and how many CR LF pairs it has. */
  function Stats(body: seq<Byte>): (bool, nat) {
    (Count(body, LoneCr, 0) > 0 || 0 in body || Count(body, Printable, 0) / 128 < Count(body, Nonprintable, 0),
     Count(body, PairCr, 0))
  }

  method TextStats(body: seq<Byte>) returns (binary: bool, crlf: nat)
    ensures (binary, crlf) == Stats(body)
  {
    var printable, nonprintable := 0, 0;
    crlf := 0;
    var loneCr, nul := false, false;
    var i := 0;
    while i < |body|
      invariant i <= |body|
      invariant i < |body| ==> KindAt(body, i) != PairLf
      invariant printable + Count(body, Printable, i) == Count(body, Printable, 0)
      invariant nonprintable + Count(body, Nonprintable, i) == Count(body, Nonprintable, 0)
      invariant crlf + Count(body, PairCr, i) == Count(body, PairCr, 0)
      invariant loneCr || Count(body, LoneCr, i) > 0 <==> Count(body, LoneCr, 0) > 0
      invariant nul || 0 in body[i..] <==> 0 in body
    {
      ghost var start := i;
      ghost var rest := body[i..];
      var value := body[i];
      i := i + 1;
      assert rest == [value] + body[i..];
      if value == CR {
        if i < |body| && body[i] == LF {
          crlf := crlf + 1;
          assert KindAt(body, i) == PairLf;
          assert body[i..] == [body[i]] + body[i + 1..];
          i := i + 1;
        } else {
          loneCr := true;
        }
      } else if value != LF {
        if IsControl(value) {
          nonprintable := nonprintable + 1;
          nul := nul || value == 0;
        } else {
          printable := printable + 1;
        }
      }
    }
    binary := loneCr || nul || printable / 128 < nonprintable;
  }

  /** Every byte has exactly one kind, and pairs are counted once from each end. */
  lemma {:induction false} KindsPartition(body: seq<Byte>, i: nat)
    requires i <= |body|
    ensures Count(body, PairCr, i) + Count(body, PairLf, i) + Count(body, LoneCr, i) + Count(body, BareLf, i)
            + Count(body, Nonprintable, i) + Count(body, Printable, i) == |body| - i
    ensures Count(body, PairLf, i) ==
            Count(body, PairCr, i) + (if i < |body| && KindAt(body, i) == PairLf then 1 else 0)
    decreases |body| - i
  {
    if i < |body| {
      KindsPartition(body, i + 1);
    }
  }

  /** The length is the sum of the six classes, a CR LF pair being two bytes. */
  lemma LengthByKind(body: seq<Byte>)
    ensures |body| == 2 * Stats(body).1 + Count(body, LoneCr, 0) + Count(body, BareLf, 0)
                      + Count(body, Nonprintable, 0) + Count(body, Printable, 0)
  {
    KindsPartition(body, 0);
  }

  // ---------------------------------------------------------------- replacing CR LF

  /** `body[i:].replace(b"\r\n", b"\n")`. */
  function CollapseFrom(body: seq<Byte>, i: nat): seq<Byte>
    requires i <= |body|
    decreases |body| - i
  {
    if i == |body| then []
    else if body[i] == CR && i + 1 < |body| && body[i + 1] == LF then [LF] + CollapseFrom(body, i + 2)
    else [body[i]] + CollapseFrom(body, i + 1)
  }

  function Collapse(body: seq<Byte>): seq<Byte> { CollapseFrom(body, 0) }

  predicate NoCr(body: seq<Byte>) { CR !in body }

  ghost predicate NoLoneCr(body: seq<Byte>) {
    forall i :: 0 <= i < |body| && body[i] == CR ==> i + 1 < |body| && body[i + 1] == LF
  }

  ghost predicate NoDoubleCrLf(body: seq<Byte>) {
    forall i :: 0 <= i < |body| - 2 ==> !(body[i] == CR && body[i + 1] == CR && body[i + 2] == LF)
  }

  /** No CR LF from position `i` on. */
  ghost predicate NoPair(body: seq<Byte>, i: nat) {
    forall j :: i <= j < |body| - 1 ==> !(body[j] == CR && body[j + 1] == LF)
  }

  /** `text.replace(b"\n", b"\r\n")`. */
  function ToCrLf(text: seq<Byte>): seq<Byte> {
    if text == [] then [] else (if text[0] == LF then [CR, LF] else [text[0]]) + ToCrLf(text[1..])
  }

  lemma {:induction false} CollapseLength(body: seq<Byte>, i: nat)
    requires i <= |body|
    requires i < |body| ==> KindAt(body, i) != PairLf
    ensures |CollapseFrom(body, i)| == |body| - i - Count(body, PairCr, i)
    decreases |body| - i
  {
    if i < |body| {
      if KindAt(body, i) == PairCr {
        assert KindAt(body, i + 1) == PairLf;
        CollapseLength(body, i + 2);
      } else {
        CollapseLength(body, i + 1);
      }
    }
  }

  lemma {:induction false} CollapseRemovesCr(body: seq<Byte>, i: nat)
    requires i <= |body| && NoLoneCr(body)
    ensures NoCr(CollapseFrom(body, i))
    decreases |body| - i
  {
    if i < |body| {
      CollapseRemovesCr(body, if body[i] == CR then i + 2 else i + 1);
    }
  }

  lemma {:induction false} CollapseIdentity(body: seq<Byte>, i: nat)
    requires i <= |body| && NoCr(body)
    ensures CollapseFrom(body, i) == body[i..]
    decreases |body| - i
  {
    if i < |body| {
      assert body[i] in body;
      CollapseIdentity(body, i + 1);
    }
  }

  lemma {:induction false} NoLoneCrCount(body: seq<Byte>, i: nat)
    requires i <= |body|
    ensures Count(body, LoneCr, i) == 0 <==>
            forall j :: i <= j < |body| && body[j] == CR ==> j + 1 < |body| && body[j + 1] == LF
    decreases |body| - i
  {
    if i < |body| {
      NoLoneCrCount(body, i + 1);
      if KindAt(body, i) == LoneCr {
        assert body[i] == CR;
      }
    }
  }

  lemma {:induction false} CollapseNeedsPair(body: seq<Byte>, i: nat)
    requires i <= |body|
    requires NoPair(body, i)
    ensures CollapseFrom(body, i) == body[i..]
    decreases |body| - i
  {
    if i < |body| {
      CollapseNeedsPair(body, i + 1);
    }
  }

  lemma {:induction false} CollapseShorter(body: seq<Byte>, i: nat)
    requires i <= |body|
    ensures |CollapseFrom(body, i)| <= |body| - i
    ensures CollapseFrom(body, i) != [] <==> i < |body|
    decreases |body| - i
  {
    if i < |body| {
      CollapseShorter(body, if body[i] == CR && i + 1 < |body| && body[i + 1] == LF then i + 2 else i + 1);
    }
  }

  /** A body that still has a CR LF pair gets shorter. */
  lemma {:induction false} CollapseStrict(body: seq<Byte>, i: nat, j: nat)
    requires i <= j < |body| - 1 && body[j] == CR && body[j + 1] == LF
    ensures |CollapseFrom(body, i)| < |body| - i
    decreases |body| - i
  {
    if body[i] == CR && body[i + 1] == LF {
      CollapseShorter(body, i + 2);
    } else {
      CollapseStrict(body, i + 1, j);
    }
  }

  /** The collapsed rest starts with LF only where the rest starts with LF or CR LF. */
  lemma CollapseHead(body: seq<Byte>, i: nat)
    requires i < |body|
    ensures CollapseFrom(body, i) != []
    ensures CollapseFrom(body, i)[0] ==
            if body[i] == CR && i + 1 < |body| && body[i + 1] == LF then LF else body[i]
  {
  }

  lemma {:induction false} CollapseLeavesNoPair(body: seq<Byte>, i: nat)
    requires i <= |body| && NoDoubleCrLf(body)
    ensures NoPair(CollapseFrom(body, i), 0)
    decreases |body| - i
  {
    if i < |body| {
      var pair := body[i] == CR && i + 1 < |body| && body[i + 1] == LF;
      var next := if pair then i + 2 else i + 1;
      CollapseLeavesNoPair(body, next);
      var c, rest := CollapseFrom(body, i), CollapseFrom(body, next);
      if next < |body| {
        CollapseHead(body, next);
        assert c[0] == CR ==> rest[0] != LF;
      }
      forall j | 0 <= j < |c| - 1
        ensures !(c[j] == CR && c[j + 1] == LF)
      {
        if j > 0 {
          assert c[j] == rest[j - 1] && c[j + 1] == rest[j];
        }
      }
    }
  }

  /** CR CR LF collapses to CR LF, which collapses again. */
  lemma {:induction false} DoubleCrLfLeavesPair(body: seq<Byte>, i: nat, k: nat) returns (j: nat)
    requires i <= k < |body| - 2
    requires body[k] == CR && body[k + 1] == CR && body[k + 2] == LF
    ensures var c := CollapseFrom(body, i); j + 1 < |c| && c[j] == CR && c[j + 1] == LF
    decreases |body| - i
  {
    if i == k {
      CollapseHead(body, i + 1);
      j := 0;
    } else {
      var pair := body[i] == CR && body[i + 1] == LF;
      var next := if pair then i + 2 else i + 1;
      j := DoubleCrLfLeavesPair(body, next, k);
      j := j + 1;
    }
  }

  /** Replacing CR LF twice does more than replacing it once exactly when CR CR LF occurs. */
  lemma CollapseIdempotent(body: seq<Byte>)
    ensures Collapse(Collapse(body)) == Collapse(body) <==> NoDoubleCrLf(body)
  {
    var c := Collapse(body);
    if NoDoubleCrLf(body) {
      CollapseLeavesNoPair(body, 0);
      CollapseNeedsPair(c, 0);
      assert c[0..] == c;
    } else {
      var k :| 0 <= k < |body| - 2 && body[k] == CR && body[k + 1] == CR && body[k + 2] == LF;
      var j := DoubleCrLfLeavesPair(body, 0, k);
      CollapseStrict(c, 0, j);
    }
  }

  // ---------------------------------------------------------------- normalization

  type Name = seq<Byte>

  /** The value of an attribute; one that is not mentioned is unspecified. */
  datatype Value = Set | Unset | Unspecified | Text(bytes: seq<Byte>)

  type Attrs = map<Name, Value>

  datatype Unsupported = UnsupportedFilterOrEncoding

  function Get(attrs: Attrs, name: Name): Value { if name in attrs then attrs[name] else Unspecified }

  // The attribute names and values below are ASCII.
  const FILTER_NAME: Name := [102, 105, 108, 116, 101, 114]
  const ENCODING_NAME: Name :=
    [119, 111, 114, 107, 105, 110, 103, 45, 116, 114, 101, 101, 45, 101, 110, 99, 111, 100, 105, 110, 103]
  const TEXT_NAME: Name := [116, 101, 120, 116]
  const CRLF_NAME: Name := [99, 114, 108, 102]
  const EOL_NAME: Name := [101, 111, 108]
  const IDENT_NAME: Name := [105, 100, 101, 110, 116]
  const AUTO: Value := Text([97, 117, 116, 111])
  const INPUT: Value := Text([105, 110, 112, 117, 116])
  const LF_TEXT: Value := Text([108, 102])
  const CRLF_TEXT: Value := Text([99, 114, 108, 102])

  predicate Present(v: Value) { v.Set? || v.Text? }

  /** The effective `text` attribute: `input` counts as set, and `crlf` stands in for a missing one. */
  function TextOf(attrs: Attrs): Value {
    var text := Get(attrs, TEXT_NAME);
    var legacy := Get(attrs, CRLF_NAME);
    if text == INPUT then Set
    else if text.Set? || text.Unset? || text == AUTO then text
    else if legacy == INPUT then Set
    else if legacy.Set? || legacy.Unset? then legacy
    else text
  }

  /** Conversion that depends on the contents. */
  predicate Automatic(attrs: Attrs, autocrlf: bool) {
    !TextOf(attrs).Set? && !TextOf(attrs).Unset? && (TextOf(attrs) == AUTO || autocrlf)
  }

  predicate EolSet(attrs: Attrs) { Get(attrs, EOL_NAME) == LF_TEXT || Get(attrs, EOL_NAME) == CRLF_TEXT }

  /** Conversion whatever the contents. */
  predicate Forced(attrs: Attrs) {
    TextOf(attrs).Set? || (!TextOf(attrs).Unset? && EolSet(attrs) && TextOf(attrs) != AUTO)
  }

  predicate Converts(body: seq<Byte>, indexed: seq<Byte>, attrs: Attrs, autocrlf: bool) {
    Forced(attrs) ||
    (Automatic(attrs, autocrlf) && !Stats(body).0 && (Stats(indexed).0 || Stats(indexed).1 == 0))
  }

  /** `_normalize`; what `ident` does to a body is the parameter `collapseIdent`. */
  function Normalize(
    body: seq<Byte>, mode: nat, indexed: seq<Byte>, attrs: Attrs, autocrlf: bool,
    collapseIdent: seq<Byte> -> seq<Byte>): Result<seq<Byte>, Unsupported>
  {
    if Present(Get(attrs, FILTER_NAME)) || Present(Get(attrs, ENCODING_NAME)) then Failure(UnsupportedFilterOrEncoding)
    else if mode != REGULAR_MODE && mode != EXECUTABLE_MODE then Success(body)
    else
      var converted := if Converts(body, indexed, attrs, autocrlf) then Collapse(body) else body;
      Success(if Present(Get(attrs, IDENT_NAME)) then collapseIdent(converted) else converted)
  }

  predicate Plain(mode: nat, attrs: Attrs) {
    && (mode == REGULAR_MODE || mode == EXECUTABLE_MODE)
    && !Present(Get(attrs, FILTER_NAME)) && !Present(Get(attrs, ENCODING_NAME)) && !Present(Get(attrs, IDENT_NAME))
  }

  /** When automatic conversion fires, no CR is left, exactly the counted pairs are gone, and
      normalizing the result again changes nothing. */
  lemma AutomaticConversion(
    body: seq<Byte>, mode: nat, indexed: seq<Byte>, attrs: Attrs, autocrlf: bool, collapseIdent: seq<Byte> -> seq<Byte>)
    requires Plain(mode, attrs) && !Forced(attrs) && Converts(body, indexed, attrs, autocrlf)
    ensures var r := Normalize(body, mode, indexed, attrs, autocrlf, collapseIdent);
            && r.Success? && NoCr(r.value) && |r.value| == |body| - Stats(body).1
            && Normalize(r.value, mode, indexed, attrs, autocrlf, collapseIdent) == r
  {
    NoLoneCrCount(body, 0);
    CollapseRemovesCr(body, 0);
    CollapseLength(body, 0);
    CollapseIdentity(Collapse(body), 0);
    assert Collapse(body)[0..] == Collapse(body);
  }

  /** A forced conversion is stable under a second pass exactly when CR CR LF does not occur. */
  lemma ForcedConversion(
    body: seq<Byte>, mode: nat, indexed: seq<Byte>, attrs: Attrs, autocrlf: bool, collapseIdent: seq<Byte> -> seq<Byte>)
    requires Plain(mode, attrs) && Forced(attrs)
    ensures var r := Normalize(body, mode, indexed, attrs, autocrlf, collapseIdent);
            && r.Success?
            && (Normalize(r.value, mode, indexed, attrs, autocrlf, collapseIdent) == r <==> NoDoubleCrLf(body))
  {
    CollapseIdempotent(body);
  }

  // ---------------------------------------------------------------- checking out with CR LF

  function Tally(body: seq<Byte>, control: bool): nat {
    if body == [] then 0
    else (if body[0] != CR && body[0] != LF && IsControl(body[0]) == control then 1 else 0) + Tally(body[1..], control)
  }

  lemma {:induction false} CountIsTally(body: seq<Byte>, control: bool, i: nat)
    requires i <= |body|
    ensures Count(body, if control then Nonprintable else Printable, i) == Tally(body[i..], control)
    decreases |body| - i
  {
    if i < |body| {
      CountIsTally(body, control, i + 1);
      assert body[i..][1..] == body[i + 1..];
    }
  }

  lemma {:induction false} TallyConcat(a: seq<Byte>, b: seq<Byte>, control: bool)
    ensures Tally(a + b, control) == Tally(a, control) + Tally(b, control)
  {
    if a == [] {
      assert a + b == b;
    } else {
      TallyConcat(a[1..], b, control);
      assert (a + b)[1..] == a[1..] + b;
    }
  }

  lemma {:induction false} ToCrLfKeepsStats(text: seq<Byte>)
    requires NoCr(text)
    ensures NoLoneCr(ToCrLf(text))
    ensures Tally(ToCrLf(text), true) == Tally(text, true) && Tally(ToCrLf(text), false) == Tally(text, false)
    ensures 0 in ToCrLf(text) <==> 0 in text
  {
    if text != [] {
      var head, tail := if text[0] == LF then [CR, LF] else [text[0]], text[1..];
      assert text == [text[0]] + tail && forall b :: b in tail ==> b in text;
      ToCrLfKeepsStats(tail);
      TallyConcat(head, ToCrLf(tail), true);
      TallyConcat(head, ToCrLf(tail), false);
      assert text[0] == LF ==> head[1..] == [LF] && head[1..][1..] == [];
      assert text[0] in text;
    }
  }

  /** From the tail on, a body collapses like the tail alone. */
  lemma {:induction false} CollapseShift(body: seq<Byte>, tail: seq<Byte>, shift: nat, i: nat)
    requires |body| == shift + |tail| && forall k :: shift <= k < |body| ==> body[k] == tail[k - shift]
    requires shift <= i <= |body|
    ensures CollapseFrom(body, i) == CollapseFrom(tail, i - shift)
    decreases |body| - i
  {
    if i < |body| {
      CollapseShift(body, tail, shift, i + 1);
      if i + 1 < |body| {
        CollapseShift(body, tail, shift, i + 2);
      }
    }
  }

  lemma {:induction false} CollapseUndoesToCrLf(text: seq<Byte>)
    requires NoCr(text)
    ensures Collapse(ToCrLf(text)) == text
  {
    if text != [] {
      var head, tail := if text[0] == LF then [CR, LF] else [text[0]], text[1..];
      assert text == [text[0]] + tail && forall b :: b in tail ==> b in text;
      CollapseUndoesToCrLf(tail);
      CollapseShift(head + ToCrLf(tail), ToCrLf(tail), |head|, |head|);
      assert text[0] in text;
    }
  }

  /** A text without CR that is checked out with CR LF line ends normalizes back to itself. */
  lemma CheckoutRoundTrip(
    text: seq<Byte>, mode: nat, indexed: seq<Byte>, attrs: Attrs, autocrlf: bool, collapseIdent: seq<Byte> -> seq<Byte>)
    requires NoCr(text) && !Stats(text).0
    requires Plain(mode, attrs) && (Forced(attrs) || Automatic(attrs, autocrlf))
    requires Stats(indexed).0 || Stats(indexed).1 == 0
    ensures !Stats(ToCrLf(text)).0
    ensures Normalize(ToCrLf(text), mode, indexed, attrs, autocrlf, collapseIdent) == Success(text)
  {
    var crlf := ToCrLf(text);
    ToCrLfKeepsStats(text);
    NoLoneCrCount(crlf, 0);
    assert crlf[0..] == crlf && text[0..] == text;
    CountIsTally(crlf, true, 0);
    CountIsTally(crlf, false, 0);
    CountIsTally(text, true, 0);
    CountIsTally(text, false, 0);
    CollapseUndoesToCrLf(text);
  }
}
