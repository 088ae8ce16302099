/** The extensions behind the entries of an index file, and when such a file is accepted. */
module IndexExtensions {
  import opened Wrappers
  import opened Bytes
  import opened SplitIndex

  datatype Extension = Extension(signature: seq<Byte>, data: seq<Byte>) {
    predicate Fits() { |signature| == 4 && |data| < 0x1_0000_0000 }

    function Bytes(): (bytes: seq<Byte>)
      ensures |bytes| == |signature| + 4 + |data|
    {
      signature + BigEndian(|data|, 4) + data
    }
  }

  function Serialized(extensions: seq<Extension>): seq<Byte> {
    if extensions == [] then [] else extensions[0].Bytes() + Serialized(extensions[1..])
  }

  predicate AllFit(extensions: seq<Extension>) {
    forall i :: 0 <= i < |extensions| ==> extensions[i].Fits()
  }

  predicate Once(extensions: seq<Extension>, signature: seq<Byte>, already: bool) {
    && (already ==> forall i :: 0 <= i < |extensions| ==> extensions[i].signature != signature)
    && forall i, j :: 0 <= i < j < |extensions| ==>
         extensions[i].signature != signature || extensions[j].signature != signature
  }

  /** An extension that may stand in an index: known and well formed, or one that readers may skip. */
  predicate Allowed(e: Extension)
    requires |e.signature| == 4
  {
    e.signature == LINK || (e.signature == SDIR && e.data == []) || (e.signature != SDIR && !LowerCase(e.signature[0]))
  }

  /** What the reader accepts, behind extensions that did or did not hold a link and a sparse-directory mark. */
  predicate Accepted(extensions: seq<Extension>, linked: bool, sparse: bool)
    requires AllFit(extensions)
  {
    && Once(extensions, LINK, linked) && Once(extensions, SDIR, sparse)
    && forall i :: 0 <= i < |extensions| ==> Allowed(extensions[i])
  }

  lemma Pieces(signature: seq<Byte>, size: seq<Byte>, data: seq<Byte>, rest: seq<Byte>)
    requires |signature| == 4 && |size| == 4
    ensures var all := signature + size + data + rest;
            && |all| == 8 + |data| + |rest|
            && all[..4] == signature && all[4..8] == size && all[8..8 + |data|] == data && all[8 + |data|..] == rest
  {
  }

  lemma SizeRoundTrip(size: nat)
    requires size < 0x1_0000_0000
    ensures FromBigEndian(BigEndian(size, 4)) == size
  {
    PowersOf256();
    BigEndianRoundTrip(size, 4);
    hide BigEndian, FromBigEndian, Pow;
  }

  /** What the reader makes of one extension and of what follows. */
  lemma LinkOfStep(e: Extension, rest: seq<Byte>, link: Option<seq<Byte>>, sparse: bool)
    requires e.Fits()
    ensures LinkOf(e.Bytes() + rest, link, sparse) ==
            if e.signature == LINK then
              if link.Some? then Failure(DuplicateLink) else LinkOf(rest, Some(e.data), sparse)
            else if e.signature == SDIR then
              if sparse || e.data != [] then Failure(InvalidSparseDirectory) else LinkOf(rest, link, true)
            else if LowerCase(e.signature[0]) then Failure(UnsupportedExtension(e.signature))
            else LinkOf(rest, link, sparse)
  {
    SizeRoundTrip(|e.data|);
    Pieces(e.signature, BigEndian(|e.data|, 4), e.data, rest);
    hide BigEndian, FromBigEndian, LowerCase, LINK, SDIR;
  }

  lemma AcceptedStep(extensions: seq<Extension>, linked: bool, sparse: bool)
    requires extensions != [] && AllFit(extensions)
    ensures AllFit(extensions[1..]) && extensions[0].Fits()
    ensures var e := extensions[0];
            Accepted(extensions, linked, sparse) <==>
            && Allowed(e) && (e.signature == LINK ==> !linked) && (e.signature == SDIR ==> !sparse)
            && Accepted(extensions[1..], linked || e.signature == LINK, sparse || e.signature == SDIR)
  {
    var rest := extensions[1..];
    assert forall i :: 0 < i < |extensions| ==> extensions[i] == rest[i - 1];
    assert forall i :: 0 <= i < |rest| ==> rest[i] == extensions[i + 1];
    hide Allowed;
  }

  /**
   * On any list of extensions: the reader accepts it exactly when every extension is allowed and neither the link nor
   * the sparse-directory mark occurs twice; what it returns is the data of the link.
   */
  lemma {:induction false} LinkOfMeaning(extensions: seq<Extension>, link: Option<seq<Byte>>, sparse: bool)
    requires AllFit(extensions)
    ensures var r := LinkOf(Serialized(extensions), link, sparse);
            && (r.Success? <==> Accepted(extensions, link.Some?, sparse))
            && (r.Success? && link.Some? ==> r.value == link)
            && (r.Success? && link.None? ==>
                  forall data :: r.value == Some(data) <==> Extension(LINK, data) in extensions)
    decreases |extensions|
  {
    if extensions != [] {
      var e, rest := extensions[0], extensions[1..];
      assert extensions == [e] + rest;
      assert Serialized(extensions) == e.Bytes() + Serialized(rest);
      AcceptedStep(extensions, link.Some?, sparse);
      LinkOfStep(e, Serialized(rest), link, sparse);
      hide LinkOf, Serialized, Accepted, Extension.Bytes, AllFit;
      LinkOfMeaning(rest, if e.signature == LINK then Some(e.data) else link, sparse || e.signature == SDIR);
    }
  }

  /** A lone link is read as its data, and an index without extensions has none. */
  lemma SingleExtension(data: seq<Byte>)
    requires |data| < 0x1_0000_0000
    ensures LinkOf(Extension(LINK, data).Bytes(), None, false) == Success(Some(data))
    ensures LinkOf([], None, false) == Success(None)
  {
    var e := Extension(LINK, data);
    LinkOfStep(e, [], None, false);
    assert e.Bytes() + [] == e.Bytes();
  }

  /** The bytes of the first extension. */
  lemma FirstExtension(rest: seq<Byte>) returns (e: Extension)
    requires |rest| >= 8 && |rest| - 8 >= FromBigEndian(rest[4..8])
    ensures e.Fits() && e.signature == rest[..4]
    ensures |e.Bytes()| == 8 + FromBigEndian(rest[4..8])
    ensures rest == e.Bytes() + rest[|e.Bytes()|..]
  {
    var size := FromBigEndian(rest[4..8]);
    PowersOf256();
    BigEndianOfBytes(rest[4..8]);
    e := Extension(rest[..4], rest[8..8 + size]);
    hide BigEndian, FromBigEndian, Pow;
    assert rest == rest[..4] + rest[4..8] + rest[8..8 + size] + rest[8 + size..];
  }

  /** Everything that is accepted is a list of extensions. */
  lemma {:induction false} AcceptedAreExtensions(rest: seq<Byte>, link: Option<seq<Byte>>, sparse: bool)
    returns (extensions: seq<Extension>)
    requires LinkOf(rest, link, sparse).Success?
    ensures AllFit(extensions) && Serialized(extensions) == rest
    decreases |rest|
  {
    if rest == [] {
      extensions := [];
    } else {
      var e := FirstExtension(rest);
      var next := rest[|e.Bytes()|..];
      LinkOfStep(e, next, link, sparse);
      hide LinkOf;
      var more := AcceptedAreExtensions(
        next, if e.signature == LINK then Some(e.data) else link, sparse || e.signature == SDIR);
      extensions := [e] + more;
      hide Extension.Bytes;
      assert extensions[1..] == more;
    }
  }

  ghost predicate Holds(bytes: seq<Byte>, extensions: seq<Extension>) {
    AllFit(extensions) && Serialized(extensions) == bytes && Accepted(extensions, false, false)
  }

  /**
   * An index file is accepted exactly when it is long enough, its checksum is missing or right, it is the one that was
   * expected, the library decodes its entries, and its extensions are acceptable; then its entries are returned with
   * the data of the link.
   */
  lemma ParsedExactly(file: IndexFile, expected: Option<Digest>)
    ensures var r := Parsed(file, expected);
            && (r.Success? <==>
                && file.length >= 32
                && (file.checksum == ZERO_DIGEST || file.checksum == file.actual)
                && (expected.Some? ==> file.actual == file.checksum == expected.value)
                && file.records.Some?
                && exists extensions :: Holds(file.extensions, extensions))
            && (r.Success? ==> Some(r.value.0) == file.records)
            && (r.Success? ==> forall extensions, data :: Holds(file.extensions, extensions) ==>
                  (r.value.1 == Some(data) <==> Extension(LINK, data) in extensions))
  {
    var linked := LinkOf(file.extensions, None, false);
    if linked.Success? {
      var extensions := AcceptedAreExtensions(file.extensions, None, false);
      LinkOfMeaning(extensions, None, false);
      assert Holds(file.extensions, extensions) by { hide LinkOf, Accepted, AllFit; }
    }
    forall extensions | Holds(file.extensions, extensions)
      ensures linked.Success?
      ensures forall data :: linked.value == Some(data) <==> Extension(LINK, data) in extensions
    {
      LinkOfMeaning(extensions, None, false);
      hide LinkOf, Accepted, AllFit;
    }
    hide LinkOf, Holds;
  }
}
