/** Packages put together field by field, and what becomes of them at the device. */
module PackageMade {
  import opened Basics
  import opened PackageHead
  import opened PackageStream

  /** A TLV by what it is for: a checksum value, a flash type, or anything else. */
  datatype Part = Sum(value: bytes) | Bin(flash: nat) | Extra(kind: nat, value: bytes)

  /** The version, the declared length, the TLVs and what follows the header. */
  datatype Package = Package(version: nat, total: nat, parts: seq<Part>, body: bytes)

  function KindOf(p: Part): nat {
    match p
    case Sum(_) => 3
    case Bin(_) => 4
    case Extra(kind, _) => kind
  }

  function Content(p: Part): bytes {
    match p
    case Sum(value) => value
    case Bin(flash) => Encoded(flash, 4)
    case Extra(_, value) => value
  }

  function PartBytes(p: Part): bytes {
    Encoded(KindOf(p), 2) + Encoded(|Content(p)|, 2) + Content(p)
  }

  function PartsBytes(ps: seq<Part>): bytes {
    if ps == [] then [] else PartBytes(ps[0]) + PartsBytes(ps[1..])
  }

  function HeaderLen(k: Package): nat { 12 + |PartsBytes(k.parts)| }

  function Header(k: Package): bytes {
    Encoded(k.version, 4) + Encoded(HeaderLen(k), 4) + Encoded(k.total, 4) + PartsBytes(k.parts)
  }

  /** The package as it is sent. */
  function Made(k: Package): bytes { Header(k) + k.body }

  /** Every field fits the bytes it has. */
  predicate PartFits(p: Part) {
    |Content(p)| < 0x1_0000
    && match p
       case Sum(_) => true
       case Bin(flash) => flash < 0x1_0000_0000
       case Extra(kind, _) => kind < 0x1_0000 && kind != 3 && kind != 4
  }

  predicate Fits(k: Package) {
    && k.version < 0x1_0000_0000 && k.total < 0x1_0000_0000 && |Made(k)| < 0x1_0000_0000
    && forall i :: 0 <= i < |k.parts| ==> PartFits(k.parts[i])
  }

  /** A checksum value replaced by zeros. */
  function Erased(p: Part): Part { if p.Sum? then Sum(Zeros(|p.value|)) else p }

  function AllErased(ps: seq<Part>): seq<Part> {
    if ps == [] then [] else [Erased(ps[0])] + AllErased(ps[1..])
  }

  /** The flash types there are. */
  predicate Known(p: Part) { p.Bin? ==> p.flash < 2 }

  predicate AllKnown(ps: seq<Part>) { forall i :: 0 <= i < |ps| ==> Known(ps[i]) }

  /** The last checksum value, or `before`; an empty one takes the one before away. */
  function LastSum(ps: seq<Part>, before: Option<bytes>): Option<bytes> {
    if ps == [] then before
    else LastSum(ps[1..], if !ps[0].Sum? then before else if ps[0].value != [] then Some(ps[0].value) else None)
  }

  /** The last flash type, or `before`. */
  function Destination(ps: seq<Part>, before: Option<nat>): Option<nat> {
    if ps == [] then before else Destination(ps[1..], if ps[0].Bin? then Some(ps[0].flash) else before)
  }

  // --- the walk over the parts ---

  /** A TLV in front of the rest is read as what it was made of. */
  lemma PartRead(front: bytes, p: Part, rest: bytes)
    requires PartFits(p)
    ensures var b := front + (PartBytes(p) + rest); var pos := |front|;
      && pos + 4 + |Content(p)| + |rest| == |b| && TlvAt(b, pos) == Tlv(pos, KindOf(p), |Content(p)|)
      && b[pos + 4..pos + 4 + |Content(p)|] == Content(p) && b[..pos + 4] == front + PartBytes(p)[..4]
      && b[pos + 4 + |Content(p)|..] == rest
  {
    hide Encoded, Content, KindOf, Word;
    var b, pos := front + (PartBytes(p) + rest), |front|;
    Pieces(front, Encoded(KindOf(p), 2), Encoded(|Content(p)|, 2), Content(p), rest);
    KindFits(p);
    WordExactly(b, pos, KindOf(p));
    WordExactly(b, pos + 2, |Content(p)|);
  }

  lemma KindFits(p: Part)
    requires PartFits(p)
    ensures KindOf(p) < WORD_VALUES && |Content(p)| < WORD_VALUES
  {
  }

  /** Where the fields of a TLV stand. */
  lemma Pieces(front: bytes, kind: bytes, len: bytes, content: bytes, rest: bytes)
    requires |kind| == 2 && |len| == 2
    ensures var b := front + ((kind + len + content) + rest); var pos := |front|;
      && |b| == pos + 4 + |content| + |rest| && b[pos..pos + 2] == kind && b[pos + 2..pos + 4] == len
      && b[pos + 4..pos + 4 + |content|] == content && b[pos + 4 + |content|..] == rest
      && b[..pos + 4] == front + (kind + len + content)[..4]
      && (kind + len + content)[..4] + content == kind + len + content
  {
    var b, pos := front + ((kind + len + content) + rest), |front|;
    assert b == front + kind + len + content + rest;
  }

  lemma BinRead(front: bytes, p: Part, rest: bytes)
    requires PartFits(p) && p.Bin?
    ensures var b := front + (PartBytes(p) + rest); var t := TlvAt(b, |front|);
      && |b| >= |front| + 8 && t.End() == |front| + 8 && Dword(b, t.Start()) == p.flash
      && (KnownBin(b, t) <==> p.flash < 2)
  {
    hide PartBytes, Dword, Word, TlvAt, Encoded;
    PartRead(front, p, rest);
    var b := front + (PartBytes(p) + rest);
    DwordExactly(b, |front| + 4, p.flash);
  }

  /** Handling it leaves the header with it erased. */
  lemma PartErased(front: bytes, p: Part, rest: bytes)
    requires PartFits(p)
    ensures var b := front + (PartBytes(p) + rest); var t := TlvAt(b, |front|);
      && t.End() <= |b| && Blanked(b, t) == (front + PartBytes(Erased(p))) + rest
      && t.End() == |front + PartBytes(Erased(p))|
  {
    hide TlvAt, Encoded;
    PartRead(front, p, rest);
    var b, pos, n := front + (PartBytes(p) + rest), |front|, |Content(p)|;
    assert PartBytes(p) == PartBytes(p)[..4] + Content(p);
    if p.Sum? {
      assert PartBytes(Erased(p)) == PartBytes(p)[..4] + Zeros(n);
      assert b[..pos + 4] + Zeros(n) + b[pos + 4 + n..] == (front + PartBytes(Erased(p))) + rest;
    } else {
      assert b == (front + PartBytes(Erased(p))) + rest;
    }
  }

  /** What is saved of it. */
  lemma Handled(front: bytes, p: Part, rest: bytes, expected: Option<bytes>, flash: Option<nat>)
    requires PartFits(p)
    ensures var b := front + (PartBytes(p) + rest); var t := TlvAt(b, |front|);
      && t.End() <= |b| && (t.kind == TYPE_BIN <==> p.Bin?) && (p.Bin? ==> (KnownBin(b, t) <==> Known(p)))
      && Noted(b, t, expected) == (if !p.Sum? then expected else if p.value != [] then Some(p.value) else None)
      && Flashed(b, t, flash) == (if p.Bin? && Known(p) then Some(p.flash) else flash)
  {
    hide PartBytes, Dword, Word, TlvAt, Encoded, KnownBin;
    PartRead(front, p, rest);
    if p.Bin? {
      BinRead(front, p, rest);
    }
  }

  /** Whether the walk goes to the end, and what it leaves, for a header made of parts. */
  lemma {:induction false} WalkMade(front: bytes, ps: seq<Part>, expected: Option<bytes>, flash: Option<nat>)
    requires forall i :: 0 <= i < |ps| ==> PartFits(ps[i])
    ensures var w := Walk(front + PartsBytes(ps), |front|, expected, flash);
      && (w.ok <==> AllKnown(ps))
      && (w.ok ==> w.buff == front + PartsBytes(AllErased(ps)))
      && (w.ok ==> w.expected == LastSum(ps, expected) && w.flash == Destination(ps, flash))
    decreases ps
  {
    hide Walk, PartBytes, PartFits;
    if ps == [] {
      assert front + [] == front;
      WalkStops(front, |front|, expected, flash);
    } else {
      var p := ps[0];
      var sum := if !p.Sum? then expected else if p.value != [] then Some(p.value) else None;
      var done := front + PartBytes(Erased(p));
      WalkPart(front, p, PartsBytes(ps[1..]), expected, flash);
      KnownFirst(ps);
      if Known(p) {
        WalkMade(done, ps[1..], sum, if p.Bin? then Some(p.flash) else flash);
        ErasedFirst(front, ps);
      }
    }
  }

  lemma KnownFirst(ps: seq<Part>)
    requires ps != []
    ensures AllKnown(ps) <==> Known(ps[0]) && AllKnown(ps[1..])
  {
    hide Known;
    assert ps == [ps[0]] + ps[1..];
  }

  lemma ErasedFirst(front: bytes, ps: seq<Part>)
    requires ps != []
    ensures front + PartsBytes(AllErased(ps)) == front + PartBytes(Erased(ps[0])) + PartsBytes(AllErased(ps[1..]))
  {
    hide PartBytes, Erased;
    assert AllErased(ps)[1..] == AllErased(ps[1..]);
  }

  /** One turn of the walk. */
  lemma WalkPart(front: bytes, p: Part, rest: bytes, expected: Option<bytes>, flash: Option<nat>)
    requires PartFits(p)
    ensures var done := front + PartBytes(Erased(p));
      var w := Walk(front + (PartBytes(p) + rest), |front|, expected, flash);
      if !Known(p) then !w.ok
      else w == Walk(done + rest, |done|,
                     if !p.Sum? then expected else if p.value != [] then Some(p.value) else None,
                     if p.Bin? then Some(p.flash) else flash)
  {
    hide Walk, PartBytes, PartFits, TlvAt, Blanked, Noted, Flashed, KnownBin;
    PartRead(front, p, rest);
    PartErased(front, p, rest);
    Handled(front, p, rest, expected, flash);
    WalkTurn(front + (PartBytes(p) + rest), |front|, expected, flash);
  }

  // --- the package as the device reads it ---

  function FixedBytes(k: Package): (b: bytes)
    ensures |b| == 12
  {
    Encoded(k.version, 4) + Encoded(HeaderLen(k), 4) + Encoded(k.total, 4)
  }

  /** With the checksum values erased, as it is checked. */
  function Erase(k: Package): Package { k.(parts := AllErased(k.parts)) }

  lemma {:induction false} ErasedLength(ps: seq<Part>)
    ensures |PartsBytes(AllErased(ps))| == |PartsBytes(ps)|
  {
    hide Encoded;
    if ps != [] {
      ErasedLength(ps[1..]);
      assert AllErased(ps)[1..] == AllErased(ps[1..]);
    }
  }

  lemma ThreeFields(a: bytes, b: bytes, c: bytes, rest: bytes)
    requires |a| == 4 && |b| == 4 && |c| == 4
    ensures var p := a + b + c + rest; p[0..4] == a && p[4..8] == b && p[8..12] == c && p[..12] == a + b + c
  {
  }

  lemma FieldsRead(k: Package)
    requires Fits(k)
    ensures var p := Made(k);
      && 12 <= HeaderLen(k) <= |p| && Dword(p, 0) == k.version && Dword(p, 4) == HeaderLen(k) && Dword(p, 8) == k.total
      && p[..HeaderLen(k)] == Header(k) && p[HeaderLen(k)..] == k.body
  {
    hide Encoded, Dword, PartsBytes, PartFits;
    var p, rest := Made(k), PartsBytes(k.parts) + k.body;
    assert p == Encoded(k.version, 4) + Encoded(HeaderLen(k), 4) + Encoded(k.total, 4) + rest;
    ThreeFields(Encoded(k.version, 4), Encoded(HeaderLen(k), 4), Encoded(k.total, 4), rest);
    DwordExactly(p, 0, k.version);
    DwordExactly(p, 4, HeaderLen(k));
    DwordExactly(p, 8, k.total);
  }

  /** The fixed part is accepted for version 0 and a header that is short enough and in front of something. */
  lemma FixedPartExactly(k: Package)
    requires Fits(k)
    ensures |Made(k)| >= HEADER_MIN_LEN
    ensures FixedPart(Made(k)) ==
      if k.version == 0 && HeaderLen(k) <= 4096 && HeaderLen(k) < k.total then Some(HeaderLen(k)) else None
  {
    hide Dword, Made;
    FieldsRead(k);
  }

  /** What the walk over the TLVs says of a package made of parts. */
  lemma WalkOfMade(k: Package)
    requires Fits(k)
    ensures |Made(k)| >= HEADER_MIN_LEN && HeadLenOf(Made(k)) == HeaderLen(k) <= |Made(k)|
    ensures var w := WalkOf(Made(k));
      && (w.ok <==> AllKnown(k.parts))
      && (w.ok ==> w.buff == Header(Erase(k)) && w.expected == LastSum(k.parts, None))
      && (w.ok ==> w.flash == Destination(k.parts, None))
  {
    hide Encoded, Dword, PartsBytes, PartFits, Walk, Made, AllKnown;
    FieldsRead(k);
    ErasedLength(k.parts);
    WalkMade(FixedBytes(k), k.parts, None, None);
  }

  /** All that a package needs to be valid, in its own fields. */
  predicate Sound(k: Package) {
    && k.version == 0 && k.parts != [] && HeaderLen(k) <= 4096 && k.body != [] && k.total == |Made(k)|
    && AllKnown(k.parts) && LastSum(k.parts, None).Some?
  }

  lemma SomeParts(ps: seq<Part>)
    ensures ps != [] <==> |PartsBytes(ps)| > 0
  {
    hide Encoded, Content;
  }

  lemma MadeValid(k: Package)
    requires Fits(k)
    ensures ValidPackage(Made(k)) <==> Sound(k)
  {
    hide Dword, Walk, FixedPart, Made, AllKnown, PartsBytes, PartFits;
    FieldsRead(k);
    FixedPartExactly(k);
    WalkOfMade(k);
    SomeParts(k.parts);
  }

  /**
   * However a sound package is cut into chunks of 1 to 65535 bytes, each is accepted, the writer is given the body, and
   * the device has the erased header, the last checksum value and the last flash type, and has absorbed that header and
   * the body.
   */
  lemma MadeDelivered(k: Package, chunks: seq<bytes>, goOn: bool, r: Restored)
    requires Fits(k) && Sound(k) && Cut(chunks) && Flat(chunks) == Made(k)
    ensures var w := Feed(NEW_DEVICE, 0, chunks, goOn, r); var h := w.device.head;
      && w.ok && Covers(w.device.log, k.body) && Done(h) && h.stored == Header(Erase(k))
      && h.expected == LastSum(k.parts, None) && h.flash == Destination(k.parts, None)
      && h.checksum.Some? && h.checksum.value.absorbed == Header(Erase(k)) + k.body
  {
    hide Feed, Covers, WalkOf, Made, Header, LastSum, Destination, ValidPackage, Sound, Dword;
    MadeValid(k);
    FieldsRead(k);
    ValidWalk(k);
    CuttingDoesNotMatter(Made(k), chunks, goOn, r);
  }

  lemma ValidWalk(k: Package)
    requires Fits(k) && ValidPackage(Made(k))
    ensures HeadLenOf(Made(k)) == HeaderLen(k) <= |Made(k)|
    ensures var w := WalkOf(Made(k));
      w.buff == Header(Erase(k)) && w.expected == LastSum(k.parts, None) && w.flash == Destination(k.parts, None)
  {
    hide Walk, FixedPart, Dword, Made;
    WalkOfMade(k);
  }

  /**
   * The end call after a package, however cut: with a finished download it succeeds exactly when the version is 0, the
   * header is short enough, the length given is the declared one and, if all flash types are known and there is a
   * checksum value, the signature check accepts the erased header and the body.
   */
  lemma MadeEnd(k: Package, chunks: seq<bytes>, goOn: bool, r: Restored, downloaded: bool, total: nat, ended: bool,
                check: (bytes, bytes) -> bool)
    requires Fits(k) && Cut(chunks) && Flat(chunks) == Made(k)
    ensures WriteEnd(Feed(NEW_DEVICE, 0, chunks, goOn, r).device, downloaded, total, ended, check).ok <==>
      ended && (downloaded ==>
        && k.version == 0 && HeaderLen(k) <= 4096 && HeaderLen(k) < k.total && total == k.total
        && (AllKnown(k.parts) && LastSum(k.parts, None).Some? ==>
              check(Header(Erase(k)) + k.body, LastSum(k.parts, None).value)))
  {
    hide Feed, WriteEnd, WalkOf, Made, Header, LastSum, AllKnown, Dword, FixedPart;
    FieldsRead(k);
    FixedPartExactly(k);
    WalkOfMade(k);
    EndExactly(Made(k), chunks, goOn, r, downloaded, total, ended, check);
  }
}
