/** A package arriving in chunks: the head put together, the body written, the checksum fed. */
module PackageStream {
  import opened Basics
  import opened PackageHead

  /** The bytes the algorithm absorbed since its reset, and the in-order position. */
  datatype Checksum = Checksum(absorbed: bytes, offset: nat, flag: bool)

  /** The head: stored is buff[..stored_len]; headLen is 0 while buff is NULL. */
  datatype Head =
    Head(stored: bytes, headLen: nat, expected: Option<bytes>, checksum: Option<Checksum>, flash: Option<nat>)

  const NEW_HEAD := Head([], 0, None, None, None)

  function Min(a: nat, b: nat): nat {
    if a <= b then a else b
  }

  predicate Done(h: Head) {
    h.headLen >= HEADER_MIN_LEN && |h.stored| == h.headLen
  }

  function HeadLen(h: Head): nat {
    if Done(h) then h.headLen else 0
  }

  datatype Parsed = Parsed(ok: bool, head: Head, used: nat)

  /** The header length a complete fixed part gives; None when the fixed part is refused. */
  function FixedPart(b: bytes): (r: Option<nat>)
    requires |b| >= HEADER_MIN_LEN
    ensures r.Some? ==> r.value == Dword(b, 4) && HEADER_MIN_LEN <= r.value <= MAX_HEAD_LEN && r.value < Dword(b, 8)
  {
    if Dword(b, 0) != 0 || Dword(b, 4) < HEADER_MIN_LEN || Dword(b, 4) >= Dword(b, 8) || Dword(b, 4) > MAX_HEAD_LEN
    then None
    else Some(Dword(b, 4))
  }

  /** pack_head_parse_head_len: the part of a chunk that falls into the first twelve bytes. */
  function ParseHeadLen(h: Head, offset: nat, chunk: bytes): (r: Parsed)
    ensures r.used <= |chunk|
  {
    if offset >= HEADER_MIN_LEN then Parsed(true, h, 0)
    else if offset > |h.stored| then Parsed(false, h, 0)
    else
      var n := Min(HEADER_MIN_LEN - offset, |chunk|);
      var g := h.(stored := h.stored[..offset] + chunk[..n],
                  headLen := if h.headLen == 0 then HEADER_MIN_LEN else h.headLen);
      if |g.stored| < HEADER_MIN_LEN then Parsed(true, g, n)
      else
        match FixedPart(g.stored)
        case None => Parsed(false, g.(stored := []), n)
        case Some(len) => Parsed(true, if len > g.headLen then g.(headLen := len) else g, n)
  }

  /** pack_head_parse_tlvs on a complete header. */
  function ParseTlvs(h: Head): Parsed
    requires |h.stored| >= HEADER_MIN_LEN
  {
    var w := Walk(h.stored, HEADER_MIN_LEN, h.expected, h.flash);
    var g := h.(stored := w.buff, expected := w.expected, flash := w.flash);
    if w.ok && w.expected.Some? then Parsed(true, g.(checksum := Some(Checksum(w.buff, 0, false))), 0)
    else Parsed(false, g, 0)
  }

  /** The rest of a chunk, after `used` bytes of it went into the fixed part. */
  function ParseRest(g: Head, at: nat, rest: bytes, used: nat): (r: Parsed)
    ensures r.used <= used + |rest|
  {
    if rest == [] && |g.stored| < g.headLen then Parsed(true, g, used)
    else if g.headLen < HEADER_MIN_LEN || (|g.stored| < g.headLen && at > |g.stored|) then Parsed(false, g, 0)
    else if at >= g.headLen then Parsed(true, g, 0)
    else
      var n := Min(|rest|, g.headLen - at);
      var full := g.(stored := g.stored[..at] + rest[..n]);
      if |full.stored| < full.headLen then Parsed(true, full, used + n)
      else if Dword(full.stored, 8) <= full.headLen then Parsed(false, full, used + n)
      else ParseTlvs(full).(used := used + n)
  }

  /** pack_head_parse: used counts the bytes of the chunk that belong to the header. */
  function Parse(h: Head, offset: nat, chunk: bytes): (r: Parsed)
    ensures r.used <= |chunk|
  {
    var first := ParseHeadLen(h, offset, chunk);
    if !first.ok then Parsed(false, first.head, 0)
    else ParseRest(first.head, offset + first.used, chunk[first.used..], first.used)
  }

  // --- a chunk at the device ---

  /** What re-reading the flash brought after a reset: the bytes read, and whether all were. */
  datatype Restored = Restored(ok: bool, read: bytes)

  datatype Updated = Updated(ok: bool, checksum: Checksum)

  /** pack_checksum_update_data; head is the complete header, or [] while there is none. */
  function Update(c: Checksum, head: bytes, offset: nat, data: bytes, r: Restored): Updated {
    if data == [] then Updated(true, c)
    else if (c.flag && c.offset == offset) || |head| == offset then
      Updated(true, Checksum(c.absorbed + data, offset + |data|, true))
    else if !r.ok then Updated(false, c.(absorbed := head + r.read))
    else Updated(true, Checksum(head + r.read + data, offset + |data|, true))
  }

  /** The device: its head, and what the package writer was given, in order. */
  datatype Device = Device(head: Head, log: seq<(nat, bytes)>)

  const NEW_DEVICE := Device(NEW_HEAD, [])

  datatype Written = Written(ok: bool, device: Device)

  function Subtract32(a: nat, b: nat): nat {
    (a - b) % DWORD_VALUES
  }

  /** A length passed as uint16_t. */
  function Short(chunk: bytes): (s: bytes)
    ensures s <= chunk
  {
    chunk[..|chunk| % WORD_VALUES]
  }

  function WithChecksum(h: Head, offset: nat, data: bytes, r: Restored): Head {
    match h.checksum
    case None => h
    case Some(c) => h.(checksum := Some(Update(c, if Done(h) then h.stored else [], offset, data, r).checksum))
  }

  /** What the header did not use goes to the writer, and then to the checksum. */
  function Deliver(h: Head, log: seq<(nat, bytes)>, at: nat, rest: bytes, r: Restored): Device {
    Device(WithChecksum(h, at, rest, r), log + [(Subtract32(at, HeadLen(h)), rest)])
  }

  /** pack_storage_write_software, when the writer answers `accepted`. */
  function Write(d: Device, offset: nat, chunk: bytes, accepted: bool, r: Restored): Written {
    if chunk == [] then Written(false, d) else Pass(d, Parse(d.head, offset, Short(chunk)), offset, chunk, accepted, r)
  }

  /** The rest of pack_storage_write_software, once the head has parsed the chunk. */
  function Pass(d: Device, p: Parsed, offset: nat, chunk: bytes, accepted: bool, r: Restored): Written
    requires p.used <= |chunk|
  {
    if !p.ok then Written(false, d.(head := p.head))
    else if p.used == |chunk| then Written(true, d.(head := p.head))
    else if !accepted then Written(false, d.(head := p.head))
    else Written(true, Deliver(p.head, d.log, (offset + p.used) % DWORD_VALUES, Short(chunk[p.used..]), r))
  }

  /** pack_head_check, with the signature check of the algorithm as `check`. */
  predicate HeadCheck(h: Head, total: nat, check: (bytes, bytes) -> bool) {
    Done(h) && Dword(h.stored, 8) == total
    && (h.expected.Some? && h.checksum.Some? ==> check(h.checksum.value.absorbed, h.expected.value))
  }

  /** pack_storage_write_software_end, when the writer's own end answers `ended`. */
  function WriteEnd(d: Device, downloaded: bool, total: nat, ended: bool, check: (bytes, bytes) -> bool): Written {
    Written(ended && (downloaded ==> HeadCheck(d.head, total, check)),
            if downloaded then d.(head := NEW_HEAD.(flash := d.head.flash)) else d)
  }

  // --- one package, cut into consecutive chunks ---

  function HeadLenOf(p: bytes): nat
    requires |p| >= HEADER_MIN_LEN
  {
    Dword(p, 4)
  }

  function WalkOf(p: bytes): Walked
    requires |p| >= HEADER_MIN_LEN && HeadLenOf(p) <= |p|
  {
    if HeadLenOf(p) < HEADER_MIN_LEN then Walked(false, p, None, None)
    else Walk(p[..HeadLenOf(p)], HEADER_MIN_LEN, None, None)
  }

  /** A stream of bytes whose fixed part is accepted and announces a header longer than that. */
  predicate Headed(p: bytes) {
    HEADER_MIN_LEN <= |p| < DWORD_VALUES && FixedPart(p).Some? && HeadLenOf(p) > HEADER_MIN_LEN
  }

  /** The header has come, its walk went to the end, and a checksum value was saved. */
  predicate Checkable(p: bytes)
    requires |p| >= HEADER_MIN_LEN
  {
    HeadLenOf(p) <= |p| && WalkOf(p).ok && WalkOf(p).expected.Some?
  }

  /** A package whose header is longer than its fixed part, carries a checksum, and is accepted. */
  predicate ValidPackage(p: bytes) {
    Headed(p) && HeadLenOf(p) < |p| && Dword(p, 8) == |p| && Checkable(p)
  }

  /** The head once the first n bytes of p have come, each once and in order. */
  function HeadAt(p: bytes, n: nat): Head
    requires Headed(p) && n <= |p|
  {
    var len := HeadLenOf(p);
    if n == 0 then NEW_HEAD
    else if n < HEADER_MIN_LEN then Head(p[..n], HEADER_MIN_LEN, None, None, None)
    else if n < len then Head(p[..n], len, None, None, None)
    else
      var w := WalkOf(p);
      Head(w.buff, len, w.expected,
           if Checkable(p) then Some(Checksum(w.buff + p[len..n], if n == len then 0 else n, n > len)) else None,
           w.flash)
  }

  /** A head being put together from chunks of p: a prefix is stored, and no TLV has been looked at. */
  predicate Assembling(h: Head, p: bytes)
    requires Headed(p)
  {
    && |h.stored| < HeadLenOf(p) && |h.stored| <= |p| && h.stored == p[..|h.stored|]
    && (if h.headLen == 0 then h.stored == []
        else if h.headLen == HEADER_MIN_LEN then |h.stored| < HEADER_MIN_LEN
        else h.headLen == HeadLenOf(p))
    && h.expected == None && h.checksum == None && h.flash == None
  }

  lemma DwordOfPrefix(p: bytes, n: nat, i: nat)
    requires i + 4 <= n <= |p|
    ensures Dword(p[..n], i) == Dword(p, i)
  {
  }

  lemma PrefixGrows(p: bytes, o: nat, k: nat, n: nat)
    requires o + k <= |p| && n <= k
    ensures p[..o] + p[o..o + k][..n] == p[..o + n]
    ensures p[o..o + k][n..] == p[o + n..o + k]
  {
  }

  /** The fixed part of a package under assembly. */
  lemma ParseHeadLenStep(p: bytes, h: Head, o: nat, k: nat)
    requires Headed(p) && Assembling(h, p) && o <= |h.stored| && o < HEADER_MIN_LEN && 0 < k && o + k <= |p|
    ensures var n := Min(HEADER_MIN_LEN - o, k);
      ParseHeadLen(h, o, p[o..o + k]) == Parsed(true,
        h.(stored := p[..o + n], headLen := if o + n == HEADER_MIN_LEN then HeadLenOf(p)
                                            else if h.headLen == 0 then HEADER_MIN_LEN else h.headLen), n)
  {
    hide WalkOf, Dword;
    var n := Min(HEADER_MIN_LEN - o, k);
    assert h.stored[..o] == p[..o];
    PrefixGrows(p, o, k, n);
    if o + n == HEADER_MIN_LEN {
      DwordOfPrefix(p, o + n, 0);
      DwordOfPrefix(p, o + n, 4);
      DwordOfPrefix(p, o + n, 8);
    }
  }

  /** The bytes after the fixed part, when p's header length is known. */
  lemma ParseRestStep(p: bytes, g: Head, at: nat, m: nat, used: nat)
    requires Headed(p) && Assembling(g, p) && g.headLen == HeadLenOf(p)
    requires HEADER_MIN_LEN <= at <= |g.stored| && at + m <= |p|
    ensures var r := ParseRest(g, at, p[at..at + m], used);
      if at + m < HeadLenOf(p) then
        r == Parsed(true, if m == 0 then g else g.(stored := p[..at + m]), used + m)
      else r.ok == Checkable(p) && r.used == used + HeadLenOf(p) - at && r.head == HeadAt(p, HeadLenOf(p))
  {
    hide FixedPart, Walk, Dword;
    var len := HeadLenOf(p);
    if m > 0 {
      var n := Min(m, len - at);
      assert g.stored[..at] == p[..at];
      PrefixGrows(p, at, m, n);
      if at + n == len {
        DwordOfPrefix(p, len, 8);
        assert p[len..len] == [] && WalkOf(p).buff + [] == WalkOf(p).buff;
      }
    }
  }

  /**
   * One chunk of p while the head is under assembly: a gap is refused and changes nothing; otherwise the
   * stored prefix ends where the chunk does; the TLVs are walked when the last header byte arrives, and then
   * the head is the one a single pass would have left.
   */
  lemma ParseStep(p: bytes, h: Head, o: nat, k: nat)
    requires Headed(p) && Assembling(h, p) && 0 < k && o + k <= |p|
    ensures var r := Parse(h, o, p[o..o + k]);
      if o > |h.stored| then !r.ok && r.head == h
      else if o + k < HeadLenOf(p) then
        && r.ok && r.used == k && Assembling(r.head, p) && r.head.stored == p[..o + k]
        && r.head.headLen == (if o + k < HEADER_MIN_LEN && h.headLen != HeadLenOf(p) then HEADER_MIN_LEN
                                  else HeadLenOf(p))
      else r.ok == Checkable(p) && r.used == HeadLenOf(p) - o && r.head == HeadAt(p, HeadLenOf(p))
  {
    hide ParseHeadLen, ParseRest, Walk, WalkOf, HeadAt, Checkable, FixedPart, Dword;
    var chunk := p[o..o + k];
    if o > |h.stored| {
      ParseGap(h, p, o, chunk);
    } else if o >= HEADER_MIN_LEN {
      ParseAfterFixedPart(h, o, chunk);
      ParseRestStep(p, h, o, k, 0);
    } else {
      var used := Min(HEADER_MIN_LEN - o, k);
      var g := ParseHeadLen(h, o, chunk).head;
      ParseHeadLenStep(p, h, o, k);
      PrefixGrows(p, o, k, used);
      if o + used < HEADER_MIN_LEN {
        ParseAllUsed(g, o + used, used);
      } else {
        assert chunk[used..] == p[o + used..o + used + (k - used)];
        ParseRestStep(p, g, o + used, k - used, used);
      }
    }
  }

  lemma ParseGap(h: Head, p: bytes, o: nat, chunk: bytes)
    requires Headed(p) && Assembling(h, p) && o > |h.stored| && chunk != []
    ensures !Parse(h, o, chunk).ok && Parse(h, o, chunk).head == h
  {
    assert chunk[0..] == chunk;
  }

  lemma ParseAfterFixedPart(h: Head, o: nat, chunk: bytes)
    requires o >= HEADER_MIN_LEN
    ensures Parse(h, o, chunk) == ParseRest(h, o, chunk, 0)
  {
    assert chunk[0..] == chunk;
  }

  lemma ParseAllUsed(g: Head, at: nat, used: nat)
    requires |g.stored| < g.headLen
    ensures ParseRest(g, at, [], used) == Parsed(true, g, used)
  {
  }

  function Body(p: bytes, n: nat): bytes
    requires Headed(p) && n <= |p|
  {
    if n > HeadLenOf(p) then p[HeadLenOf(p)..n] else []
  }

  /** The writer's calls lie end to end from offset 0 and carry exactly body. */
  ghost predicate Covers(log: seq<(nat, bytes)>, body: bytes)
    decreases |log|
  {
    if log == [] then body == []
    else
      var last := log[|log| - 1];
      last.1 != [] && last.0 + |last.1| == |body| && last.1 == body[last.0..]
      && Covers(log[..|log| - 1], body[..last.0])
  }

  lemma CoversMore(log: seq<(nat, bytes)>, body: bytes, piece: bytes)
    requires Covers(log, body) && piece != []
    ensures Covers(log + [(|body|, piece)], body + piece)
  {
    var longer := log + [(|body|, piece)];
    assert longer[..|longer| - 1] == log && (body + piece)[..|body|] == body && (body + piece)[|body|..] == piece;
  }

  lemma CoversNothing(log: seq<(nat, bytes)>)
    requires Covers(log, [])
    ensures log == []
  {
  }

  /** Body bytes that come in order. */
  lemma DeliverBody(p: bytes, log: seq<(nat, bytes)>, n: nat, k: nat, r: Restored)
    requires Headed(p) && Checkable(p) && HeadLenOf(p) <= n && 0 < k && n + k <= |p| && Covers(log, Body(p, n))
    ensures var d := Deliver(HeadAt(p, n), log, n, p[n..n + k], r);
      d.head == HeadAt(p, n + k) && Covers(d.log, Body(p, n + k))
  {
    hide Covers, Walk;
    var len, chunk := HeadLenOf(p), p[n..n + k];
    Absorbs(WalkOf(p).buff, p, len, n, k);
    assert Body(p, n) + chunk == Body(p, n + k);
    assert Subtract32(n, len) == |Body(p, n)|;
    CoversMore(log, Body(p, n), chunk);
  }

  lemma Absorbs(head: bytes, p: bytes, len: nat, n: nat, k: nat)
    requires len <= n && n + k <= |p|
    ensures head + p[len..n] + p[n..n + k] == head + p[len..n + k]
  {
  }

  /** Without a checksum the head takes no notice of the body. */
  lemma DeliverUnchecked(p: bytes, log: seq<(nat, bytes)>, n: nat, k: nat, data: bytes, r: Restored)
    requires Headed(p) && !Checkable(p) && HeadLenOf(p) <= n && n + k <= |p|
    ensures Deliver(HeadAt(p, n), log, n, data, r).head == HeadAt(p, n + k)
  {
  }

  lemma ParseBody(p: bytes, n: nat, chunk: bytes)
    requires Headed(p) && HeadLenOf(p) <= n <= |p| && chunk != []
    ensures Parse(HeadAt(p, n), n, chunk) == Parsed(true, HeadAt(p, n), 0)
  {
    hide Checkable;
    assert chunk[0..] == chunk;
  }

  lemma Whole(chunk: bytes)
    requires |chunk| < WORD_VALUES
    ensures Short(chunk) == chunk && chunk[0..] == chunk
  {
  }

  /** A chunk after the header goes to the writer and the checksum whole. */
  lemma WriteBody(p: bytes, log: seq<(nat, bytes)>, n: nat, k: nat, r: Restored)
    requires Headed(p) && HeadLenOf(p) <= n && 0 < k < WORD_VALUES && n + k <= |p|
    requires Checkable(p) ==> Covers(log, Body(p, n))
    ensures var w := Write(Device(HeadAt(p, n), log), n, p[n..n + k], true, r);
      w.ok && w.device.head == HeadAt(p, n + k) && (Checkable(p) ==> Covers(w.device.log, Body(p, n + k)))
  {
    hide Parse, HeadAt, Covers, Deliver, Checkable, FixedPart;
    Whole(p[n..n + k]);
    ParseBody(p, n, p[n..n + k]);
    if Checkable(p) {
      DeliverBody(p, log, n, k, r);
    } else {
      DeliverUnchecked(p, log, n, k, p[n..n + k], r);
    }
  }

  lemma BodyStarts(p: bytes)
    requires Headed(p) && HeadLenOf(p) <= |p|
    ensures Covers([], Body(p, HeadLenOf(p)))
  {
  }

  /** A header that failed leaves the same head whatever comes behind it. */
  lemma UncheckedStays(p: bytes, n: nat, m: nat)
    requires Headed(p) && !Checkable(p) && HeadLenOf(p) <= n <= |p| && HeadLenOf(p) <= m <= |p|
    ensures HeadAt(p, n) == HeadAt(p, m)
  {
  }

  /** A chunk that brings the last header byte: what is left of it is the start of the body. */
  lemma WriteLastOfHead(p: bytes, h: Head, log: seq<(nat, bytes)>, o: nat, k: nat, r: Restored)
    requires Headed(p) && Assembling(h, p) && 0 < k < WORD_VALUES && o + k <= |p|
    requires o <= |h.stored| && o + k >= HeadLenOf(p) && (Checkable(p) ==> log == [])
    ensures var w := Write(Device(h, log), o, p[o..o + k], true, r);
      && w.ok == Checkable(p) && w.device.head == HeadAt(p, o + k)
      && (Checkable(p) ==> Covers(w.device.log, Body(p, o + k)))
  {
    hide Parse, HeadAt, Deliver, Covers, Body, Walk, Assembling, Checkable, FixedPart;
    var len, chunk := HeadLenOf(p), p[o..o + k];
    Whole(chunk);
    ParseStep(p, h, o, k);
    BodyStarts(p);
    if !Checkable(p) {
      UncheckedStays(p, len, o + k);
    } else if o + k > len {
      Whole(chunk[len - o..]);
      assert chunk[len - o..] == p[len..len + (o + k - len)];
      DeliverBody(p, [], len, o + k - len, r);
    }
  }

  /** The next chunk of a stream: it is refused only when it brings the last byte of a header that fails. */
  lemma WriteStep(p: bytes, log: seq<(nat, bytes)>, n: nat, k: nat, r: Restored)
    requires Headed(p) && 0 < k < WORD_VALUES && n + k <= |p| && (Checkable(p) ==> Covers(log, Body(p, n)))
    ensures var w := Write(Device(HeadAt(p, n), log), n, p[n..n + k], true, r);
      && (w.ok <==> Checkable(p) || !(n < HeadLenOf(p) <= n + k)) && w.device.head == HeadAt(p, n + k)
      && (Checkable(p) ==> Covers(w.device.log, Body(p, n + k)))
  {
    hide Parse, Checkable, Covers, FixedPart, Walk;
    if HeadLenOf(p) <= n {
      WriteBody(p, log, n, k, r);
    } else if n + k >= HeadLenOf(p) {
      if Checkable(p) {
        CoversNothing(log);
      }
      WriteLastOfHead(p, HeadAt(p, n), log, n, k, r);
    } else {
      assert Short(p[n..n + k]) == p[n..n + k];
      ParseStep(p, HeadAt(p, n), n, k);
    }
  }

  function Flat(chunks: seq<bytes>): bytes {
    if chunks == [] then [] else chunks[0] + Flat(chunks[1..])
  }

  /**
   * Consecutive chunks from offset on. After a refusal the caller gives up, or goes on with the next chunk; ok
   * says that none was refused.
   */
  function Feed(d: Device, offset: nat, chunks: seq<bytes>, goOn: bool, r: Restored): Written
    decreases chunks
  {
    if chunks == [] then Written(true, d)
    else
      var w := Write(d, offset, chunks[0], true, r);
      if !w.ok && !goOn then w
      else
        var rest := Feed(w.device, offset + |chunks[0]|, chunks[1..], goOn, r);
        Written(w.ok && rest.ok, rest.device)
  }

  predicate Cut(chunks: seq<bytes>) {
    forall c :: c in chunks ==> 0 < |c| < WORD_VALUES
  }

  lemma FirstOff(chunks: seq<bytes>, p: bytes, n: nat)
    requires chunks != [] && n <= |p| && Flat(chunks) == p[n..]
    ensures n + |chunks[0]| <= |p| && chunks[0] == p[n..n + |chunks[0]|] && Flat(chunks[1..]) == p[n + |chunks[0]|..]
  {
    var k := |chunks[0]|;
    assert |Flat(chunks)| == k + |Flat(chunks[1..])|;
    assert Flat(chunks)[..k] == chunks[0] && Flat(chunks)[k..] == Flat(chunks[1..]);
  }

  lemma {:induction false} FeedFrom(p: bytes, log: seq<(nat, bytes)>, n: nat, chunks: seq<bytes>,
                                    goOn: bool, r: Restored)
    requires Headed(p) && n <= |p| && Cut(chunks) && Flat(chunks) == p[n..]
    requires Checkable(p) ==> Covers(log, Body(p, n))
    ensures var w := Feed(Device(HeadAt(p, n), log), n, chunks, goOn, r);
      && (w.ok <==> Checkable(p) || !(n < HeadLenOf(p) <= |p|)) && w.device.head == HeadAt(p, |p|)
      && (Checkable(p) ==> Covers(w.device.log, Body(p, |p|)))
    decreases chunks
  {
    hide Write, HeadAt, Covers, Body, Checkable, FixedPart, Headed;
    if chunks != [] {
      var k := |chunks[0]|;
      FirstOff(chunks, p, n);
      WriteStep(p, log, n, k, r);
      var w := Write(Device(HeadAt(p, n), log), n, chunks[0], true, r);
      if w.ok || goOn {
        FeedFrom(p, w.device.log, n + k, chunks[1..], goOn, r);
      } else {
        UncheckedStays(p, n + k, |p|);
      }
    }
  }

  /**
   * However a valid package is cut into consecutive chunks: every chunk is accepted, the writer is given the
   * body end to end from offset 0, and the checksum absorbs the blanked header and then the body.
   */
  lemma CuttingDoesNotMatter(p: bytes, chunks: seq<bytes>, goOn: bool, r: Restored)
    requires ValidPackage(p) && Cut(chunks) && Flat(chunks) == p
    ensures var w := Feed(NEW_DEVICE, 0, chunks, goOn, r); var h := w.device.head;
      && w.ok && Covers(w.device.log, p[HeadLenOf(p)..])
      && Done(h) && h.stored == WalkOf(p).buff && h.expected == WalkOf(p).expected && h.flash == WalkOf(p).flash
      && h.checksum.Some? && h.checksum.value.absorbed == WalkOf(p).buff + p[HeadLenOf(p)..]
  {
    hide Write, Parse;
    assert p[0..] == p && p[HeadLenOf(p)..|p|] == p[HeadLenOf(p)..];
    FeedFrom(p, [], 0, chunks, goOn, r);
  }

  // --- every stream, and its end ---

  /** The fixed part of the stream is accepted and the header it announces has come whole. */
  predicate HeaderArrived(p: bytes) {
    |p| >= HEADER_MIN_LEN && FixedPart(p).Some? && HeadLenOf(p) <= |p|
  }

  /** The head before the fixed part is complete, o bytes having come. */
  predicate Gathering(h: Head, p: bytes, o: nat) {
    && o < HEADER_MIN_LEN && o <= |p| && h.stored == p[..o] && h.headLen == (if o == 0 then 0 else HEADER_MIN_LEN)
    && h.expected == None && h.checksum == None
  }

  /** The first bytes of a stream, while the fixed part is not complete. */
  lemma Gathers(p: bytes, h: Head, log: seq<(nat, bytes)>, o: nat, k: nat, r: Restored)
    requires Gathering(h, p, o) && 0 < k && o + k < HEADER_MIN_LEN && o + k <= |p|
    ensures var g := h.(stored := p[..o + k], headLen := HEADER_MIN_LEN);
      Gathering(g, p, o + k) && Write(Device(h, log), o, p[o..o + k], true, r) == Written(true, Device(g, log))
  {
    Whole(p[o..o + k]);
    assert h.stored[..o] == p[..o];
    PrefixGrows(p, o, k, k);
  }

  /** What a refused fixed part leaves. */
  predicate Emptied(h: Head) {
    h.stored == [] && h.headLen == HEADER_MIN_LEN
  }

  lemma FixedPartRefused(p: bytes, h: Head, log: seq<(nat, bytes)>, o: nat, k: nat, r: Restored)
    requires Gathering(h, p, o) && o + k >= HEADER_MIN_LEN && o + k <= |p| && k < WORD_VALUES && FixedPart(p) == None
    ensures var w := Write(Device(h, log), o, p[o..o + k], true, r); !w.ok && Emptied(w.device.head)
  {
    hide ParseRest, Dword;
    Whole(p[o..o + k]);
    FixedPartSeen(p, h, o, k);
  }

  /** The twelve bytes put together are those of the stream, and so is what they say. */
  lemma FixedPartSeen(p: bytes, h: Head, o: nat, k: nat)
    requires Gathering(h, p, o) && o + k >= HEADER_MIN_LEN && o + k <= |p|
    ensures h.stored[..o] + p[o..o + k][..HEADER_MIN_LEN - o] == p[..HEADER_MIN_LEN]
    ensures FixedPart(p[..HEADER_MIN_LEN]) == FixedPart(p)
  {
    hide Dword;
    assert h.stored[..o] == p[..o];
    PrefixGrows(p, o, k, HEADER_MIN_LEN - o);
    DwordOfPrefix(p, HEADER_MIN_LEN, 0);
    DwordOfPrefix(p, HEADER_MIN_LEN, 4);
    DwordOfPrefix(p, HEADER_MIN_LEN, 8);
  }

  lemma EmptiedStays(h: Head, log: seq<(nat, bytes)>, o: nat, chunk: bytes, r: Restored)
    requires Emptied(h) && o >= HEADER_MIN_LEN && 0 < |chunk| < WORD_VALUES
    ensures Write(Device(h, log), o, chunk, true, r) == Written(false, Device(h, log))
  {
    Whole(chunk);
  }

  lemma {:induction false} EmptiedFed(h: Head, log: seq<(nat, bytes)>, o: nat, chunks: seq<bytes>,
                                      goOn: bool, r: Restored)
    requires Emptied(h) && o >= HEADER_MIN_LEN && Cut(chunks)
    ensures Feed(Device(h, log), o, chunks, goOn, r).device.head == h
    decreases chunks
  {
    hide Write;
    if chunks != [] {
      EmptiedStays(h, log, o, chunks[0], r);
      EmptiedFed(h, log, o + |chunks[0]|, chunks[1..], goOn, r);
    }
  }

  /** A stream whose fixed part never comes, or is refused, leaves a head that is not done. */
  lemma {:induction false} NeverDone(p: bytes, h: Head, log: seq<(nat, bytes)>, o: nat, chunks: seq<bytes>, goOn: bool,
                                     r: Restored)
    requires Gathering(h, p, o) && Cut(chunks) && Flat(chunks) == p[o..]
    requires |p| >= HEADER_MIN_LEN ==> FixedPart(p) == None
    ensures var w := Feed(Device(h, log), o, chunks, goOn, r);
      !Done(w.device.head) && (w.ok <==> |p| < HEADER_MIN_LEN)
    decreases chunks
  {
    hide Write, FixedPart;
    if chunks != [] {
      FirstOff(chunks, p, o);
      var k := |chunks[0]|;
      if o + k < HEADER_MIN_LEN {
        Gathers(p, h, log, o, k, r);
        NeverDone(p, h.(stored := p[..o + k], headLen := HEADER_MIN_LEN), log, o + k, chunks[1..], goOn, r);
      } else {
        FixedPartRefused(p, h, log, o, k, r);
        var d := Write(Device(h, log), o, chunks[0], true, r).device;
        EmptiedFed(d.head, d.log, o + k, chunks[1..], goOn, r);
      }
    }
  }

  /** How a stream that is fed whole leaves the head. */
  ghost predicate FedHead(p: bytes, h: Head) {
    if !HeaderArrived(p) then !Done(h)
    else
      && Done(h) && Dword(h.stored, 8) == Dword(p, 8) && h.expected == WalkOf(p).expected
      && (if Checkable(p) then h.checksum.Some? && h.checksum.value.absorbed == WalkOf(p).buff + p[HeadLenOf(p)..]
          else h.checksum == None)
  }

  /** Every stream whatever is refused only for its fixed part or for its TLVs, and its head shows which. */
  lemma AcceptedExactly(p: bytes, chunks: seq<bytes>, goOn: bool, r: Restored)
    requires |p| < DWORD_VALUES && Cut(chunks) && Flat(chunks) == p
    ensures var w := Feed(NEW_DEVICE, 0, chunks, goOn, r);
      && FedHead(p, w.device.head)
      && (w.ok <==> |p| < HEADER_MIN_LEN
                    || (FixedPart(p).Some? && (HeadLenOf(p) == HEADER_MIN_LEN || HeadLenOf(p) > |p| || Checkable(p))))
  {
    hide Feed, Walk, Covers, FixedPart, Dword;
    assert p[0..] == p && p[..0] == [];
    if |p| < HEADER_MIN_LEN || FixedPart(p) == None {
      NeverDone(p, NEW_HEAD, [], 0, chunks, goOn, r);
    } else if HeadLenOf(p) == HEADER_MIN_LEN {
      ShortestHeaderFed(p, NEW_HEAD, [], 0, chunks, goOn, r);
      ShortestWalk(p);
    } else {
      NoBodyYet(p);
      FeedFrom(p, [], 0, chunks, goOn, r);
      HeadAtEnd(p);
    }
  }

  lemma NoBodyYet(p: bytes)
    requires Headed(p)
    ensures Covers([], Body(p, 0))
  {
  }

  /** The head a headed stream leaves at its end. */
  lemma HeadAtEnd(p: bytes)
    requires Headed(p)
    ensures FedHead(p, HeadAt(p, |p|))
  {
    hide Walk, Dword;
    if HeadLenOf(p) <= |p| {
      DeclaredLengthKept(p);
      assert p[HeadLenOf(p)..|p|] == p[HeadLenOf(p)..];
    }
  }

  /**
   * The end call after any stream, however cut, whether or not the caller went on after a refusal: it succeeds
   * exactly when the writer's own end does and, for a finished download, the header has come whole, the length
   * given is the declared one and - only if the walk over the TLVs succeeded with a checksum value saved - the
   * signature check accepts the blanked header and the body.
   */
  lemma EndExactly(p: bytes, chunks: seq<bytes>, goOn: bool, r: Restored, downloaded: bool, total: nat, ended: bool,
                   check: (bytes, bytes) -> bool)
    requires |p| < DWORD_VALUES && Cut(chunks) && Flat(chunks) == p
    ensures WriteEnd(Feed(NEW_DEVICE, 0, chunks, goOn, r).device, downloaded, total, ended, check).ok <==>
      ended && (downloaded ==>
        && HeaderArrived(p) && total == Dword(p, 8)
        && (Checkable(p) ==> check(WalkOf(p).buff + p[HeadLenOf(p)..], WalkOf(p).expected.value)))
  {
    hide Feed, Walk, FixedPart, Dword;
    AcceptedExactly(p, chunks, goOn, r);
  }

  /** The walk leaves the fixed part alone, so the declared length survives it, even if it fails. */
  lemma DeclaredLengthKept(p: bytes)
    requires Headed(p) && HeadLenOf(p) <= |p|
    ensures Dword(WalkOf(p).buff, 8) == Dword(p, 8)
  {
    var b := p[..HeadLenOf(p)];
    WalkKeepsFront(b, HEADER_MIN_LEN, None, None);
    DwordOfPrefix(p, HeadLenOf(p), 8);
  }

  // --- chunks that come again, or too early ---

  /** A chunk of the package p, wherever it lies. */
  datatype Piece = Piece(at: nat, len: nat)

  predicate PieceOf(p: bytes, c: Piece) {
    0 < c.len < WORD_VALUES && c.at + c.len <= |p|
  }

  predicate Pieces(p: bytes, pieces: seq<Piece>) {
    forall i :: 0 <= i < |pieces| ==> PieceOf(p, pieces[i])
  }

  /** The device after some pieces of p, refused or not. */
  function AfterPieces(d: Device, p: bytes, pieces: seq<Piece>, r: Restored): Device
    requires Pieces(p, pieces)
    decreases |pieces|
  {
    if pieces == [] then d
    else
      var c := pieces[|pieces| - 1];
      Write(AfterPieces(d, p, pieces[..|pieces| - 1], r), c.at, p[c.at..c.at + c.len], true, r).device
  }

  /** The piece brings the last byte of the header. */
  predicate Completes(h: Head, p: bytes, c: Piece)
    requires Headed(p)
  {
    c.at <= |h.stored| && c.at + c.len >= HeadLenOf(p)
  }

  lemma PieceStep(p: bytes, h: Head, c: Piece, r: Restored)
    requires Headed(p) && Assembling(h, p) && PieceOf(p, c)
    ensures var w := Write(Device(h, []), c.at, p[c.at..c.at + c.len], true, r);
      && (c.at > |h.stored| ==> !w.ok && w.device == Device(h, []))
      && (c.at <= |h.stored| ==> (w.ok <==> Completes(h, p, c) ==> Checkable(p)))
      && (!Completes(h, p, c) ==> Assembling(w.device.head, p) && w.device.log == [])
      && (Completes(h, p, c) ==>
            && w.device.head == HeadAt(p, c.at + c.len)
            && (Checkable(p) ==> Covers(w.device.log, Body(p, c.at + c.len))))
  {
    hide Parse, HeadAt, Covers, Walk, Deliver, Checkable, FixedPart;
    if Completes(h, p, c) {
      WriteLastOfHead(p, h, [], c.at, c.len, r);
    } else {
      Whole(p[c.at..c.at + c.len]);
      ParseStep(p, h, c.at, c.len);
    }
  }

  /** No piece of the run so far has completed the header. */
  ghost predicate NoneCompletes(p: bytes, pieces: seq<Piece>, r: Restored)
    requires Headed(p) && Pieces(p, pieces)
  {
    forall i :: 0 <= i < |pieces| ==> !Completes(AfterPieces(NEW_DEVICE, p, pieces[..i], r).head, p, pieces[i])
  }

  /**
   * Whatever pieces of a package come, in whatever order and however often, until one completes the
   * header: the stored bytes are a prefix of the package, no TLV has been walked, nothing has been written.
   */
  lemma {:induction false} AssemblyRun(p: bytes, pieces: seq<Piece>, r: Restored)
    requires Headed(p) && Pieces(p, pieces) && NoneCompletes(p, pieces, r)
    ensures var d := AfterPieces(NEW_DEVICE, p, pieces, r); Assembling(d.head, p) && d.log == []
    decreases |pieces|
  {
    hide Write, Completes, Assembling;
    if pieces == [] {
      NewHeadAssembles(p);
    } else {
      var before, c := pieces[..|pieces| - 1], pieces[|pieces| - 1];
      assert forall i :: 0 <= i < |before| ==> before[..i] == pieces[..i];
      AssemblyRun(p, before, r);
      PieceStep(p, AfterPieces(NEW_DEVICE, p, before, r).head, c, r);
    }
  }

  lemma NewHeadAssembles(p: bytes)
    requires Headed(p)
    ensures Assembling(NEW_HEAD, p)
  {
  }

  /** A run whose last piece is the first to complete the header leaves the device as one pass would have. */
  lemma CompletionAfterRun(p: bytes, pieces: seq<Piece>, r: Restored)
    requires Headed(p) && Pieces(p, pieces)
    ensures LastCompletes(p, pieces, r) ==>
      var d, c := AfterPieces(NEW_DEVICE, p, pieces, r), pieces[|pieces| - 1];
      && c.at + c.len <= |p| && d.head == HeadAt(p, c.at + c.len)
      && (Checkable(p) ==> Covers(d.log, Body(p, c.at + c.len)))
  {
    hide Write, Completes, Assembling, Covers, HeadAt, Body, Headed, Checkable, NoneCompletes;
    if LastCompletes(p, pieces, r) {
      var before, c := pieces[..|pieces| - 1], pieces[|pieces| - 1];
      AssemblyRun(p, before, r);
      PieceStep(p, AfterPieces(NEW_DEVICE, p, before, r).head, c, r);
    }
  }

  /** The last piece of the run, and none before it, brings the last byte of the header. */
  ghost predicate LastCompletes(p: bytes, pieces: seq<Piece>, r: Restored)
    requires Headed(p) && Pieces(p, pieces)
  {
    && pieces != [] && NoneCompletes(p, pieces[..|pieces| - 1], r)
    && Completes(AfterPieces(NEW_DEVICE, p, pieces[..|pieces| - 1], r).head, p, pieces[|pieces| - 1])
  }

  // --- a completing chunk that comes again ---

  /** The header put together from a blanked one up to o and the package from there on. */
  function Remade(p: bytes, o: nat): bytes
    requires Headed(p) && Checkable(p) && o <= HeadLenOf(p)
  {
    WalkOf(p).buff[..o] + p[o..HeadLenOf(p)]
  }

  /** The last checksum value as it stands there: zero in front of o. */
  function Resaved(p: bytes, t: Tlv, o: nat): bytes
    requires t.End() <= |p|
  {
    seq(t.len, i requires 0 <= i < t.len => if t.Start() + i < o then 0 else p[t.Start() + i])
  }

  lemma RemadeWalk(p: bytes, o: nat) returns (ts: seq<Tlv>, t: Tlv)
    requires Headed(p) && Checkable(p) && HEADER_MIN_LEN <= o <= HeadLenOf(p)
    ensures Tiles(p[..HeadLenOf(p)], HEADER_MIN_LEN, ts) && LastSigned(ts) == Some(t)
    ensures HEADER_MIN_LEN <= t.pos && t.len > 0 && t.End() <= HeadLenOf(p)
    ensures WalkOf(p).expected == Some(p[t.Start()..t.End()])
    ensures |Remade(p, o)| == HeadLenOf(p)
    ensures Walk(Remade(p, o), HEADER_MIN_LEN, WalkOf(p).expected, WalkOf(p).flash) ==
      WalkOf(p).(expected := Some(Resaved(p, t, o)))
  {
    hide Walk, Tiles, LastSigned, FixedPart;
    var b, c := p[..HeadLenOf(p)], Remade(p, o);
    ts := WalkFinds(b, HEADER_MIN_LEN, None, None);
    assert Alike(b, c, 0, ts);
    WalkAgain(b, c, ts);
    t := LastSigned(ts).value;
    assert b[t.Start()..t.End()] == p[t.Start()..t.End()];
    forall i | t.Start() <= i < t.End() ensures c[i] == if i < o then 0 else p[i] {
      assert Signed(ts, i);
    }
    assert c[t.Start()..t.End()] == Resaved(p, t, o);
  }

  /** A piece that brings the last header byte once more: the header is put together and walked again. */
  lemma ResentParsed(p: bytes, n: nat, o: nat, k: nat) returns (t: Tlv)
    requires Headed(p) && Checkable(p) && HeadLenOf(p) <= n <= |p|
    requires o < HeadLenOf(p) <= o + k <= |p|
    ensures exists ts :: Tiles(p[..HeadLenOf(p)], HEADER_MIN_LEN, ts) && LastSigned(ts) == Some(t)
    ensures HEADER_MIN_LEN <= t.pos && t.len > 0 && t.End() <= HeadLenOf(p)
    ensures WalkOf(p).expected == Some(p[t.Start()..t.End()])
    ensures Parse(HeadAt(p, n), o, p[o..o + k]) ==
      Parsed(true, HeadAt(p, HeadLenOf(p)).(expected := Some(Resaved(p, t, o))), HeadLenOf(p) - o)
  {
    hide FixedPart, Walk, ParseHeadLen, ParseRest, Tiles, LastSigned, Dword;
    var len, h, chunk := HeadLenOf(p), HeadAt(p, n), p[o..o + k];
    var s := if o < HEADER_MIN_LEN then HEADER_MIN_LEN else o;
    var ts;
    ts, t := RemadeWalk(p, s);
    RemadeLength(p, s);
    assert WalkOf(p).buff + p[len..len] == WalkOf(p).buff;
    assert Resaved(p, t, s) == Resaved(p, t, o);
    if o < HEADER_MIN_LEN {
      ResentFixedPart(p, h, o, k);
      PrefixGrows(p, o, k, s - o);
      ResentRest(p, h.(stored := p[..s]), s, k - (s - o), s - o);
      assert chunk[s - o..] == p[s..s + (k - (s - o))];
    } else {
      ParseAfterFixedPart(h, o, chunk);
      ResentRest(p, h, o, k, 0);
    }
  }

  lemma ResentFixedPart(p: bytes, h: Head, o: nat, k: nat)
    requires Headed(p) && h.headLen == HeadLenOf(p) == |h.stored| && h.stored[..HEADER_MIN_LEN] == p[..HEADER_MIN_LEN]
    requires o < HEADER_MIN_LEN <= o + k <= |p|
    ensures ParseHeadLen(h, o, p[o..o + k]) == Parsed(true, h.(stored := p[..HEADER_MIN_LEN]), HEADER_MIN_LEN - o)
  {
    hide Dword;
    assert h.stored[..o] == h.stored[..HEADER_MIN_LEN][..o];
    FixedPartSeen(p, Head(p[..o], if o == 0 then 0 else HEADER_MIN_LEN, None, None, None), o, k);
  }

  lemma ResentRest(p: bytes, g: Head, at: nat, m: nat, used: nat)
    requires Headed(p) && Checkable(p) && HEADER_MIN_LEN <= at < HeadLenOf(p) <= at + m <= |p|
    requires g.headLen == HeadLenOf(p) && at <= |g.stored| <= |WalkOf(p).buff| && g.stored[..at] == WalkOf(p).buff[..at]
    requires g.expected == WalkOf(p).expected && g.flash == WalkOf(p).flash
    ensures |Remade(p, at)| == HeadLenOf(p)
    ensures var v := Walk(Remade(p, at), HEADER_MIN_LEN, WalkOf(p).expected, WalkOf(p).flash);
      v.ok && v.expected.Some? ==>
        ParseRest(g, at, p[at..at + m], used) ==
          Parsed(true, Head(v.buff, g.headLen, v.expected, Some(Checksum(v.buff, 0, false)), v.flash),
                 used + HeadLenOf(p) - at)
  {
    hide FixedPart, Walk, Checkable, Dword;
    var n := HeadLenOf(p) - at;
    assert p[at..at + m][..n] == p[at..HeadLenOf(p)];
    RemadeLength(p, at);
  }

  lemma RemadeLength(p: bytes, o: nat)
    requires Headed(p) && Checkable(p) && HEADER_MIN_LEN <= o <= HeadLenOf(p)
    ensures |Remade(p, o)| == HeadLenOf(p) && Dword(Remade(p, o), 8) == Dword(p, 8)
    ensures WalkOf(p).buff[..HEADER_MIN_LEN] == p[..HEADER_MIN_LEN]
  {
    hide FixedPart, Walk;
    WalkKeepsFront(p[..HeadLenOf(p)], HEADER_MIN_LEN, None, None);
  }

  /** The head's saved checksum value plays no part in a delivery. */
  lemma DeliverExpected(h: Head, x: Option<bytes>, log: seq<(nat, bytes)>, at: nat, rest: bytes, r: Restored)
    ensures Deliver(h.(expected := x), log, at, rest, r).head == Deliver(h, [], at, rest, r).head.(expected := x)
    ensures Deliver(h.(expected := x), log, at, rest, r).log == log + [(Subtract32(at, HeadLen(h)), rest)]
  {
  }

  /**
   * After the header is complete, a piece that brings its last byte once more is accepted, and what follows the
   * header is written again. The checksum starts over as after one pass; but the saved checksum value is taken
   * from the blanked buffer in front of the piece. So the head is the one a single pass leaves exactly when the
   * value has nothing but zeros there.
   */
  lemma ResentExactly(p: bytes, log: seq<(nat, bytes)>, n: nat, o: nat, k: nat, r: Restored) returns (t: Tlv)
    requires Headed(p) && Checkable(p) && HeadLenOf(p) <= n <= |p|
    requires o < HeadLenOf(p) <= o + k <= |p| && k < WORD_VALUES
    ensures exists ts :: Tiles(p[..HeadLenOf(p)], HEADER_MIN_LEN, ts) && LastSigned(ts) == Some(t)
    ensures t.End() <= HeadLenOf(p)
    ensures var w := Write(Device(HeadAt(p, n), log), o, p[o..o + k], true, r);
      && w.ok && w.device.head == HeadAt(p, o + k).(expected := Some(Resaved(p, t, o)))
      && w.device.log == log + (if o + k > HeadLenOf(p) then [(0, p[HeadLenOf(p)..o + k])] else [])
      && (w.device.head == HeadAt(p, o + k) <==> forall i :: t.Start() <= i < t.End() && i < o ==> p[i] == 0)
  {
    hide Write, Parse, Deliver, Covers, Walk, FixedPart, Tiles, LastSigned, Checkable, HeadAt, Resaved, Dword;
    var len, chunk := HeadLenOf(p), p[o..o + k];
    t := ResentParsed(p, n, o, k);
    ResavedExactly(p, t, o);
    HeadAfter(p, len);
    HeadAfter(p, o + k);
    var x := Some(Resaved(p, t, o));
    ResentWrite(Device(HeadAt(p, n), log), o, chunk, HeadAt(p, len).(expected := x), len, r);
    if o + k > len {
      var rest := chunk[len - o..];
      assert rest == p[len..len + (o + k - len)];
      BodyStarts(p);
      DeliverBody(p, [], len, o + k - len, r);
      DeliverExpected(HeadAt(p, len), x, log, len, rest, r);
    } else {
      assert log + [] == log;
    }
  }

  lemma HeadAfter(p: bytes, n: nat)
    requires Headed(p) && HeadLenOf(p) <= n <= |p|
    ensures HeadAt(p, n).expected == WalkOf(p).expected && HeadLen(HeadAt(p, n)) == HeadLenOf(p)
  {
    hide Walk, Checkable, FixedPart;
  }

  /** What a chunk leaves whose first bytes up to `len` belong to the header. */
  lemma ResentWrite(d: Device, o: nat, chunk: bytes, g: Head, len: nat, r: Restored)
    requires 0 < |chunk| < WORD_VALUES && o < len <= o + |chunk| && len < DWORD_VALUES
    requires Parse(d.head, o, chunk) == Parsed(true, g, len - o)
    ensures Write(d, o, chunk, true, r) ==
      Written(true, if o + |chunk| == len then d.(head := g) else Deliver(g, d.log, len, chunk[len - o..], r))
  {
    hide Parse, Deliver;
    Whole(chunk);
    Whole(chunk[len - o..]);
  }

  lemma ResavedExactly(p: bytes, t: Tlv, o: nat)
    requires t.End() <= |p|
    ensures Resaved(p, t, o) == p[t.Start()..t.End()] <==> forall i :: t.Start() <= i < t.End() && i < o ==> p[i] == 0
  {
    if Resaved(p, t, o) == p[t.Start()..t.End()] {
      forall i | t.Start() <= i < t.End() && i < o ensures p[i] == 0 {
        assert Resaved(p, t, o)[i - t.Start()] == p[t.Start()..t.End()][i - t.Start()];
      }
    }
  }

  /** A package with one checksum TLV, whose value 7, 8 ends the header, and one byte of body. */
  const SMALL_PACKAGE: bytes := [0, 0, 0, 0, 0, 0, 0, 18, 0, 0, 0, 19, 0, TYPE_CHECKSUM, 0, 2, 7, 8, 99]

  lemma SmallPackageValid()
    ensures ValidPackage(SMALL_PACKAGE) && HeadLenOf(SMALL_PACKAGE) == 18
    ensures WalkOf(SMALL_PACKAGE).expected == Some([7, 8])
    ensures Tiles(SMALL_PACKAGE[..18], HEADER_MIN_LEN, [Tlv(12, TYPE_CHECKSUM, 2)])
  {
    var b, t := SMALL_PACKAGE[..18], Tlv(12, TYPE_CHECKSUM, 2);
    assert Word(SMALL_PACKAGE, 0) == Word(SMALL_PACKAGE, 2) == Word(SMALL_PACKAGE, 4) == Word(SMALL_PACKAGE, 8) == 0;
    assert TlvAt(b, 12) == t;
    WalkTurn(b, 12, None, None);
    WalkStops(Blanked(b, t), 18, Noted(b, t, None), None);
    assert b[16..18] == [7, 8];
  }

  /** Its last two bytes come again: half of the checksum value saved before is lost. */
  lemma ResentLosesValue(r: Restored)
    ensures ValidPackage(SMALL_PACKAGE)
    ensures var w := Write(Device(HeadAt(SMALL_PACKAGE, 19), []), 17, SMALL_PACKAGE[17..19], true, r);
      w.ok && w.device.head != HeadAt(SMALL_PACKAGE, 19) && w.device.head.expected == Some([0, 8])
  {
    hide Write, ValidPackage;
    SmallPackageValid();
    var p, t := SMALL_PACKAGE, Tlv(12, TYPE_CHECKSUM, 2);
    assert Headed(p) && Checkable(p) by {
      ValidMeans(p);
    }
    var u := ResentExactly(p, [], 19, 17, 2, r);
    var ts :| Tiles(p[..18], HEADER_MIN_LEN, ts) && LastSigned(ts) == Some(u);
    TilesUnique(p[..18], HEADER_MIN_LEN, ts, [t]);
    assert Resaved(p, t, 17) == [0, 8];
  }

  lemma ValidMeans(p: bytes)
    requires ValidPackage(p)
    ensures Headed(p) && Checkable(p)
  {
  }

  // --- the shortest header ---

  /** A stream whose accepted header is its fixed part alone. */
  predicate ShortestHeaded(p: bytes) {
    HEADER_MIN_LEN <= |p| < DWORD_VALUES && FixedPart(p) == Some(HEADER_MIN_LEN)
  }

  /**
   * A header of exactly twelve bytes is taken for complete, but the chunk that completes it counts as unused:
   * it goes to the writer header bytes and all, at an offset wrapped below zero, and no checksum exists.
   */
  lemma ShortestHeaderPassedOn(p: bytes, h: Head, log: seq<(nat, bytes)>, o: nat, k: nat, r: Restored)
    requires ShortestHeaded(p) && Gathering(h, p, o) && HEADER_MIN_LEN <= o + k <= |p| && k < WORD_VALUES
    ensures Write(Device(h, log), o, p[o..o + k], true, r) ==
      Written(true, Device(ShortestHead(h, p), log + [(DWORD_VALUES - HEADER_MIN_LEN + o, p[o..o + k])]))
  {
    hide Parse, FixedPart;
    Whole(p[o..o + k]);
    ShortestHeaderParsed(p, h, o, k);
  }

  /** The head with its twelve bytes. */
  function ShortestHead(h: Head, p: bytes): Head
    requires |p| >= HEADER_MIN_LEN
  {
    h.(stored := p[..HEADER_MIN_LEN], headLen := HEADER_MIN_LEN)
  }

  lemma ShortestHeaderParsed(p: bytes, h: Head, o: nat, k: nat)
    requires ShortestHeaded(p) && Gathering(h, p, o) && HEADER_MIN_LEN <= o + k <= |p|
    ensures Parse(h, o, p[o..o + k]) == Parsed(true, ShortestHead(h, p), 0)
  {
    hide ParseTlvs, FixedPart;
    FixedPartSeen(p, h, o, k);
  }

  lemma ShortestHeaderBody(p: bytes, h: Head, log: seq<(nat, bytes)>, o: nat, chunk: bytes, r: Restored)
    requires |p| >= HEADER_MIN_LEN && h == ShortestHead(h, p) && h.checksum == None
    requires HEADER_MIN_LEN <= o && 0 < |chunk| < WORD_VALUES
    ensures var w := Write(Device(h, log), o, chunk, true, r); w.ok && w.device.head == h
  {
    hide ParseTlvs;
    Whole(chunk);
  }

  lemma {:induction false} ShortestBodyFed(p: bytes, h: Head, log: seq<(nat, bytes)>, o: nat, chunks: seq<bytes>,
                                           goOn: bool, r: Restored)
    requires |p| >= HEADER_MIN_LEN && h == ShortestHead(h, p) && h.checksum == None
    requires HEADER_MIN_LEN <= o && Cut(chunks)
    ensures var w := Feed(Device(h, log), o, chunks, goOn, r); w.ok && w.device.head == h
    decreases chunks
  {
    hide Write;
    if chunks != [] {
      ShortestHeaderBody(p, h, log, o, chunks[0], r);
      ShortestBodyFed(p, h, Write(Device(h, log), o, chunks[0], true, r).device.log,
                      o + |chunks[0]|, chunks[1..], goOn, r);
    }
  }

  /** A stream with a twelve-byte header: nothing is refused, and header bytes go to the writer out of range. */
  lemma {:induction false} ShortestHeaderFed(p: bytes, h: Head, log: seq<(nat, bytes)>, o: nat, chunks: seq<bytes>,
                                             goOn: bool, r: Restored)
    requires ShortestHeaded(p) && Gathering(h, p, o) && Cut(chunks) && Flat(chunks) == p[o..]
    ensures var w := Feed(Device(h, log), o, chunks, goOn, r);
      && w.ok && w.device.head == ShortestHead(h, p)
      && |w.device.log| > |log| && w.device.log[|log|].0 >= DWORD_VALUES - HEADER_MIN_LEN
    decreases chunks
  {
    hide Write, FixedPart, Dword;
    assert chunks != [];
    FirstOff(chunks, p, o);
    var k := |chunks[0]|;
    if o + k < HEADER_MIN_LEN {
      Gathers(p, h, log, o, k, r);
      ShortestHeaderFed(p, h.(stored := p[..o + k], headLen := HEADER_MIN_LEN), log, o + k, chunks[1..], goOn, r);
    } else {
      ShortestHeaderPassedOn(p, h, log, o, k, r);
      var d := Write(Device(h, log), o, chunks[0], true, r).device;
      ShortestBodyFed(p, d.head, d.log, o + k, chunks[1..], goOn, r);
      FeedKeepsLog(d, o + k, chunks[1..], goOn, r);
    }
  }

  /** Nothing to walk over. */
  lemma ShortestWalk(p: bytes)
    requires ShortestHeaded(p)
    ensures !Checkable(p) && WalkOf(p).expected == None && Dword(p[..HEADER_MIN_LEN], 8) == Dword(p, 8)
  {
    DwordOfPrefix(p, HEADER_MIN_LEN, 8);
    WalkStops(p[..HEADER_MIN_LEN], HEADER_MIN_LEN, None, None);
  }

  /** A package whose header is accepted as it comes, twelve bytes long or longer. */
  predicate AcceptedPackage(p: bytes) {
    ValidPackage(p) || (ShortestHeaded(p) && Dword(p, 8) == |p|)
  }

  /** What the writer was given once stays in the log. */
  lemma {:induction false} FeedKeepsLog(d: Device, offset: nat, chunks: seq<bytes>, goOn: bool, r: Restored)
    ensures d.log <= Feed(d, offset, chunks, goOn, r).device.log
    decreases chunks
  {
    hide Parse, Deliver;
    if chunks != [] {
      var w := Write(d, offset, chunks[0], true, r);
      WriteKeepsLog(d, offset, chunks[0], r);
      FeedKeepsLog(w.device, offset + |chunks[0]|, chunks[1..], goOn, r);
    }
  }

  lemma WriteKeepsLog(d: Device, offset: nat, chunk: bytes, r: Restored)
    ensures d.log <= Write(d, offset, chunk, true, r).device.log
  {
    hide Parse;
  }

  lemma {:induction false} CoversWithin(log: seq<(nat, bytes)>, body: bytes, i: nat)
    requires Covers(log, body) && i < |log|
    ensures log[i].0 <= |body|
    decreases |log|
  {
    var last := log[|log| - 1];
    if i < |log| - 1 {
      CoversWithin(log[..|log| - 1], body[..last.0], i);
    }
  }

  // --- chunks too long for a 16-bit length ---

  /** How many bytes the writer was given. */
  function Total(log: seq<(nat, bytes)>): nat {
    if log == [] then 0 else Total(log[..|log| - 1]) + |log[|log| - 1].1|
  }

  lemma {:induction false} CoversTotal(log: seq<(nat, bytes)>, body: bytes)
    requires Covers(log, body)
    ensures Total(log) == |body|
    decreases |log|
  {
    if log != [] {
      CoversTotal(log[..|log| - 1], body[..log[|log| - 1].0]);
    }
  }

  /** How many bytes of its chunks a 16-bit length loses at least. */
  function Lost(chunks: seq<bytes>): nat {
    if chunks == [] then 0 else (if |chunks[0]| < WORD_VALUES then 0 else WORD_VALUES) + Lost(chunks[1..])
  }

  lemma {:induction false} LostSome(chunks: seq<bytes>, c: bytes)
    requires c in chunks && |c| >= WORD_VALUES
    ensures Lost(chunks) >= WORD_VALUES
    decreases chunks
  {
    if chunks[0] != c {
      LostSome(chunks[1..], c);
    }
  }

  /** A chunk adds at most its bytes to what the writer was given, and a long one 65536 bytes less. */
  lemma WriteAddsAtMost(d: Device, offset: nat, chunk: bytes, r: Restored)
    ensures Total(Write(d, offset, chunk, true, r).device.log) <= Total(d.log) + |chunk| - Lost([chunk])
  {
    hide Parse;
    var p := Parse(d.head, offset, Short(chunk));
    var log := Write(d, offset, chunk, true, r).device.log;
    if log != d.log {
      assert log[..|log| - 1] == d.log;
      ShortRest(chunk, p.used);
    }
  }

  lemma ShortRest(chunk: bytes, used: nat)
    requires used <= |Short(chunk)|
    ensures |Short(chunk[used..])| <= |chunk| - Lost([chunk])
  {
    var q := |chunk| / WORD_VALUES;
    assert |chunk| - used == q * WORD_VALUES + (|chunk| % WORD_VALUES - used);
  }

  lemma {:induction false} FeedAddsAtMost(d: Device, offset: nat, chunks: seq<bytes>, goOn: bool, r: Restored)
    ensures Total(Feed(d, offset, chunks, goOn, r).device.log) <= Total(d.log) + |Flat(chunks)| - Lost(chunks)
    decreases chunks
  {
    hide Write, Total;
    if chunks != [] {
      WriteAddsAtMost(d, offset, chunks[0], r);
      LostAtMost(chunks[1..]);
      FeedAddsAtMost(Write(d, offset, chunks[0], true, r).device, offset + |chunks[0]|, chunks[1..], goOn, r);
    }
  }

  lemma {:induction false} LostAtMost(chunks: seq<bytes>)
    ensures Lost(chunks) <= |Flat(chunks)|
  {
    if chunks != [] {
      LostAtMost(chunks[1..]);
    }
  }

  /** With a chunk of 65536 bytes or more the writer gets fewer bytes than the body has, whatever was accepted. */
  lemma LongChunkNotCovered(p: bytes, chunks: seq<bytes>, goOn: bool, r: Restored, c: bytes)
    requires |p| >= HEADER_MIN_LEN && HeadLenOf(p) <= MAX_HEAD_LEN && HeadLenOf(p) <= |p| && Flat(chunks) == p
    requires c in chunks && |c| >= WORD_VALUES
    ensures !Covers(Feed(NEW_DEVICE, 0, chunks, goOn, r).device.log, p[HeadLenOf(p)..])
  {
    hide Feed, Covers, Lost, Dword;
    LostSome(chunks, c);
    FeedAddsAtMost(NEW_DEVICE, 0, chunks, goOn, r);
    if Covers(Feed(NEW_DEVICE, 0, chunks, goOn, r).device.log, p[HeadLenOf(p)..]) {
      CoversTotal(Feed(NEW_DEVICE, 0, chunks, goOn, r).device.log, p[HeadLenOf(p)..]);
    }
  }

  /**
   * An accepted package, in any cutting without an empty chunk, reaches the writer as its body, end to end from
   * offset 0, exactly when its header is longer than twelve bytes and no chunk is longer than a 16-bit length says.
   */
  lemma DeliveredExactly(p: bytes, chunks: seq<bytes>, goOn: bool, r: Restored)
    requires AcceptedPackage(p) && [] !in chunks && Flat(chunks) == p
    ensures Covers(Feed(NEW_DEVICE, 0, chunks, goOn, r).device.log, p[HeadLenOf(p)..]) <==>
      HeadLenOf(p) > HEADER_MIN_LEN && forall c :: c in chunks ==> |c| < WORD_VALUES
  {
    hide Feed, Covers, Walk, Total;
    if c :| c in chunks && |c| >= WORD_VALUES {
      LongChunkNotCovered(p, chunks, goOn, r, c);
    } else if HeadLenOf(p) > HEADER_MIN_LEN {
      CuttingDoesNotMatter(p, chunks, goOn, r);
    } else {
      var log := Feed(NEW_DEVICE, 0, chunks, goOn, r).device.log;
      assert p[0..] == p && p[..0] == [];
      ShortestHeaderFed(p, NEW_HEAD, [], 0, chunks, goOn, r);
      if Covers(log, p[HEADER_MIN_LEN..]) {
        CoversWithin(log, p[HEADER_MIN_LEN..], 0);
        assert false;
      }
    }
  }

  /** A body chunk of 65536 bytes is accepted, and nothing of it is written or absorbed. */
  lemma LongChunkLost(p: bytes, log: seq<(nat, bytes)>, n: nat, k: nat, r: Restored)
    requires Headed(p) && HeadLenOf(p) <= n && n + k <= |p| && 0 < k && k % WORD_VALUES == 0
    ensures Write(Device(HeadAt(p, n), log), n, p[n..n + k], true, r) ==
      Written(true, Device(HeadAt(p, n), log + [(n - HeadLenOf(p), [])]))
  {
    hide Walk, FixedPart, Dword, Checkable, Parse;
    var chunk := p[n..n + k];
    assert Short(chunk) == [] && chunk[0..] == chunk;
    NothingParsed(p, n);
  }

  lemma NothingParsed(p: bytes, n: nat)
    requires Headed(p) && HeadLenOf(p) <= n <= |p|
    ensures Parse(HeadAt(p, n), n, []) == Parsed(true, HeadAt(p, n), 0)
  {
    hide Checkable, Walk, FixedPart, Dword;
  }

  /** The header of the small package, declaring 65536 bytes of body. */
  const LONG_HEADER: bytes := [0, 0, 0, 0, 0, 0, 0, 18, 0, 1, 0, 18, 0, TYPE_CHECKSUM, 0, 2, 7, 8]

  function LongPackage(): (p: bytes)
    ensures |p| == 18 + WORD_VALUES && p[..18] == LONG_HEADER
  {
    LONG_HEADER + Zeros(WORD_VALUES)
  }

  lemma LongPackageValid()
    ensures ValidPackage(LongPackage()) && HeadLenOf(LongPackage()) == 18
  {
    var p, b, t := LongPackage(), LONG_HEADER, Tlv(12, TYPE_CHECKSUM, 2);
    assert forall i :: 0 <= i < 18 ==> p[i] == p[..18][i] == b[i];
    assert Word(p, 0) == Word(p, 2) == Word(p, 4) == 0 && Word(p, 6) == 18 && Word(p, 8) == 1 && Word(p, 10) == 18;
    assert TlvAt(b, 12) == t;
    WalkTurn(b, 12, None, None);
    WalkStops(Blanked(b, t), 18, Noted(b, t, None), None);
  }

  /** Its header in one chunk and its body in another: both are accepted, and the writer gets no byte of the body. */
  lemma LongPackageLost(r: Restored)
    ensures ValidPackage(LongPackage())
    ensures Feed(NEW_DEVICE, 0, [LongPackage()[..18], LongPackage()[18..]], false, r) ==
      Written(true, Device(HeadAt(LongPackage(), 18), [(0, [])]))
  {
    hide Write, HeadAt, FixedPart, Walk, Dword, Covers, LongPackage;
    var p := LongPackage();
    LongPackageValid();
    var chunks: seq<bytes> := [p[..18], p[18..]];
    assert p[..18] == p[0..18] && p[18..] == p[18..18 + WORD_VALUES];
    NoBodyYet(p);
    NothingYet(p);
    WriteStep(p, [], 0, 18, r);
    CoversNothing(Write(NEW_DEVICE, 0, p[..18], true, r).device.log);
    LongChunkLost(p, [], 18, WORD_VALUES, r);
    assert chunks[1..] == [p[18..]] && chunks[1..][1..] == [];
  }

  lemma NothingYet(p: bytes)
    requires Headed(p)
    ensures HeadAt(p, 0) == NEW_HEAD && (HeadLenOf(p) <= |p| ==> Body(p, HeadLenOf(p)) == [])
  {
  }

  // --- empty chunks ---

  function NonEmpty(chunks: seq<bytes>): (some: seq<bytes>)
    ensures [] !in some && forall c :: c in chunks && c != [] ==> c in some
  {
    if chunks == [] then [] else (if chunks[0] == [] then [] else [chunks[0]]) + NonEmpty(chunks[1..])
  }

  /** An empty chunk is refused and has no other effect. */
  lemma {:induction false} EmptyChunksRefused(d: Device, offset: nat, chunks: seq<bytes>, r: Restored)
    ensures var w, v := Feed(d, offset, chunks, true, r), Feed(d, offset, NonEmpty(chunks), true, r);
      w.device == v.device && (w.ok <==> v.ok && [] !in chunks)
    decreases chunks
  {
    hide Pass;
    if chunks != [] {
      var w := Write(d, offset, chunks[0], true, r);
      EmptyChunksRefused(w.device, offset + |chunks[0]|, chunks[1..], r);
      if chunks[0] != [] {
        assert NonEmpty(chunks)[1..] == NonEmpty(chunks[1..]);
      } else {
        assert [] + NonEmpty(chunks[1..]) == NonEmpty(chunks[1..]);
      }
    }
  }

  // --- resuming after a gap ---

  /**
   * A body chunk that does not continue the last one makes the checksum start over: the header, then as many bytes of
   * flash as the chunk's offset in the package, then the chunk. The body lies in the flash without the header, so that
   * is a header's length too much, and what is absorbed is never the header and the body so far.
   */
  lemma ResumedNeverRight(p: bytes, log: seq<(nat, bytes)>, c: Checksum, o: nat, k: nat, r: Restored)
    requires Headed(p) && Checkable(p) && HeadLenOf(p) < o && 0 < k < WORD_VALUES && o + k <= |p|
    requires !(c.flag && c.offset == o) && r.ok && |r.read| == o
    ensures var h := HeadAt(p, HeadLenOf(p)).(checksum := Some(c));
      var w := Write(Device(h, log), o, p[o..o + k], true, r);
      && w.ok && w.device.log == log + [(o - HeadLenOf(p), p[o..o + k])] && w.device.head.checksum.Some?
      && w.device.head.checksum.value.absorbed == WalkOf(p).buff + r.read + p[o..o + k]
      && w.device.head.checksum.value.absorbed != WalkOf(p).buff + p[HeadLenOf(p)..o + k]
  {
    hide Parse, FixedPart, Walk, Checkable, Dword;
    var h := HeadAt(p, HeadLenOf(p)).(checksum := Some(c));
    Whole(p[o..o + k]);
    DoneParsed(h, o, p[o..o + k]);
  }

  lemma DoneParsed(h: Head, o: nat, chunk: bytes)
    requires Done(h) && h.headLen > HEADER_MIN_LEN && o >= h.headLen && chunk != []
    ensures Parse(h, o, chunk) == Parsed(true, h, 0)
  {
    assert chunk[0..] == chunk;
  }
}
