/** The header of an update package: what its bytes mean, and how chunks of it are put together. */
module PackageHead {
  import opened Basics

  const HEADER_MIN_LEN := 12
  const MAX_HEAD_LEN := 4096
  const WORD_VALUES := 0x1_0000
  const DWORD_VALUES := 0x1_0000_0000

  const TYPE_CHECKSUM := 3
  const TYPE_BIN := 4
  const FLASH_TYPES := 2

  function Word(b: bytes, i: nat): (w: nat)
    requires i + 2 <= |b|
    ensures w < WORD_VALUES
  {
    var high: int := b[i];
    high * 256 + b[i + 1]
  }

  function Dword(b: bytes, i: nat): (w: nat)
    requires i + 4 <= |b|
    ensures w < DWORD_VALUES
  {
    Word(b, i) * WORD_VALUES + Word(b, i + 2)
  }

  /** n in k bytes, the most significant first. */
  function Encoded(n: nat, k: nat): (b: bytes)
    ensures |b| == k
  {
    if k == 0 then [] else Encoded(n / 256, k - 1) + [n % 256]
  }

  lemma EncodedWord(n: nat)
    requires n < WORD_VALUES
    ensures Encoded(n, 2) == [n / 256, n % 256]
  {
    assert Encoded(n / 256, 1) == Encoded(n / 256 / 256, 0) + [n / 256 % 256] == [n / 256];
  }

  /** Four bytes are the upper two and the lower two. */
  lemma EncodedDword(n: nat)
    requires n < DWORD_VALUES
    ensures Encoded(n, 4) == Encoded(n / WORD_VALUES, 2) + Encoded(n % WORD_VALUES, 2)
  {
    EncodedWord(n / WORD_VALUES);
    EncodedWord(n % WORD_VALUES);
    EncodedWord(n / 256 / 256);
    assert n / 256 / 256 == n / WORD_VALUES && n % WORD_VALUES / 256 == n / 256 % 256;
    assert n % WORD_VALUES % 256 == n % 256;
    assert Encoded(n / 256, 3) == Encoded(n / 256 / 256, 2) + [n / 256 % 256];
  }

  /** Two bytes are read as the number they encode, and as no other. */
  lemma WordExactly(b: bytes, i: nat, n: nat)
    requires i + 2 <= |b| && n < WORD_VALUES
    ensures Word(b, i) == n <==> b[i..i + 2] == Encoded(n, 2)
  {
    EncodedWord(n);
  }

  /** Four bytes likewise. */
  lemma DwordExactly(b: bytes, i: nat, n: nat)
    requires i + 4 <= |b| && n < DWORD_VALUES
    ensures Dword(b, i) == n <==> b[i..i + 4] == Encoded(n, 4)
  {
    hide Word, Encoded;
    var high, low := n / WORD_VALUES, n % WORD_VALUES;
    EncodedDword(n);
    WordExactly(b, i, high);
    WordExactly(b, i + 2, low);
    Halves(b, i, Encoded(high, 2), Encoded(low, 2));
  }

  lemma Halves(b: bytes, i: nat, high: bytes, low: bytes)
    requires i + 4 <= |b| && |high| == 2 && |low| == 2
    ensures b[i..i + 4] == high + low <==> b[i..i + 2] == high && b[i + 2..i + 4] == low
  {
    assert b[i..i + 4] == b[i..i + 2] + b[i + 2..i + 4];
    assert b[i..i + 4][..2] == b[i..i + 2] && b[i..i + 4][2..] == b[i + 2..i + 4];
    assert (high + low)[..2] == high && (high + low)[2..] == low;
  }

  function Zeros(n: nat): (z: bytes)
    ensures |z| == n && forall i :: 0 <= i < n ==> z[i] == 0
  {
    seq(n, _ => 0)
  }

  // --- the TLV walk ---

  /** What a walk leaves: the header, the last checksum value seen and the flash type set. */
  datatype Walked = Walked(ok: bool, buff: bytes, expected: Option<bytes>, flash: Option<nat>)

  /** One TLV: where it begins, its type and the length of its value. */
  datatype Tlv = Tlv(pos: nat, kind: nat, len: nat) {
    function Start(): nat { pos + 4 }

    function End(): nat { pos + 4 + len }
  }

  function TlvAt(b: bytes, pos: nat): (t: Tlv)
    requires pos + 4 <= |b|
    ensures t.pos == pos
  {
    Tlv(pos, Word(b, pos), Word(b, pos + 2))
  }

  /** A bin type the update can go to; its four bytes are inside the header. */
  predicate KnownBin(b: bytes, t: Tlv) {
    t.Start() + 4 <= |b| && Dword(b, t.Start()) < FLASH_TYPES
  }

  /** The header once t is handled: a checksum value is zeroed. */
  function Blanked(b: bytes, t: Tlv): (r: bytes)
    requires t.End() <= |b|
    ensures |r| == |b|
    ensures forall i :: 0 <= i < |b| ==> r[i] == if t.kind == TYPE_CHECKSUM && t.Start() <= i < t.End() then 0 else b[i]
  {
    if t.kind == TYPE_CHECKSUM then b[..t.Start()] + Zeros(t.len) + b[t.End()..] else b
  }

  /** The checksum value saved once t is handled. */
  function Noted(b: bytes, t: Tlv, before: Option<bytes>): Option<bytes>
    requires t.End() <= |b|
  {
    if t.kind != TYPE_CHECKSUM then before else if t.len > 0 then Some(b[t.Start()..t.End()]) else None
  }

  function Flashed(b: bytes, t: Tlv, before: Option<nat>): Option<nat> {
    if t.kind == TYPE_BIN && KnownBin(b, t) then Some(Dword(b, t.Start())) else before
  }

  /** The walk from pos on, blanking checksum values as it meets them. */
  function Walk(b: bytes, pos: nat, expected: Option<bytes>, flash: Option<nat>): (w: Walked)
    requires pos <= |b|
    ensures |w.buff| == |b|
    decreases |b| - pos
  {
    if pos == |b| then Walked(true, b, expected, flash)
    else if |b| - pos < 4 || TlvAt(b, pos).End() > |b| then Walked(false, b, expected, flash)
    else
      var t := TlvAt(b, pos);
      if t.kind == TYPE_BIN && !KnownBin(b, t) then Walked(false, b, expected, flash)
      else Walk(Blanked(b, t), t.End(), Noted(b, t, expected), Flashed(b, t, flash))
  }

  lemma WalkTurn(b: bytes, pos: nat, expected: Option<bytes>, flash: Option<nat>)
    requires pos + 4 <= |b| && TlvAt(b, pos).End() <= |b|
    ensures var t := TlvAt(b, pos);
      Walk(b, pos, expected, flash) ==
        if t.kind == TYPE_BIN && !KnownBin(b, t) then Walked(false, b, expected, flash)
        else Walk(Blanked(b, t), t.End(), Noted(b, t, expected), Flashed(b, t, flash))
  {
  }

  /** The two ends of a walk: nothing left, or too little left. */
  lemma WalkStops(b: bytes, pos: nat, expected: Option<bytes>, flash: Option<nat>)
    requires pos <= |b| && (pos == |b| || pos + 4 > |b| || TlvAt(b, pos).End() > |b|)
    ensures Walk(b, pos, expected, flash) == Walked(pos == |b|, b, expected, flash)
  {
  }

  /** A walk changes nothing in front of it, whether it gets to the end or not. */
  lemma {:induction false} WalkKeepsFront(b: bytes, pos: nat, expected: Option<bytes>, flash: Option<nat>)
    requires pos <= |b|
    ensures forall i :: 0 <= i < pos ==> Walk(b, pos, expected, flash).buff[i] == b[i]
    decreases |b| - pos
  {
    if pos + 4 <= |b| && TlvAt(b, pos).End() <= |b| {
      var t := TlvAt(b, pos);
      WalkKeepsFront(Blanked(b, t), t.End(), Noted(b, t, expected), Flashed(b, t, flash));
    }
  }

  // --- what a header says ---

  /** ts lies end to end over b from pos to the end of b. */
  ghost predicate Tiles(b: bytes, pos: nat, ts: seq<Tlv>)
    decreases ts
  {
    if ts == [] then pos == |b|
    else pos + 4 <= |b| && ts[0] == TlvAt(b, pos) && ts[0].End() <= |b| && Tiles(b, ts[0].End(), ts[1..])
  }

  ghost predicate BinTypesKnown(b: bytes, ts: seq<Tlv>) {
    forall t :: t in ts && t.kind == TYPE_BIN ==> KnownBin(b, t)
  }

  /** The value of the last checksum TLV; None when there is none or it is empty. */
  ghost function LastChecksum(b: bytes, pos: nat, ts: seq<Tlv>, before: Option<bytes>): Option<bytes>
    requires Tiles(b, pos, ts)
    decreases ts
  {
    if ts == [] then before else LastChecksum(b, ts[0].End(), ts[1..], Noted(b, ts[0], before))
  }

  /** The flash type of the last bin-type TLV. */
  ghost function LastFlash(b: bytes, pos: nat, ts: seq<Tlv>, before: Option<nat>): Option<nat>
    requires Tiles(b, pos, ts)
    decreases ts
  {
    if ts == [] then before else LastFlash(b, ts[0].End(), ts[1..], Flashed(b, ts[0], before))
  }

  /** Byte i lies in the value of a checksum TLV. */
  ghost predicate Signed(ts: seq<Tlv>, i: int) {
    exists t :: t in ts && t.kind == TYPE_CHECKSUM && t.Start() <= i < t.End()
  }

  ghost predicate SameFrom(b: bytes, c: bytes, pos: nat) {
    |b| == |c| && forall i :: pos <= i < |b| ==> b[i] == c[i]
  }

  /** Only the bytes from pos on say how they tile. */
  lemma {:induction false} TilesSame(b: bytes, c: bytes, pos: nat, ts: seq<Tlv>,
                                     before: Option<bytes>, flash: Option<nat>)
    requires SameFrom(b, c, pos) && Tiles(b, pos, ts) && BinTypesKnown(b, ts)
    ensures Tiles(c, pos, ts) && BinTypesKnown(c, ts)
    ensures LastChecksum(c, pos, ts, before) == LastChecksum(b, pos, ts, before)
    ensures LastFlash(c, pos, ts, flash) == LastFlash(b, pos, ts, flash)
    decreases ts
  {
    if ts != [] {
      var t := ts[0];
      assert b[t.Start()..t.End()] == c[t.Start()..t.End()];
      TilesSame(b, c, t.End(), ts[1..], Noted(b, t, before), Flashed(b, t, flash));
      assert forall u :: u in ts ==> u == t || u in ts[1..];
    }
  }

  lemma {:induction false} TilesUnique(b: bytes, pos: nat, ts: seq<Tlv>, us: seq<Tlv>)
    requires Tiles(b, pos, ts) && Tiles(b, pos, us)
    ensures ts == us
    decreases ts
  {
    if ts != [] && us != [] {
      TilesUnique(b, ts[0].End(), ts[1..], us[1..]);
      assert ts == [ts[0]] + ts[1..] && us == [us[0]] + us[1..];
    }
  }

  /** What a finished walk leaves in terms of the TLVs of the header as it came. */
  ghost predicate WalkedOver(b: bytes, pos: nat, before: Option<bytes>, flash: Option<nat>, w: Walked, ts: seq<Tlv>) {
    && Tiles(b, pos, ts) && BinTypesKnown(b, ts)
    && w.expected == LastChecksum(b, pos, ts, before) && w.flash == LastFlash(b, pos, ts, flash)
    && |w.buff| == |b| && forall i :: 0 <= i < |b| ==> w.buff[i] == if Signed(ts, i) then 0 else b[i]
  }

  lemma SignedFirst(t: Tlv, rest: seq<Tlv>, i: int)
    ensures Signed([t] + rest, i) <==> Signed(rest, i) || (t.kind == TYPE_CHECKSUM && t.Start() <= i < t.End())
  {
    assert t in [t] + rest && forall u :: u in [t] + rest <==> u == t || u in rest;
  }

  /** One more TLV in front of a walk that goes to the end. */
  lemma WalkedOneMore(b: bytes, pos: nat, before: Option<bytes>, flash: Option<nat>, w: Walked, rest: seq<Tlv>)
    requires pos + 4 <= |b| && TlvAt(b, pos).End() <= |b|
    requires var t := TlvAt(b, pos);
      && (t.kind == TYPE_BIN ==> KnownBin(b, t))
      && WalkedOver(Blanked(b, t), t.End(), Noted(b, t, before), Flashed(b, t, flash), w, rest)
    ensures WalkedOver(b, pos, before, flash, w, [TlvAt(b, pos)] + rest)
  {
    var t := TlvAt(b, pos);
    var ts := [t] + rest;
    TilesSame(Blanked(b, t), b, t.End(), rest, Noted(b, t, before), Flashed(b, t, flash));
    assert ts[1..] == rest;
    forall i | 0 <= i < |b| ensures w.buff[i] == if Signed(ts, i) then 0 else b[i] {
      SignedFirst(t, rest, i);
    }
  }

  lemma {:induction false} WalkFinds(b: bytes, pos: nat, before: Option<bytes>, flash: Option<nat>)
    returns (ts: seq<Tlv>)
    requires pos <= |b| && Walk(b, pos, before, flash).ok
    ensures WalkedOver(b, pos, before, flash, Walk(b, pos, before, flash), ts)
    decreases |b| - pos
  {
    hide WalkedOver;
    if pos == |b| {
      ts := [];
      WalkedNothing(b, before, flash);
    } else {
      var t := TlvAt(b, pos);
      ts := WalkFinds(Blanked(b, t), t.End(), Noted(b, t, before), Flashed(b, t, flash));
      WalkedOneMore(b, pos, before, flash, Walk(b, pos, before, flash), ts);
      ts := [t] + ts;
    }
  }

  lemma WalkedNothing(b: bytes, before: Option<bytes>, flash: Option<nat>)
    ensures WalkedOver(b, |b|, before, flash, Walk(b, |b|, before, flash), [])
  {
  }

  lemma {:induction false} WalkFinishes(b: bytes, pos: nat, before: Option<bytes>, flash: Option<nat>, ts: seq<Tlv>)
    requires pos <= |b| && Tiles(b, pos, ts) && BinTypesKnown(b, ts)
    ensures Walk(b, pos, before, flash).ok
    decreases |b| - pos
  {
    if ts != [] {
      var t := ts[0];
      assert t in ts && forall u :: u in ts[1..] ==> u in ts;
      TilesSame(b, Blanked(b, t), t.End(), ts[1..], Noted(b, t, before), Flashed(b, t, flash));
      WalkFinishes(Blanked(b, t), t.End(), Noted(b, t, before), Flashed(b, t, flash), ts[1..]);
    }
  }

  /**
   * The walk of a fresh head goes to the end exactly when the bytes after the fixed part are whole TLVs and
   * every bin type is known; what it saves and what it blanks follow from those TLVs, and from them alone.
   */
  lemma WalkExactly(b: bytes, flash: Option<nat>)
    requires |b| >= HEADER_MIN_LEN
    ensures var w := Walk(b, HEADER_MIN_LEN, None, flash);
      && (w.ok <==> exists ts :: Tiles(b, HEADER_MIN_LEN, ts) && BinTypesKnown(b, ts))
      && (w.ok ==> forall ts :: Tiles(b, HEADER_MIN_LEN, ts) ==> WalkedOver(b, HEADER_MIN_LEN, None, flash, w, ts))
  {
    var w := Walk(b, HEADER_MIN_LEN, None, flash);
    if w.ok {
      var us := WalkFinds(b, HEADER_MIN_LEN, None, flash);
      forall ts | Tiles(b, HEADER_MIN_LEN, ts) ensures WalkedOver(b, HEADER_MIN_LEN, None, flash, w, ts) {
        TilesUnique(b, HEADER_MIN_LEN, ts, us);
      }
    }
    if ts :| Tiles(b, HEADER_MIN_LEN, ts) && BinTypesKnown(b, ts) {
      WalkFinishes(b, HEADER_MIN_LEN, None, flash, ts);
    }
  }

  lemma {:induction false} TilesFrom(b: bytes, pos: nat, ts: seq<Tlv>)
    requires Tiles(b, pos, ts)
    ensures forall t :: t in ts ==> pos <= t.pos && t.End() <= |b|
    decreases ts
  {
    if ts != [] {
      TilesFrom(b, ts[0].End(), ts[1..]);
      assert forall t :: t in ts ==> t == ts[0] || t in ts[1..];
    }
  }

  // --- a header walked again ---

  ghost function LastSigned(ts: seq<Tlv>): Option<Tlv> {
    if ts == [] then None
    else if LastSigned(ts[1..]).Some? then LastSigned(ts[1..])
    else if ts[0].kind == TYPE_CHECKSUM then Some(ts[0])
    else None
  }

  /** What the header b holds as the value of t. */
  ghost function ValueOf(b: bytes, t: Option<Tlv>, before: Option<bytes>): Option<bytes> {
    if t == None then before
    else if t.value.len > 0 && t.value.End() <= |b| then Some(b[t.value.Start()..t.value.End()])
    else None
  }

  lemma {:induction false} LastChecksumIs(b: bytes, pos: nat, ts: seq<Tlv>, before: Option<bytes>)
    requires Tiles(b, pos, ts)
    ensures LastSigned(ts).Some? ==>
      var t := LastSigned(ts).value; t in ts && t.kind == TYPE_CHECKSUM && pos <= t.pos && t.End() <= |b|
    ensures LastChecksum(b, pos, ts, before) == ValueOf(b, LastSigned(ts), before)
    decreases ts
  {
    if ts != [] {
      LastChecksumIs(b, ts[0].End(), ts[1..], Noted(b, ts[0], before));
      assert forall t :: t in ts[1..] ==> t in ts;
    }
  }

  /** The flash type either comes from a TLV or is the one before. */
  lemma {:induction false} LastFlashOf(b: bytes, pos: nat, ts: seq<Tlv>, x: Option<nat>, y: Option<nat>)
    requires Tiles(b, pos, ts)
    ensures LastFlash(b, pos, ts, x) == LastFlash(b, pos, ts, y)
            || (LastFlash(b, pos, ts, x) == x && LastFlash(b, pos, ts, y) == y)
    decreases ts
  {
    if ts != [] {
      LastFlashOf(b, ts[0].End(), ts[1..], Flashed(b, ts[0], x), Flashed(b, ts[0], y));
    }
  }

  /** From pos on, b and c differ at most inside checksum values. */
  ghost predicate Alike(b: bytes, c: bytes, pos: nat, ts: seq<Tlv>) {
    |b| == |c| && forall i :: pos <= i < |b| && !Signed(ts, i) ==> b[i] == c[i]
  }

  /** The bytes of a TLV that say what it is, and those a bin type is read from, lie in no checksum value. */
  lemma AlikeFirst(b: bytes, c: bytes, pos: nat, ts: seq<Tlv>)
    requires ts != [] && Tiles(b, pos, ts) && Alike(b, c, pos, ts)
    ensures |c| == |b| && Alike(b, c, ts[0].End(), ts[1..]) && TlvAt(c, pos) == ts[0]
    ensures ts[0].kind == TYPE_BIN ==> (KnownBin(c, ts[0]) <==> KnownBin(b, ts[0]))
    ensures ts[0].kind == TYPE_BIN && KnownBin(b, ts[0]) ==> Dword(c, ts[0].Start()) == Dword(b, ts[0].Start())
  {
    var t := ts[0];
    assert ts == [t] + ts[1..];
    TilesFrom(b, t.End(), ts[1..]);
    forall i | pos <= i < t.Start() || (t.kind == TYPE_BIN && t.Start() <= i < t.Start() + 4) ensures !Signed(ts, i) {
      SignedFirst(t, ts[1..], i);
    }
    forall i | t.End() <= i < |b| && !Signed(ts[1..], i) ensures b[i] == c[i] {
      SignedFirst(t, ts[1..], i);
    }
  }

  lemma {:induction false} TilesAlike(b: bytes, c: bytes, pos: nat, ts: seq<Tlv>, flash: Option<nat>)
    requires Tiles(b, pos, ts) && BinTypesKnown(b, ts) && Alike(b, c, pos, ts)
    ensures Tiles(c, pos, ts) && BinTypesKnown(c, ts) && LastFlash(c, pos, ts, flash) == LastFlash(b, pos, ts, flash)
    decreases ts
  {
    if ts != [] {
      AlikeFirst(b, c, pos, ts);
      assert ts[0] in ts;
      assert Flashed(c, ts[0], flash) == Flashed(b, ts[0], flash);
      TilesAlike(b, c, ts[0].End(), ts[1..], Flashed(b, ts[0], flash));
      assert forall t :: t in ts ==> t == ts[0] || t in ts[1..];
    }
  }

  /**
   * A header that differs from b at most inside its checksum values, walked with what the walk of b has saved:
   * the blanked header and the flash type are the same, the checksum value saved is the one that stands there now.
   */
  lemma WalkAgain(b: bytes, c: bytes, ts: seq<Tlv>)
    requires |b| >= HEADER_MIN_LEN && Walk(b, HEADER_MIN_LEN, None, None).ok && Tiles(b, HEADER_MIN_LEN, ts)
    requires Alike(b, c, 0, ts)
    ensures var w := Walk(b, HEADER_MIN_LEN, None, None); var v := Walk(c, HEADER_MIN_LEN, w.expected, w.flash);
      && v.ok && v.buff == w.buff && v.flash == w.flash
      && v.expected == ValueOf(c, LastSigned(ts), w.expected) && w.expected == ValueOf(b, LastSigned(ts), None)
    ensures LastSigned(ts).Some? ==>
      var t := LastSigned(ts).value; t in ts && t.kind == TYPE_CHECKSUM && HEADER_MIN_LEN <= t.pos && t.End() <= |b|
  {
    hide Walk, Tiles, BinTypesKnown, LastChecksum, LastFlash, LastSigned, Signed;
    var w := Walk(b, HEADER_MIN_LEN, None, None);
    WalkExactly(b, None);
    TilesAlike(b, c, HEADER_MIN_LEN, ts, w.flash);
    WalkFinishes(c, HEADER_MIN_LEN, w.expected, w.flash, ts);
    var us := WalkFinds(c, HEADER_MIN_LEN, w.expected, w.flash);
    TilesUnique(c, HEADER_MIN_LEN, ts, us);
    LastChecksumIs(b, HEADER_MIN_LEN, ts, None);
    LastChecksumIs(c, HEADER_MIN_LEN, ts, w.expected);
    LastFlashOf(b, HEADER_MIN_LEN, ts, None, w.flash);
    var v := Walk(c, HEADER_MIN_LEN, w.expected, w.flash);
    assert v.buff == w.buff;
  }
}
