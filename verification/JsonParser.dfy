/** The parse buffer and its recursive-descent parser, stepping through the text in place. */
module JsonParser {
  import opened Basics
  import opened JsonText
  import P = JsonParse
  import U = JsonUnicode
  import Bits

  // --- sizing the output of a string ---

  /** First-pass escape pairs that start in c[i..stop]; the pass itself starts at i. */
  function Pairs(c: bytes, i: nat, stop: nat): nat
    requires stop <= |c|
    decreases stop - i
  {
    if i >= stop then 0
    else if c[i] == BACKSLASH then 1 + Pairs(c, i + 2, stop)
    else Pairs(c, i + 1, stop)
  }

  /** Two neighbouring bytes never start two pairs; a byte other than a backslash starts none. */
  lemma {:induction false} PairsGrow(c: bytes, i: nat, p: nat)
    requires p < |c|
    ensures Pairs(c, i, p) <= Pairs(c, i, p + 1) <= Pairs(c, i, p) + 1
    ensures c[p] != BACKSLASH ==> Pairs(c, i, p + 1) == Pairs(c, i, p)
    ensures p + 2 <= |c| ==> Pairs(c, i, p + 2) <= Pairs(c, i, p) + 1
    decreases p + 2 - i
  {
    if i < p {
      PairsGrow(c, if c[i] == BACKSLASH then i + 2 else i + 1, p);
    } else if i == p && p + 2 <= |c| {
      assert Pairs(c, p + 1, p + 2) <= 1;
      assert Pairs(c, p + 2, p + 2) == 0;
    }
  }

  lemma {:induction false} PairsBetween(c: bytes, i: nat, p: nat, q: nat)
    requires p <= q <= |c|
    ensures Pairs(c, i, p) <= Pairs(c, i, q) <= Pairs(c, i, p) + (q - p)
    decreases q - p
  {
    if p < q {
      PairsGrow(c, i, q - 1);
      PairsBetween(c, i, p, q - 1);
    }
  }

  /** A piece of the second pass takes at least as much text, pairs counted as skipped, as it writes. */
  lemma PieceFits(c: bytes, start: nat, p: nat, e: nat)
    requires start <= p < e < |c| && P.UnescapeOne(c, p, e).Some?
    ensures var piece := P.UnescapeOne(c, p, e).value;
            |piece.out| + Pairs(c, start, p + piece.used) <= piece.used + Pairs(c, start, p)
  {
    PairsGrow(c, start, p);
    var used := P.UnescapeOne(c, p, e).value.used;
    if used > 2 {
      PairsGrow(c, start, p + 2);
      PairsGrow(c, start, p + 4);
      if used == 12 {
        PairsGrow(c, start, p + 6);
        PairsGrow(c, start, p + 8);
        PairsGrow(c, start, p + 10);
      }
    }
  }

  /**
   * The allocation made from the first pass is enough for what the second pass writes, even when a
   * malformed escape makes the two passes disagree about where escapes start.
   */
  lemma {:induction false} OutputFits(c: bytes, start: nat, p: nat, e: nat)
    requires start <= p <= e + 1 && e < |c| && P.Unescape(c, p, e).Bytes?
    ensures |P.Unescape(c, p, e).out| + Pairs(c, start, e) <= e + 1 - p + Pairs(c, start, p)
    decreases |c| - p
  {
    if p < e {
      PieceFits(c, start, p, e);
      OutputFits(c, start, p + P.UnescapeOne(c, p, e).value.used, e);
    } else {
      PairsBetween(c, start, e, p);
    }
  }

  lemma PrependTwice(a: bytes, b: bytes, r: P.Unescaped)
    ensures P.Prepend(a, P.Prepend(b, r)) == P.Prepend(a + b, r)
  {
    if r.Bytes? {
      assert a + (b + r.out) == a + b + r.out;
    }
  }

  // --- escapes ---

  /** The first k hex digits at i, when they are all hex digits. */
  function HexPrefix(c: bytes, i: nat, k: nat): Option<nat>
    requires i + k <= |c|
  {
    if k == 0 then Some(0)
    else
      var h, d := HexPrefix(c, i, k - 1), P.HexValue(c[i + k - 1]);
      if h.Some? && d.Some? then Some(h.value * 16 + d.value) else None
  }

  lemma HexPrefixOfFour(c: bytes, i: nat)
    requires i + 4 <= |c|
    ensures P.Hex4(c, i) == if HexPrefix(c, i, 4).Some? then HexPrefix(c, i, 4).value else 0
  {
    var a, b, d, f := P.HexValue(c[i]), P.HexValue(c[i + 1]), P.HexValue(c[i + 2]), P.HexValue(c[i + 3]);
    assert HexPrefix(c, i, 0) == Some(0);
    assert HexPrefix(c, i, 1) == a;
    assert HexPrefix(c, i, 2) == if a.Some? && b.Some? then Some(a.value * 16 + b.value) else None;
    assert HexPrefix(c, i, 3).Some? <==> a.Some? && b.Some? && d.Some?;
  }

  lemma {:induction false} BadDigitSpoils(c: bytes, i: nat, k: nat, n: nat)
    requires k < n && i + n <= |c| && P.HexValue(c[i + k]).None?
    ensures HexPrefix(c, i, n).None?
    decreases n
  {
    if k < n - 1 {
      BadDigitSpoils(c, i, k, n - 1);
    }
  }

  /** What four hex digits write, or 0. */
  method ParseHex4(c: bytes, i: nat) returns (h: nat)
    requires i + 4 <= |c|
    ensures h == P.Hex4(c, i)
    ensures forall u: nat :: U.HexAt(c, i, u) ==> h == u
    ensures h != 0 ==> U.HexAt(c, i, h)
  {
    hide U.HexAt, P.Hex4;
    forall u: nat ensures U.HexAt(c, i, u) ==> P.Hex4(c, i) == u {
      U.Hex4Exactly(c, i, u);
    }
    U.Hex4Exactly(c, i, P.Hex4(c, i));
    h := 0;
    HexPrefixOfFour(c, i);
    for k := 0 to 4
      invariant HexPrefix(c, i, k).Some? && h == HexPrefix(c, i, k).value * (if k < 4 then 16 else 1)
    {
      var b := c[i + k];
      if ZERO <= b <= 57 {
        h := h + (b - ZERO);
      } else if 65 <= b <= 70 {
        h := h + (10 + b - 65);
      } else if 97 <= b <= 102 {
        h := h + (10 + b - 97);
      } else {
        BadDigitSpoils(c, i, k, 4);
        return 0;
      }
      if k < 3 {
        h := h * 16;
      }
    }
  }

  /** Writes the UTF-8 of an escape at output[w..] and returns the bytes read, or 0, and the new end. */
  method Utf16LiteralToUtf8(c: bytes, p: nat, e: nat, output: array<byte>, w: nat) returns (used: nat, next: nat)
    requires p <= e < |c|
    requires P.Utf16Escape(c, p, e).Some? ==>
      w + |P.Utf8(P.Utf16Escape(c, p, e).value.codepoint)| <= output.Length
    modifies output
    ensures P.Utf16Escape(c, p, e).None? ==> used == 0 && output[..] == old(output[..])
    ensures P.Utf16Escape(c, p, e).Some? ==>
      var u := P.Utf16Escape(c, p, e).value;
      && used == u.used && next == w + |P.Utf8(u.codepoint)| && output[w..next] == P.Utf8(u.codepoint)
      && (forall k :: (0 <= k < w || next <= k < output.Length) ==> output[k] == old(output[k]))
  {
    hide Bits.Or, Bits.And, U.HexAt, P.Hex4;
    used, next := 0, w;
    if e - p < 6 {
      return;
    }
    var first := ParseHex4(c, p + 2);
    if 0xDC00 <= first <= 0xDFFF {
      return;
    }
    var codepoint := first;
    if 0xD800 <= first <= 0xDBFF {
      if e - (p + 6) < 6 || c[p + 6] != BACKSLASH || c[p + 7] != LOWER_U {
        return;
      }
      var second := ParseHex4(c, p + 8);
      if second < 0xDC00 || second > 0xDFFF {
        return;
      }
      used := 12;
      Bits.TenAndTen(first, second);
      codepoint := 0x1_0000 + Bits.Or(Bits.And(first, 0x3FF) * 0x400, Bits.And(second, 0x3FF));
    } else {
      used := 6;
    }
    next := EncodeUtf8(codepoint, output, w);
  }

  /** Continuation bytes are written last to first, six bits at a time; a shift is a division. */
  method EncodeUtf8(cp: nat, output: array<byte>, w: nat) returns (next: nat)
    requires cp <= 0x10_FFFF && w + |P.Utf8(cp)| <= output.Length
    modifies output
    ensures next == w + |P.Utf8(cp)| && output[w..next] == P.Utf8(cp)
    ensures forall k :: (0 <= k < w || next <= k < output.Length) ==> output[k] == old(output[k])
  {
    hide Bits.Or, Bits.And;
    var length := if cp < 0x80 then 1 else if cp < 0x800 then 2 else if cp < 0x1_0000 then 3 else 4;
    var mark := if length == 1 then 0 else if length == 2 then 0xC0 else if length == 3 then 0xE0 else 0xF0;
    var rest: nat := cp;
    var k := length - 1;
    ghost var n := |P.Utf8(cp)|;
    while k > 0
      invariant 0 <= k < length == n
      invariant rest == if k == length - 1 then cp else if k == length - 2 then cp / 64
                        else if k == length - 3 then cp / 4096 else cp / 262144
      invariant forall j :: k < j < length ==> output[w + j] == P.Utf8(cp)[j]
      invariant forall j :: (0 <= j < w || w + length <= j < output.Length) ==> output[j] == old(output[j])
    {
      Bits.Continuation(rest);
      output[w + k] := Bits.And(Bits.Or(rest, 0x80), 0xBF);
      rest := rest / 64;
      k := k - 1;
    }
    FirstByte(rest, mark, length);
    output[w] := if length > 1 then Bits.And(Bits.Or(rest, mark), 0xFF) else Bits.And(rest, 0x7F);
    next := w + length;
  }

  lemma FirstByte(rest: nat, mark: nat, length: nat)
    requires 1 <= length <= 4
    requires mark == if length == 1 then 0 else if length == 2 then 0xC0 else if length == 3 then 0xE0 else 0xF0
    requires rest < if length == 1 then 0x80 else if length == 2 then 0x20 else if length == 3 then 0x10 else 0x08
    ensures mark + rest == if length > 1 then Bits.And(Bits.Or(rest, mark), 0xFF) else Bits.And(rest, 0x7F)
  {
    hide Bits.Or, Bits.And, Bits.Pow2;
    Bits.Powers();
    if length == 1 {
      Bits.AndMask(rest, 7);
    } else {
      Bits.Marked(rest, if length == 2 then 6 else if length == 3 then 14 else 30, 7 - length);
    }
  }

  /** Decodes the character or escape at p to output[w..]; 0 bytes used means it is malformed. */
  method DecodeOne(c: bytes, p: nat, e: nat, output: array<byte>, w: nat) returns (used: nat, next: nat)
    requires p < e < |c|
    requires P.UnescapeOne(c, p, e).Some? ==> w + |P.UnescapeOne(c, p, e).value.out| <= output.Length
    modifies output
    ensures P.UnescapeOne(c, p, e).None? ==> used == 0
    ensures P.UnescapeOne(c, p, e).Some? ==>
      var piece := P.UnescapeOne(c, p, e).value;
      && used == piece.used && next == w + |piece.out| && output[w..next] == piece.out
      && (forall k :: (0 <= k < w || next <= k < output.Length) ==> output[k] == old(output[k]))
  {
    if c[p] != BACKSLASH {
      output[w] := c[p];
      return 1, w + 1;
    }
    var b := c[p + 1];
    used, next := 2, w + 1;
    if b == 98 {
      output[w] := 8;
    } else if b == 102 {
      output[w] := 12;
    } else if b == 110 {
      output[w] := NEWLINE;
    } else if b == 114 {
      output[w] := 13;
    } else if b == 116 {
      output[w] := TAB;
    } else if b == QUOTE || b == BACKSLASH || b == SLASH {
      output[w] := b;
    } else if b == LOWER_U {
      used, next := Utf16LiteralToUtf8(c, p, e, output, w);
    } else {
      used := 0;
    }
  }

  // --- the parse buffer ---

  class ParseBuffer {
    const content: bytes
    var offset: nat
    var depth: nat
    /** Set when an allocation was refused. */
    var oom: bool

    constructor (content: bytes)
      requires P.Terminated(content)
      ensures this.content == content && offset == 0 && depth == 0 && !oom
    {
      this.content := content;
      offset, depth, oom := 0, 0, false;
    }

    predicate Ready()
      reads this
    {
      P.Terminated(content) && offset < |content| && depth <= P.NESTING_LIMIT && !oom
    }

    method SkipWhitespace()
      requires Ready()
      modifies this`offset
      ensures Ready() && offset == P.SkipSpace(content, old(offset))
    {
      while offset < |content| && content[offset] <= SPACE
        invariant offset <= |content|
        invariant P.ScanSpace(content, offset) == P.ScanSpace(content, old(offset))
        decreases |content| - offset
      {
        offset := offset + 1;
      }
      if offset == |content| {
        offset := offset - 1;
      }
    }

    /** Copies the number's bytes, as many as fit, into the temporary buffer and ends them with a NUL. */
    method CopyNumber(buffer: array<byte>) returns (n: nat)
      requires offset <= |content| && buffer.Length == 64
      modifies buffer
      ensures n == P.NumberRun(content, offset, offset + P.NUMBER_ROOM) && n < 64 && buffer[n] == NUL
      ensures forall k :: 0 <= k < n ==> buffer[k] == content[offset + k]
    {
      var c, i := content, offset;
      ghost var stop := i + P.NUMBER_ROOM;
      n := 0;
      while n < 63 && i + n < |c| && P.NumberByte(c[i + n])
        invariant 0 <= n <= 63 && i + n <= |c|
        invariant forall k :: 0 <= k < n ==> buffer[k] == c[i + k]
        invariant n + P.NumberRun(c, i + n, stop) == P.NumberRun(c, i, stop)
      {
        buffer[n] := c[i + n];
        n := n + 1;
      }
      buffer[n] := NUL;
    }

    method ParseNumber() returns (ok: bool, v: Value)
      requires Ready()
      modifies this`offset
      ensures var r := P.ParseNumber(content, old(offset));
              if r.Ok? then ok && Ready() && v == r.v && offset == r.next else !ok && offset == r.at
    {
      v := Null;
      var buffer := new byte[64];
      var n := CopyNumber(buffer);
      var read := Strtod(buffer, n, offset);
      if read.None? {
        return false, v;
      }
      P.NumberInside(content, offset);
      offset := offset + read.value.1;
      return true, Num(read.value.0);
    }

    /** strtod on the temporary buffer is strtod on the text it was copied from. */
    method Strtod(buffer: array<byte>, n: nat, i: nat) returns (read: Option<(Number, nat)>)
      requires n < buffer.Length && buffer[n] == NUL && i < |content|
      requires n == P.NumberRun(content, i, i + P.NUMBER_ROOM)
      requires forall k :: 0 <= k < n ==> buffer[k] == content[i + k]
      ensures var r := P.ParseNumber(content, i);
              if read.None? then r == P.Err(i) else r == P.Ok(Num(read.value.0), i + read.value.1)
    {
      hide P.Strtod;
      assert buffer[..n] == content[i..i + n];
      read := P.Strtod(buffer[..n]);
    }

    /** First pass: the closing quote and the pairs in front of it. */
    method FindEnd(start: nat) returns (ok: bool, end: nat, skipped: nat)
      requires start <= |content|
      ensures ok == P.FindClose(content, start).Some?
      ensures ok ==> P.FindClose(content, start) == Some(end) && skipped == Pairs(content, start, end)
    {
      end, skipped := start, 0;
      while end < |content| && content[end] != QUOTE
        invariant start <= end <= |content|
        invariant P.FindClose(content, end) == P.FindClose(content, start)
        invariant forall stop :: end <= stop <= |content| ==>
          Pairs(content, start, stop) == skipped + Pairs(content, end, stop)
        decreases |content| - end
      {
        if content[end] == BACKSLASH {
          if end + 1 >= |content| {
            return false, end, skipped;
          }
          skipped := skipped + 1;
          end := end + 1;
        }
        end := end + 1;
      }
      ok := end < |content|;
    }

    /** Second pass: decodes the body into `output`, which the first pass sized. */
    method Decode(start: nat, e: nat, output: array<byte>) returns (ok: bool, at: nat, w: nat)
      requires start <= e < |content|
      requires output.Length == e + 2 - start - Pairs(content, start, e)
      modifies output
      ensures var r := P.Unescape(content, start, e);
              if ok then w < output.Length && r == P.Bytes(output[..w]) else r == P.BadEscape(at)
    {
      hide P.UnescapeOne;
      var c := content;
      var p := start;
      w := 0;
      PairsBetween(c, start, start, e);
      while p < e
        invariant start <= p <= e + 1
        invariant w + Pairs(c, start, p) <= p - start && w < output.Length
        invariant P.Unescape(c, start, e) == P.Prepend(output[..w], P.Unescape(c, p, e))
        decreases e + 1 - p
      {
        ghost var written, piece := output[..w], P.UnescapeOne(c, p, e);
        if piece.Some? {
          PieceFits(c, start, p, e);
          RoomLeft(c, start, p + piece.value.used, e);
        }
        var used, next := DecodeOne(c, p, e, output, w);
        if used == 0 {
          return false, p, w;
        }
        assert output[..next] == written + piece.value.out;
        PrependTwice(written, piece.value.out, P.Unescape(c, p + used, e));
        p, w := p + used, next;
      }
      return true, p, w;
    }

    method ParseString() returns (ok: bool, s: bytes)
      requires Ready()
      modifies this
      ensures depth == old(depth)
      ensures var r := P.ParseString(content, old(offset));
              if oom then !ok
              else if r.Ok? then ok && Ready() && s == r.v && offset == r.next
              else !ok && offset == r.at
    {
      s := [];
      var start := offset + 1;
      if content[offset] != QUOTE {
        offset := start;
        return false, s;
      }
      var found, e, skipped := FindEnd(start);
      if !found {
        offset := start;
        return false, s;
      }
      var granted: bool := *;
      if !granted {
        oom := true;
        return false, s;
      }
      PairsBetween(content, start, start, e);
      var output := new byte[e - offset - skipped + 1];
      var decoded, at, w := Decode(start, e, output);
      if !decoded {
        offset := at;
        return false, s;
      }
      P.StringInside(content, offset);
      output[w] := NUL;
      offset := e + 1;
      return true, P.CString(output[..w]);
    }

    /**
     * The outcome every value parser promises: what its function says, with the depth restored on
     * success, unless an allocation was refused.
     */
    twostate predicate Outcome(r: P.Parsed<Value>, ok: bool, v: Value)
      reads this
    {
      if oom then !ok
      else if r.Ok? then ok && Ready() && v == r.v && offset == r.next && depth == old(depth)
      else !ok && offset == r.at
    }

    method ParseValue() returns (ok: bool, v: Value)
      requires Ready()
      modifies this
      ensures Outcome(P.ParseValue(content, old(offset), old(depth)), ok, v)
      decreases |content| - offset, 3
    {
      ok, v := true, Null;
      if P.StartsAt(content, offset, NULL_TEXT) {
        P.WordInside(content, offset, NULL_TEXT);
        offset := offset + 4;
      } else if P.StartsAt(content, offset, FALSE_TEXT) {
        P.WordInside(content, offset, FALSE_TEXT);
        v := False;
        offset := offset + 5;
      } else if P.StartsAt(content, offset, TRUE_TEXT) {
        P.WordInside(content, offset, TRUE_TEXT);
        v := True;
        offset := offset + 4;
      } else if content[offset] == QUOTE {
        var s;
        ok, s := ParseString();
        v := Str(s);
      } else if content[offset] == MINUS || P.Digit(content[offset]) {
        ok, v := ParseNumber();
      } else if content[offset] == LBRACKET {
        ok, v := ParseArray();
      } else if content[offset] == LBRACE {
        ok, v := ParseObject();
      } else {
        ok := false;
      }
    }

    method ParseArray() returns (ok: bool, v: Value)
      requires Ready() && content[offset] == LBRACKET
      modifies this
      ensures Outcome(P.ParseArray(content, old(offset), old(depth)), ok, v)
      decreases |content| - offset, 2
    {
      hide P.ParseValue, P.ParseMember, P.ParseObject, P.ScanSpace;
      v := Null;
      if depth >= P.NESTING_LIMIT {
        return false, v;
      }
      depth := depth + 1;
      offset := offset + 1;
      SkipWhitespace();
      var elems: seq<Value> := [];
      if content[offset] != RBRACKET {
        // each turn of the loop begins by stepping over a bracket or comma
        offset := offset - 1;
        ok, elems := ParseElems();
        if !ok {
          return;
        }
      }
      depth := depth - 1;
      offset := offset + 1;
      return true, Arr(elems);
    }

    /** The loop over the elements, up to the closing one; the offset starts in front of the first. */
    method ParseElems() returns (ok: bool, elems: seq<Value>)
      requires Ready() && offset + 1 < |content|
      modifies this
      ensures var r := P.ParseElems(content, old(offset), old(depth));
              if oom then !ok
              else if r.Ok? then ok && Ready() && elems == r.v && offset + 1 == r.next && depth == old(depth)
              else !ok && offset == r.at
      decreases |content| - offset, 1
    {
      hide P.ParseValue, P.ParseMember, P.SkipSpace;
      ok, elems := false, [];
      ghost var all := P.ParseElems(content, offset, depth);
      assert all.Ok? ==> [] + all.v == all.v;
      var more := true;
      while more
        invariant !oom && depth == old(depth) <= P.NESTING_LIMIT
        invariant old(offset) <= offset < |content|
        invariant more ==> offset + 1 < |content| && all == Join(elems, P.ParseElems(content, offset, depth))
        invariant !more ==> all == if content[offset] == RBRACKET then P.Ok(elems, offset + 1) else P.Err(offset)
        decreases |content| - offset, more
      {
        var granted: bool := *;
        if !granted {
          oom := true;
          return false, elems;
        }
        ghost var rest := P.ParseElems(content, offset, depth);
        var elem;
        ok, elem := ParseElem();
        if !ok {
          return;
        }
        SkipWhitespace();
        more := content[offset] == COMMA;
        JoinOne(elems, elem, if more then P.ParseElems(content, offset, depth) else rest);
        elems := elems + [elem];
      }
      ok := content[offset] == RBRACKET;
    }

    /** The body of the loop over elements. */
    method ParseElem() returns (ok: bool, v: Value)
      requires Ready() && offset + 1 < |content|
      modifies this
      ensures Outcome(P.ParseValue(content, P.SkipSpace(content, old(offset) + 1), old(depth)), ok, v)
      decreases |content| - offset, 0
    {
      offset := offset + 1;
      SkipWhitespace();
      ok, v := ParseValue();
    }

    method ParseObject() returns (ok: bool, v: Value)
      requires Ready() && content[offset] == LBRACE
      modifies this
      ensures Outcome(P.ParseObject(content, old(offset), old(depth)), ok, v)
      decreases |content| - offset, 2
    {
      hide P.ParseValue, P.ParseMember, P.SkipSpace;
      v := Null;
      if depth >= P.NESTING_LIMIT {
        return false, v;
      }
      depth := depth + 1;
      offset := offset + 1;
      SkipWhitespace();
      var members: seq<Member> := [];
      if content[offset] != RBRACE {
        offset := offset - 1;
        ok, members := ParseMembers();
        if !ok {
          return;
        }
      }
      depth := depth - 1;
      offset := offset + 1;
      return true, Obj(members);
    }

    /** The loop over the members, up to the closing one; the offset starts in front of the first. */
    method ParseMembers() returns (ok: bool, members: seq<Member>)
      requires Ready() && offset + 1 < |content|
      modifies this
      ensures var r := P.ParseMembers(content, old(offset), old(depth));
              if oom then !ok
              else if r.Ok? then ok && Ready() && members == r.v && offset + 1 == r.next && depth == old(depth)
              else !ok && offset == r.at
      decreases |content| - offset, 1
    {
      hide P.ParseValue, P.ParseMember, P.SkipSpace;
      ok, members := false, [];
      ghost var all := P.ParseMembers(content, offset, depth);
      assert all.Ok? ==> [] + all.v == all.v;
      var more := true;
      while more
        invariant !oom && depth == old(depth) <= P.NESTING_LIMIT
        invariant old(offset) <= offset < |content|
        invariant more ==> offset + 1 < |content| && all == Join(members, P.ParseMembers(content, offset, depth))
        invariant !more ==> all == if content[offset] == RBRACE then P.Ok(members, offset + 1) else P.Err(offset)
        decreases |content| - offset, more
      {
        var granted: bool := *;
        if !granted {
          oom := true;
          return false, members;
        }
        ghost var rest := P.ParseMembers(content, offset, depth);
        var m;
        ok, m := ParseMember();
        if !ok {
          return;
        }
        SkipWhitespace();
        more := content[offset] == COMMA;
        JoinOne(members, m, if more then P.ParseMembers(content, offset, depth) else rest);
        members := members + [m];
      }
      ok := content[offset] == RBRACE;
    }

    /** The body of the loop over members: key, colon, value. */
    method ParseMember() returns (ok: bool, m: Member)
      requires Ready() && offset + 1 < |content|
      modifies this
      ensures var r := P.ParseMember(content, old(offset), old(depth));
              if oom then !ok
              else if r.Ok? then ok && Ready() && m == r.v && offset == r.next && depth == old(depth)
              else !ok && offset == r.at
      decreases |content| - offset, 0
    {
      hide P.ParseString, P.ParseValue;
      m := Member([], Null);
      var key, value;
      offset := offset + 1;
      SkipWhitespace();
      ok, key := ParseString();
      if !ok {
        return;
      }
      SkipWhitespace();
      if content[offset] != COLON {
        return false, m;
      }
      offset := offset + 1;
      SkipWhitespace();
      ok, value := ParseValue();
      return ok, Member(key, value);
    }
  }

  /** cJSON_ParseWithOpts: `end` is where parsing stopped, or the reported error position. */
  method ParseWithOpts(c: bytes, requireEnd: bool) returns (ok: bool, v: Value, end: nat, oom: bool)
    requires P.Terminated(c)
    ensures var r := P.ParseText(c, requireEnd);
            if oom then !ok
            else if r.Ok? then ok && v == r.v && end == r.next
            else !ok && end == r.at
  {
    var buffer := new ParseBuffer(c);
    if |c| > 4 && c[..3] == [0xEF, 0xBB, 0xBF] {
      buffer.offset := 3;
    }
    buffer.SkipWhitespace();
    ok, v := buffer.ParseValue();
    if ok && requireEnd {
      buffer.SkipWhitespace();
      ok := c[buffer.offset] == NUL;
    }
    end := if buffer.offset < |c| then buffer.offset else |c| - 1;
    oom := buffer.oom;
  }

  /** What was read before, in front of what the rest reads. */
  function Join<T>(front: seq<T>, rest: P.Parsed<seq<T>>): P.Parsed<seq<T>> {
    if rest.Ok? then P.Ok(front + rest.v, rest.next) else rest
  }

  lemma JoinOne<T>(front: seq<T>, v: T, rest: P.Parsed<seq<T>>)
    ensures rest.Ok? ==> Join(front, P.Ok([v] + rest.v, rest.next)) == Join(front + [v], rest)
  {
    if rest.Ok? {
      assert front + ([v] + rest.v) == front + [v] + rest.v;
    }
  }

  lemma RoomLeft(c: bytes, start: nat, p: nat, e: nat)
    requires start <= p <= e + 1 && e < |c|
    ensures p + Pairs(c, start, e) <= e + 1 + Pairs(c, start, p)
  {
    if p <= e {
      PairsBetween(c, start, p, e);
    } else {
      PairsBetween(c, start, e, p);
    }
  }
}
