/** The growing print buffer and the printer that fills it. */
module JsonPrinter {
  import opened Basics
  import opened JsonText
  import P = JsonParse
  import R = JsonRoundTrip

  const INT_MAX: nat := 2147483647

  lemma TextNonEmpty(v: Value, fmt: bool, d: nat)
    ensures |Text(v, fmt, d)| >= 1
  {
    if v.Num? {
      IntTextNonEmpty(v.n.m);
    }
  }

  lemma IntTextNonEmpty(m: int)
    ensures |IntText(m)| >= 1
  {
  }

  /** Bytes the first pass counts for escaping b: one for a letter escape, five for a \\u escape. */
  function ExtraOf(b: byte): nat {
    if ShortEscape(b) != [] then 1 else if b < 32 then 5 else 0
  }

  function Extra(s: bytes): nat {
    if s == [] then 0 else ExtraOf(s[0]) + Extra(s[1..])
  }

  /** The first pass counts exactly the bytes the second pass writes. */
  lemma {:induction false} EscapeLength(s: bytes)
    ensures |Escape(s)| == |s| + Extra(s)
  {
    if s != [] {
      EscapeLength(s[1..]);
    }
  }

  /** When nothing is counted, the string is copied as it is. */
  lemma {:induction false} NothingEscaped(s: bytes)
    requires Extra(s) == 0
    ensures Escape(s) == s
  {
    if s != [] {
      NothingEscaped(s[1..]);
    }
  }

  method CountEscapes(s: bytes) returns (n: nat)
    ensures n == Extra(s)
  {
    n := 0;
    for k := 0 to |s|
      invariant n + Extra(s[k..]) == Extra(s)
    {
      var b := s[k];
      if b == QUOTE || b == BACKSLASH || b == 8 || b == 12 || b == NEWLINE || b == 13 || b == TAB {
        n := n + 1;
      } else if b < 32 {
        n := n + 5;
      }
    }
  }

  class PrintBuffer {
    var buffer: array<byte>
    var length: nat
    var offset: nat
    var depth: nat
    const noalloc: bool
    const format: bool
    /** Set when an allocation was refused; the buffer is then gone. */
    var oom: bool

    constructor (buffer: array<byte>, length: nat, noalloc: bool, format: bool)
      requires length <= buffer.Length && length <= INT_MAX
      ensures this.buffer == buffer && this.length == length && offset == 0 && depth == 0 && !oom
      ensures this.noalloc == noalloc && this.format == format
    {
      this.buffer, this.length, this.noalloc, this.format := buffer, length, noalloc, format;
      offset, depth, oom := 0, 0, false;
    }

    predicate Ready()
      reads this
    {
      !oom && length <= buffer.Length && length <= INT_MAX && (offset < length || (length == 0 && offset == 0))
    }

    /** No buffer is ever longer than this. */
    function Limit(): nat
      reads this
    {
      if noalloc then length else INT_MAX
    }

    /** Only buffers of the caller's making are replaced, and a fixed buffer keeps what lies past its length. */
    twostate predicate Framed()
      reads this, buffer
    {
      && (buffer == old(buffer) || fresh(buffer))
      && (noalloc ==> buffer == old(buffer) && length == old(length) && oom == old(oom) &&
                      forall k :: length <= k < buffer.Length ==> buffer[k] == old(buffer[k]))
    }

    /** The first n bytes of the buffer are the first n bytes of `all`. */
    predicate Agrees(all: bytes, n: nat)
      reads this, buffer
    {
      n <= |all| && n <= buffer.Length && forall k :: 0 <= k < n ==> buffer[k] == all[k]
    }

    /** Makes room for `needed` more bytes and one to spare; the text so far survives a reallocation. */
    method Ensure(needed: nat) returns (ok: bool)
      requires Ready()
      modifies this
      ensures offset == old(offset) && depth == old(depth) && Framed()
      ensures oom ==> !ok
      ensures !oom ==> (ok <==> offset + needed + 1 <= Limit())
      ensures ok ==> Ready() && offset + needed + 1 <= length
      ensures ok ==> forall k :: 0 <= k < offset ==> buffer[k] == old(buffer[k])
    {
      if length > 0 && offset >= length {
        return false;
      }
      if needed > INT_MAX {
        return false;
      }
      var total := needed + offset + 1;
      if total <= length {
        return true;
      }
      if noalloc {
        return false;
      }
      var newsize;
      if total > INT_MAX / 2 {
        if total <= INT_MAX {
          newsize := INT_MAX;
        } else {
          return false;
        }
      } else {
        newsize := total * 2;
      }
      var granted: bool := *;
      if !granted {
        oom := true;
        return false;
      }
      // with and without realloc, at least the bytes up to the offset are copied
      var newbuffer := new byte[newsize];
      var from, count := buffer, offset;
      for k := 0 to count
        invariant forall j :: 0 <= j < k ==> newbuffer[j] == from[j]
        modifies newbuffer
      {
        newbuffer[k] := from[k];
      }
      length := newsize;
      buffer := newbuffer;
      return true;
    }

    /** Stores a run of bytes in the buffer. */
    method Put(i: nat, t: bytes)
      requires Ready() && i + |t| <= length
      modifies buffer
      ensures forall k :: 0 <= k < |t| ==> buffer[i + k] == t[k]
      ensures forall k :: 0 <= k < i || i + |t| <= k < buffer.Length ==> buffer[k] == old(buffer[k])
    {
      for n := 0 to |t|
        invariant forall k :: 0 <= k < n ==> buffer[i + k] == t[k]
        invariant forall k :: 0 <= k < i || i + |t| <= k < buffer.Length ==> buffer[k] == old(buffer[k])
      {
        buffer[i + n] := t[n];
      }
    }

    /** Stores a run of bytes of `all`. */
    method PutAt(i: nat, t: bytes, ghost all: bytes)
      requires Ready() && i + |t| <= length && Agrees(all, i) && P.StartsAt(all, i, t)
      modifies buffer
      ensures Agrees(all, i + |t|)
      ensures forall k :: i + |t| <= k < buffer.Length ==> buffer[k] == old(buffer[k])
    {
      Put(i, t);
      forall k | i <= k < i + |t| ensures buffer[k] == all[k] {
        assert buffer[i + (k - i)] == t[k - i] == all[i + (k - i)];
      }
    }

    /** The buffer holds the first `end` bytes of `all` as a C string, and the offset is inside it. */
    predicate Holds(all: bytes, end: nat)
      reads this, buffer
    {
      Ready() && offset <= end < length && Agrees(all, end) && buffer[end] == NUL
    }

    /** strlen from the offset: the offset catches up with the text that was written. */
    method UpdateOffset(ghost all: bytes, ghost end: nat)
      requires Holds(all, end) && NulFree(all)
      modifies this`offset
      ensures Holds(all, end) && offset == end
    {
      while buffer[offset] != NUL
        invariant Holds(all, end)
        decreases end - offset
      {
        offset := offset + 1;
      }
    }

    /**
     * Printing t, which comes next in `all`: it succeeds exactly when t, its NUL and one spare byte fit,
     * and then the buffer holds `all` up to the end of t.
     */
    twostate predicate Printed(all: bytes, t: bytes, ok: bool)
      requires old(Ready())
      reads this, buffer
    {
      && Framed() && (oom ==> !ok)
      && (!oom ==> (ok <==> old(offset) + |t| + 2 <= Limit()))
      && (ok ==> Holds(all, old(offset) + |t|) && offset >= old(offset) && depth == old(depth))
    }

    /** Appends t without a NUL: the opening bracket, the indentation of a key, the colon. */
    method Append(t: bytes, reserve: nat, ghost all: bytes) returns (ok: bool)
      requires Ready() && reserve >= |t| && Agrees(all, offset) && P.StartsAt(all, offset, t)
      modifies this, buffer
      ensures Framed() && (oom ==> !ok) && depth == old(depth)
      ensures !oom ==> (ok <==> old(offset) + reserve + 1 <= Limit())
      ensures ok ==> Ready() && offset == old(offset) + |t| && Agrees(all, offset)
    {
      ok := Ensure(reserve);
      if ok {
        PutAt(offset, t, all);
        offset := offset + |t|;
      }
    }

    /** Appends t and a NUL: the separators. */
    method AppendString(t: bytes, ghost all: bytes) returns (ok: bool)
      requires Ready() && Agrees(all, offset) && P.StartsAt(all, offset, t)
      modifies this, buffer
      ensures Printed(all, t, ok)
      ensures ok ==> offset == old(offset) + |t|
    {
      ok := PrintWord(t, all);
      if ok {
        offset := offset + |t|;
      }
    }

    method PrintWord(t: bytes, ghost all: bytes) returns (ok: bool)
      requires Ready() && Agrees(all, offset) && P.StartsAt(all, offset, t)
      modifies this, buffer
      ensures Printed(all, t, ok) && (ok ==> offset == old(offset))
    {
      ok := Ensure(|t| + 1);
      if ok {
        PutAt(offset, t, all);
        buffer[offset + |t|] := NUL;
      }
    }

    method PrintNumber(n: Number, ghost all: bytes) returns (ok: bool)
      requires Ready() && PlainNumber(n) && Agrees(all, offset) && P.StartsAt(all, offset, NumText(n))
      modifies this, buffer
      ensures Printed(all, NumText(n), ok)
    {
      // sprintf("%1.15g") into a 26-byte buffer
      var t := NumText(n);
      assert |t| <= 25 by {
        R.IntTextShape(n.m);
      }
      ok := PrintWord(t, all);
      if ok {
        offset := offset + |t|;
      }
    }

    /** Second pass: writes the escaped string; the hex escapes come from sprintf, which adds a NUL. */
    method WriteEscaped(s: bytes, i: nat, ghost all: bytes)
      requires Ready() && i + |Escape(s)| < length && Agrees(all, i) && P.StartsAt(all, i, Escape(s))
      modifies buffer
      ensures Agrees(all, i + |Escape(s)|)
      ensures forall k :: i + |Escape(s)| < k < buffer.Length ==> buffer[k] == old(buffer[k])
    {
      hide P.StartsAt, EscapeByte;
      var o: nat := i;
      for n := 0 to |s|
        invariant o + |Escape(s[n..])| == i + |Escape(s)|
        invariant Agrees(all, o) && P.StartsAt(all, o, Escape(s[n..]))
        invariant forall k :: i + |Escape(s)| < k < buffer.Length ==> buffer[k] == old(buffer[k])
      {
        assert s[n..][0] == s[n] && s[n..][1..] == s[n + 1..];
        P.StartsAtConcat(all, o, EscapeByte(s[n]), Escape(s[n + 1..]));
        o := WriteByte(s[n], o, all);
      }
    }

    method WriteByte(b: byte, o: nat, ghost all: bytes) returns (next: nat)
      requires Ready() && o + |EscapeByte(b)| < length && Agrees(all, o) && P.StartsAt(all, o, EscapeByte(b))
      modifies buffer
      ensures next == o + |EscapeByte(b)| && Agrees(all, next)
      ensures forall k :: next < k < buffer.Length ==> buffer[k] == old(buffer[k])
    {
      ghost var t := EscapeByte(b);
      P.StartsAtByte(all, o, t, 0);
      if b > 31 && b != QUOTE && b != BACKSLASH {
        buffer[o] := b;
        return o + 1;
      }
      P.StartsAtByte(all, o, t, 1);
      buffer[o] := BACKSLASH;
      if b == BACKSLASH || b == QUOTE {
        buffer[o + 1] := b;
      } else if b == 8 {
        buffer[o + 1] := 98;
      } else if b == 12 {
        buffer[o + 1] := 102;
      } else if b == NEWLINE {
        buffer[o + 1] := 110;
      } else if b == 13 {
        buffer[o + 1] := 114;
      } else if b == TAB {
        buffer[o + 1] := 116;
      } else {
        WriteHex(b, o + 1, all);
        return o + 6;
      }
      return o + 2;
    }

    /** sprintf(output_pointer, "u%04x", b), behind the backslash. */
    method WriteHex(b: byte, o: nat, ghost all: bytes)
      requires Ready() && b < 32 && ShortEscape(b) == [] && 0 < o && o + 5 < length
      requires Agrees(all, o) && P.StartsAt(all, o - 1, EscapeByte(b))
      modifies buffer
      ensures Agrees(all, o + 5)
      ensures forall k :: o + 5 < k < buffer.Length ==> buffer[k] == old(buffer[k])
    {
      hide P.StartsAt;
      var hex := [LOWER_U, ZERO, ZERO, HexDigit(b / 16), HexDigit(b % 16)];
      assert EscapeByte(b) == [BACKSLASH] + hex;
      P.StartsAtConcat(all, o - 1, [BACKSLASH], hex);
      PutAt(o, hex, all);
      buffer[o + 5] := NUL;
    }

    method PrintStringPtr(s: bytes, ghost all: bytes) returns (ok: bool)
      requires Ready() && Agrees(all, offset) && P.StartsAt(all, offset, Quoted(s))
      modifies this, buffer
      ensures Printed(all, Quoted(s), ok) && (ok ==> offset == old(offset))
    {
      hide P.StartsAt, Escape;
      var escapes := CountEscapes(s);
      EscapeLength(s);
      P.StartsAtRegroup(all, offset, [QUOTE], Escape(s), [QUOTE]);
      P.StartsAtConcat(all, offset + 1, Escape(s), [QUOTE]);
      var size := |s| + escapes;
      ok := Ensure(size + 3);
      if !ok {
        return;
      }
      WriteQuoted(s, escapes, all);
    }

    /** The quotes and, unless there is nothing to escape, the escaping second pass. */
    method WriteQuoted(s: bytes, escapes: nat, ghost all: bytes)
      requires Ready() && escapes == Extra(s) && offset + |s| + escapes + 4 <= length && Agrees(all, offset)
      requires P.StartsAt(all, offset, [QUOTE]) && P.StartsAt(all, offset + 1, Escape(s))
      requires P.StartsAt(all, offset + 1 + |s| + escapes, [QUOTE])
      modifies buffer
      ensures Holds(all, offset + |s| + escapes + 2)
      ensures forall k :: offset + |s| + escapes + 2 < k < buffer.Length ==> buffer[k] == old(buffer[k])
    {
      hide P.StartsAt, Escape;
      EscapeLength(s);
      PutAt(offset, [QUOTE], all);
      if escapes == 0 {
        NothingEscaped(s);
        PutAt(offset + 1, s, all);
      } else {
        WriteEscaped(s, offset + 1, all);
      }
      PutAt(offset + 1 + |s| + escapes, [QUOTE], all);
      buffer[offset + |s| + escapes + 2] := NUL;
    }

    method PrintValue(v: Value, ghost all: bytes) returns (ok: bool)
      requires Ready() && Printable(v) && NulFree(all)
      requires Agrees(all, offset) && P.StartsAt(all, offset, Text(v, format, depth))
      modifies this, buffer
      ensures Printed(all, Text(v, format, old(depth)), ok)
      decreases v, 1
    {
      match v
      case Null =>
        ok := PrintWord(NULL_TEXT, all);
      case False =>
        ok := PrintWord(FALSE_TEXT, all);
      case True =>
        ok := PrintWord(TRUE_TEXT, all);
      case Num(n) =>
        ok := PrintNumber(n, all);
      case Str(s) =>
        ok := PrintStringPtr(s, all);
      case Arr(es) =>
        ok := PrintArray(es, all);
      case Obj(ms) =>
        ok := PrintObject(ms, all);
    }

    /** The same for what is left of an array or object, which goes to `end`. */
    twostate predicate Finished(all: bytes, end: nat, ok: bool)
      requires old(Ready())
      reads this, buffer
    {
      && Framed() && (oom ==> !ok)
      && (!oom ==> (ok <==> end + 2 <= Limit()))
      && (ok ==> Holds(all, end) && offset >= old(offset) && depth == old(depth) - 1)
    }

    method PrintArray(es: seq<Value>, ghost all: bytes) returns (ok: bool)
      requires Ready() && PrintableElems(es) && NulFree(all)
      requires Agrees(all, offset) && P.StartsAt(all, offset, Text(Arr(es), format, depth))
      modifies this, buffer
      ensures Printed(all, Text(Arr(es), format, old(depth)), ok)
      decreases es, 2
    {
      hide P.StartsAt, Text, ElemsText, PrintableElems, NulFree;
      ghost var d, end := depth, offset + |Text(Arr(es), format, depth)|;
      ArraySplit(es, format, d);
      P.StartsAtConcat(all, offset, [LBRACKET], ElemsText(es, format, d + 1) + [RBRACKET]);
      ok := Append([LBRACKET], 1, all);
      if !ok {
        return;
      }
      depth := depth + 1;
      ok := PrintElems(es, all, end);
    }

    /** The loop over the elements, and the closing bracket. */
    method PrintElems(es: seq<Value>, ghost all: bytes, ghost end: nat) returns (ok: bool)
      requires ElemsNext(es, end, all) && NulFree(all) && depth > 0
      modifies this, buffer
      ensures Finished(all, end, ok)
      decreases es, 1
    {
      hide P.StartsAt, Text, ElemsText, PrintableElems, NulFree;
      NoElems(format, depth);
      assert es[0..] == es;
      var i := 0;
      while i < |es|
        invariant 0 <= i <= |es| && depth == old(depth) && Framed() && old(offset) <= offset
        invariant ElemsNext(es[i..], end, all)
      {
        ok := PrintElem(es[i], i + 1 == |es|, all, end, es[i..]);
        if !ok {
          return;
        }
        assert es[i..][1..] == es[i + 1..];
        i := i + 1;
      }
      assert es[i..] == [];
      ok := PrintWord([RBRACKET], all);
      if ok {
        depth := depth - 1;
      }
    }

    /** The elements still to print, and the closing bracket, come next in `all` and stop at `end`. */
    ghost predicate ElemsNext(es: seq<Value>, end: nat, all: bytes)
      reads this, buffer
    {
      && Ready() && PrintableElems(es) && Agrees(all, offset)
      && P.StartsAt(all, offset, ElemsText(es, format, depth) + [RBRACKET])
      && offset + |ElemsText(es, format, depth) + [RBRACKET]| == end
    }

    /** One turn of the loop over the elements: the element, and a comma unless it is the last. */
    method PrintElem(e: Value, last: bool, ghost all: bytes, ghost end: nat, ghost es: seq<Value>) returns (ok: bool)
      requires es != [] && es[0] == e && last == (|es| == 1) && NulFree(all)
      requires ElemsNext(es, end, all)
      modifies this, buffer
      ensures Framed() && (oom ==> !ok) && (!ok && !oom ==> end + 2 > Limit())
      ensures ok ==> ElemsNext(es[1..], end, all) && depth == old(depth) && offset >= old(offset)
      decreases e, 2
    {
      hide P.StartsAt, Text, ElemsText, Agrees, NulFree;
      AfterElemText(es, format, depth);
      NoElems(format, depth);
      P.StartsAtConcat(all, offset, Text(e, format, depth), AfterElem(es, format, depth));
      ghost var next := offset + |Text(e, format, depth)|;
      assert next + |AfterElem(es, format, depth)| == end;
      ok := PrintValue(e, all);
      if !ok {
        return;
      }
      UpdateOffset(all, next);
      if last {
        assert es[1..] == [];
      } else {
        P.StartsAtConcat(all, offset, CommaText(format), ElemsText(es[1..], format, depth) + [RBRACKET]);
        ok := AppendString(CommaText(format), all);
      }
    }

    method PrintObject(ms: seq<Member>, ghost all: bytes) returns (ok: bool)
      requires Ready() && PrintableMembers(ms) && NulFree(all)
      requires Agrees(all, offset) && P.StartsAt(all, offset, Text(Obj(ms), format, depth))
      modifies this, buffer
      ensures Printed(all, Text(Obj(ms), format, old(depth)), ok)
      decreases ms, 2
    {
      hide P.StartsAt, Text, MembersText, CloseText, PrintableMembers, NulFree;
      ghost var d, end := depth, offset + |Text(Obj(ms), format, depth)|;
      ObjectSplit(ms, format, d);
      assert [] + CloseText(format, d) == CloseText(format, d);
      P.StartsAtConcat(all, offset, OpenBrace(format), MembersText(ms, format, d + 1) + CloseText(format, d));
      ok := Append(OpenBrace(format), |OpenBrace(format)| + 1, all);
      if !ok {
        return;
      }
      depth := depth + 1;
      ok := PrintMembers(ms, all, end);
    }

    /** The loop over the members, and the closing brace. */
    method PrintMembers(ms: seq<Member>, ghost all: bytes, ghost end: nat) returns (ok: bool)
      requires MembersNext(ms, end, all) && NulFree(all)
      modifies this, buffer
      ensures Finished(all, end, ok)
      decreases ms, 1
    {
      hide P.StartsAt, Text, MembersText, CloseText, PrintableMembers, NulFree;
      ObjectSplit([], format, depth - 1);
      assert [] + CloseText(format, depth - 1) == CloseText(format, depth - 1);
      assert ms[0..] == ms;
      var i := 0;
      while i < |ms|
        invariant 0 <= i <= |ms| && depth == old(depth) && Framed() && old(offset) <= offset
        invariant MembersNext(ms[i..], end, all)
      {
        ok := PrintMember(ms[i], i + 1 == |ms|, all, end, ms[i..]);
        if !ok {
          return;
        }
        assert ms[i..][1..] == ms[i + 1..];
        i := i + 1;
      }
      assert ms[i..] == [];
      ok := PrintWord(CloseText(format, depth - 1), all);
      if ok {
        depth := depth - 1;
      }
    }

    /** The members still to print, and the closing brace, come next in `all` and stop at `end`. */
    ghost predicate MembersNext(ms: seq<Member>, end: nat, all: bytes)
      reads this, buffer
    {
      && Ready() && PrintableMembers(ms) && depth >= 1 && Agrees(all, offset)
      && P.StartsAt(all, offset, MembersText(ms, format, depth) + CloseText(format, depth - 1))
      && offset + |MembersText(ms, format, depth) + CloseText(format, depth - 1)| == end
    }

    /** The tabs in front of a key. */
    method PrintIndent(ghost all: bytes) returns (ok: bool)
      requires Ready() && Agrees(all, offset) && P.StartsAt(all, offset, Indent(format, depth))
      modifies this, buffer
      ensures Framed() && (oom ==> !ok) && depth == old(depth)
      ensures !ok && !oom ==> old(offset) + |Indent(format, depth)| + 1 > Limit()
      ensures ok ==> Ready() && offset == old(offset) + |Indent(format, depth)| && Agrees(all, offset)
    {
      ok := true;
      if format {
        ok := Append(Tabs(depth), depth, all);
      }
    }

    /** One turn of the loop over the members: indentation, key, colon, value, comma and line break. */
    method PrintMember(m: Member, last: bool, ghost all: bytes, ghost end: nat, ghost ms: seq<Member>)
      returns (ok: bool)
      requires ms != [] && ms[0] == m && last == (|ms| == 1) && NulFree(all)
      requires MembersNext(ms, end, all)
      modifies this, buffer
      ensures Framed() && (oom ==> !ok) && (!ok && !oom ==> end + 2 > Limit())
      ensures ok ==> MembersNext(ms[1..], end, all) && depth == old(depth) && offset >= old(offset)
      decreases m, 4
    {
      hide P.StartsAt, Text, MembersText, CloseText, MemberText, Agrees, NulFree, Printable;
      MemberSplit(ms, format, depth);
      ghost var tail := MembersText(ms[1..], format, depth) + CloseText(format, depth - 1);
      ghost var after := MemberEnd(format, last) + tail;
      P.StartsAtConcat(all, offset, Indent(format, depth), MemberText(m, format, depth) + after);
      P.StartsAtConcat(all, offset + |Indent(format, depth)|, MemberText(m, format, depth), after);
      ok := PrintIndented(m, all);
      if ok {
        P.StartsAtConcat(all, offset, MemberEnd(format, last), tail);
        ok := AppendString(MemberEnd(format, last), all);
      }
    }

    /** A member on its indentation. */
    method PrintIndented(m: Member, ghost all: bytes) returns (ok: bool)
      requires Ready() && NulFree(m.key) && Printable(m.value) && NulFree(all)
      requires Agrees(all, offset) && P.StartsAt(all, offset, Indent(format, depth))
      requires P.StartsAt(all, offset + |Indent(format, depth)|, MemberText(m, format, depth))
      modifies this, buffer
      ensures Framed() && (oom ==> !ok)
      ensures var end := old(offset) + |Indent(format, old(depth))| + |MemberText(m, format, old(depth))|;
        && (!ok && !oom ==> end + 2 > Limit())
        && (ok ==> Ready() && offset == end && Agrees(all, offset) && depth == old(depth))
      decreases m, 3
    {
      hide P.StartsAt, Text, MemberText, NulFree, Printable, Indent;
      ok := PrintIndent(all);
      if ok {
        ok := PrintKeyValue(m, all);
      }
    }

    /** A member's key and colon. */
    method PrintKey(key: bytes, ghost all: bytes) returns (ok: bool)
      requires Ready() && NulFree(all) && Agrees(all, offset) && P.StartsAt(all, offset, Quoted(key))
      requires P.StartsAt(all, offset + |Quoted(key)|, ColonText(format))
      modifies this, buffer
      ensures Framed() && (oom ==> !ok) && (ok ==> depth == old(depth))
      ensures !oom ==> (ok <==> old(offset) + |Quoted(key)| + |ColonText(format)| + 1 <= Limit())
      ensures ok ==> Ready() && offset == old(offset) + |Quoted(key)| + |ColonText(format)| && Agrees(all, offset)
    {
      hide P.StartsAt, Quoted, NulFree;
      ok := PrintStringPtr(key, all);
      if ok {
        UpdateOffset(all, offset + |Quoted(key)|);
        ok := Append(ColonText(format), |ColonText(format)|, all);
      }
    }

    /** A member's key, colon and value. */
    method PrintKeyValue(m: Member, ghost all: bytes) returns (ok: bool)
      requires Ready() && NulFree(m.key) && Printable(m.value) && NulFree(all)
      requires Agrees(all, offset) && P.StartsAt(all, offset, MemberText(m, format, depth))
      modifies this, buffer
      ensures Printed(all, MemberText(m, format, old(depth)), ok)
      ensures ok ==> offset == old(offset) + |MemberText(m, format, depth)|
      decreases m, 2
    {
      hide P.StartsAt, Text, Quoted, NulFree, Printable;
      ghost var key, v := Quoted(m.key), Text(m.value, format, depth);
      P.StartsAtRegroup(all, offset, key, ColonText(format), v);
      P.StartsAtConcat(all, offset + |key|, ColonText(format), v);
      TextNonEmpty(m.value, format, depth);
      ok := PrintKey(m.key, all);
      if !ok {
        return;
      }
      ghost var end := offset + |v|;
      ok := PrintValue(m.value, all);
      if ok {
        UpdateOffset(all, end);
      }
    }
  }

  // --- the entry points ---

  /** The C string at the start of a buffer is s. */
  ghost predicate IsText(buffer: array<byte>, s: bytes)
    reads buffer
  {
    |s| < buffer.Length && buffer[..|s|] == s && buffer[|s|] == NUL
  }

  lemma WholeText(v: Value, fmt: bool)
    requires Printable(v)
    ensures NulFree(Text(v, fmt, 0)) && P.StartsAt(Text(v, fmt, 0), 0, Text(v, fmt, 0))
  {
    R.TextNulFree(v, fmt, 0);
  }

  /**
   * cJSON_PrintBuffered: whatever the first guess at the size, the result is the text of v; it fails only
   * when an allocation is refused or the text cannot fit in an int-sized buffer.
   */
  method PrintBuffered(v: Value, prebuffer: int, fmt: bool) returns (ok: bool, buffer: array<byte>, oom: bool)
    requires Printable(v) && prebuffer <= INT_MAX
    ensures ok ==> !oom && IsText(buffer, Text(v, fmt, 0)) && fresh(buffer)
    ensures !oom ==> (ok <==> prebuffer >= 0 && |Text(v, fmt, 0)| + 2 <= INT_MAX)
  {
    hide Text;
    ok, oom := false, false;
    if prebuffer < 0 {
      buffer := new byte[0];
      return;
    }
    var granted: bool := *;
    buffer := new byte[prebuffer];
    if !granted {
      oom := true;
      return;
    }
    var p := new PrintBuffer(buffer, prebuffer, false, fmt);
    WholeText(v, fmt);
    ok := p.PrintValue(v, Text(v, fmt, 0));
    buffer, oom := p.buffer, p.oom;
  }

  /**
   * cJSON_PrintPreallocated: succeeds exactly when the caller's length has room for the text, its NUL and
   * one more byte, and never touches the bytes past that length.
   */
  method PrintPreallocated(v: Value, buffer: array<byte>, len: int, fmt: bool) returns (ok: bool)
    requires Printable(v) && len <= buffer.Length && len <= INT_MAX
    modifies buffer
    ensures ok <==> |Text(v, fmt, 0)| + 2 <= len
    ensures ok ==> IsText(buffer, Text(v, fmt, 0))
    ensures forall k :: 0 <= k < buffer.Length && k >= len ==> buffer[k] == old(buffer[k])
  {
    hide Text;
    if len < 0 {
      return false;
    }
    var p := new PrintBuffer(buffer, len, true, fmt);
    WholeText(v, fmt);
    ok := p.PrintValue(v, Text(v, fmt, 0));
  }

  /**
   * cJSON_Print and cJSON_PrintUnformatted: both ask for unformatted text, and the result is cut to the
   * exact size of the text and its NUL.
   */
  method Print(v: Value) returns (ok: bool, printed: array<byte>, oom: bool)
    requires Printable(v)
    ensures ok ==> !oom && printed[..] == Text(v, false, 0) + [NUL] && fresh(printed)
    ensures !oom ==> (ok <==> |Text(v, false, 0)| + 2 <= INT_MAX)
  {
    hide Text;
    ok, oom, printed := false, false, new byte[0];
    var granted: bool := *;
    if !granted {
      oom := true;
      return;
    }
    var buffer := new byte[256];
    var p := new PrintBuffer(buffer, 256, false, false);
    ghost var t := Text(v, false, 0);
    WholeText(v, false);
    ok := p.PrintValue(v, t);
    if !ok {
      oom := p.oom;
      return;
    }
    p.UpdateOffset(t, |t|);
    var resized: bool := *;
    if !resized {
      ok, oom := false, true;
      return;
    }
    printed := new byte[p.offset + 1];
    var from := p.buffer;
    for k := 0 to printed.Length
      invariant forall j :: 0 <= j < k ==> printed[j] == from[j]
      modifies printed
    {
      printed[k] := from[k];
    }
    assert forall k :: 0 <= k < |t| ==> printed[k] == t[k];
  }

  /** An object's text after its last member, d levels deep. */
  function CloseText(fmt: bool, d: nat): bytes { Indent(fmt, d) + [RBRACE] }

  /** What follows the first element. */
  function AfterElem(es: seq<Value>, fmt: bool, d: nat): (t: bytes)
    requires es != []
  {
    if |es| == 1 then [RBRACKET] else CommaText(fmt) + (ElemsText(es[1..], fmt, d) + [RBRACKET])
  }

  lemma AfterElemText(es: seq<Value>, fmt: bool, d: nat)
    requires es != []
    ensures ElemsText(es, fmt, d) + [RBRACKET] == Text(es[0], fmt, d) + AfterElem(es, fmt, d)
  {
    hide Text;
    var head, rest := Text(es[0], fmt, d), ElemsText(es[1..], fmt, d);
    if |es| == 1 {
      assert head + [] + [] == head;
    } else {
      P.Assoc(head + CommaText(fmt), rest, [RBRACKET]);
      P.Assoc(head, CommaText(fmt), rest + [RBRACKET]);
    }
  }

  lemma NoElems(fmt: bool, d: nat)
    ensures ElemsText([], fmt, d) + [RBRACKET] == [RBRACKET]
  {
  }

  lemma ArraySplit(es: seq<Value>, fmt: bool, d: nat)
    ensures Text(Arr(es), fmt, d) == [LBRACKET] + (ElemsText(es, fmt, d + 1) + [RBRACKET])
  {
    P.Assoc([LBRACKET], ElemsText(es, fmt, d + 1), [RBRACKET]);
  }

  lemma ObjectSplit(ms: seq<Member>, fmt: bool, d: nat)
    ensures Text(Obj(ms), fmt, d) == OpenBrace(fmt) + (MembersText(ms, fmt, d + 1) + CloseText(fmt, d))
    ensures MembersText([], fmt, d + 1) == [] && |CloseText(fmt, d)| >= 1
  {
    var o, t := OpenBrace(fmt), MembersText(ms, fmt, d + 1);
    P.Assoc(o + t, Indent(fmt, d), [RBRACE]);
    P.Assoc(o, t, CloseText(fmt, d));
  }

  lemma MemberSplit(ms: seq<Member>, fmt: bool, d: nat)
    requires ms != [] && d >= 1
    ensures MembersText(ms, fmt, d) + CloseText(fmt, d - 1)
            == Indent(fmt, d) + (MemberText(ms[0], fmt, d)
               + (MemberEnd(fmt, |ms| == 1) + (MembersText(ms[1..], fmt, d) + CloseText(fmt, d - 1))))
  {
    var a, b, e := Indent(fmt, d), MemberText(ms[0], fmt, d), MemberEnd(fmt, |ms| == 1);
    var r, t := MembersText(ms[1..], fmt, d), CloseText(fmt, d - 1);
    P.Assoc(a + b + e, r, t);
    P.Assoc(a + b, e, r + t);
    P.Assoc(a, b, e + (r + t));
  }
}
