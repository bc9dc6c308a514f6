/** cJSON_Minify: blanks and comments are dropped in place. */
module JsonMinify {
  import opened Basics
  import opened JsonText
  import P = JsonParse
  import R = JsonRoundTrip

  predicate Dropped(b: byte) { b == SPACE || b == TAB || b == 13 || b == NEWLINE }

  const STAR: byte := 42

  /** The end of a comment to end of line: the line break or the NUL. */
  function LineEnd(c: bytes, i: nat): (j: nat)
    requires P.Terminated(c) && i < |c|
    ensures i <= j < |c| && (i < |c| - 1 && c[i] != NEWLINE ==> i < j)
    decreases |c| - i
  {
    if c[i] == NUL || c[i] == NEWLINE then i else LineEnd(c, i + 1)
  }

  /** Where a comment's closing star is, or the NUL. */
  function CommentEnd(c: bytes, i: nat): (j: nat)
    requires P.Terminated(c) && i < |c|
    ensures i <= j < |c| && (c[j] == NUL || (j + 2 < |c| && c[j] == STAR && c[j + 1] == SLASH))
    decreases |c| - i
  {
    if c[i] == NUL || (c[i] == STAR && c[i + 1] == SLASH) then i else CommentEnd(c, i + 1)
  }

  /** A comment to end of line ends at the first line break, or at the NUL. */
  lemma {:induction false} LineEndExactly(c: bytes, i: nat, j: nat)
    requires P.Terminated(c) && i < |c|
    ensures LineEnd(c, i) == j <==>
      && i <= j < |c| && (c[j] == NUL || c[j] == 10)
      && forall k :: i <= k < j ==> c[k] != NUL && c[k] != 10
    decreases |c| - i
  {
    if c[i] != NUL && c[i] != 10 {
      LineEndExactly(c, i + 1, j);
    }
  }

  /** A star and a slash stand at k. */
  predicate Closing(c: bytes, k: nat) {
    k + 1 < |c| && c[k] == '*' as int && c[k + 1] == '/' as int
  }

  /** The other kind of comment ends at the first star with a slash behind it, or at the NUL. */
  lemma {:induction false} CommentEndExactly(c: bytes, i: nat, j: nat)
    requires P.Terminated(c) && i < |c|
    ensures CommentEnd(c, i) == j <==>
      && i <= j < |c| && (c[j] == NUL || Closing(c, j))
      && forall k :: i <= k < j ==> c[k] != NUL && !Closing(c, k)
    decreases |c| - i
  {
    if c[i] != NUL && !Closing(c, i) {
      CommentEndExactly(c, i + 1, j);
    }
  }

  function Glue(w: bytes, rest: Option<bytes>): Option<bytes> {
    if rest.Some? then Some(w + rest.value) else None
  }

  /**
   * The minified text from i on, or None when an unterminated string or comment sends the scan past
   * the terminating NUL.
   */
  function Minified(c: bytes, i: nat): Option<bytes>
    requires P.Terminated(c) && i < |c|
    decreases |c| - i
  {
    if c[i] == NUL then Some([])
    else if Dropped(c[i]) then Minified(c, i + 1)
    else if c[i] == SLASH && c[i + 1] == SLASH then Minified(c, LineEnd(c, i))
    else if c[i] == SLASH && c[i + 1] == STAR then
      var j := CommentEnd(c, i);
      if c[j] == NUL then None else Minified(c, j + 2)
    else if c[i] == QUOTE then
      var e := P.FindClose(c, i + 1);
      if e.None? then None else Glue(c[i..e.value + 1], Minified(c, e.value + 1))
    else Glue([c[i]], Minified(c, i + 1))
  }

  // --- minifying printed text ---

  lemma {:induction false} BlanksDropped(c: bytes, i: nat, w: bytes)
    requires P.Terminated(c) && P.StartsAt(c, i, w) && i + |w| < |c|
    requires forall k :: 0 <= k < |w| ==> Dropped(w[k])
    ensures Minified(c, i) == Minified(c, i + |w|)
    decreases |w|
  {
    if w != [] {
      P.StartsAtByte(c, i, w, 0);
      assert w == [w[0]] + w[1..];
      P.StartsAtConcat(c, i, [w[0]], w[1..]);
      BlanksDropped(c, i + 1, w[1..]);
    }
  }

  predicate Plain(b: byte) { b != NUL && !Dropped(b) && b != SLASH && b != QUOTE }

  lemma {:induction false} PlainKept(c: bytes, i: nat, w: bytes)
    requires P.Terminated(c) && P.StartsAt(c, i, w) && i + |w| < |c|
    requires forall k :: 0 <= k < |w| ==> Plain(w[k])
    ensures Minified(c, i) == Glue(w, Minified(c, i + |w|))
    decreases |w|
  {
    if w == [] {
      GlueNothing(Minified(c, i));
    } else {
      P.StartsAtByte(c, i, w, 0);
      assert w == [w[0]] + w[1..];
      P.StartsAtConcat(c, i, [w[0]], w[1..]);
      PlainKept(c, i + 1, w[1..]);
      GlueTwice([w[0]], w[1..], Minified(c, i + |w|));
    }
  }

  lemma GlueNothing(r: Option<bytes>)
    ensures Glue([], r) == r
  {
    if r.Some? {
      assert [] + r.value == r.value;
    }
  }

  lemma GlueTwice(a: bytes, b: bytes, r: Option<bytes>)
    ensures Glue(a, Glue(b, r)) == Glue(a + b, r)
  {
    if r.Some? {
      P.Assoc(a, b, r.value);
    }
  }

  lemma StringKept(c: bytes, i: nat, s: bytes)
    requires P.Terminated(c) && NulFree(s) && P.StartsAt(c, i, Quoted(s)) && i + |Quoted(s)| < |c|
    ensures Minified(c, i) == Glue(Quoted(s), Minified(c, i + |Quoted(s)|))
  {
    hide P.StartsAt, Escape, P.FindClose;
    P.Assoc([QUOTE], Escape(s), [QUOTE]);
    P.StartsAtConcat(c, i, [QUOTE], Escape(s) + [QUOTE]);
    P.StartsAtByte(c, i, [QUOTE], 0);
    R.CloseOfEscape(c, i + 1, s);
    P.StartsAtSlice(c, i, Quoted(s));
  }

  /** The formatted text of v minifies to its unformatted text, in any surroundings and at any depth. */
  lemma {:induction false} ValueMinified(v: Value, fmt: bool, d: nat, c: bytes, i: nat)
    requires P.Terminated(c) && Printable(v)
    requires P.StartsAt(c, i, Text(v, fmt, d)) && i + |Text(v, fmt, d)| < |c|
    ensures Minified(c, i) == Glue(Text(v, false, 0), Minified(c, i + |Text(v, fmt, d)|))
    decreases v, 3
  {
    hide P.StartsAt, Minified, MembersText, ElemsText, Quoted, IntText;
    match v
    case Null => PlainKept(c, i, NULL_TEXT);
    case False => PlainKept(c, i, FALSE_TEXT);
    case True => PlainKept(c, i, TRUE_TEXT);
    case Num(n) =>
      R.IntTextShape(n.m);
      PlainKept(c, i, NumText(n));
    case Str(s) => StringKept(c, i, s);
    case Arr(es) => ArrayMinified(es, fmt, d, c, i);
    case Obj(ms) => ObjectMinified(ms, fmt, d, c, i);
  }

  lemma {:induction false} ArrayMinified(es: seq<Value>, fmt: bool, d: nat, c: bytes, i: nat)
    requires P.Terminated(c) && PrintableElems(es)
    requires P.StartsAt(c, i, Text(Arr(es), fmt, d)) && i + |Text(Arr(es), fmt, d)| < |c|
    ensures Minified(c, i) == Glue(Text(Arr(es), false, 0), Minified(c, i + |Text(Arr(es), fmt, d)|))
    decreases es, 2
  {
    hide P.StartsAt, Minified, ElemsText;
    var inner, close := ElemsText(es, fmt, d + 1), i + 1 + |ElemsText(es, fmt, d + 1)|;
    P.StartsAtRegroup(c, i, [LBRACKET], inner, [RBRACKET]);
    P.StartsAtConcat(c, i + 1, inner, [RBRACKET]);
    PlainKept(c, i, [LBRACKET]);
    ElemsMinified(es, fmt, d + 1, c, i + 1);
    PlainKept(c, close, [RBRACKET]);
    ElemsTextFlat(es, 1);
    GlueTwice(ElemsText(es, false, 0), [RBRACKET], Minified(c, close + 1));
    GlueTwice([LBRACKET], ElemsText(es, false, 0) + [RBRACKET], Minified(c, close + 1));
    P.Assoc([LBRACKET], ElemsText(es, false, 0), [RBRACKET]);
  }

  lemma {:induction false} ElemsMinified(es: seq<Value>, fmt: bool, d: nat, c: bytes, i: nat)
    requires P.Terminated(c) && PrintableElems(es)
    requires P.StartsAt(c, i, ElemsText(es, fmt, d)) && i + |ElemsText(es, fmt, d)| < |c|
    ensures Minified(c, i) == Glue(ElemsText(es, false, 0), Minified(c, i + |ElemsText(es, fmt, d)|))
    decreases es, 1
  {
    hide P.StartsAt, Minified, Text;
    if es == [] {
      GlueNothing(Minified(c, i));
    } else {
      var head, comma := Text(es[0], fmt, d), if |es| == 1 then [] else CommaText(fmt);
      var rest, j := ElemsText(es[1..], fmt, d), i + |head|;
      P.StartsAtConcat(c, i, head + comma, rest);
      P.StartsAtConcat(c, i, head, comma);
      ValueMinified(es[0], fmt, d, c, i);
      CommaMinified(fmt, c, j, |es| == 1);
      ElemsMinified(es[1..], fmt, d, c, j + |comma|);
      var flat, tail := if |es| == 1 then [] else [COMMA], ElemsText(es[1..], false, 0);
      var end := Minified(c, j + |comma| + |rest|);
      GlueTwice(flat, tail, end);
      GlueTwice(Text(es[0], false, 0), flat + tail, end);
      P.Assoc(Text(es[0], false, 0), flat, tail);
    }
  }

  lemma CommaMinified(fmt: bool, c: bytes, i: nat, last: bool)
    requires P.Terminated(c)
    requires P.StartsAt(c, i, if last then [] else CommaText(fmt))
    requires i + (if last then 0 else |CommaText(fmt)|) < |c|
    ensures Minified(c, i)
            == if last then Glue([], Minified(c, i)) else Glue([COMMA], Minified(c, i + |CommaText(fmt)|))
  {
    if last {
      GlueNothing(Minified(c, i));
    } else {
      TokenMinified(c, i, COMMA, CommaText(fmt)[1..]);
    }
  }

  /** A one-byte token followed by blanks keeps only the token. */
  lemma TokenMinified(c: bytes, i: nat, token: byte, blanks: bytes)
    requires P.Terminated(c) && P.StartsAt(c, i, [token] + blanks) && i + 1 + |blanks| < |c| && Plain(token)
    requires forall k :: 0 <= k < |blanks| ==> Dropped(blanks[k])
    ensures Minified(c, i) == Glue([token], Minified(c, i + 1 + |blanks|))
  {
    P.StartsAtConcat(c, i, [token], blanks);
    PlainKept(c, i, [token]);
    BlanksDropped(c, i + 1, blanks);
  }

  lemma {:induction false} ObjectMinified(ms: seq<Member>, fmt: bool, d: nat, c: bytes, i: nat)
    requires P.Terminated(c) && PrintableMembers(ms)
    requires P.StartsAt(c, i, Text(Obj(ms), fmt, d)) && i + |Text(Obj(ms), fmt, d)| < |c|
    ensures Minified(c, i) == Glue(Text(Obj(ms), false, 0), Minified(c, i + |Text(Obj(ms), fmt, d)|))
    decreases ms, 2
  {
    hide P.StartsAt, Minified, MembersText;
    var open, inner, indent := OpenBrace(fmt), MembersText(ms, fmt, d + 1), Indent(fmt, d);
    var j := i + |open| + |inner|;
    P.StartsAtConcat(c, i, open + inner + indent, [RBRACE]);
    P.StartsAtConcat(c, i, open + inner, indent);
    P.StartsAtConcat(c, i, open, inner);
    assert open == [LBRACE] + open[1..];
    TokenMinified(c, i, LBRACE, open[1..]);
    MembersMinified(ms, fmt, d + 1, c, i + |open|);
    BlanksDropped(c, j, indent);
    PlainKept(c, j + |indent|, [RBRACE]);
    MembersTextFlat(ms, 1);
    var flat, end := MembersText(ms, false, 0), Minified(c, j + |indent| + 1);
    GlueTwice(flat, [RBRACE], end);
    GlueTwice([LBRACE], flat + [RBRACE], end);
    P.Assoc([LBRACE], flat, [RBRACE]);
    assert [LBRACE] + flat + [] == [LBRACE] + flat;
  }

  lemma {:induction false} MembersMinified(ms: seq<Member>, fmt: bool, d: nat, c: bytes, i: nat)
    requires P.Terminated(c) && PrintableMembers(ms)
    requires P.StartsAt(c, i, MembersText(ms, fmt, d)) && i + |MembersText(ms, fmt, d)| < |c|
    ensures Minified(c, i) == Glue(MembersText(ms, false, 0), Minified(c, i + |MembersText(ms, fmt, d)|))
    decreases ms, 1
  {
    hide P.StartsAt, Minified, MemberText, Indent, MemberEnd, Glue;
    if ms == [] {
      GlueNothing(Minified(c, i));
    } else {
      var indent, head, close := Indent(fmt, d), MemberText(ms[0], fmt, d), MemberEnd(fmt, |ms| == 1);
      var rest, j := MembersText(ms[1..], fmt, d), i + |indent| + |head|;
      P.StartsAtConcat(c, i, indent + head + close, rest);
      P.StartsAtConcat(c, i, indent + head, close);
      P.StartsAtConcat(c, i, indent, head);
      IndentDropped(fmt, d, c, i);
      MemberMinified(ms[0], fmt, d, c, i + |indent|);
      MemberEndMinified(fmt, |ms| == 1, c, j);
      MembersMinified(ms[1..], fmt, d, c, j + |close|);
      var flat, tail := MemberEnd(false, |ms| == 1), MembersText(ms[1..], false, 0);
      var end := Minified(c, j + |close| + |rest|);
      GlueTwice(flat, tail, end);
      GlueTwice(MemberText(ms[0], false, 0), flat + tail, end);
      P.Assoc(MemberText(ms[0], false, 0), flat, tail);
      FlatMember(ms);
    }
  }

  lemma IndentDropped(fmt: bool, d: nat, c: bytes, i: nat)
    requires P.Terminated(c) && P.StartsAt(c, i, Indent(fmt, d)) && i + |Indent(fmt, d)| < |c|
    ensures Minified(c, i) == Minified(c, i + |Indent(fmt, d)|)
  {
    hide P.StartsAt, Minified;
    BlanksDropped(c, i, Indent(fmt, d));
  }

  lemma FlatMember(ms: seq<Member>)
    requires ms != []
    ensures MembersText(ms, false, 0) ==
      MemberText(ms[0], false, 0) + MemberEnd(false, |ms| == 1) + MembersText(ms[1..], false, 0)
  {
    hide MemberText, MemberEnd;
    assert [] + MemberText(ms[0], false, 0) == MemberText(ms[0], false, 0);
  }

  lemma MemberEndMinified(fmt: bool, last: bool, c: bytes, i: nat)
    requires P.Terminated(c) && P.StartsAt(c, i, MemberEnd(fmt, last)) && i + |MemberEnd(fmt, last)| < |c|
    ensures Minified(c, i) == Glue(MemberEnd(false, last), Minified(c, i + |MemberEnd(fmt, last)|))
  {
    var lineBreak := if fmt then [NEWLINE] else [];
    if last {
      assert MemberEnd(fmt, last) == lineBreak && MemberEnd(false, last) == [];
      BlanksDropped(c, i, lineBreak);
      GlueNothing(Minified(c, i));
    } else {
      assert MemberEnd(false, last) == [COMMA];
      TokenMinified(c, i, COMMA, lineBreak);
    }
  }

  lemma {:induction false} MemberMinified(m: Member, fmt: bool, d: nat, c: bytes, i: nat)
    requires P.Terminated(c) && NulFree(m.key) && Printable(m.value)
    requires P.StartsAt(c, i, MemberText(m, fmt, d)) && i + |MemberText(m, fmt, d)| < |c|
    ensures Minified(c, i) == Glue(MemberText(m, false, 0), Minified(c, i + |MemberText(m, fmt, d)|))
    decreases m, 4
  {
    hide P.StartsAt, Minified, Text, Quoted;
    var key, colon, v := Quoted(m.key), ColonText(fmt), Text(m.value, fmt, d);
    P.StartsAtConcat(c, i, key + colon, v);
    P.StartsAtConcat(c, i, key, colon);
    StringKept(c, i, m.key);
    assert colon == [COLON] + colon[1..];
    TokenMinified(c, i + |key|, COLON, colon[1..]);
    ValueMinified(m.value, fmt, d, c, i + |key| + |colon|);
    var flat, end := Text(m.value, false, 0), Minified(c, i + |key| + |colon| + |v|);
    GlueTwice([COLON], flat, end);
    GlueTwice(key, [COLON] + flat, end);
    P.Assoc(key, [COLON], flat);
  }

  /** Unformatted text does not depend on the depth. */
  lemma {:induction false} TextFlat(v: Value, d: nat)
    ensures Text(v, false, d) == Text(v, false, 0)
    decreases v, 3
  {
    match v
    case Arr(es) =>
      ElemsTextFlat(es, d + 1);
      ElemsTextFlat(es, 1);
    case Obj(ms) =>
      MembersTextFlat(ms, d + 1);
      MembersTextFlat(ms, 1);
    case _ =>
  }

  lemma {:induction false} ElemsTextFlat(es: seq<Value>, d: nat)
    ensures ElemsText(es, false, d) == ElemsText(es, false, 0)
    decreases es, 0
  {
    if es != [] {
      TextFlat(es[0], d);
      ElemsTextFlat(es[1..], d);
    }
  }

  lemma {:induction false} MembersTextFlat(ms: seq<Member>, d: nat)
    ensures MembersText(ms, false, d) == MembersText(ms, false, 0)
    decreases ms, 0
  {
    if ms != [] {
      TextFlat(ms[0].value, d);
      MembersTextFlat(ms[1..], d);
    }
  }

  /** Minifying the text of v, formatted or not, gives its unformatted text. */
  lemma MinifyUnformats(v: Value, fmt: bool)
    requires Printable(v)
    ensures P.Terminated(Text(v, fmt, 0) + [NUL])
    ensures Minified(Text(v, fmt, 0) + [NUL], 0) == Some(Text(v, false, 0))
  {
    hide Text;
    var t := Text(v, fmt, 0);
    R.TextNulFree(v, fmt, 0);
    ValueMinified(v, fmt, 0, t + [NUL], 0);
    assert Text(v, false, 0) + [] == Text(v, false, 0);
  }

  // --- in place ---

  /** From `from` on, the text has not been overwritten yet. */
  predicate Unread(json: array<byte>, c: bytes, from: nat)
    reads json
  {
    |c| <= json.Length && forall k :: from <= k < |c| ==> json[k] == c[k]
  }

  /** What has been written is the start of the result. */
  predicate Written(json: array<byte>, out: bytes, w: nat)
    reads json
  {
    w <= |out| && w <= json.Length && forall k :: 0 <= k < w ==> json[k] == out[k]
  }

  /** What is left to write is what the text from i on minifies to. */
  predicate Remaining(c: bytes, i: nat, out: bytes, w: nat)
    requires P.Terminated(c) && i < |c|
  {
    var rest := Minified(c, i);
    rest.Some? && w + |rest.value| == |out| && P.StartsAt(out, w, rest.value)
  }

  lemma RemainingAfter(c: bytes, i: nat, out: bytes, w: nat, piece: bytes, next: nat)
    requires P.Terminated(c) && i < |c| && next < |c| && Remaining(c, i, out, w)
    requires Minified(c, i) == Glue(piece, Minified(c, next))
    ensures Remaining(c, next, out, w + |piece|) && P.StartsAt(out, w, piece) && w + |piece| <= |out|
  {
    hide Minified, P.StartsAt;
    P.StartsAtConcat(out, w, piece, Minified(c, next).value);
  }

  lemma NothingWritten(c: bytes)
    requires P.Terminated(c) && Minified(c, 0).Some?
    ensures Remaining(c, 0, Minified(c, 0).value, 0)
  {
  }

  /** out[w..] starts with c[i..end + 1]. */
  predicate Aligned(out: bytes, w: nat, c: bytes, i: nat, end: nat) {
    end < |c| && i <= end + 1 && w + (end + 1 - i) <= |out| && forall j :: i <= j <= end ==> out[w + j - i] == c[j]
  }

  lemma AlignedSlice(out: bytes, w: nat, c: bytes, i: nat, end: nat)
    requires i <= end < |c| && P.StartsAt(out, w, c[i..end + 1])
    ensures Aligned(out, w, c, i, end)
  {
    forall j | i <= j <= end ensures out[w + j - i] == c[j] {
      assert out[w + (j - i)] == c[i..end + 1][j - i];
    }
  }

  method CopyByte(json: array<byte>, i: nat, w: nat, ghost c: bytes, ghost out: bytes)
    requires w <= i < |c| && Unread(json, c, i) && Written(json, out, w) && w < |out| && out[w] == c[i]
    modifies json
    ensures Unread(json, c, i + 1) && Written(json, out, w + 1)
    ensures forall k :: |c| <= k < json.Length ==> json[k] == old(json[k])
  {
    json[w] := json[i];
  }

  /** What the byte at i, inside a string that ends at `end`, says about the rest of it. */
  lemma InsideString(c: bytes, i: nat, end: nat)
    requires P.Terminated(c) && i < |c| && P.FindClose(c, i) == Some(end)
    ensures c[i] == NUL || c[i] == QUOTE <==> i == end
    ensures i < end && c[i] == BACKSLASH ==> i + 1 < end && P.FindClose(c, i + 2) == Some(end)
    ensures i < end && c[i] != BACKSLASH ==> P.FindClose(c, i + 1) == Some(end)
  {
  }

  /** Copies a character of a string, with the backslash in front of it. */
  method CopyCharacter(json: array<byte>, i: nat, w: nat, ghost c: bytes, ghost out: bytes, ghost end: nat)
    returns (next: nat, into: nat)
    requires P.Terminated(c) && w <= i < end < |c| && Unread(json, c, i) && Written(json, out, w)
    requires P.FindClose(c, i) == Some(end) && Aligned(out, w, c, i, end)
    modifies json
    ensures i < next <= end && into == w + (next - i) && P.FindClose(c, next) == Some(end)
    ensures Unread(json, c, next) && Written(json, out, into) && Aligned(out, into, c, next, end)
    ensures forall k :: |c| <= k < json.Length ==> json[k] == old(json[k])
  {
    hide Written, Minified, P.FindClose;
    InsideString(c, i, end);
    next, into := i, w;
    if json[next] == BACKSLASH {
      CopyByte(json, next, into, c, out);
      next, into := next + 1, into + 1;
    }
    CopyByte(json, next, into, c, out);
    next, into := next + 1, into + 1;
  }

  /** Copies a string literal, whose opening quote is at i, down to w. */
  method CopyString(json: array<byte>, i: nat, w: nat, ghost c: bytes, ghost out: bytes) returns (next: nat, into: nat)
    requires P.Terminated(c) && w <= i < |c| && Unread(json, c, i) && Written(json, out, w) && c[i] == QUOTE
    requires P.FindClose(c, i + 1).Some? && Aligned(out, w, c, i, P.FindClose(c, i + 1).value)
    modifies json
    ensures next == P.FindClose(c, i + 1).value + 1 && into == w + (next - i)
    ensures Unread(json, c, next) && Written(json, out, into)
    ensures forall k :: |c| <= k < json.Length ==> json[k] == old(json[k])
  {
    hide Written, Minified, P.FindClose;
    ghost var end := P.FindClose(c, i + 1).value;
    CopyByte(json, i, w, c, out);
    next, into := i + 1, w + 1;
    InsideString(c, next, end);
    while json[next] != NUL && json[next] != QUOTE
      invariant i < next <= end && into == w + (next - i) && P.FindClose(c, next) == Some(end)
      invariant Unread(json, c, next) && Written(json, out, into) && Aligned(out, into, c, next, end)
      invariant c[next] == NUL || c[next] == QUOTE <==> next == end
      invariant forall k :: |c| <= k < json.Length ==> json[k] == old(json[k])
      decreases |c| - next
    {
      next, into := CopyCharacter(json, next, into, c, out, end);
      InsideString(c, next, end);
    }
    CopyByte(json, next, into, c, out);
    next, into := next + 1, into + 1;
  }

  /** Skips a comment, whose slash is at i. */
  method SkipComment(json: array<byte>, i: nat, ghost c: bytes) returns (next: nat)
    requires P.Terminated(c) && i < |c| - 1 && Unread(json, c, i) && c[i] == SLASH
    requires c[i + 1] == SLASH || c[i + 1] == STAR
    ensures next == if c[i + 1] == SLASH then LineEnd(c, i) else CommentEnd(c, i) + 2
    ensures c[i + 1] == SLASH ==>
      && i <= next < |c| && (c[next] == NUL || c[next] == 10)
      && forall k :: i <= k < next ==> c[k] != NUL && c[k] != 10
    ensures c[i + 1] == STAR ==>
      && i <= next - 2 < |c| && (c[next - 2] == NUL || Closing(c, next - 2))
      && forall k :: i <= k < next - 2 ==> c[k] != NUL && !Closing(c, k)
  {
    LineEndExactly(c, i, LineEnd(c, i));
    CommentEndExactly(c, i, CommentEnd(c, i));
    next := i;
    if json[i + 1] == SLASH {
      while json[next] != NUL && json[next] != NEWLINE
        invariant i <= next < |c| && LineEnd(c, next) == LineEnd(c, i)
        decreases |c| - next
      {
        next := next + 1;
      }
    } else {
      while json[next] != NUL && !(json[next] == STAR && json[next + 1] == SLASH)
        invariant i <= next < |c| && CommentEnd(c, next) == CommentEnd(c, i)
        decreases |c| - next
      {
        next := next + 1;
      }
      next := next + 2;
    }
  }

  // one turn of the scan, by what is at i

  lemma BlankTurn(c: bytes, i: nat, out: bytes, w: nat)
    requires P.Terminated(c) && i < |c| && Dropped(c[i]) && Remaining(c, i, out, w)
    ensures i + 1 < |c| && Remaining(c, i + 1, out, w)
  {
  }

  lemma CommentTurn(c: bytes, i: nat, out: bytes, w: nat, next: nat)
    requires P.Terminated(c) && i < |c| - 1 && c[i] == SLASH && (c[i + 1] == SLASH || c[i + 1] == STAR)
    requires Remaining(c, i, out, w)
    requires next == if c[i + 1] == SLASH then LineEnd(c, i) else CommentEnd(c, i) + 2
    ensures i < next < |c| && Remaining(c, next, out, w)
  {
  }

  lemma StringTurn(c: bytes, i: nat, out: bytes, w: nat)
    requires P.Terminated(c) && i < |c| && c[i] == QUOTE && Remaining(c, i, out, w)
    ensures var e := P.FindClose(c, i + 1);
            && e.Some? && e.value + 1 < |c| && Aligned(out, w, c, i, e.value)
            && Remaining(c, e.value + 1, out, w + (e.value + 1 - i))
  {
    hide P.StartsAt, P.FindClose;
    var end := P.FindClose(c, i + 1).value + 1;
    RemainingAfter(c, i, out, w, c[i..end], end);
    AlignedSlice(out, w, c, i, end - 1);
  }

  lemma ByteTurn(c: bytes, i: nat, out: bytes, w: nat)
    requires P.Terminated(c) && i < |c| - 1 && !Dropped(c[i]) && c[i] != QUOTE && Remaining(c, i, out, w)
    requires c[i] == SLASH ==> c[i + 1] != SLASH && c[i + 1] != STAR
    ensures w < |out| && out[w] == c[i] && Remaining(c, i + 1, out, w + 1)
  {
    RemainingAfter(c, i, out, w, [c[i]], i + 1);
    P.StartsAtByte(out, w, [c[i]], 0);
  }

  lemma LastTurn(c: bytes, i: nat, out: bytes, w: nat)
    requires P.Terminated(c) && i < |c| && c[i] == NUL && Remaining(c, i, out, w)
    ensures i == |c| - 1 && w == |out|
  {
  }

  /**
   * The caller's text has its strings and comments closed. The write position never passes the read
   * position, so no byte is overwritten before it is read.
   */
  method Minify(json: array<byte>, ghost n: nat)
    requires n < json.Length && P.Terminated(json[..n + 1]) && Minified(json[..n + 1], 0).Some?
    modifies json
    ensures var out := Minified(old(json[..n + 1]), 0).value;
            |out| <= n && json[..|out|] == out && json[|out|] == NUL
    ensures forall k :: n < k < json.Length ==> json[k] == old(json[k])
  {
    hide P.StartsAt, LineEnd, CommentEnd, P.FindClose, Minified, Remaining, Aligned;
    ghost var c := json[..n + 1];
    ghost var out := Minified(c, 0).value;
    var i: nat, into: nat := 0, 0;
    NothingWritten(c);
    while json[i] != NUL
      invariant into <= i <= n && Unread(json, c, i) && Written(json, out, into) && Remaining(c, i, out, into)
      invariant forall k :: n < k < json.Length ==> json[k] == old(json[k])
      decreases n - i
    {
      if json[i] == SPACE || json[i] == TAB || json[i] == 13 || json[i] == NEWLINE {
        BlankTurn(c, i, out, into);
        i := i + 1;
      } else if json[i] == SLASH && (json[i + 1] == SLASH || json[i + 1] == STAR) {
        ghost var start := i;
        i := SkipComment(json, i, c);
        CommentTurn(c, start, out, into, i);
      } else if json[i] == QUOTE {
        StringTurn(c, i, out, into);
        i, into := CopyString(json, i, into, c, out);
      } else {
        ByteTurn(c, i, out, into);
        CopyByte(json, i, into, c, out);
        i, into := i + 1, into + 1;
      }
    }
    LastTurn(c, i, out, into);
    json[into] := NUL;
  }
}
