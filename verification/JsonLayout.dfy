/** The layout of formatted text, told from the unformatted text byte by byte. */
module JsonLayout {
  import opened Basics
  import opened JsonText
  import opened JsonParse
  import JsonMinify
  import JsonRoundTrip
  import JsonSyntax
  import JsonUnicode

  // --- strings ---

  /**
   * A quote, a backslash and five control bytes are printed as their one-letter escapes, the other control bytes by
   * their code in small hex digits, and every other byte - the slash too - as it is.
   */
  lemma EscapeExactly(b: byte, k: nat)
    ensures k < 8 && k != 2 && b == JsonSyntax.STANDS[k] ==>
      EscapeByte(b) == ['\\' as int, JsonSyntax.LETTERS[k] as int]
    ensures (forall j :: 0 <= j < 8 && j != 2 ==> b != JsonSyntax.STANDS[j]) ==>
      EscapeByte(b) ==
        if b >= 32 then [b]
        else ['\\' as int, 'u' as int, '0' as int, '0' as int,
              JsonUnicode.LOWER_HEX[b / 16] as int, JsonUnicode.LOWER_HEX[b % 16] as int]
  {
    if k < 8 {
      assert JsonSyntax.LETTERS == "\"\\/bfnrt";
      var letter := JsonSyntax.LETTERS[k] as int;
    }
    HexSmall(b / 16);
    HexSmall(b % 16);
    if forall j :: 0 <= j < 8 && j != 2 ==> b != JsonSyntax.STANDS[j] {
      assert b != JsonSyntax.STANDS[0] && b != JsonSyntax.STANDS[1] && b != JsonSyntax.STANDS[3];
      assert b != JsonSyntax.STANDS[4] && b != JsonSyntax.STANDS[5] && b != JsonSyntax.STANDS[6];
      assert b != JsonSyntax.STANDS[7];
    }
  }

  lemma HexSmall(n: nat)
    requires n < 16
    ensures HexDigit(n) == JsonUnicode.LOWER_HEX[n] as int
  {
  }

  // --- the layout ---

  datatype Bracket = Brace | Square

  function Indented(n: nat): bytes { if n == 0 then [] else ['\t' as int] + Indented(n - 1) }

  /** Behind the closing quote of the literal that i is in. */
  function LiteralEnd(t: bytes, i: nat): (e: nat)
    requires i <= |t|
    ensures i <= e <= |t|
    decreases |t| - i
  {
    if i == |t| then i
    else if t[i] == '"' as int then i + 1
    else if t[i] == '\\' as int && i + 1 < |t| then LiteralEnd(t, i + 2)
    else LiteralEnd(t, i + 1)
  }

  /**
   * The unformatted text t laid out from i on, with the brackets open there, the innermost first; newLine says that a
   * line has just begun. Every brace and every comma directly inside braces ends a line, a line is indented by one tab
   * for every open bracket, a colon is followed by a tab and any other comma by a blank.
   */
  function Laid(t: bytes, i: nat, open: seq<Bracket>, newLine: bool): bytes
    requires i <= |t|
    decreases |t| - i
  {
    if i == |t| then []
    else if t[i] == '"' as int then
      var e := LiteralEnd(t, i + 1);
      (if newLine then Indented(|open|) else []) + t[i..e] + Laid(t, e, open, false)
    else if t[i] == '{' as int then ['{' as int, '\n' as int] + Laid(t, i + 1, [Brace] + open, true)
    else if t[i] == '[' as int then ['[' as int] + Laid(t, i + 1, [Square] + open, false)
    else if t[i] == ',' as int && open != [] && open[0] == Brace then
      [',' as int, '\n' as int] + Laid(t, i + 1, open, true)
    else if t[i] == ',' as int then [',' as int, ' ' as int] + Laid(t, i + 1, open, false)
    else if t[i] == ':' as int then [':' as int, '\t' as int] + Laid(t, i + 1, open, false)
    else if t[i] == '}' as int && open != [] then
      (if newLine then [] else ['\n' as int]) + Indented(|open| - 1) + ['}' as int] + Laid(t, i + 1, open[1..], false)
    else if t[i] == ']' as int && open != [] then [']' as int] + Laid(t, i + 1, open[1..], false)
    else [t[i]] + Laid(t, i + 1, open, false)
  }

  /** A byte that the layout passes on for itself. */
  predicate Inert(b: byte) {
    b != '"' as int && b != '{' as int && b != '[' as int && b != ',' as int && b != ':' as int && b != '}' as int
    && b != ']' as int
  }

  lemma {:induction false} TabsIndent(n: nat)
    ensures Indented(n) == Tabs(n)
  {
    if n > 0 {
      TabsIndent(n - 1);
      assert Tabs(n) == [TAB] + Tabs(n - 1);
    }
  }

  lemma {:induction false} InertLaid(w: bytes, t: bytes, i: nat, open: seq<Bracket>)
    requires StartsAt(t, i, w) && i + |w| <= |t| && forall k :: 0 <= k < |w| ==> Inert(w[k])
    ensures Laid(t, i, open, false) == w + Laid(t, i + |w|, open, false)
    decreases |w|
  {
    if w != [] {
      StartsAtByte(t, i, w, 0);
      assert w == [w[0]] + w[1..];
      StartsAtConcat(t, i, [w[0]], w[1..]);
      InertLaid(w[1..], t, i + 1, open);
      Assoc([w[0]], w[1..], Laid(t, i + |w|, open, false));
    }
  }

  lemma {:induction false} EndIsClose(t: bytes, i: nat, e: nat)
    requires i <= |t| && FindClose(t, i) == Some(e)
    ensures LiteralEnd(t, i) == e + 1
    decreases |t| - i
  {
    if t[i] != QUOTE {
      EndIsClose(t, if t[i] == BACKSLASH then i + 2 else i + 1, e);
    }
  }

  lemma QuotedLaid(s: bytes, t: bytes, i: nat, open: seq<Bracket>, newLine: bool)
    requires NulFree(s) && StartsAt(t, i, Quoted(s)) && i + |Quoted(s)| <= |t|
    ensures Laid(t, i, open, newLine)
            == (if newLine then Indented(|open|) else []) + Quoted(s) + Laid(t, i + |Quoted(s)|, open, false)
  {
    hide StartsAt, Escape, FindClose, LiteralEnd, Indented;
    Assoc([QUOTE], Escape(s), [QUOTE]);
    StartsAtConcat(t, i, [QUOTE], Escape(s) + [QUOTE]);
    StartsAtByte(t, i, [QUOTE], 0);
    JsonRoundTrip.CloseOfEscape(t, i + 1, s);
    EndIsClose(t, i + 1, i + 1 + |Escape(s)|);
    StartsAtSlice(t, i, Quoted(s));
  }

  /** A value's unformatted text, wherever it stands, is laid out as its formatted text. */
  lemma {:induction false} ValueLaid(v: Value, t: bytes, i: nat, open: seq<Bracket>)
    requires Printable(v) && StartsAt(t, i, Text(v, false, 0)) && i + |Text(v, false, 0)| <= |t|
    ensures Laid(t, i, open, false) == Text(v, true, |open|) + Laid(t, i + |Text(v, false, 0)|, open, false)
    decreases v, 3
  {
    hide StartsAt, Laid, ElemsText, MembersText, Quoted, IntText;
    match v
    case Null => InertLaid(NULL_TEXT, t, i, open);
    case False => InertLaid(FALSE_TEXT, t, i, open);
    case True => InertLaid(TRUE_TEXT, t, i, open);
    case Num(n) =>
      JsonRoundTrip.IntTextShape(n.m);
      InertLaid(NumText(n), t, i, open);
    case Str(s) =>
      QuotedLaid(s, t, i, open, false);
      assert [] + Quoted(s) == Quoted(s);
    case Arr(es) => ArrayLaid(es, t, i, open);
    case Obj(ms) => ObjectLaid(ms, t, i, open);
  }

  /** One byte that opens, closes or separates. */
  lemma MarkLaid(t: bytes, i: nat, open: seq<Bracket>, newLine: bool)
    requires i < |t|
    ensures t[i] == '[' as int ==> Laid(t, i, open, newLine) == ['[' as int] + Laid(t, i + 1, [Square] + open, false)
    ensures t[i] == '{' as int ==>
      Laid(t, i, open, newLine) == ['{' as int, '\n' as int] + Laid(t, i + 1, [Brace] + open, true)
    ensures t[i] == ':' as int ==> Laid(t, i, open, newLine) == [':' as int, '\t' as int] + Laid(t, i + 1, open, false)
    ensures t[i] == ',' as int && open != [] ==>
      Laid(t, i, open, newLine) ==
        if open[0] == Brace then [',' as int, '\n' as int] + Laid(t, i + 1, open, true)
        else [',' as int, ' ' as int] + Laid(t, i + 1, open, false)
    ensures t[i] == ']' as int && open != [] ==>
      Laid(t, i, open, newLine) == [']' as int] + Laid(t, i + 1, open[1..], false)
    ensures t[i] == '}' as int && open != [] ==>
      Laid(t, i, open, newLine) ==
        (if newLine then [] else ['\n' as int]) + Indented(|open| - 1) + ['}' as int] + Laid(t, i + 1, open[1..], false)
  {
  }

  lemma {:induction false} ArrayLaid(es: seq<Value>, t: bytes, i: nat, open: seq<Bracket>)
    requires PrintableElems(es) && StartsAt(t, i, Text(Arr(es), false, 0)) && i + |Text(Arr(es), false, 0)| <= |t|
    ensures Laid(t, i, open, false) == Text(Arr(es), true, |open|) + Laid(t, i + |Text(Arr(es), false, 0)|, open, false)
    decreases es, 2
  {
    hide StartsAt, Laid, ElemsText;
    var flat, inner := ElemsText(es, false, 1), [Square] + open;
    var close := i + 1 + |flat|;
    JsonMinify.ElemsTextFlat(es, 1);
    StartsAtRegroup(t, i, [LBRACKET], flat, [RBRACKET]);
    StartsAtConcat(t, i + 1, flat, [RBRACKET]);
    StartsAtByte(t, i, [LBRACKET], 0);
    StartsAtByte(t, close, [RBRACKET], 0);
    MarkLaid(t, i, open, false);
    ElemsLaid(es, t, i + 1, inner);
    MarkLaid(t, close, inner, false);
    assert inner[1..] == open;
    var rest, text := Laid(t, close + 1, open, false), ElemsText(es, true, |open| + 1);
    Assoc(text, [RBRACKET], rest);
    Assoc([LBRACKET], text + [RBRACKET], rest);
    Assoc([LBRACKET], text, [RBRACKET]);
  }

  lemma {:induction false} ElemsLaid(es: seq<Value>, t: bytes, i: nat, open: seq<Bracket>)
    requires PrintableElems(es) && StartsAt(t, i, ElemsText(es, false, 0)) && i + |ElemsText(es, false, 0)| <= |t|
    requires open != [] && open[0] == Square
    ensures Laid(t, i, open, false) == ElemsText(es, true, |open|) + Laid(t, i + |ElemsText(es, false, 0)|, open, false)
    decreases es, 1
  {
    hide StartsAt, Laid, Text, ElemsText;
    ElemsFlat(es);
    if es == [] {
      assert [] + Laid(t, i, open, false) == Laid(t, i, open, false);
    } else {
      var head, comma, tail := Text(es[0], false, 0), if |es| == 1 then [] else [COMMA], ElemsText(es[1..], false, 0);
      var j := i + |head|;
      StartsAtConcat(t, i, head + comma, tail);
      StartsAtConcat(t, i, head, comma);
      ValueLaid(es[0], t, i, open);
      ElemsLaid(es[1..], t, j + |comma|, open);
      if |es| > 1 {
        StartsAtByte(t, j, comma, 0);
        MarkLaid(t, j, open, false);
      }
      ElemsSpelled(es, |open|, Laid(t, j + |comma| + |tail|, open, false));
    }
  }

  lemma ElemsFlat(es: seq<Value>)
    ensures es == [] ==> forall fmt, d :: ElemsText(es, fmt, d) == []
    ensures es != [] ==>
      ElemsText(es, false, 0) ==
        Text(es[0], false, 0) + (if |es| == 1 then [] else [COMMA]) + ElemsText(es[1..], false, 0)
  {
    hide Text;
  }

  lemma ElemsSpelled(es: seq<Value>, d: nat, rest: bytes)
    requires es != []
    ensures var sep := if |es| == 1 then [] else [',' as int, ' ' as int];
      ElemsText(es, true, d) + rest == Text(es[0], true, d) + (sep + (ElemsText(es[1..], true, d) + rest))
  {
    hide Text;
    var text, sep := Text(es[0], true, d), if |es| == 1 then [] else CommaText(true);
    Assoc(text + sep, ElemsText(es[1..], true, d), rest);
    Assoc(text, sep, ElemsText(es[1..], true, d) + rest);
  }

  lemma {:induction false} ObjectLaid(ms: seq<Member>, t: bytes, i: nat, open: seq<Bracket>)
    requires PrintableMembers(ms) && StartsAt(t, i, Text(Obj(ms), false, 0)) && i + |Text(Obj(ms), false, 0)| <= |t|
    ensures Laid(t, i, open, false) == Text(Obj(ms), true, |open|) + Laid(t, i + |Text(Obj(ms), false, 0)|, open, false)
    decreases ms, 2
  {
    hide StartsAt, Laid, MembersText, Indented;
    var flat, inner := MembersText(ms, false, 1), [Brace] + open;
    JsonMinify.MembersTextFlat(ms, 1);
    FlatObject(ms);
    StartsAtConcat(t, i, [LBRACE], flat + [RBRACE]);
    StartsAtByte(t, i, [LBRACE], 0);
    MarkLaid(t, i, open, false);
    MembersLaid(ms, t, i + 1, inner);
    assert inner[1..] == open;
    ObjectSpelled(ms, |open|, Laid(t, i + |Text(Obj(ms), false, 0)|, open, false));
  }

  lemma ObjectSpelled(ms: seq<Member>, d: nat, rest: bytes)
    ensures Text(Obj(ms), true, d) + rest
            == ['{' as int, '\n' as int] + (MembersText(ms, true, d + 1) + (Indented(d) + [RBRACE] + rest))
  {
    hide MembersText, Indented;
    TabsIndent(d);
    var text, indent := MembersText(ms, true, d + 1), Indent(true, d);
    Assoc(OpenBrace(true) + text + indent, [RBRACE], rest);
    Assoc(OpenBrace(true) + text, indent, [RBRACE] + rest);
    Assoc(OpenBrace(true), text, indent + ([RBRACE] + rest));
    Assoc(indent, [RBRACE], rest);
  }

  lemma FlatObject(ms: seq<Member>)
    ensures Text(Obj(ms), false, 0) == [LBRACE] + (MembersText(ms, false, 1) + [RBRACE])
  {
    hide MembersText;
    var flat := MembersText(ms, false, 1);
    assert [LBRACE] + flat + [] == [LBRACE] + flat;
    Assoc([LBRACE], flat, [RBRACE]);
  }

  /** The members of an object, from the line its brace begins, and the closing brace. */
  lemma {:induction false} MembersLaid(ms: seq<Member>, t: bytes, i: nat, open: seq<Bracket>)
    requires PrintableMembers(ms) && open != [] && open[0] == Brace
    requires StartsAt(t, i, MembersText(ms, false, 0) + [RBRACE]) && i + |MembersText(ms, false, 0)| < |t|
    ensures Laid(t, i, open, true)
            == MembersText(ms, true, |open|) + (Indented(|open| - 1) + [RBRACE]
               + Laid(t, i + |MembersText(ms, false, 0)| + 1, open[1..], false))
    decreases ms, 1
  {
    hide StartsAt, Laid, MemberText, Indented;
    var d, end := |open|, i + |MembersText(ms, false, 0)|;
    var after := Indented(d - 1) + [RBRACE] + Laid(t, end + 1, open[1..], false);
    if ms == [] {
      NoMembersFlat();
      StartsAtByte(t, i, [RBRACE], 0);
      MarkLaid(t, i, open, true);
      assert [] + after == after && [] + Indented(d - 1) == Indented(d - 1);
    } else {
      var flat, tail := MemberText(ms[0], false, 0), MembersText(ms[1..], false, 0) + [RBRACE];
      var sep, j := MemberEnd(false, |ms| == 1), i + |flat|;
      FlatMembers(ms);
      StartsAtConcat(t, i, flat, sep + tail);
      StartsAtConcat(t, j, sep, tail);
      MemberLaid(ms[0], t, i, open);
      if |ms| == 1 {
        NoMembersFlat();
        assert ms[1..] == [];
        StartsAtByte(t, j, [RBRACE], 0);
        Assoc([NEWLINE], Indented(d - 1), [RBRACE]);
        Assoc([NEWLINE], Indented(d - 1) + [RBRACE], Laid(t, end + 1, open[1..], false));
      } else {
        StartsAtByte(t, j, sep, 0);
        MembersLaid(ms[1..], t, j + 1, open);
      }
      MarkLaid(t, j, open, false);
      MembersSpelled(ms, d, after);
    }
  }

  lemma NoMembersFlat()
    ensures MembersText([], false, 0) == [] && MembersText([], true, 0) == [] && [] + [RBRACE] == [RBRACE]
  {
  }

  lemma FlatMembers(ms: seq<Member>)
    requires ms != []
    ensures MembersText(ms, false, 0) + [RBRACE] ==
      MemberText(ms[0], false, 0) + (MemberEnd(false, |ms| == 1) + (MembersText(ms[1..], false, 0) + [RBRACE]))
    ensures |MembersText(ms, false, 0)|
            == |MemberText(ms[0], false, 0)| + |MemberEnd(false, |ms| == 1)| + |MembersText(ms[1..], false, 0)|
  {
    hide MemberText, MemberEnd;
    var flat, sep, rest := MemberText(ms[0], false, 0), MemberEnd(false, |ms| == 1), MembersText(ms[1..], false, 0);
    JsonMinify.FlatMember(ms);
    Assoc(flat + sep, rest, [RBRACE]);
    Assoc(flat, sep, rest + [RBRACE]);
  }

  /** The first formatted member, what ends it, and the others, in front of `after`. */
  lemma MembersSpelled(ms: seq<Member>, d: nat, after: bytes)
    requires ms != []
    ensures var text := MemberText(ms[0], true, d);
      MembersText(ms, true, d) + after ==
        Indented(d) + text + (if |ms| == 1 then [NEWLINE] + after
                              else [COMMA, NEWLINE] + (MembersText(ms[1..], true, d) + after))
  {
    hide MemberText, Indented;
    TabsIndent(d);
    var text, end, rest := MemberText(ms[0], true, d), MemberEnd(true, |ms| == 1), MembersText(ms[1..], true, d);
    assert end == if |ms| == 1 then [NEWLINE] else [COMMA, NEWLINE];
    Assoc(Indent(true, d) + text + end, rest, after);
    Assoc(Indent(true, d) + text, end, rest + after);
    assert |ms| == 1 ==> rest + after == after;
  }

  lemma {:induction false} MemberLaid(m: Member, t: bytes, i: nat, open: seq<Bracket>)
    requires NulFree(m.key) && Printable(m.value)
    requires StartsAt(t, i, MemberText(m, false, 0)) && i + |MemberText(m, false, 0)| <= |t|
    ensures Laid(t, i, open, true)
            == Indented(|open|) + MemberText(m, true, |open|) + Laid(t, i + |MemberText(m, false, 0)|, open, false)
    decreases m, 4
  {
    hide StartsAt, Laid, Text, Quoted, Indented;
    var key, flat := Quoted(m.key), Text(m.value, false, 0);
    var colon := i + |key|;
    Assoc(key, [COLON], flat);
    StartsAtConcat(t, i, key + [COLON], flat);
    StartsAtConcat(t, i, key, [COLON]);
    StartsAtByte(t, colon, [COLON], 0);
    QuotedLaid(m.key, t, i, open, true);
    MarkLaid(t, colon, open, false);
    ValueLaid(m.value, t, colon + 1, open);
    var text, rest := Text(m.value, true, |open|), Laid(t, colon + 1 + |flat|, open, false);
    Assoc(Indented(|open|), key, [COLON, TAB] + (text + rest));
    Assoc(key, [COLON, TAB], text + rest);
    Assoc(key + [COLON, TAB], text, rest);
    Assoc(Indented(|open|), key + [COLON, TAB] + text, rest);
  }

  /** Formatted text is the unformatted text laid out. */
  lemma FormattedIsLaid(v: Value)
    requires Printable(v)
    ensures Text(v, true, 0) == Laid(Text(v, false, 0), 0, [], false)
  {
    hide Text, Laid;
    var t := Text(v, false, 0);
    assert StartsAt(t, 0, t);
    ValueLaid(v, t, 0, []);
    LaidEnd(t);
  }

  lemma LaidEnd(t: bytes)
    ensures forall w: bytes :: w + Laid(t, |t|, [], false) == w
  {
  }
}
