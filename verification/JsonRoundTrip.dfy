/** Parsing what cJSON prints gives back the printed value. */
module JsonRoundTrip {
  import opened Basics
  import opened JsonText
  import opened JsonParse
  import opened JsonUnicode
  import opened JsonSyntax

  // --- numbers ---

  lemma {:induction false} DigitsRead(n: nat)
    ensures Digits(n) != [] && AllDigits(Digits(n)) && DigitsValue(Digits(n)) == n
    ensures n > 0 ==> Digits(n)[0] != ZERO
  {
    if n < 10 {
      assert [ZERO + n][..0] == [];
    } else {
      DigitsRead(n / 10);
      var t := Digits(n);
      assert t[..|t| - 1] == Digits(n / 10);
    }
  }

  lemma {:induction false} DigitsShort(n: nat, k: nat)
    requires k > 0 && n < Pow10(k)
    ensures |Digits(n)| <= k
  {
    if n >= 10 {
      assert Pow10(k) == 10 * Pow10(k - 1);
      DigitsShort(n / 10, k - 1);
    }
  }

  /** The text of a plain number: number bytes only, short enough for the temporary buffer. */
  lemma IntTextShape(m: int)
    requires -PLAIN_LIMIT < m < PLAIN_LIMIT
    ensures 0 < |IntText(m)| <= 16
    ensures forall i :: 0 <= i < |IntText(m)| ==> NumberByte(IntText(m)[i])
    ensures IntText(m)[0] == MINUS || Digit(IntText(m)[0])
  {
    var magnitude: nat := if m < 0 then -m else m;
    DigitsRead(magnitude);
    assert Pow10(15) == PLAIN_LIMIT by {
      assert Pow10(5) == 100_000;
      assert Pow10(10) == 10_000_000_000;
    }
    DigitsShort(magnitude, 15);
  }

  /** The digits printed for a plain number. */
  function PrintedNumeral(n: Number): Numeral {
    Numeral(n.m < 0, Digits(if n.m < 0 then -n.m else n.m), None, None)
  }

  lemma PrintedNumber(n: Number)
    requires PlainNumber(n)
    ensures var x := PrintedNumeral(n); NumeralOk(x) && NumeralText(x) == NumText(n) && NumeralMeans(x) == n
  {
    hide Digits, DigitsValue, PlaceValue;
    var x := PrintedNumeral(n);
    IntTextShape(n.m);
    DigitsRead(if n.m < 0 then -n.m else n.m);
    DigitsByPlace(x.whole);
    assert x.whole + ([] + []) == x.whole == x.whole + [];
    assert [] + x.whole == x.whole;
  }

  lemma NumberRoundTrip(c: bytes, i: nat, n: Number)
    requires PlainNumber(n) && StartsAt(c, i, NumText(n)) && i + |NumText(n)| < |c|
    requires !NumberByte(c[i + |NumText(n)|])
    ensures ParseNumber(c, i) == Ok(Num(n), i + |NumText(n)|)
  {
    hide NumText, NumeralText;
    PrintedNumber(n);
    NumberParses(PrintedNumeral(n), c, i);
  }

  // --- strings ---

  /** The one-letter escape a byte is printed as, if any; the slash has one that is never printed. */
  function ShortIndex(b: byte): Option<nat> {
    if b == STANDS[0] then Some(0)
    else if b == STANDS[1] then Some(1)
    else if b == STANDS[3] then Some(3)
    else if b == STANDS[4] then Some(4)
    else if b == STANDS[5] then Some(5)
    else if b == STANDS[6] then Some(6)
    else if b == STANDS[7] then Some(7)
    else None
  }

  /** How a byte is printed: escaped by a letter or by its code, or as it is. */
  function PrintedChar(b: byte): Char {
    if ShortIndex(b).Some? then Short(ShortIndex(b).value) else if b < 32 then Coded(b, EscapeByte(b)) else Plain(b)
  }

  lemma PrintedByte(b: byte)
    requires b != NUL
    ensures var x := PrintedChar(b); Standard(x) && CharText(x) == EscapeByte(b) && CharMeans(x) == [b]
  {
    assert LETTERS[0] as int == 34 && LETTERS[1] as int == 92 && LETTERS[3] as int == 98 && LETTERS[4] as int == 102;
    assert LETTERS[5] as int == 110 && LETTERS[6] as int == 114 && LETTERS[7] as int == 116;
    if PrintedChar(b).Coded? {
      CodedByte(b);
    }
  }

  lemma CodedByte(b: byte)
    requires b < 32 && ShortEscape(b) == []
    ensures |EscapeByte(b)| == 6 && Utf16Units(b) == [b] && UnitAt(EscapeByte(b), 6 * 0, b) && Utf8(b) == [b]
  {
    hide HexDigitIs, HexDigit;
    HexDigitRead(b / 16);
    HexDigitRead(b % 16);
    HexDigitRead(0);
    assert HexDigit(0) == ZERO && b / 4096 == 0 && b / 256 % 16 == 0 && b / 16 % 16 == b / 16;
  }

  lemma HexDigitRead(n: nat)
    requires n < 16
    ensures HexDigitIs(HexDigit(n), n)
  {
    HexExactly(HexDigit(n), n);
  }

  function PrintedChars(s: bytes): (cs: seq<Char>)
    ensures |cs| == |s| && forall i :: 0 <= i < |s| ==> cs[i] == PrintedChar(s[i])
  {
    if s == [] then [] else [PrintedChar(s[0])] + PrintedChars(s[1..])
  }

  lemma {:induction false} PrintedString(s: bytes)
    requires NulFree(s)
    ensures var cs := PrintedChars(s);
      AllStandard(cs) && CharsOk(cs) && CharsText(cs) == Escape(s) && CharsMean(cs) == s
  {
    hide CharOk, CharText, CharMeans, EscapeByte, PrintedChar, Standard;
    if s != [] {
      PrintedByte(s[0]);
      PrintedString(s[1..]);
      assert PrintedChars(s)[1..] == PrintedChars(s[1..]);
      assert [s[0]] + s[1..] == s;
    }
  }

  function PrintedLiteral(s: bytes): Literal { Literal(PrintedChars(s), false) }

  lemma QuotedText(s: bytes)
    requires NulFree(s)
    ensures LiteralOk(PrintedLiteral(s)) && LiteralMeans(PrintedLiteral(s)) == s
    ensures LiteralText(PrintedLiteral(s)) == Quoted(s)
  {
    hide Escape, CharsText, CharsMean, CharsOk, AllStandard, LiteralOk;
    PrintedString(s);
    StandardLiteral(PrintedChars(s));
    Assoc([QUOTE], Escape(s), [QUOTE]);
  }

  lemma CloseOfEscape(c: bytes, i: nat, s: bytes)
    requires NulFree(s) && StartsAt(c, i, Escape(s) + [QUOTE])
    ensures FindClose(c, i) == Some(i + |Escape(s)|)
  {
    hide Escape, CharsText, CharsMean, AllStandard, FindClose, StartsAt;
    PrintedString(s);
    CloseOfChars(PrintedChars(s), c, i);
  }

  /** Every NUL-free string survives printing and parsing. */
  lemma StringRoundTrip(c: bytes, i: nat, s: bytes)
    requires NulFree(s) && StartsAt(c, i, Quoted(s))
    ensures i < |c| && ParseString(c, i) == Ok(s, i + |Quoted(s)|)
  {
    hide Quoted, LiteralText, ParseString, LiteralOk, LiteralMeans, PrintedLiteral;
    QuotedText(s);
    LiteralParses(PrintedLiteral(s), c, i);
  }

  // --- values ---

  /** How v is printed d levels deep. */
  function Printed(v: Value, fmt: bool, d: nat): Tree
    requires Printable(v)
    decreases v, 1
  {
    match v
    case Num(n) => Numb(PrintedNumeral(n))
    case Str(s) => Quote(PrintedLiteral(s))
    case Arr(es) => List([], PrintedItems(es, fmt, d + 1))
    case Obj(ms) => Record(LineBreak(fmt, if ms == [] then d else d + 1), PrintedFields(ms, fmt, d + 1))
    case _ => Word(v)
  }

  /** A new line and its indentation, when formatted. */
  function LineBreak(fmt: bool, d: nat): bytes { if fmt then [NEWLINE] + Tabs(d) else [] }

  function PrintedItems(es: seq<Value>, fmt: bool, d: nat): (items: seq<Item>)
    requires PrintableElems(es)
    ensures |items| == |es|
    decreases es, 0
  {
    if es == [] then []
    else [Item(Printed(es[0], fmt, d), [], if fmt then [SPACE] else [])] + PrintedItems(es[1..], fmt, d)
  }

  /** The members, d levels deep. */
  function PrintedFields(ms: seq<Member>, fmt: bool, d: nat): (fields: seq<Field>)
    requires PrintableMembers(ms) && d > 0
    ensures |fields| == |ms|
    decreases ms, 0
  {
    if ms == [] then []
    else
      var after := if |ms| == 1 then LineBreak(fmt, d - 1) else [];
      var item := Item(Printed(ms[0].value, fmt, d), after, LineBreak(fmt, d));
      [Field(PrintedLiteral(ms[0].key), [], if fmt then [TAB] else [], item)] + PrintedFields(ms[1..], fmt, d)
  }

  /** The printed text is a rendering, and what it denotes is the value. */
  lemma {:induction false} PrintedValue(v: Value, fmt: bool, d: nat)
    requires Printable(v)
    ensures var t := Printed(v, fmt, d); TreeOk(t) && Render(t) == Text(v, fmt, d) && Means(t) == v
    decreases v, 1
  {
    hide PrintedNumeral, NumeralText, NumText, NumeralMeans, PrintedLiteral, LiteralText, Quoted, LiteralOk;
    hide LiteralMeans, PrintedItems, ItemsFrom, ElemsText, PrintedFields, FieldsFrom, MembersText, LineBreak, Indent,
         OpenBrace;
    match v
    case Num(n) => PrintedNumber(n);
    case Str(s) => QuotedText(s);
    case Arr(es) =>
      PrintedElems(es, fmt, d + 1);
      Assoc([LBRACKET], ElemsText(es, fmt, d + 1), [RBRACKET]);
      NoElems(fmt, d + 1);
    case Obj(ms) =>
      PrintedObject(ms, fmt, d);
    case _ =>
  }

  lemma NoElems(fmt: bool, d: nat)
    ensures ElemsText([], fmt, d) + [RBRACKET] == [RBRACKET] && [LBRACKET] + [] == [LBRACKET]
  {
  }

  lemma {:induction false} PrintedElems(es: seq<Value>, fmt: bool, d: nat)
    requires PrintableElems(es)
    ensures var items := PrintedItems(es, fmt, d);
      ItemsOk(items) && ItemsMean(items) == es && (es != [] ==> ItemsFrom(items) == ElemsText(es, fmt, d) + [RBRACKET])
    decreases es, 0
  {
    hide Text, Printed, Render, Means, TreeOk;
    if es != [] {
      var items, head := PrintedItems(es, fmt, d), Text(es[0], fmt, d);
      PrintedValue(es[0], fmt, d);
      PrintedElems(es[1..], fmt, d);
      assert items[1..] == PrintedItems(es[1..], fmt, d) && [es[0]] + es[1..] == es;
      if |es| == 1 {
        assert [] + [RBRACKET] == [RBRACKET] && head + [] + [] == head;
      } else {
        var rest := ElemsText(es[1..], fmt, d);
        assert [COMMA] + items[0].next == CommaText(fmt) && [] + AfterItem(items) == AfterItem(items);
        Assoc(head + CommaText(fmt), rest, [RBRACKET]);
        Assoc(head, CommaText(fmt), rest + [RBRACKET]);
      }
    }
  }

  lemma LineBreakText(fmt: bool, d: nat)
    ensures LineBreak(fmt, d) == MemberEnd(fmt, true) + Indent(fmt, d)
    ensures [COMMA] + LineBreak(fmt, d) == MemberEnd(fmt, false) + Indent(fmt, d)
    ensures [LBRACE] + LineBreak(fmt, d) == OpenBrace(fmt) + Indent(fmt, d)
  {
  }

  lemma PrintedObject(ms: seq<Member>, fmt: bool, d: nat)
    requires PrintableMembers(ms)
    ensures var t := Printed(Obj(ms), fmt, d); TreeOk(t) && Render(t) == Text(Obj(ms), fmt, d) && Means(t) == Obj(ms)
    decreases ms, 1
  {
    hide FieldsOk, FieldsMean, PrintedFields, FieldsFrom, MembersText, LineBreak, Indent, OpenBrace;
    var open, inner, close := OpenBrace(fmt), MembersText(ms, fmt, d + 1), Indent(fmt, d) + [RBRACE];
    LineBreakWhite(fmt, d);
    LineBreakWhite(fmt, d + 1);
    LineBreakText(fmt, d);
    LineBreakText(fmt, d + 1);
    PrintedMembers(ms, fmt, d + 1);
    Assoc(open + inner, Indent(fmt, d), [RBRACE]);
    Assoc(open, inner, close);
    if ms == [] {
      NoMembers(fmt, d + 1);
      Assoc(open, Indent(fmt, d), [RBRACE]);
      assert [] + close == close;
    } else {
      Assoc(open, Indent(fmt, d + 1), FieldsFrom(PrintedFields(ms, fmt, d + 1)));
    }
  }

  lemma NoMembers(fmt: bool, d: nat)
    requires d > 0
    ensures MembersText([], fmt, d) == [] && PrintedFields([], fmt, d) == []
  {
  }

  lemma LineBreakWhite(fmt: bool, d: nat)
    ensures White(LineBreak(fmt, d))
  {
  }

  lemma {:induction false} PrintedMembers(ms: seq<Member>, fmt: bool, d: nat)
    requires PrintableMembers(ms) && d > 0
    ensures var fields := PrintedFields(ms, fmt, d);
      && FieldsOk(fields) && FieldsMean(fields) == ms
      && (ms != [] ==> Indent(fmt, d) + FieldsFrom(fields) == MembersText(ms, fmt, d) + (Indent(fmt, d - 1) + [RBRACE]))
    decreases ms, 0
  {
    hide Printed, FieldText, MemberText, Means, TreeOk, LineBreak, Indent, MemberEnd, LiteralOk,
         LiteralMeans, PrintedLiteral;
    if ms != [] {
      var fields, tail := PrintedFields(ms, fmt, d), Indent(fmt, d - 1) + [RBRACE];
      var indent, head, end := Indent(fmt, d), MemberText(ms[0], fmt, d), MemberEnd(fmt, |ms| == 1);
      var rest := MembersText(ms[1..], fmt, d);
      LineBreakWhite(fmt, d);
      LineBreakWhite(fmt, d - 1);
      PrintedMember(ms[0], fmt, d, fields[0]);
      PrintedMembers(ms[1..], fmt, d);
      LineBreakText(fmt, d);
      LineBreakText(fmt, d - 1);
      assert fields[1..] == PrintedFields(ms[1..], fmt, d) && [ms[0]] + ms[1..] == ms;
      Assoc(indent + head + end, rest, tail);
      Assoc(indent + head, end, rest + tail);
      Assoc(indent, head, end + (rest + tail));
      if |ms| == 1 {
        NoMembers(fmt, d);
        Assoc(end, Indent(fmt, d - 1), [RBRACE]);
        assert [] + tail == tail;
      } else {
        Assoc(end, indent, FieldsFrom(fields[1..]));
        assert [] + AfterField(fields) == AfterField(fields);
      }
    }
  }

  lemma PrintedMember(m: Member, fmt: bool, d: nat, f: Field)
    requires NulFree(m.key) && Printable(m.value)
    requires f.key == PrintedLiteral(m.key) && f.item.tree == Printed(m.value, fmt, d)
    requires f.mid == [] && f.lead == (if fmt then [TAB] else []) && Spaced(f.item)
    ensures KeyOk(f) && TreeOk(f.item.tree) && FieldText(f) == MemberText(m, fmt, d) && FieldMeans(f) == m
    decreases m, 2
  {
    hide Printed, Render, Text, Means, TreeOk, Quoted, LiteralText, LiteralOk, LiteralMeans, PrintedLiteral;
    var v := Text(m.value, fmt, d);
    QuotedText(m.key);
    PrintedValue(m.value, fmt, d);
    assert [COLON] + f.lead == ColonText(fmt) && [] + (ColonText(fmt) + v) == ColonText(fmt) + v;
    Assoc(Quoted(m.key), ColonText(fmt), v);
  }

  // --- the whole text ---

  /**
   * Wherever the text of v stands, formatted or not and at any depth, it is read as v, to its end, unless v is
   * nested too deeply there.
   */
  lemma ValueRoundTrip(v: Value, fmt: bool, d: nat, c: bytes, i: nat, depth: nat)
    requires Terminated(c) && Printable(v) && depth <= NESTING_LIMIT
    requires StartsAt(c, i, Text(v, fmt, d)) && i + |Text(v, fmt, d)| < |c|
    requires !NumberByte(c[i + |Text(v, fmt, d)|])
    ensures Reads(ParseValue(c, i, depth), depth + Nesting(v) <= NESTING_LIMIT, v, i + |Text(v, fmt, d)|)
  {
    hide Text, Render, Means, ParseValue, TreeOk, Printed, StartsAt;
    PrintedValue(v, fmt, d);
    TreeParses(Printed(v, fmt, d), c, i, depth);
  }

  /**
   * Parsing the printed text of v, formatted or not, gives back v - same member order, same duplicate
   * keys - when v nests at most NESTING_LIMIT deep, and fails when it nests deeper.
   */
  lemma RoundTrip(v: Value, fmt: bool, requireEnd: bool)
    requires Printable(v)
    ensures Terminated(Text(v, fmt, 0) + [NUL])
    ensures Reads(ParseText(Text(v, fmt, 0) + [NUL], requireEnd), Nesting(v) <= NESTING_LIMIT,
                  v, |Text(v, fmt, 0)|)
  {
    hide Text, Render, Means, ParseText, TreeOk, Printed, Terminated;
    var t := Text(v, fmt, 0);
    PrintedValue(v, fmt, 0);
    TextParses(false, [], Printed(v, fmt, 0), [], requireEnd);
    assert [] + ([] + (t + ([] + [NUL]))) == t + [NUL];
  }

  lemma TextNulFree(v: Value, fmt: bool, d: nat)
    requires Printable(v)
    ensures NulFree(Text(v, fmt, d))
  {
    hide Text, Render, TreeOk, Printed;
    PrintedValue(v, fmt, d);
    RenderNulFree(Printed(v, fmt, d));
  }
}
