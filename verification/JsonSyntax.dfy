/** JSON text as the parser takes it: white space anywhere, any escape, any number; and what it denotes. */
module JsonSyntax {
  import opened Basics
  import opened JsonText
  import opened JsonParse
  import opened JsonUnicode

  // --- strings ---

  /** The letters of the one-letter escapes, and the bytes they stand for. */
  const LETTERS := "\"\\/bfnrt"
  const STANDS: bytes := [34, 92, 47, 8, 12, 10, 13, 9]

  /** Letters and bytes of the escapes agree with the parser's. */
  lemma ShortExactly(letter: byte, b: byte)
    ensures ShortUnescape(letter) == Some(b) <==>
      exists k :: 0 <= k < 8 && letter == LETTERS[k] as int && b == STANDS[k]
  {
    assert LETTERS[0] as int == 34 && LETTERS[1] as int == 92 && LETTERS[2] as int == 47 && LETTERS[3] as int == 98;
    assert LETTERS[4] as int == 102 && LETTERS[5] as int == 110 && LETTERS[6] as int == 114 && LETTERS[7] as int == 116;
  }

  /**
   * A character of a string: a byte that stands for itself, a one-letter escape, the code point cp written as the
   * `\u` escapes of its UTF-16 code units, in hex digits of either case (section 7 of RFC 8259), or `\u` with four
   * bytes that are not hex digits throughout, which the parser takes for a NUL.
   */
  datatype Char = Plain(b: byte) | Short(k: nat) | Coded(cp: nat, text: bytes) | Garbled(text: bytes)

  ghost predicate CharOk(c: Char) {
    match c
    case Plain(b) => b != NUL && b != BACKSLASH
    case Short(k) => k < 8
    case Coded(cp, text) =>
      && Scalar(cp) && |text| == 6 * |Utf16Units(cp)|
      && forall k :: 0 <= k < |Utf16Units(cp)| ==> UnitAt(text, 6 * k, Utf16Units(cp)[k])
    case Garbled(text) =>
      |text| == 6 && NulFree(text) && text[0] == BACKSLASH && text[1] == LOWER_U && !exists u :: HexAt(text, 2, u)
  }

  function CharText(c: Char): bytes {
    match c
    case Plain(b) => [b]
    case Short(k) => [BACKSLASH, if k < 8 then LETTERS[k] as int else 0]
    case Coded(_, text) => text
    case Garbled(text) => text
  }

  function CharMeans(c: Char): (s: bytes)
    requires CharOk(c)
    ensures s != []
  {
    match c
    case Plain(b) => [b]
    case Short(k) => [STANDS[k]]
    case Coded(cp, _) => Utf8(cp)
    case Garbled(_) => [NUL]
  }

  ghost predicate CharsOk(cs: seq<Char>) { forall i :: 0 <= i < |cs| ==> CharOk(cs[i]) }

  function CharsText(cs: seq<Char>): bytes {
    if cs == [] then [] else CharText(cs[0]) + CharsText(cs[1..])
  }

  function CharsMean(cs: seq<Char>): (s: bytes)
    requires CharsOk(cs)
  {
    if cs == [] then [] else CharMeans(cs[0]) + CharsMean(cs[1..])
  }

  /**
   * A string literal. Its closing quote is the first one with an even number of backslashes in front. Behind a garbled
   * escape the characters can be out of step with the backslashes, so that the last one, an escaped quote, takes the
   * closing quote for its letter: `over` says so.
   */
  datatype Literal = Literal(cs: seq<Char>, over: bool)

  function LiteralText(l: Literal): bytes { [QUOTE] + (CharsText(l.cs) + if l.over then [] else [QUOTE]) }

  ghost predicate LiteralOk(l: Literal) {
    && CharsOk(l.cs) && (l.over ==> l.cs != [] && l.cs[|l.cs| - 1] == Short(0))
    && Closes(LiteralText(l), 1, |LiteralText(l)| - 1)
  }

  /** A decoded NUL ends the string. */
  function LiteralMeans(l: Literal): (s: bytes)
    requires LiteralOk(l)
    ensures NulFree(s)
  {
    CString(CharsMean(l.cs))
  }

  /** What a string may hold by the standard, but for escaped NULs. */
  ghost predicate Standard(c: Char) {
    CharOk(c) && !c.Garbled? && c != Plain(QUOTE) && (c.Coded? ==> c.cp != 0)
  }

  ghost predicate AllStandard(cs: seq<Char>) { forall i :: 0 <= i < |cs| ==> Standard(cs[i]) }

  // --- numbers ---

  predicate AllDigits(t: bytes) { forall i :: 0 <= i < |t| ==> Digit(t[i]) }

  /** The exponent of a number: e or E, a sign or none, and digits. */
  datatype Exponent = Exponent(letter: byte, sign: bytes, digits: bytes)

  datatype Numeral = Numeral(minus: bool, whole: bytes, frac: Option<bytes>, exponent: Option<Exponent>)

  /** A number as the parser has it: at least one digit before or behind the point, and a digit or minus in front. */
  predicate NumeralOk(n: Numeral) {
    && AllDigits(n.whole) && (n.frac.Some? ==> AllDigits(n.frac.value))
    && (n.whole == [] ==> n.minus && n.frac.Some? && n.frac.value != [])
    && (n.exponent.Some? ==>
          var x := n.exponent.value;
          && (x.letter == LOWER_E || x.letter == UPPER_E) && (x.sign == [] || x.sign == [PLUS] || x.sign == [MINUS])
          && x.digits != [] && AllDigits(x.digits))
    && |NumeralText(n)| <= NUMBER_ROOM
  }

  function FracText(n: Numeral): bytes { if n.frac.Some? then [POINT] + n.frac.value else [] }

  function ExponentText(n: Numeral): bytes {
    if n.exponent.Some? then [n.exponent.value.letter] + n.exponent.value.sign + n.exponent.value.digits else []
  }

  function NumeralText(n: Numeral): bytes {
    (if n.minus then [MINUS] else []) + (n.whole + (FracText(n) + ExponentText(n)))
  }

  /** The value of digits, each by its place. */
  function PlaceValue(t: bytes): int {
    if t == [] then 0 else (t[0] as int - '0' as int) * Pow10(|t| - 1) + PlaceValue(t[1..])
  }

  lemma {:induction false} PlaceValueLast(t: bytes, b: byte)
    ensures PlaceValue(t + [b]) == PlaceValue(t) * 10 + (b as int - '0' as int)
  {
    if t == [] {
      assert [] + [b] == [b] && [b][1..] == [];
    } else {
      PlaceValueLast(t[1..], b);
      assert (t + [b])[1..] == t[1..] + [b];
      assert Pow10(|t|) == 10 * Pow10(|t| - 1);
    }
  }

  lemma {:induction false} DigitsByPlace(t: bytes)
    ensures DigitsValue(t) == PlaceValue(t)
  {
    if t != [] {
      DigitsByPlace(t[..|t| - 1]);
      PlaceValueLast(t[..|t| - 1], t[|t| - 1]);
      assert t[..|t| - 1] + [t[|t| - 1]] == t;
    }
  }

  function NumeralMeans(n: Numeral): Number {
    var frac := if n.frac.Some? then n.frac.value else [];
    var m := PlaceValue(n.whole + frac);
    var e :=
      if n.exponent == None then 0
      else if n.exponent.value.sign == [MINUS] then -PlaceValue(n.exponent.value.digits)
      else PlaceValue(n.exponent.value.digits);
    Number(if n.minus then -m else m, e - |frac|)
  }

  // --- values ---

  /** White space, as the parser has it: any byte up to space except NUL. */
  predicate White(w: bytes) { forall k :: 0 <= k < |w| ==> 0 < w[k] <= SPACE }

  /**
   * What stands for a value: a word, a number, a string, a list or a record. `blank` follows the opening bracket;
   * an item has white space after it, and `next` is the white space after its comma, if it has one.
   */
  datatype Tree =
    | Word(v: Value)
    | Numb(n: Numeral)
    | Quote(l: Literal)
    | List(blank: bytes, items: seq<Item>)
    | Record(blank: bytes, fields: seq<Field>)

  datatype Item = Item(tree: Tree, after: bytes, next: bytes)

  /** A key, white space, a colon, white space and a value. */
  datatype Field = Field(key: Literal, mid: bytes, lead: bytes, item: Item)

  ghost predicate TreeOk(t: Tree)
    decreases t, 1
  {
    match t
    case Word(v) => v.Null? || v.False? || v.True?
    case Numb(n) => NumeralOk(n)
    case Quote(l) => LiteralOk(l)
    case List(blank, items) => White(blank) && ItemsOk(items)
    case Record(blank, fields) => White(blank) && FieldsOk(fields)
  }

  predicate Spaced(i: Item) { White(i.after) && White(i.next) }

  ghost predicate ItemsOk(items: seq<Item>)
    decreases items, 0
  {
    items == [] || (Spaced(items[0]) && TreeOk(items[0].tree) && ItemsOk(items[1..]))
  }

  ghost predicate KeyOk(f: Field) { LiteralOk(f.key) && White(f.mid) && White(f.lead) && Spaced(f.item) }

  ghost predicate FieldsOk(fields: seq<Field>)
    decreases fields, 0
  {
    fields == [] || (KeyOk(fields[0]) && TreeOk(fields[0].item.tree) && FieldsOk(fields[1..]))
  }

  function WordText(v: Value): bytes {
    if v.Null? then NULL_TEXT else if v.False? then FALSE_TEXT else TRUE_TEXT
  }

  function Render(t: Tree): bytes
    decreases t, 2
  {
    match t
    case Word(v) => WordText(v)
    case Numb(n) => NumeralText(n)
    case Quote(l) => LiteralText(l)
    case List(blank, items) => [LBRACKET] + blank + (if items == [] then [RBRACKET] else ItemsFrom(items))
    case Record(blank, fields) => [LBRACE] + blank + (if fields == [] then [RBRACE] else FieldsFrom(fields))
  }

  /** The items from the first value on, with the closing bracket. */
  function ItemsFrom(items: seq<Item>): bytes
    requires items != []
    decreases items, 1
  {
    Render(items[0].tree) + (items[0].after + AfterItem(items))
  }

  /** What comes after the first item: the closing bracket, or a comma and the others. */
  function AfterItem(items: seq<Item>): (t: bytes)
    requires items != []
    ensures t != [] && t[0] == if |items| == 1 then RBRACKET else COMMA
    decreases items, 0
  {
    if |items| == 1 then [RBRACKET] else [COMMA] + items[0].next + ItemsFrom(items[1..])
  }

  function FieldsFrom(fields: seq<Field>): bytes
    requires fields != []
    decreases fields, 1
  {
    FieldText(fields[0]) + (fields[0].item.after + AfterField(fields))
  }

  function AfterField(fields: seq<Field>): (t: bytes)
    requires fields != []
    ensures t != [] && t[0] == if |fields| == 1 then RBRACE else COMMA
    decreases fields, 0
  {
    if |fields| == 1 then [RBRACE] else [COMMA] + fields[0].item.next + FieldsFrom(fields[1..])
  }

  function FieldText(f: Field): bytes
    decreases f, 0
  {
    LiteralText(f.key) + (f.mid + ([COLON] + f.lead + Render(f.item.tree)))
  }

  function Means(t: Tree): Value
    requires TreeOk(t)
    decreases t, 1
  {
    match t
    case Word(v) => v
    case Numb(n) => Num(NumeralMeans(n))
    case Quote(l) => Str(LiteralMeans(l))
    case List(_, items) => Arr(ItemsMean(items))
    case Record(_, fields) => Obj(FieldsMean(fields))
  }

  function ItemsMean(items: seq<Item>): (es: seq<Value>)
    requires ItemsOk(items)
    ensures |es| == |items|
    decreases items, 0
  {
    if items == [] then [] else [Means(items[0].tree)] + ItemsMean(items[1..])
  }

  function FieldsMean(fields: seq<Field>): (ms: seq<Member>)
    requires FieldsOk(fields)
    ensures |ms| == |fields|
    decreases fields, 0
  {
    if fields == [] then [] else [FieldMeans(fields[0])] + FieldsMean(fields[1..])
  }

  function FieldMeans(f: Field): Member
    requires KeyOk(f) && TreeOk(f.item.tree)
    decreases f, 0
  {
    Member(LiteralMeans(f.key), Means(f.item.tree))
  }

  // --- reading a string ---

  lemma CharTextFirst(cs: seq<Char>, c: bytes, i: nat)
    requires cs != [] && StartsAt(c, i, CharsText(cs))
    ensures StartsAt(c, i, CharText(cs[0])) && i + |CharsText(cs)| <= |c|
    ensures StartsAt(c, i + |CharText(cs[0])|, CharsText(cs[1..]))
    ensures |CharsText(cs)| == |CharText(cs[0])| + |CharsText(cs[1..])|
  {
    hide CharText, StartsAt;
    StartsAtConcat(c, i, CharText(cs[0]), CharsText(cs[1..]));
  }

  /** The escapes of a code point, where its text stands. */
  lemma CodedAt(ch: Char, c: bytes, i: nat)
    requires ch.Coded? && CharOk(ch) && StartsAt(c, i, ch.text)
    ensures forall k :: 0 <= k < |Utf16Units(ch.cp)| ==> UnitAt(c, i + 6 * k, Utf16Units(ch.cp)[k])
  {
    hide StartsAt, Utf16Units;
    var units := Utf16Units(ch.cp);
    forall k | 0 <= k < |units| ensures UnitAt(c, i + 6 * k, units[k]) {
      assert UnitAt(ch.text, 6 * k, units[k]);
      UnitMoved(ch.text, 6 * k, units[k], c, i);
    }
  }

  lemma UnitMoved(t: bytes, p: nat, u: nat, c: bytes, i: nat)
    requires UnitAt(t, p, u) && StartsAt(c, i, t)
    ensures UnitAt(c, i + p, u)
  {
    hide StartsAt, HexValue;
    StartsAtByte(c, i, t, p);
    StartsAtByte(c, i, t, p + 1);
    StartsAtByte(c, i, t, p + 2);
    StartsAtByte(c, i, t, p + 3);
    StartsAtByte(c, i, t, p + 4);
    StartsAtByte(c, i, t, p + 5);
  }

  lemma HexPlain(b: byte, n: nat)
    requires HexDigitIs(b, n)
    ensures b != QUOTE && b != BACKSLASH
  {
    HexExactly(b, n);
  }

  /** The first pass steps over an escaped code unit. */
  lemma CloseSkipsUnit(c: bytes, i: nat, u: nat)
    requires UnitAt(c, i, u)
    ensures FindClose(c, i) == FindClose(c, i + 6)
  {
    hide HexDigitIs;
    HexPlain(c[i + 2], u / 4096);
    HexPlain(c[i + 3], u / 256 % 16);
    HexPlain(c[i + 4], u / 16 % 16);
    HexPlain(c[i + 5], u % 16);
    assert FindClose(c, i) == FindClose(c, i + 2) == FindClose(c, i + 3) == FindClose(c, i + 4);
    assert FindClose(c, i + 4) == FindClose(c, i + 5) == FindClose(c, i + 6);
  }

  lemma CloseSkipsChar(c: bytes, i: nat, ch: Char)
    requires Standard(ch) && StartsAt(c, i, CharText(ch)) && i + |CharText(ch)| <= |c|
    ensures FindClose(c, i) == FindClose(c, i + |CharText(ch)|)
  {
    hide UnitAt, StartsAt;
    StartsAtByte(c, i, CharText(ch), 0);
    if ch.Short? {
      StartsAtByte(c, i, CharText(ch), 1);
    } else if ch.Coded? {
      var units := Utf16Units(ch.cp);
      CodedAt(ch, c, i);
      assert UnitAt(c, i + 6 * 0, units[0]);
      CloseSkipsUnit(c, i, units[0]);
      if |units| == 2 {
        assert UnitAt(c, i + 6 * 1, units[1]);
        CloseSkipsUnit(c, i + 6, units[1]);
      }
    }
  }

  lemma HexMoved(c: bytes, i: nat, text: bytes)
    requires |text| == 6 && StartsAt(c, i, text)
    ensures i + 6 <= |c| && c[i] == text[0] && c[i + 1] == text[1]
    ensures forall u :: HexAt(c, i + 2, u) <==> HexAt(text, 2, u)
  {
    hide HexDigitIs;
    assert c[i + 0] == text[0] && c[i + 1] == text[1] && c[i + 2] == text[2];
    assert c[i + 3] == text[3] && c[i + 4] == text[4] && c[i + 5] == text[5];
  }

  /** The four bytes behind `\u` are read as 0 when they are not hex digits throughout. */
  lemma GarbledRead(c: bytes, i: nat, text: bytes)
    requires CharOk(Garbled(text)) && StartsAt(c, i, text)
    ensures i + 6 <= |c| && c[i] == BACKSLASH && c[i + 1] == LOWER_U && Hex4(c, i + 2) == 0
  {
    hide Hex4, HexDigitIs;
    HexMoved(c, i, text);
    assert !HexAt(text, 2, Hex4(c, i + 2));
    Hex4Exactly(c, i + 2, Hex4(c, i + 2));
  }

  /** The second pass decodes a character to what it means; only an escaped quote may reach past the end. */
  lemma CharDecoded(c: bytes, i: nat, ch: Char, e: nat)
    requires CharOk(ch) && StartsAt(c, i, CharText(ch)) && e < |c|
    requires i + |CharText(ch)| <= if ch == Short(0) then e + 1 else e
    ensures i < e && UnescapeOne(c, i, e) == Some(Piece(CharMeans(ch), |CharText(ch)|))
  {
    hide UnitAt, StartsAt, Utf16Escape, Utf8, HexAt;
    StartsAtByte(c, i, CharText(ch), 0);
    if ch.Short? {
      StartsAtByte(c, i, CharText(ch), 1);
      assert LETTERS[ch.k] as int == CharText(ch)[1];
      ShortExactly(CharText(ch)[1], STANDS[ch.k]);
    } else if ch.Coded? {
      CodedAt(ch, c, i);
      assert UnitAt(c, i + 6 * 0, Utf16Units(ch.cp)[0]);
      UnitRead(c, i, Utf16Units(ch.cp)[0]);
      EscapesDecode(c, i, e, ch.cp);
    } else if ch.Garbled? {
      GarbledRead(c, i, ch.text);
      GarbledDecoded(c, i, e);
    }
  }

  lemma GarbledDecoded(c: bytes, i: nat, e: nat)
    requires i + 6 <= e < |c| && c[i] == BACKSLASH && c[i + 1] == LOWER_U && Hex4(c, i + 2) == 0
    ensures Utf16Escape(c, i, e) == Some(Escaped(0, 6)) && Utf8(0) == [NUL]
    ensures UnescapeOne(c, i, e) == Some(Piece([NUL], 6))
  {
    hide Hex4;
  }

  lemma {:induction false} CloseOfChars(cs: seq<Char>, c: bytes, i: nat)
    requires AllStandard(cs) && StartsAt(c, i, CharsText(cs) + [QUOTE])
    ensures FindClose(c, i) == Some(i + |CharsText(cs)|)
    decreases |cs|
  {
    hide StartsAt, FindClose, CharText, Standard;
    StartsAtConcat(c, i, CharsText(cs), [QUOTE]);
    if cs == [] {
      StartsAtByte(c, i, [QUOTE], 0);
      QuoteCloses(c, i);
    } else {
      StartsAtRegroup(c, i, CharText(cs[0]), CharsText(cs[1..]), [QUOTE]);
      CloseOfChars(cs[1..], c, i + |CharText(cs[0])|);
      CloseSkipsChar(c, i, cs[0]);
    }
  }

  lemma QuoteCloses(c: bytes, i: nat)
    requires i < |c| && c[i] == QUOTE
    ensures FindClose(c, i) == Some(i)
  {
  }

  lemma CharsLong(cs: seq<Char>)
    requires CharsOk(cs)
    ensures |CharsText(cs)| >= if cs == [] then 0 else 1
  {
    hide UnitAt;
    assert cs != [] ==> CharOk(cs[0]);
  }

  lemma {:induction false} CharsDecoded(cs: seq<Char>, c: bytes, i: nat, e: nat)
    requires CharsOk(cs) && StartsAt(c, i, CharsText(cs)) && e < |c|
    requires i + |CharsText(cs)| == e || (cs != [] && cs[|cs| - 1] == Short(0) && i + |CharsText(cs)| == e + 1)
    ensures Unescape(c, i, e) == Bytes(CharsMean(cs))
    decreases |cs|
  {
    hide StartsAt, CharText, CharOk, CharMeans, UnescapeOne;
    if cs != [] {
      CharTextFirst(cs, c, i);
      CharsLong(cs[1..]);
      CharDecoded(c, i, cs[0], e);
      if |cs| > 1 || i + |CharsText(cs)| == e {
        CharsDecoded(cs[1..], c, i + |CharText(cs[0])|, e);
      } else {
        assert cs[1..] == [];
      }
    }
  }

  lemma CloseMoved(l: Literal, c: bytes, i: nat)
    requires LiteralOk(l) && StartsAt(c, i, LiteralText(l))
    ensures FindClose(c, i + 1) == Some(i + |LiteralText(l)| - 1)
  {
    hide FindClose, LiteralText;
    var t := LiteralText(l);
    FindCloseExactly(t, 1);
    assert FindClose(t, 1) == Some(|t| - 1);
    CloseSame(t, 1, c, i + 1, |t| - 1);
  }

  /** A string literal is read as what its characters mean, to its closing quote. */
  lemma LiteralParses(l: Literal, c: bytes, i: nat)
    requires LiteralOk(l) && StartsAt(c, i, LiteralText(l))
    ensures i < |c| && ParseString(c, i) == Ok(LiteralMeans(l), i + |LiteralText(l)|)
  {
    hide StartsAt, CharsText, CharsMean, FindClose, Unescape, CString, Closes;
    CloseMoved(l, c, i);
    var rest := if l.over then [] else [QUOTE];
    StartsAtConcat(c, i, [QUOTE], CharsText(l.cs) + rest);
    StartsAtByte(c, i, [QUOTE], 0);
    StartsAtConcat(c, i + 1, CharsText(l.cs), rest);
    CharsDecoded(l.cs, c, i + 1, i + |LiteralText(l)| - 1);
  }

  function StringText(cs: seq<Char>): bytes { LiteralText(Literal(cs, false)) }

  lemma StandardCloses(cs: seq<Char>)
    requires AllStandard(cs)
    ensures Closes(StringText(cs), 1, |StringText(cs)| - 1)
  {
    hide CharsText, FindClose, CharText, Standard;
    var t := StringText(cs);
    assert t == [QUOTE] + (CharsText(cs) + [QUOTE]) && StartsAt(t, 0, t);
    StartsAtConcat(t, 0, [QUOTE], CharsText(cs) + [QUOTE]);
    CloseOfChars(cs, t, 1);
    FindCloseExactly(t, 1);
  }

  /** Characters as the standard has them make a literal, and the string it denotes is what they mean. */
  lemma StandardLiteral(cs: seq<Char>)
    requires AllStandard(cs)
    ensures CharsOk(cs) && LiteralOk(Literal(cs, false)) && LiteralMeans(Literal(cs, false)) == CharsMean(cs)
  {
    hide CharsText, LiteralText, Closes, CharOk, CharMeans, CharsMean, Standard;
    StandardCloses(cs);
    MeansNulFree(cs);
    CStringExactly(CharsMean(cs), CharsMean(cs));
  }

  lemma StandardMeans(c: Char)
    requires Standard(c)
    ensures CharOk(c) && NulFree(CharMeans(c))
  {
    hide UnitAt;
  }

  lemma {:induction false} MeansNulFree(cs: seq<Char>)
    requires AllStandard(cs)
    ensures CharsOk(cs) && NulFree(CharsMean(cs))
  {
    hide Standard, CharMeans;
    if cs != [] {
      StandardMeans(cs[0]);
      MeansNulFree(cs[1..]);
    }
  }

  /** So a string written as the standard has it is read as what its characters mean. */
  lemma StringParses(cs: seq<Char>, c: bytes, i: nat)
    requires AllStandard(cs) && StartsAt(c, i, StringText(cs))
    ensures CharsOk(cs) && i < |c| && ParseString(c, i) == Ok(CharsMean(cs), i + |StringText(cs)|)
  {
    hide StartsAt, CharsText, CharsMean, LiteralMeans;
    StandardLiteral(cs);
    LiteralParses(Literal(cs, false), c, i);
  }

  // --- reading a number ---

  lemma {:induction false} RunEndAt(t: bytes, i: nat, j: nat)
    requires i <= j <= |t| && AllDigits(t[i..j]) && (j < |t| ==> !Digit(t[j]))
    ensures RunEnd(t, i) == j
    decreases j - i
  {
    if i < j {
      assert Digit(t[i..j][0]);
      assert t[i + 1..j] == t[i..j][1..];
      RunEndAt(t, i + 1, j);
    }
  }

  /** The pieces of a number, where its text is split. */
  lemma NumeralPieces(n: Numeral)
    requires NumeralOk(n)
    ensures var t := NumeralText(n); var s := if n.minus then 1 else 0;
      var whole := s + |n.whole|; var end := whole + |FracText(n)|;
      && |t| == end + |ExponentText(n)| && SignEnd(t, 0) == s && (n.minus <==> t[0] == MINUS)
      && t[s..whole] == n.whole && t[whole..end] == FracText(n) && t[end..] == ExponentText(n)
      && s < |t| && (Digit(t[s]) || t[s] == POINT)
  {
    var t := NumeralText(n);
    var s := if n.minus then 1 else 0;
    var rest := FracText(n) + ExponentText(n);
    assert t[s..] == n.whole + rest;
    assert t[s] == t[s..][0] == if n.whole != [] then n.whole[0] else POINT;
    assert t[s..][|n.whole|..] == rest;
  }

  /** The exponent is read to the end of the text. */
  lemma ExponentRead(x: Exponent, t: bytes, i: nat)
    requires (x.letter == LOWER_E || x.letter == UPPER_E) && (x.sign == [] || x.sign == [PLUS] || x.sign == [MINUS])
    requires x.digits != [] && AllDigits(x.digits)
    requires i <= |t| && t[i..] == [x.letter] + x.sign + x.digits
    ensures ExponentEnd(t, i) == |t|
    ensures ExponentValue(t, i) == if x.sign == [MINUS] then -DigitsValue(x.digits) else DigitsValue(x.digits)
  {
    hide DigitsValue;
    var k := i + 1 + |x.sign|;
    assert t[i..][0] == x.letter;
    assert t[k..] == t[i..][1 + |x.sign|..] == x.digits;
    assert t[k] == x.digits[0];
    assert x.sign != [] ==> t[i + 1] == t[i..][1] == x.sign[0];
    assert t[k..|t|] == x.digits;
    RunEndAt(t, k, |t|);
  }

  /** The digits in front of the point and behind it are read up to the exponent. */
  lemma FracRead(n: Numeral)
    requires NumeralOk(n)
    ensures var t := NumeralText(n);
      var whole := (if n.minus then 1 else 0) + |n.whole|; var end := whole + |FracText(n)|;
      && end <= |t| && RunEnd(t, SignEnd(t, 0)) == whole
      && (n.frac.Some? ==> whole < |t| && t[whole] == POINT && RunEnd(t, whole + 1) == end)
      && (n.frac == None ==> whole == |t| || t[whole] != POINT)
  {
    hide NumeralText, NumeralOk, RunEnd;
    NumeralPieces(n);
    NumeralParts(n);
    var t := NumeralText(n);
    var s := if n.minus then 1 else 0;
    var whole := s + |n.whole|;
    var end := whole + |FracText(n)|;
    assert end < |t| ==> t[end] == t[end..][0];
    assert whole < end ==> t[whole] == t[whole..end][0];
    RunEndAt(t, s, whole);
    if n.frac.Some? {
      assert t[whole + 1..end] == t[whole..end][1..] == n.frac.value;
      RunEndAt(t, whole + 1, end);
    }
  }

  lemma NumeralParts(n: Numeral)
    requires NumeralOk(n)
    ensures AllDigits(n.whole) && (n.frac.Some? ==> AllDigits(n.frac.value))
    ensures n.exponent.Some? ==> n.exponent.value.letter == LOWER_E || n.exponent.value.letter == UPPER_E
  {
  }

  /** A number is read to its end, as what it denotes. */
  lemma NumeralRead(n: Numeral)
    requires NumeralOk(n)
    ensures Strtod(NumeralText(n)) == Some((NumeralMeans(n), |NumeralText(n)|))
  {
    hide NumeralText, RunEnd, DigitsValue, PlaceValue, ExponentEnd, ExponentValue, SignEnd;
    NumeralPieces(n);
    FracRead(n);
    var t := NumeralText(n);
    var whole := (if n.minus then 1 else 0) + |n.whole|;
    var end := whole + |FracText(n)|;
    assert n.frac.Some? ==> t[whole + 1..end] == t[whole..end][1..] == n.frac.value;
    DigitsByPlace(n.whole + if n.frac.Some? then n.frac.value else []);
    if n.exponent.Some? {
      DigitsByPlace(n.exponent.value.digits);
      ExponentRead(n.exponent.value, t, end);
    } else {
      NoExponent(t);
    }
  }

  lemma NoExponent(t: bytes)
    ensures ExponentEnd(t, |t|) == |t| && ExponentValue(t, |t|) == 0
  {
  }

  /** Number bytes only, beginning with a digit or a minus. */
  lemma NumeralShape(n: Numeral)
    requires NumeralOk(n)
    ensures forall k :: 0 <= k < |NumeralText(n)| ==> NumberByte(NumeralText(n)[k])
    ensures var t := NumeralText(n); t != [] && (t[0] == MINUS || Digit(t[0]))
  {
    assert n.exponent.Some? ==> forall b :: b in n.exponent.value.sign ==> b == PLUS || b == MINUS;
    assert forall b :: b in n.whole ==> Digit(b);
  }

  lemma {:induction false} NumberRunAll(c: bytes, i: nat, t: bytes, stop: nat)
    requires StartsAt(c, i, t) && i + |t| < |c| && i + |t| <= stop
    requires forall k :: 0 <= k < |t| ==> NumberByte(t[k])
    requires !NumberByte(c[i + |t|])
    ensures NumberRun(c, i, stop) == |t|
    decreases |t|
  {
    hide StartsAt;
    if t != [] {
      StartsAtByte(c, i, t, 0);
      assert t == [t[0]] + t[1..];
      StartsAtConcat(c, i, [t[0]], t[1..]);
      NumberRunAll(c, i + 1, t[1..], stop);
    }
  }

  /** A number that fits the temporary buffer is read as what it denotes, to its end. */
  lemma NumberParses(n: Numeral, c: bytes, i: nat)
    requires NumeralOk(n) && StartsAt(c, i, NumeralText(n)) && i + |NumeralText(n)| < |c|
    requires !NumberByte(c[i + |NumeralText(n)|])
    ensures ParseNumber(c, i) == Ok(Num(NumeralMeans(n)), i + |NumeralText(n)|)
  {
    hide StartsAt, NumeralText, NumberRun, Strtod, NumeralMeans;
    NumeralShape(n);
    NumberRunAll(c, i, NumeralText(n), i + NUMBER_ROOM);
    StartsAtSlice(c, i, NumeralText(n));
    NumeralRead(n);
  }

  // --- between tokens ---

  lemma {:induction false} SkipWhite(c: bytes, i: nat, w: bytes)
    requires StartsAt(c, i, w) && White(w) && i + |w| < |c| && c[i + |w|] > SPACE
    ensures SkipSpace(c, i) == i + |w|
    decreases |w|
  {
    hide StartsAt;
    if w != [] {
      StartsAtByte(c, i, w, 0);
      assert w == [w[0]] + w[1..];
      StartsAtConcat(c, i, [w[0]], w[1..]);
      SkipWhite(c, i + 1, w[1..]);
    }
  }

  /** White space in front of a token is skipped. */
  lemma SkipToToken(c: bytes, i: nat, w: bytes, token: bytes)
    requires StartsAt(c, i, w + token) && White(w) && token != [] && token[0] > SPACE
    ensures i + |w| < |c| && SkipSpace(c, i) == i + |w| && c[i + |w|] == token[0] && StartsAt(c, i + |w|, token)
    ensures c[i] == (w + token)[0]
  {
    hide StartsAt;
    StartsAtConcat(c, i, w, token);
    StartsAtByte(c, i, w + token, 0);
    StartsAtByte(c, i + |w|, token, 0);
    SkipWhite(c, i, w);
  }

  /** White space behind a one-byte token is skipped. */
  lemma SkipBehind(c: bytes, i: nat, token: byte, w: bytes, rest: bytes)
    requires StartsAt(c, i, [token] + w + rest) && White(w) && rest != [] && rest[0] > SPACE
    ensures i + 1 + |w| < |c| && c[i] == token && SkipSpace(c, i + 1) == i + 1 + |w|
    ensures c[i + 1 + |w|] == rest[0] && StartsAt(c, i + 1 + |w|, rest)
  {
    hide StartsAt;
    StartsAtRegroup(c, i, [token], w, rest);
    StartsAtByte(c, i, [token], 0);
    SkipToToken(c, i + 1, w, rest);
  }

  // --- reading a value ---

  /** The result of parsing what stands for v: v itself, unless it is nested too deeply. */
  ghost predicate Reads<T>(r: Parsed<T>, fits: bool, v: T, next: nat) {
    if fits then r == Ok(v, next) else r.Err?
  }

  lemma RenderHead(t: Tree)
    requires TreeOk(t)
    ensures var s := Render(t);
      && s != [] && SPACE < s[0] < 128 && s[0] != RBRACKET && s[0] != RBRACE
      && (t.Numb? ==> s[0] == MINUS || Digit(s[0])) && (t.Quote? ==> s[0] == QUOTE)
      && (t.List? ==> s[0] == LBRACKET) && (t.Record? ==> s[0] == LBRACE)
  {
    hide NumeralText, CharsText;
    if t.Numb? {
      NumeralShape(t.n);
    }
  }

  /** A value that is not a word is told apart by its first byte. */
  lemma ParseByHead(t: Tree, c: bytes, i: nat, depth: nat)
    requires Terminated(c) && TreeOk(t) && StartsAt(c, i, Render(t)) && i < |c|
    ensures t.Numb? ==> ParseValue(c, i, depth) == ParseNumber(c, i)
    ensures t.Quote? ==> var r := ParseString(c, i);
              ParseValue(c, i, depth) == if r.Ok? then Ok(Str(r.v), r.next) else Err(r.at)
    ensures t.List? ==> c[i] == LBRACKET && ParseValue(c, i, depth) == ParseArray(c, i, depth)
    ensures t.Record? ==> c[i] == LBRACE && ParseValue(c, i, depth) == ParseObject(c, i, depth)
  {
    hide ParseString, ParseNumber, ParseArray, ParseObject, Render;
    RenderHead(t);
    StartsAtByte(c, i, Render(t), 0);
    assert NULL_TEXT[0] == 110 && FALSE_TEXT[0] == 102 && TRUE_TEXT[0] == 116;
    assert c[i + 0] == c[i];
  }

  lemma WordParses(v: Value, c: bytes, i: nat, depth: nat)
    requires (v.Null? || v.False? || v.True?) && Terminated(c) && StartsAt(c, i, WordText(v)) && i < |c|
    ensures ParseValue(c, i, depth) == Ok(v, i + |WordText(v)|)
  {
    assert c[i + 0] == WordText(v)[0];
    assert NULL_TEXT[0] == 110 && FALSE_TEXT[0] == 102 && TRUE_TEXT[0] == 116;
  }

  /** Wherever a value is written, it is read as what it denotes, to its end, unless it is nested too deeply. */
  lemma {:induction false} TreeParses(t: Tree, c: bytes, i: nat, depth: nat)
    requires Terminated(c) && TreeOk(t) && depth <= NESTING_LIMIT
    requires StartsAt(c, i, Render(t)) && i + |Render(t)| < |c| && !NumberByte(c[i + |Render(t)|])
    ensures Reads(ParseValue(c, i, depth), depth + Nesting(Means(t)) <= NESTING_LIMIT, Means(t), i + |Render(t)|)
    decreases t, 1
  {
    hide StartsAt, ParseValue, ParseNumber, ParseString, ParseArray, ParseObject, LiteralText, NumeralText, WordText,
         ItemsFrom, FieldsFrom;
    match t
    case Word(v) => WordParses(v, c, i, depth);
    case Numb(n) =>
      ParseByHead(t, c, i, depth);
      NumberParses(n, c, i);
    case Quote(l) =>
      ParseByHead(t, c, i, depth);
      LiteralParses(l, c, i);
    case List(blank, items) =>
      ParseByHead(t, c, i, depth);
      ListParses(blank, items, c, i, depth);
    case Record(blank, fields) =>
      ParseByHead(t, c, i, depth);
      RecordParses(blank, fields, c, i, depth);
  }

  lemma {:induction false} ListParses(blank: bytes, items: seq<Item>, c: bytes, i: nat, depth: nat)
    requires Terminated(c) && White(blank) && ItemsOk(items) && depth <= NESTING_LIMIT
    requires StartsAt(c, i, Render(List(blank, items))) && i < |c| && c[i] == LBRACKET
    ensures Reads(ParseArray(c, i, depth), depth + 1 + ElemsNesting(ItemsMean(items)) <= NESTING_LIMIT,
                  Arr(ItemsMean(items)), i + |Render(List(blank, items))|)
    decreases items, 2
  {
    hide StartsAt, ItemsFrom, ParseElems;
    var rest := if items == [] then [RBRACKET] else ItemsFrom(items);
    if items != [] {
      ItemsHead(items);
    }
    SkipBehind(c, i, LBRACKET, blank, rest);
    if items != [] && depth < NESTING_LIMIT {
      var a := i + 1 + |blank|;
      SkipNothing(c, a);
      ItemsParse(items, c, a - 1, depth + 1);
    }
  }

  lemma SkipNothing(c: bytes, i: nat)
    requires i < |c| && c[i] > SPACE
    ensures SkipSpace(c, i) == i
  {
  }

  lemma ItemsHead(items: seq<Item>)
    requires ItemsOk(items) && items != []
    ensures ItemsFrom(items) != [] && ItemsFrom(items)[0] > SPACE && ItemsFrom(items)[0] != RBRACKET
  {
    hide Render;
    RenderHead(items[0].tree);
  }

  /** Behind a value: white space up to the comma or bracket. */
  lemma BehindValue(c: bytes, next: nat, after: bytes, rest: bytes)
    requires StartsAt(c, next, after + rest) && White(after)
    requires rest != [] && (rest[0] == COMMA || rest[0] == RBRACKET || rest[0] == RBRACE)
    ensures next + |after| < |c| && SkipSpace(c, next) == next + |after| && c[next + |after|] == rest[0]
    ensures StartsAt(c, next + |after|, rest) && !NumberByte(c[next])
  {
    SkipToToken(c, next, after, rest);
  }

  lemma {:induction false} ItemsParse(items: seq<Item>, c: bytes, p: nat, depth: nat)
    requires Terminated(c) && ItemsOk(items) && items != [] && depth <= NESTING_LIMIT
    requires p + 1 < |c| && StartsAt(c, SkipSpace(c, p + 1), ItemsFrom(items))
    ensures Reads(ParseElems(c, p, depth), depth + ElemsNesting(ItemsMean(items)) <= NESTING_LIMIT, ItemsMean(items),
                  SkipSpace(c, p + 1) + |ItemsFrom(items)|)
    decreases items, 1
  {
    hide StartsAt, Render, ParseValue, ParseElems, Means;
    var q, head := SkipSpace(c, p + 1), Render(items[0].tree);
    var next := q + |head|;
    var at := next + |items[0].after|;
    StartsAtConcat(c, q, head, items[0].after + AfterItem(items));
    BehindValue(c, next, items[0].after, AfterItem(items));
    TreeParses(items[0].tree, c, q, depth);
    if |items| > 1 {
      ItemsHead(items[1..]);
      SkipBehind(c, at, COMMA, items[0].next, ItemsFrom(items[1..]));
      ItemsParse(items[1..], c, at, depth);
    }
    ElemsStep(ItemsMean(items), c, p, depth, next, q + |ItemsFrom(items)|);
  }

  /** ParseElems on a first element and what follows it. */
  lemma ElemsStep(es: seq<Value>, c: bytes, p: nat, depth: nat, next: nat, end: nat)
    requires Terminated(c) && p + 1 < |c| && es != [] && next < |c|
    requires Reads(ParseValue(c, SkipSpace(c, p + 1), depth), depth + Nesting(es[0]) <= NESTING_LIMIT, es[0], next)
    requires var at := SkipSpace(c, next);
      if |es| == 1 then c[at] == RBRACKET && end == at + 1
      else c[at] == COMMA && at + 1 < |c|
           && Reads(ParseElems(c, at, depth), depth + ElemsNesting(es[1..]) <= NESTING_LIMIT, es[1..], end)
    ensures Reads(ParseElems(c, p, depth), depth + ElemsNesting(es) <= NESTING_LIMIT, es, end)
  {
    hide ParseValue;
    assert es == [es[0]] + es[1..];
    assert |es| == 1 ==> es == [es[0]] && es[1..] == [];
  }

  lemma {:induction false} RecordParses(blank: bytes, fields: seq<Field>, c: bytes, i: nat, depth: nat)
    requires Terminated(c) && White(blank) && FieldsOk(fields) && depth <= NESTING_LIMIT
    requires StartsAt(c, i, Render(Record(blank, fields))) && i < |c| && c[i] == LBRACE
    ensures Reads(ParseObject(c, i, depth), depth + 1 + MembersNesting(FieldsMean(fields)) <= NESTING_LIMIT,
                  Obj(FieldsMean(fields)), i + |Render(Record(blank, fields))|)
    decreases fields, 2
  {
    hide StartsAt, FieldsFrom, ParseMembers;
    var rest := if fields == [] then [RBRACE] else FieldsFrom(fields);
    if fields != [] {
      FieldsHead(fields);
    }
    SkipBehind(c, i, LBRACE, blank, rest);
    if fields != [] && depth < NESTING_LIMIT {
      var a := i + 1 + |blank|;
      SkipNothing(c, a);
      FieldsParse(fields, c, a - 1, depth + 1);
    }
  }

  lemma FieldsHead(fields: seq<Field>)
    requires fields != []
    ensures FieldsFrom(fields) != [] && FieldsFrom(fields)[0] == QUOTE
  {
  }

  lemma {:induction false} FieldsParse(fields: seq<Field>, c: bytes, p: nat, depth: nat)
    requires Terminated(c) && FieldsOk(fields) && fields != [] && depth <= NESTING_LIMIT
    requires p + 1 < |c| && StartsAt(c, SkipSpace(c, p + 1), FieldsFrom(fields))
    ensures Reads(ParseMembers(c, p, depth), depth + MembersNesting(FieldsMean(fields)) <= NESTING_LIMIT,
                  FieldsMean(fields), SkipSpace(c, p + 1) + |FieldsFrom(fields)|)
    decreases fields, 1
  {
    hide StartsAt, FieldText, ParseMember, ParseMembers, Means, LiteralMeans, LiteralOk;
    var q, head, item := SkipSpace(c, p + 1), FieldText(fields[0]), fields[0].item;
    var next := q + |head|;
    var at := next + |item.after|;
    StartsAtConcat(c, q, head, item.after + AfterField(fields));
    BehindValue(c, next, item.after, AfterField(fields));
    FieldParses(fields[0], c, p, depth);
    if |fields| > 1 {
      FieldsHead(fields[1..]);
      SkipBehind(c, at, COMMA, item.next, FieldsFrom(fields[1..]));
      FieldsParse(fields[1..], c, at, depth);
    }
    MembersStep(FieldsMean(fields), c, p, depth, next, q + |FieldsFrom(fields)|);
  }

  /** ParseMembers on a first member and what follows it. */
  lemma MembersStep(ms: seq<Member>, c: bytes, p: nat, depth: nat, next: nat, end: nat)
    requires Terminated(c) && p + 1 < |c| && ms != [] && next < |c|
    requires Reads(ParseMember(c, p, depth), depth + Nesting(ms[0].value) <= NESTING_LIMIT, ms[0], next)
    requires var at := SkipSpace(c, next);
      if |ms| == 1 then c[at] == RBRACE && end == at + 1
      else c[at] == COMMA && at + 1 < |c|
           && Reads(ParseMembers(c, at, depth), depth + MembersNesting(ms[1..]) <= NESTING_LIMIT, ms[1..], end)
    ensures Reads(ParseMembers(c, p, depth), depth + MembersNesting(ms) <= NESTING_LIMIT, ms, end)
  {
    hide ParseMember;
    assert ms == [ms[0]] + ms[1..];
    assert |ms| == 1 ==> ms == [ms[0]] && ms[1..] == [];
  }

  lemma {:induction false} FieldParses(f: Field, c: bytes, p: nat, depth: nat)
    requires Terminated(c) && KeyOk(f) && TreeOk(f.item.tree) && depth <= NESTING_LIMIT
    requires p + 1 < |c| && StartsAt(c, SkipSpace(c, p + 1), FieldText(f))
    requires SkipSpace(c, p + 1) + |FieldText(f)| < |c| && !NumberByte(c[SkipSpace(c, p + 1) + |FieldText(f)|])
    ensures Reads(ParseMember(c, p, depth), depth + Nesting(Means(f.item.tree)) <= NESTING_LIMIT, FieldMeans(f),
                  SkipSpace(c, p + 1) + |FieldText(f)|)
    decreases f, 1
  {
    hide StartsAt, LiteralText, Render, ParseString, ParseValue, Means, LiteralMeans, LiteralOk;
    var q, key, value := SkipSpace(c, p + 1), LiteralText(f.key), Render(f.item.tree);
    var colon := q + |key| + |f.mid|;
    var tail := [COLON] + f.lead + value;
    RenderHead(f.item.tree);
    StartsAtConcat(c, q, key, f.mid + tail);
    LiteralParses(f.key, c, q);
    SkipToToken(c, q + |key|, f.mid, tail);
    SkipBehind(c, colon, COLON, f.lead, value);
    TreeParses(f.item.tree, c, colon + 1 + |f.lead|, depth);
  }

  // --- the whole text ---

  lemma {:induction false} CharsNulFree(cs: seq<Char>)
    requires CharsOk(cs)
    ensures NulFree(CharsText(cs))
  {
    if cs != [] {
      CharNulFree(cs[0]);
      CharsNulFree(cs[1..]);
    }
  }

  lemma CharNulFree(c: Char)
    requires CharOk(c)
    ensures NulFree(CharText(c))
  {
    hide Utf16Units;
    if c.Coded? {
      var units := Utf16Units(c.cp);
      forall i | 0 <= i < |c.text| ensures c.text[i] != NUL {
        assert UnitAt(c.text, 6 * (i / 6), units[i / 6]);
      }
    }
  }

  lemma {:induction false} RenderNulFree(t: Tree)
    requires TreeOk(t)
    ensures NulFree(Render(t))
    decreases t, 1
  {
    hide NumeralText, CharsText, ItemsFrom, FieldsFrom;
    match t
    case Word(_) =>
    case Numb(n) => NumeralShape(n);
    case Quote(l) => CharsNulFree(l.cs);
    case List(_, items) =>
      if items != [] {
        ItemsNulFree(items);
      }
    case Record(_, fields) =>
      if fields != [] {
        FieldsNulFree(fields);
      }
  }

  lemma {:induction false} ItemsNulFree(items: seq<Item>)
    requires ItemsOk(items) && items != []
    ensures NulFree(ItemsFrom(items))
    decreases items, 0
  {
    hide Render;
    RenderNulFree(items[0].tree);
    if |items| > 1 {
      ItemsNulFree(items[1..]);
    }
  }

  lemma {:induction false} FieldsNulFree(fields: seq<Field>)
    requires FieldsOk(fields) && fields != []
    ensures NulFree(FieldsFrom(fields))
    decreases fields, 0
  {
    hide Render, CharsText;
    RenderNulFree(fields[0].item.tree);
    CharsNulFree(fields[0].key.cs);
    if |fields| > 1 {
      FieldsNulFree(fields[1..]);
    }
  }

  const BOM: bytes := [0xEF, 0xBB, 0xBF]

  /** A text: a byte order mark or none, and a value with white space around it. */
  function Document(bom: bool, lead: bytes, t: Tree, trail: bytes): bytes {
    (if bom then BOM else []) + (lead + (Render(t) + (trail + [NUL])))
  }

  /**
   * Every text written with white space anywhere, any escapes and any numbers of at most 63 bytes is read as the
   * value it denotes, when that nests at most NESTING_LIMIT deep, and is refused when it nests deeper.
   */
  lemma TextParses(bom: bool, lead: bytes, t: Tree, trail: bytes, requireEnd: bool)
    requires TreeOk(t) && White(lead) && White(trail)
    ensures Terminated(Document(bom, lead, t, trail))
    ensures var c := Document(bom, lead, t, trail);
      Reads(ParseText(c, requireEnd), Nesting(Means(t)) <= NESTING_LIMIT, Means(t),
            if requireEnd then |c| - 1 else |c| - 1 - |trail|)
  {
    hide Render, ParseValue, Means, TreeOk, Document, StartsAt, SkipBom, SkipSpace, White, Nesting;
    var c, from := Document(bom, lead, t, trail), if bom then 3 else 0;
    RenderNulFree(t);
    RenderHead(t);
    DocumentLayout(bom, lead, t, trail);
    var i := from + |lead|;
    var next := i + |Render(t)|;
    StartsAtConcat(c, i, Render(t), trail + [NUL]);
    TrailSkipped(c, next, trail);
    TreeParses(t, c, i, 0);
  }

  lemma DocumentLayout(bom: bool, lead: bytes, t: Tree, trail: bytes)
    requires TreeOk(t) && White(lead) && White(trail) && NulFree(Render(t))
    ensures var c, from := Document(bom, lead, t, trail), if bom then 3 else 0;
      && Terminated(c) && SkipBom(c) == from < |c| && SkipSpace(c, from) == from + |lead|
      && StartsAt(c, from + |lead|, Render(t) + (trail + [NUL])) && |c| == from + |lead| + |Render(t)| + |trail| + 1
  {
    hide Render, TreeOk;
    var c, from := Document(bom, lead, t, trail), if bom then 3 else 0;
    var rest := Render(t) + (trail + [NUL]);
    RenderHead(t);
    assert StartsAt(c, from, lead + rest);
    SkipToToken(c, from, lead, rest);
    if bom {
      assert c[..3] == BOM;
    } else {
      assert c[0] == (lead + rest)[0] < 128;
      assert |c| > 4 ==> c[..3][0] == c[0];
    }
  }

  /** White space before the terminating NUL. */
  lemma {:induction false} TrailSkipped(c: bytes, i: nat, trail: bytes)
    requires StartsAt(c, i, trail + [NUL]) && White(trail) && |c| == i + |trail| + 1
    ensures SkipSpace(c, i) == |c| - 1 && c[|c| - 1] == NUL && c[i] <= SPACE
    decreases |trail|
  {
    StartsAtByte(c, i, trail + [NUL], |trail|);
    if trail == [] {
      assert ScanSpace(c, i) == ScanSpace(c, i + 1) == |c|;
    } else {
      StartsAtByte(c, i, trail + [NUL], 0);
      assert trail == [trail[0]] + trail[1..];
      StartsAtRegroup(c, i, [trail[0]], trail[1..], [NUL]);
      TrailSkipped(c, i + 1, trail[1..]);
    }
  }
}
