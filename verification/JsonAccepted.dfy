/** Which texts the parser accepts: exactly those of the syntax, as the value they denote. */
module JsonAccepted {
  import opened Basics
  import opened JsonText
  import opened JsonParse
  import opened JsonUnicode
  import opened JsonSyntax

  // --- strings ---

  lemma UnitSliced(c: bytes, i: nat, p: nat, j: nat, u: nat)
    requires UnitAt(c, i + p, u) && i + p + 6 <= j <= |c|
    ensures UnitAt(c[i..j], p, u)
  {
    hide HexDigitIs;
  }

  lemma SliceNulFree(c: bytes, i: nat, j: nat)
    requires Terminated(c) && i <= j < |c|
    ensures NulFree(c[i..j])
  {
  }

  lemma HexUnsliced(c: bytes, p: nat, u: nat)
    requires p + 6 <= |c| && HexAt(c[p..p + 6], 2, u)
    ensures HexAt(c, p + 2, u)
  {
    hide HexDigitIs;
  }

  /** A single code unit, or four bytes that are not hex digits throughout. */
  lemma UnitFound(c: bytes, p: nat, e: nat) returns (ch: Char)
    requires Terminated(c) && p + 6 <= e < |c| && c[p] == BACKSLASH && c[p + 1] == LOWER_U
    requires !HighSurrogate(Hex4(c, p + 2)) && !LowSurrogate(Hex4(c, p + 2))
    ensures CharOk(ch) && CharText(ch) == c[p..p + 6] && CharMeans(ch) == Utf8(Hex4(c, p + 2))
  {
    hide Hex4, HexDigitIs;
    var u, text := Hex4(c, p + 2), c[p..p + 6];
    SliceNulFree(c, p, p + 6);
    if HexAt(c, p + 2, u) {
      ch := Coded(u, text);
      UnitSliced(c, p, 0, p + 6, u);
      assert UnitAt(text, 6 * 0, u) && Utf16Units(u) == [u];
    } else {
      ch := Garbled(text);
      Hex4Exactly(c, p + 2, u);
      forall v | HexAt(text, 2, v) ensures false {
        HexUnsliced(c, p, v);
        Hex4Exactly(c, p + 2, v);
      }
    }
  }

  lemma PairFound(c: bytes, p: nat, e: nat) returns (ch: Char)
    requires p + 12 <= e < |c| && c[p] == BACKSLASH && c[p + 1] == LOWER_U
    requires c[p + 6] == BACKSLASH && c[p + 7] == LOWER_U
    requires HighSurrogate(Hex4(c, p + 2)) && LowSurrogate(Hex4(c, p + 8))
    ensures CharOk(ch) && CharText(ch) == c[p..p + 12] && ch.Coded?
    ensures ch.cp == 0x1_0000 + (Hex4(c, p + 2) % 0x400) * 0x400 + Hex4(c, p + 8) % 0x400
  {
    hide Hex4, HexAt;
    var first, second := Hex4(c, p + 2), Hex4(c, p + 8);
    NonzeroHex(c, p);
    NonzeroHex(c, p + 6);
    PairUnits(first, second);
    UnitSliced(c, p, 0, p + 12, first);
    UnitSliced(c, p, 6, p + 12, second);
    var cp := 0x1_0000 + (first % 0x400) * 0x400 + second % 0x400;
    assert UnitAt(c[p..p + 12], 6 * 0, first) && UnitAt(c[p..p + 12], 6 * 1, second);
    ch := Coded(cp, c[p..p + 12]);
  }

  /** Joining two surrogates and splitting them again. */
  lemma PairUnits(first: nat, second: nat)
    requires HighSurrogate(first) && LowSurrogate(second)
    ensures var cp := 0x1_0000 + (first % 0x400) * 0x400 + second % 0x400;
      Scalar(cp) && Utf16Units(cp) == [first, second]
  {
    var u := (first % 0x400) * 0x400 + second % 0x400;
    assert u / 0x400 == first % 0x400 && u % 0x400 == second % 0x400;
  }

  /** One step of the second pass is a character; only an escaped quote reaches past the closing one. */
  lemma CharFound(c: bytes, p: nat, e: nat) returns (ch: Char)
    requires Terminated(c) && p < e < |c| && c[e] == QUOTE && UnescapeOne(c, p, e).Some?
    ensures var piece := UnescapeOne(c, p, e).value;
      && p + piece.used <= |c| && CharOk(ch) && CharText(ch) == c[p..p + piece.used] && CharMeans(ch) == piece.out
      && (p + piece.used > e ==> ch == Short(0))
  {
    hide Hex4, UnitAt, HexAt, Utf8;
    if c[p] != BACKSLASH {
      ch := Plain(c[p]);
    } else if ShortUnescape(c[p + 1]).Some? {
      ch := ShortFound(c[p + 1]);
    } else if HighSurrogate(Hex4(c, p + 2)) {
      ch := PairFound(c, p, e);
    } else {
      ch := UnitFound(c, p, e);
    }
  }

  lemma ShortFound(letter: byte) returns (ch: Char)
    requires ShortUnescape(letter).Some?
    ensures CharOk(ch) && CharText(ch) == [BACKSLASH, letter] && CharMeans(ch) == [ShortUnescape(letter).value]
    ensures letter == QUOTE ==> ch == Short(0)
  {
    ShortExactly(letter, ShortUnescape(letter).value);
    var k :| 0 <= k < 8 && letter == LETTERS[k] as int && ShortUnescape(letter).value == STANDS[k];
    ch := Short(k);
    assert LETTERS[0] as int == 34 && forall j :: 0 < j < 8 ==> LETTERS[j] as int != 34;
  }

  lemma {:induction false} CharsFound(c: bytes, p: nat, e: nat) returns (cs: seq<Char>, over: bool)
    requires Terminated(c) && p <= e < |c| && c[e] == QUOTE && Unescape(c, p, e).Bytes?
    ensures CharsOk(cs) && CharsMean(cs) == Unescape(c, p, e).out
    ensures CharsText(cs) == c[p..if over then e + 1 else e]
    ensures over ==> cs != [] && cs[|cs| - 1] == Short(0)
    decreases e - p
  {
    hide CharOk, CharText, CharMeans, UnescapeOne;
    cs, over := [], false;
    if p < e {
      var used := UnescapeOne(c, p, e).value.used;
      var ch := CharFound(c, p, e);
      if p + used <= e {
        cs, over := CharsFound(c, p + used, e);
        assert c[p..p + used] + c[p + used..if over then e + 1 else e] == c[p..if over then e + 1 else e];
        assert ([ch] + cs)[1..] == cs;
      } else {
        over := true;
        assert CharText(ch) + [] == CharText(ch) && CharMeans(ch) + [] == CharMeans(ch) && [ch][1..] == [];
      }
      cs := [ch] + cs;
    }
  }

  /** The literal's closing quote is where the first pass found it. */
  lemma ClosesInSlice(c: bytes, i: nat, e: nat)
    requires i < e < |c| && FindClose(c, i + 1) == Some(e)
    ensures Closes(c[i..e + 1], 1, e - i)
  {
    hide FindClose;
    var t := c[i..e + 1];
    assert Same(c, i + 1, t, 1, e - i);
    CloseSame(c, i + 1, t, 1, e);
    FindCloseExactly(t, 1);
  }

  lemma LiteralFound(c: bytes, i: nat) returns (l: Literal)
    requires Terminated(c) && i < |c| && ParseString(c, i).Ok?
    ensures var r := ParseString(c, i); LiteralOk(l) && LiteralText(l) == c[i..r.next] && LiteralMeans(l) == r.v
  {
    hide FindClose, Unescape, CString, CharsText, CharsMean, Closes;
    var e := FindClose(c, i + 1).value;
    var cs, over := CharsFound(c, i + 1, e);
    l := Literal(cs, over);
    ClosesInSlice(c, i, e);
    var rest := if over then [] else [QUOTE];
    assert CharsText(cs) + rest == c[i + 1..e + 1];
    assert [QUOTE] + c[i + 1..e + 1] == c[i..e + 1];
  }

  // --- numbers ---

  lemma {:induction false} RunDigits(t: bytes, i: nat)
    requires i <= |t|
    ensures AllDigits(t[i..RunEnd(t, i)])
    decreases |t| - i
  {
    if i < |t| && Digit(t[i]) {
      RunDigits(t, i + 1);
      assert t[i..RunEnd(t, i)] == [t[i]] + t[i + 1..RunEnd(t, i)];
    }
  }

  lemma ExponentFound(t: bytes, i: nat) returns (x: Option<Exponent>)
    requires i <= |t|
    ensures x == None ==> ExponentEnd(t, i) == i && ExponentValue(t, i) == 0
    ensures x.Some? ==>
      var y := x.value;
      && (y.letter == LOWER_E || y.letter == UPPER_E) && (y.sign == [] || y.sign == [PLUS] || y.sign == [MINUS])
      && y.digits != [] && AllDigits(y.digits) && [y.letter] + y.sign + y.digits == t[i..ExponentEnd(t, i)]
      && ExponentValue(t, i) == if y.sign == [MINUS] then -PlaceValue(y.digits) else PlaceValue(y.digits)
  {
    hide DigitsValue, PlaceValue;
    var stop := ExponentEnd(t, i);
    if stop == i {
      x := None;
      NoDigits();
      assert t[i..i] == [];
    } else {
      var k := SignEnd(t, i + 1);
      x := Some(Exponent(t[i], t[i + 1..k], t[k..stop]));
      RunDigits(t, k);
      DigitsByPlace(t[k..stop]);
      assert k > i + 1 ==> t[i + 1..k] == [t[i + 1]];
    }
  }

  lemma NoDigits()
    ensures DigitsValue([]) == 0
  {
  }

  /** The number of the syntax that strtod takes off the front of t. */
  lemma NumeralBuilt(t: bytes, x: Option<Exponent>) returns (n: Numeral)
    requires t != [] && (t[0] == MINUS || Digit(t[0])) && Strtod(t).Some?
    ensures var s := SignEnd(t, 0); var whole := RunEnd(t, s); var point := whole < |t| && t[whole] == POINT;
      var end := if point then RunEnd(t, whole + 1) else whole;
      && n == Numeral(t[0] == MINUS, t[s..whole], if point then Some(t[whole + 1..end]) else None, x)
      && AllDigits(n.whole) && (n.frac.Some? ==> AllDigits(n.frac.value))
      && (n.whole == [] ==> n.minus && n.frac.Some? && n.frac.value != [])
  {
    hide DigitsValue, RunEnd, ExponentEnd, ExponentValue;
    var s := SignEnd(t, 0);
    var whole := RunEnd(t, s);
    var point := whole < |t| && t[whole] == POINT;
    var end := if point then RunEnd(t, whole + 1) else whole;
    RunDigits(t, s);
    if point {
      RunDigits(t, whole + 1);
    }
    if t[0] != MINUS {
      SomeRead(t);
    }
    n := Numeral(t[0] == MINUS, t[s..whole], if point then Some(t[whole + 1..end]) else None, x);
  }

  /** What strtod takes off the front of a number is a number of the syntax, of the same value. */
  lemma NumeralFound(t: bytes) returns (n: Numeral)
    requires t != [] && (t[0] == MINUS || Digit(t[0])) && |t| <= NUMBER_ROOM && Strtod(t).Some?
    ensures NumeralOk(n) && NumeralText(n) == t[..Strtod(t).value.1] && NumeralMeans(n) == Strtod(t).value.0
  {
    hide DigitsValue, PlaceValue, RunEnd, ExponentEnd, ExponentValue, NumeralText;
    var s := SignEnd(t, 0);
    var whole := RunEnd(t, s);
    var end := if whole < |t| && t[whole] == POINT then RunEnd(t, whole + 1) else whole;
    var x := ExponentFound(t, end);
    n := NumeralBuilt(t, x);
    DigitsByPlace(n.whole + if n.frac.Some? then n.frac.value else []);
    NumeralSpelled(t, n, s, whole, end, ExponentEnd(t, end));
  }

  lemma SomeRead(t: bytes)
    requires t != [] && Digit(t[0])
    ensures RunEnd(t, 0) > 0
  {
  }

  lemma NumeralSpelled(t: bytes, n: Numeral, s: nat, whole: nat, end: nat, stop: nat)
    requires s <= whole <= end <= stop <= |t| && t[..s] == if n.minus then [MINUS] else []
    requires n.whole == t[s..whole] && FracText(n) == t[whole..end] && ExponentText(n) == t[end..stop]
    ensures NumeralText(n) == t[..stop]
  {
  }

  // --- values ---

  lemma SkippedWhite(c: bytes, i: nat)
    requires Terminated(c) && i < |c|
    ensures White(c[i..SkipSpace(c, i)]) && SkipSpace(c, SkipSpace(c, i)) == SkipSpace(c, i)
  {
    var j := SkipSpace(c, i);
    SkipSpaceExactly(c, i, j);
    SkipSpaceExactly(c, j, j);
  }

  lemma WordFound(c: bytes, i: nat, v: Value) returns (t: Tree)
    requires (v.Null? || v.False? || v.True?) && StartsAt(c, i, WordText(v))
    ensures i + |WordText(v)| <= |c| && TreeOk(t) && Render(t) == c[i..i + |WordText(v)|] && Means(t) == v
  {
    hide StartsAt, WordText;
    t := Word(v);
    StartsAtSlice(c, i, WordText(v));
  }

  lemma NumberFound(c: bytes, i: nat) returns (t: Tree)
    requires i < |c| && (c[i] == MINUS || Digit(c[i])) && ParseNumber(c, i).Ok?
    ensures var r := ParseNumber(c, i); TreeOk(t) && Render(t) == c[i..r.next] && Means(t) == r.v
  {
    hide NumberRun, Strtod, NumeralOk, NumeralMeans, NumeralText;
    var run := c[i..i + NumberRun(c, i, i + NUMBER_ROOM)];
    var n := NumeralFound(run);
    t := Numb(n);
    assert run[..Strtod(run).value.1] == c[i..i + Strtod(run).value.1];
  }

  /** What is read as a value is the text of a tree that denotes it. */
  lemma {:induction false} ValueFound(c: bytes, i: nat, depth: nat) returns (t: Tree)
    requires Terminated(c) && i < |c| && ParseValue(c, i, depth).Ok?
    ensures var r := ParseValue(c, i, depth); TreeOk(t) && Render(t) == c[i..r.next] && Means(t) == r.v
    decreases |c| - i, 3
  {
    hide StartsAt, ParseString, ParseNumber, ParseArray, ParseObject, LiteralOk, LiteralText, LiteralMeans,
         Render, Means, TreeOk;
    if StartsAt(c, i, NULL_TEXT) {
      t := WordFound(c, i, Null);
    } else if StartsAt(c, i, FALSE_TEXT) {
      t := WordFound(c, i, False);
    } else if StartsAt(c, i, TRUE_TEXT) {
      t := WordFound(c, i, True);
    } else if c[i] == QUOTE {
      var l := LiteralFound(c, i);
      t := Quote(l);
      QuoteTree(l);
    } else if c[i] == LBRACKET {
      t := ListFound(c, i, depth);
    } else if c[i] == LBRACE {
      t := RecordFound(c, i, depth);
    } else {
      t := NumberFound(c, i);
    }
  }

  lemma QuoteTree(l: Literal)
    requires LiteralOk(l)
    ensures TreeOk(Quote(l)) && Render(Quote(l)) == LiteralText(l) && Means(Quote(l)) == Str(LiteralMeans(l))
  {
  }

  lemma ListBuilt(blank: bytes, items: seq<Item>)
    requires White(blank) && ItemsOk(items)
    ensures var t := List(blank, items);
      && TreeOk(t) && Means(t) == Arr(ItemsMean(items))
      && Render(t) == [LBRACKET] + blank + (if items == [] then [RBRACKET] else ItemsFrom(items))
  {
    hide ItemsOk, ItemsFrom, ItemsMean;
  }

  lemma ArrayRead(c: bytes, i: nat, depth: nat)
    requires Terminated(c) && i < |c| && c[i] == LBRACKET && ParseArray(c, i, depth).Ok?
    ensures i + 1 < |c| && i + 1 <= SkipSpace(c, i + 1)
    ensures var a := SkipSpace(c, i + 1);
      if c[a] == RBRACKET then ParseArray(c, i, depth) == Ok(Arr([]), a + 1)
      else
        var r := ParseElems(c, a - 1, depth + 1); r.Ok? && ParseArray(c, i, depth) == Ok(Arr(r.v), r.next)
  {
    hide ParseElems, SkipSpace;
  }

  lemma {:induction false} ListFound(c: bytes, i: nat, depth: nat) returns (t: Tree)
    requires Terminated(c) && i < |c| && c[i] == LBRACKET && ParseArray(c, i, depth).Ok?
    ensures var r := ParseArray(c, i, depth); TreeOk(t) && Render(t) == c[i..r.next] && Means(t) == r.v
    decreases |c| - i, 2
  {
    hide ParseArray, ParseElems, SkipSpace, ItemsOk, ItemsFrom, ItemsMean, TreeOk, Render, Means, White;
    ArrayRead(c, i, depth);
    var a := SkipSpace(c, i + 1);
    var blank := c[i + 1..a];
    SkippedWhite(c, i + 1);
    if c[a] == RBRACKET {
      t := List(blank, []);
      NothingMore();
      ListBuilt(blank, []);
      NothingBetween(c, i, a);
    } else {
      var items := ElemsFound(c, a - 1, depth + 1);
      t := List(blank, items);
      ListBuilt(blank, items);
      Between(c, i, a, ParseElems(c, a - 1, depth + 1).next);
    }
  }

  lemma NothingBetween(c: bytes, i: nat, a: nat)
    requires i < a < |c|
    ensures [c[i]] + c[i + 1..a] + [c[a]] == c[i..a + 1]
  {
  }

  lemma Between(c: bytes, i: nat, a: nat, next: nat)
    requires i < a <= next <= |c|
    ensures [c[i]] + c[i + 1..a] + c[a..next] == c[i..next]
  {
  }

  lemma {:induction false} ElemsFound(c: bytes, p: nat, depth: nat) returns (items: seq<Item>)
    requires Terminated(c) && p + 1 < |c| && ParseElems(c, p, depth).Ok?
    ensures var r := ParseElems(c, p, depth); var q := SkipSpace(c, p + 1);
      ItemsOk(items) && items != [] && q <= r.next && ItemsFrom(items) == c[q..r.next] && ItemsMean(items) == r.v
    decreases |c| - p, 0
  {
    hide ParseValue, SkipSpace, TreeOk, Render, Means, White, ItemsOk, ItemsFrom, ItemsMean;
    var q := SkipSpace(c, p + 1);
    var r := ParseValue(c, q, depth);
    var t := ValueFound(c, q, depth);
    var at := SkipSpace(c, r.next);
    SkippedWhite(c, r.next);
    if c[at] == COMMA {
      var more := ElemsFound(c, at, depth);
      var from := SkipSpace(c, at + 1);
      SkippedWhite(c, at + 1);
      items := [Item(t, c[r.next..at], c[at + 1..from])] + more;
      ItemsBuilt(t, c[r.next..at], c[at + 1..from], more);
      Between(c, at, from, ParseElems(c, at, depth).next);
      Joins(c, q, r.next, at, ParseElems(c, at, depth).next);
    } else {
      items := [Item(t, c[r.next..at], [])];
      NothingMore();
      ItemsBuilt(t, c[r.next..at], [], []);
      assert items == [Item(t, c[r.next..at], [])] + [] && c[at..at + 1] == [RBRACKET];
      Joins(c, q, r.next, at, at + 1);
    }
  }

  /** An item in front of others, or alone. */
  lemma ItemsBuilt(t: Tree, after: bytes, next: bytes, more: seq<Item>)
    requires TreeOk(t) && White(after) && White(next) && ItemsOk(more)
    ensures var items := [Item(t, after, next)] + more;
      && ItemsOk(items) && ItemsMean(items) == [Means(t)] + ItemsMean(more)
      && ItemsFrom(items) == Render(t) + (after + if more == [] then [RBRACKET] else [COMMA] + next + ItemsFrom(more))
  {
    hide TreeOk, Render, Means;
    assert ([Item(t, after, next)] + more)[1..] == more;
  }

  lemma NothingMore()
    ensures White([]) && ItemsOk([]) && ItemsMean([]) == [] && FieldsOk([]) && FieldsMean([]) == []
  {
  }

  lemma Joins(c: bytes, q: nat, next: nat, at: nat, end: nat)
    requires q <= next <= at <= end <= |c|
    ensures c[q..next] + (c[next..at] + c[at..end]) == c[q..end]
  {
  }

  lemma RecordBuilt(blank: bytes, fields: seq<Field>)
    requires White(blank) && FieldsOk(fields)
    ensures var t := Record(blank, fields);
      && TreeOk(t) && Means(t) == Obj(FieldsMean(fields))
      && Render(t) == [LBRACE] + blank + (if fields == [] then [RBRACE] else FieldsFrom(fields))
  {
    hide FieldsOk, FieldsFrom, FieldsMean;
  }

  lemma ObjectRead(c: bytes, i: nat, depth: nat)
    requires Terminated(c) && i < |c| && c[i] == LBRACE && ParseObject(c, i, depth).Ok?
    ensures i + 1 < |c| && i + 1 <= SkipSpace(c, i + 1)
    ensures var a := SkipSpace(c, i + 1);
      if c[a] == RBRACE then ParseObject(c, i, depth) == Ok(Obj([]), a + 1)
      else
        var r := ParseMembers(c, a - 1, depth + 1); r.Ok? && ParseObject(c, i, depth) == Ok(Obj(r.v), r.next)
  {
    hide ParseMembers, SkipSpace;
  }

  lemma {:induction false} RecordFound(c: bytes, i: nat, depth: nat) returns (t: Tree)
    requires Terminated(c) && i < |c| && c[i] == LBRACE && ParseObject(c, i, depth).Ok?
    ensures var r := ParseObject(c, i, depth); TreeOk(t) && Render(t) == c[i..r.next] && Means(t) == r.v
    decreases |c| - i, 2
  {
    hide ParseObject, ParseMembers, SkipSpace, FieldsOk, FieldsFrom, FieldsMean, TreeOk, Render, Means, White;
    ObjectRead(c, i, depth);
    var a := SkipSpace(c, i + 1);
    var blank := c[i + 1..a];
    SkippedWhite(c, i + 1);
    if c[a] == RBRACE {
      t := Record(blank, []);
      NothingMore();
      RecordBuilt(blank, []);
      NothingBetween(c, i, a);
    } else {
      var fields := MembersFound(c, a - 1, depth + 1);
      t := Record(blank, fields);
      RecordBuilt(blank, fields);
      Between(c, i, a, ParseMembers(c, a - 1, depth + 1).next);
    }
  }

  /** A member: the field's own text; what follows its value is still open. */
  lemma {:induction false} MemberFound(c: bytes, p: nat, depth: nat) returns (f: Field)
    requires Terminated(c) && p + 1 < |c| && ParseMember(c, p, depth).Ok?
    ensures var r := ParseMember(c, p, depth); var q := SkipSpace(c, p + 1);
      && f.item.after == [] && f.item.next == [] && KeyOk(f) && TreeOk(f.item.tree)
      && q <= r.next && FieldText(f) == c[q..r.next] && FieldMeans(f) == r.v
    decreases |c| - p, 0
  {
    hide ParseString, ParseValue, SkipSpace, TreeOk, Render, Means, White, LiteralOk, LiteralText, LiteralMeans;
    var q := SkipSpace(c, p + 1);
    var key := ParseString(c, q);
    StringInside(c, q);
    var colon := SkipSpace(c, key.next);
    var from := SkipSpace(c, colon + 1);
    var l := LiteralFound(c, q);
    var t := ValueFound(c, from, depth);
    SkippedWhite(c, key.next);
    SkippedWhite(c, colon + 1);
    NothingMore();
    f := Field(l, c[key.next..colon], c[colon + 1..from], Item(t, [], []));
    Between(c, colon, from, ParseValue(c, from, depth).next);
    Joins(c, q, key.next, colon, ParseValue(c, from, depth).next);
  }

  /** A field in front of others, or alone. */
  lemma FieldsBuilt(f: Field, after: bytes, next: bytes, more: seq<Field>)
    requires KeyOk(f) && TreeOk(f.item.tree) && White(after) && White(next) && FieldsOk(more)
    ensures var fields := [f.(item := Item(f.item.tree, after, next))] + more;
      && FieldsOk(fields) && FieldsMean(fields) == [FieldMeans(f)] + FieldsMean(more)
      && FieldsFrom(fields)
          == FieldText(f) + (after + if more == [] then [RBRACE] else [COMMA] + next + FieldsFrom(more))
  {
    hide TreeOk, Render, Means, LiteralOk, LiteralText, LiteralMeans;
    assert ([f.(item := Item(f.item.tree, after, next))] + more)[1..] == more;
  }

  lemma {:induction false} MembersFound(c: bytes, p: nat, depth: nat) returns (fields: seq<Field>)
    requires Terminated(c) && p + 1 < |c| && ParseMembers(c, p, depth).Ok?
    ensures var r := ParseMembers(c, p, depth); var q := SkipSpace(c, p + 1);
      FieldsOk(fields) && fields != [] && q <= r.next && FieldsFrom(fields) == c[q..r.next] && FieldsMean(fields) == r.v
    decreases |c| - p, 1
  {
    hide ParseMember, SkipSpace, TreeOk, KeyOk, FieldText, FieldMeans, White, FieldsOk, FieldsFrom, FieldsMean;
    var q := SkipSpace(c, p + 1);
    var r := ParseMember(c, p, depth);
    var f := MemberFound(c, p, depth);
    var at := SkipSpace(c, r.next);
    SkippedWhite(c, r.next);
    if c[at] == COMMA {
      var more := MembersFound(c, at, depth);
      var from := SkipSpace(c, at + 1);
      SkippedWhite(c, at + 1);
      fields := [f.(item := Item(f.item.tree, c[r.next..at], c[at + 1..from]))] + more;
      FieldsBuilt(f, c[r.next..at], c[at + 1..from], more);
      Between(c, at, from, ParseMembers(c, at, depth).next);
      Joins(c, q, r.next, at, ParseMembers(c, at, depth).next);
    } else {
      fields := [f.(item := Item(f.item.tree, c[r.next..at], []))];
      NothingMore();
      FieldsBuilt(f, c[r.next..at], [], []);
      assert fields == [f.(item := Item(f.item.tree, c[r.next..at], []))] + [] && c[at..at + 1] == [RBRACE];
      Joins(c, q, r.next, at, at + 1);
    }
  }

  // --- the whole text ---

  lemma TextFound(c: bytes) returns (bom: bool, lead: bytes, t: Tree, trail: bytes)
    requires Terminated(c) && ParseText(c, true).Ok?
    ensures TreeOk(t) && White(lead) && White(trail) && c == Document(bom, lead, t, trail)
    ensures Means(t) == ParseText(c, true).v
  {
    hide ParseValue, SkipSpace, SkipBom, TreeOk, Render, Means, White, Terminated;
    var from := SkipBom(c);
    var i := SkipSpace(c, from);
    var r := ParseValue(c, i, 0);
    t := ValueFound(c, i, 0);
    SkippedWhite(c, from);
    SkippedWhite(c, r.next);
    bom, lead, trail := from == 3, c[from..i], c[r.next..|c| - 1];
    AtNul(c, SkipSpace(c, r.next));
    BomThere(c);
    Parts(c, from, i, r.next);
  }

  lemma AtNul(c: bytes, q: nat)
    requires Terminated(c) && q < |c| && c[q] == NUL
    ensures q == |c| - 1
  {
  }

  lemma BomThere(c: bytes)
    ensures SkipBom(c) <= |c| && (SkipBom(c) == 0 || SkipBom(c) == 3)
    ensures c[..SkipBom(c)] == if SkipBom(c) == 3 then BOM else []
  {
  }

  lemma Parts(c: bytes, from: nat, i: nat, next: nat)
    requires Terminated(c) && from <= i <= next < |c|
    ensures c == c[..from] + (c[from..i] + (c[i..next] + (c[next..|c| - 1] + [NUL])))
  {
  }

  /**
   * A text is accepted, as the value v, exactly when it is a byte order mark or none, white space, the text of a tree
   * that denotes v, and white space, and v nests at most NESTING_LIMIT deep.
   */
  lemma AcceptedExactly(c: bytes, v: Value)
    requires Terminated(c)
    ensures ParseText(c, true) == Ok(v, |c| - 1) <==>
      exists bom, lead, t, trail :: TreeOk(t) && White(lead) && White(trail) && Nesting(v) <= NESTING_LIMIT
                                    && c == Document(bom, lead, t, trail) && Means(t) == v
  {
    hide ParseText, ParseValue, TreeOk, Document, Means, White, Nesting;
    if ParseText(c, true).Ok? {
      AcceptedBounded(c);
      var bom, lead, t, trail := TextFound(c);
      assert Means(t) == ParseText(c, true).v;
    }
    forall bom, lead, t, trail | TreeOk(t) && White(lead) && White(trail) && Nesting(v) <= NESTING_LIMIT
                                 && c == Document(bom, lead, t, trail) && Means(t) == v
      ensures ParseText(c, true) == Ok(v, |c| - 1)
    {
      TextParses(bom, lead, t, trail, true);
    }
  }

  lemma AcceptedBounded(c: bytes)
    requires Terminated(c) && ParseText(c, true).Ok?
    ensures Nesting(ParseText(c, true).v) <= NESTING_LIMIT && ParseText(c, true).next == |c| - 1
  {
    hide ParseValue, SkipSpace, SkipBom;
    ParsedValueBounded(c, SkipSpace(c, SkipBom(c)), 0);
  }
}
