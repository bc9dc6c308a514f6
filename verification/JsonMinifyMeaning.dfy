/** Minifying an accepted text keeps what it means. */
module JsonMinifyMeaning {
  import opened Basics
  import opened JsonText
  import opened JsonParse
  import opened JsonMinify

  /** The minified rest of c from i on is what stands in d from j on, up to its NUL. */
  predicate Left(c: bytes, i: nat, d: bytes, j: nat) {
    && Terminated(c) && i < |c| && Terminated(d) && j < |d|
    && Minified(c, i) == Some(d[j..|d| - 1])
  }

  // --- one step of the minifier ---

  lemma TakenOff(d: bytes, j: nat, w: bytes, rest: bytes)
    requires j < |d| && d[j..|d| - 1] == w + rest
    ensures j + |w| < |d| && d[j..j + |w|] == w && d[j + |w|..|d| - 1] == rest
  {
    assert |d[j..|d| - 1]| == |w| + |rest|;
    assert d[j..j + |w|] == d[j..|d| - 1][..|w|];
    assert d[j + |w|..|d| - 1] == d[j..|d| - 1][|w|..];
  }

  lemma PlainStep(c: bytes, i: nat, d: bytes, j: nat)
    requires Left(c, i, d, j) && Plain(c[i])
    ensures d[j] == c[i] && Left(c, i + 1, d, j + 1)
  {
    TakenOff(d, j, [c[i]], Minified(c, i + 1).value);
  }

  lemma AtEnd(c: bytes, i: nat, d: bytes, j: nat)
    requires Left(c, i, d, j) && c[i] == NUL
    ensures j == |d| - 1
  {
    assert |d[j..|d| - 1]| == 0;
  }

  lemma StringMinified(c: bytes, i: nat)
    requires Terminated(c) && i < |c| && c[i] == QUOTE && Minified(c, i).Some?
    ensures var e := FindClose(c, i + 1);
      && e.Some? && e.value + 1 < |c| && Minified(c, e.value + 1).Some?
      && Minified(c, i).value == c[i..e.value + 1] + Minified(c, e.value + 1).value
  {
    hide FindClose;
  }

  lemma StringStep(c: bytes, i: nat, d: bytes, j: nat)
    requires Left(c, i, d, j) && c[i] == QUOTE
    ensures var e := FindClose(c, i + 1);
      && e.Some? && e.value + 1 < |c| && Same(c, i, d, j, e.value + 1 - i)
      && Left(c, e.value + 1, d, j + (e.value + 1 - i))
  {
    hide FindClose, Minified, Terminated, Same;
    StringMinified(c, i);
    var end := FindClose(c, i + 1).value + 1;
    var w, rest := c[i..end], Minified(c, end).value;
    assert |w| == end - i;
    TakenOff(d, j, w, rest);
    SliceSame(c, i, d, j, |w|);
  }

  /** Both texts stand at the same byte, outside of a comment. */
  predicate Facing(c: bytes, i: nat, d: bytes, j: nat) { Left(c, i, d, j) && d[j] == c[i] }

  // --- white space ---

  lemma {:induction false} SpaceStep(c: bytes, i: nat, d: bytes, j: nat)
    requires Left(c, i, d, j) && c[SkipSpace(c, i)] != SLASH
    ensures Facing(c, SkipSpace(c, i), d, SkipSpace(d, j))
    decreases |c| - i
  {
    hide FindClose;
    if c[i] == NUL {
      AtEnd(c, i, d, j);
    } else if Dropped(c[i]) {
      SpaceStep(c, i + 1, d, j);
    } else if c[i] == QUOTE {
      StringStep(c, i, d, j);
    } else {
      PlainStep(c, i, d, j);
      if c[i] <= SPACE {
        SpaceStep(c, i + 1, d, j + 1);
      }
    }
  }

  // --- strings ---

  lemma Hex4Same(c: bytes, i: nat, d: bytes, j: nat)
    requires Same(c, i, d, j, 4)
    ensures Hex4(c, i) == Hex4(d, j)
  {
  }

  lemma EscapeSame(c: bytes, p: nat, d: bytes, q: nat, n: nat)
    requires Same(c, p, d, q, n + 1)
    ensures Utf16Escape(c, p, p + n) == Utf16Escape(d, q, q + n)
  {
    hide Hex4;
    if n >= 6 {
      SameTail(c, p, d, q, n + 1, 2);
      Hex4Same(c, p + 2, d, q + 2);
    }
    if n >= 12 {
      SameTail(c, p, d, q, n + 1, 8);
      Hex4Same(c, p + 8, d, q + 8);
    }
  }

  /** A string body decodes to the same bytes wherever it stands. */
  lemma {:induction false} UnescapeSame(c: bytes, p: nat, d: bytes, q: nat, n: nat)
    requires Same(c, p, d, q, n + 1) && Unescape(c, p, p + n).Bytes?
    ensures Unescape(d, q, q + n) == Unescape(c, p, p + n)
    decreases n
  {
    hide Utf16Escape;
    if n > 0 {
      EscapeSame(c, p, d, q, n);
      assert UnescapeOne(d, q, q + n) == UnescapeOne(c, p, p + n);
      var used := UnescapeOne(c, p, p + n).value.used;
      if used <= n {
        SameTail(c, p, d, q, n + 1, used);
        UnescapeSame(c, p + used, d, q + used, n - used);
      }
    }
  }

  lemma StringSame(c: bytes, i: nat, d: bytes, j: nat)
    requires Left(c, i, d, j) && ParseString(c, i).Ok?
    ensures var r := ParseString(c, i); var s := ParseString(d, j);
      s.Ok? && s.v == r.v && r.next < |c| && Left(c, r.next, d, s.next)
  {
    hide FindClose, Unescape, Minified;
    StringStep(c, i, d, j);
    var e := FindClose(c, i + 1).value;
    SameTail(c, i, d, j, e + 1 - i, 1);
    CloseSame(c, i + 1, d, j + 1, e);
    UnescapeSame(c, i + 1, d, j + 1, e - (i + 1));
  }

  // --- numbers and words ---

  /** What follows a value of an accepted text, behind white space. */
  predicate Follows(c: bytes, i: nat)
    requires i < |c|
  {
    var b := c[SkipSpace(c, i)];
    b == COMMA || b == RBRACKET || b == RBRACE || b == NUL
  }

  lemma NothingNumeric(c: bytes, i: nat)
    requires i < |c| && Follows(c, i)
    ensures !NumberByte(c[i])
  {
  }

  lemma {:induction false} PlainSteps(c: bytes, i: nat, d: bytes, j: nat, n: nat)
    requires Left(c, i, d, j) && i + n <= |c| && forall k :: i <= k < i + n ==> Plain(c[k])
    ensures i + n < |c| && Left(c, i + n, d, j + n) && Same(c, i, d, j, n)
    decreases n
  {
    if n > 0 {
      PlainStep(c, i, d, j);
      PlainSteps(c, i + 1, d, j + 1, n - 1);
    }
  }

  lemma {:induction false} RunPlain(c: bytes, i: nat, stop: nat)
    requires i <= |c|
    ensures var n := NumberRun(c, i, stop); forall k :: i <= k < i + n ==> Plain(c[k]) && NumberByte(c[k])
    decreases stop - i
  {
    if i < stop && i < |c| && NumberByte(c[i]) {
      RunPlain(c, i + 1, stop);
    }
  }

  lemma {:induction false} RunSame(c: bytes, i: nat, d: bytes, j: nat, n: nat, room: nat)
    requires Same(c, i, d, j, n) && n == NumberRun(c, i, i + room) && (j + n < |d| ==> !NumberByte(d[j + n]))
    ensures NumberRun(d, j, j + room) == n
    decreases n
  {
    if n > 0 {
      SameTail(c, i, d, j, n, 1);
      RunSame(c, i + 1, d, j + 1, n - 1, room - 1);
    }
  }

  lemma NumberSame(c: bytes, i: nat, d: bytes, j: nat)
    requires Left(c, i, d, j) && ParseNumber(c, i).Ok?
    requires ParseNumber(c, i).next < |c| && Follows(c, ParseNumber(c, i).next)
    ensures var r := ParseNumber(c, i); var s := ParseNumber(d, j);
      s.Ok? && s.v == r.v && s.next < |d| && Left(c, r.next, d, s.next)
  {
    hide Strtod, NumberRun, Minified;
    var r, n := ParseNumber(c, i), NumberRun(c, i, i + NUMBER_ROOM);
    RunPlain(c, i, i + NUMBER_ROOM);
    NothingNumeric(c, r.next);
    assert r.next == i + n;
    PlainSteps(c, i, d, j, n);
    SpaceStep(c, i + n, d, j + n);
    NothingNumeric(d, j + n);
    RunSame(c, i, d, j, n, NUMBER_ROOM);
    assert d[j..j + n] == c[i..i + n];
  }

  lemma WordSame(c: bytes, i: nat, d: bytes, j: nat, word: bytes)
    requires Left(c, i, d, j) && StartsAt(c, i, word) && forall k :: 0 <= k < |word| ==> Plain(word[k])
    ensures i + |word| < |c| && Left(c, i + |word|, d, j + |word|) && StartsAt(d, j, word)
  {
    hide Minified;
    forall k | i <= k < i + |word| ensures Plain(c[k]) {
      assert c[i + (k - i)] == word[k - i];
    }
    PlainSteps(c, i, d, j, |word|);
  }

  // --- values ---

  /** The text at j in d is read as that at i in c, and both stand behind it. */
  predicate Agree<T(==)>(r: Parsed<T>, s: Parsed<T>, c: bytes, d: bytes) {
    r.Ok? && s.Ok? && s.v == r.v && Left(c, r.next, d, s.next)
  }

  lemma NotAWord(c: bytes, i: nat)
    requires i < |c|
    ensures c[i] != 110 ==> !StartsAt(c, i, NULL_TEXT)
    ensures c[i] != 102 ==> !StartsAt(c, i, FALSE_TEXT)
    ensures c[i] != 116 ==> !StartsAt(c, i, TRUE_TEXT)
  {
    assert StartsAt(c, i, NULL_TEXT) ==> c[i + 0] == NULL_TEXT[0];
    assert StartsAt(c, i, FALSE_TEXT) ==> c[i + 0] == FALSE_TEXT[0];
    assert StartsAt(c, i, TRUE_TEXT) ==> c[i + 0] == TRUE_TEXT[0];
  }

  lemma ValueHead(c: bytes, i: nat, depth: nat)
    requires Terminated(c) && i < |c| && ParseValue(c, i, depth).Ok?
    ensures var b := c[i];
      b == 110 || b == 102 || b == 116 || b == QUOTE || b == MINUS || Digit(b) || b == LBRACKET || b == LBRACE
    ensures c[i] == 110 ==> StartsAt(c, i, NULL_TEXT)
    ensures c[i] == 102 ==> StartsAt(c, i, FALSE_TEXT)
    ensures c[i] == 116 ==> StartsAt(c, i, TRUE_TEXT)
  {
    NotAWord(c, i);
  }

  lemma {:induction false} ValueSame(c: bytes, i: nat, d: bytes, j: nat, depth: nat)
    requires Facing(c, i, d, j) && ParseValue(c, i, depth).Ok? && Follows(c, ParseValue(c, i, depth).next)
    ensures Agree(ParseValue(c, i, depth), ParseValue(d, j, depth), c, d)
    decreases |c| - i, 3
  {
    hide Minified, StartsAt, ParseString, ParseNumber, ParseArray, ParseObject;
    ValueHead(c, i, depth);
    NotAWord(c, i);
    NotAWord(d, j);
    if c[i] == 110 {
      WordSame(c, i, d, j, NULL_TEXT);
    } else if c[i] == 102 {
      WordSame(c, i, d, j, FALSE_TEXT);
    } else if c[i] == 116 {
      WordSame(c, i, d, j, TRUE_TEXT);
    } else if c[i] == QUOTE {
      StringSame(c, i, d, j);
    } else if c[i] == LBRACKET {
      ArraySame(c, i, d, j, depth);
    } else if c[i] == LBRACE {
      ObjectSame(c, i, d, j, depth);
    } else {
      NumberSame(c, i, d, j);
    }
  }

  lemma {:induction false} ArraySame(c: bytes, i: nat, d: bytes, j: nat, depth: nat)
    requires Facing(c, i, d, j) && c[i] == LBRACKET && ParseArray(c, i, depth).Ok?
    ensures Agree(ParseArray(c, i, depth), ParseArray(d, j, depth), c, d)
    decreases |c| - i, 2
  {
    hide Minified, ParseValue, ParseElems, SkipSpace;
    PlainStep(c, i, d, j);
    var a := SkipSpace(c, i + 1);
    if c[a] != RBRACKET {
      ElemsHead(c, a - 1, depth + 1);
    }
    SpaceStep(c, i + 1, d, j + 1);
    if c[a] == RBRACKET {
      PlainStep(c, a, d, SkipSpace(d, j + 1));
    } else {
      ElemsSame(c, a - 1, d, SkipSpace(d, j + 1) - 1, depth + 1);
    }
  }

  lemma ElemsHead(c: bytes, p: nat, depth: nat)
    requires Terminated(c) && p + 1 < |c| && ParseElems(c, p, depth).Ok?
    ensures c[p + 1] != SLASH && c[SkipSpace(c, p + 1)] != SLASH && ParseValue(c, SkipSpace(c, p + 1), depth).Ok?
  {
    hide ParseValue;
    ValueHead(c, SkipSpace(c, p + 1), depth);
  }

  lemma {:induction false} ElemsSame(c: bytes, p: nat, d: bytes, q: nat, depth: nat)
    requires Left(c, p + 1, d, q + 1) && ParseElems(c, p, depth).Ok?
    ensures Agree(ParseElems(c, p, depth), ParseElems(d, q, depth), c, d)
    decreases |c| - p, 0
  {
    hide Minified, ParseValue, SkipSpace;
    ElemsHead(c, p, depth);
    SpaceStep(c, p + 1, d, q + 1);
    var v, w := ParseValue(c, SkipSpace(c, p + 1), depth), ParseValue(d, SkipSpace(d, q + 1), depth);
    ValueSame(c, SkipSpace(c, p + 1), d, SkipSpace(d, q + 1), depth);
    SpaceStep(c, v.next, d, w.next);
    PlainStep(c, SkipSpace(c, v.next), d, SkipSpace(d, w.next));
    if c[SkipSpace(c, v.next)] == COMMA {
      ElemsSame(c, SkipSpace(c, v.next), d, SkipSpace(d, w.next), depth);
    }
  }

  lemma {:induction false} ObjectSame(c: bytes, i: nat, d: bytes, j: nat, depth: nat)
    requires Facing(c, i, d, j) && c[i] == LBRACE && ParseObject(c, i, depth).Ok?
    ensures Agree(ParseObject(c, i, depth), ParseObject(d, j, depth), c, d)
    decreases |c| - i, 2
  {
    hide Minified, ParseMember, ParseMembers, SkipSpace;
    PlainStep(c, i, d, j);
    var a := SkipSpace(c, i + 1);
    if c[a] != RBRACE {
      MembersHead(c, a - 1, depth + 1);
    }
    SpaceStep(c, i + 1, d, j + 1);
    if c[a] == RBRACE {
      PlainStep(c, a, d, SkipSpace(d, j + 1));
    } else {
      MembersSame(c, a - 1, d, SkipSpace(d, j + 1) - 1, depth + 1);
    }
  }

  lemma MembersHead(c: bytes, p: nat, depth: nat)
    requires Terminated(c) && p + 1 < |c| && ParseMembers(c, p, depth).Ok?
    ensures c[p + 1] != SLASH && c[SkipSpace(c, p + 1)] == QUOTE && ParseMember(c, p, depth).Ok?
  {
    hide ParseValue;
  }

  lemma {:induction false} MembersSame(c: bytes, p: nat, d: bytes, q: nat, depth: nat)
    requires Left(c, p + 1, d, q + 1) && ParseMembers(c, p, depth).Ok?
    ensures Agree(ParseMembers(c, p, depth), ParseMembers(d, q, depth), c, d)
    decreases |c| - p, 1
  {
    hide Minified, ParseMember, SkipSpace;
    var m, w := ParseMember(c, p, depth), ParseMember(d, q, depth);
    MemberSame(c, p, d, q, depth);
    SpaceStep(c, m.next, d, w.next);
    PlainStep(c, SkipSpace(c, m.next), d, SkipSpace(d, w.next));
    if c[SkipSpace(c, m.next)] == COMMA {
      MembersSame(c, SkipSpace(c, m.next), d, SkipSpace(d, w.next), depth);
    }
  }

  lemma {:induction false} MemberSame(c: bytes, p: nat, d: bytes, q: nat, depth: nat)
    requires Left(c, p + 1, d, q + 1) && ParseMember(c, p, depth).Ok? && Follows(c, ParseMember(c, p, depth).next)
    ensures Agree(ParseMember(c, p, depth), ParseMember(d, q, depth), c, d)
    decreases |c| - p, 0
  {
    hide Minified, ParseString, ParseValue, SkipSpace;
    var i, j := SkipSpace(c, p + 1), SkipSpace(d, q + 1);
    KeyHead(c, i);
    SpaceStep(c, p + 1, d, q + 1);
    StringSame(c, i, d, j);
    var key, same := ParseString(c, i), ParseString(d, j);
    var colon, facing := SkipSpace(c, key.next), SkipSpace(d, same.next);
    SpaceStep(c, key.next, d, same.next);
    PlainStep(c, colon, d, facing);
    ValueHead(c, SkipSpace(c, colon + 1), depth);
    SpaceStep(c, colon + 1, d, facing + 1);
    ValueSame(c, SkipSpace(c, colon + 1), d, SkipSpace(d, facing + 1), depth);
  }

  lemma KeyHead(c: bytes, i: nat)
    requires i < |c| && ParseString(c, i).Ok?
    ensures c[i] == QUOTE
  {
  }

  // --- the whole text ---

  /** A byte order mark stays in front. */
  lemma BomSame(c: bytes, d: bytes)
    requires Left(c, 0, d, 0) && ParseValue(c, SkipSpace(c, SkipBom(c)), 0).Ok?
    ensures SkipBom(d) == SkipBom(c) && Facing(c, SkipSpace(c, SkipBom(c)), d, SkipSpace(d, SkipBom(d)))
  {
    hide Minified, ParseValue, SkipSpace;
    ValueHead(c, SkipSpace(c, SkipBom(c)), 0);
    if SkipBom(c) == 3 {
      assert c[..3][0] == 0xEF && c[..3][1] == 0xBB && c[..3][2] == 0xBF;
      PlainSteps(c, 0, d, 0, 3);
      assert d[..3] == c[..3];
      SpaceStep(c, 3, d, 3);
    } else {
      SpaceStep(c, 0, d, 0);
      NoBom(d);
    }
  }

  lemma BomFirst(d: bytes)
    ensures SkipBom(d) == 3 ==> d[0] == 0xEF
  {
    if SkipBom(d) == 3 {
      assert d[..3][0] == 0xEF;
    }
  }

  lemma NoBom(d: bytes)
    requires Terminated(d) && d[SkipSpace(d, 0)] != 0xEF
    ensures SkipBom(d) == 0
  {
    BomFirst(d);
  }

  lemma {:induction false} MinifiedNulFree(c: bytes, i: nat)
    requires Terminated(c) && i < |c| && Minified(c, i).Some?
    ensures NulFree(Minified(c, i).value)
    decreases |c| - i
  {
    hide FindClose, LineEnd, CommentEnd;
    if c[i] == NUL {
    } else if Dropped(c[i]) {
      MinifiedNulFree(c, i + 1);
    } else if c[i] == SLASH && c[i + 1] == SLASH {
      MinifiedNulFree(c, LineEnd(c, i));
    } else if c[i] == SLASH && c[i + 1] == STAR {
      MinifiedNulFree(c, CommentEnd(c, i) + 2);
    } else if c[i] == QUOTE {
      MinifiedNulFree(c, FindClose(c, i + 1).value + 1);
    } else {
      MinifiedNulFree(c, i + 1);
    }
  }

  lemma Minifying(c: bytes)
    requires Terminated(c) && Minified(c, 0).Some?
    ensures Left(c, 0, Minified(c, 0).value + [NUL], 0)
  {
    MinifiedNulFree(c, 0);
    var t := Minified(c, 0).value;
    assert (t + [NUL])[0..|t + [NUL]| - 1] == t;
  }

  lemma TextSame(c: bytes)
    requires Terminated(c) && ParseText(c, true).Ok? && Minified(c, 0).Some?
    ensures var t := Minified(c, 0).value;
      Terminated(t + [NUL]) && ParseText(t + [NUL], true) == Ok(ParseText(c, true).v, |t|)
  {
    hide Minified, ParseValue, SkipSpace, SkipBom;
    var d := Minified(c, 0).value + [NUL];
    Minifying(c);
    BomSame(c, d);
    var i, j := SkipSpace(c, SkipBom(c)), SkipSpace(d, SkipBom(d));
    ValueSame(c, i, d, j, 0);
    var v, w := ParseValue(c, i, 0), ParseValue(d, j, 0);
    SpaceStep(c, v.next, d, w.next);
    AtEnd(c, SkipSpace(c, v.next), d, SkipSpace(d, w.next));
  }

  // --- an accepted text has no comments and its strings are closed ---

  predicate Closed(c: bytes, i: nat) { Terminated(c) && i < |c| && Minified(c, i).Some? }

  lemma {:induction false} SpaceClosed(c: bytes, i: nat)
    requires Terminated(c) && i < |c| && c[SkipSpace(c, i)] != SLASH && Closed(c, SkipSpace(c, i))
    ensures Closed(c, i)
    decreases |c| - i
  {
    hide FindClose, LineEnd, CommentEnd;
    if c[i] != NUL && c[i] <= SPACE {
      SpaceClosed(c, i + 1);
    }
  }

  lemma {:induction false} PlainClosed(c: bytes, i: nat, n: nat)
    requires Closed(c, i + n) && forall k :: i <= k < i + n ==> Plain(c[k])
    ensures Closed(c, i)
    decreases n
  {
    if n > 0 {
      PlainClosed(c, i + 1, n - 1);
    }
  }

  lemma StringClosed(c: bytes, i: nat)
    requires Terminated(c) && i < |c| && ParseString(c, i).Ok? && Closed(c, ParseString(c, i).next)
    ensures Closed(c, i)
  {
    hide FindClose, Unescape;
  }

  lemma WordClosed(c: bytes, i: nat, word: bytes)
    requires StartsAt(c, i, word) && Closed(c, i + |word|) && forall k :: 0 <= k < |word| ==> Plain(word[k])
    ensures Closed(c, i)
  {
    hide Minified;
    forall k | i <= k < i + |word| ensures Plain(c[k]) {
      assert c[i + (k - i)] == word[k - i];
    }
    PlainClosed(c, i, |word|);
  }

  lemma NumberClosed(c: bytes, i: nat)
    requires Terminated(c) && i < |c| && ParseNumber(c, i).Ok? && Closed(c, ParseNumber(c, i).next)
    ensures Closed(c, i)
  {
    hide Minified, NumberRun, ParseNumber;
    RunPlain(c, i, i + NUMBER_ROOM);
    PlainClosed(c, i, ParseNumber(c, i).next - i);
  }

  lemma {:induction false} ValueClosed(c: bytes, i: nat, depth: nat)
    requires Terminated(c) && i < |c| && ParseValue(c, i, depth).Ok? && Closed(c, ParseValue(c, i, depth).next)
    ensures Closed(c, i)
    decreases |c| - i, 3
  {
    hide Minified, StartsAt, ParseString, ParseNumber, ParseArray, ParseObject, SkipSpace;
    ValueHead(c, i, depth);
    NotAWord(c, i);
    if c[i] == 110 {
      WordClosed(c, i, NULL_TEXT);
    } else if c[i] == 102 {
      WordClosed(c, i, FALSE_TEXT);
    } else if c[i] == 116 {
      WordClosed(c, i, TRUE_TEXT);
    } else if c[i] == QUOTE {
      StringClosed(c, i);
    } else if c[i] == LBRACKET {
      ArrayClosed(c, i, depth);
    } else if c[i] == LBRACE {
      ObjectClosed(c, i, depth);
    } else {
      NumberClosed(c, i);
    }
  }

  lemma {:induction false} ArrayClosed(c: bytes, i: nat, depth: nat)
    requires Terminated(c) && i < |c| && c[i] == LBRACKET
    requires ParseArray(c, i, depth).Ok? && Closed(c, ParseArray(c, i, depth).next)
    ensures Closed(c, i)
    decreases |c| - i, 2
  {
    hide Minified, ParseElems, SkipSpace;
    var a := SkipSpace(c, i + 1);
    if c[a] == RBRACKET {
      PlainClosed(c, a, 1);
    } else {
      ElemsHead(c, a - 1, depth + 1);
      ElemsClosed(c, a - 1, depth + 1);
    }
    SpaceClosed(c, i + 1);
    PlainClosed(c, i, 1);
  }

  lemma {:induction false} ElemsClosed(c: bytes, p: nat, depth: nat)
    requires Terminated(c) && p + 1 < |c| && ParseElems(c, p, depth).Ok? && Closed(c, ParseElems(c, p, depth).next)
    ensures Closed(c, p + 1)
    decreases |c| - p, 0
  {
    hide Minified, ParseValue, SkipSpace;
    ElemsHead(c, p, depth);
    var next := ParseValue(c, SkipSpace(c, p + 1), depth).next;
    if c[SkipSpace(c, next)] == COMMA {
      ElemsClosed(c, SkipSpace(c, next), depth);
    }
    PlainClosed(c, SkipSpace(c, next), 1);
    SpaceClosed(c, next);
    ValueClosed(c, SkipSpace(c, p + 1), depth);
    SpaceClosed(c, p + 1);
  }

  lemma {:induction false} ObjectClosed(c: bytes, i: nat, depth: nat)
    requires Terminated(c) && i < |c| && c[i] == LBRACE
    requires ParseObject(c, i, depth).Ok? && Closed(c, ParseObject(c, i, depth).next)
    ensures Closed(c, i)
    decreases |c| - i, 2
  {
    hide Minified, ParseMembers, SkipSpace;
    var a := SkipSpace(c, i + 1);
    if c[a] == RBRACE {
      PlainClosed(c, a, 1);
    } else {
      MembersHead(c, a - 1, depth + 1);
      MembersClosed(c, a - 1, depth + 1);
    }
    SpaceClosed(c, i + 1);
    PlainClosed(c, i, 1);
  }

  lemma {:induction false} MembersClosed(c: bytes, p: nat, depth: nat)
    requires Terminated(c) && p + 1 < |c| && ParseMembers(c, p, depth).Ok? && Closed(c, ParseMembers(c, p, depth).next)
    ensures Closed(c, p + 1)
    decreases |c| - p, 1
  {
    hide Minified, ParseMember, SkipSpace;
    var next := ParseMember(c, p, depth).next;
    if c[SkipSpace(c, next)] == COMMA {
      MembersClosed(c, SkipSpace(c, next), depth);
    }
    PlainClosed(c, SkipSpace(c, next), 1);
    SpaceClosed(c, next);
    MemberClosed(c, p, depth);
  }

  lemma {:induction false} MemberClosed(c: bytes, p: nat, depth: nat)
    requires Terminated(c) && p + 1 < |c| && ParseMember(c, p, depth).Ok? && Closed(c, ParseMember(c, p, depth).next)
    ensures Closed(c, p + 1)
    decreases |c| - p, 0
  {
    hide Minified, ParseString, ParseValue, SkipSpace;
    var i := SkipSpace(c, p + 1);
    KeyHead(c, i);
    var afterKey := ParseString(c, i).next;
    var colon := SkipSpace(c, afterKey);
    ValueHead(c, SkipSpace(c, colon + 1), depth);
    ValueClosed(c, SkipSpace(c, colon + 1), depth);
    SpaceClosed(c, colon + 1);
    PlainClosed(c, colon, 1);
    SpaceClosed(c, afterKey);
    StringClosed(c, i);
    SpaceClosed(c, p + 1);
  }

  lemma TextClosed(c: bytes)
    requires Terminated(c) && ParseText(c, true).Ok?
    ensures Closed(c, 0)
  {
    hide Minified, ParseValue, SkipSpace, SkipBom;
    var i := SkipSpace(c, SkipBom(c));
    var next := ParseValue(c, i, 0).next;
    LastByte(c);
    SpaceClosed(c, next);
    ValueHead(c, i, 0);
    ValueClosed(c, i, 0);
    SpaceClosed(c, SkipBom(c));
    BomClosed(c);
  }

  lemma LastByte(c: bytes)
    requires Terminated(c)
    ensures Closed(c, |c| - 1)
  {
  }

  lemma BomClosed(c: bytes)
    requires Closed(c, SkipBom(c))
    ensures Closed(c, 0)
  {
    hide Minified;
    if SkipBom(c) == 3 {
      assert c[..3][0] == 0xEF && c[..3][1] == 0xBB && c[..3][2] == 0xBF;
      PlainClosed(c, 0, 3);
    }
  }

  /** Every accepted text can be minified, and the minified text is accepted as the same value, to its end. */
  lemma MinifyKeepsMeaning(c: bytes)
    requires Terminated(c) && ParseText(c, true).Ok?
    ensures Minified(c, 0).Some?
    ensures var t := Minified(c, 0).value;
      Terminated(t + [NUL]) && ParseText(t + [NUL], true) == Ok(ParseText(c, true).v, |t|)
  {
    hide Minified, ParseText, Terminated;
    TextClosed(c);
    TextSame(c);
  }
}
