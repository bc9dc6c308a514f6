/** What minifying does to any text at all: blanks and comments go, string literals and other bytes stay. */
module JsonComments {
  import opened Basics
  import opened JsonText
  import opened JsonParse
  import opened JsonMinify
  import opened JsonMinifyMeaning

  // --- texts in parts ---

  datatype InString = Raw(b: byte) | Slashed(b: byte)

  /**
   * A piece of a text. A line comment goes up to its line break, which is not part of it. The middle of a block
   * comment is everything between its two slashes: it begins and ends with a star, and one star can be both.
   */
  datatype Part =
    | Blank(b: byte)
    | LineComment(body: bytes)
    | BlockComment(middle: bytes)
    | StringLit(chars: seq<InString>)
    | Other(b: byte)

  function CharsSpelled(chars: seq<InString>): bytes {
    if chars == [] then []
    else (if chars[0].Raw? then [chars[0].b] else ['\\' as int, chars[0].b]) + CharsSpelled(chars[1..])
  }

  function Spelled(p: Part): bytes {
    match p
    case Blank(b) => [b]
    case LineComment(body) => ['/' as int, '/' as int] + body
    case BlockComment(middle) => ['/' as int] + middle + ['/' as int]
    case StringLit(chars) => ['"' as int] + CharsSpelled(chars) + ['"' as int]
    case Other(b) => [b]
  }

  function SpelledAll(ps: seq<Part>): bytes {
    if ps == [] then [] else Spelled(ps[0]) + SpelledAll(ps[1..])
  }

  function KeptOf(p: Part): bytes { if p.StringLit? || p.Other? then Spelled(p) else [] }

  function KeptAll(ps: seq<Part>): bytes {
    if ps == [] then [] else KeptOf(ps[0]) + KeptAll(ps[1..])
  }

  predicate BlankByte(b: byte) { b == ' ' as int || b == '\t' as int || b == '\r' as int || b == '\n' as int }

  predicate InStringOk(x: InString) {
    x.b != NUL && (x.Raw? ==> x.b != '"' as int && x.b != '\\' as int)
  }

  /** A piece in front of the text `rest`. */
  predicate PartOk(p: Part, rest: bytes) {
    match p
    case Blank(b) => BlankByte(b)
    case LineComment(body) =>
      (forall k :: 0 <= k < |body| ==> body[k] != NUL && body[k] != 10) && (rest == [] || rest[0] == 10)
    case BlockComment(middle) =>
      && middle != [] && middle[0] == '*' as int && middle[|middle| - 1] == '*' as int
      && NulFree(middle) && forall k :: 0 <= k < |middle| ==> !Closing(middle, k)
    case StringLit(chars) => forall k :: 0 <= k < |chars| ==> InStringOk(chars[k])
    case Other(b) =>
      && b != NUL && !BlankByte(b) && b != '"' as int
      && (b == '/' as int && rest != [] ==> rest[0] != '/' as int && rest[0] != '*' as int)
  }

  predicate PartsOk(ps: seq<Part>) {
    ps == [] || (PartOk(ps[0], SpelledAll(ps[1..])) && PartsOk(ps[1..]))
  }

  /** rest is what is left of c from i on, up to the NUL. */
  predicate Rest(c: bytes, i: nat, rest: bytes) {
    Terminated(c) && i < |c| && c[i..|c| - 1] == rest
  }

  lemma RestBehind(c: bytes, i: nat, w: bytes, rest: bytes)
    requires Rest(c, i, w + rest)
    ensures StartsAt(c, i, w) && i + |w| < |c| && Rest(c, i + |w|, rest)
    ensures rest != [] ==> c[i + |w|] == rest[0]
    ensures rest == [] ==> c[i + |w|] == NUL
  {
    var t := c[i..|c| - 1];
    assert |t| == |w| + |rest|;
    forall k | 0 <= k < |w| ensures c[i + k] == w[k] {
      assert c[i + k] == t[k] == (w + rest)[k];
    }
    assert c[i + |w|..|c| - 1] == t[|w|..] == rest;
    assert rest != [] ==> c[i + |w|] == c[i + |w|..|c| - 1][0];
  }

  // --- a text in parts is minified to the parts it keeps ---

  lemma {:induction false} CharsClose(chars: seq<InString>, c: bytes, i: nat)
    requires forall k :: 0 <= k < |chars| ==> InStringOk(chars[k])
    requires StartsAt(c, i, CharsSpelled(chars)) && i + |CharsSpelled(chars)| < |c|
    requires c[i + |CharsSpelled(chars)|] == QUOTE
    ensures FindClose(c, i) == Some(i + |CharsSpelled(chars)|)
    decreases |chars|
  {
    hide StartsAt;
    if chars != [] {
      var w := if chars[0].Raw? then [chars[0].b] else ['\\' as int, chars[0].b];
      StartsAtConcat(c, i, w, CharsSpelled(chars[1..]));
      StartsAtByte(c, i, w, 0);
      if chars[0].Slashed? {
        StartsAtByte(c, i, w, 1);
      }
      CharsClose(chars[1..], c, i + |w|);
    }
  }

  lemma StringPartKept(chars: seq<InString>, c: bytes, i: nat, rest: bytes)
    requires PartOk(StringLit(chars), rest) && Rest(c, i, Spelled(StringLit(chars)) + rest)
    ensures var w := Spelled(StringLit(chars)); i + |w| < |c| && Minified(c, i) == Glue(w, Minified(c, i + |w|))
  {
    hide StartsAt, FindClose, CharsSpelled, Rest, InStringOk;
    var w, body := Spelled(StringLit(chars)), CharsSpelled(chars);
    RestBehind(c, i, w, rest);
    StartsAtRegroup(c, i, [QUOTE], body, [QUOTE]);
    StartsAtConcat(c, i + 1, body, [QUOTE]);
    StartsAtByte(c, i, [QUOTE], 0);
    StartsAtByte(c, i + 1 + |body|, [QUOTE], 0);
    RestTerminated(c, i, w + rest);
    CharsClose(chars, c, i + 1);
    StartsAtSlice(c, i, w);
  }

  lemma RestTerminated(c: bytes, i: nat, rest: bytes)
    requires Rest(c, i, rest)
    ensures Terminated(c)
  {
  }

  lemma LineDropped(body: bytes, c: bytes, i: nat, rest: bytes)
    requires PartOk(LineComment(body), rest) && Rest(c, i, Spelled(LineComment(body)) + rest)
    ensures i + 2 + |body| < |c| && Minified(c, i) == Minified(c, i + 2 + |body|)
  {
    hide LineEnd;
    var w := Spelled(LineComment(body));
    RestBehind(c, i, w, rest);
    assert c[i + 0] == w[0] && c[i + 1] == w[1];
    forall k | i <= k < i + |w| ensures c[k] != NUL && c[k] != 10 {
      assert c[i + (k - i)] == w[k - i];
    }
    LineEndExactly(c, i, i + |w|);
  }

  lemma BlockDropped(middle: bytes, c: bytes, i: nat, rest: bytes)
    requires PartOk(BlockComment(middle), rest) && Rest(c, i, Spelled(BlockComment(middle)) + rest)
    ensures i + 2 + |middle| < |c| && Minified(c, i) == Minified(c, i + 2 + |middle|)
  {
    hide CommentEnd;
    var w, j := Spelled(BlockComment(middle)), i + |middle|;
    RestBehind(c, i, w, rest);
    assert c[i + 0] == w[0] && c[i + 1] == w[1];
    assert c[i + |middle|] == w[|middle|] && c[i + (|middle| + 1)] == w[|middle| + 1];
    forall k | i <= k < j ensures c[k] != NUL && !Closing(c, k) {
      assert c[i + (k - i)] == w[k - i] && c[i + (k + 1 - i)] == w[k + 1 - i];
      assert k > i ==> !Closing(middle, k - i - 1);
    }
    CommentEndExactly(c, i, j);
  }

  /** A part at the front is dropped or kept. */
  lemma PartMinified(p: Part, c: bytes, i: nat, rest: bytes)
    requires PartOk(p, rest) && Rest(c, i, Spelled(p) + rest)
    ensures i + |Spelled(p)| < |c| && Minified(c, i) == Glue(KeptOf(p), Minified(c, i + |Spelled(p)|))
  {
    hide LineEnd, CommentEnd, FindClose, CharsSpelled;
    RestBehind(c, i, Spelled(p), rest);
    GlueNothing(Minified(c, i + |Spelled(p)|));
    match p
    case Blank(b) => StartsAtByte(c, i, [b], 0);
    case LineComment(body) => LineDropped(body, c, i, rest);
    case BlockComment(middle) => BlockDropped(middle, c, i, rest);
    case StringLit(chars) => StringPartKept(chars, c, i, rest);
    case Other(b) => StartsAtByte(c, i, [b], 0);
  }

  lemma {:induction false} PartsMinified(ps: seq<Part>, c: bytes, i: nat)
    requires PartsOk(ps) && Rest(c, i, SpelledAll(ps))
    ensures Minified(c, i) == Some(KeptAll(ps))
    decreases ps
  {
    hide Minified, PartOk, Spelled, KeptOf, Rest;
    if ps == [] {
      NothingLeft(c, i);
    } else {
      RestBehind(c, i, Spelled(ps[0]), SpelledAll(ps[1..]));
      RestTerminated(c, i, SpelledAll(ps));
      PartMinified(ps[0], c, i, SpelledAll(ps[1..]));
      PartsMinified(ps[1..], c, i + |Spelled(ps[0])|);
    }
  }

  lemma NothingLeft(c: bytes, i: nat)
    requires Rest(c, i, [])
    ensures Minified(c, i) == Some([])
  {
    assert |c[i..|c| - 1]| == 0;
  }

  // --- a text that can be minified is made of parts ---

  lemma {:induction false} CharsThere(c: bytes, i: nat, e: nat) returns (chars: seq<InString>)
    requires Terminated(c) && i < |c| && FindClose(c, i) == Some(e)
    ensures CharsSpelled(chars) == c[i..e] && forall k :: 0 <= k < |chars| ==> InStringOk(chars[k])
    decreases |c| - i
  {
    chars := [];
    if i < e {
      var n := if c[i] == BACKSLASH then 2 else 1;
      var rest := CharsThere(c, i + n, e);
      chars := [if n == 2 then Slashed(c[i + 1]) else Raw(c[i])] + rest;
      assert chars[1..] == rest && c[i..e] == c[i..i + n] + c[i + n..e];
    }
  }

  lemma StringThere(c: bytes, i: nat) returns (p: Part)
    requires Terminated(c) && i < |c| && c[i] == QUOTE && FindClose(c, i + 1).Some?
    ensures var e := FindClose(c, i + 1).value;
      e + 1 < |c| && p.StringLit? && Spelled(p) == c[i..e + 1] && PartOk(p, c[e + 1..|c| - 1])
  {
    hide FindClose;
    var e := FindClose(c, i + 1).value;
    var chars := CharsThere(c, i + 1, e);
    p := StringLit(chars);
    assert c[i..e + 1] == [c[i]] + c[i + 1..e] + [c[e]];
  }

  lemma LineThere(c: bytes, i: nat) returns (p: Part)
    requires Terminated(c) && i + 1 < |c| && c[i] == SLASH && c[i + 1] == SLASH
    ensures var j := LineEnd(c, i);
      i < j < |c| && p.LineComment? && Spelled(p) == c[i..j] && PartOk(p, c[j..|c| - 1])
  {
    hide LineEnd, PartOk;
    var j := LineEnd(c, i);
    LineEndExactly(c, i, j);
    LineOk(c, i, j);
    p := LineComment(c[i + 2..j]);
    assert c[i..j] == [c[i], c[i + 1]] + c[i + 2..j];
  }

  lemma LineOk(c: bytes, i: nat, j: nat)
    requires Terminated(c) && i + 1 < |c| && c[i] == SLASH && c[i + 1] == SLASH && i <= j < |c|
    requires (c[j] == NUL || c[j] == 10) && forall k :: i <= k < j ==> c[k] != NUL && c[k] != 10
    ensures i + 2 <= j && PartOk(LineComment(c[i + 2..j]), c[j..|c| - 1])
  {
    assert j != i && j != i + 1;
    assert j < |c| - 1 ==> c[j..|c| - 1][0] == c[j];
  }

  lemma BlockThere(c: bytes, i: nat) returns (p: Part)
    requires Terminated(c) && i + 1 < |c| && c[i] == SLASH && c[i + 1] == STAR && c[CommentEnd(c, i)] != NUL
    ensures var j := CommentEnd(c, i) + 2;
      i + 2 < j < |c| && p.BlockComment? && Spelled(p) == c[i..j] && PartOk(p, c[j..|c| - 1])
  {
    hide CommentEnd, PartOk;
    var j := CommentEnd(c, i);
    CommentEndExactly(c, i, j);
    p := BlockComment(c[i + 1..j + 1]);
    assert c[i..j + 2] == [c[i]] + c[i + 1..j + 1] + [c[j + 1]];
    MiddleOk(c, i, j, c[j + 2..|c| - 1]);
  }

  lemma MiddleOk(c: bytes, i: nat, j: nat, rest: bytes)
    requires Terminated(c) && i < j < |c| - 1 && c[i + 1] == STAR && Closing(c, j)
    requires forall k :: i <= k < j ==> !Closing(c, k)
    ensures PartOk(BlockComment(c[i + 1..j + 1]), rest)
  {
    var middle := c[i + 1..j + 1];
    forall k | 0 <= k < |middle| ensures !Closing(middle, k) {
      assert !Closing(c, i + 1 + k) || i + 1 + k == j;
    }
  }

  /** A text that can be minified has its comment or string closed, if one begins at i. */
  lemma ClosedThere(c: bytes, i: nat)
    requires Terminated(c) && i < |c| - 1 && Minified(c, i).Some?
    ensures c[i] == SLASH && c[i + 1] == STAR ==> c[CommentEnd(c, i)] != NUL
    ensures c[i] == QUOTE ==> FindClose(c, i + 1).Some?
  {
    hide LineEnd, CommentEnd, FindClose;
  }

  /** What comes first in a text that can be minified from i on. */
  lemma PartThere(c: bytes, i: nat) returns (p: Part)
    requires Terminated(c) && i < |c| - 1 && Minified(c, i).Some?
    ensures var j := i + |Spelled(p)|; i < j < |c| && Spelled(p) == c[i..j] && PartOk(p, c[j..|c| - 1])
  {
    hide LineEnd, CommentEnd, FindClose, PartOk, Minified, Spelled;
    ClosedThere(c, i);
    if c[i] == SLASH && c[i + 1] == SLASH {
      p := LineThere(c, i);
    } else if c[i] == SLASH && c[i + 1] == STAR {
      p := BlockThere(c, i);
    } else if c[i] == QUOTE {
      p := StringThere(c, i);
    } else {
      p := if Dropped(c[i]) then Blank(c[i]) else Other(c[i]);
      OneByte(c, i, p);
    }
  }

  lemma OneByte(c: bytes, i: nat, p: Part)
    requires Terminated(c) && i < |c| - 1 && c[i] != QUOTE
    requires p == if Dropped(c[i]) then Blank(c[i]) else Other(c[i])
    requires c[i] == SLASH ==> c[i + 1] != SLASH && c[i + 1] != STAR
    ensures Spelled(p) == c[i..i + 1] && PartOk(p, c[i + 1..|c| - 1])
  {
  }

  lemma {:induction false} PartsThere(c: bytes, i: nat) returns (ps: seq<Part>)
    requires Terminated(c) && i < |c| && Minified(c, i).Some?
    ensures PartsOk(ps) && SpelledAll(ps) == c[i..|c| - 1] && KeptAll(ps) == Minified(c, i).value
    decreases |c| - i
  {
    hide PartOk, Spelled, KeptOf, Minified;
    if i == |c| - 1 {
      ps := [];
      MinifiedEnd(c);
    } else {
      var p := PartThere(c, i);
      var j := i + |Spelled(p)|;
      assert c[i..|c| - 1] == c[i..j] + c[j..|c| - 1];
      PartMinified(p, c, i, c[j..|c| - 1]);
      var rest := PartsThere(c, j);
      ps := [p] + rest;
      assert ps[1..] == rest;
    }
  }

  lemma MinifiedEnd(c: bytes)
    requires Terminated(c)
    ensures Minified(c, |c| - 1) == Some([])
  {
  }

  /**
   * Minifying gives t exactly when the text is made of blanks, closed comments, closed string literals and other bytes,
   * and t is made of the literals and other bytes alone; it goes past the NUL when the text is not of this kind.
   */
  lemma MinifiedExactly(c: bytes, t: bytes)
    requires Terminated(c)
    ensures Minified(c, 0) == Some(t) <==>
      exists ps :: PartsOk(ps) && SpelledAll(ps) == c[..|c| - 1] && KeptAll(ps) == t
  {
    hide Minified, PartsOk, SpelledAll, KeptAll;
    assert c[0..|c| - 1] == c[..|c| - 1];
    if Minified(c, 0) == Some(t) {
      var ps := PartsThere(c, 0);
    }
    forall ps | PartsOk(ps) && SpelledAll(ps) == c[..|c| - 1] && KeptAll(ps) == t ensures Minified(c, 0) == Some(t) {
      PartsMinified(ps, c, 0);
    }
  }

  // --- comments mean nothing ---

  predicate Comment(p: Part) { p.LineComment? || p.BlockComment? }

  /** A slash outside of strings and comments, which may begin a comment with what comes to stand behind it. */
  predicate LoneSlash(p: Part) { p == Other('/' as int) }

  function Uncommented(ps: seq<Part>): (qs: seq<Part>)
    ensures forall q :: q in qs ==> q in ps && !Comment(q)
  {
    if ps == [] then []
    else if Comment(ps[0]) then Uncommented(ps[1..])
    else [ps[0]] + Uncommented(ps[1..])
  }

  /** Neither a comment nor a lone slash cares what follows it. */
  lemma PartAnywhere(p: Part, rest: bytes, other: bytes)
    requires PartOk(p, rest) && !Comment(p) && !LoneSlash(p)
    ensures PartOk(p, other)
  {
  }

  lemma {:induction false} UncommentedOk(ps: seq<Part>)
    requires PartsOk(ps) && forall p :: p in ps ==> !LoneSlash(p)
    ensures PartsOk(Uncommented(ps)) && KeptAll(Uncommented(ps)) == KeptAll(ps)
    decreases ps
  {
    hide Spelled, PartOk;
    if ps != [] {
      assert ps[0] in ps && forall p :: p in ps[1..] ==> p in ps;
      UncommentedOk(ps[1..]);
      if !Comment(ps[0]) {
        assert Uncommented(ps)[1..] == Uncommented(ps[1..]);
        PartAnywhere(ps[0], SpelledAll(ps[1..]), SpelledAll(Uncommented(ps[1..])));
      }
    }
  }

  lemma {:induction false} SpelledNulFree(ps: seq<Part>)
    requires PartsOk(ps)
    ensures NulFree(SpelledAll(ps))
    decreases ps
  {
    if ps != [] {
      if ps[0].StringLit? {
        CharsNulFree(ps[0].chars);
      }
      SpelledNulFree(ps[1..]);
    }
  }

  lemma {:induction false} CharsNulFree(chars: seq<InString>)
    requires forall k :: 0 <= k < |chars| ==> InStringOk(chars[k])
    ensures NulFree(CharsSpelled(chars))
    decreases chars
  {
    if chars != [] {
      CharsNulFree(chars[1..]);
    }
  }

  lemma PartsTerminated(ps: seq<Part>)
    requires PartsOk(ps)
    ensures var c := SpelledAll(ps) + [NUL]; Terminated(c) && c[..|c| - 1] == SpelledAll(ps)
  {
    SpelledNulFree(ps);
  }

  /**
   * A text with closed comments, between whatever pieces of it, is minified to the same bytes as the text without them;
   * and if that one is accepted, the minified text is accepted as the same value.
   */
  lemma CommentsMeanNothing(ps: seq<Part>)
    requires PartsOk(ps) && forall p :: p in ps ==> !LoneSlash(p)
    ensures var c, d := SpelledAll(ps) + [NUL], SpelledAll(Uncommented(ps)) + [NUL];
      && Terminated(c) && Terminated(d) && Minified(c, 0) == Minified(d, 0) == Some(KeptAll(ps))
      && Terminated(KeptAll(ps) + [NUL])
      && (ParseText(d, true).Ok? ==>
            ParseText(KeptAll(ps) + [NUL], true) == Ok(ParseText(d, true).v, |KeptAll(ps)|))
  {
    hide PartsOk, SpelledAll, KeptAll, Minified, ParseText, Uncommented, Terminated;
    var qs := Uncommented(ps);
    UncommentedOk(ps);
    PartsTerminated(ps);
    PartsTerminated(qs);
    MinifiedExactly(SpelledAll(ps) + [NUL], KeptAll(ps));
    MinifiedExactly(SpelledAll(qs) + [NUL], KeptAll(ps));
    Minifying(SpelledAll(ps) + [NUL]);
    if ParseText(SpelledAll(qs) + [NUL], true).Ok? {
      MinifyKeepsMeaning(SpelledAll(qs) + [NUL]);
    }
  }
}
