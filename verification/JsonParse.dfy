/** What the cJSON parser accepts and returns, as functions of the text and the position. */
module JsonParse {
  import opened Basics
  import opened JsonText

  const NESTING_LIMIT: nat := 10

  /** A parse stops at next with a value, or fails with the buffer offset left at `at`. */
  datatype Parsed<+T> = Ok(v: T, next: nat) | Err(at: nat)

  /** The content of a parse buffer: a C string with its terminating NUL. */
  predicate Terminated(c: bytes) {
    |c| > 0 && c[|c| - 1] == NUL && forall k :: 0 <= k < |c| - 1 ==> c[k] != NUL
  }

  predicate StartsAt(c: bytes, i: nat, word: bytes) {
    i + |word| <= |c| && forall k :: 0 <= k < |word| ==> c[i + k] == word[k]
  }

  lemma StartsAtConcat(c: bytes, i: nat, a: bytes, b: bytes)
    requires StartsAt(c, i, a + b)
    ensures StartsAt(c, i, a) && StartsAt(c, i + |a|, b) && i + |a| + |b| <= |c|
  {
    forall k | 0 <= k < |a| ensures c[i + k] == a[k] {
      assert (a + b)[k] == a[k];
    }
    forall k | 0 <= k < |b| ensures c[i + |a| + k] == b[k] {
      assert (a + b)[|a| + k] == b[k];
      assert c[i + (|a| + k)] == b[k];
    }
  }

  lemma StartsAtRegroup(c: bytes, i: nat, a: bytes, b: bytes, t: bytes)
    requires StartsAt(c, i, a + b + t)
    ensures StartsAt(c, i, a) && StartsAt(c, i + |a|, b + t) && i + |a| + |b + t| <= |c|
  {
    Assoc(a, b, t);
    StartsAtConcat(c, i, a, b + t);
  }

  lemma Assoc(a: bytes, b: bytes, c: bytes)
    ensures a + b + c == a + (b + c)
  {
  }

  lemma StartsAtByte(c: bytes, i: nat, w: bytes, k: nat)
    requires StartsAt(c, i, w) && k < |w|
    ensures i + |w| <= |c| && c[i + k] == w[k]
  {
  }

  lemma StartsAtSlice(c: bytes, i: nat, w: bytes)
    requires StartsAt(c, i, w)
    ensures i + |w| <= |c| && c[i..i + |w|] == w
  {
  }

  /** The byte range c[i..i + n] stands in d at j as well. */
  predicate Same(c: bytes, i: nat, d: bytes, j: nat, n: nat) {
    i + n <= |c| && j + n <= |d| && forall k :: i <= k < i + n ==> d[j + (k - i)] == c[k]
  }

  lemma SliceSame(c: bytes, i: nat, d: bytes, j: nat, n: nat)
    requires i + n <= |c| && j + n <= |d| && d[j..j + n] == c[i..i + n]
    ensures Same(c, i, d, j, n)
  {
    forall k | i <= k < i + n ensures d[j + (k - i)] == c[k] {
      assert d[j..j + n][k - i] == c[i..i + n][k - i];
    }
  }

  lemma SameTail(c: bytes, i: nat, d: bytes, j: nat, n: nat, k: nat)
    requires Same(c, i, d, j, n) && k <= n
    ensures Same(c, i + k, d, j + k, n - k)
  {
  }

  // --- white space ---

  function ScanSpace(c: bytes, i: nat): (j: nat)
    requires i <= |c|
    ensures i <= j <= |c|
    decreases |c| - i
  {
    if i < |c| && c[i] <= SPACE then ScanSpace(c, i + 1) else i
  }

  /** Skipping stops on the last byte at the latest. */
  function SkipSpace(c: bytes, i: nat): (j: nat)
    requires i < |c|
    ensures i <= j < |c|
  {
    var j := ScanSpace(c, i);
    if j == |c| then j - 1 else j
  }

  lemma {:induction false} ScanSpaceStops(c: bytes, i: nat)
    requires i <= |c|
    ensures var j := ScanSpace(c, i); (j < |c| ==> c[j] > SPACE) && forall k :: i <= k < j ==> c[k] <= SPACE
    decreases |c| - i
  {
    if i < |c| && c[i] <= SPACE {
      ScanSpaceStops(c, i + 1);
    }
  }

  /** Everything skipped is white space; what is stopped at is none, or the last byte. */
  lemma SkipSpaceExactly(c: bytes, i: nat, j: nat)
    requires i <= j < |c|
    ensures SkipSpace(c, i) == j <==>
      (forall k :: i <= k < j ==> c[k] <= SPACE) && (c[j] > SPACE || j == |c| - 1)
  {
    ScanSpaceStops(c, i);
  }

  // --- numbers ---

  predicate Digit(b: byte) { ZERO <= b <= 57 }

  predicate NumberByte(b: byte) {
    Digit(b) || b == PLUS || b == MINUS || b == LOWER_E || b == UPPER_E || b == POINT
  }

  /** How many bytes in front of `stop` are copied into the temporary number buffer. */
  function NumberRun(c: bytes, i: nat, stop: nat): (n: nat)
    requires i <= |c|
    ensures i + n <= |c| && (n > 0 ==> i + n <= stop && NumberByte(c[i + n - 1]))
    decreases stop - i
  {
    if i < stop && i < |c| && NumberByte(c[i]) then 1 + NumberRun(c, i + 1, stop) else 0
  }

  function RunEnd(t: bytes, i: nat): (j: nat)
    requires i <= |t|
    ensures i <= j <= |t|
    decreases |t| - i
  {
    if i < |t| && Digit(t[i]) then RunEnd(t, i + 1) else i
  }

  /** The value of a run of digits. */
  function DigitsValue(t: bytes): int {
    if t == [] then 0 else DigitsValue(t[..|t| - 1]) * 10 + (t[|t| - 1] - ZERO)
  }

  function SignEnd(t: bytes, i: nat): (j: nat)
    requires i <= |t|
    ensures i <= j <= |t|
  {
    if i < |t| && (t[i] == MINUS || t[i] == PLUS) then i + 1 else i
  }

  function Signed(t: bytes, i: nat, magnitude: int): int {
    if i < |t| && t[i] == MINUS then -magnitude else magnitude
  }

  /** The end of an exponent at i, or i when there is none. */
  function ExponentEnd(t: bytes, i: nat): (j: nat)
    requires i <= |t|
    ensures i <= j <= |t|
  {
    if i < |t| && (t[i] == LOWER_E || t[i] == UPPER_E) then
      var k := SignEnd(t, i + 1);
      if RunEnd(t, k) > k then RunEnd(t, k) else i
    else i
  }

  /** What the exponent at i says; 0 when there is none. */
  function ExponentValue(t: bytes, i: nat): int
    requires i <= |t|
  {
    var stop := ExponentEnd(t, i);
    var k := if stop > i then SignEnd(t, i + 1) else stop;
    Signed(t, i + 1, DigitsValue(t[k..stop]))
  }

  /** The C library's strtod on number bytes: the exact decimal value and the bytes it took. */
  function Strtod(t: bytes): (r: Option<(Number, nat)>)
    ensures r.Some? ==> 0 < r.value.1 <= |t|
  {
    var s := SignEnd(t, 0);
    var whole := RunEnd(t, s);
    var end := if whole < |t| && t[whole] == POINT then RunEnd(t, whole + 1) else whole;
    var frac := if end > whole then t[whole + 1..end] else [];
    if t[s..whole] + frac == [] then None
    else
      Some((Number(Signed(t, 0, DigitsValue(t[s..whole] + frac)), ExponentValue(t, end) - |frac|), ExponentEnd(t, end)))
  }

  /** 64-byte temporary buffer, one byte kept for its NUL. */
  const NUMBER_ROOM: nat := 63

  function ParseNumber(c: bytes, i: nat): (r: Parsed<Value>)
    requires i < |c|
    ensures r.Ok? ==> i < r.next <= |c| && r.v.Num?
    ensures r.Ok? ==> r.next <= i + NumberRun(c, i, i + NUMBER_ROOM)
    ensures r.Err? ==> r.at == i
  {
    match Strtod(c[i..i + NumberRun(c, i, i + NUMBER_ROOM)])
    case None => Err(i)
    case Some((n, used)) => Ok(Num(n), i + used)
  }

  // --- strings ---

  /** First pass: the position of the closing quote. A backslash always takes the next byte with it. */
  function FindClose(c: bytes, i: nat): (r: Option<nat>)
    requires i <= |c|
    ensures r.Some? ==> i <= r.value < |c| && c[r.value] == QUOTE
    decreases |c| - i
  {
    if i == |c| then None
    else if c[i] == QUOTE then Some(i)
    else if c[i] != BACKSLASH then FindClose(c, i + 1)
    else if i + 1 == |c| then None
    else FindClose(c, i + 2)
  }

  /** How many backslashes stand right in front of k, looking back no further than i. */
  function Backslashes(c: bytes, i: nat, k: nat): nat
    requires k <= |c|
    decreases k
  {
    if i < k && c[k - 1] == BACKSLASH then 1 + Backslashes(c, i, k - 1) else 0
  }

  /** An odd number of backslashes escapes what follows. */
  predicate Escaping(c: bytes, i: nat, k: nat)
    requires k <= |c|
  {
    Backslashes(c, i, k) % 2 == 1
  }

  /** e is the first quote from i on that is not escaped. */
  predicate Closes(c: bytes, i: nat, e: nat) {
    e < |c| && i <= e && c[e] == QUOTE && !Escaping(c, i, e)
    && forall k :: i <= k < e && c[k] == QUOTE ==> Escaping(c, i, k)
  }

  lemma {:induction false} BackslashesFrom(c: bytes, i: nat, k: nat)
    requires i < |c| && k <= |c|
    ensures c[i] != BACKSLASH && i + 1 <= k ==> Backslashes(c, i, k) == Backslashes(c, i + 1, k)
    ensures c[i] == BACKSLASH && i + 2 <= k ==>
      Backslashes(c, i, k) == Backslashes(c, i + 2, k) || Backslashes(c, i, k) == Backslashes(c, i + 2, k) + 2
    decreases k
  {
    if k > i + 2 || k == i + 1 {
      BackslashesFrom(c, i, k - 1);
    } else if k == i + 2 {
      assert Backslashes(c, i, i + 1) == if c[i] == BACKSLASH then 1 else 0;
    }
  }

  /** A string without end has no such quote; any other is closed by the first one. */
  lemma {:induction false} FindCloseExactly(c: bytes, i: nat)
    requires i <= |c|
    ensures forall e: nat :: FindClose(c, i) == Some(e) <==> Closes(c, i, e)
    decreases |c| - i
  {
    if i < |c| && c[i] != QUOTE {
      var next := if c[i] == BACKSLASH then i + 2 else i + 1;
      if next <= |c| {
        FindCloseExactly(c, next);
        forall k | next <= k <= |c| ensures Escaping(c, i, k) <==> Escaping(c, next, k) {
          BackslashesFrom(c, i, k);
        }
        assert c[i] == BACKSLASH ==> Backslashes(c, i, i + 1) == 1;
        assert forall e: nat :: Closes(c, i, e) <==> Closes(c, next, e);
      }
    }
  }

  lemma {:induction false} CloseSame(c: bytes, i: nat, d: bytes, j: nat, e: nat)
    requires i <= |c| && FindClose(c, i) == Some(e) && Same(c, i, d, j, e + 1 - i)
    ensures FindClose(d, j) == Some(j + (e - i))
    decreases |c| - i
  {
    if i < e {
      var n := if c[i] == BACKSLASH then 2 else 1;
      SameTail(c, i, d, j, e + 1 - i, n);
      CloseSame(c, i + n, d, j + n, e);
    }
  }

  function HexValue(b: byte): (r: Option<nat>)
    ensures r.Some? ==> r.value < 16
  {
    if Digit(b) then Some(b - ZERO)
    else if 65 <= b <= 70 then Some(b - 55)
    else if 97 <= b <= 102 then Some(b - 87)
    else None
  }

  /** Four hex digits at i; anything else reads as 0. */
  function Hex4(c: bytes, i: nat): (h: nat)
    requires i + 4 <= |c|
    ensures h < 0x1_0000
  {
    if HexValue(c[i]).Some? && HexValue(c[i + 1]).Some? && HexValue(c[i + 2]).Some? && HexValue(c[i + 3]).Some?
    then HexValue(c[i]).value * 4096 + HexValue(c[i + 1]).value * 256
         + HexValue(c[i + 2]).value * 16 + HexValue(c[i + 3]).value
    else 0
  }

  predicate HighSurrogate(u: nat) { 0xD800 <= u <= 0xDBFF }
  predicate LowSurrogate(u: nat) { 0xDC00 <= u <= 0xDFFF }

  /** The code point of the escape at p, and how many bytes the escape takes. */
  datatype Escaped = Escaped(codepoint: nat, used: nat)

  /** A UTF-16 escape, or a surrogate pair of them, at p and ending no later than e. */
  function Utf16Escape(c: bytes, p: nat, e: nat): (r: Option<Escaped>)
    requires p <= e < |c|
    ensures r.Some? ==> p + r.value.used <= e && (r.value.used == 6 || r.value.used == 12)
    ensures r.Some? ==> r.value.codepoint <= 0x10_FFFF
    ensures r.Some? ==> !HighSurrogate(r.value.codepoint) && !LowSurrogate(r.value.codepoint)
    ensures r.Some? ==> (r.value.used == 12 <==> r.value.codepoint >= 0x1_0000)
  {
    if e - p < 6 then None
    else
      var first := Hex4(c, p + 2);
      if LowSurrogate(first) then None
      else if !HighSurrogate(first) then Some(Escaped(first, 6))
      else if e - p < 12 || c[p + 6] != BACKSLASH || c[p + 7] != LOWER_U then None
      else
        var second := Hex4(c, p + 8);
        if !LowSurrogate(second) then None
        else Some(Escaped(0x1_0000 + (first % 0x400) * 0x400 + second % 0x400, 12))
  }

  /** UTF-8 as in section 3 of RFC 3629. */
  function Utf8(cp: nat): (out: bytes)
    requires cp <= 0x10_FFFF
    ensures 1 <= |out| <= 4
  {
    if cp < 0x80 then [cp]
    else if cp < 0x800 then [0xC0 + cp / 64, 0x80 + cp % 64]
    else if cp < 0x1_0000 then [0xE0 + cp / 4096, 0x80 + cp / 64 % 64, 0x80 + cp % 64]
    else [0xF0 + cp / 262144, 0x80 + cp / 4096 % 64, 0x80 + cp / 64 % 64, 0x80 + cp % 64]
  }

  /** The byte a one-letter escape stands for. */
  function ShortUnescape(b: byte): Option<byte> {
    if b == 98 then Some(8)
    else if b == 102 then Some(12)
    else if b == 110 then Some(10)
    else if b == 114 then Some(13)
    else if b == 116 then Some(9)
    else if b == QUOTE || b == BACKSLASH || b == SLASH then Some(b)
    else None
  }

  /** What one character or escape of a string body stands for, and how many bytes it takes. */
  datatype Piece = Piece(out: bytes, used: nat)

  function UnescapeOne(c: bytes, p: nat, e: nat): (r: Option<Piece>)
    requires p < e < |c|
    ensures r.Some? ==> r.value.out != [] && 0 < r.value.used && p + r.value.used <= e + 1
  {
    if c[p] != BACKSLASH then Some(Piece([c[p]], 1))
    else if ShortUnescape(c[p + 1]).Some? then Some(Piece([ShortUnescape(c[p + 1]).value], 2))
    else if c[p + 1] != LOWER_U then None
    else
      match Utf16Escape(c, p, e)
      case None => None
      case Some(u) => Some(Piece(Utf8(u.codepoint), u.used))
  }

  datatype Unescaped = Bytes(out: bytes) | BadEscape(at: nat)

  function Prepend(out: bytes, rest: Unescaped): Unescaped {
    if rest.Bytes? then Bytes(out + rest.out) else rest
  }

  /**
   * Second pass: the bytes the string body c[p..e] stands for. A malformed escape can make this pass
   * disagree with the first about where escapes start, so p may step one past e.
   */
  function Unescape(c: bytes, p: nat, e: nat): (r: Unescaped)
    requires p <= e + 1 && e < |c|
    ensures r.BadEscape? ==> p <= r.at < e
    decreases |c| - p
  {
    if p >= e then Bytes([])
    else
      match UnescapeOne(c, p, e)
      case None => BadEscape(p)
      case Some(piece) => Prepend(piece.out, Unescape(c, p + piece.used, e))
  }

  /** The C string at the start of a byte buffer. */
  function CString(out: bytes): (s: bytes)
    ensures NulFree(s)
  {
    if out == [] || out[0] == NUL then [] else [out[0]] + CString(out[1..])
  }

  /** Everything up to the first NUL, or all of it. */
  lemma {:induction false} CStringExactly(out: bytes, s: bytes)
    ensures CString(out) == s <==> NulFree(s) && s <= out && (|s| < |out| ==> out[|s|] == NUL)
  {
    if out != [] && out[0] != NUL && s != [] {
      CStringExactly(out[1..], s[1..]);
      assert s == [s[0]] + s[1..];
    }
  }

  function ParseString(c: bytes, i: nat): (r: Parsed<bytes>)
    requires i < |c|
    ensures r.Ok? ==> i + 1 < r.next <= |c| && NulFree(r.v)
    ensures r.Err? ==> i < r.at <= |c|
  {
    if c[i] != QUOTE then Err(i + 1)
    else
      match FindClose(c, i + 1)
      case None => Err(i + 1)
      case Some(e) =>
        match Unescape(c, i + 1, e)
        case BadEscape(at) => Err(at)
        case Bytes(out) => Ok(CString(out), e + 1)
  }

  // --- values ---

  lemma WordInside(c: bytes, i: nat, word: bytes)
    requires Terminated(c) && StartsAt(c, i, word) && word != [] && NulFree(word)
    ensures i + |word| < |c|
  {
    assert c[i + (|word| - 1)] == word[|word| - 1];
  }

  lemma NumberInside(c: bytes, i: nat)
    requires Terminated(c) && i < |c|
    ensures var r := ParseNumber(c, i); r.Ok? ==> r.next < |c|
  {
    hide ParseNumber, NumberRun;
    var n := NumberRun(c, i, i + NUMBER_ROOM);
    assert n > 0 ==> c[i + n - 1] != NUL;
  }

  lemma StringInside(c: bytes, i: nat)
    requires Terminated(c) && i < |c|
    ensures var r := ParseString(c, i); r.Ok? ==> r.next < |c|
  {
  }

  function ParseValue(c: bytes, i: nat, depth: nat): (r: Parsed<Value>)
    requires Terminated(c) && i < |c|
    ensures r.Ok? ==> i < r.next < |c|
    ensures r.Err? ==> i <= r.at <= |c|
    decreases |c| - i, 3
  {
    if StartsAt(c, i, NULL_TEXT) then
      WordInside(c, i, NULL_TEXT);
      Ok(Null, i + 4)
    else if StartsAt(c, i, FALSE_TEXT) then
      WordInside(c, i, FALSE_TEXT);
      Ok(False, i + 5)
    else if StartsAt(c, i, TRUE_TEXT) then
      WordInside(c, i, TRUE_TEXT);
      Ok(True, i + 4)
    else if c[i] == QUOTE then
      StringInside(c, i);
      match ParseString(c, i)
      case Err(at) => Err(at)
      case Ok(s, next) => Ok(Str(s), next)
    else if c[i] == MINUS || Digit(c[i]) then
      NumberInside(c, i);
      ParseNumber(c, i)
    else if c[i] == LBRACKET then ParseArray(c, i, depth)
    else if c[i] == LBRACE then ParseObject(c, i, depth)
    else Err(i)
  }

  function ParseArray(c: bytes, i: nat, depth: nat): (r: Parsed<Value>)
    requires Terminated(c) && i < |c| && c[i] == LBRACKET
    ensures r.Ok? ==> i < r.next < |c|
    ensures r.Err? ==> i <= r.at <= |c|
    decreases |c| - i, 2
  {
    if depth >= NESTING_LIMIT then Err(i)
    else
      var a := SkipSpace(c, i + 1);
      if c[a] == RBRACKET then Ok(Arr([]), a + 1)
      else
        match ParseElems(c, a - 1, depth + 1)
        case Err(at) => Err(at)
        case Ok(es, next) => Ok(Arr(es), next)
  }

  /** The elements after the bracket or comma at p, up to and including the closing bracket. */
  function ParseElems(c: bytes, p: nat, depth: nat): (r: Parsed<seq<Value>>)
    requires Terminated(c) && p + 1 < |c|
    ensures r.Ok? ==> p + 1 < r.next < |c| && r.v != []
    ensures r.Err? ==> p < r.at <= |c|
    decreases |c| - p, 0
  {
    match ParseValue(c, SkipSpace(c, p + 1), depth)
    case Err(at) => Err(at)
    case Ok(v, next) =>
      var q := SkipSpace(c, next);
      if c[q] == COMMA then
        match ParseElems(c, q, depth)
        case Err(at) => Err(at)
        case Ok(es, end) => Ok([v] + es, end)
      else if c[q] == RBRACKET then Ok([v], q + 1)
      else Err(q)
  }

  function ParseObject(c: bytes, i: nat, depth: nat): (r: Parsed<Value>)
    requires Terminated(c) && i < |c| && c[i] == LBRACE
    ensures r.Ok? ==> i < r.next < |c|
    ensures r.Err? ==> i <= r.at <= |c|
    decreases |c| - i, 2
  {
    if depth >= NESTING_LIMIT then Err(i)
    else
      var a := SkipSpace(c, i + 1);
      if c[a] == RBRACE then Ok(Obj([]), a + 1)
      else
        match ParseMembers(c, a - 1, depth + 1)
        case Err(at) => Err(at)
        case Ok(ms, next) => Ok(Obj(ms), next)
  }

  /** One member after the brace or comma at p: its key, the colon and its value. */
  function ParseMember(c: bytes, p: nat, depth: nat): (r: Parsed<Member>)
    requires Terminated(c) && p + 1 < |c|
    ensures r.Ok? ==> p + 1 < r.next < |c|
    ensures r.Err? ==> p < r.at <= |c|
    decreases |c| - p, 0
  {
    StringInside(c, SkipSpace(c, p + 1));
    match ParseString(c, SkipSpace(c, p + 1))
    case Err(at) => Err(at)
    case Ok(key, afterKey) =>
      var colon := SkipSpace(c, afterKey);
      if c[colon] != COLON then Err(colon)
      else
        match ParseValue(c, SkipSpace(c, colon + 1), depth)
        case Err(at) => Err(at)
        case Ok(v, next) => Ok(Member(key, v), next)
  }

  function ParseMembers(c: bytes, p: nat, depth: nat): (r: Parsed<seq<Member>>)
    requires Terminated(c) && p + 1 < |c|
    ensures r.Ok? ==> p + 1 < r.next < |c| && r.v != []
    ensures r.Err? ==> p < r.at <= |c|
    decreases |c| - p, 1
  {
    match ParseMember(c, p, depth)
    case Err(at) => Err(at)
    case Ok(m, next) =>
      var q := SkipSpace(c, next);
      if c[q] == COMMA then
        match ParseMembers(c, q, depth)
        case Err(at) => Err(at)
        case Ok(ms, end) => Ok([m] + ms, end)
      else if c[q] == RBRACE then Ok([m], q + 1)
      else Err(q)
  }

  /** cJSON_ParseWithOpts: skip a byte order mark, parse one value, optionally insist on the end. */
  function SkipBom(c: bytes): nat {
    if |c| > 4 && c[..3] == [0xEF, 0xBB, 0xBF] then 3 else 0
  }

  function ParseText(c: bytes, requireEnd: bool): (r: Parsed<Value>)
    requires Terminated(c)
  {
    match ParseValue(c, SkipSpace(c, SkipBom(c)), 0)
    case Err(at) => Err(if at < |c| then at else |c| - 1)
    case Ok(v, next) =>
      if !requireEnd then Ok(v, next)
      else
        var q := SkipSpace(c, next);
        if c[q] != NUL then Err(q) else Ok(v, q)
  }

  // --- what every successful parse returns ---

  /** Numbers aside, what cJSON can hold: strings and keys are C strings. */
  predicate NulFreeStrings(v: Value)
    decreases v, 1
  {
    match v
    case Str(s) => NulFree(s)
    case Arr(es) => NulFreeElems(es)
    case Obj(ms) => NulFreeMembers(ms)
    case _ => true
  }

  predicate NulFreeElems(es: seq<Value>)
    decreases es, 0
  {
    es == [] || (NulFreeStrings(es[0]) && NulFreeElems(es[1..]))
  }

  predicate NulFreeMembers(ms: seq<Member>)
    decreases ms, 0
  {
    ms == [] || (NulFree(ms[0].key) && NulFreeStrings(ms[0].value) && NulFreeMembers(ms[1..]))
  }

  /** On any text at all, a parsed value stays within the nesting limit and holds C strings only. */
  lemma {:induction false} ParsedValueBounded(c: bytes, i: nat, depth: nat)
    requires Terminated(c) && i < |c| && depth <= NESTING_LIMIT
    ensures var r := ParseValue(c, i, depth);
            r.Ok? ==> depth + Nesting(r.v) <= NESTING_LIMIT && NulFreeStrings(r.v)
    decreases |c| - i, 3
  {
    hide ParseNumber, ParseString, ParseElems, ParseMembers, StartsAt;
    if ParseValue(c, i, depth).Ok? && depth < NESTING_LIMIT {
      var a := if i + 1 < |c| then SkipSpace(c, i + 1) else i + 1;
      if c[i] == LBRACKET && c[a] != RBRACKET {
        ParsedElemsBounded(c, a - 1, depth + 1);
      } else if c[i] == LBRACE && c[a] != RBRACE {
        ParsedMembersBounded(c, a - 1, depth + 1);
      }
    }
  }

  lemma {:induction false} ParsedElemsBounded(c: bytes, p: nat, depth: nat)
    requires Terminated(c) && p + 1 < |c| && depth <= NESTING_LIMIT
    ensures var r := ParseElems(c, p, depth);
            r.Ok? ==> depth + ElemsNesting(r.v) <= NESTING_LIMIT && NulFreeElems(r.v)
    decreases |c| - p, 0
  {
    hide ParseValue;
    ParsedValueBounded(c, SkipSpace(c, p + 1), depth);
    var v := ParseValue(c, SkipSpace(c, p + 1), depth);
    if v.Ok? && c[SkipSpace(c, v.next)] == COMMA {
      ParsedElemsBounded(c, SkipSpace(c, v.next), depth);
    }
    var r := ParseElems(c, p, depth);
    if r.Ok? {
      assert r.v[0] == v.v;
    }
  }

  lemma {:induction false} ParsedMembersBounded(c: bytes, p: nat, depth: nat)
    requires Terminated(c) && p + 1 < |c| && depth <= NESTING_LIMIT
    ensures var r := ParseMembers(c, p, depth);
            r.Ok? ==> depth + MembersNesting(r.v) <= NESTING_LIMIT && NulFreeMembers(r.v)
    decreases |c| - p, 1
  {
    hide ParseMember;
    ParsedMemberBounded(c, p, depth);
    var m := ParseMember(c, p, depth);
    if m.Ok? && c[SkipSpace(c, m.next)] == COMMA {
      ParsedMembersBounded(c, SkipSpace(c, m.next), depth);
    }
    var r := ParseMembers(c, p, depth);
    if r.Ok? {
      assert r.v[0] == m.v;
    }
  }

  lemma {:induction false} ParsedMemberBounded(c: bytes, p: nat, depth: nat)
    requires Terminated(c) && p + 1 < |c| && depth <= NESTING_LIMIT
    ensures var r := ParseMember(c, p, depth);
            r.Ok? ==> depth + Nesting(r.v.value) <= NESTING_LIMIT && NulFree(r.v.key) && NulFreeStrings(r.v.value)
    decreases |c| - p, 0
  {
    hide ParseString, ParseValue;
    var key := ParseString(c, SkipSpace(c, p + 1));
    if key.Ok? {
      StringInside(c, SkipSpace(c, p + 1));
      var colon := SkipSpace(c, key.next);
      if c[colon] == COLON {
        ParsedValueBounded(c, SkipSpace(c, colon + 1), depth);
      }
    }
  }
}
