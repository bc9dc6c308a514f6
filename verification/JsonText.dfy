/** JSON values as cJSON holds them, and the exact text cJSON prints for them. */
module JsonText {
  import opened Basics

  const NUL: byte := 0
  const TAB: byte := 9
  const NEWLINE: byte := 10
  const SPACE: byte := 32
  const QUOTE: byte := 34
  const PLUS: byte := 43
  const COMMA: byte := 44
  const MINUS: byte := 45
  const POINT: byte := 46
  const ZERO: byte := 48
  const COLON: byte := 58
  const BACKSLASH: byte := 92
  const LBRACKET: byte := 91
  const RBRACKET: byte := 93
  const LBRACE: byte := 123
  const RBRACE: byte := 125
  const LOWER_E: byte := 101
  const UPPER_E: byte := 69
  const LOWER_U: byte := 117

  const NULL_TEXT: bytes := [110, 117, 108, 108]
  const TRUE_TEXT: bytes := [116, 114, 117, 101]
  const FALSE_TEXT: bytes := [102, 97, 108, 115, 101]

  /** The decimal number m * 10^e. */
  datatype Number = Number(m: int, e: int)

  datatype Value =
    | Null
    | False
    | True
    | Num(n: Number)
    | Str(s: bytes)
    | Arr(elems: seq<Value>)
    | Obj(members: seq<Member>)

  datatype Member = Member(key: bytes, value: Value)

  function Pow10(k: nat): nat { if k == 0 then 1 else 10 * Pow10(k - 1) }

  // --- nesting ---

  function Max(a: nat, b: nat): nat { if a >= b then a else b }

  function Nesting(v: Value): nat
    decreases v, 1
  {
    match v
    case Arr(es) => 1 + ElemsNesting(es)
    case Obj(ms) => 1 + MembersNesting(ms)
    case _ => 0
  }

  function ElemsNesting(es: seq<Value>): nat
    decreases es, 0
  {
    if es == [] then 0 else Max(Nesting(es[0]), ElemsNesting(es[1..]))
  }

  function MembersNesting(ms: seq<Member>): nat
    decreases ms, 0
  {
    if ms == [] then 0 else Max(Nesting(ms[0].value), MembersNesting(ms[1..]))
  }

  // --- which values the printed text is known for ---

  const PLAIN_LIMIT := 1_000_000_000_000_000

  /** The integers that "%1.15g" prints as plain decimal digits. */
  predicate PlainNumber(n: Number) { n.e == 0 && -PLAIN_LIMIT < n.m < PLAIN_LIMIT }

  predicate NulFree(s: bytes) { forall i :: 0 <= i < |s| ==> s[i] != NUL }

  predicate Printable(v: Value)
    decreases v, 1
  {
    match v
    case Num(n) => PlainNumber(n)
    case Str(s) => NulFree(s)
    case Arr(es) => PrintableElems(es)
    case Obj(ms) => PrintableMembers(ms)
    case _ => true
  }

  predicate PrintableElems(es: seq<Value>)
    decreases es, 0
  {
    es == [] || (Printable(es[0]) && PrintableElems(es[1..]))
  }

  predicate PrintableMembers(ms: seq<Member>)
    decreases ms, 0
  {
    ms == [] || (NulFree(ms[0].key) && Printable(ms[0].value) && PrintableMembers(ms[1..]))
  }

  // --- text ---

  function Digits(n: nat): bytes {
    if n < 10 then [ZERO + n] else Digits(n / 10) + [ZERO + n % 10]
  }

  function IntText(m: int): bytes {
    if m < 0 then [MINUS] + Digits(-m) else Digits(m)
  }

  /** Only plain numbers are claimed to print like this; see Printable. */
  function NumText(n: Number): bytes {
    if n.e == 0 then IntText(n.m) else IntText(n.m) + [LOWER_E] + IntText(n.e)
  }

  function HexDigit(n: nat): byte
    requires n < 16
  {
    if n < 10 then ZERO + n else 87 + n
  }

  /** The one-letter escape of a byte, if it has one. */
  function ShortEscape(b: byte): bytes {
    if b == QUOTE then [BACKSLASH, QUOTE]
    else if b == BACKSLASH then [BACKSLASH, BACKSLASH]
    else if b == 8 then [BACKSLASH, 98]
    else if b == 12 then [BACKSLASH, 102]
    else if b == NEWLINE then [BACKSLASH, 110]
    else if b == 13 then [BACKSLASH, 114]
    else if b == TAB then [BACKSLASH, 116]
    else []
  }

  function EscapeByte(b: byte): bytes {
    if ShortEscape(b) != [] then ShortEscape(b)
    else if b < 32 then [BACKSLASH, LOWER_U, ZERO, ZERO, HexDigit(b / 16), HexDigit(b % 16)]
    else [b]
  }

  function Escape(s: bytes): bytes {
    if s == [] then [] else EscapeByte(s[0]) + Escape(s[1..])
  }

  function Quoted(s: bytes): bytes { [QUOTE] + Escape(s) + [QUOTE] }

  function Tabs(d: nat): bytes { seq(d, _ => TAB) }

  function CommaText(fmt: bool): bytes { if fmt then [COMMA, SPACE] else [COMMA] }
  function ColonText(fmt: bool): bytes { if fmt then [COLON, TAB] else [COLON] }
  function OpenBrace(fmt: bool): bytes { if fmt then [LBRACE, NEWLINE] else [LBRACE] }
  function Indent(fmt: bool, d: nat): bytes { if fmt then Tabs(d) else [] }

  /** What follows a member's value: a comma unless it is the last, then a line break when formatted. */
  function MemberEnd(fmt: bool, last: bool): bytes {
    (if last then [] else [COMMA]) + (if fmt then [NEWLINE] else [])
  }

  /** The text of v, printed d levels deep. */
  function Text(v: Value, fmt: bool, d: nat): bytes
    decreases v, 2
  {
    match v
    case Null => NULL_TEXT
    case False => FALSE_TEXT
    case True => TRUE_TEXT
    case Num(n) => NumText(n)
    case Str(s) => Quoted(s)
    case Arr(es) => [LBRACKET] + ElemsText(es, fmt, d + 1) + [RBRACKET]
    case Obj(ms) => OpenBrace(fmt) + MembersText(ms, fmt, d + 1) + Indent(fmt, d) + [RBRACE]
  }

  function ElemsText(es: seq<Value>, fmt: bool, d: nat): bytes
    decreases es, 0
  {
    if es == [] then []
    else Text(es[0], fmt, d) + (if |es| == 1 then [] else CommaText(fmt)) + ElemsText(es[1..], fmt, d)
  }

  function MembersText(ms: seq<Member>, fmt: bool, d: nat): bytes
    decreases ms, 1
  {
    if ms == [] then []
    else
      Indent(fmt, d) + MemberText(ms[0], fmt, d) + MemberEnd(fmt, |ms| == 1) + MembersText(ms[1..], fmt, d)
  }

  function MemberText(m: Member, fmt: bool, d: nat): bytes
    decreases m, 3
  {
    Quoted(m.key) + ColonText(fmt) + Text(m.value, fmt, d)
  }
}
