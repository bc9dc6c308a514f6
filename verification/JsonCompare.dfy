/** cJSON_Compare: recursive comparison that looks members up by key, in both directions. */
module JsonCompare {
  import opened Basics
  import opened JsonText

  // --- what a value means ---

  function Lower(b: byte): byte { if 65 <= b <= 90 then b + 32 else b }

  function Fold(s: bytes): (t: bytes)
    ensures |t| == |s| && forall i :: 0 <= i < |s| ==> t[i] == Lower(s[i])
  {
    if s == [] then [] else [Lower(s[0])] + Fold(s[1..])
  }

  /** b is the letter k of the alphabet, capital or small. */
  predicate LetterIs(b: byte, k: nat) {
    k < 26 && (b == CAPITAL_LETTERS[k] as int || b == SMALL_LETTERS[k] as int)
  }

  /** The same byte, or the same letter but for its case. */
  ghost predicate SameLetter(a: byte, b: byte) {
    a == b || exists k :: LetterIs(a, k) && LetterIs(b, k)
  }

  ghost predicate SameLetters(s: bytes, t: bytes) {
    |s| == |t| && forall i :: 0 <= i < |s| ==> SameLetter(s[i], t[i])
  }

  /** Folding makes exactly the two cases of a letter the same. */
  lemma LowerExactly(a: byte, b: byte)
    ensures Lower(a) == Lower(b) <==> SameLetter(a, b)
  {
    forall k | LetterIs(a, k) && LetterIs(b, k) ensures Lower(a) == Lower(b) {
      CapitalsInOrder(k);
      SmallLettersInOrder(k);
    }
    if Lower(a) == Lower(b) && a != b {
      var k: nat := Lower(a) - 97;
      CapitalsInOrder(k);
      SmallLettersInOrder(k);
      assert LetterIs(a, k) && LetterIs(b, k);
    }
  }

  lemma FoldExactly(s: bytes, t: bytes)
    ensures Fold(s) == Fold(t) <==> SameLetters(s, t)
  {
    hide Lower, SameLetter;
    forall i | 0 <= i < |s| && |s| == |t| ensures Fold(s)[i] == Fold(t)[i] <==> SameLetter(s[i], t[i]) {
      LowerExactly(s[i], t[i]);
    }
  }

  /** Two keys are the same key when these agree. */
  function Key(s: bytes, sensitive: bool): bytes {
    if sensitive then s else Fold(s)
  }

  function Power(k: nat): real { if k == 0 then 1.0 else 10.0 * Power(k - 1) }

  function RealOf(n: Number): real {
    if n.e >= 0 then n.m as real * Power(n.e) else DivPower(n.m as real, -n.e)
  }

  function DivPower(x: real, k: nat): real { if k == 0 then x else DivPower(x, k - 1) / 10.0 }

  /** Equal decimals, in integers: both at the smaller exponent. */
  predicate SameNumber(a: Number, b: Number) {
    if a.e >= b.e then a.m * Pow10(a.e - b.e) == b.m else a.m == b.m * Pow10(b.e - a.e)
  }

  lemma {:induction false} DivPowerOfTen(m: int, k: nat)
    ensures DivPower((10 * m) as real, k + 1) == DivPower(m as real, k)
  {
    if k == 0 {
      assert DivPower((10 * m) as real, 0) == (10 * m) as real;
    } else {
      DivPowerOfTen(m, k - 1);
    }
  }

  /** Ten times the digits at one exponent less. */
  lemma OneExponentLess(m: int, e: int)
    ensures RealOf(Number(10 * m, e - 1)) == RealOf(Number(m, e))
  {
    if e > 0 {
      var power := Power(e - 1);
      assert (10 * m) as real * power == m as real * (10.0 * power);
    } else {
      DivPowerOfTen(m, -e);
    }
  }

  lemma {:induction false} LowerExponent(m: int, e: int, k: nat)
    ensures RealOf(Number(m * Pow10(k), e - k)) == RealOf(Number(m, e))
  {
    if k > 0 {
      LowerExponent(m, e, k - 1);
      OneExponentLess(m * Pow10(k - 1), e - (k - 1));
      assert 10 * (m * Pow10(k - 1)) == m * Pow10(k);
    }
  }

  lemma {:induction false} PowerPositive(k: nat)
    ensures Power(k) > 0.0
  {
    if k > 0 {
      PowerPositive(k - 1);
    }
  }

  lemma {:induction false} DivPowerSame(x: real, y: real, k: nat)
    ensures DivPower(x, k) == DivPower(y, k) <==> x == y
  {
    if k > 0 {
      DivPowerSame(x, y, k - 1);
    }
  }

  lemma SameExponent(m: int, n: int, e: int)
    ensures RealOf(Number(m, e)) == RealOf(Number(n, e)) <==> m == n
  {
    if e >= 0 {
      PowerPositive(e);
      Cancels(m as real, n as real, Power(e));
    } else {
      DivPowerSame(m as real, n as real, -e);
    }
  }

  lemma Cancels(x: real, y: real, p: real)
    requires p > 0.0
    ensures x * p == y * p <==> x == y
  {
    assert x * p - y * p == (x - y) * p;
  }

  /** Numbers are equal exactly when their digits agree at the smaller of the two exponents. */
  lemma RealExactly(a: Number, b: Number)
    ensures RealOf(a) == RealOf(b) <==> SameNumber(a, b)
  {
    hide RealOf, Pow10;
    if a.e >= b.e {
      LowerExponent(a.m, a.e, a.e - b.e);
      SameExponent(a.m * Pow10(a.e - b.e), b.m, b.e);
    } else {
      LowerExponent(b.m, b.e, b.e - a.e);
      SameExponent(a.m, b.m * Pow10(b.e - a.e), a.e);
    }
  }

  /** A JSON value with its objects as maps, so that member order is gone. */
  datatype Meaning =
    | MNull | MFalse | MTrue
    | MNum(r: real)
    | MStr(s: bytes)
    | MArr(elems: seq<Meaning>)
    | MObj(members: map<bytes, Meaning>)

  /** An object maps each key to the value of its first member with that key. */
  function Means(v: Value, sensitive: bool): Meaning
    decreases v, 1
  {
    match v
    case Null => MNull
    case False => MFalse
    case True => MTrue
    case Num(n) => MNum(RealOf(n))
    case Str(s) => MStr(s)
    case Arr(es) => MArr(ElemsMean(es, sensitive))
    case Obj(ms) => MObj(MembersMean(ms, sensitive))
  }

  function ElemsMean(es: seq<Value>, sensitive: bool): (r: seq<Meaning>)
    ensures |r| == |es| && forall i :: 0 <= i < |es| ==> r[i] == Means(es[i], sensitive)
    decreases es, 0
  {
    if es == [] then [] else [Means(es[0], sensitive)] + ElemsMean(es[1..], sensitive)
  }

  function MembersMean(ms: seq<Member>, sensitive: bool): map<bytes, Meaning>
    decreases ms, 0
  {
    if ms == [] then map[]
    else MembersMean(ms[1..], sensitive)[Key(ms[0].key, sensitive) := Means(ms[0].value, sensitive)]
  }

  // --- lookup ---

  /** The first member with the given key, or |ms| when there is none. */
  function Find(ms: seq<Member>, name: bytes, sensitive: bool): (i: nat)
    ensures i <= |ms|
  {
    if ms == [] then 0
    else if Key(ms[0].key, sensitive) == Key(name, sensitive) then 0
    else 1 + Find(ms[1..], name, sensitive)
  }

  lemma {:induction false} FindHit(ms: seq<Member>, name: bytes, sensitive: bool)
    ensures var i := Find(ms, name, sensitive); i < |ms| ==> Key(ms[i].key, sensitive) == Key(name, sensitive)
  {
    hide Key;
    if ms != [] {
      FindHit(ms[1..], name, sensitive);
    }
  }

  /** No member in front of the one found has the key. */
  lemma {:induction false} FindFirst(ms: seq<Member>, name: bytes, sensitive: bool, j: nat)
    requires j < Find(ms, name, sensitive)
    ensures j < |ms| && Key(ms[j].key, sensitive) != Key(name, sensitive)
  {
    hide Key;
    if j > 0 {
      FindFirst(ms[1..], name, sensitive, j - 1);
    }
  }

  /** The same key: the same bytes, or the same letters when case does not matter. */
  ghost predicate SameKey(s: bytes, t: bytes, sensitive: bool) {
    if sensitive then s == t else SameLetters(s, t)
  }

  lemma KeyExactly(s: bytes, t: bytes, sensitive: bool)
    ensures Key(s, sensitive) == Key(t, sensitive) <==> SameKey(s, t, sensitive)
  {
    hide SameLetters;
    FoldExactly(s, t);
  }

  /** The member found is the first one with the same key; none is found exactly when there is none. */
  lemma FindExactly(ms: seq<Member>, name: bytes, sensitive: bool, i: nat)
    ensures Find(ms, name, sensitive) == i <==>
      && i <= |ms| && (i < |ms| ==> SameKey(ms[i].key, name, sensitive))
      && forall j :: 0 <= j < i ==> !SameKey(ms[j].key, name, sensitive)
  {
    hide Find, Key, SameKey;
    forall j | 0 <= j < |ms|
      ensures Key(ms[j].key, sensitive) == Key(name, sensitive) <==> SameKey(ms[j].key, name, sensitive)
    {
      KeyExactly(ms[j].key, name, sensitive);
    }
    var f := Find(ms, name, sensitive);
    FindHit(ms, name, sensitive);
    forall j | 0 <= j < f ensures !SameKey(ms[j].key, name, sensitive) {
      FindFirst(ms, name, sensitive, j);
    }
  }

  lemma FindNoLater(ms: seq<Member>, i: nat, name: bytes, sensitive: bool)
    requires i < |ms| && Key(ms[i].key, sensitive) == Key(name, sensitive)
    ensures Find(ms, name, sensitive) <= i && Key(ms[Find(ms, name, sensitive)].key, sensitive) == Key(name, sensitive)
  {
    hide Key;
    FindHit(ms, name, sensitive);
    if i < Find(ms, name, sensitive) {
      FindFirst(ms, name, sensitive, i);
    }
  }

  lemma {:induction false} LookupMeans(ms: seq<Member>, name: bytes, sensitive: bool)
    ensures var i, m := Find(ms, name, sensitive), MembersMean(ms, sensitive);
            if i < |ms| then Key(name, sensitive) in m && m[Key(name, sensitive)] == Means(ms[i].value, sensitive)
            else Key(name, sensitive) !in m
  {
    if ms != [] {
      LookupMeans(ms[1..], name, sensitive);
    }
  }

  lemma {:induction false} KeyIsSomeMembers(ms: seq<Member>, k: bytes, sensitive: bool)
    requires k in MembersMean(ms, sensitive)
    ensures exists i :: 0 <= i < |ms| && Key(ms[i].key, sensitive) == k
  {
    if Key(ms[0].key, sensitive) != k {
      KeyIsSomeMembers(ms[1..], k, sensitive);
      var i :| 0 <= i < |ms[1..]| && Key(ms[1..][i].key, sensitive) == k;
      assert Key(ms[i + 1].key, sensitive) == k;
    }
  }

  // --- comparison ---

  /** The number of nodes of a value, for termination. */
  function Size(v: Value): nat
    decreases v, 1
  {
    match v
    case Arr(es) => 1 + ElemsSize(es)
    case Obj(ms) => 1 + MembersSize(ms)
    case _ => 1
  }

  function ElemsSize(es: seq<Value>): (n: nat)
    ensures forall i :: 0 <= i < |es| ==> Size(es[i]) <= n
    decreases es, 0
  {
    if es == [] then 0 else Size(es[0]) + ElemsSize(es[1..])
  }

  function MembersSize(ms: seq<Member>): (n: nat)
    ensures forall i :: 0 <= i < |ms| ==> Size(ms[i].value) <= n
    decreases ms, 0
  {
    if ms == [] then 0 else Size(ms[0].value) + MembersSize(ms[1..])
  }

  /** What cJSON_Compare answers for two separate trees. */
  predicate Compare(a: Value, b: Value, sensitive: bool)
    decreases Size(a) + Size(b), 1
  {
    match a
    case Num(n) => b.Num? && RealOf(n) == RealOf(b.n)
    case Str(s) => b.Str? && s == b.s
    case Arr(es) =>
      b.Arr? && |es| == |b.elems| && forall i :: 0 <= i < |es| ==> Compare(es[i], b.elems[i], sensitive)
    case Obj(ms) =>
      b.Obj? && AllFound(ms, b.members, sensitive) && AllFound(b.members, ms, sensitive)
    case _ => a == b
  }

  /** Every member of ms has a member of the same key in `others`, whose value compares equal. */
  predicate AllFound(ms: seq<Member>, others: seq<Member>, sensitive: bool)
    decreases 2 + MembersSize(ms) + MembersSize(others), 0
  {
    forall i :: 0 <= i < |ms| ==> MemberFound(ms[i], ms, others, sensitive)
  }

  predicate MemberFound(m: Member, ghost ms: seq<Member>, others: seq<Member>, sensitive: bool)
    requires Size(m.value) <= MembersSize(ms)
    decreases 1 + MembersSize(ms) + MembersSize(others), 2
  {
    var j := Find(others, m.key, sensitive);
    j < |others| && Compare(m.value, others[j].value, sensitive)
  }

  // --- when the comparison holds ---

  /** No member says anything else than the first member with its key; true of all trees with distinct keys. */
  ghost predicate Coherent(v: Value, sensitive: bool) {
    match v
    case Arr(es) => forall i :: 0 <= i < |es| ==> Coherent(es[i], sensitive)
    case Obj(ms) => forall i :: 0 <= i < |ms| ==> Coherent(ms[i].value, sensitive) && Repeats(ms, i, sensitive)
    case _ => true
  }

  /** Member i has the same value as the first member with its key. */
  ghost predicate Repeats(ms: seq<Member>, i: nat, sensitive: bool)
    requires i < |ms|
  {
    var j := Find(ms, ms[i].key, sensitive);
    j < |ms| && Means(ms[i].value, sensitive) == Means(ms[j].value, sensitive)
  }

  ghost predicate DistinctKeys(v: Value, sensitive: bool) {
    match v
    case Arr(es) => forall i :: 0 <= i < |es| ==> DistinctKeys(es[i], sensitive)
    case Obj(ms) =>
      && (forall i :: 0 <= i < |ms| ==> DistinctKeys(ms[i].value, sensitive))
      && (forall i, j :: 0 <= i < j < |ms| ==> Key(ms[i].key, sensitive) != Key(ms[j].key, sensitive))
    case _ => true
  }

  lemma {:induction false} DistinctKeysCohere(v: Value, sensitive: bool)
    requires DistinctKeys(v, sensitive)
    ensures Coherent(v, sensitive)
  {
    if v.Arr? {
      forall i | 0 <= i < |v.elems| ensures Coherent(v.elems[i], sensitive) {
        DistinctKeysCohere(v.elems[i], sensitive);
      }
    } else if v.Obj? {
      var ms := v.members;
      forall i | 0 <= i < |ms| ensures Coherent(ms[i].value, sensitive) && Repeats(ms, i, sensitive) {
        DistinctKeysCohere(ms[i].value, sensitive);
        FindNoLater(ms, i, ms[i].key, sensitive);
      }
    }
  }

  /** Comparing equal is meaning the same, for the values of trees without contradictory members. */
  ghost predicate Agree(a: Value, b: Value, sensitive: bool) {
    Means(a, sensitive) == Means(b, sensitive) && Coherent(a, sensitive) && Coherent(b, sensitive)
  }

  /**
   * On all trees: the comparison holds exactly when both values mean the same - equal up to member order -
   * and neither holds two contradictory members of one key.
   */
  lemma {:induction false} CompareExactly(a: Value, b: Value, sensitive: bool)
    ensures Compare(a, b, sensitive) <==> Agree(a, b, sensitive)
    decreases Size(a) + Size(b), 2
  {
    if a.Arr? && b.Arr? {
      ArraysExactly(a.elems, b.elems, sensitive);
    } else if a.Obj? && b.Obj? {
      ObjectsExactly(a.members, b.members, sensitive);
    }
  }

  lemma {:induction false} ArraysExactly(xs: seq<Value>, ys: seq<Value>, sensitive: bool)
    ensures Compare(Arr(xs), Arr(ys), sensitive) <==> Agree(Arr(xs), Arr(ys), sensitive)
    decreases 2 + ElemsSize(xs) + ElemsSize(ys), 0
  {
    if |xs| == |ys| {
      forall i | 0 <= i < |xs|
        ensures Compare(xs[i], ys[i], sensitive) <==> Agree(xs[i], ys[i], sensitive)
      {
        CompareExactly(xs[i], ys[i], sensitive);
      }
      ElemsMeanAlike(xs, ys, sensitive);
    }
  }

  lemma ElemsMeanAlike(xs: seq<Value>, ys: seq<Value>, sensitive: bool)
    requires |xs| == |ys|
    ensures ElemsMean(xs, sensitive) == ElemsMean(ys, sensitive)
      <==> forall i :: 0 <= i < |xs| ==> Means(xs[i], sensitive) == Means(ys[i], sensitive)
  {
    hide Means;
    var mx, my := ElemsMean(xs, sensitive), ElemsMean(ys, sensitive);
    assert forall i :: 0 <= i < |xs| ==> mx[i] == Means(xs[i], sensitive) && my[i] == Means(ys[i], sensitive);
  }

  /** AllFound, in terms of meanings. */
  ghost predicate AllAgree(ms: seq<Member>, others: seq<Member>, sensitive: bool) {
    forall i :: 0 <= i < |ms| ==> MemberAgrees(ms[i], others, sensitive)
  }

  ghost predicate MemberAgrees(m: Member, others: seq<Member>, sensitive: bool) {
    var j := Find(others, m.key, sensitive);
    j < |others| && Agree(m.value, others[j].value, sensitive)
  }

  lemma {:induction false} FoundExactly(ms: seq<Member>, others: seq<Member>, sensitive: bool)
    ensures AllFound(ms, others, sensitive) <==> AllAgree(ms, others, sensitive)
    decreases 2 + MembersSize(ms) + MembersSize(others), 0
  {
    forall i | 0 <= i < |ms|
      ensures MemberFound(ms[i], ms, others, sensitive) <==> MemberAgrees(ms[i], others, sensitive)
    {
      var j := Find(others, ms[i].key, sensitive);
      if j < |others| {
        CompareExactly(ms[i].value, others[j].value, sensitive);
      }
    }
  }

  lemma {:induction false} ObjectsExactly(xs: seq<Member>, ys: seq<Member>, sensitive: bool)
    ensures Compare(Obj(xs), Obj(ys), sensitive) <==> Agree(Obj(xs), Obj(ys), sensitive)
    decreases 2 + MembersSize(xs) + MembersSize(ys), 1
  {
    FoundExactly(xs, ys, sensitive);
    FoundExactly(ys, xs, sensitive);
    if AllAgree(xs, ys, sensitive) && AllAgree(ys, xs, sensitive) {
      AgreeingCohere(xs, ys, sensitive);
      AgreeingCohere(ys, xs, sensitive);
      SameMeaning(xs, ys, sensitive);
    }
    if Agree(Obj(xs), Obj(ys), sensitive) {
      MeaningsAgree(xs, ys, sensitive);
      MeaningsAgree(ys, xs, sensitive);
    }
  }

  /** If all members find their value on the other side, members of one key have one value. */
  lemma AgreeingCohere(ms: seq<Member>, others: seq<Member>, sensitive: bool)
    requires AllAgree(ms, others, sensitive)
    ensures Coherent(Obj(ms), sensitive)
  {
    forall i | 0 <= i < |ms| ensures Coherent(ms[i].value, sensitive) && Repeats(ms, i, sensitive) {
      var j := Find(ms, ms[i].key, sensitive);
      FindNoLater(ms, i, ms[i].key, sensitive);
      assert MemberAgrees(ms[i], others, sensitive) && MemberAgrees(ms[j], others, sensitive);
      SameFind(others, ms[i].key, ms[j].key, sensitive);
    }
  }

  lemma {:induction false} SameFind(ms: seq<Member>, x: bytes, y: bytes, sensitive: bool)
    requires Key(x, sensitive) == Key(y, sensitive)
    ensures Find(ms, x, sensitive) == Find(ms, y, sensitive)
  {
    if ms != [] {
      SameFind(ms[1..], x, y, sensitive);
    }
  }

  lemma SameMeaning(xs: seq<Member>, ys: seq<Member>, sensitive: bool)
    requires AllAgree(xs, ys, sensitive) && AllAgree(ys, xs, sensitive)
    ensures MembersMean(xs, sensitive) == MembersMean(ys, sensitive)
  {
    var mx, my := MembersMean(xs, sensitive), MembersMean(ys, sensitive);
    forall k | k in mx ensures k in my && mx[k] == my[k] {
      HalfMeaning(xs, ys, k, sensitive);
    }
    forall k | k in my ensures k in mx {
      HalfMeaning(ys, xs, k, sensitive);
    }
  }

  lemma HalfMeaning(xs: seq<Member>, ys: seq<Member>, k: bytes, sensitive: bool)
    requires AllAgree(xs, ys, sensitive) && k in MembersMean(xs, sensitive)
    ensures k in MembersMean(ys, sensitive) && MembersMean(xs, sensitive)[k] == MembersMean(ys, sensitive)[k]
  {
    hide Find, MembersMean, Key, Means, Coherent;
    KeyIsSomeMembers(xs, k, sensitive);
    var i :| 0 <= i < |xs| && Key(xs[i].key, sensitive) == k;
    var first := Find(xs, xs[i].key, sensitive);
    LookupMeans(xs, xs[i].key, sensitive);
    FindNoLater(xs, i, xs[i].key, sensitive);
    assert MemberAgrees(xs[first], ys, sensitive);
    LookupMeans(ys, xs[first].key, sensitive);
  }

  lemma MeaningsAgree(xs: seq<Member>, ys: seq<Member>, sensitive: bool)
    requires Agree(Obj(xs), Obj(ys), sensitive)
    ensures AllAgree(xs, ys, sensitive)
  {
    forall i | 0 <= i < |xs| ensures MemberAgrees(xs[i], ys, sensitive) {
      LookupMeans(xs, xs[i].key, sensitive);
      LookupMeans(ys, xs[i].key, sensitive);
      assert Repeats(xs, i, sensitive);
    }
  }

  // --- consequences ---

  /** Two numbers compare equal exactly when they are the same decimal. */
  lemma NumbersExactly(a: Number, b: Number, sensitive: bool)
    ensures Compare(Num(a), Num(b), sensitive) <==> SameNumber(a, b)
  {
    hide RealOf, SameNumber;
    RealExactly(a, b);
  }

  lemma CompareSymmetric(a: Value, b: Value, sensitive: bool)
    ensures Compare(a, b, sensitive) == Compare(b, a, sensitive)
  {
    CompareExactly(a, b, sensitive);
    CompareExactly(b, a, sensitive);
  }

  lemma CompareTransitive(a: Value, b: Value, c: Value, sensitive: bool)
    requires Compare(a, b, sensitive) && Compare(b, c, sensitive)
    ensures Compare(a, c, sensitive)
  {
    CompareExactly(a, b, sensitive);
    CompareExactly(b, c, sensitive);
    CompareExactly(a, c, sensitive);
  }

  /** With distinct keys, the comparison is equality up to member order. */
  lemma CompareDistinct(a: Value, b: Value, sensitive: bool)
    requires DistinctKeys(a, sensitive) && DistinctKeys(b, sensitive)
    ensures Compare(a, b, sensitive) <==> Means(a, sensitive) == Means(b, sensitive)
  {
    CompareExactly(a, b, sensitive);
    DistinctKeysCohere(a, sensitive);
    DistinctKeysCohere(b, sensitive);
  }

  /** A tree compares equal to a copy of itself exactly when it has no contradictory members. */
  lemma CompareReflexiveExactly(a: Value, sensitive: bool)
    ensures Compare(a, a, sensitive) <==> Coherent(a, sensitive)
  {
    CompareExactly(a, a, sensitive);
  }

  /** {"a":null,"a":true} does not compare equal to its own copy. */
  lemma ContradictoryMembers()
    ensures var v := Obj([Member([97], Null), Member([97], True)]); !Compare(v, v, true)
  {
    var ms := [Member([97], Null), Member([97], True)];
    CompareReflexiveExactly(Obj(ms), true);
    assert Find(ms, [97], true) == 0;
    assert !Repeats(ms, 1, true);
  }

  // --- the loops ---

  /** tolower on both strings up to the first difference or the end of both. */
  method CaseInsensitiveEqual(s: bytes, t: bytes) returns (equal: bool)
    requires NulFree(s) && NulFree(t)
    ensures equal <==> Fold(s) == Fold(t)
    ensures equal <==> SameLetters(s, t)
  {
    hide SameLetters, Fold, Lower;
    var i := 0;
    while i < |s| && i < |t| && Lower(s[i]) == Lower(t[i])
      invariant 0 <= i <= |s| && i <= |t|
      invariant forall k :: 0 <= k < i ==> Lower(s[k]) == Lower(t[k])
    {
      i := i + 1;
    }
    equal := i == |s| && i == |t|;
    FoldedAlike(s, t, i);
    FoldExactly(s, t);
  }

  /** Folded alike up to i, and i is the end of both or a difference. */
  lemma FoldedAlike(s: bytes, t: bytes, i: nat)
    requires i <= |s| && i <= |t| && forall k :: 0 <= k < i ==> Lower(s[k]) == Lower(t[k])
    requires i == |s| || i == |t| || Lower(s[i]) != Lower(t[i])
    ensures Fold(s) == Fold(t) <==> i == |s| == |t|
  {
    hide Lower;
    if i < |s| == |t| {
      assert Fold(s)[i] != Fold(t)[i];
    }
  }

  ghost predicate NulFreeKeys(ms: seq<Member>) {
    forall i :: 0 <= i < |ms| ==> NulFree(ms[i].key)
  }

  /** Walks the members to the first one with the name. */
  method GetObjectItem(ms: seq<Member>, name: bytes, sensitive: bool) returns (i: nat)
    requires NulFree(name) && NulFreeKeys(ms)
    ensures i == Find(ms, name, sensitive)
    ensures i <= |ms| && (i < |ms| ==> SameKey(ms[i].key, name, sensitive))
    ensures forall j :: 0 <= j < i ==> !SameKey(ms[j].key, name, sensitive)
  {
    hide SameKey, SameLetters;
    FindExactly(ms, name, sensitive, Find(ms, name, sensitive));
    i := 0;
    while i < |ms|
      invariant i <= |ms| && i + Find(ms[i..], name, sensitive) == Find(ms, name, sensitive)
    {
      var same;
      if sensitive {
        same := name == ms[i].key;
      } else {
        same := CaseInsensitiveEqual(name, ms[i].key);
      }
      if same {
        return;
      }
      i := i + 1;
    }
  }

  /** Keys are C strings throughout the tree. */
  ghost predicate Keyed(v: Value) {
    match v
    case Arr(es) => forall i :: 0 <= i < |es| ==> Keyed(es[i])
    case Obj(ms) => NulFreeKeys(ms) && forall i :: 0 <= i < |ms| ==> Keyed(ms[i].value)
    case _ => true
  }

  method CompareValues(a: Value, b: Value, sensitive: bool) returns (equal: bool)
    requires Keyed(a) && Keyed(b)
    ensures equal <==> Compare(a, b, sensitive)
    ensures a.Num? && b.Num? ==> (equal <==> SameNumber(a.n, b.n))
    decreases Size(a) + Size(b), 1
  {
    hide SameNumber;
    if a.Num? && b.Num? {
      NumbersExactly(a.n, b.n, sensitive);
    }
    match a
    case Num(n) =>
      return b.Num? && RealOf(n) == RealOf(b.n);
    case Str(s) =>
      return b.Str? && s == b.s;
    case Arr(es) =>
      if !b.Arr? {
        return false;
      }
      var i := 0;
      while i < |es| && i < |b.elems|
        invariant i <= |es| && i <= |b.elems|
        invariant forall k :: 0 <= k < i ==> Compare(es[k], b.elems[k], sensitive)
      {
        var same := CompareValues(es[i], b.elems[i], sensitive);
        if !same {
          return false;
        }
        i := i + 1;
      }
      return i == |es| && i == |b.elems|;
    case Obj(ms) =>
      if !b.Obj? {
        return false;
      }
      equal := FindAll(ms, b.members, sensitive);
      if equal {
        equal := FindAll(b.members, ms, sensitive);
      }
    case _ =>
      return a == b;
  }

  /** One of the two loops over an object's members. */
  method FindAll(ms: seq<Member>, others: seq<Member>, sensitive: bool) returns (all: bool)
    requires Keyed(Obj(ms)) && Keyed(Obj(others))
    ensures all <==> AllFound(ms, others, sensitive)
    decreases 2 + MembersSize(ms) + MembersSize(others), 0
  {
    hide MemberFound;
    for i := 0 to |ms|
      invariant forall k :: 0 <= k < i ==> MemberFound(ms[k], ms, others, sensitive)
    {
      var found := FindEqual(ms, others, i, sensitive);
      if !found {
        return false;
      }
    }
    return true;
  }

  /** One turn of that loop: the first member with the key on the other side is compared. */
  method FindEqual(ms: seq<Member>, others: seq<Member>, i: nat, sensitive: bool) returns (found: bool)
    requires Keyed(Obj(ms)) && Keyed(Obj(others)) && i < |ms|
    ensures found <==> MemberFound(ms[i], ms, others, sensitive)
    decreases 1 + MembersSize(ms) + MembersSize(others), 1
  {
    var j := GetObjectItem(others, ms[i].key, sensitive);
    if j == |others| {
      return false;
    }
    found := CompareValues(ms[i].value, others[j].value, sensitive);
  }
}
