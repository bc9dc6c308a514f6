/**
 * The elements of one ramfs, by address. Addresses are handed out in rising order, so an element is always
 * younger than its parent, and a directory's children hang together from the youngest to the oldest.
 */
module RamTree {
  import opened Basics
  import opened VfsPaths

  const MAX_NAME := 16
  const ROOT: nat := 0

  datatype Elem = Elem(name: bytes, dir: bool, sabling: Option<nat>, parent: Option<nat>, refs: nat,
                       child: Option<nat>, content: bytes)

  type Elems = map<nat, Elem>

  predicate NameOk(name: bytes) {
    0 < |name| < MAX_NAME && SLASH !in name
  }

  /** k is a child of d. */
  predicate Below(m: Elems, d: nat, k: nat) {
    k in m && m[k].parent == Some(d)
  }

  /** i has an older parent, a directory; the root has none. */
  ghost predicate ParentRight(m: Elems, next: nat, i: nat) {
    i in m && i < next
    && if i == ROOT then m[i].dir && m[i].parent == None && m[i].sabling == None
       else m[i].parent.Some? && m[i].parent.value < i && m[i].parent.value in m && m[m[i].parent.value].dir
  }

  ghost predicate Parents(m: Elems, next: nat) {
    ParentRight(m, next, ROOT) && forall i {:trigger ParentRight(m, next, i)} :: i in m ==> ParentRight(m, next, i)
  }

  /** child leads to the youngest child, if any. */
  ghost predicate ChildRight(m: Elems, d: nat)
    requires d in m
  {
    match m[d].child
    case None => forall k: nat :: !Below(m, d, k)
    case Some(c) => Below(m, d, c) && forall k: nat :: Below(m, d, k) ==> k <= c
  }

  /** sabling leads to the next older child of the same directory, if any. */
  ghost predicate SablingRight(m: Elems, i: nat)
    requires i in m && m[i].parent.Some?
  {
    var d := m[i].parent.value;
    match m[i].sabling
    case None => forall k: nat :: Below(m, d, k) ==> k >= i
    case Some(s) => s < i && Below(m, d, s) && forall k: nat :: Below(m, d, k) ==> k <= s || k >= i
  }

  ghost predicate Lists(m: Elems) {
    && (forall d {:trigger ChildRight(m, d)} :: d in m ==> ChildRight(m, d))
    && (forall i {:trigger SablingRight(m, i)} :: i in m && m[i].parent.Some? ==> SablingRight(m, i))
  }

  /** i and j, children of one directory, have different names. */
  ghost predicate NamesDiffer(m: Elems, i: nat, j: nat) {
    i in m && j in m && i != j && m[i].parent.Some? && m[i].parent == m[j].parent ==> m[i].name != m[j].name
  }

  ghost predicate NameRight(m: Elems, i: nat) {
    i in m && i != ROOT ==> NameOk(m[i].name)
  }

  ghost predicate Names(m: Elems) {
    && (forall i: nat {:trigger NameRight(m, i)} :: NameRight(m, i))
    && (forall i: nat, j: nat {:trigger NamesDiffer(m, i, j)} :: NamesDiffer(m, i, j))
  }

  ghost predicate WellFormed(m: Elems, next: nat) {
    Parents(m, next) && Lists(m) && Names(m)
  }

  // --- the changes the operations make ---

  function Insert(m: Elems, d: nat, id: nat, name: bytes, dir: bool, refs: nat): Elems
    requires d in m
  {
    m[id := Elem(name, dir, m[d].child, Some(d), refs, None, [])][d := m[d].(child := Some(id))]
  }

  function WithRefs(m: Elems, e: nat, refs: nat): Elems
    requires e in m
  {
    m[e := m[e].(refs := refs)]
  }

  function WithContent(m: Elems, e: nat, content: bytes): Elems
    requires e in m
  {
    m[e := m[e].(content := content)]
  }

  function WithName(m: Elems, e: nat, name: bytes): Elems
    requires e in m
  {
    m[e := m[e].(name := name)]
  }

  /** e taken out of its directory's list, where t is the next younger child, if any. */
  function Remove(m: Elems, e: nat, t: Option<nat>): Elems
    requires e in m && m[e].parent.Some? && m[e].parent.value in m && (t.Some? ==> t.value in m)
  {
    var d := m[e].parent.value;
    (match t
     case None => m[d := m[d].(child := m[e].sabling)]
     case Some(y) => m[y := m[y].(sabling := m[e].sabling)]) - {e}
  }

  /** t is the next younger child of e's directory; None when e is the youngest. */
  ghost predicate NextYounger(m: Elems, e: nat, t: Option<nat>)
    requires e in m && m[e].parent.Some? && m[e].parent.value in m
  {
    match t
    case None => m[m[e].parent.value].child == Some(e)
    case Some(y) => y in m && y != e && m[y].parent == m[e].parent && m[y].sabling == Some(e)
  }

  // --- the invariant, one element at a time ---

  lemma RootOf(m: Elems, next: nat)
    requires Parents(m, next)
    ensures ROOT in m && m[ROOT].dir && m[ROOT].parent == None && m[ROOT].sabling == None
  {
  }

  lemma ParentOf(m: Elems, next: nat, i: nat)
    requires Parents(m, next) && i in m
    ensures i < next && (i == ROOT ==> m[i].parent == None && m[i].sabling == None && m[i].dir)
    ensures i != ROOT ==>
      m[i].parent.Some? && m[i].parent.value < i && m[i].parent.value in m && m[m[i].parent.value].dir
  {
    assert ParentRight(m, next, i);
  }

  lemma ChildOf(m: Elems, d: nat)
    requires Lists(m) && d in m
    ensures ChildRight(m, d)
  {
  }

  lemma SablingOf(m: Elems, i: nat)
    requires Lists(m) && i in m && m[i].parent.Some?
    ensures SablingRight(m, i)
  {
  }

  // --- every change keeps it ---

  /** The same tree, but for names, counts and contents. */
  ghost predicate SameLinks(m: Elems, n: Elems) {
    m.Keys == n.Keys
    && forall i :: i in m ==>
         && n[i].dir == m[i].dir && n[i].parent == m[i].parent
         && n[i].child == m[i].child && n[i].sabling == m[i].sabling
  }

  lemma SameLinksKeep(m: Elems, n: Elems, next: nat)
    requires Parents(m, next) && Lists(m) && SameLinks(m, n)
    ensures Parents(n, next) && Lists(n)
  {
    hide ChildRight, SablingRight;
    assert forall d: nat, k: nat :: Below(n, d, k) == Below(m, d, k);
    RootOf(m, next);
    forall i | i in n ensures ParentRight(n, next, i) {
      ParentOf(m, next, i);
    }
    ParentsMade(n, next);
    forall d | d in n ensures ChildRight(n, d) {
      ChildOf(m, d);
      SameChild(m, n, d);
    }
    forall i | i in n && n[i].parent.Some? ensures SablingRight(n, i) {
      SablingOf(m, i);
      SameSabling(m, n, i);
    }
  }

  lemma SameChild(m: Elems, n: Elems, d: nat)
    requires d in m && d in n && n[d].child == m[d].child && ChildRight(m, d)
    requires forall k: nat :: Below(n, d, k) == Below(m, d, k)
    ensures ChildRight(n, d)
  {
    hide Below;
  }

  lemma SameSabling(m: Elems, n: Elems, i: nat)
    requires i in m && i in n && m[i].parent.Some? && n[i].parent == m[i].parent && n[i].sabling == m[i].sabling
    requires SablingRight(m, i) && forall k: nat :: Below(n, m[i].parent.value, k) == Below(m, m[i].parent.value, k)
    ensures SablingRight(n, i)
  {
    hide Below;
  }

  /** Whatever ChildRight and SablingRight say of m they say of n, where n's children of d differ by one. */
  lemma InsertKeeps(m: Elems, next: nat, d: nat, name: bytes, dir: bool, refs: nat)
    requires WellFormed(m, next) && d in m && m[d].dir && NameOk(name)
    requires forall k: nat :: Below(m, d, k) ==> m[k].name != name
    ensures WellFormed(Insert(m, d, next, name, dir, refs), next + 1)
  {
    hide Lists, ChildRight, SablingRight, Names;
    var n := Insert(m, d, next, name, dir, refs);
    InsertParents(m, next, d, name, dir, refs);
    NextIsNew(m, next);
    InsertNames(m, next, d, name, dir, refs);
    forall x | x in n ensures ChildRight(n, x) {
      if x in m { ChildOf(m, x); }
      InsertChild(m, next, d, name, dir, refs, x);
    }
    forall i | i in n && n[i].parent.Some? ensures SablingRight(n, i) {
      ChildOf(m, d);
      if i in m { SablingOf(m, i); }
      InsertSabling(m, next, d, name, dir, refs, i);
    }
    AllLists(n);
  }

  lemma NextIsNew(m: Elems, next: nat)
    requires Parents(m, next)
    ensures next !in m && next != ROOT
  {
    assert next in m ==> ParentRight(m, next, next);
  }

  lemma AllLists(n: Elems)
    requires forall x :: x in n ==> ChildRight(n, x)
    requires forall i :: i in n && n[i].parent.Some? ==> SablingRight(n, i)
    ensures Lists(n)
  {
  }

  lemma InsertParents(m: Elems, next: nat, d: nat, name: bytes, dir: bool, refs: nat)
    requires Parents(m, next) && d in m && m[d].dir
    ensures Parents(Insert(m, d, next, name, dir, refs), next + 1)
  {
    hide Parents;
    var n := Insert(m, d, next, name, dir, refs);
    RootOf(m, next);
    ParentOf(m, next, d);
    forall i | i in n ensures ParentRight(n, next + 1, i) {
      if i in m { ParentOf(m, next, i); }
    }
    ParentsMade(n, next + 1);
  }

  lemma ParentsMade(n: Elems, next: nat)
    requires ROOT in n && forall i {:trigger ParentRight(n, next, i)} {:trigger i in n} ::
      i in n ==> ParentRight(n, next, i)
    ensures Parents(n, next)
  {
  }

  lemma InsertNames(m: Elems, next: nat, d: nat, name: bytes, dir: bool, refs: nat)
    requires Names(m) && d in m && next != ROOT && NameOk(name) && next !in m
    requires forall k: nat :: Below(m, d, k) ==> m[k].name != name
    ensures Names(Insert(m, d, next, name, dir, refs))
  {
    var n := Insert(m, d, next, name, dir, refs);
    forall i: nat ensures NameRight(n, i) {
      assert NameRight(m, i);
    }
    forall i: nat, j: nat ensures NamesDiffer(n, i, j) {
      assert NamesDiffer(m, i, j);
      assert i == next && j in m ==> (m[j].parent == Some(d) <==> Below(m, d, j));
      assert j == next && i in m ==> (m[i].parent == Some(d) <==> Below(m, d, i));
    }
  }

  lemma InsertChild(m: Elems, next: nat, d: nat, name: bytes, dir: bool, refs: nat, x: nat)
    requires Parents(m, next) && d in m && x in Insert(m, d, next, name, dir, refs) && (x in m ==> ChildRight(m, x))
    ensures ChildRight(Insert(m, d, next, name, dir, refs), x)
  {
    var n := Insert(m, d, next, name, dir, refs);
    forall k: nat ensures Below(n, x, k) <==> (k == next && x == d) || (x != next && Below(m, x, k)) {
      if k in m { ParentOf(m, next, k); }
    }
    forall k: nat ensures Below(m, x, k) ==> k < next {
      if k in m { ParentOf(m, next, k); }
    }
  }

  lemma InsertSabling(m: Elems, next: nat, d: nat, name: bytes, dir: bool, refs: nat, i: nat)
    requires Parents(m, next) && d in m && ChildRight(m, d) && i in Insert(m, d, next, name, dir, refs)
    requires i != ROOT && (i in m ==> m[i].parent.Some? && SablingRight(m, i))
    ensures SablingRight(Insert(m, d, next, name, dir, refs), i)
  {
    var n := Insert(m, d, next, name, dir, refs);
    if i in m { ParentOf(m, next, i); }
    var p := n[i].parent.value;
    forall k: nat ensures Below(n, p, k) <==> (k == next && p == d) || Below(m, p, k) {
      if k in m { ParentOf(m, next, k); }
    }
    forall k: nat ensures Below(m, p, k) ==> k < next {
      if k in m { ParentOf(m, next, k); }
    }
  }

  lemma RemoveKeeps(m: Elems, next: nat, e: nat, t: Option<nat>)
    requires WellFormed(m, next) && e in m && e != ROOT && m[e].child == None
    requires m[e].parent.Some? && m[e].parent.value in m && NextYounger(m, e, t)
    ensures WellFormed(Remove(m, e, t), next)
  {
    hide Lists, ChildRight, SablingRight, Names, NextYounger;
    if t.Some? { YoungerRight(m, e, t); }
    var n := Remove(m, e, t);
    RemoveParents(m, next, e, t);
    RemoveNames(m, e, t);
    ChildOf(m, m[e].parent.value);
    SablingOf(m, e);
    forall x | x in n ensures ChildRight(n, x) {
      ChildOf(m, x);
      RemoveChild(m, e, t, x);
    }
    forall i | i in n && n[i].parent.Some? ensures SablingRight(n, i) {
      SablingOf(m, i);
      RemoveSabling(m, e, t, i);
    }
    AllLists(n);
  }

  lemma YoungerRight(m: Elems, e: nat, t: Option<nat>)
    requires Lists(m) && e in m && m[e].parent.Some? && m[e].parent.value in m && NextYounger(m, e, t) && t.Some?
    ensures t.value in m && m[t.value].parent == m[e].parent && SablingRight(m, t.value)
  {
  }

  lemma RemoveParents(m: Elems, next: nat, e: nat, t: Option<nat>)
    requires Parents(m, next) && Lists(m) && e in m && e != ROOT && m[e].child == None
    requires m[e].parent.Some? && m[e].parent.value in m && NextYounger(m, e, t)
    ensures Parents(Remove(m, e, t), next)
  {
    hide Parents, Lists, SablingRight;
    var n := Remove(m, e, t);
    ChildOf(m, e);
    RootOf(m, next);
    if t.Some? { ParentOf(m, next, t.value); }
    forall i | i in n ensures ParentRight(n, next, i) {
      ParentOf(m, next, i);
      assert !Below(m, e, i);
    }
    ParentsMade(n, next);
  }

  lemma RemoveNames(m: Elems, e: nat, t: Option<nat>)
    requires Names(m) && e in m && m[e].parent.Some? && m[e].parent.value in m && NextYounger(m, e, t)
    ensures Names(Remove(m, e, t))
  {
    var n := Remove(m, e, t);
    SameNames(m, n);
  }

  lemma SameNames(m: Elems, n: Elems)
    requires Names(m) && forall i :: i in n ==> i in m && n[i].parent == m[i].parent && n[i].name == m[i].name
    ensures Names(n)
  {
    forall i: nat ensures NameRight(n, i) {
      assert NameRight(m, i);
    }
    forall i: nat, j: nat ensures NamesDiffer(n, i, j) {
      assert NamesDiffer(m, i, j);
    }
  }

  /** Without e, and with everything else where it was. */
  lemma RemoveBelow(m: Elems, e: nat, t: Option<nat>, p: nat)
    requires e in m && m[e].parent.Some? && m[e].parent.value in m && NextYounger(m, e, t)
    ensures forall k: nat :: Below(Remove(m, e, t), p, k) <==> k != e && Below(m, p, k)
  {
  }

  lemma RemoveChild(m: Elems, e: nat, t: Option<nat>, x: nat)
    requires e in m && m[e].parent.Some? && m[e].parent.value in m && NextYounger(m, e, t) && SablingRight(m, e)
    requires ChildRight(m, m[e].parent.value) && (t.Some? ==> SablingRight(m, t.value))
    requires x in Remove(m, e, t) && x in m && ChildRight(m, x)
    ensures ChildRight(Remove(m, e, t), x)
  {
    RemoveBelow(m, e, t, x);
    var d := m[e].parent.value;
    assert Below(m, d, e);
    assert t.Some? ==> Below(m, d, t.value);
  }

  lemma RemoveSabling(m: Elems, e: nat, t: Option<nat>, i: nat)
    requires e in m && m[e].parent.Some? && m[e].parent.value in m && NextYounger(m, e, t) && SablingRight(m, e)
    requires ChildRight(m, m[e].parent.value) && (t.Some? ==> SablingRight(m, t.value))
    requires i in Remove(m, e, t) && i in m && m[i].parent.Some? && SablingRight(m, i)
    ensures SablingRight(Remove(m, e, t), i)
  {
    var d, p := m[e].parent.value, m[i].parent.value;
    RemoveBelow(m, e, t, p);
    assert Below(m, d, e) && Below(m, p, i);
    assert t.Some? ==> Below(m, d, t.value);
  }

  lemma RenameKeeps(m: Elems, next: nat, e: nat, d: nat, name: bytes)
    requires WellFormed(m, next) && e in m && m[e].parent == Some(d) && NameOk(name)
    requires forall k: nat :: Below(m, d, k) ==> m[k].name != name
    ensures WellFormed(WithName(m, e, name), next)
  {
    hide Lists, Parents;
    var n := WithName(m, e, name);
    RootOf(m, next);
    SameLinksKeep(m, n, next);
    assert forall k: nat :: k in m && m[k].parent == Some(d) ==> Below(m, d, k);
    forall i: nat ensures NameRight(n, i) {
      assert NameRight(m, i);
    }
    forall i: nat, j: nat ensures NamesDiffer(n, i, j) {
      assert NamesDiffer(m, i, j);
    }
  }

  /** Reference counts and contents are no part of the tree. */
  lemma RestKeeps(m: Elems, next: nat, e: nat, refs: nat, content: bytes)
    requires WellFormed(m, next) && e in m
    ensures WellFormed(WithContent(WithRefs(m, e, refs), e, content), next)
  {
    hide Lists, Parents, Names;
    SameLinksKeep(m, WithContent(WithRefs(m, e, refs), e, content), next);
    SameNames(m, WithContent(WithRefs(m, e, refs), e, content));
  }

  // --- paths ---

  ghost function Child(m: Elems, d: nat, name: bytes): (c: Option<nat>)
    ensures c.Some? ==> Below(m, d, c.value) && m[c.value].name == name
  {
    if exists k: nat :: Below(m, d, k) && m[k].name == name
    then var k: nat :| Below(m, d, k) && m[k].name == name; Some(k)
    else None
  }

  lemma ChildIs(m: Elems, d: nat, k: nat)
    requires Names(m) && Below(m, d, k)
    ensures Child(m, d, m[k].name) == Some(k)
  {
    var c := Child(m, d, m[k].name);
    assert c.Some? ==> NamesDiffer(m, c.value, k);
  }

  /**
   * What a walk over the components finds: the element, and the components left when the next one is missing;
   * None for a file on the way or a name too long. trailing says that a slash follows the last component.
   */
  ghost function Lookup(m: Elems, d: nat, cs: seq<bytes>, trailing: bool): Option<(nat, seq<bytes>)>
    requires d in m
    decreases cs
  {
    if !m[d].dir then None
    else if cs == [] then Some((d, []))
    else if |cs[0]| >= MAX_NAME then None
    else
      match Child(m, d, cs[0])
      case None => Some((d, cs))
      case Some(k) => if |cs| == 1 && !trailing then Some((k, [])) else Lookup(m, k, cs[1..], trailing)
  }

  /** The names from the root down to e. */
  ghost function Path(m: Elems, e: nat): seq<bytes>
    decreases e
  {
    if e !in m || m[e].parent == None || m[e].parent.value >= e then []
    else Path(m, m[e].parent.value) + [m[e].name]
  }

  lemma PathStep(m: Elems, next: nat, d: nat, k: nat)
    requires Parents(m, next) && Below(m, d, k)
    ensures k != ROOT && d in m && m[d].dir && d < k && Path(m, k) == Path(m, d) + [m[k].name]
  {
    hide Parents;
    RootOf(m, next);
    ParentOf(m, next, k);
  }

  /** A lookup splits the path it is given at the deepest element on it. */
  lemma {:induction false} LookupSplits(m: Elems, next: nat, d: nat, cs: seq<bytes>, trailing: bool)
    requires WellFormed(m, next) && d in m && Lookup(m, d, cs, trailing).Some?
    ensures var (e, rest) := Lookup(m, d, cs, trailing).value;
      && e in m && Path(m, e) + rest == Path(m, d) + cs && |rest| <= |cs|
      && (rest != [] ==> m[e].dir && Child(m, e, rest[0]) == None && |rest[0]| < MAX_NAME)
      && (trailing || cs == [] ==> m[e].dir)
    decreases cs
  {
    hide Parents, Lists, Names, Path;
    if cs != [] {
      var c := Child(m, d, cs[0]);
      if c.Some? {
        PathStep(m, next, d, c.value);
        assert Path(m, d) + cs == Path(m, c.value) + cs[1..];
        if |cs| == 1 && !trailing {
          assert cs[1..] == [];
        } else {
          LookupSplits(m, next, c.value, cs[1..], trailing);
        }
      }
    }
  }

  /** A lookup passes through every element on the path. */
  lemma {:induction false} LookupVia(m: Elems, next: nat, e: nat, rest: seq<bytes>, trailing: bool)
    requires WellFormed(m, next) && e in m
    ensures ROOT in m && Lookup(m, ROOT, Path(m, e) + rest, trailing) ==
      if rest == [] && !trailing && e != ROOT then Some((e, [])) else Lookup(m, e, rest, trailing)
    decreases e
  {
    hide Parents, Lists, Names;
    RootOf(m, next);
    if e == ROOT {
      assert Path(m, e) + rest == rest;
    } else {
      ParentOf(m, next, e);
      var p := m[e].parent.value;
      var cs := [m[e].name] + rest;
      NameOf(m, e);
      assert Below(m, p, e);
      ChildIs(m, p, e);
      LookupVia(m, next, p, cs, trailing);
      assert Path(m, e) + rest == Path(m, p) + cs && cs[1..] == rest;
    }
  }

  lemma NameOf(m: Elems, e: nat)
    requires Names(m) && e in m && e != ROOT
    ensures NameOk(m[e].name)
  {
    assert NameRight(m, e);
  }

  /** The components lead through element e, and stop there for good: a file, or a name too long. */
  ghost predicate Blocked(m: Elems, e: nat, rest: seq<bytes>, trailing: bool) {
    e in m && if m[e].dir then rest != [] && |rest[0]| >= MAX_NAME else rest != [] || trailing
  }

  lemma {:induction false} LookupBlocked(m: Elems, next: nat, d: nat, cs: seq<bytes>, trailing: bool)
    returns (e: nat, rest: seq<bytes>)
    requires WellFormed(m, next) && d in m && Lookup(m, d, cs, trailing) == None && (m[d].dir || cs != [] || trailing)
    ensures Path(m, e) + rest == Path(m, d) + cs && Blocked(m, e, rest, trailing)
    decreases cs
  {
    hide Parents, Lists, Names, Path;
    e, rest := d, cs;
    if m[d].dir && |cs[0]| < MAX_NAME {
      var c := Child(m, d, cs[0]);
      PathStep(m, next, d, c.value);
      assert Path(m, d) + cs == Path(m, c.value) + cs[1..];
      e, rest := LookupBlocked(m, next, c.value, cs[1..], trailing);
    }
  }

  /**
   * Looking up agrees with the paths of the elements: what is found is the element whose path is the longest
   * prefix, every element is found by its own path, and a lookup fails exactly when an element on the path is
   * a file with more to come, or a directory with a name too long to come.
   */
  lemma LookupExactly(m: Elems, next: nat, cs: seq<bytes>, trailing: bool)
    requires WellFormed(m, next)
    ensures ROOT in m
    ensures Lookup(m, ROOT, cs, trailing) == None <==>
      exists e, rest :: cs == Path(m, e) + rest && Blocked(m, e, rest, trailing)
    ensures forall e :: e in m && cs == Path(m, e) && !trailing ==> Lookup(m, ROOT, cs, trailing) == Some((e, []))
    ensures Lookup(m, ROOT, cs, trailing).Some? ==>
      var (e, rest) := Lookup(m, ROOT, cs, trailing).value;
      e in m && cs == Path(m, e) + rest
      && forall x, more :: x in m && cs == Path(m, x) + more ==> |Path(m, x)| <= |Path(m, e)|
  {
    hide Parents, Lists, Names, Path, Lookup;
    RootOf(m, next);
    RootPath(m, next);
    assert Path(m, ROOT) + cs == cs;
    forall e, rest | cs == Path(m, e) + rest && Blocked(m, e, rest, trailing)
      ensures Lookup(m, ROOT, cs, trailing) == None
    {
      LookupVia(m, next, e, rest, trailing);
      BlockedFails(m, e, rest, trailing);
    }
    if Lookup(m, ROOT, cs, trailing) == None {
      var e, rest := LookupBlocked(m, next, ROOT, cs, trailing);
      assert cs == Path(m, e) + rest;
    } else {
      LookupSplits(m, next, ROOT, cs, trailing);
      var (e, rest) := Lookup(m, ROOT, cs, trailing).value;
      forall x, more | x in m && cs == Path(m, x) + more ensures |Path(m, x)| <= |Path(m, e)| {
        LookupVia(m, next, x, more, trailing);
        if more != [] || trailing || x == ROOT {
          LookupSplits(m, next, x, more, trailing);
        }
        assert |cs| == |Path(m, x)| + |more| == |Path(m, e)| + |rest|;
      }
    }
    forall e | e in m && cs == Path(m, e) && !trailing ensures Lookup(m, ROOT, cs, trailing) == Some((e, [])) {
      LookupVia(m, next, e, [], trailing);
      assert Path(m, e) + [] == cs;
      LookupHere(m, e, trailing);
    }
  }

  lemma LookupHere(m: Elems, e: nat, trailing: bool)
    requires e in m
    ensures m[e].dir ==> Lookup(m, e, [], trailing) == Some((e, []))
  {
  }

  lemma RootPath(m: Elems, next: nat)
    requires Parents(m, next)
    ensures Path(m, ROOT) == []
  {
  }

  lemma BlockedFails(m: Elems, e: nat, rest: seq<bytes>, trailing: bool)
    requires Blocked(m, e, rest, trailing)
    ensures Lookup(m, e, rest, trailing) == None
  {
  }

  // --- what the changes do to the paths ---

  lemma PathUnique(m: Elems, next: nat, a: nat, b: nat)
    requires WellFormed(m, next) && a in m && b in m && Path(m, a) == Path(m, b)
    ensures a == b
  {
    hide WellFormed, Lookup, Path;
    LookupExactly(m, next, Path(m, a), false);
  }

  /** An element keeps its path when every element up to the root keeps its name and parent. */
  lemma {:induction false} SamePath(m: Elems, n: Elems, next: nat, x: nat)
    requires Parents(m, next) && x in m
    requires forall i :: i in m && i <= x && i in n ==> n[i].parent == m[i].parent && n[i].name == m[i].name
    requires forall i :: i in m && i <= x && i !in n ==> forall k: nat :: !Below(m, i, k)
    requires x in n
    ensures Path(n, x) == Path(m, x)
    decreases x
  {
    hide Parents;
    RootOf(m, next);
    ParentOf(m, next, x);
    if x != ROOT {
      var p := m[x].parent.value;
      assert Below(m, p, x);
      SamePath(m, n, next, p);
    }
  }

  lemma InsertPaths(m: Elems, next: nat, d: nat, name: bytes, dir: bool, refs: nat)
    requires WellFormed(m, next) && d in m
    ensures var n := Insert(m, d, next, name, dir, refs);
      Path(n, next) == Path(m, d) + [name] && forall x :: x in m ==> Path(n, x) == Path(m, x)
  {
    hide Parents, Lists, Names;
    var n := Insert(m, d, next, name, dir, refs);
    forall x | x in m ensures Path(n, x) == Path(m, x) {
      ParentOf(m, next, x);
      NextIsNew(m, next);
      SamePath(m, n, next, x);
    }
    ParentOf(m, next, d);
  }

  lemma RemovePaths(m: Elems, next: nat, e: nat, t: Option<nat>)
    requires WellFormed(m, next) && e in m && e != ROOT && m[e].child == None
    requires m[e].parent.Some? && m[e].parent.value in m && NextYounger(m, e, t)
    ensures forall x :: x in m && x != e ==> Path(Remove(m, e, t), x) == Path(m, x)
  {
    hide Parents, Lists, Names, Path;
    var n := Remove(m, e, t);
    ChildOf(m, e);
    forall x | x in m && x != e ensures Path(n, x) == Path(m, x) {
      SamePath(m, n, next, x);
    }
  }

  /** The path of x once the element with path from bears another name. */
  function Moved(path: seq<bytes>, from: seq<bytes>, name: bytes): seq<bytes>
    requires from != []
  {
    if from <= path then path[|from| - 1 := name] else path
  }

  /** Renaming moves exactly the element and what is below it. */
  lemma {:induction false} RenamePaths(m: Elems, next: nat, e: nat, name: bytes, x: nat)
    requires WellFormed(m, next) && e in m && e != ROOT && x in m
    ensures Path(m, e) != [] && Path(WithName(m, e, name), x) == Moved(Path(m, x), Path(m, e), name)
    decreases x
  {
    hide Parents, Lists, Names, Path, WellFormed;
    var n := WithName(m, e, name);
    FullyFormed(m, next);
    PathEnds(m, next, e);
    if x == ROOT {
      RootOf(m, next);
      RootPath(m, next);
      NoParentPath(n, ROOT);
    } else {
      ParentOf(m, next, x);
      var q := m[x].parent.value;
      PathEnds(m, next, x);
      PathEndsIn(n, x, q);
      RenamePaths(m, next, e, name, q);
      if x == e {
        assert !(Path(m, e) <= Path(m, q));
      } else if Path(m, e) <= Path(m, x) && !(Path(m, e) <= Path(m, q)) {
        assert Path(m, e) == Path(m, x)[..|Path(m, e)|];
        assert |Path(m, e)| == |Path(m, x)|;
        PathUnique(m, next, e, x);
        assert false;
      } else if Path(m, e) <= Path(m, q) {
        assert (Path(m, q) + [m[x].name])[|Path(m, e)| - 1 := name]
            == Path(m, q)[|Path(m, e)| - 1 := name] + [m[x].name];
      }
    }
  }

  lemma FullyFormed(m: Elems, next: nat)
    requires WellFormed(m, next)
    ensures Parents(m, next) && Lists(m) && Names(m)
  {
  }

  lemma PathEnds(m: Elems, next: nat, e: nat)
    requires Parents(m, next) && e in m && e != ROOT
    ensures m[e].parent.Some? && m[e].parent.value in m && Path(m, e) == Path(m, m[e].parent.value) + [m[e].name]
  {
    ParentOf(m, next, e);
  }

  lemma PathEndsIn(n: Elems, e: nat, p: nat)
    requires e in n && n[e].parent == Some(p) && p < e
    ensures Path(n, e) == Path(n, p) + [n[e].name]
  {
  }

  lemma NoParentPath(n: Elems, e: nat)
    requires e in n ==> n[e].parent == None
    ensures Path(n, e) == []
  {
  }
}
