/** What the operations on paths answer, and that they answer it by the paths of the elements. */
module RamPaths {
  import opened Basics
  import opened VfsPaths
  import opened RamTree

  /** A slash follows the last name. */
  predicate Trailing(path: bytes) {
    path != [] && path[|path| - 1] == SLASH
  }

  /** What looking path up from the root of m finds. */
  ghost function Found(m: Elems, path: bytes): Option<(nat, seq<bytes>)>
    requires ROOT in m
  {
    Lookup(m, ROOT, Components(path), Trailing(path))
  }

  datatype Flags = Flags(creat: bool, excl: bool, append: bool)

  // --- the answers ---

  datatype Opened = Refused | Existing(e: nat) | Created(d: nat, name: bytes)

  ghost function Opening(m: Elems, path: bytes, flags: Flags, memory: bool): Opened
    requires ROOT in m
  {
    if path == [] || Found(m, path) == None then Refused
    else
      var (e, rest) := Found(m, path).value;
      if rest == [] then
        if e !in m || m[e].dir || (flags.creat && flags.excl) then Refused else Existing(e)
      else if flags.creat && |rest| == 1 && !Trailing(path) && memory then Created(e, rest[0])
      else Refused
  }

  /** The directory and name mkdir makes, if any: slashes may follow the new name. */
  ghost function Making(m: Elems, path: bytes, memory: bool): Option<(nat, bytes)>
    requires ROOT in m
  {
    if Found(m, path) == None then None
    else
      var (d, rest) := Found(m, path).value;
      if |rest| == 1 && memory then Some((d, rest[0])) else None
  }

  /** The element unlink takes out: it is not in use and no directory with children. */
  ghost function Unlinking(m: Elems, path: bytes): Option<nat>
    requires ROOT in m
  {
    match Found(m, path)
    case None => None
    case Some((e, rest)) =>
      if rest == [] && e in m && m[e].refs == 0 && (m[e].dir ==> forall k: nat :: !Below(m, e, k))
      then Some(e) else None
  }

  /** The element rename names, and its new name: nothing has it yet, and the directory stays the same. */
  ghost function Renaming(m: Elems, from: bytes, to: bytes): Option<(nat, bytes)>
    requires ROOT in m
  {
    match (Found(m, from), Found(m, to))
    case (Some((e, rest)), Some((d, left))) =>
      if rest == [] && e in m && m[e].parent == Some(d) && |left| == 1 && !Trailing(to)
      then Some((e, left[0])) else None
    case _ => None
  }

  /** e was taken out of its directory's list, and nothing else changed. */
  ghost predicate Detached(m: Elems, n: Elems, e: nat) {
    && e in m && m[e].parent.Some? && m[e].parent.value in m
    && exists t :: NextYounger(m, e, t) && n == Remove(m, e, t)
  }

  // --- paths that lead to elements ---

  /** The names of the path are those from the root down to e; only behind a directory may a slash follow. */
  ghost predicate LeadsTo(m: Elems, path: bytes, e: nat) {
    e in m && Components(path) == Path(m, e) && (Trailing(path) ==> m[e].dir)
  }

  /** The path names an element there is not: an allowed name in the directory d. */
  ghost predicate Missing(m: Elems, path: bytes, d: nat, name: bytes) {
    && d in m && m[d].dir && Components(path) == Path(m, d) + [name] && |name| < 16
    && forall x :: x in m ==> Path(m, x) != Components(path)
  }

  /** Nobody uses e and it has no child. */
  ghost predicate Removable(m: Elems, e: nat) {
    e in m && m[e].refs == 0 && forall k: nat :: !Below(m, e, k)
  }

  lemma LeadsExactly(m: Elems, next: nat, path: bytes, e: nat)
    requires WellFormed(m, next)
    ensures ROOT in m && (Found(m, path) == Some((e, [])) <==> LeadsTo(m, path, e))
  {
    hide WellFormed, Lookup, Path, Components;
    FullyFormed(m, next);
    RootOf(m, next);
    RootPath(m, next);
    assert [] + Components(path) == Components(path);
    if Found(m, path) == Some((e, [])) {
      LookupSplits(m, next, ROOT, Components(path), Trailing(path));
      assert Path(m, e) + [] == Path(m, e);
    }
    if LeadsTo(m, path, e) {
      LookupVia(m, next, e, [], Trailing(path));
      assert Path(m, e) + [] == Path(m, e);
      LookupHere(m, e, Trailing(path));
    }
  }

  /** A child with the name is an element with the longer path. */
  lemma ChildByPath(m: Elems, next: nat, d: nat, name: bytes)
    requires WellFormed(m, next) && d in m && m[d].dir
    ensures Child(m, d, name) == None <==> forall x :: x in m ==> Path(m, x) != Path(m, d) + [name]
  {
    hide WellFormed, Path;
    FullyFormed(m, next);
    var c := Child(m, d, name);
    if c.Some? {
      PathStep(m, next, d, c.value);
      assert c.value in m && Path(m, c.value) == Path(m, d) + [name];
    } else {
      forall x | x in m ensures Path(m, x) != Path(m, d) + [name] {
        NoChildNoPath(m, next, d, name, x);
      }
    }
  }

  lemma NoChildNoPath(m: Elems, next: nat, d: nat, name: bytes, x: nat)
    requires WellFormed(m, next) && d in m && Child(m, d, name) == None && x in m
    ensures Path(m, x) != Path(m, d) + [name]
  {
    hide WellFormed, Path;
    FullyFormed(m, next);
    assert !(Below(m, d, x) && m[x].name == name);
    if x == ROOT {
      RootPath(m, next);
    } else {
      PathEnds(m, next, x);
      var p := m[x].parent.value;
      if Path(m, x) == Path(m, d) + [name] {
        LastOff(Path(m, p), m[x].name, Path(m, d), name);
        PathUnique(m, next, p, d);
      }
    }
  }

  lemma LastOff(a: seq<bytes>, x: bytes, b: seq<bytes>, y: bytes)
    requires a + [x] == b + [y]
    ensures a == b && x == y
  {
    assert |a + [x]| == |b + [y]|;
    assert (a + [x])[..|a|] == a && (b + [y])[..|b|] == b;
    assert (a + [x])[|a|] == x && (b + [y])[|b|] == y;
  }

  /** A lookup leaves one name over exactly when the path names a missing element of a directory. */
  lemma MissingExactly(m: Elems, next: nat, path: bytes, d: nat, name: bytes)
    requires WellFormed(m, next)
    ensures ROOT in m && (Found(m, path) == Some((d, [name])) <==> Missing(m, path, d, name))
  {
    hide WellFormed, Lookup, Path, Components;
    FullyFormed(m, next);
    RootOf(m, next);
    RootPath(m, next);
    assert [] + Components(path) == Components(path);
    if Found(m, path) == Some((d, [name])) {
      LookupSplits(m, next, ROOT, Components(path), Trailing(path));
      ChildByPath(m, next, d, name);
    }
    if Missing(m, path, d, name) {
      ChildByPath(m, next, d, name);
      LookupVia(m, next, d, [name], Trailing(path));
      OneMissing(m, d, name, Trailing(path));
    }
  }

  lemma OneMissing(m: Elems, d: nat, name: bytes, trailing: bool)
    requires d in m && m[d].dir && |name| < MAX_NAME && Child(m, d, name) == None
    ensures Lookup(m, d, [name], trailing) == Some((d, [name]))
  {
  }

  // --- the answers by path ---

  /** Unlink takes out exactly an element its path leads to that nobody uses and that has no child. */
  lemma UnlinkExactly(m: Elems, next: nat, path: bytes, e: nat)
    requires WellFormed(m, next)
    ensures ROOT in m && (Unlinking(m, path) == Some(e) <==> LeadsTo(m, path, e) && Removable(m, e))
  {
    hide WellFormed, Found, LeadsTo;
    FullyFormed(m, next);
    RootOf(m, next);
    LeadsExactly(m, next, path, e);
    if LeadsTo(m, path, e) {
      LeadsIn(m, path, e);
      if !m[e].dir {
        ChildlessFile(m, next, e);
      }
    }
    if Unlinking(m, path) == Some(e) {
      assert Found(m, path) == Some((e, []));
    }
  }

  lemma LeadsIn(m: Elems, path: bytes, e: nat)
    requires LeadsTo(m, path, e)
    ensures e in m
  {
  }

  lemma ChildlessFile(m: Elems, next: nat, e: nat)
    requires Parents(m, next) && e in m && !m[e].dir
    ensures forall k: nat :: !Below(m, e, k)
  {
    hide Parents;
    forall k: nat | Below(m, e, k) ensures false {
      PathStep(m, next, e, k);
    }
  }

  /** Afterwards the path leads nowhere, and every other element is where it was. */
  lemma AfterUnlink(m: Elems, next: nat, path: bytes, e: nat, n: Elems)
    requires WellFormed(m, next) && LeadsTo(m, path, e) && Removable(m, e) && e != ROOT && Detached(m, n, e)
    ensures WellFormed(n, next) && n.Keys == m.Keys - {e}
    ensures forall x :: x in n ==> Path(n, x) == Path(m, x) && Path(n, x) != Components(path)
  {
    hide WellFormed, Path, Components, Remove, NextYounger;
    FullyFormed(m, next);
    ChildOf(m, e);
    var t := DetachedMeans(m, n, e);
    RemoveKeeps(m, next, e, t);
    RemovePaths(m, next, e, t);
    forall x | x in n ensures Path(m, x) != Path(m, e) {
      if Path(m, x) == Path(m, e) {
        PathUnique(m, next, x, e);
      }
    }
  }

  lemma DetachedMeans(m: Elems, n: Elems, e: nat) returns (t: Option<nat>)
    requires Detached(m, n, e)
    ensures e in m && m[e].parent.Some? && m[e].parent.value in m && NextYounger(m, e, t) && (t.Some? ==> t.value in m)
    ensures n == Remove(m, e, t) && n.Keys == m.Keys - {e}
  {
    t :| NextYounger(m, e, t) && n == Remove(m, e, t);
  }

  /** Mkdir makes exactly a missing element of a directory, slashes after its name allowed, while there is memory. */
  lemma MkdirExactly(m: Elems, next: nat, path: bytes, memory: bool, d: nat, name: bytes)
    requires WellFormed(m, next)
    ensures ROOT in m && (Making(m, path, memory) == Some((d, name)) <==> memory && Missing(m, path, d, name))
  {
    hide WellFormed, Found, Missing;
    RootThere(m, next);
    MissingExactly(m, next, path, d, name);
    if Making(m, path, memory) == Some((d, name)) {
      var rest := Found(m, path).value.1;
      assert rest == [rest[0]];
    }
  }

  lemma RootThere(m: Elems, next: nat)
    requires WellFormed(m, next)
    ensures ROOT in m
  {
  }

  /** The path then leads to the new element, and every other element is where it was. */
  lemma AfterInsert(m: Elems, next: nat, path: bytes, d: nat, name: bytes, dir: bool, refs: nat)
    requires WellFormed(m, next) && Missing(m, path, d, name) && (Trailing(path) ==> dir)
    ensures next !in m
    ensures var n := Insert(m, d, next, name, dir, refs);
      && n.Keys == m.Keys + {next} && LeadsTo(n, path, next) && n[next].dir == dir
      && forall x :: x in m ==> Path(n, x) == Path(m, x)
  {
    hide WellFormed, Path, Components;
    FullyFormed(m, next);
    NextIsNew(m, next);
    InsertPaths(m, next, d, name, dir, refs);
  }

  /** An open finds exactly a file its path leads to, unless a new one is asked for. */
  lemma OpenExactly(m: Elems, next: nat, path: bytes, flags: Flags, memory: bool, e: nat)
    requires WellFormed(m, next)
    ensures ROOT in m
    ensures Opening(m, path, flags, memory) == Existing(e) <==>
      path != [] && LeadsTo(m, path, e) && e in m && !m[e].dir && !(flags.creat && flags.excl)
  {
    hide WellFormed, Found, LeadsTo;
    RootThere(m, next);
    LeadsExactly(m, next, path, e);
    if Opening(m, path, flags, memory) == Existing(e) {
      var f := Found(m, path).value;
      assert f.0 == e && f.1 == [];
    }
  }

  /** It makes exactly a missing element of a directory, without a slash behind, when it may and memory is granted. */
  lemma CreateExactly(m: Elems, next: nat, path: bytes, flags: Flags, memory: bool, d: nat, name: bytes)
    requires WellFormed(m, next)
    ensures ROOT in m
    ensures Opening(m, path, flags, memory) == Created(d, name) <==>
      path != [] && flags.creat && memory && !Trailing(path) && Missing(m, path, d, name)
  {
    hide WellFormed, Found, Missing;
    RootThere(m, next);
    MissingExactly(m, next, path, d, name);
    if Opening(m, path, flags, memory) == Created(d, name) {
      var rest := Found(m, path).value.1;
      assert rest == [rest[0]];
    }
  }

  /** The path leads to a file, or names a missing element that may be made. */
  ghost predicate CanOpen(m: Elems, path: bytes, flags: Flags, memory: bool) {
    path != []
    && ((!(flags.creat && flags.excl) && exists e :: LeadsTo(m, path, e) && !m[e].dir)
        || (flags.creat && memory && !Trailing(path) && exists d, name :: Missing(m, path, d, name)))
  }

  lemma OpensExactly(m: Elems, next: nat, path: bytes, flags: Flags, memory: bool)
    requires WellFormed(m, next)
    ensures ROOT in m && (Opening(m, path, flags, memory) != Refused <==> CanOpen(m, path, flags, memory))
  {
    hide WellFormed, Opening, LeadsTo, Missing;
    RootThere(m, next);
    forall e: nat | LeadsTo(m, path, e) ensures e in m {
      LeadsIn(m, path, e);
    }
    forall e: nat
      ensures Opening(m, path, flags, memory) == Existing(e) <==>
        path != [] && LeadsTo(m, path, e) && e in m && !m[e].dir && !(flags.creat && flags.excl)
    {
      OpenExactly(m, next, path, flags, memory, e);
    }
    forall d: nat, name: bytes
      ensures Opening(m, path, flags, memory) == Created(d, name) <==>
        path != [] && flags.creat && memory && !Trailing(path) && Missing(m, path, d, name)
    {
      CreateExactly(m, next, path, flags, memory, d, name);
    }
  }

  /** from leads to e, and to names an element that its directory has not. */
  ghost predicate CanRename(m: Elems, from: bytes, to: bytes, e: nat, name: bytes) {
    LeadsTo(m, from, e) && m[e].parent.Some? && Missing(m, to, m[e].parent.value, name) && !Trailing(to)
  }

  /** Rename takes exactly a path that leads to an element and one that names a missing element of its directory. */
  lemma RenameExactly(m: Elems, next: nat, from: bytes, to: bytes, e: nat, name: bytes)
    requires WellFormed(m, next)
    ensures ROOT in m
    ensures Renaming(m, from, to) == Some((e, name)) <==> CanRename(m, from, to, e, name)
  {
    hide WellFormed, Found, Missing, LeadsTo;
    RootThere(m, next);
    LeadsExactly(m, next, from, e);
    if LeadsTo(m, from, e) {
      LeadsIn(m, from, e);
    }
    if e in m && m[e].parent.Some? {
      MissingExactly(m, next, to, m[e].parent.value, name);
    }
    if Renaming(m, from, to) == Some((e, name)) {
      var f, g := Found(m, from).value, Found(m, to).value;
      assert f.0 == e && f.1 == [] && g.0 == m[e].parent.value && g.1 == [name];
    }
  }

  /** The new path then leads to the element, and exactly what was below the old path is below the new one. */
  lemma AfterRename(m: Elems, next: nat, from: bytes, to: bytes, e: nat, name: bytes)
    requires WellFormed(m, next) && CanRename(m, from, to, e, name)
    ensures e != ROOT && LeadsTo(WithName(m, e, name), to, e)
    ensures forall x :: x in m ==>
      Path(WithName(m, e, name), x) == Moved(Path(m, x), Components(from), name)
  {
    hide WellFormed, Path, Components;
    FullyFormed(m, next);
    RootOf(m, next);
    PathEnds(m, next, e);
    forall x | x in m ensures Path(WithName(m, e, name), x) == Moved(Path(m, x), Path(m, e), name) {
      RenamePaths(m, next, e, name, x);
    }
    assert (Path(m, m[e].parent.value) + [m[e].name])[|Path(m, e)| - 1 := name]
        == Path(m, m[e].parent.value) + [name];
  }
}
