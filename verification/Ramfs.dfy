/** ramfs: its operations over the elements of one mount point. */
module Ramfs {
  import opened Basics
  import opened VfsPaths
  import opened RamTree
  import opened RamPaths

  datatype Dirent = Dirent(name: bytes, dir: bool, size: nat)

  lemma OnlySlashes(s: bytes)
    requires s != [] && Components(s) == []
    ensures s[|s| - 1] == SLASH
  {
    if s[0] == SLASH && |s| > 1 {
      OnlySlashes(s[1..]);
    }
  }

  /** The children of d younger than k. */
  ghost function Younger(m: Elems, d: nat, k: int): set<nat> {
    set i | i in m && Below(m, d, i) && i > k
  }

  lemma NotADir(m: Elems, d: nat, cs: seq<bytes>, trailing: bool)
    requires d in m && !m[d].dir
    ensures Lookup(m, d, cs, trailing) == None
  {
  }

  lemma TurnAtEnd(m: Elems, next: nat, d: nat, path: bytes)
    requires d in m && m[d].dir && Names(m) && Parents(m, next)
    ensures Components(path[|path|..]) == [] && WordLen(path[|path|..]) == 0
    ensures Child(m, d, path[|path|..|path|]) == None
    ensures Lookup(m, d, Components(path[|path|..]), Trailing(path)) == Some((d, Components(path[|path|..])))
  {
    var c := Child(m, d, path[|path|..|path|]);
    RootOf(m, next);
    if c.Some? {
      NameOf(m, c.value);
    }
  }

  lemma TurnAtName(m: Elems, d: nat, path: bytes, at: nat, end: nat)
    requires d in m && m[d].dir && at < |path| && path[at] != SLASH && end == at + WordLen(path[at..]) <= |path|
    ensures end > at && Components(path[at..]) != [] && Components(path[at..])[0] == path[at..end]
    ensures Lookup(m, d, Components(path[at..]), Trailing(path)) ==
      if end - at >= MAX_NAME then None
      else
        match Child(m, d, path[at..end])
        case None => Some((d, Components(path[at..])))
        case Some(k) =>
          if end == |path| then Some((k, Components(path[end..])))
          else Lookup(m, k, Components(path[end..]), Trailing(path))
  {
    FirstName(path, at);
    var cs := Components(path[at..]);
    assert cs[1..] == Components(path[end..]);
    if end == |path| {
      assert path[|path| - 1] == path[at..][WordLen(path[at..]) - 1];
    } else if Components(path[end..]) == [] {
      OnlySlashes(path[end..]);
    }
  }

  /** Whether the unresolved rest, from at on, is a single name with nothing after it, or slashes only. */
  lemma OneName(path: bytes, at: nat, end: nat)
    requires at < |path| && path[at] != SLASH && end == at + WordLen(path[at..]) <= |path|
    ensures end == |path| <==> |Components(path[at..])| == 1 && !Trailing(path)
    ensures Components(path[end..]) == [] <==> |Components(path[at..])| == 1
    ensures Components(path[at..])[0] == path[at..end]
  {
    hide WordLen;
    FirstName(path, at);
    if end == |path| {
      assert path[|path| - 1] == path[at..][WordLen(path[at..]) - 1];
    } else if Components(path[end..]) == [] {
      OnlySlashes(path[end..]);
    }
  }

  /** A name left over by a lookup can be given to a new element of the directory found. */
  lemma NewNameFits(m: Elems, next: nat, path: bytes)
    requires WellFormed(m, next) && ROOT in m && Found(m, path).Some? && Found(m, path).value.1 != []
    ensures var (d, rest) := Found(m, path).value;
      d in m && m[d].dir && NameOk(rest[0]) && forall k: nat :: Below(m, d, k) ==> m[k].name != rest[0]
  {
    hide WellFormed, Lookup;
    LookupSplits(m, next, ROOT, Components(path), Trailing(path));
    var (d, rest) := Found(m, path).value;
    var cs := Components(path);
    assert rest == (Path(m, d) + rest)[|Path(m, d)|..] && Path(m, d) + rest == Path(m, ROOT) + cs;
    assert rest[0] in Path(m, ROOT) + cs;
    RootNameless(m, next);
    forall k: nat | Below(m, d, k) ensures m[k].name != rest[0] {
      FullyFormed(m, next);
      ChildIs(m, d, k);
    }
  }

  lemma RootNameless(m: Elems, next: nat)
    requires WellFormed(m, next)
    ensures Path(m, ROOT) == []
  {
    RootPath(m, next);
  }

  // --- what the operations answer ---

  /** What an open leaves: the elements, and the handle's element and offset. */
  ghost predicate OpenDone(m: Elems, o: Opened, append: bool, n: Elems, ok: bool, data: nat, offset: nat) {
    match o
    case Refused => !ok && n == m
    case Existing(e) =>
      && ok && data == e && e in m && !m[e].dir && n == WithRefs(m, e, m[e].refs + 1)
      && offset == if append then |m[e].content| else 0
    case Created(d, name) =>
      ok && data !in m && d in m && n == Insert(m, d, data, name, false, 1) && offset == 0
  }

  lemma OpenDoneExactly(m: Elems, o: Opened, append: bool)
    ensures forall n, ok, data, offset {:trigger OpenDone(m, o, append, n, ok, data, offset)} ::
      OpenDone(m, o, append, n, ok, data, offset) ==> (ok <==> o != Refused)
  {
  }

  lemma RefusedDone(m: Elems, append: bool)
    ensures OpenDone(m, Refused, append, m, false, 0, 0)
  {
  }

  lemma CreatedDone(m: Elems, next: nat, d: nat, name: bytes, append: bool)
    requires next !in m && d in m
    ensures OpenDone(m, Created(d, name), append, Insert(m, d, next, name, false, 1), true, next, 0)
  {
  }

  lemma OpeningNothing(m: Elems, flags: Flags, memory: bool)
    requires ROOT in m
    ensures Opening(m, [], flags, memory) == Refused
  {
  }

  lemma OpeningMissing(m: Elems, path: bytes, flags: Flags, memory: bool)
    requires ROOT in m && Found(m, path) == None
    ensures Opening(m, path, flags, memory) == Refused
  {
  }

  lemma OpeningAt(m: Elems, path: bytes, flags: Flags, memory: bool, e: nat, rest: seq<bytes>)
    requires ROOT in m && path != [] && Found(m, path) == Some((e, rest))
    ensures Opening(m, path, flags, memory) ==
      if rest == [] then
        if e !in m || m[e].dir || (flags.creat && flags.excl) then Refused else Existing(e)
      else if flags.creat && |rest| == 1 && !Trailing(path) && memory then Created(e, rest[0])
      else Refused
  {
  }

  class Ram {
    var elems: Elems
    var next: nat

    ghost predicate Valid()
      reads this
    {
      WellFormed(elems, next)
    }

    /** A fresh mount point: the root directory alone. */
    constructor ()
      ensures Valid() && elems.Keys == {ROOT} && elems[ROOT].refs == 0
    {
      elems := map[ROOT := Elem([], true, None, None, 0, None, [])];
      next := 1;
    }

    /** The loop over the children of d: the one whose name is name, if any. */
    method FindChild(d: nat, name: bytes) returns (t: Option<nat>)
      requires Valid() && d in elems
      ensures t == Child(elems, d, name)
    {
      t := elems[d].child;
      ChildOf(elems, d);
      while t.Some?
        invariant t.Some? ==> Below(elems, d, t.value)
        invariant forall k: nat :: Below(elems, d, k) && (t.None? || k > t.value) ==> elems[k].name != name
        decreases if t.Some? then t.value + 1 else 0
      {
        if elems[t.value].name == name {
          ChildIs(elems, d, t.value);
          return;
        }
        SablingOf(elems, t.value);
        t := elems[t.value].sabling;
      }
    }

    /**
     * ramfs_file_find: the deepest element on the path and where the unresolved rest begins; None for a file
     * on the way or a name too long.
     */
    method Find(path: bytes) returns (found: Option<(nat, nat)>)
      requires Valid()
      ensures ROOT in elems && (found == None <==> Found(elems, path) == None)
      ensures found.Some? ==>
        var e: nat, at: nat := found.value.0, found.value.1;
        && e in elems && at <= |path| && Found(elems, path) == Some((e, Components(path[at..])))
        && (at < |path| ==> path[at] != SLASH && elems[e].dir && Child(elems, e, Components(path[at..])[0]) == None)
    {
      hide Lookup, Components, WordLen;
      RootOf(elems, next);
      assert path[0..] == path;
      var walk: nat, at: nat := ROOT, 0;
      while true
        invariant walk in elems && at <= |path|
        invariant Found(elems, path) == Lookup(elems, walk, Components(path[at..]), Trailing(path))
        decreases |path| - at
      {
        if !elems[walk].dir {
          NotADir(elems, walk, Components(path[at..]), Trailing(path));
          return None;
        }
        at := SkipSlashes(path, at);
        var end := NameEnd(path, at);
        if at == |path| {
          TurnAtEnd(elems, next, walk, path);
        } else {
          TurnAtName(elems, walk, path, at, end);
        }
        if end - at >= MAX_NAME {
          return None;
        }
        var t := FindChild(walk, path[at..end]);
        if t == None {
          break;
        }
        at, walk := end, t.value;
        if end == |path| {
          break;
        }
      }
      return Some((walk, at));
    }

    method Retain(e: nat)
      requires Valid() && e in elems
      modifies this`elems
      ensures Valid() && e in old(elems) && elems == WithRefs(old(elems), e, old(elems)[e].refs + 1)
    {
      hide WellFormed;
      RestKeeps(elems, next, e, elems[e].refs + 1, elems[e].content);
      assert WithContent(WithRefs(elems, e, elems[e].refs + 1), e, elems[e].content)
          == WithRefs(elems, e, elems[e].refs + 1);
      elems := WithRefs(elems, e, elems[e].refs + 1);
    }

    /** A new element of directory d, in front of its other children. */
    method Create(d: nat, name: bytes, dir: bool, refs: nat) returns (id: nat)
      requires Valid() && d in elems && elems[d].dir && NameOk(name)
      requires forall k: nat :: Below(elems, d, k) ==> elems[k].name != name
      modifies this
      ensures Valid() && id == old(next) && id !in old(elems) && d in old(elems)
      ensures elems == Insert(old(elems), d, id, name, dir, refs)
    {
      hide WellFormed, Parents, Lists, Names, Below, Insert, NameOk;
      FullyFormed(elems, next);
      NextIsNew(elems, next);
      InsertKeeps(elems, next, d, name, dir, refs);
      id := next;
      elems, next := Insert(elems, d, id, name, dir, refs), next + 1;
      assert WellFormed(elems, next);
    }

    method OpenExisting(e: nat, flags: Flags) returns (ok: bool, data: nat, offset: nat)
      requires Valid() && e in elems
      modifies this`elems
      ensures Valid()
      ensures OpenDone(old(elems), if old(elems)[e].dir || (flags.creat && flags.excl) then Refused else Existing(e),
                       flags.append, elems, ok, data, offset)
    {
      hide WellFormed, WithRefs;
      data, offset := e, 0;
      if elems[e].dir || (flags.creat && flags.excl) {
        return false, 0, 0;
      }
      if flags.append {
        offset := |elems[e].content|;
      }
      Retain(e);
      return true, e, offset;
    }

    method Open(path: bytes, flags: Flags, memory: bool) returns (ok: bool, data: nat, offset: nat)
      requires Valid()
      modifies this
      ensures Valid() && ROOT in old(elems)
      ensures OpenDone(old(elems), old(Opening(elems, path, flags, memory)), flags.append, elems, ok, data, offset)
      ensures ok <==> CanOpen(old(elems), path, flags, memory)
    {
      hide WellFormed, Parents, Lists, Names, Found, Opening, OpenDone, Insert, WithRefs, Components, WordLen, CanOpen;
      OpensExactly(elems, next, path, flags, memory);
      OpenDoneExactly(elems, Opening(elems, path, flags, memory), flags.append);
      FullyFormed(elems, next);
      RootOf(elems, next);
      OpeningNothing(elems, flags, memory);
      RefusedDone(elems, flags.append);
      data, offset := 0, 0;
      if |path| == 0 {
        return false, 0, 0;
      }
      var found := Find(path);
      if found == None {
        OpeningMissing(elems, path, flags, memory);
        return false, 0, 0;
      }
      var walk: nat, at: nat := found.value.0, found.value.1;
      OpeningAt(elems, path, flags, memory, walk, Components(path[at..]));
      RestEmpty(path, at);
      if at == |path| {
        ok, data, offset := OpenExisting(walk, flags);
        return;
      }
      if !flags.creat {
        return false, 0, 0;
      }
      var end := NameEnd(path, at);
      OneName(path, at, end);
      if end != |path| || end - at >= MAX_NAME || !memory {
        NewNameFits(elems, next, path);
        return false, 0, 0;
      }
      NewNameFits(elems, next, path);
      NextIsNew(elems, next);
      CreatedDone(elems, next, walk, path[at..end], flags.append);
      data := Create(walk, path[at..end], false, 1);
      return true, data, 0;
    }

    method Mkdir(path: bytes, memory: bool) returns (ok: bool)
      requires Valid()
      modifies this
      ensures Valid() && ROOT in old(elems)
      ensures match old(Making(elems, path, memory))
        case None => !ok && elems == old(elems)
        case Some((d, name)) =>
          ok && d in old(elems) && old(next) !in old(elems) && elems == Insert(old(elems), d, old(next), name, true, 0)
      ensures ok <==> memory && exists d, name :: Missing(old(elems), path, d, name)
    {
      hide WellFormed, Parents, Lists, Names, Found, Insert, Components, WordLen, Missing;
      RootThere(elems, next);
      forall d: nat, name: bytes
        ensures Making(elems, path, memory) == Some((d, name)) <==> memory && Missing(elems, path, d, name)
      {
        MkdirExactly(elems, next, path, memory, d, name);
      }
      FullyFormed(elems, next);
      RootOf(elems, next);
      var found := Find(path);
      if found == None {
        return false;
      }
      var parent: nat, at: nat := found.value.0, found.value.1;
      RestEmpty(path, at);
      if at == |path| {
        return false;
      }
      NewNameFits(elems, next, path);
      var end := NameEnd(path, at);
      OneName(path, at, end);
      var after := SkipSlashes(path, end);
      RestEmpty(path, after);
      if after != |path| || end - at >= MAX_NAME || !memory {
        return false;
      }
      var id := Create(parent, path[at..end], true, 0);
      return true;
    }

    /** ramfs_del: the list of the directory closes around e. */
    method Del(e: nat)
      requires Valid() && e in elems && elems[e].child == None
      modifies this`elems
      ensures Valid() && (e == ROOT ==> elems == old(elems))
      ensures e != ROOT ==> Detached(old(elems), elems, e)
    {
      hide WellFormed, Parents, Lists, Names;
      FullyFormed(elems, next);
      RootOf(elems, next);
      if elems[e].parent == None {
        ParentOf(elems, next, e);
        return;
      }
      ParentOf(elems, next, e);
      var d := elems[e].parent.value;
      var t: Option<nat> := elems[d].child;
      ChildOf(elems, d);
      assert Below(elems, d, e);
      var younger: Option<nat> := None;
      if t != Some(e) {
        while elems[t.value].sabling != Some(e)
          modifies {}
          invariant t.Some? && Below(elems, d, t.value) && t.value > e
          decreases t.value
        {
          SablingOf(elems, t.value);
          t := elems[t.value].sabling;
        }
        younger := t;
      }
      RemoveKeeps(elems, next, e, younger);
      elems := Remove(elems, e, younger);
    }

    method Unlink(path: bytes) returns (ok: bool)
      requires Valid()
      modifies this`elems
      ensures Valid() && ROOT in old(elems)
      ensures match old(Unlinking(elems, path))
        case None => !ok && elems == old(elems)
        case Some(e) =>
          ok && e in old(elems) && if e == ROOT then elems == old(elems) else Detached(old(elems), elems, e)
      ensures ok <==> exists e :: LeadsTo(old(elems), path, e) && Removable(old(elems), e)
    {
      hide WellFormed, Parents, Lists, Names, Lookup, Components, LeadsTo, Removable;
      RootThere(elems, next);
      forall e: nat ensures Unlinking(elems, path) == Some(e) <==> LeadsTo(elems, path, e) && Removable(elems, e) {
        UnlinkExactly(elems, next, path, e);
      }
      FullyFormed(elems, next);
      RootOf(elems, next);
      var found := Find(path);
      if found == None {
        return false;
      }
      var e: nat, at: nat := found.value.0, found.value.1;
      RestEmpty(path, at);
      if at != |path| || elems[e].refs != 0 {
        return false;
      }
      ChildOf(elems, e);
      if elems[e].dir && elems[e].child != None {
        return false;
      }
      if !elems[e].dir {
        FileChildless(elems, next, e);
      }
      Del(e);
      return true;
    }

    method Rename(from: bytes, to: bytes) returns (ok: bool)
      requires Valid()
      modifies this`elems
      ensures Valid() && ROOT in old(elems)
      ensures match old(Renaming(elems, from, to))
        case None => !ok && elems == old(elems)
        case Some((e, name)) => ok && e in old(elems) && elems == WithName(old(elems), e, name)
      ensures ok <==> exists e, name :: CanRename(old(elems), from, to, e, name)
    {
      hide WellFormed, Parents, Lists, Names, Lookup, Components, WordLen, CanRename;
      RootThere(elems, next);
      forall e: nat, name: bytes
        ensures Renaming(elems, from, to) == Some((e, name)) <==> CanRename(elems, from, to, e, name)
      {
        RenameExactly(elems, next, from, to, e, name);
      }
      FullyFormed(elems, next);
      RootOf(elems, next);
      var found := Find(from);
      if found == None {
        return false;
      }
      var e: nat, at: nat := found.value.0, found.value.1;
      RestEmpty(from, at);
      if at != |from| {
        return false;
      }
      var target := Find(to);
      if target == None {
        return false;
      }
      var d: nat, start: nat := target.value.0, target.value.1;
      RestEmpty(to, start);
      if start == |to| {
        return false;
      }
      NewNameFits(elems, next, to);
      var end := NameEnd(to, start);
      OneName(to, start, end);
      if end != |to| || elems[e].parent != Some(d) || end - start >= MAX_NAME {
        return false;
      }
      RenameKeeps(elems, next, e, d, to[start..end]);
      elems := WithName(elems, e, to[start..end]);
      return true;
    }

    method Opendir(path: bytes) returns (ok: bool, data: nat)
      requires Valid()
      modifies this`elems
      ensures Valid() && ROOT in old(elems)
      ensures ok <==> old(Found(elems, path)).Some? && var (e, rest) := old(Found(elems, path)).value;
        rest == [] && e in old(elems) && old(elems)[e].dir
      ensures !ok ==> elems == old(elems)
      ensures ok ==> data == old(Found(elems, path)).value.0
      ensures ok ==> elems == WithRefs(old(elems), data, old(elems)[data].refs + 1)
      ensures ok <==> exists e :: LeadsTo(old(elems), path, e) && old(elems)[e].dir
    {
      hide WellFormed, Parents, Lists, Names, Lookup, Components, LeadsTo;
      RootThere(elems, next);
      forall e: nat ensures Found(elems, path) == Some((e, [])) <==> LeadsTo(elems, path, e) {
        LeadsExactly(elems, next, path, e);
      }
      var found := Find(path);
      if found == None {
        return false, 0;
      }
      var e: nat, at: nat := found.value.0, found.value.1;
      RestEmpty(path, at);
      if at != |path| || !elems[e].dir {
        return false, 0;
      }
      Retain(e);
      return true, e;
    }

    /** ramfs_close and ramfs_closedir. */
    method Close(e: nat)
      requires Valid() && e in elems && elems[e].refs > 0
      modifies this`elems
      ensures Valid() && e in old(elems) && elems == WithRefs(old(elems), e, old(elems)[e].refs - 1)
    {
      hide WellFormed;
      RestKeeps(elems, next, e, elems[e].refs - 1, elems[e].content);
      assert WithContent(WithRefs(elems, e, elems[e].refs - 1), e, elems[e].content)
          == WithRefs(elems, e, elems[e].refs - 1);
      elems := WithRefs(elems, e, elems[e].refs - 1);
    }

    method Read(e: nat, offset: int, n: nat) returns (data: bytes, after: int)
      requires Valid() && e in elems
      ensures var c, from := elems[e].content, Max0(offset);
        data == (if from < |c| then c[from..if n < |c| - from then from + n else |c|] else []) && after == from + |data|
    {
      var from := Max0(offset);
      var c := elems[e].content;
      if |c| <= from {
        return [], from;
      }
      var count := n;
      if |c| - from < n {
        count := |c| - from;
      }
      return c[from..from + count], from + count;
    }

    /**
     * grown says whether the memory pool could make room: if not, a write reaches as far as the file does.
     * written is None for the error return.
     */
    method Write(e: nat, offset: int, data: bytes, grown: bool) returns (written: Option<nat>, after: int)
      requires Valid() && e in elems && offset <= |elems[e].content|
      modifies this`elems
      ensures Valid() && e in old(elems)
      ensures var c, from := old(elems)[e].content, Max0(offset);
        && written == WriteLength(c, from, |data|, grown)
        && after == from + (if written.Some? then written.value else 0)
        && elems == if written.Some? then WithContent(old(elems), e, Splice(c, from, data[..written.value]))
                    else old(elems)
    {
      hide WellFormed;
      var from := Max0(offset);
      var c := elems[e].content;
      var n := |data|;
      if from + n > |c| {
        if grown {
          var more: bytes :| |more| == from + n - |c| by { assert |Fill(from + n - |c|)| == from + n - |c|; }
          c := c + more;
        } else {
          if |c| <= from {
            return None, from;
          }
          n := |c| - from;
        }
      }
      RestKeeps(elems, next, e, elems[e].refs, c[..from] + data[..n] + c[from + n..]);
      assert WithRefs(elems, e, elems[e].refs) == elems;
      assert c[..from] + data[..n] + c[from + n..] == Splice(elems[e].content, from, data[..n]);
      elems := WithContent(elems, e, c[..from] + data[..n] + c[from + n..]);
      return Some(n), from + n;
    }

    method Lseek(e: nat, offset: int, off: int, whence: Whence) returns (ok: bool, after: int)
      requires Valid() && e in elems
      ensures ok <==> whence != Other
      ensures after == if ok then Clamp(SeekTarget(offset, off, whence, |elems[e].content|), |elems[e].content|)
                       else offset
    {
      hide WellFormed;
      after := offset;
      var size := |elems[e].content|;
      match whence {
        case Set => after := off;
        case Cur => after := offset + off;
        case End => after := size;
        case Other => return false, offset;
      }
      if after < 0 {
        after := 0;
      }
      if after > size {
        after := size;
      }
      return true, after;
    }

    /** The entry at `index`, counting the children of d from the youngest. */
    method Readdir(d: nat, index: nat) returns (dent: Option<Dirent>)
      requires Valid() && d in elems
      ensures dent == None ==> |Younger(elems, d, -1)| <= index
      ensures dent.Some? ==> exists k: nat :: EntryOf(elems, d, k, index, dent.value)
    {
      ChildOf(elems, d);
      var child: Option<nat> := elems[d].child;
      NoneYounger(elems, d);
      var i := 0;
      while i < index && child.Some?
        invariant 0 <= i <= index
        invariant child.Some? ==> Below(elems, d, child.value) && |Younger(elems, d, child.value)| == i
        invariant child.None? ==> |Younger(elems, d, -1)| == i
      {
        SablingOf(elems, child.value);
        OneYounger(elems, d, child.value);
        child := elems[child.value].sabling;
        i := i + 1;
      }
      if child.None? {
        return None;
      }
      var e := elems[child.value];
      assert EntryOf(elems, d, child.value, index, Dirent(e.name, e.dir, if e.dir then 0 else |e.content|));
      return Some(Dirent(e.name, e.dir, if e.dir then 0 else |e.content|));
    }
  }

  function Max0(i: int): nat {
    if i < 0 then 0 else i
  }

  function Fill(n: nat): (z: bytes)
    ensures |z| == n
  {
    seq(n, _ => 0)
  }

  datatype Whence = Set | Cur | End | Other

  /** Where a seek aims; SEEK_END ignores its offset. */
  function SeekTarget(offset: int, off: int, whence: Whence, size: nat): int {
    match whence
    case Set => off
    case Cur => offset + off
    case End => size
    case Other => offset
  }

  function Clamp(i: int, size: nat): int {
    if i < 0 then 0 else if i > size then size else i
  }

  /** How much of a write of n bytes reaches the file; None is the error return. */
  function WriteLength(c: bytes, from: nat, n: nat, grown: bool): Option<nat> {
    if from + n <= |c| || grown then Some(n)
    else if |c| <= from then None
    else Some(|c| - from)
  }

  /** A write takes as many of its bytes as fit; it fails exactly when there is no room for the first of them. */
  lemma WritesWhatFits(c: bytes, from: nat, n: nat, grown: bool, k: nat)
    ensures var w := WriteLength(c, from, n, grown);
      && (w == None <==> !grown && from >= |c| && from + n > |c|)
      && (w.Some? ==> w.value <= n && (grown || from + w.value <= |c|))
      && (w.Some? && k <= n && (grown || from + k <= |c|) ==> k <= w.value)
  {
  }

  /** Seeks from the current offset add up while they stay inside the file. */
  lemma SeeksAdd(offset: int, a: int, b: int, size: nat)
    requires 0 <= offset + a <= size
    ensures var mid := Clamp(SeekTarget(offset, a, Cur, size), size);
      && mid == offset + a
      && Clamp(SeekTarget(mid, b, Cur, size), size) == Clamp(SeekTarget(offset, a + b, Cur, size), size)
  {
  }

  /** A seek goes where it says within the file, to its end for SEEK_END and past its end, to its start before that. */
  lemma SeekGoes(offset: int, off: int, size: nat)
    ensures 0 <= off <= size ==> Clamp(SeekTarget(offset, off, Set, size), size) == off
    ensures off > size ==> Clamp(SeekTarget(offset, off, Set, size), size) == size
    ensures off < 0 ==> Clamp(SeekTarget(offset, off, Set, size), size) == 0
    ensures Clamp(SeekTarget(offset, off, End, size), size) == size
  {
  }

  /** What is written after an appending open lands behind all that was there. */
  lemma AppendLandsBehind(m: Elems, e: nat, n: Elems, data: nat, offset: nat, d: bytes)
    requires OpenDone(m, Existing(e), true, n, true, data, offset)
    ensures data == e && e in m && e in n && n[e].content == m[e].content && offset == |m[e].content|
    ensures Splice(n[e].content, offset, d) == m[e].content + d
  {
  }

  /** After any other open of a file the first read begins at its first byte. */
  lemma OpensAtStart(m: Elems, e: nat, n: Elems, data: nat, offset: nat)
    requires OpenDone(m, Existing(e), false, n, true, data, offset)
    ensures e in m && e in n && offset <= |m[e].content| && n[e].content[offset..] == m[e].content
  {
  }

  /** d written over c from `from` on; c grows when it is too short. */
  function Splice(c: bytes, from: nat, d: bytes): (r: bytes)
    requires from <= |c|
    ensures |r| == if from + |d| > |c| then from + |d| else |c|
  {
    c[..from] + d + if from + |d| < |c| then c[from + |d|..] else []
  }

  /** A write is read back whole, leaves every other byte alone, and leaves no gap. */
  lemma SpliceReadsBack(c: bytes, from: nat, d: bytes, i: nat)
    requires from <= |c| && i < |Splice(c, from, d)|
    ensures Splice(c, from, d)[from..from + |d|] == d
    ensures Splice(c, from, d)[i] == if from <= i < from + |d| then d[i - from] else c[i]
  {
  }

  /** dent describes the child k of d, and index children are younger than k. */
  ghost predicate EntryOf(m: Elems, d: nat, k: nat, index: nat, dent: Dirent) {
    Below(m, d, k) && |Younger(m, d, k)| == index
    && dent == Dirent(m[k].name, m[k].dir, if m[k].dir then 0 else |m[k].content|)
  }

  lemma NoneYounger(m: Elems, d: nat)
    requires d in m && ChildRight(m, d)
    ensures m[d].child.Some? ==> Younger(m, d, m[d].child.value) == {}
    ensures m[d].child.None? ==> Younger(m, d, -1) == {}
  {
  }

  /** The next older child has one more younger than it. */
  lemma OneYounger(m: Elems, d: nat, k: nat)
    requires Below(m, d, k) && SablingRight(m, k)
    ensures var s := m[k].sabling; |Younger(m, d, if s.Some? then s.value else -1)| == |Younger(m, d, k)| + 1
  {
    var s := m[k].sabling;
    var older := Younger(m, d, if s.Some? then s.value else -1);
    assert older == Younger(m, d, k) + {k};
  }

  /** Each child of a directory is the entry at one index, and every one of these is below the number of children. */
  lemma EntriesDiffer(m: Elems, d: nat, j: nat, k: nat)
    requires Below(m, d, j) && Below(m, d, k)
    ensures |Younger(m, d, j)| == |Younger(m, d, k)| ==> j == k
    ensures |Younger(m, d, k)| < |Younger(m, d, -1)|
  {
    FewerYounger(m, d, -1, k);
    if j < k {
      FewerYounger(m, d, j, k);
    } else if k < j {
      FewerYounger(m, d, k, j);
    }
  }

  lemma FewerYounger(m: Elems, d: nat, j: int, k: nat)
    requires Below(m, d, k) && j < k
    ensures |Younger(m, d, k)| < |Younger(m, d, j)|
  {
    var a, b := Younger(m, d, k), Younger(m, d, j);
    assert a + {k} <= b && k !in a;
    SubsetCount(a + {k}, b);
  }

  lemma {:induction false} SubsetCount(a: set<nat>, b: set<nat>)
    requires a <= b
    ensures |a| <= |b|
    decreases |a|
  {
    if a != {} {
      var x :| x in a;
      SubsetCount(a - {x}, b - {x});
    }
  }

  lemma FileChildless(m: Elems, next: nat, e: nat)
    requires WellFormed(m, next) && e in m && !m[e].dir
    ensures m[e].child == None
  {
    hide Parents, Lists, Names;
    ChildOf(m, e);
    if m[e].child.Some? {
      ParentOf(m, next, m[e].child.value);
    }
  }
}
