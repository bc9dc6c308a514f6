/** Handles, mount points and file systems: what the reference counts count, over every run of calls. */
module VfsHandles {
  import opened Basics
  import opened VfsPaths
  import opened RamTree
  import opened RamPaths
  import opened Ramfs
  import VfsLocks

  const MAX_FILES := VfsLocks.MAX_FILES
  const MAX_FS_NAME := MAX_NAME

  class FileSystem {
    const name: bytes
    var refs: nat

    constructor (name: bytes)
      ensures this.name == name && refs == 0
    {
      this.name, refs := name, 0;
    }
  }

  class MountPoint {
    const path: bytes
    const fs: FileSystem
    const data: Ram
    var refs: nat

    constructor (path: bytes, fs: FileSystem, data: Ram)
      ensures this.path == path && this.fs == fs && this.data == data && refs == 0
    {
      this.path, this.fs, this.data, refs := path, fs, data, 0;
    }
  }

  datatype Mode = ReadOnly | WriteOnly | ReadWrite

  /** A descriptor or a directory handle; Open? stands for FILE_STATUS_READY. */
  datatype Handle = Free | Open(mp: MountPoint, data: nat, offset: int, mode: Mode)

  // --- counting handles ---

  predicate On(h: Handle, m: MountPoint) {
    h.Open? && h.mp == m
  }

  predicate OnElement(h: Handle, m: MountPoint, e: nat) {
    On(h, m) && h.data == e
  }

  function OnMount(hs: seq<Handle>, m: MountPoint): nat {
    if hs == [] then 0 else (if On(hs[0], m) then 1 else 0) + OnMount(hs[1..], m)
  }

  function OnElem(hs: seq<Handle>, m: MountPoint, e: nat): nat {
    if hs == [] then 0 else (if OnElement(hs[0], m, e) then 1 else 0) + OnElem(hs[1..], m, e)
  }

  lemma {:induction false} CountSet(hs: seq<Handle>, i: nat, h: Handle, m: MountPoint, e: nat)
    requires i < |hs|
    ensures OnMount(hs[i := h], m) == OnMount(hs, m) - (if On(hs[i], m) then 1 else 0) + (if On(h, m) then 1 else 0)
    ensures OnElem(hs[i := h], m, e) ==
      OnElem(hs, m, e) - (if OnElement(hs[i], m, e) then 1 else 0) + (if OnElement(h, m, e) then 1 else 0)
    decreases hs
  {
    if i > 0 {
      assert hs[i := h][1..] == hs[1..][i - 1 := h];
      CountSet(hs[1..], i - 1, h, m, e);
    } else {
      assert hs[0 := h][1..] == hs[1..];
    }
  }

  lemma {:induction false} CountMore(hs: seq<Handle>, h: Handle, m: MountPoint, e: nat)
    ensures OnMount(hs + [h], m) == OnMount(hs, m) + (if On(h, m) then 1 else 0)
    ensures OnElem(hs + [h], m, e) == OnElem(hs, m, e) + (if OnElement(h, m, e) then 1 else 0)
    decreases hs
  {
    if hs == [] {
      assert (hs + [h])[1..] == [];
    } else {
      assert (hs + [h])[1..] == hs[1..] + [h];
      CountMore(hs[1..], h, m, e);
    }
  }

  /** A count of zero means no handle, and a handle means a count above zero. */
  lemma {:induction false} CountPositive(hs: seq<Handle>, m: MountPoint, e: nat, i: nat)
    requires i < |hs|
    ensures On(hs[i], m) ==> OnMount(hs, m) > 0
    ensures OnElement(hs[i], m, e) ==> OnElem(hs, m, e) > 0
    decreases hs
  {
    if i > 0 {
      CountPositive(hs[1..], m, e, i - 1);
    }
  }

  lemma {:induction false} CountNone(hs: seq<Handle>, m: MountPoint, e: nat)
    requires forall i :: 0 <= i < |hs| ==> !OnElement(hs[i], m, e)
    ensures OnElem(hs, m, e) == 0
    decreases hs
  {
    if hs != [] {
      CountNone(hs[1..], m, e);
    }
  }

  lemma {:induction false} CountNoMount(hs: seq<Handle>, m: MountPoint)
    requires forall i :: 0 <= i < |hs| ==> !On(hs[i], m)
    ensures OnMount(hs, m) == 0
    decreases hs
  {
    if hs != [] {
      CountNoMount(hs[1..], m);
    }
  }

  // --- one mount point against the handles ---

  /** A file handle on m refers to a file of m's tree, at an offset within it. */
  predicate FileLive(h: Handle, elems: Elems)
    requires h.Open?
  {
    h.data in elems && !elems[h.data].dir && 0 <= h.offset <= |elems[h.data].content|
  }

  predicate DirLive(h: Handle, elems: Elems)
    requires h.Open?
  {
    h.data in elems && elems[h.data].dir && h.offset >= 0
  }

  /** The counts on m and its elements are the numbers of handles on them, and every handle on m is live. */
  ghost predicate Fits(files: seq<Handle>, dirs: seq<Handle>, m: MountPoint, elems: Elems, refs: nat) {
    && refs == OnMount(files, m) + OnMount(dirs, m)
    && (forall e :: e in elems ==> elems[e].refs == OnElem(files, m, e) + OnElem(dirs, m, e))
    && (forall i :: 0 <= i < |files| && On(files[i], m) ==> FileLive(files[i], elems))
    && (forall i :: 0 <= i < |dirs| && On(dirs[i], m) ==> DirLive(dirs[i], elems))
  }

  /** What a change of handles on e may do to an element: its kind stays, a file does not shrink. */
  predicate Continues(a: Elem, b: Elem, change: int) {
    b.dir == a.dir && |b.content| >= |a.content| && b.refs == a.refs + change
  }

  /** The elements before and after `change` more handles on e: those in use stay, new ones are not in use otherwise. */
  ghost predicate Evolves(m: Elems, n: Elems, e: nat, change: int) {
    && (forall i :: i in m && i !in n ==> m[i].refs == 0 && i != e)
    && (forall i :: i in m && i in n ==> Continues(m[i], n[i], if i == e then change else 0))
    && (forall i :: i in n && i !in m ==> n[i].refs == if i == e then change else 0)
  }

  lemma NotInUse(files: seq<Handle>, dirs: seq<Handle>, m: MountPoint, elems: Elems, refs: nat, e: nat)
    requires Fits(files, dirs, m, elems, refs) && (e in elems ==> elems[e].refs == 0)
    ensures OnElem(files, m, e) == 0 && OnElem(dirs, m, e) == 0
    ensures forall i :: 0 <= i < |files| ==> !OnElement(files[i], m, e)
    ensures forall i :: 0 <= i < |dirs| ==> !OnElement(dirs[i], m, e)
  {
    forall i | 0 <= i < |files| ensures !OnElement(files[i], m, e) {
      CountPositive(files, m, e, i);
    }
    forall i | 0 <= i < |dirs| ensures !OnElement(dirs[i], m, e) {
      CountPositive(dirs, m, e, i);
    }
    CountNone(files, m, e);
    CountNone(dirs, m, e);
  }

  function Change(before: Handle, after: Handle, m: MountPoint): int {
    (if On(after, m) then 1 else 0) - (if On(before, m) then 1 else 0)
  }

  /** A handle that stays on its element is as live as before. */
  lemma StaysLive(h: Handle, m: Elems, n: Elems, e: nat, change: int)
    requires h.Open? && Evolves(m, n, e, change) && h.data in n
    ensures FileLive(h, m) ==> FileLive(h, n)
    ensures DirLive(h, m) ==> DirLive(h, n)
  {
  }

  lemma CountsEvolve(files: seq<Handle>, dirs: seq<Handle>, m: MountPoint, elems: Elems, refs: nat, after: Elems,
                     e: nat, change: int, x: nat)
    requires Fits(files, dirs, m, elems, refs) && Evolves(elems, after, e, change) && x in after
    ensures after[x].refs == OnElem(files, m, x) + OnElem(dirs, m, x) + if x == e then change else 0
  {
    if x !in elems {
      NotInUse(files, dirs, m, elems, refs, x);
    }
  }

  lemma InUseStays(files: seq<Handle>, dirs: seq<Handle>, m: MountPoint, elems: Elems, refs: nat, after: Elems, e: nat,
                   change: int, x: nat)
    requires Fits(files, dirs, m, elems, refs) && Evolves(elems, after, e, change) && x in elems
    requires OnElem(files, m, x) + OnElem(dirs, m, x) > 0
    ensures x in after
  {
  }

  /** One descriptor changes from files[i] to h, and the elements of m with it. */
  lemma FileChanges(files: seq<Handle>, dirs: seq<Handle>, m: MountPoint, elems: Elems, refs: nat, after: Elems,
                    i: nat, h: Handle, e: nat)
    requires Fits(files, dirs, m, elems, refs) && i < |files| && Evolves(elems, after, e, Change(files[i], h, m))
    requires (On(files[i], m) ==> files[i].data == e) && (On(h, m) ==> h.data == e && FileLive(h, after))
    ensures refs + Change(files[i], h, m) >= 0
    ensures Fits(files[i := h], dirs, m, after, refs + Change(files[i], h, m))
  {
    var change := Change(files[i], h, m);
    CountSet(files, i, h, m, e);
    CountPositive(files, m, e, i);
    forall x | x in after ensures after[x].refs == OnElem(files[i := h], m, x) + OnElem(dirs, m, x) {
      CountsEvolve(files, dirs, m, elems, refs, after, e, change, x);
      CountSet(files, i, h, m, x);
    }
    forall j | 0 <= j < |files| && j != i && On(files[j], m) ensures FileLive(files[j], after) {
      CountPositive(files, m, files[j].data, j);
      InUseStays(files, dirs, m, elems, refs, after, e, change, files[j].data);
      StaysLive(files[j], elems, after, e, change);
    }
    forall j | 0 <= j < |dirs| && On(dirs[j], m) ensures DirLive(dirs[j], after) {
      CountPositive(dirs, m, dirs[j].data, j);
      InUseStays(files, dirs, m, elems, refs, after, e, change, dirs[j].data);
      StaysLive(dirs[j], elems, after, e, change);
    }
  }

  /** A directory handle closes, or moves on. */
  lemma DirChanges(files: seq<Handle>, dirs: seq<Handle>, m: MountPoint, elems: Elems, refs: nat, after: Elems,
                   i: nat, h: Handle, e: nat)
    requires Fits(files, dirs, m, elems, refs) && i < |dirs| && Evolves(elems, after, e, Change(dirs[i], h, m))
    requires (On(dirs[i], m) ==> dirs[i].data == e) && (On(h, m) ==> h.data == e && DirLive(h, after))
    ensures refs + Change(dirs[i], h, m) >= 0
    ensures Fits(files, dirs[i := h], m, after, refs + Change(dirs[i], h, m))
  {
    var change := Change(dirs[i], h, m);
    CountSet(dirs, i, h, m, e);
    CountPositive(dirs, m, e, i);
    forall x | x in after ensures after[x].refs == OnElem(files, m, x) + OnElem(dirs[i := h], m, x) {
      CountsEvolve(files, dirs, m, elems, refs, after, e, change, x);
      CountSet(dirs, i, h, m, x);
    }
    forall j | 0 <= j < |files| && On(files[j], m) ensures FileLive(files[j], after) {
      CountPositive(files, m, files[j].data, j);
      InUseStays(files, dirs, m, elems, refs, after, e, change, files[j].data);
      StaysLive(files[j], elems, after, e, change);
    }
    forall j | 0 <= j < |dirs| && j != i && On(dirs[j], m) ensures DirLive(dirs[j], after) {
      CountPositive(dirs, m, dirs[j].data, j);
      InUseStays(files, dirs, m, elems, refs, after, e, change, dirs[j].data);
      StaysLive(dirs[j], elems, after, e, change);
    }
  }

  /** A new, still free directory handle counts nowhere. */
  lemma DirAdded(files: seq<Handle>, dirs: seq<Handle>, m: MountPoint, elems: Elems, refs: nat)
    requires Fits(files, dirs, m, elems, refs)
    ensures Fits(files, dirs + [Free], m, elems, refs)
  {
    CountMore(dirs, Free, m, 0);
    forall x | x in elems ensures OnElem(dirs + [Free], m, x) == OnElem(dirs, m, x) {
      CountMore(dirs, Free, m, x);
    }
  }

  /** The elements change, the handles do not. */
  lemma ElementsChange(files: seq<Handle>, dirs: seq<Handle>, m: MountPoint, elems: Elems, refs: nat,
                       after: Elems, e: nat)
    requires Fits(files, dirs, m, elems, refs) && Evolves(elems, after, e, 0)
    ensures Fits(files, dirs, m, after, refs)
  {
    forall x | x in after ensures after[x].refs == OnElem(files, m, x) + OnElem(dirs, m, x) {
      CountsEvolve(files, dirs, m, elems, refs, after, e, 0, x);
    }
    forall j | 0 <= j < |files| && On(files[j], m) ensures FileLive(files[j], after) {
      CountPositive(files, m, files[j].data, j);
      InUseStays(files, dirs, m, elems, refs, after, e, 0, files[j].data);
      StaysLive(files[j], elems, after, e, 0);
    }
    forall j | 0 <= j < |dirs| && On(dirs[j], m) ensures DirLive(dirs[j], after) {
      CountPositive(dirs, m, dirs[j].data, j);
      InUseStays(files, dirs, m, elems, refs, after, e, 0, dirs[j].data);
      StaysLive(dirs[j], elems, after, e, 0);
    }
  }

  // --- what the operations of ramfs do to the elements ---

  lemma SameEvolves(m: Elems, e: nat)
    ensures Evolves(m, m, e, 0)
  {
  }

  lemma RefsEvolve(m: Elems, e: nat, refs: nat)
    requires e in m
    ensures Evolves(m, WithRefs(m, e, refs), e, refs - m[e].refs)
  {
  }

  lemma InsertEvolves(m: Elems, d: nat, id: nat, name: bytes, dir: bool, refs: nat)
    requires d in m && id !in m
    ensures Evolves(m, Insert(m, d, id, name, dir, refs), id, refs)
  {
  }

  lemma RemoveEvolves(m: Elems, n: Elems, e: nat)
    requires Detached(m, n, e) && m[e].refs == 0 && e != ROOT
    ensures Evolves(m, n, ROOT, 0)
  {
    var t :| NextYounger(m, e, t) && n == Remove(m, e, t);
  }

  lemma NameEvolves(m: Elems, e: nat, name: bytes)
    requires e in m
    ensures Evolves(m, WithName(m, e, name), ROOT, 0)
  {
  }

  lemma ContentEvolves(m: Elems, e: nat, content: bytes)
    requires e in m && |content| >= |m[e].content|
    ensures Evolves(m, WithContent(m, e, content), e, 0)
  {
  }

  // --- the virtual file system ---

  function Paths(ms: seq<MountPoint>): (ps: seq<bytes>)
    ensures |ps| == |ms| && forall i :: 0 <= i < |ms| ==> ps[i] == ms[i].path
  {
    seq(|ms|, i requires 0 <= i < |ms| => ms[i].path)
  }

  function Datas(ms: seq<MountPoint>): (ds: seq<Ram>)
    ensures |ds| == |ms| && forall i :: 0 <= i < |ms| ==> ds[i] == ms[i].data
  {
    seq(|ms|, i requires 0 <= i < |ms| => ms[i].data)
  }

  function MountsOf(ms: seq<MountPoint>, f: FileSystem): nat {
    if ms == [] then 0 else (if ms[0].fs == f then 1 else 0) + MountsOf(ms[1..], f)
  }

  ghost predicate Apart(ms: seq<MountPoint>) {
    forall i, j :: 0 <= i < j < |ms| ==> ms[i] != ms[j] && ms[i].data != ms[j].data
  }

  /** The tables: no entry twice, no names mounted twice, every count of mounts right. */
  ghost predicate TablesFit(ms: seq<MountPoint>, fss: seq<FileSystem>)
    reads fss
  {
    && Apart(ms) && DistinctMounts(Paths(ms))
    && (forall i, j :: 0 <= i < j < |fss| ==> fss[i] != fss[j])
    && (forall i :: 0 <= i < |ms| ==> ms[i].fs in fss)
    && (forall f :: f in fss ==> f.refs == MountsOf(ms, f))
  }

  lemma FsAdded(ms: seq<MountPoint>, fss: seq<FileSystem>, fs: FileSystem)
    requires TablesFit(ms, fss) && fs !in fss && fs.refs == 0
    ensures TablesFit(ms, [fs] + fss)
  {
    hide DistinctMounts, Apart;
    NoMountsOf(ms, fs);
  }

  lemma FsRemoved(ms: seq<MountPoint>, fss: seq<FileSystem>, i: nat)
    requires TablesFit(ms, fss) && i < |fss| && fss[i].refs == 0
    ensures TablesFit(ms, fss[..i] + fss[i + 1..])
    ensures forall f :: f in fss[..i] + fss[i + 1..] <==> f in fss && f != fss[i]
  {
    hide DistinctMounts, Apart;
    var left := fss[..i] + fss[i + 1..];
    MountsOfNone(ms, fss[i]);
    forall f ensures f in left <==> f in fss && f != fss[i] {
      if f in fss && f != fss[i] {
        var j :| 0 <= j < |fss| && fss[j] == f;
        assert left[if j < i then j else j - 1] == f;
      }
    }
  }

  /** Every open handle refers to a mounted mount point. */
  ghost predicate Mounted(files: seq<Handle>, dirs: seq<Handle>, ms: seq<MountPoint>) {
    && (forall i :: 0 <= i < |files| && files[i].Open? ==> files[i].mp in ms)
    && (forall i :: 0 <= i < |dirs| && dirs[i].Open? ==> dirs[i].mp in ms)
  }

  lemma FileMounted(files: seq<Handle>, dirs: seq<Handle>, ms: seq<MountPoint>, fd: nat, h: Handle)
    requires Mounted(files, dirs, ms) && fd < |files| && (h.Open? ==> h.mp in ms)
    ensures Mounted(files[fd := h], dirs, ms)
  {
  }

  lemma DirMounted(files: seq<Handle>, dirs: seq<Handle>, ms: seq<MountPoint>, i: nat, h: Handle)
    requires Mounted(files, dirs, ms) && i < |dirs| && (h.Open? ==> h.mp in ms)
    ensures Mounted(files, dirs[i := h], ms) && Mounted(files, dirs + [Free], ms)
  {
  }

  /** What the mount points hold: their elements and their counts, in list order. */
  ghost function ElemsOf(ms: seq<MountPoint>): (es: seq<Elems>)
    reads Datas(ms)
    ensures |es| == |ms| && forall i :: 0 <= i < |ms| ==> es[i] == ms[i].data.elems
  {
    seq(|ms|, i requires 0 <= i < |ms| reads Datas(ms) => ms[i].data.elems)
  }

  ghost function RefsOf(ms: seq<MountPoint>): (rs: seq<nat>)
    reads ms
    ensures |rs| == |ms| && forall i :: 0 <= i < |ms| ==> rs[i] == ms[i].refs
  {
    seq(|ms|, i requires 0 <= i < |ms| reads ms => ms[i].refs)
  }

  lemma SameHeld(ms: seq<MountPoint>, es: seq<Elems>, rs: seq<nat>)
    requires |es| == |ms| && |rs| == |ms|
    requires forall j :: 0 <= j < |ms| ==> ms[j].data.elems == es[j] && ms[j].refs == rs[j]
    ensures ElemsOf(ms) == es && RefsOf(ms) == rs
  {
  }

  lemma ElemsAfter(ms: seq<MountPoint>, es: seq<Elems>, k: nat)
    requires |es| == |ms| && k < |ms| && forall j :: 0 <= j < |ms| && j != k ==> ms[j].data.elems == es[j]
    ensures ElemsOf(ms) == es[k := ms[k].data.elems]
  {
  }

  lemma RefsAfter(ms: seq<MountPoint>, rs: seq<nat>, k: nat)
    requires |rs| == |ms| && k < |ms| && forall j :: 0 <= j < |ms| && j != k ==> ms[j].refs == rs[j]
    ensures RefsOf(ms) == rs[k := ms[k].refs]
  {
  }

  lemma HeldWith(ms: seq<MountPoint>, es: seq<Elems>, rs: seq<nat>, more: seq<MountPoint>)
    requires ElemsOf(ms) == es && RefsOf(ms) == rs && more != [] && more[1..] == ms
    requires more[0].data.Valid() && forall j :: 0 <= j < |ms| ==> ms[j].data.Valid()
    ensures ElemsOf(more) == [more[0].data.elems] + es && RefsOf(more) == [more[0].refs] + rs
    ensures forall j :: 0 <= j < |more| ==> more[j].data.Valid()
  {
    hide WellFormed;
    forall j | 0 <= j < |more|
      ensures more[j].data.elems == ([more[0].data.elems] + es)[j] && more[j].refs == ([more[0].refs] + rs)[j]
      ensures more[j].data.Valid()
    {
      if j > 0 {
        assert more[j] == ms[j - 1];
      }
    }
    SameHeld(more, [more[0].data.elems] + es, [more[0].refs] + rs);
  }

  lemma HeldWithout(ms: seq<MountPoint>, es: seq<Elems>, rs: seq<nat>, k: nat)
    requires k < |ms| && ElemsOf(ms) == es && RefsOf(ms) == rs && forall j :: 0 <= j < |ms| ==> ms[j].data.Valid()
    ensures var less := ms[..k] + ms[k + 1..];
      && ElemsOf(less) == es[..k] + es[k + 1..] && RefsOf(less) == rs[..k] + rs[k + 1..]
      && forall j :: 0 <= j < |less| ==> less[j].data.Valid()
  {
    hide WellFormed;
    var less := ms[..k] + ms[k + 1..];
    assert forall j :: 0 <= j < |less| ==> less[j] == ms[if j < k then j else j + 1];
  }

  ghost predicate AllFit(files: seq<Handle>, dirs: seq<Handle>, ms: seq<MountPoint>, es: seq<Elems>, rs: seq<nat>) {
    |es| == |ms| && |rs| == |ms| && forall i :: 0 <= i < |ms| ==> Fits(files, dirs, ms[i], es[i], rs[i])
  }

  /** One descriptor of mount point k changes, and the elements and the count of k with it. */
  lemma FileSettled(files: seq<Handle>, dirs: seq<Handle>, ms: seq<MountPoint>, es: seq<Elems>, rs: seq<nat>,
                    k: nat, fd: nat, h: Handle, after: Elems, e: nat)
    requires AllFit(files, dirs, ms, es, rs) && k < |ms| && fd < |files| && Apart(ms)
    requires (files[fd].Open? ==> files[fd].mp == ms[k] && files[fd].data == e)
    requires (h.Open? ==> h.mp == ms[k] && h.data == e && FileLive(h, after))
    requires Evolves(es[k], after, e, Change(files[fd], h, ms[k]))
    ensures rs[k] + Change(files[fd], h, ms[k]) >= 0
    ensures AllFit(files[fd := h], dirs, ms, es[k := after], rs[k := rs[k] + Change(files[fd], h, ms[k])])
  {
    hide Fits, Evolves, FileLive;
    FileChanges(files, dirs, ms[k], es[k], rs[k], after, fd, h, e);
    forall j | 0 <= j < |ms| && j != k ensures Fits(files[fd := h], dirs, ms[j], es[j], rs[j]) {
      SameEvolves(es[j], e);
      FileChanges(files, dirs, ms[j], es[j], rs[j], es[j], fd, h, e);
    }
  }

  lemma DirSettled(files: seq<Handle>, dirs: seq<Handle>, ms: seq<MountPoint>, es: seq<Elems>, rs: seq<nat>,
                   k: nat, i: nat, h: Handle, after: Elems, e: nat)
    requires AllFit(files, dirs, ms, es, rs) && k < |ms| && i < |dirs| && Apart(ms)
    requires (dirs[i].Open? ==> dirs[i].mp == ms[k] && dirs[i].data == e)
    requires (h.Open? ==> h.mp == ms[k] && h.data == e && DirLive(h, after))
    requires Evolves(es[k], after, e, Change(dirs[i], h, ms[k]))
    ensures rs[k] + Change(dirs[i], h, ms[k]) >= 0
    ensures AllFit(files, dirs[i := h], ms, es[k := after], rs[k := rs[k] + Change(dirs[i], h, ms[k])])
  {
    hide Fits, Evolves, DirLive;
    DirChanges(files, dirs, ms[k], es[k], rs[k], after, i, h, e);
    forall j | 0 <= j < |ms| && j != k ensures Fits(files, dirs[i := h], ms[j], es[j], rs[j]) {
      SameEvolves(es[j], e);
      DirChanges(files, dirs, ms[j], es[j], rs[j], es[j], i, h, e);
    }
  }

  lemma DirMade(files: seq<Handle>, dirs: seq<Handle>, ms: seq<MountPoint>, es: seq<Elems>, rs: seq<nat>)
    requires AllFit(files, dirs, ms, es, rs)
    ensures AllFit(files, dirs + [Free], ms, es, rs)
  {
    hide Fits;
    forall j | 0 <= j < |ms| ensures Fits(files, dirs + [Free], ms[j], es[j], rs[j]) {
      DirAdded(files, dirs, ms[j], es[j], rs[j]);
    }
  }

  lemma ElementsSettled(files: seq<Handle>, dirs: seq<Handle>, ms: seq<MountPoint>, es: seq<Elems>, rs: seq<nat>,
                        k: nat, after: Elems, e: nat)
    requires AllFit(files, dirs, ms, es, rs) && k < |ms| && Evolves(es[k], after, e, 0)
    ensures AllFit(files, dirs, ms, es[k := after], rs)
  {
    hide Fits, Evolves;
    ElementsChange(files, dirs, ms[k], es[k], rs[k], after, e);
  }

  /** Mount point k is the one for the path, and its names end before rest; None when there is none. */
  ghost predicate Located(ms: seq<MountPoint>, path: bytes, k: Option<nat>, rest: nat) {
    match k
    case None => forall i :: 0 <= i < |ms| ==> !Leads(Paths(ms)[i], path)
    case Some(i) => Selected(Paths(ms), path, i) && SplitAt(Paths(ms)[i], path, rest)
  }

  /** What an open of the rest of the path does at the elements of its mount point. */
  ghost function OpeningAtMount(m: Elems, path: bytes, rest: nat, flags: Flags, memory: bool): Opened {
    if rest < |path| && ROOT in m then Opening(m, path[rest..], flags, memory) else Refused
  }

  lemma RestMissing(path: bytes, rest: nat, flags: Flags, memory: bool)
    ensures forall m: Elems :: rest == |path| ==> OpeningAtMount(m, path, rest, flags, memory) == Refused
  {
  }

  lemma LocatedWithin(ms: seq<MountPoint>, path: bytes, k: Option<nat>, rest: nat)
    requires Located(ms, path, k, rest) && k.Some?
    ensures k.value < |ms| && rest <= |path|
  {
  }

  lemma OpeningThere(m: Elems, path: bytes, rest: nat, flags: Flags, memory: bool)
    requires rest < |path| && ROOT in m
    ensures OpeningAtMount(m, path, rest, flags, memory) == Opening(m, path[rest..], flags, memory)
  {
  }

  lemma RefusedMeans(m: Elems, o: Opened, append: bool, n: Elems, data: nat, offset: nat)
    requires OpenDone(m, o, append, n, false, data, offset)
    ensures o == Refused && n == m
  {
  }

  lemma OpenEvolves(m: Elems, o: Opened, append: bool, n: Elems, data: nat, offset: nat)
    requires OpenDone(m, o, append, n, true, data, offset)
    ensures o != Refused && Evolves(m, n, data, 1) && data in n && !n[data].dir && 0 <= offset <= |n[data].content|
  {
    match o
    case Existing(e) => RefsEvolve(m, e, m[e].refs + 1);
    case Created(d, name) => InsertEvolves(m, d, data, name, false, 1);
    case Refused => assert false;
  }

  /** A free descriptor opened on mount point k, and the counts with it. */
  lemma OpenSettles(files: seq<Handle>, dirs: seq<Handle>, ms: seq<MountPoint>, es: seq<Elems>, rs: seq<nat>,
                    k: nat, fd: nat, h: Handle, o: Opened, append: bool, after: Elems)
    requires AllFit(files, dirs, ms, es, rs) && Mounted(files, dirs, ms) && Apart(ms) && k < |ms|
    requires fd < |files| && files[fd] == Free && h.Open? && h.mp == ms[k] && h.offset >= 0
    requires OpenDone(es[k], o, append, after, true, h.data, h.offset)
    ensures o != Refused && Mounted(files[fd := h], dirs, ms)
    ensures AllFit(files[fd := h], dirs, ms, es[k := after], rs[k := rs[k] + 1])
  {
    hide Fits, Evolves, OpenDone, Mounted, Apart;
    OpenEvolves(es[k], o, append, after, h.data, h.offset);
    FileSettled(files, dirs, ms, es, rs, k, fd, h, after, h.data);
    FileMounted(files, dirs, ms, fd, h);
  }

  /** The handles, and the elements and counts of every mount point in list order. */
  datatype Snap = Snap(files: seq<Handle>, dirs: seq<Handle>, es: seq<Elems>, rs: seq<nat>)

  /**
   * An open succeeded: the first free descriptor is on mount point k, counted once there, and on the element
   * opened.
   */
  ghost predicate OpenedAt(a: Snap, b: Snap, mp: MountPoint, k: nat, o: Opened, append: bool, mode: Mode, fd: nat) {
    && k < |a.es| == |b.es| && k < |a.rs| && fd < |a.files| && a.files[fd] == Free && Free !in a.files[..fd]
    && fd < |b.files| && b.files[fd].Open? && b.files[fd].offset >= 0
    && OpenDone(a.es[k], o, append, b.es[k], true, b.files[fd].data, b.files[fd].offset)
    && b == Snap(a.files[fd := Handle.Open(mp, b.files[fd].data, b.files[fd].offset, mode)], a.dirs,
                 a.es[k := b.es[k]], a.rs[k := a.rs[k] + 1])
  }

  /** A close succeeded: the descriptor is free, and one use less is counted on its mount point and element. */
  ghost predicate ClosedAt(a: Snap, b: Snap, ms: seq<MountPoint>, k: nat, fd: nat) {
    && k < |ms| && k < |a.es| && k < |a.rs| && a.rs[k] > 0
    && fd < |a.files| && a.files[fd].Open? && a.files[fd].mp == ms[k]
    && var e := a.files[fd].data;
    && e in a.es[k] && a.es[k][e].refs > 0
    && b == Snap(a.files[fd := Free], a.dirs, a.es[k := WithRefs(a.es[k], e, a.es[k][e].refs - 1)],
                 a.rs[k := a.rs[k] - 1])
  }

  /** A call on an open descriptor moved its offset, and the elements of its mount point are `after`. */
  ghost predicate MovedAt(a: Snap, b: Snap, ms: seq<MountPoint>, k: nat, fd: nat, offset: int, after: Elems) {
    && k < |ms| && k < |a.es| && fd < |a.files| && a.files[fd].Open? && a.files[fd].mp == ms[k]
    && FileLive(a.files[fd], a.es[k])
    && b == a.(files := a.files[fd := a.files[fd].(offset := offset)], es := a.es[k := after])
  }

  /** The bytes a read of n gives. */
  function ReadFrom(c: bytes, offset: nat, n: nat): bytes {
    if offset >= |c| then [] else c[offset..if n < |c| - offset then offset + n else |c|]
  }

  /** A read gives the bytes behind the offset that are there, and no more than asked for. */
  lemma ReadsWhatIsThere(c: bytes, offset: nat, n: nat, i: nat)
    ensures var r := ReadFrom(c, offset, n);
      (i < |r| <==> i < n && offset + i < |c|) && (i < |r| ==> r[i] == c[offset + i])
  {
  }

  ghost predicate ReadAt(a: Snap, b: Snap, ms: seq<MountPoint>, k: nat, fd: nat, n: nat, data: bytes) {
    && k < |a.es| && fd < |a.files| && a.files[fd].Open? && FileLive(a.files[fd], a.es[k])
    && var h := a.files[fd];
    && data == ReadFrom(a.es[k][h.data].content, h.offset, n) && MovedAt(a, b, ms, k, fd, h.offset + |data|, a.es[k])
  }

  ghost predicate SoughtAt(a: Snap, b: Snap, ms: seq<MountPoint>, k: nat, fd: nat, off: int, whence: Whence, ret: int) {
    && k < |a.es| && fd < |a.files| && a.files[fd].Open? && FileLive(a.files[fd], a.es[k])
    && var h := a.files[fd]; var size := |a.es[k][h.data].content|;
    && var offset := if whence == Other then h.offset else Clamp(SeekTarget(h.offset, off, whence, size), size);
    && ret == (if whence == Other then -1 else offset) && MovedAt(a, b, ms, k, fd, offset, a.es[k])
  }

  ghost predicate WrittenAt(a: Snap, b: Snap, ms: seq<MountPoint>, k: nat, fd: nat, data: bytes,
                            grown: bool, ret: int) {
    && k < |a.es| && fd < |a.files| && a.files[fd].Open? && FileLive(a.files[fd], a.es[k])
    && var h := a.files[fd]; var m := a.es[k]; var c := m[h.data].content;
    match WriteLength(c, h.offset, |data|, grown)
    case None => ret == -1 && MovedAt(a, b, ms, k, fd, h.offset, m)
    case Some(n) =>
      ret == n && MovedAt(a, b, ms, k, fd, h.offset + n, WithContent(m, h.data, Splice(c, h.offset, data[..n])))
  }

  /** The directory the rest of a path names, if any. */
  ghost function DirTarget(m: Elems, path: bytes, rest: nat): Option<nat> {
    if rest > |path| || ROOT !in m || Found(m, path[rest..]) == None then None
    else
      var (e, left) := Found(m, path[rest..]).value;
      if left == [] && e in m && m[e].dir then Some(e) else None
  }

  ghost predicate DirOpenedAt(a: Snap, b: Snap, mp: MountPoint, k: nat, e: nat) {
    && k < |a.es| && k < |a.rs| && e in a.es[k]
    && b == Snap(a.files, a.dirs + [Handle.Open(mp, e, 0, ReadOnly)],
                 a.es[k := WithRefs(a.es[k], e, a.es[k][e].refs + 1)],
                 a.rs[k := a.rs[k] + 1])
  }

  ghost predicate DirClosedAt(a: Snap, b: Snap, ms: seq<MountPoint>, k: nat, i: nat) {
    && k < |ms| && k < |a.es| && k < |a.rs| && a.rs[k] > 0 && i < |a.dirs| && a.dirs[i].Open? && a.dirs[i].mp == ms[k]
    && var e := a.dirs[i].data;
    && e in a.es[k] && a.es[k][e].refs > 0
    && b == Snap(a.files, a.dirs[i := Free], a.es[k := WithRefs(a.es[k], e, a.es[k][e].refs - 1)],
                 a.rs[k := a.rs[k] - 1])
  }

  /** The entry at the handle's offset was given, and the offset moved on; or there was none, and nothing changed. */
  ghost predicate EntryAt(a: Snap, b: Snap, ms: seq<MountPoint>, k: nat, i: nat, dent: Option<Dirent>) {
    && k < |ms| && k < |a.es| && i < |a.dirs| && a.dirs[i].Open? && a.dirs[i].mp == ms[k] && DirLive(a.dirs[i], a.es[k])
    && var h := a.dirs[i];
    match dent
    case None => |Younger(a.es[k], h.data, -1)| <= h.offset && b == a
    case Some(d) =>
      (exists c: nat :: EntryOf(a.es[k], h.data, c, h.offset, d))
      && b == a.(dirs := a.dirs[i := h.(offset := h.offset + 1)])
  }

  lemma DirTargetIs(m: Elems, path: bytes, rest: nat)
    requires rest <= |path| && ROOT in m
    ensures DirTarget(m, path, rest).Some? <==>
      Found(m, path[rest..]).Some? && var (e, left) := Found(m, path[rest..]).value;
      left == [] && e in m && m[e].dir
    ensures DirTarget(m, path, rest).Some? ==> DirTarget(m, path, rest).value == Found(m, path[rest..]).value.0
  {
  }

  /** It is the directory the rest of the path leads to. */
  lemma DirTargetExactly(m: Elems, next: nat, path: bytes, rest: nat, e: nat)
    requires WellFormed(m, next) && rest <= |path|
    ensures DirTarget(m, path, rest) == Some(e) <==> LeadsTo(m, path[rest..], e) && e in m && m[e].dir
  {
    hide WellFormed, Found, LeadsTo;
    RootThere(m, next);
    LeadsExactly(m, next, path[rest..], e);
    if DirTarget(m, path, rest) == Some(e) {
      var f := Found(m, path[rest..]).value;
      assert f.0 == e && f.1 == [];
    }
  }

  lemma DirTargetRest(m: Elems, path: bytes, rest: nat)
    requires rest <= |path|
    ensures DirTarget(m, path, rest) == DirTarget(m, path[rest..], 0)
  {
    assert path[rest..][0..] == path[rest..];
  }

  /** What a call on the rest of a path leaves at mount point k: its elements are `after`, all else is as it was. */
  ghost predicate ElementsAt(a: Snap, b: Snap, k: nat, after: Elems) {
    k < |a.es| && b == a.(es := a.es[k := after])
  }

  ghost function UnlinkTarget(m: Elems, path: bytes, rest: nat): Option<nat> {
    if rest < |path| && ROOT in m then Unlinking(m, path[rest..]) else None
  }

  ghost function MkdirTarget(m: Elems, path: bytes, rest: nat, memory: bool): Option<(nat, bytes)> {
    if rest < |path| && ROOT in m then Making(m, path[rest..], memory) else None
  }

  ghost function RenameTarget(m: Elems, from: bytes, start: nat, to: bytes, rest: nat): Option<(nat, bytes)> {
    if start < |from| && rest < |to| && ROOT in m then Renaming(m, from[start..], to[rest..]) else None
  }

  /** The path leads to an element that can be removed. */
  ghost predicate UnlinkNamed(m: Elems, path: bytes) {
    exists e :: LeadsTo(m, path, e) && Removable(m, e)
  }

  /** The path names a directory that can be made. */
  ghost predicate MkdirNamed(m: Elems, path: bytes, memory: bool) {
    memory && exists d, name :: Missing(m, path, d, name)
  }

  /** One path leads to an element, the other names what its directory has not. */
  ghost predicate RenameNamed(m: Elems, from: bytes, to: bytes) {
    exists e, name :: CanRename(m, from, to, e, name)
  }

  lemma UnlinkTargetHere(m: Elems, path: bytes, rest: nat)
    requires rest < |path| && ROOT in m
    ensures UnlinkTarget(m, path, rest) == Unlinking(m, path[rest..])
    ensures var e := Unlinking(m, path[rest..]); e.Some? ==> e.value in m && m[e.value].refs == 0
  {
  }

  /** A new, unused directory of that name is in the directory. */
  ghost predicate MadeIn(m: Elems, n: Elems, made: (nat, bytes)) {
    made.0 in m && exists id: nat :: id !in m && n == Insert(m, made.0, id, made.1, true, 0)
  }

  ghost predicate RenamedIn(m: Elems, n: Elems, renamed: Option<(nat, bytes)>) {
    renamed.Some? && renamed.value.0 in m && n == WithName(m, renamed.value.0, renamed.value.1)
  }

  lemma InUse(files: seq<Handle>, dirs: seq<Handle>, m: MountPoint, elems: Elems, refs: nat, fd: nat)
    requires Fits(files, dirs, m, elems, refs) && fd < |files| && On(files[fd], m)
    ensures FileLive(files[fd], elems) && refs > 0 && elems[files[fd].data].refs > 0
  {
    CountPositive(files, m, files[fd].data, fd);
  }

  lemma DirInUse(files: seq<Handle>, dirs: seq<Handle>, m: MountPoint, elems: Elems, refs: nat, i: nat)
    requires Fits(files, dirs, m, elems, refs) && i < |dirs| && On(dirs[i], m)
    ensures DirLive(dirs[i], elems) && refs > 0 && elems[dirs[i].data].refs > 0
  {
    CountPositive(dirs, m, dirs[i].data, i);
  }

  lemma WriteEvolves(m: Elems, e: nat, offset: nat, data: bytes, written: Option<nat>, n: Elems, after: int)
    requires e in m && !m[e].dir && offset <= |m[e].content| && (written.Some? ==> written.value <= |data|)
    requires n == if written.Some? then WithContent(m, e, Splice(m[e].content, offset, data[..written.value])) else m
    requires after == offset + if written.Some? then written.value else 0
    ensures Evolves(m, n, e, 0) && e in n && !n[e].dir && after <= |n[e].content|
  {
    if written.Some? {
      ContentEvolves(m, e, Splice(m[e].content, offset, data[..written.value]));
    }
  }

  // --- runs of calls ---

  /** What a call did at mount point k; the mount table stays as it is. */
  datatype Did =
    | Nothing
    | OpenedFile(k: nat, o: Opened, append: bool, mode: Mode, fd: nat)
    | ClosedFile(k: nat, fd: nat)
    | ReadFile(k: nat, fd: nat, n: nat, data: bytes)
    | Sought(k: nat, fd: nat, off: int, whence: Whence, ret: int)
    | Wrote(k: nat, fd: nat, data: bytes, grown: bool, ret: int)
    | OpenedDir(k: nat, path: bytes, rest: nat)
    | ClosedDir(k: nat, i: nat)
    | ReadDir(k: nat, i: nat, dent: Option<Dirent>)
    | Unlinked(k: nat, path: bytes, rest: nat)
    | Made(k: nat, made: (nat, bytes))
    | Renamed(k: nat, renamed: (nat, bytes))

  /** The call changed a into b as the methods of Vfs promise. */
  ghost predicate Does(a: Snap, b: Snap, ms: seq<MountPoint>, did: Did) {
    match did
    case Nothing => b == a
    case OpenedFile(k, o, append, mode, fd) => k < |ms| && OpenedAt(a, b, ms[k], k, o, append, mode, fd)
    case ClosedFile(k, fd) => ClosedAt(a, b, ms, k, fd)
    case ReadFile(k, fd, n, data) => ReadAt(a, b, ms, k, fd, n, data)
    case Sought(k, fd, off, whence, ret) => SoughtAt(a, b, ms, k, fd, off, whence, ret)
    case Wrote(k, fd, data, grown, ret) => WrittenAt(a, b, ms, k, fd, data, grown, ret)
    case OpenedDir(k, path, rest) =>
      && k < |ms| && k < |a.es|
      && var e := DirTarget(a.es[k], path, rest); e.Some? && DirOpenedAt(a, b, ms[k], k, e.value)
    case ClosedDir(k, i) => DirClosedAt(a, b, ms, k, i)
    case ReadDir(k, i, dent) => EntryAt(a, b, ms, k, i, dent)
    case Unlinked(k, path, rest) =>
      && k < |a.es| && k < |b.es| && ElementsAt(a, b, k, b.es[k])
      && var e := UnlinkTarget(a.es[k], path, rest);
      e.Some? && if e.value == ROOT then b == a else Detached(a.es[k], b.es[k], e.value)
    case Made(k, made) => k < |a.es| && k < |b.es| && ElementsAt(a, b, k, b.es[k]) && MadeIn(a.es[k], b.es[k], made)
    case Renamed(k, renamed) =>
      k < |a.es| && k < |b.es| && ElementsAt(a, b, k, b.es[k]) && RenamedIn(a.es[k], b.es[k], Some(renamed))
  }

  /** The call writes element e of mount point k. */
  predicate Writes(a: Snap, did: Did, k: nat, e: nat) {
    did.Wrote? && did.k == k && did.fd < |a.files| && a.files[did.fd].Open? && a.files[did.fd].data == e
  }

  /** A call that does not write a file leaves its bytes alone, as long as the file is there. */
  lemma StepKeepsContent(a: Snap, b: Snap, ms: seq<MountPoint>, did: Did, k: nat, e: nat)
    requires Does(a, b, ms, did) && !Writes(a, did, k, e) && k < |a.es| && e in a.es[k]
    ensures |b.es| == |a.es| && (e in b.es[k] ==> b.es[k][e].content == a.es[k][e].content)
  {
    hide Found, Opening, Unlinking, EntryOf, Younger;
  }

  /** A file or directory in use is still there afterwards. */
  lemma StepKeepsUsed(a: Snap, b: Snap, ms: seq<MountPoint>, did: Did, k: nat, e: nat)
    requires Does(a, b, ms, did) && k < |a.es| && e in a.es[k] && a.es[k][e].refs > 0
    ensures |b.es| == |a.es| && e in b.es[k]
  {
    hide Found, Opening, EntryOf, Younger;
  }

  /** A run: the state between any two calls, and what each call did. */
  ghost predicate Run(states: seq<Snap>, dids: seq<Did>, ms: seq<MountPoint>) {
    |states| == |dids| + 1 && forall i :: 0 <= i < |dids| ==> Does(states[i], states[i + 1], ms, dids[i])
  }

  /** Every count is the number of handles it counts, and every handle is live and mounted. */
  ghost predicate Settled(a: Snap, ms: seq<MountPoint>) {
    AllFit(a.files, a.dirs, ms, a.es, a.rs) && Mounted(a.files, a.dirs, ms)
  }

  lemma OpenedKeeps(a: Snap, b: Snap, ms: seq<MountPoint>, k: nat, o: Opened, append: bool, mode: Mode, fd: nat)
    requires Settled(a, ms) && Apart(ms) && k < |ms| && OpenedAt(a, b, ms[k], k, o, append, mode, fd)
    ensures Settled(b, ms)
  {
    hide AllFit, Mounted, OpenDone;
    OpenSettles(a.files, a.dirs, ms, a.es, a.rs, k, fd, b.files[fd], o, append, b.es[k]);
  }

  lemma ClosedKeeps(a: Snap, b: Snap, ms: seq<MountPoint>, k: nat, fd: nat)
    requires Settled(a, ms) && Apart(ms) && ClosedAt(a, b, ms, k, fd)
    ensures Settled(b, ms)
  {
    hide AllFit, Mounted, Apart, Evolves;
    var e := a.files[fd].data;
    RefsEvolve(a.es[k], e, a.es[k][e].refs - 1);
    FileSettled(a.files, a.dirs, ms, a.es, a.rs, k, fd, Free, b.es[k], e);
    FileMounted(a.files, a.dirs, ms, fd, Free);
  }

  /** A call on an open descriptor, after which its offset is inside the file. */
  lemma MovedKeeps(a: Snap, b: Snap, ms: seq<MountPoint>, k: nat, fd: nat, offset: int, after: Elems)
    requires Settled(a, ms) && Apart(ms) && MovedAt(a, b, ms, k, fd, offset, after) && k < |a.rs|
    requires Evolves(a.es[k], after, a.files[fd].data, 0) && FileLive(a.files[fd].(offset := offset), after)
    ensures Settled(b, ms)
  {
    hide AllFit, Mounted, Apart, Evolves, FileLive;
    var h := a.files[fd].(offset := offset);
    FileSettled(a.files, a.dirs, ms, a.es, a.rs, k, fd, h, after, h.data);
    FileMounted(a.files, a.dirs, ms, fd, h);
    assert a.rs[k := a.rs[k]] == a.rs;
  }

  lemma WroteKeeps(a: Snap, b: Snap, ms: seq<MountPoint>, k: nat, fd: nat, data: bytes, grown: bool, ret: int)
    requires Settled(a, ms) && Apart(ms) && WrittenAt(a, b, ms, k, fd, data, grown, ret)
    ensures Settled(b, ms)
  {
    hide Mounted, Apart, Fits;
    var h := a.files[fd];
    var m := a.es[k];
    var written := WriteLength(m[h.data].content, h.offset, |data|, grown);
    WriteEvolves(m, h.data, h.offset, data, written, b.es[k], b.files[fd].offset);
    MovedKeeps(a, b, ms, k, fd, b.files[fd].offset, b.es[k]);
  }

  lemma DirOpenedKeeps(a: Snap, b: Snap, ms: seq<MountPoint>, k: nat, e: nat)
    requires Settled(a, ms) && Apart(ms) && k < |ms| && DirOpenedAt(a, b, ms[k], k, e) && a.es[k][e].dir
    ensures Settled(b, ms)
  {
    hide AllFit, Mounted, Apart, Evolves;
    var h, i := Handle.Open(ms[k], e, 0, ReadOnly), |a.dirs|;
    RefsEvolve(a.es[k], e, a.es[k][e].refs + 1);
    DirMade(a.files, a.dirs, ms, a.es, a.rs);
    DirSettled(a.files, a.dirs + [Free], ms, a.es, a.rs, k, i, h, b.es[k], e);
    DirListed(a.files, a.dirs, ms, h);
    assert (a.dirs + [Free])[i := h] == a.dirs + [h];
  }

  lemma DirClosedKeeps(a: Snap, b: Snap, ms: seq<MountPoint>, k: nat, i: nat)
    requires Settled(a, ms) && Apart(ms) && DirClosedAt(a, b, ms, k, i)
    ensures Settled(b, ms)
  {
    hide AllFit, Mounted, Apart, Evolves;
    var e := a.dirs[i].data;
    RefsEvolve(a.es[k], e, a.es[k][e].refs - 1);
    DirSettled(a.files, a.dirs, ms, a.es, a.rs, k, i, Free, b.es[k], e);
    DirMounted(a.files, a.dirs, ms, i, Free);
  }

  lemma EntryKeeps(a: Snap, b: Snap, ms: seq<MountPoint>, k: nat, i: nat, dent: Option<Dirent>)
    requires Settled(a, ms) && Apart(ms) && EntryAt(a, b, ms, k, i, dent)
    ensures Settled(b, ms)
  {
    hide Fits, Mounted, Apart, Evolves, EntryOf, Younger;
    if dent.Some? {
      var h := a.dirs[i].(offset := a.dirs[i].offset + 1);
      SameEvolves(a.es[k], h.data);
      DirSettled(a.files, a.dirs, ms, a.es, a.rs, k, i, h, a.es[k], h.data);
      DirMounted(a.files, a.dirs, ms, i, h);
      assert a.es[k := a.es[k]] == a.es && a.rs[k := a.rs[k]] == a.rs;
    }
  }

  lemma ElementsKeep(a: Snap, b: Snap, ms: seq<MountPoint>, k: nat, e: nat)
    requires Settled(a, ms) && k < |ms| && k < |a.es| && k < |b.es| && ElementsAt(a, b, k, b.es[k])
    requires Evolves(a.es[k], b.es[k], e, 0)
    ensures Settled(b, ms)
  {
    hide AllFit, Mounted, Evolves;
    ElementsSettled(a.files, a.dirs, ms, a.es, a.rs, k, b.es[k], e);
  }

  lemma PathCallKeeps(a: Snap, b: Snap, ms: seq<MountPoint>, did: Did)
    requires Settled(a, ms) && Does(a, b, ms, did) && (did.Unlinked? || did.Made? || did.Renamed?) && did.k < |ms|
    ensures Settled(b, ms)
  {
    hide Settled, Evolves, Found, Detached;
    var k := did.k;
    var m, n := a.es[k], b.es[k];
    match did
    case Unlinked(_, path, rest) =>
      UnlinkTargetHere(m, path, rest);
      UnlinkEvolves(m, n, UnlinkTarget(m, path, rest));
      ElementsKeep(a, b, ms, k, ROOT);
    case Made(_, made) =>
      var id: nat :| id !in m && n == Insert(m, made.0, id, made.1, true, 0);
      InsertEvolves(m, made.0, id, made.1, true, 0);
      ElementsKeep(a, b, ms, k, id);
    case Renamed(_, renamed) =>
      NameEvolves(m, renamed.0, renamed.1);
      ElementsKeep(a, b, ms, k, ROOT);
    case _ =>
  }

  /** Every call keeps every count right and every handle live and mounted. */
  lemma StepKeepsSettled(a: Snap, b: Snap, ms: seq<MountPoint>, did: Did)
    requires Settled(a, ms) && Apart(ms) && Does(a, b, ms, did)
    ensures Settled(b, ms)
  {
    hide Fits, Mounted, Apart, Found, Detached, Evolves, OpenDone, OpenedAt, ClosedAt, DirOpenedAt, DirClosedAt,
         EntryAt, Splice, WrittenAt, UnlinkTarget, MadeIn, RenamedIn, ElementsAt;
    match did
    case Nothing =>
    case OpenedFile(k, o, append, mode, fd) => OpenedKeeps(a, b, ms, k, o, append, mode, fd);
    case ClosedFile(k, fd) => ClosedKeeps(a, b, ms, k, fd);
    case ReadFile(k, fd, _, _) =>
      SameEvolves(a.es[k], a.files[fd].data);
      MovedKeeps(a, b, ms, k, fd, b.files[fd].offset, a.es[k]);
    case Sought(k, fd, _, _, _) =>
      SameEvolves(a.es[k], a.files[fd].data);
      MovedKeeps(a, b, ms, k, fd, b.files[fd].offset, a.es[k]);
    case Wrote(k, fd, data, grown, ret) => WroteKeeps(a, b, ms, k, fd, data, grown, ret);
    case OpenedDir(k, path, rest) => DirOpenedKeeps(a, b, ms, k, DirTarget(a.es[k], path, rest).value);
    case ClosedDir(k, i) => DirClosedKeeps(a, b, ms, k, i);
    case ReadDir(k, i, dent) => EntryKeeps(a, b, ms, k, i, dent);
    case Unlinked(_, _, _) => PathCallKeeps(a, b, ms, did);
    case Made(_, _) => PathCallKeeps(a, b, ms, did);
    case Renamed(_, _) => PathCallKeeps(a, b, ms, did);
  }

  lemma {:induction false} RunKeepsSettled(states: seq<Snap>, dids: seq<Did>, ms: seq<MountPoint>, n: nat)
    requires Run(states, dids, ms) && Settled(states[0], ms) && Apart(ms) && n <= |dids|
    ensures Settled(states[n], ms)
    decreases n
  {
    hide Does, Settled, Apart;
    if n > 0 {
      RunKeepsSettled(states, dids, ms, n - 1);
      StepKeepsSettled(states[n - 1], states[n], ms, dids[n - 1]);
    }
  }

  /** Some descriptor is open on element e of mount point k. */
  ghost predicate HeldOpen(a: Snap, ms: seq<MountPoint>, k: nat, e: nat) {
    k < |ms| && exists fd :: 0 <= fd < |a.files| && OnElement(a.files[fd], ms[k], e)
  }

  /** What a descriptor is open on is in the tree, and counted. */
  lemma HeldIsThere(a: Snap, ms: seq<MountPoint>, k: nat, e: nat)
    requires Settled(a, ms) && HeldOpen(a, ms, k, e)
    ensures k < |a.es| && e in a.es[k] && a.es[k][e].refs > 0
  {
    hide Fits, Mounted;
    var fd :| 0 <= fd < |a.files| && OnElement(a.files[fd], ms[k], e);
    InUse(a.files, a.dirs, ms[k], a.es[k], a.rs[k], fd);
  }

  /** Element e of mount point k is there all the time. */
  predicate Stays(states: seq<Snap>, k: nat, e: nat) {
    forall i :: 0 <= i < |states| ==> k < |states[i].es| && e in states[i].es[k]
  }

  lemma OpenStays(states: seq<Snap>, dids: seq<Did>, ms: seq<MountPoint>, k: nat, e: nat)
    requires Run(states, dids, ms) && dids != [] && Settled(states[0], ms) && Apart(ms)
    requires forall i :: 0 <= i < |dids| ==> HeldOpen(states[i], ms, k, e)
    ensures Stays(states, k, e)
  {
    hide Does, Settled, Apart, HeldOpen;
    forall i | 0 <= i < |states| ensures k < |states[i].es| && e in states[i].es[k] {
      var j := if i < |dids| then i else i - 1;
      RunKeepsSettled(states, dids, ms, j);
      HeldIsThere(states[j], ms, k, e);
      if i == |dids| {
        StepKeepsUsed(states[j], states[i], ms, dids[j], k, e);
      }
    }
  }

  lemma {:induction false} RunKeepsContent(states: seq<Snap>, dids: seq<Did>, ms: seq<MountPoint>,
                                           k: nat, e: nat, n: nat)
    requires Run(states, dids, ms) && Stays(states, k, e) && n <= |dids|
    requires forall i :: 0 <= i < n ==> !Writes(states[i], dids[i], k, e)
    ensures states[n].es[k][e].content == states[0].es[k][e].content
    decreases n
  {
    hide Does, Writes;
    if n > 0 {
      RunKeepsContent(states, dids, ms, k, e, n - 1);
      StepKeepsContent(states[n - 1], states[n], ms, dids[n - 1], k, e);
    }
  }

  /**
   * What was written through one descriptor is read through any other, at whatever place it reads, after any run
   * of other calls that do not write the file again, while some descriptor is open on it: where the two overlap
   * the read gives the bytes written.
   */
  lemma WriteThenRead(states: seq<Snap>, dids: seq<Did>, ms: seq<MountPoint>, k: nat, fd: nat, data: bytes, grown: bool,
                      ret: nat, other: nat, n: nat, read: bytes, end: Snap)
    requires Run(states, dids, ms) && Settled(states[0], ms) && Apart(ms)
    requires dids != [] && dids[0] == Wrote(k, fd, data, grown, ret)
    requires Does(states[|dids|], end, ms, ReadFile(k, other, n, read))
    requires fd < |states[0].files| && other < |states[|dids|].files|
    requires states[0].files[fd].Open? && states[|dids|].files[other].Open?
    requires var e := states[0].files[fd].data;
      && states[|dids|].files[other].data == e
      && (forall i :: 0 <= i < |dids| ==> HeldOpen(states[i], ms, k, e))
      && forall i :: 0 < i < |dids| ==> !Writes(states[i], dids[i], k, e)
    ensures ret <= |data|
    ensures var from, at := states[0].files[fd].offset, states[|dids|].files[other].offset;
      forall i :: 0 <= i < n && from <= at + i < from + ret ==> i < |read| && read[i] == data[at + i - from]
  {
    hide Does, Writes, Settled, Apart, HeldOpen;
    OpenStays(states, dids, ms, k, states[0].files[fd].data);
    var e, a, b, c := states[0].files[fd].data, states[0], states[1], states[|dids|];
    assert Does(a, b, ms, dids[0]);
    WriteMeans(a, b, ms, k, fd, data, grown, ret);
    RunKeepsContent(states[1..], dids[1..], ms, k, e, |dids| - 1);
    ReadMeans(c, end, ms, k, other, n, read);
    var from, at, content := a.files[fd].offset, c.files[other].offset, c.es[k][e].content;
    assert content == b.es[k][e].content;
    forall i | 0 <= i < n && from <= at + i < from + ret ensures i < |read| && read[i] == data[at + i - from] {
      assert content[from..from + ret][at + i - from] == data[..ret][at + i - from];
    }
  }

  lemma WriteMeans(a: Snap, b: Snap, ms: seq<MountPoint>, k: nat, fd: nat, data: bytes, grown: bool, ret: nat)
    requires Does(a, b, ms, Wrote(k, fd, data, grown, ret))
    ensures fd < |a.files| && a.files[fd].Open? && k < |b.es| && a.files[fd].data in b.es[k]
    ensures a.files[fd].offset >= 0 && ret <= |data|
    ensures var h := a.files[fd]; var c := b.es[k][h.data].content;
      h.offset + ret <= |c| && c[h.offset..h.offset + ret] == data[..ret]
  {
    var h := a.files[fd];
    var before := a.es[k][h.data].content;
    assert Splice(before, h.offset, data[..ret])[h.offset..h.offset + ret] == data[..ret];
  }

  lemma ReadMeans(a: Snap, b: Snap, ms: seq<MountPoint>, k: nat, fd: nat, n: nat, data: bytes)
    requires Does(a, b, ms, ReadFile(k, fd, n, data))
    ensures fd < |a.files| && a.files[fd].Open? && k < |a.es| && a.files[fd].data in a.es[k] && a.files[fd].offset >= 0
    ensures var h := a.files[fd]; var c := a.es[k][h.data].content;
      |data| == (if n < |c| - h.offset then n else |c| - h.offset)
      && forall i :: 0 <= i < |data| ==> data[i] == c[h.offset + i]
  {
  }

  class Vfs {
    var files: seq<Handle>
    var dirs: seq<Handle>
    var mounts: seq<MountPoint>
    var fileSystems: seq<FileSystem>

    /** Every mount point holds a well-formed tree, and its counts count the handles. */
    ghost predicate MountsFit()
      reads this`files, this`dirs, this`mounts, mounts, Datas(mounts)
    {
      && (forall i :: 0 <= i < |mounts| ==> mounts[i].data.Valid())
      && AllFit(files, dirs, mounts, ElemsOf(mounts), RefsOf(mounts))
    }

    ghost predicate Valid()
      reads this, mounts, Datas(mounts), fileSystems
    {
      |files| == MAX_FILES && TablesFit(mounts, fileSystems) && Mounted(files, dirs, mounts) && MountsFit()
    }

    ghost function State(): Snap
      reads this, mounts, Datas(mounts)
    {
      Snap(files, dirs, ElemsOf(mounts), RefsOf(mounts))
    }

    lemma ValidMeans()
      requires Valid()
      ensures |files| == MAX_FILES && TablesFit(mounts, fileSystems) && Mounted(files, dirs, mounts)
      ensures forall i :: 0 <= i < |mounts| ==> mounts[i].data.Valid()
      ensures AllFit(files, dirs, mounts, ElemsOf(mounts), RefsOf(mounts))
    {
    }

    lemma ValidIsSettled()
      requires Valid()
      ensures Settled(State(), mounts) && Apart(mounts)
    {
      hide AllFit, Mounted, Apart, DistinctMounts;
      ValidMeans();
      Tables(mounts, fileSystems);
    }

    lemma ValidMade(es: seq<Elems>, rs: seq<nat>)
      requires |files| == MAX_FILES && TablesFit(mounts, fileSystems) && Mounted(files, dirs, mounts)
      requires forall i :: 0 <= i < |mounts| ==> mounts[i].data.Valid()
      requires ElemsOf(mounts) == es && RefsOf(mounts) == rs && AllFit(files, dirs, mounts, es, rs)
      ensures Valid() && State() == Snap(files, dirs, es, rs)
    {
    }

    constructor ()
      ensures Valid() && mounts == [] && fileSystems == []
    {
      files := seq(MAX_FILES, _ => Free);
      dirs, mounts, fileSystems := [], [], [];
    }

    /** los_mp_find over the mount list. */
    method FindPath(path: bytes) returns (mp: MountPoint?, rest: nat, ghost k: Option<nat>)
      ensures Located(mounts, path, k, rest)
      ensures mp == if k.Some? then mounts[k.value] else null
    {
      var best, at := FindMount(Paths(mounts), path);
      if best == None {
        return null, 0, None;
      }
      return mounts[best.value], at, best;
    }

    method GetFile() returns (fd: int)
      requires |files| == MAX_FILES
      ensures -1 <= fd < MAX_FILES
      ensures fd == -1 ==> Free !in files
      ensures fd >= 0 ==> files[fd] == Free && Free !in files[..fd]
    {
      fd := 0;
      while fd < MAX_FILES
        invariant 0 <= fd <= MAX_FILES && Free !in files[..fd]
      {
        if files[fd] == Free {
          return;
        }
        fd := fd + 1;
      }
      assert files[..fd] == files;
      return -1;
    }

    lemma RootsPresent(k: nat)
      requires MountsFit() && k < |mounts|
      ensures ROOT in mounts[k].data.elems && ElemsOf(mounts)[k] == mounts[k].data.elems
    {
      assert mounts[k].data.Valid();
      RootOf(mounts[k].data.elems, mounts[k].data.next);
    }

    /** los_open. The path may not be empty; the mount point k and the rest are what los_mp_find gives. */
    method Open(path: bytes, flags: Flags, mode: Mode, memory: bool)
      returns (fd: int, ghost k: Option<nat>, ghost rest: nat)
      requires Valid() && path != []
      modifies this`files, this`dirs, mounts, Datas(mounts)
      ensures Valid() && -1 <= fd < MAX_FILES && Located(mounts, path, k, rest)
      ensures var o := if k.Some? then OpeningAtMount(old(State()).es[k.value], path, rest, flags, memory) else Refused;
        if Trailing(path) || Free !in old(files) || o == Refused then fd == -1 && State() == old(State())
        else fd >= 0 && OpenedAt(old(State()), State(), mounts[k.value], k.value, o, flags.append, mode, fd)
      ensures fd >= 0 <==> !Trailing(path) && Free in old(files) && k.Some? && rest < |path|
                           && CanOpen(old(State()).es[k.value], path[rest..], flags, memory)
    {
      hide TablesFit, Mounted, MountsFit, OpeningAtMount, Located, OpenedAt, ElemsOf, RefsOf,
           Datas, Trailing, Components, CanOpen;
      var mp, at;
      mp, at, k := FindPath(path);
      rest := at;
      if k.Some? {
        LocatedWithin(mounts, path, k, rest);
      }
      if Trailing(path) {
        return -1, k, rest;
      }
      fd := GetFile();
      if fd < 0 {
        return -1, k, rest;
      }
      if mp == null || at == |path| {
        RestMissing(path, at, flags, memory);
        return -1, k, rest;
      }
      RootsPresent(k.value);
      OpeningThere(ElemsOf(mounts)[k.value], path, rest, flags, memory);
      var ok := OpenOn(mp, k.value, path[at..], flags, mode, memory, fd);
      if !ok {
        return -1, k, rest;
      }
    }

    lemma OneOfEach(k: nat)
      requires TablesFit(mounts, fileSystems) && k < |mounts|
      ensures Apart(mounts)
      ensures forall j :: 0 <= j < |mounts| && j != k ==> mounts[j] != mounts[k] && mounts[j].data != mounts[k].data
    {
    }

    /** The rest of an open, once a descriptor is reserved and the mount point known. */
    method OpenOn(mp: MountPoint, ghost k: nat, path: bytes, flags: Flags, mode: Mode, memory: bool, fd: nat)
      returns (ok: bool)
      requires Valid() && k < |mounts| && mounts[k] == mp && ROOT in mp.data.elems
      requires fd < |files| && files[fd] == Free && Free !in files[..fd]
      modifies this`files, this`dirs, mp, mp.data
      ensures Valid()
      ensures var o := Opening(old(State()).es[k], path, flags, memory);
        ok == (o != Refused)
        && if ok then OpenedAt(old(State()), State(), mp, k, o, flags.append, mode, fd) else State() == old(State())
      ensures ok <==> CanOpen(old(State()).es[k], path, flags, memory)
    {
      hide Fits, Evolves, WellFormed, Found, Opening, OpenDone, Components, AllFit, TablesFit, Mounted, ElemsOf, RefsOf,
           CanOpen;
      ghost var es, rs, before := ElemsOf(mounts), RefsOf(mounts), files;
      OneOfEach(k);
      var data, offset;
      ok, data, offset := mp.data.Open(path, flags, memory);
      ElemsAfter(mounts, es, k);
      RefsAfter(mounts, rs, k);
      if !ok {
        RefusedMeans(es[k], Opening(es[k], path, flags, memory), flags.append, mp.data.elems, data, offset);
        assert es[k := es[k]] == es && rs[k := rs[k]] == rs;
        return false;
      }
      var h := Handle.Open(mp, data, offset, mode);
      OpenSettles(before, dirs, mounts, es, rs, k, fd, h, Opening(es[k], path, flags, memory),
                  flags.append, mp.data.elems);
      assert rs[k := rs[k]] == rs;
      Count(mp, k, files[fd := h], dirs, es[k := mp.data.elems], 1);
    }

    /** The handles of mount point k have changed by one, and its elements with them: its count follows. */
    method Count(mp: MountPoint, ghost k: nat, fs: seq<Handle>, ds: seq<Handle>, ghost es: seq<Elems>, change: int)
      requires |fs| == MAX_FILES && TablesFit(mounts, fileSystems) && Mounted(fs, ds, mounts)
      requires k < |mounts| && mounts[k] == mp && Apart(mounts) && mp.refs + change >= 0
      requires (forall i :: 0 <= i < |mounts| ==> mounts[i].data.Valid()) && ElemsOf(mounts) == es
      requires AllFit(fs, ds, mounts, es, RefsOf(mounts)[k := mp.refs + change])
      modifies this`files, this`dirs, mp
      ensures Valid() && State() == Snap(fs, ds, es, old(RefsOf(mounts))[k := old(mp.refs) + change])
    {
      hide WellFormed, AllFit, TablesFit, Mounted, ElemsOf, RefsOf;
      ghost var rs := RefsOf(mounts);
      mp.refs := mp.refs + change;
      SameHeld(mounts, es, rs[k := mp.refs]);
      files, dirs := fs, ds;
      assert ElemsOf(mounts) == es && RefsOf(mounts) == rs[k := mp.refs];
    }

    predicate IsOpen(fd: int)
      reads this`files
    {
      0 <= fd < |files| && files[fd].Open?
    }

    /** The mount point of an open descriptor, and what its counts and its element say. */
    lemma OnItsMount(fd: nat) returns (k: nat)
      requires Valid() && IsOpen(fd)
      ensures k < |mounts| && mounts[k] == files[fd].mp && mounts[k].data.Valid()
      ensures FileLive(files[fd], mounts[k].data.elems)
      ensures mounts[k].refs > 0 && mounts[k].data.elems[files[fd].data].refs > 0
    {
      hide Fits, TablesFit, WellFormed;
      k :| 0 <= k < |mounts| && mounts[k] == files[fd].mp;
      InUse(files, dirs, mounts[k], ElemsOf(mounts)[k], RefsOf(mounts)[k], fd);
    }

    /** What is open stays: its mount point cannot be unmounted, its element is in the tree and no path unlinks it. */
    lemma OpenHandleProtects(fd: nat) returns (k: nat)
      requires Valid() && IsOpen(fd)
      ensures k < |mounts| && mounts[k] == files[fd].mp && mounts[k].refs > 0
      ensures FileLive(files[fd], mounts[k].data.elems)
      ensures forall path, rest :: UnlinkTarget(mounts[k].data.elems, path, rest) != Some(files[fd].data)
    {
      hide Fits, TablesFit, WellFormed, Found;
      k := OnItsMount(fd);
    }

    method Close(fd: int) returns (ret: int, ghost k: nat)
      requires Valid()
      modifies this`files, this`dirs, mounts, Datas(mounts)
      ensures Valid()
      ensures if old(IsOpen(fd)) then ret == 0 && ClosedAt(old(State()), State(), mounts, k, fd)
              else ret == -1 && State() == old(State())
    {
      hide MountsFit, TablesFit, Mounted, ElemsOf, RefsOf, ClosedAt;
      if fd < 0 || fd >= MAX_FILES || files[fd] == Free {
        return -1, 0;
      }
      k := OnItsMount(fd);
      CloseOn(files[fd].mp, k, fd);
      return 0, k;
    }

    /** The open descriptor fd of mount point k is closed. */
    method CloseOn(mp: MountPoint, ghost k: nat, fd: nat)
      requires Valid() && IsOpen(fd) && files[fd].mp == mp && k < |mounts| && mounts[k] == mp
      requires FileLive(files[fd], mp.data.elems) && mp.refs > 0 && mp.data.elems[files[fd].data].refs > 0
      modifies this`files, this`dirs, mp, mp.data
      ensures Valid() && ClosedAt(old(State()), State(), mounts, k, fd)
    {
      hide Fits, Evolves, WellFormed, AllFit, TablesFit, Mounted, ElemsOf, RefsOf;
      ghost var es, rs, before := ElemsOf(mounts), RefsOf(mounts), files;
      OneOfEach(k);
      var data: nat := files[fd].data;
      mp.data.Close(data);
      RefsEvolve(es[k], data, old(mp.data.elems)[data].refs - 1);
      FileSettled(before, dirs, mounts, es, rs, k, fd, Free, mp.data.elems, data);
      FileMounted(before, dirs, mounts, fd, Free);
      ElemsAfter(mounts, es, k);
      RefsAfter(mounts, rs, k);
      assert rs[k := rs[k]] == rs;
      Count(mp, k, files[fd := Free], dirs, es[k := mp.data.elems], -1);
    }

    method Read(fd: int, n: nat) returns (ret: int, data: bytes, ghost k: nat)
      requires Valid()
      modifies this`files
      ensures Valid()
      ensures if n == 0 || !old(IsOpen(fd)) || old(files)[fd].mode == WriteOnly
                then ret == -1 && data == [] && State() == old(State())
                else ret == |data| && ReadAt(old(State()), State(), mounts, k, fd, n, data)
    {
      hide MountsFit, TablesFit, Mounted, ElemsOf, RefsOf, ReadAt;
      k, data := 0, [];
      if n == 0 || fd < 0 || fd >= MAX_FILES || files[fd] == Free || files[fd].mode == WriteOnly {
        return -1, [], 0;
      }
      k := OnItsMount(fd);
      data := ReadOn(files[fd].mp, k, fd, n);
      return |data|, data, k;
    }

    /** The open descriptor fd of mount point k is read. */
    method ReadOn(mp: MountPoint, ghost k: nat, fd: nat, n: nat) returns (data: bytes)
      requires Valid() && IsOpen(fd) && files[fd].mp == mp && k < |mounts| && mounts[k] == mp
      requires FileLive(files[fd], mp.data.elems)
      modifies this`files
      ensures Valid() && ReadAt(old(State()), State(), mounts, k, fd, n, data)
    {
      hide Fits, Evolves, WellFormed, AllFit, TablesFit, Mounted, ElemsOf, RefsOf;
      ghost var es, rs, before := ElemsOf(mounts), RefsOf(mounts), files;
      OneOfEach(k);
      var h := files[fd];
      var after;
      data, after := mp.data.Read(h.data, h.offset, n);
      SameEvolves(es[k], h.data);
      assert es[k := es[k]] == es && rs[k := rs[k]] == rs;
      FileSettled(before, dirs, mounts, es, rs, k, fd, h.(offset := after), es[k], h.data);
      FileMounted(before, dirs, mounts, fd, h.(offset := after));
      files := files[fd := h.(offset := after)];
      ElemsAfter(mounts, es, k);
      RefsAfter(mounts, rs, k);
    }

    method Lseek(fd: int, off: int, whence: Whence) returns (ret: int, ghost k: nat)
      requires Valid()
      modifies this`files
      ensures Valid()
      ensures if !old(IsOpen(fd))
                then ret == -1 && State() == old(State())
                else SoughtAt(old(State()), State(), mounts, k, fd, off, whence, ret)
    {
      hide Fits, Evolves, WellFormed, AllFit, TablesFit, Mounted, ElemsOf, RefsOf;
      k := 0;
      if fd < 0 || fd >= MAX_FILES || files[fd] == Free {
        return -1, 0;
      }
      k := OnItsMount(fd);
      ghost var es, rs, before := ElemsOf(mounts), RefsOf(mounts), files;
      OneOfEach(k);
      var h := files[fd];
      var ok, after := h.mp.data.Lseek(h.data, h.offset, off, whence);
      SameEvolves(es[k], h.data);
      assert es[k := es[k]] == es && rs[k := rs[k]] == rs;
      FileSettled(before, dirs, mounts, es, rs, k, fd, h.(offset := after), es[k], h.data);
      FileMounted(before, dirs, mounts, fd, h.(offset := after));
      files := files[fd := h.(offset := after)];
      ElemsAfter(mounts, es, k);
      RefsAfter(mounts, rs, k);
      return if ok then after else -1, k;
    }

    method Write(fd: int, data: bytes, grown: bool) returns (ret: int, ghost k: nat)
      requires Valid()
      modifies this`files, Datas(mounts)
      ensures Valid()
      ensures if data == [] || !old(IsOpen(fd)) || old(files)[fd].mode == ReadOnly
                then ret == -1 && State() == old(State())
                else WrittenAt(old(State()), State(), mounts, k, fd, data, grown, ret)
    {
      hide MountsFit, TablesFit, Mounted, ElemsOf, RefsOf, WrittenAt;
      k := 0;
      if |data| == 0 || fd < 0 || fd >= MAX_FILES || files[fd] == Free || files[fd].mode == ReadOnly {
        return -1, 0;
      }
      k := OnItsMount(fd);
      ret := WriteOn(files[fd].mp, k, fd, data, grown);
    }

    /** The open descriptor fd of mount point k is written. */
    method WriteOn(mp: MountPoint, ghost k: nat, fd: nat, data: bytes, grown: bool) returns (ret: int)
      requires Valid() && IsOpen(fd) && files[fd].mp == mp && k < |mounts| && mounts[k] == mp
      requires FileLive(files[fd], mp.data.elems)
      modifies this`files, mp.data
      ensures Valid() && WrittenAt(old(State()), State(), mounts, k, fd, data, grown, ret)
    {
      hide Fits, Evolves, WellFormed, AllFit, TablesFit, Mounted, MountsFit, ElemsOf, RefsOf, WithContent,
           Splice, Datas;
      ValidMeans();
      ghost var es, rs, before := ElemsOf(mounts), RefsOf(mounts), files;
      OneOfEach(k);
      var h := files[fd];
      var written, after := mp.data.Write(h.data, h.offset, data, grown);
      WriteEvolves(es[k], h.data, h.offset, data, written, mp.data.elems, after);
      FileSettled(before, dirs, mounts, es, rs, k, fd, h.(offset := after), mp.data.elems, h.data);
      FileMounted(before, dirs, mounts, fd, h.(offset := after));
      ElemsAfter(mounts, es, k);
      assert rs[k := rs[k]] == rs;
      files := files[fd := h.(offset := after)];
      ValidMade(es[k := mp.data.elems], rs);
      return if written.Some? then written.value else -1;
    }

    method Opendir(path: bytes, memory: bool) returns (id: Option<nat>, ghost k: Option<nat>, ghost rest: nat)
      requires Valid()
      modifies this`files, this`dirs, mounts, Datas(mounts)
      ensures Valid() && Located(mounts, path, k, rest)
      ensures var e := if memory && k.Some? then DirTarget(old(State()).es[k.value], path, rest) else None;
        if e == None then id == None && State() == old(State())
        else id == Some(|old(dirs)|) && DirOpenedAt(old(State()), State(), mounts[k.value], k.value, e.value)
    {
      hide TablesFit, Mounted, MountsFit, DirTarget, Located, DirOpenedAt, ElemsOf, RefsOf, Datas;
      var mp, at;
      mp, at, k := FindPath(path);
      rest := at;
      if k.Some? {
        LocatedWithin(mounts, path, k, rest);
      }
      if !memory || mp == null {
        return None, k, rest;
      }
      RootsPresent(k.value);
      DirTargetRest(ElemsOf(mounts)[k.value], path, rest);
      id := OpendirOn(mp, k.value, path[at..]);
    }

    method OpendirOn(mp: MountPoint, ghost k: nat, path: bytes) returns (id: Option<nat>)
      requires Valid() && k < |mounts| && mounts[k] == mp && ROOT in mp.data.elems
      modifies this`files, this`dirs, mp, mp.data
      ensures Valid()
      ensures var e := DirTarget(old(State()).es[k], path, 0);
        if e == None then id == None && State() == old(State())
        else id == Some(|old(dirs)|) && DirOpenedAt(old(State()), State(), mp, k, e.value)
    {
      hide Fits, Evolves, WellFormed, Found, DirTarget, Components, AllFit, TablesFit, Mounted, ElemsOf, RefsOf;
      ghost var es, rs, before := ElemsOf(mounts), RefsOf(mounts), dirs;
      OneOfEach(k);
      assert path[0..] == path;
      DirTargetIs(es[k], path, 0);
      var ok, data := mp.data.Opendir(path);
      ElemsAfter(mounts, es, k);
      RefsAfter(mounts, rs, k);
      if !ok {
        assert es[k := es[k]] == es && rs[k := rs[k]] == rs;
        return None;
      }
      var h := Handle.Open(mp, data, 0, ReadOnly);
      var i := |dirs|;
      RefsEvolve(es[k], data, mp.data.elems[data].refs);
      DirMade(files, before, mounts, es, rs);
      DirSettled(files, before + [Free], mounts, es, rs, k, i, h, mp.data.elems, data);
      DirListed(files, before, mounts, h);
      assert (before + [Free])[i := h] == before + [h];
      assert rs[k := rs[k]] == rs;
      Count(mp, k, files, dirs + [h], es[k := mp.data.elems], 1);
      return Some(i);
    }

    predicate IsDir(i: nat)
      reads this`dirs
    {
      i < |dirs| && dirs[i].Open?
    }

    lemma DirOnItsMount(i: nat) returns (k: nat)
      requires Valid() && IsDir(i)
      ensures k < |mounts| && mounts[k] == dirs[i].mp && mounts[k].data.Valid()
      ensures DirLive(dirs[i], mounts[k].data.elems)
      ensures mounts[k].refs > 0 && mounts[k].data.elems[dirs[i].data].refs > 0
    {
      hide Fits, TablesFit, WellFormed;
      k :| 0 <= k < |mounts| && mounts[k] == dirs[i].mp;
      DirInUse(files, dirs, mounts[k], ElemsOf(mounts)[k], RefsOf(mounts)[k], i);
    }

    method Readdir(i: nat) returns (dent: Option<Dirent>, ghost k: nat)
      requires Valid() && IsDir(i)
      modifies this`dirs
      ensures Valid() && EntryAt(old(State()), State(), mounts, k, i, dent)
    {
      hide Fits, Evolves, WellFormed, AllFit, TablesFit, Mounted, ElemsOf, RefsOf;
      k := DirOnItsMount(i);
      ghost var es, rs, before := ElemsOf(mounts), RefsOf(mounts), dirs;
      OneOfEach(k);
      var h := dirs[i];
      dent := h.mp.data.Readdir(h.data, h.offset);
      assert es[k := es[k]] == es && rs[k := rs[k]] == rs;
      if dent == None {
        ElemsAfter(mounts, es, k);
        RefsAfter(mounts, rs, k);
        return None, k;
      }
      SameEvolves(es[k], h.data);
      DirSettled(files, before, mounts, es, rs, k, i, h.(offset := h.offset + 1), es[k], h.data);
      DirMounted(files, before, mounts, i, h.(offset := h.offset + 1));
      dirs := dirs[i := h.(offset := h.offset + 1)];
      ElemsAfter(mounts, es, k);
      RefsAfter(mounts, rs, k);
    }

    method Closedir(i: nat) returns (ghost k: nat)
      requires Valid() && IsDir(i)
      modifies this`files, this`dirs, mounts, Datas(mounts)
      ensures Valid() && DirClosedAt(old(State()), State(), mounts, k, i)
    {
      hide MountsFit, TablesFit, Mounted, ElemsOf, RefsOf, DirClosedAt;
      k := DirOnItsMount(i);
      ClosedirOn(dirs[i].mp, k, i);
    }

    method ClosedirOn(mp: MountPoint, ghost k: nat, i: nat)
      requires Valid() && IsDir(i) && dirs[i].mp == mp && k < |mounts| && mounts[k] == mp
      requires DirLive(dirs[i], mp.data.elems) && mp.refs > 0 && mp.data.elems[dirs[i].data].refs > 0
      modifies this`files, this`dirs, mp, mp.data
      ensures Valid() && DirClosedAt(old(State()), State(), mounts, k, i)
    {
      hide Fits, Evolves, WellFormed, AllFit, TablesFit, Mounted, ElemsOf, RefsOf;
      ghost var es, rs, before := ElemsOf(mounts), RefsOf(mounts), dirs;
      OneOfEach(k);
      var data: nat := dirs[i].data;
      mp.data.Close(data);
      RefsEvolve(es[k], data, old(mp.data.elems)[data].refs - 1);
      DirSettled(files, before, mounts, es, rs, k, i, Free, mp.data.elems, data);
      DirMounted(files, before, mounts, i, Free);
      ElemsAfter(mounts, es, k);
      RefsAfter(mounts, rs, k);
      assert rs[k := rs[k]] == rs;
      Count(mp, k, files, dirs[i := Free], es[k := mp.data.elems], -1);
    }

    /** los_unlink. */
    method Unlink(path: bytes) returns (ok: bool, ghost k: Option<nat>, ghost rest: nat)
      requires Valid()
      modifies Datas(mounts)
      ensures Valid() && Located(mounts, path, k, rest)
      ensures var e := if k.Some? then UnlinkTarget(old(State()).es[k.value], path, rest) else None;
        if e == None then !ok && State() == old(State())
        else
          && ok && ElementsAt(old(State()), State(), k.value, State().es[k.value])
          && if e.value == ROOT then State() == old(State())
             else Detached(old(State()).es[k.value], State().es[k.value], e.value)
      ensures ok <==> k.Some? && rest < |path| && UnlinkNamed(old(State()).es[k.value], path[rest..])
    {
      hide TablesFit, Mounted, MountsFit, UnlinkTarget, Located, ElementsAt, Detached, ElemsOf, RefsOf, Datas,
           UnlinkNamed;
      var mp, at;
      mp, at, k := FindPath(path);
      rest := at;
      if k.Some? {
        LocatedWithin(mounts, path, k, rest);
      }
      if mp == null || at == |path| {
        NothingNamed(path, at);
        return false, k, rest;
      }
      RootsPresent(k.value);
      UnlinkTargetHere(ElemsOf(mounts)[k.value], path, rest);
      ok := UnlinkOn(mp, k.value, path[at..]);
    }

    method UnlinkOn(mp: MountPoint, ghost k: nat, path: bytes) returns (ok: bool)
      requires Valid() && k < |mounts| && mounts[k] == mp && ROOT in mp.data.elems
      modifies mp.data
      ensures Valid()
      ensures var e := Unlinking(old(State()).es[k], path);
        if e == None then !ok && State() == old(State())
        else
          && ok && ElementsAt(old(State()), State(), k, State().es[k])
          && if e.value == ROOT then State() == old(State()) else Detached(old(State()).es[k], State().es[k], e.value)
      ensures ok <==> UnlinkNamed(old(State()).es[k], path)
    {
      hide Fits, Evolves, WellFormed, Found, Unlinking, Detached, Components, AllFit,
           TablesFit, Mounted, ElemsOf, RefsOf, LeadsTo, Removable;
      ghost var es, rs := ElemsOf(mounts), RefsOf(mounts);
      OneOfEach(k);
      UnlinkingUnused(es[k], path);
      ok := mp.data.Unlink(path);
      ElemsAfter(mounts, es, k);
      RefsAfter(mounts, rs, k);
      assert es[k := es[k]] == es && rs[k := rs[k]] == rs;
      UnlinkEvolves(es[k], mp.data.elems, Unlinking(es[k], path));
      ElementsSettled(files, dirs, mounts, es, rs, k, mp.data.elems, ROOT);
    }

    /** los_mkdir. */
    method Mkdir(path: bytes, memory: bool) returns (ok: bool, ghost k: Option<nat>, ghost rest: nat)
      requires Valid()
      modifies Datas(mounts)
      ensures Valid() && Located(mounts, path, k, rest)
      ensures var made := if k.Some? then MkdirTarget(old(State()).es[k.value], path, rest, memory) else None;
        if made == None then !ok && State() == old(State())
        else
          && ok && ElementsAt(old(State()), State(), k.value, State().es[k.value])
          && MadeIn(old(State()).es[k.value], State().es[k.value], made.value)
      ensures ok <==> k.Some? && rest < |path| && MkdirNamed(old(State()).es[k.value], path[rest..], memory)
    {
      hide TablesFit, Mounted, MountsFit, MkdirTarget, Located, ElementsAt, MadeIn, ElemsOf, RefsOf, Datas, MkdirNamed;
      var mp, at;
      mp, at, k := FindPath(path);
      rest := at;
      if k.Some? {
        LocatedWithin(mounts, path, k, rest);
      }
      if mp == null || at == |path| {
        NothingNamed(path, at);
        return false, k, rest;
      }
      RootsPresent(k.value);
      MkdirTargetHere(ElemsOf(mounts)[k.value], path, rest, memory);
      ok := MkdirOn(mp, k.value, path[at..], memory);
    }

    method MkdirOn(mp: MountPoint, ghost k: nat, path: bytes, memory: bool) returns (ok: bool)
      requires Valid() && k < |mounts| && mounts[k] == mp && ROOT in mp.data.elems
      modifies mp.data
      ensures Valid()
      ensures var made := Making(old(State()).es[k], path, memory);
        if made == None then !ok && State() == old(State())
        else
          && ok && ElementsAt(old(State()), State(), k, State().es[k])
          && MadeIn(old(State()).es[k], State().es[k], made.value)
      ensures ok <==> MkdirNamed(old(State()).es[k], path, memory)
    {
      hide Fits, Evolves, WellFormed, Found, Making, Components, AllFit, TablesFit, Mounted, ElemsOf, RefsOf, Missing;
      ghost var es, rs := ElemsOf(mounts), RefsOf(mounts);
      OneOfEach(k);
      ghost var id := mp.data.next;
      ok := mp.data.Mkdir(path, memory);
      ElemsAfter(mounts, es, k);
      RefsAfter(mounts, rs, k);
      assert es[k := es[k]] == es && rs[k := rs[k]] == rs;
      if ok {
        ghost var (d, name) := Making(es[k], path, memory).value;
        InsertEvolves(es[k], d, id, name, true, 0);
        ElementsSettled(files, dirs, mounts, es, rs, k, mp.data.elems, id);
      }
    }

    /** los_rename: both paths must lead to the same mount point. */
    method Rename(from: bytes, to: bytes) returns (ok: bool, ghost k: Option<nat>, ghost start: nat, ghost rest: nat)
      requires Valid()
      modifies Datas(mounts)
      ensures Valid() && Located(mounts, from, k, start)
      ensures ok ==>
        && Located(mounts, to, k, rest) && k.Some?
        && ElementsAt(old(State()), State(), k.value, State().es[k.value])
        && RenamedIn(old(State()).es[k.value], State().es[k.value],
                     RenameTarget(old(State()).es[k.value], from, start, to, rest))
      ensures !ok ==> State() == old(State())
      ensures !ok && Located(mounts, to, k, rest) && k.Some? ==>
        RenameTarget(old(State()).es[k.value], from, start, to, rest) == None
      ensures ok <==> k.Some? && Located(mounts, to, k, rest) && start < |from| && rest < |to|
                      && RenameNamed(old(State()).es[k.value], from[start..], to[rest..])
    {
      hide TablesFit, Mounted, MountsFit, RenameTarget, Located, ElementsAt, RenamedIn, ElemsOf, RefsOf, Datas,
           RenameNamed;
      var mp, at, other, there;
      ghost var j: Option<nat>;
      mp, at, k := FindPath(from);
      other, there, j := FindPath(to);
      start, rest := at, there;
      if k.Some? {
        LocatedWithin(mounts, from, k, start);
      }
      if j.Some? {
        LocatedWithin(mounts, to, j, rest);
      }
      NothingRenamed(from, at, to, there);
      if mp == null || at == |from| || other == null || there == |to| || mp != other {
        SameMount(k, j, to, rest);
        return false, k, start, rest;
      }
      SameMount(k, j, to, rest);
      RootsPresent(k.value);
      RenameTargetHere(ElemsOf(mounts)[k.value], from, start, to, rest);
      ok := RenameOn(mp, k.value, from[at..], to[there..]);
    }

    /** A path is located in one way only. */
    lemma SameMount(k: Option<nat>, j: Option<nat>, to: bytes, rest: nat)
      requires TablesFit(mounts, fileSystems) && Located(mounts, to, j, rest)
      ensures Located(mounts, to, k, rest) ==> k == j
      ensures k.Some? && j.Some? && k.value < |mounts| && j.value < |mounts| && mounts[k.value] == mounts[j.value] ==>
        k == j
    {
      if Located(mounts, to, k, rest) && k.Some? && j.Some? {
        OrderDoesNotMatter(Paths(mounts), Paths(mounts), to, k.value, j.value);
      }
    }

    method RenameOn(mp: MountPoint, ghost k: nat, from: bytes, to: bytes) returns (ok: bool)
      requires Valid() && k < |mounts| && mounts[k] == mp && ROOT in mp.data.elems
      modifies mp.data
      ensures Valid()
      ensures var renamed := Renaming(old(State()).es[k], from, to);
        ok == renamed.Some?
        && if ok
           then ElementsAt(old(State()), State(), k, State().es[k])
             && RenamedIn(old(State()).es[k], State().es[k], renamed)
           else State() == old(State())
      ensures ok <==> RenameNamed(old(State()).es[k], from, to)
    {
      hide Fits, Evolves, WellFormed, Found, Renaming, Components, AllFit, TablesFit, Mounted, ElemsOf, RefsOf,
           CanRename;
      ghost var es, rs := ElemsOf(mounts), RefsOf(mounts);
      OneOfEach(k);
      ok := mp.data.Rename(from, to);
      ElemsAfter(mounts, es, k);
      RefsAfter(mounts, rs, k);
      assert es[k := es[k]] == es && rs[k := rs[k]] == rs;
      if ok {
        ghost var (e, name) := Renaming(es[k], from, to).value;
        NameEvolves(es[k], e, name);
        ElementsSettled(files, dirs, mounts, es, rs, k, mp.data.elems, ROOT);
      }
    }

    // --- file systems and mount points ---

    /** los_fs_find. */
    method FindFs(name: bytes) returns (fs: FileSystem?)
      requires Valid()
      ensures Valid()
      ensures fs == null <==> forall i :: 0 <= i < |fileSystems| ==> fileSystems[i].name != name
      ensures fs != null ==> fs in fileSystems && fs.name == name
    {
      hide MountsFit, TablesFit, Mounted;
      var i := 0;
      while i < |fileSystems|
        invariant 0 <= i <= |fileSystems|
        invariant forall j :: 0 <= j < i ==> fileSystems[j].name != name
      {
        if fileSystems[i].name == name {
          return fileSystems[i];
        }
        i := i + 1;
      }
      return null;
    }

    /** los_fs_register; a file system that is not registered is counted nowhere. */
    method Register(fs: FileSystem) returns (ok: bool)
      requires Valid() && (fs !in fileSystems ==> fs.refs == 0)
      modifies this`fileSystems
      ensures Valid()
      ensures ok <==>
        FsNameOk(fs.name) && forall i :: 0 <= i < |old(fileSystems)| ==> old(fileSystems)[i].name != fs.name
      ensures fileSystems == if ok then [fs] + old(fileSystems) else old(fileSystems)
    {
      hide AllFit, Mounted, TablesFit, ElemsOf, RefsOf, WellFormed;
      ghost var es, rs := ElemsOf(mounts), RefsOf(mounts);
      var allowed := CheckFsName(fs.name);
      SameHeld(mounts, es, rs);
      if !allowed {
        return false;
      }
      var known := FindFs(fs.name);
      if known != null {
        return false;
      }
      ListFs(fs);
      return true;
    }

    method ListFs(fs: FileSystem)
      requires Valid() && (fs !in fileSystems ==> fs.refs == 0)
      requires forall i :: 0 <= i < |fileSystems| ==> fileSystems[i].name != fs.name
      modifies this`fileSystems
      ensures Valid() && fileSystems == [fs] + old(fileSystems)
    {
      hide AllFit, Mounted, TablesFit, ElemsOf, RefsOf, WellFormed;
      ghost var es, rs := ElemsOf(mounts), RefsOf(mounts);
      FsAdded(mounts, fileSystems, fs);
      fileSystems := [fs] + fileSystems;
      SameHeld(mounts, es, rs);
    }

    /** los_fs_unregister: with mount points left it reports success and removes nothing. */
    method Unregister(fs: FileSystem?) returns (ok: bool)
      requires Valid()
      modifies this`fileSystems
      ensures Valid()
      ensures ok <==> fs != null && (fs.refs > 0 || fs in old(fileSystems))
      ensures fs == null || fs.refs > 0 || fs !in old(fileSystems) ==> fileSystems == old(fileSystems)
      ensures fs != null && fs.refs == 0 && fs in old(fileSystems) ==>
        forall f :: f in fileSystems <==> f in old(fileSystems) && f != fs
    {
      hide AllFit, Mounted, TablesFit, ElemsOf, RefsOf, WellFormed;
      ghost var es, rs := ElemsOf(mounts), RefsOf(mounts);
      if fs == null {
        return false;
      }
      if fs.refs > 0 {
        return true;
      }
      var i := 0;
      while i < |fileSystems|
        modifies {}
        invariant 0 <= i <= |fileSystems| && fs !in fileSystems[..i]
      {
        if fileSystems[i] == fs {
          break;
        }
        i := i + 1;
      }
      if i == |fileSystems| {
        assert fileSystems[..i] == fileSystems;
        return false;
      }
      FsRemoved(mounts, fileSystems, i);
      fileSystems := fileSystems[..i] + fileSystems[i + 1..];
      SameHeld(mounts, es, rs);
      return true;
    }

    /** ramfs_mount through los_fs_mount; memory says whether every allocation succeeds. */
    method Mount(fsname: bytes, path: bytes, memory: bool) returns (ok: bool)
      requires Valid()
      modifies this`mounts, fileSystems
      ensures Valid() && files == old(files) && dirs == old(dirs)
      ensures ok <==>
        && memory && 0 < |path| < MAX_NAME && path[0] == SLASH
        && (exists i :: 0 <= i < |fileSystems| && fileSystems[i].name == fsname)
        && !(Components(path) != []
             && exists i :: 0 <= i < |old(mounts)| && Components(old(mounts)[i].path) == Components(path))
      ensures !ok ==> mounts == old(mounts)
      ensures ok ==>
        && |mounts| == |old(mounts)| + 1 && mounts[1..] == old(mounts) && fresh(mounts[0]) && fresh(mounts[0].data)
        && mounts[0].path == path && mounts[0].fs.name == fsname && mounts[0].refs == 0
        && mounts[0].data.elems.Keys == {ROOT}
    {
      hide AllFit, TablesFit, Mounted, DistinctMounts, Components, ElemsOf, RefsOf, WellFormed;
      ghost var es, rs := ElemsOf(mounts), RefsOf(mounts);
      if |path| == 0 || |path| >= MAX_NAME || path[0] != SLASH {
        return false;
      }
      var fs := FindFs(fsname);
      if fs == null {
        return false;
      }
      ghost var k;
      var mp, rest;
      mp, rest, k := FindPath(path);
      SameHeld(mounts, es, rs);
      LocatedTaken(mounts, path, k, rest);
      if mp != null && rest == |path| {
        return false;
      }
      if !memory {
        return false;
      }
      StillDistinct(path);
      Add(path, fs);
      return true;
    }

    lemma StillDistinct(path: bytes)
      requires TablesFit(mounts, fileSystems)
      requires Components(path) == []
        || forall i :: 0 <= i < |mounts| ==> Components(mounts[i].path) != Components(path)
      ensures DistinctMounts([path] + Paths(mounts))
    {
      hide Components, DistinctMounts;
      assert forall i :: 0 <= i < |mounts| ==> Paths(mounts)[i] == mounts[i].path;
      MountKeepsDistinct(Paths(mounts), path);
    }

    method Add(path: bytes, fs: FileSystem)
      requires Valid() && fs in fileSystems && DistinctMounts([path] + Paths(mounts))
      modifies this`mounts, fs
      ensures Valid()
      ensures |mounts| == |old(mounts)| + 1 && mounts[1..] == old(mounts) && fresh(mounts[0]) && fresh(mounts[0].data)
      ensures mounts[0].path == path && mounts[0].fs == fs && mounts[0].refs == 0 && mounts[0].data.elems.Keys == {ROOT}
    {
      hide DistinctMounts, WellFormed, MountsOf;
      var data := new Ram();
      var m := new MountPoint(path, fs, data);
      Enlist(m);
    }

    method Enlist(m: MountPoint)
      requires Valid() && m.data.Valid() && m.refs == 0 && forall e :: e in m.data.elems ==> m.data.elems[e].refs == 0
      requires m.fs in fileSystems && DistinctMounts([m.path] + Paths(mounts))
      requires forall i :: 0 <= i < |mounts| ==> mounts[i] != m && mounts[i].data != m.data
      modifies this`mounts, m.fs
      ensures Valid() && mounts == [m] + old(mounts)
    {
      hide AllFit, TablesFit, Mounted, MountsFit, Apart, DistinctMounts, ElemsOf, RefsOf, WellFormed, Fits, MountsOf;
      ValidMeans();
      ghost var es, rs, before := ElemsOf(mounts), RefsOf(mounts), mounts;
      Tables(mounts, fileSystems);
      NothingOn(files, dirs, before, m, m.data.elems);
      OneMoreFits(files, dirs, before, es, rs, m, m.data.elems);
      m.fs.refs := m.fs.refs + 1;
      TablesWith(before, fileSystems, m);
      mounts := [m] + mounts;
      HeldWith(before, es, rs, mounts);
      ValidMade([m.data.elems] + es, [0] + rs);
    }

    /** los_fs_unmount: only a mount point on which nothing is open goes. */
    method Unmount(path: bytes) returns (ok: bool, ghost k: Option<nat>, ghost rest: nat)
      requires Valid()
      modifies this`mounts, fileSystems
      ensures Valid() && files == old(files) && dirs == old(dirs)
      ensures Located(old(mounts), path, k, rest)
      ensures ok <==> k.Some? && rest == |path| && old(mounts)[k.value].refs == 0
      ensures mounts == if ok then old(mounts)[..k.value] + old(mounts)[k.value + 1..] else old(mounts)
    {
      hide AllFit, TablesFit, Mounted, Located, ElemsOf, RefsOf, WellFormed;
      ghost var es, rs := ElemsOf(mounts), RefsOf(mounts);
      var mp, at;
      mp, at, k := FindPath(path);
      rest := at;
      if k.Some? {
        LocatedWithin(mounts, path, k, rest);
      }
      SameHeld(mounts, es, rs);
      if mp == null || at != |path| || mp.refs != 0 {
        return false, k, rest;
      }
      FsOfMount(k.value);
      Drop(mp, k.value);
      return true, k, rest;
    }

    /** Mount point k leaves the list, and its file system counts one less. */
    method Drop(mp: MountPoint, ghost k: nat)
      requires Valid() && k < |mounts| && mounts[k] == mp && mp.refs == 0
      modifies this`mounts, mp.fs
      ensures Valid() && mounts == old(mounts)[..k] + old(mounts)[k + 1..]
    {
      hide AllFit, TablesFit, Apart, DistinctMounts, Mounted, MountsFit, ElemsOf, RefsOf, WellFormed, MountsOf;
      ValidMeans();
      ghost var es, rs := ElemsOf(mounts), RefsOf(mounts);
      FsOfMount(k);
      Tables(mounts, fileSystems);
      HandlesElsewhere(files, dirs, mounts, es, rs, k);
      var j := IndexOf(mp, k);
      mp.fs.refs := mp.fs.refs - 1;
      TablesWithout(mounts, fileSystems, k);
      HeldWithout(mounts, es, rs, k);
      mounts := mounts[..j] + mounts[j + 1..];
      ValidMade(es[..k] + es[k + 1..], rs[..k] + rs[k + 1..]);
    }

    method IndexOf(mp: MountPoint, ghost k: nat) returns (j: nat)
      requires k < |mounts| && mounts[k] == mp && Apart(mounts)
      ensures j == k
    {
      j := 0;
      while mounts[j] != mp
        invariant 0 <= j <= k
        decreases k - j
      {
        j := j + 1;
      }
    }

    lemma FsOfMount(k: nat)
      requires TablesFit(mounts, fileSystems) && k < |mounts|
      ensures mounts[k].fs in fileSystems && mounts[k].fs.refs > 0
    {
      MountsOfLess(mounts, k, mounts[k].fs);
    }
  }

  lemma MkdirTargetHere(m: Elems, path: bytes, rest: nat, memory: bool)
    requires rest < |path| && ROOT in m
    ensures MkdirTarget(m, path, rest, memory) == Making(m, path[rest..], memory)
  {
  }

  lemma RenameTargetHere(m: Elems, from: bytes, start: nat, to: bytes, rest: nat)
    requires start < |from| && rest < |to| && ROOT in m
    ensures RenameTarget(m, from, start, to, rest) == Renaming(m, from[start..], to[rest..])
  {
  }

  lemma NothingRenamed(from: bytes, start: nat, to: bytes, rest: nat)
    ensures forall m: Elems :: start >= |from| || rest >= |to| ==> RenameTarget(m, from, start, to, rest) == None
  {
  }

  lemma {:induction false} MountsOfLess(ms: seq<MountPoint>, k: nat, f: FileSystem)
    requires k < |ms|
    ensures MountsOf(ms, f) == MountsOf(ms[..k] + ms[k + 1..], f) + (if ms[k].fs == f then 1 else 0)
    decreases ms
  {
    var less := ms[..k] + ms[k + 1..];
    if k > 0 {
      assert less[1..] == ms[1..][..k - 1] + ms[1..][k..];
      MountsOfLess(ms[1..], k - 1, f);
    } else {
      assert less == ms[1..];
    }
  }

  /** A mount point without handles can leave the list. */
  lemma HandlesElsewhere(files: seq<Handle>, dirs: seq<Handle>, ms: seq<MountPoint>, es: seq<Elems>,
                         rs: seq<nat>, k: nat)
    requires AllFit(files, dirs, ms, es, rs) && Mounted(files, dirs, ms) && k < |ms| && rs[k] == 0
    ensures AllFit(files, dirs, ms[..k] + ms[k + 1..], es[..k] + es[k + 1..], rs[..k] + rs[k + 1..])
    ensures Mounted(files, dirs, ms[..k] + ms[k + 1..])
  {
    var less := ms[..k] + ms[k + 1..];
    forall i | 0 <= i < |files| && files[i].Open? ensures files[i].mp in less {
      CountPositive(files, ms[k], 0, i);
      StillListed(ms, k, files[i].mp);
    }
    forall i | 0 <= i < |dirs| && dirs[i].Open? ensures dirs[i].mp in less {
      CountPositive(dirs, ms[k], 0, i);
      StillListed(ms, k, dirs[i].mp);
    }
  }

  lemma StillListed(ms: seq<MountPoint>, k: nat, m: MountPoint)
    requires k < |ms| && m in ms && m != ms[k]
    ensures m in ms[..k] + ms[k + 1..]
  {
    var i :| 0 <= i < |ms| && ms[i] == m;
    assert (ms[..k] + ms[k + 1..])[if i < k then i else i - 1] == m;
  }

  lemma Tables(ms: seq<MountPoint>, fss: seq<FileSystem>)
    requires TablesFit(ms, fss)
    ensures Apart(ms) && DistinctMounts(Paths(ms))
    ensures forall i, j :: 0 <= i < j < |fss| ==> fss[i] != fss[j]
    ensures forall i :: 0 <= i < |ms| ==> ms[i].fs in fss
    ensures forall f :: f in fss ==> f.refs == MountsOf(ms, f)
  {
  }

  lemma TablesMade(ms: seq<MountPoint>, fss: seq<FileSystem>)
    requires Apart(ms) && DistinctMounts(Paths(ms))
    requires forall i, j :: 0 <= i < j < |fss| ==> fss[i] != fss[j]
    requires forall i :: 0 <= i < |ms| ==> ms[i].fs in fss
    requires forall f :: f in fss ==> f.refs == MountsOf(ms, f)
    ensures TablesFit(ms, fss)
  {
  }

  lemma ApartWith(ms: seq<MountPoint>, m: MountPoint)
    requires Apart(ms) && forall i :: 0 <= i < |ms| ==> ms[i] != m && ms[i].data != m.data
    ensures Apart([m] + ms)
  {
    var more := [m] + ms;
    forall i, j | 0 <= i < j < |more| ensures more[i] != more[j] && more[i].data != more[j].data {
      assert more[j] == ms[j - 1] && (i > 0 ==> more[i] == ms[i - 1]);
    }
  }

  /** The tables with a new mount point in front, once its file system counts one more. */
  lemma TablesWith(ms: seq<MountPoint>, fss: seq<FileSystem>, m: MountPoint)
    requires Apart(ms) && forall i :: 0 <= i < |ms| ==> ms[i] != m && ms[i].data != m.data
    requires DistinctMounts([m.path] + Paths(ms))
    requires forall i, j :: 0 <= i < j < |fss| ==> fss[i] != fss[j]
    requires m.fs in fss && forall i :: 0 <= i < |ms| ==> ms[i].fs in fss
    requires forall f :: f in fss ==> f.refs == MountsOf(ms, f) + if m.fs == f then 1 else 0
    ensures TablesFit([m] + ms, fss)
  {
    hide DistinctMounts, Apart, TablesFit, MountsOf;
    var more := [m] + ms;
    ApartWith(ms, m);
    MoreListed(ms, fss, m);
    forall f | f in fss ensures f.refs == MountsOf(more, f) {
      MountsOfMore(ms, m, f);
    }
    TablesMade(more, fss);
  }

  lemma MoreListed(ms: seq<MountPoint>, fss: seq<FileSystem>, m: MountPoint)
    requires m.fs in fss && forall i :: 0 <= i < |ms| ==> ms[i].fs in fss
    ensures forall i :: 0 <= i < |[m] + ms| ==> ([m] + ms)[i].fs in fss
    ensures Paths([m] + ms) == [m.path] + Paths(ms)
  {
    assert forall i :: 0 < i < |[m] + ms| ==> ([m] + ms)[i] == ms[i - 1];
  }

  lemma MountsOfMore(ms: seq<MountPoint>, m: MountPoint, f: FileSystem)
    ensures MountsOf([m] + ms, f) == MountsOf(ms, f) + if m.fs == f then 1 else 0
  {
    assert ([m] + ms)[1..] == ms;
  }

  lemma OneMoreFits(files: seq<Handle>, dirs: seq<Handle>, ms: seq<MountPoint>, es: seq<Elems>, rs: seq<nat>,
                    m: MountPoint, elems: Elems)
    requires AllFit(files, dirs, ms, es, rs) && Fits(files, dirs, m, elems, 0) && Mounted(files, dirs, ms)
    ensures AllFit(files, dirs, [m] + ms, [elems] + es, [0] + rs) && Mounted(files, dirs, [m] + ms)
  {
    hide Fits;
  }

  /** The tables without mount point k, once its file system counts one less. */
  lemma TablesWithout(ms: seq<MountPoint>, fss: seq<FileSystem>, k: nat)
    requires k < |ms| && Apart(ms) && DistinctMounts(Paths(ms))
    requires forall i, j :: 0 <= i < j < |fss| ==> fss[i] != fss[j]
    requires forall i :: 0 <= i < |ms| ==> ms[i].fs in fss
    requires forall f :: f in fss ==> f.refs == MountsOf(ms, f) - if ms[k].fs == f then 1 else 0
    ensures TablesFit(ms[..k] + ms[k + 1..], fss)
  {
    hide DistinctMounts, Apart, TablesFit;
    var less := ms[..k] + ms[k + 1..];
    ApartWithout(ms, k);
    DistinctWithout(Paths(ms), k);
    assert Paths(less) == Paths(ms)[..k] + Paths(ms)[k + 1..];
    forall f | f in fss ensures f.refs == MountsOf(less, f) {
      MountsOfLess(ms, k, f);
    }
    assert forall i :: 0 <= i < |less| ==> less[i] == ms[if i < k then i else i + 1];
    TablesMade(less, fss);
  }

  lemma ApartWithout(ms: seq<MountPoint>, k: nat)
    requires Apart(ms) && k < |ms|
    ensures Apart(ms[..k] + ms[k + 1..])
  {
    var less := ms[..k] + ms[k + 1..];
    forall i, j | 0 <= i < j < |less| ensures less[i] != less[j] && less[i].data != less[j].data {
      var a, b := if i < k then i else i + 1, if j < k then j else j + 1;
      assert less[i] == ms[a] && less[j] == ms[b];
    }
  }

  lemma DistinctWithout(ps: seq<bytes>, k: nat)
    requires DistinctMounts(ps) && k < |ps|
    ensures DistinctMounts(ps[..k] + ps[k + 1..])
  {
    hide Components;
    var less := ps[..k] + ps[k + 1..];
    forall i, j | 0 <= i < |less| && 0 <= j < |less| && i != j && Components(less[i]) != []
      ensures Components(less[i]) != Components(less[j])
    {
      var a, b := if i < k then i else i + 1, if j < k then j else j + 1;
      assert less[i] == ps[a] && less[j] == ps[b];
    }
  }

  /** No handle is on a mount point that is not in the list yet. */
  lemma NothingOn(files: seq<Handle>, dirs: seq<Handle>, ms: seq<MountPoint>, m: MountPoint, elems: Elems)
    requires Mounted(files, dirs, ms) && m !in ms && forall e :: e in elems ==> elems[e].refs == 0
    ensures Fits(files, dirs, m, elems, 0)
  {
    CountNoMount(files, m);
    CountNoMount(dirs, m);
    forall e | e in elems ensures OnElem(files, m, e) == 0 && OnElem(dirs, m, e) == 0 {
      CountNone(files, m, e);
      CountNone(dirs, m, e);
    }
  }

  /** los_fs_name_check. */
  predicate FsNameOk(name: bytes) {
    0 < |name| < MAX_FS_NAME && forall i :: 0 <= i < |name| ==> FsChar(name[i])
  }

  predicate FsChar(c: byte) {
    97 <= c <= 122 || 65 <= c <= 90 || 48 <= c <= 57 || c == 95 || c == 45
  }

  /** A letter, a digit, an underscore or a hyphen. */
  ghost predicate NameByte(c: byte) {
    || (exists k :: 0 <= k < 26 && (SMALL_LETTERS[k] as int == c || CAPITAL_LETTERS[k] as int == c))
    || (exists k :: 0 <= k < 10 && DECIMALS[k] as int == c)
    || c == '_' as int || c == '-' as int
  }

  lemma FsCharExactly(c: byte)
    ensures FsChar(c) <==> NameByte(c)
  {
    forall k: nat | k < 26 ensures SMALL_LETTERS[k] as int == 97 + k && CAPITAL_LETTERS[k] as int == 65 + k {
      SmallLettersInOrder(k);
      CapitalsInOrder(k);
    }
    forall k: nat | k < 10 ensures DECIMALS[k] as int == 48 + k {
      DecimalsInOrder(k);
    }
    if 97 <= c <= 122 {
      assert SMALL_LETTERS[c - 97] as int == c;
    } else if 65 <= c <= 90 {
      assert CAPITAL_LETTERS[c - 65] as int == c;
    } else if 48 <= c <= 57 {
      assert DECIMALS[c - 48] as int == c;
    }
  }

  /** A file system's name is one to fifteen letters, digits, underscores and hyphens. */
  lemma FsNameExactly(name: bytes)
    ensures FsNameOk(name) <==> 1 <= |name| <= 15 && forall i :: 0 <= i < |name| ==> NameByte(name[i])
  {
    hide FsChar, NameByte;
    forall i | 0 <= i < |name| ensures FsChar(name[i]) <==> NameByte(name[i]) {
      FsCharExactly(name[i]);
    }
  }

  /** The loop of los_fs_name_check. */
  method CheckFsName(name: bytes) returns (ok: bool)
    ensures ok <==> FsNameOk(name)
    ensures ok <==> 1 <= |name| <= 15 && forall i :: 0 <= i < |name| ==> NameByte(name[i])
  {
    hide NameByte;
    FsNameExactly(name);
    var len := 0;
    while len < |name|
      invariant len <= |name| && len < MAX_FS_NAME && forall i :: 0 <= i < len ==> FsChar(name[i])
    {
      var ch: int := name[len];
      if !(97 <= ch <= 122 || 65 <= ch <= 90 || 48 <= ch <= 57 || ch == 95 || ch == 45) {
        return false;
      }
      len := len + 1;
      if len == MAX_FS_NAME {
        return false;
      }
    }
    return len != 0;
  }

  lemma {:induction false} NoMountsOf(ms: seq<MountPoint>, f: FileSystem)
    requires forall i :: 0 <= i < |ms| ==> ms[i].fs != f
    ensures MountsOf(ms, f) == 0
    decreases ms
  {
    if ms != [] {
      NoMountsOf(ms[1..], f);
    }
  }

  lemma {:induction false} MountsOfNone(ms: seq<MountPoint>, f: FileSystem)
    requires MountsOf(ms, f) == 0
    ensures forall i :: 0 <= i < |ms| ==> ms[i].fs != f
    decreases ms
  {
    if ms != [] {
      MountsOfNone(ms[1..], f);
    }
  }

  /** The test on what los_mp_find gives, in terms of what is mounted. */
  lemma LocatedTaken(ms: seq<MountPoint>, path: bytes, k: Option<nat>, rest: nat)
    requires Located(ms, path, k, rest)
    ensures (k.Some? && rest == |path|) <==>
      Components(path) != [] && exists i :: 0 <= i < |ms| && Components(ms[i].path) == Components(path)
  {
    hide Components;
    var ps := Paths(ms);
    MountTaken(ps, path, k, rest);
    assert forall i :: 0 <= i < |ms| ==> ps[i] == ms[i].path;
  }

  lemma NothingNamed(path: bytes, rest: nat)
    ensures forall m: Elems :: rest >= |path| ==> UnlinkTarget(m, path, rest) == None
    ensures forall m: Elems, memory: bool :: rest >= |path| ==> MkdirTarget(m, path, rest, memory) == None
  {
  }

  lemma UnlinkingUnused(m: Elems, path: bytes)
    requires ROOT in m
    ensures Unlinking(m, path).Some? ==> Unlinking(m, path).value in m && m[Unlinking(m, path).value].refs == 0
  {
  }

  lemma UnlinkEvolves(m: Elems, n: Elems, e: Option<nat>)
    requires e.Some? ==> e.value in m && m[e.value].refs == 0
    requires match e case None => n == m case Some(x) => if x == ROOT then n == m else Detached(m, n, x)
    ensures Evolves(m, n, ROOT, 0)
  {
    if e.Some? && e.value != ROOT {
      RemoveEvolves(m, n, e.value);
    } else {
      SameEvolves(m, ROOT);
    }
  }

  lemma DirListed(files: seq<Handle>, dirs: seq<Handle>, ms: seq<MountPoint>, h: Handle)
    requires Mounted(files, dirs, ms) && h.Open? && h.mp in ms
    ensures Mounted(files, dirs + [h], ms)
  {
  }
}
