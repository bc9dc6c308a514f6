/**
 * The locks of the virtual file system: tasks opening, using and closing shared descriptors while the
 * mount table stays as it is. One step runs from one lock operation, or one access to a shared descriptor
 * field, to the next; any task may take the next step.
 */
module VfsLocks {
  import opened Basics

  const MAX_FILES := 8

  datatype Status = NotUsed | Initing | Ready | Closing

  /** A descriptor: f_status, f_mp (None is NULL) and f_offset. */
  datatype Slot = Slot(status: Status, mp: Option<nat>, offset: nat)

  const FREE := Slot(NotUsed, None, 0)

  type Fd = i: nat | i < MAX_FILES
  type Slots = s: seq<Slot> | |s| == MAX_FILES witness seq(MAX_FILES, _ => FREE)

  /** Where a task stands inside a call. */
  datatype Pc =
    | Idle
      // los_open
    | OpenWait
    | OpenLocked
    | OpenSlot(fd: Fd)
    | OpenPend(fd: Fd, m: nat)
    | OpenBoth(fd: Fd, m: nat)
    | OpenFill(fd: Fd, m: nat)
    | OpenDriver(fd: Fd, m: nat)
    | OpenUndo(fd: Fd, m: nat)
      // _los_attach_file and the calls built on it
    | AttachWait(fd: Fd, closing: bool)
    | AttachCheck(fd: Fd, closing: bool)
    | AttachPend(fd: Fd, m: nat, closing: bool)
    | AttachBoth(fd: Fd, m: nat, closing: bool)
    | Attached(fd: Fd, m: nat, closing: bool)
      // los_file_put outside every lock: f_mp is cleared, then f_status
    | Putting(fd: Fd)
    | Cleared(fd: Fd)
      // los_opendir and los_mkdir; los_readdir and los_closedir begin at HandleWait
    | DirWait
    | DirLocked
    | DirPend(m: nat)
    | DirBoth(m: nat)
    | HandleWait(m: nat)
    | InMount(m: nat)
      // los_stat, los_unlink and los_rename
    | PathWait
    | PathLocked
    | InPath(m: nat)
      // a NULL f_mp was dereferenced
    | Crashed

  /** The holder of fs_mutex, the holders of the mount points' mutexes, the descriptors, the tasks. */
  datatype State = State(fs: Option<nat>, held: map<nat, nat>, slots: Slots, pcs: seq<Pc>)

  /** What a task does next, and how the parts outside this model answer. */
  datatype Action =
    | CallOpen
    | CallAttach(fd: Fd, closing: bool)
    | CallDir
    | CallHandle(m: nat)
    | CallPath
    | Acquire
    | Refused
    | TakeSlot(fd: Fd)
    | NoSlot
    | Find(m: nat)
    | NotFound
    | Proceed
    | Operate(offset: nat)
    | DriverFails

  datatype Lock = FsLock | MountLock(m: nat)

  function Init(tasks: nat): State {
    State(None, map[], seq(MAX_FILES, _ => FREE), seq(tasks, _ => Idle))
  }

  /** The mutex a task is pending on. */
  function WaitsFor(pc: Pc): Option<Lock> {
    match pc
    case OpenWait => Some(FsLock)
    case AttachWait(_, _) => Some(FsLock)
    case DirWait => Some(FsLock)
    case PathWait => Some(FsLock)
    case OpenPend(_, m) => Some(MountLock(m))
    case AttachPend(_, m, _) => Some(MountLock(m))
    case DirPend(m) => Some(MountLock(m))
    case HandleWait(m) => Some(MountLock(m))
    case _ => None
  }

  function Holder(s: State, lock: Lock): Option<nat> {
    match lock
    case FsLock => s.fs
    case MountLock(m) => if m in s.held then Some(s.held[m]) else None
  }

  function Pend(s: State, lock: Lock, t: nat): State {
    match lock
    case FsLock => s.(fs := Some(t))
    case MountLock(m) => s.(held := s.held[m := t])
  }

  function PostFs(s: State): State {
    s.(fs := None)
  }

  function PostMount(s: State, m: nat): State {
    s.(held := s.held - {m})
  }

  function At(s: State, t: nat, pc: Pc): State
    requires t < |s.pcs|
  {
    s.(pcs := s.pcs[t := pc])
  }

  function Put(s: State, fd: Fd, slot: Slot): State {
    s.(slots := s.slots[fd := slot])
  }

  /** Where a task stands once it has the mutex it was pending on. */
  function Granted(pc: Pc): Pc {
    match pc
    case OpenWait => OpenLocked
    case AttachWait(fd, closing) => AttachCheck(fd, closing)
    case DirWait => DirLocked
    case PathWait => PathLocked
    case OpenPend(fd, m) => OpenBoth(fd, m)
    case AttachPend(fd, m, closing) => AttachBoth(fd, m, closing)
    case DirPend(m) => DirBoth(m)
    case HandleWait(m) => InMount(m)
    case _ => pc
  }

  /** The first thing each call does; None when the action is no call. */
  function Called(a: Action): Option<Pc> {
    match a
    case CallOpen => Some(OpenWait)
    case CallAttach(fd, closing) => Some(AttachWait(fd, closing))
    case CallDir => Some(DirWait)
    case CallHandle(m) => Some(HandleWait(m))
    case CallPath => Some(PathWait)
    case _ => None
  }

  /** An error from the kernel instead of the mutex: attaching tries again, the others give up. */
  function GiveUp(s: State, t: nat): (r: Option<State>)
    requires t < |s.pcs|
    ensures r.Some? ==> |r.value.pcs| == |s.pcs|
  {
    match s.pcs[t]
    case OpenWait => Some(At(s, t, Idle))
    case DirWait => Some(At(s, t, Idle))
    case HandleWait(_) => Some(At(s, t, Idle))
    case PathWait => Some(At(s, t, Idle))
    case OpenPend(fd, _) => Some(At(PostFs(s), t, Putting(fd)))
    case DirPend(_) => Some(At(PostFs(s), t, Idle))
    case AttachWait(_, _) => Some(s)
    case AttachPend(_, _, _) => Some(s)
    case _ => None
  }

  /** The lookups made with fs_mutex held. */
  function LookUp(s: State, t: nat, a: Action): (r: Option<State>)
    requires t < |s.pcs|
    ensures r.Some? ==> |r.value.pcs| == |s.pcs|
  {
    match s.pcs[t]
    case OpenLocked =>
      (match a
       case TakeSlot(fd) =>
         if s.slots[fd].status != NotUsed then None
         else Some(At(Put(s, fd, s.slots[fd].(status := Initing)), t, OpenSlot(fd)))
       case NoSlot => Some(At(PostFs(s), t, Idle))
       case _ => None)
    case OpenSlot(fd) =>
      (match a
       case Find(m) => Some(At(s, t, OpenPend(fd, m)))
       case NotFound => Some(At(PostFs(s), t, Putting(fd)))
       case _ => None)
    case DirLocked =>
      (match a
       case Find(m) => Some(At(s, t, DirPend(m)))
       case NotFound => Some(At(PostFs(s), t, Idle))
       case _ => None)
    case PathLocked =>
      (match a
       case Find(m) => Some(At(s, t, InPath(m)))
       case NotFound => Some(At(PostFs(s), t, Idle))
       case _ => None)
    case _ => None
  }

  /** The steps that follow from where the task stands. */
  function Continue(s: State, t: nat): (r: Option<State>)
    requires t < |s.pcs|
    ensures r.Some? ==> |r.value.pcs| == |s.pcs|
  {
    match s.pcs[t]
    case OpenBoth(fd, m) => Some(At(PostFs(s), t, OpenFill(fd, m)))
    case OpenFill(fd, m) => Some(At(Put(s, fd, s.slots[fd].(mp := Some(m), offset := 0)), t, OpenDriver(fd, m)))
    case OpenDriver(fd, m) => Some(At(Put(s, fd, s.slots[fd].(status := Ready)), t, InMount(m)))
    case OpenUndo(fd, m) => Some(At(Put(s, fd, FREE), t, InMount(m)))
    case AttachCheck(fd, closing) =>
      if s.slots[fd].status != Ready then Some(At(PostFs(s), t, Idle))
      else if s.slots[fd].mp == None then Some(At(s, t, Crashed))
      else Some(At(s, t, AttachPend(fd, s.slots[fd].mp.value, closing)))
    case AttachBoth(fd, m, closing) =>
      Some(At(PostFs(if closing then Put(s, fd, s.slots[fd].(status := Closing)) else s), t, Attached(fd, m, closing)))
    case Attached(fd, _, closing) =>
      if s.slots[fd].mp == None then Some(At(s, t, Crashed))
      else Some(At(PostMount(s, s.slots[fd].mp.value), t, if closing then Putting(fd) else Idle))
    case Putting(fd) => Some(At(Put(s, fd, s.slots[fd].(mp := None, offset := 0)), t, Cleared(fd)))
    case Cleared(fd) => Some(At(Put(s, fd, s.slots[fd].(status := NotUsed)), t, Idle))
    case DirBoth(m) => Some(At(PostFs(s), t, InMount(m)))
    case InMount(m) => Some(At(PostMount(s, m), t, Idle))
    case InPath(_) => Some(At(PostFs(s), t, Idle))
    case _ => None
  }

  /** One step of task t; None when it cannot take that step now. */
  function Next(s: State, t: nat, a: Action): (r: Option<State>)
    requires t < |s.pcs|
    ensures r.Some? ==> |r.value.pcs| == |s.pcs|
  {
    var pc := s.pcs[t];
    match a
    case Acquire =>
      var lock := WaitsFor(pc);
      if lock == None || Holder(s, lock.value) != None then None
      else Some(At(Pend(s, lock.value, t), t, Granted(pc)))
    case Refused => GiveUp(s, t)
    case Proceed => Continue(s, t)
    case Operate(offset) =>
      // a read, write or seek of the driver
      if pc.Attached? && !pc.closing then Some(Put(s, pc.fd, s.slots[pc.fd].(offset := offset))) else None
    case DriverFails =>
      if pc.OpenDriver? then Some(At(Put(s, pc.fd, s.slots[pc.fd].(mp := None, offset := 0)), t, OpenUndo(pc.fd, pc.m)))
      else None
    case TakeSlot(_) => LookUp(s, t, a)
    case NoSlot => LookUp(s, t, a)
    case Find(_) => LookUp(s, t, a)
    case NotFound => LookUp(s, t, a)
    case _ =>
      if pc == Idle && Called(a).Some? then Some(At(s, t, Called(a).value)) else None
  }

  // --- what every step keeps ---

  predicate HoldsFs(pc: Pc) {
    pc.OpenLocked? || pc.OpenSlot? || pc.OpenPend? || pc.OpenBoth?
    || pc.AttachCheck? || pc.AttachPend? || pc.AttachBoth?
    || pc.DirLocked? || pc.DirPend? || pc.DirBoth? || pc.PathLocked? || pc.InPath?
  }

  function HoldsMount(pc: Pc): Option<nat> {
    if pc.OpenBoth? || pc.OpenFill? || pc.OpenDriver? || pc.OpenUndo? || pc.AttachBoth? || pc.Attached?
       || pc.DirBoth? || pc.InMount?
    then Some(pc.m) else None
  }

  /** The descriptor a task has taken out of use for the others: one it is opening, closing or giving back. */
  function Owns(pc: Pc): Option<Fd> {
    if pc.OpenSlot? || pc.OpenPend? || pc.OpenBoth? || pc.OpenFill? || pc.OpenDriver? || pc.OpenUndo?
       || (pc.Attached? && pc.closing) || pc.Putting? || pc.Cleared?
    then Some(pc.fd) else None
  }

  /** What a task may rely on about its descriptor. */
  predicate SlotFits(pc: Pc, slots: Slots) {
    match pc
    case OpenSlot(fd) => slots[fd].status == Initing
    case OpenPend(fd, _) => slots[fd].status == Initing
    case OpenBoth(fd, _) => slots[fd].status == Initing
    case OpenFill(fd, _) => slots[fd].status == Initing
    case OpenDriver(fd, m) => slots[fd] == Slot(Initing, Some(m), 0)
    case OpenUndo(fd, _) => slots[fd].status == Initing
    case AttachPend(fd, m, _) => slots[fd].status == Ready && slots[fd].mp == Some(m)
    case AttachBoth(fd, m, _) => slots[fd].status == Ready && slots[fd].mp == Some(m)
    case Attached(fd, m, closing) =>
      slots[fd].status == (if closing then Closing else Ready) && slots[fd].mp == Some(m)
    case Putting(fd) => slots[fd].status == Initing || slots[fd].status == Closing
    case Cleared(fd) =>
      (slots[fd].status == Initing || slots[fd].status == Closing) && slots[fd].(status := NotUsed) == FREE
    case Crashed => false
    case _ => true
  }

  ghost predicate LocksAgree(s: State) {
    && (s.fs.Some? ==> s.fs.value < |s.pcs|)
    && (forall m :: m in s.held ==> s.held[m] < |s.pcs|)
    && (forall t :: 0 <= t < |s.pcs| ==> (HoldsFs(s.pcs[t]) <==> s.fs == Some(t)))
    && (forall t, m :: 0 <= t < |s.pcs| ==> (HoldsMount(s.pcs[t]) == Some(m) <==> m in s.held && s.held[m] == t))
  }

  ghost predicate Owned(pcs: seq<Pc>, fd: Fd) {
    exists t :: 0 <= t < |pcs| && Owns(pcs[t]) == Some(fd)
  }

  /** An open descriptor is on a mount point, an unused one is as new. */
  ghost predicate SlotsRight(slots: Slots) {
    forall fd: Fd ::
      (slots[fd].status == Ready ==> slots[fd].mp.Some?) && (slots[fd].status == NotUsed ==> slots[fd] == FREE)
  }

  ghost predicate SlotsAgree(s: State) {
    && (forall t :: 0 <= t < |s.pcs| ==> SlotFits(s.pcs[t], s.slots))
    && (forall t, u :: 0 <= t < u < |s.pcs| && Owns(s.pcs[t]).Some? ==> Owns(s.pcs[t]) != Owns(s.pcs[u]))
    && SlotsRight(s.slots)
    && (forall fd: Fd :: s.slots[fd].status == Initing || s.slots[fd].status == Closing ==> Owned(s.pcs, fd))
  }

  ghost predicate Safe(s: State) {
    LocksAgree(s) && SlotsAgree(s)
  }

  /** A step of t moves no other task. */
  lemma StepPcs(s: State, t: nat, a: Action)
    requires t < |s.pcs| && Next(s, t, a).Some?
    ensures var n := Next(s, t, a).value; |n.pcs| == |s.pcs| && n.pcs == s.pcs[t := n.pcs[t]]
  {
    assert s.pcs == s.pcs[t := s.pcs[t]];
  }

  /** fs_mutex after t moved: t has it exactly when t's new place says so. */
  predicate FsMutexMoved(s: State, n: State, t: nat)
    requires t < |s.pcs| == |n.pcs|
  {
    var p, q := s.pcs[t], n.pcs[t];
    && n.fs == (if HoldsFs(q) then Some(t) else if HoldsFs(p) then None else s.fs)
    && (HoldsFs(q) && !HoldsFs(p) ==> s.fs == None)
  }

  /** The mount points' mutexes after t moved: exactly the one t's new place says is given or taken. */
  predicate MountMutexMoved(s: State, n: State, t: nat)
    requires t < |s.pcs| == |n.pcs|
  {
    var p, q := HoldsMount(s.pcs[t]), HoldsMount(n.pcs[t]);
    && (q == p ==> n.held == s.held)
    && (q.None? && p.Some? ==> n.held == s.held - {p.value})
    && (q.Some? && p != q ==> p.None? && q.value !in s.held && n.held == s.held[q.value := t])
  }

  lemma ContinueFsMutex(s: State, t: nat)
    requires t < |s.pcs| && SlotsRight(s.slots) && SlotFits(s.pcs[t], s.slots) && Continue(s, t).Some?
    requires HoldsFs(s.pcs[t]) ==> s.fs == Some(t)
    ensures FsMutexMoved(s, Continue(s, t).value, t)
  {
  }

  lemma ContinueMountMutex(s: State, t: nat)
    requires t < |s.pcs| && SlotsRight(s.slots) && SlotFits(s.pcs[t], s.slots) && Continue(s, t).Some?
    ensures MountMutexMoved(s, Continue(s, t).value, t)
  {
  }

  lemma StepFsMutex(s: State, t: nat, a: Action)
    requires t < |s.pcs| && SlotsRight(s.slots) && SlotFits(s.pcs[t], s.slots) && Next(s, t, a).Some?
    requires HoldsFs(s.pcs[t]) ==> s.fs == Some(t)
    ensures FsMutexMoved(s, Next(s, t, a).value, t)
  {
    hide Continue;
    if a == Proceed {
      ContinueFsMutex(s, t);
    }
  }

  lemma StepMountMutex(s: State, t: nat, a: Action)
    requires t < |s.pcs| && SlotsRight(s.slots) && SlotFits(s.pcs[t], s.slots) && Next(s, t, a).Some?
    ensures MountMutexMoved(s, Next(s, t, a).value, t)
  {
    hide Continue;
    if a == Proceed {
      ContinueMountMutex(s, t);
    }
  }

  /** When one task has moved and the mutexes with it, they still agree. */
  lemma LocksFollow(s: State, n: State, t: nat)
    requires LocksAgree(s) && t < |s.pcs| == |n.pcs| && n.pcs == s.pcs[t := n.pcs[t]]
    requires FsMutexMoved(s, n, t) && MountMutexMoved(s, n, t)
    ensures LocksAgree(n)
  {
    hide HoldsFs, HoldsMount;
    forall m | m in n.held ensures n.held[m] < |n.pcs| {
      assert m in s.held || n.held[m] == t;
    }
    forall u, m | 0 <= u < |n.pcs| ensures HoldsMount(n.pcs[u]) == Some(m) <==> m in n.held && n.held[m] == u {
      assert HoldsMount(s.pcs[u]) == Some(m) <==> m in s.held && s.held[m] == u;
      assert HoldsMount(s.pcs[t]) == Some(m) <==> m in s.held && s.held[m] == t;
    }
  }

  lemma StepKeepsLocks(s: State, t: nat, a: Action)
    requires t < |s.pcs| && Safe(s) && Next(s, t, a).Some?
    ensures LocksAgree(Next(s, t, a).value)
  {
    hide Next, SlotFits, HoldsFs, HoldsMount, SlotsRight, FsMutexMoved, MountMutexMoved;
    StepPcs(s, t, a);
    StepFsMutex(s, t, a);
    StepMountMutex(s, t, a);
    LocksFollow(s, Next(s, t, a).value, t);
  }

  function Depends(pc: Pc): Option<Fd> {
    if Owns(pc).Some? then Owns(pc)
    else if pc.AttachPend? || pc.AttachBoth? || pc.Attached? then Some(pc.fd)
    else None
  }

  predicate SameUse(a: Slot, b: Slot) {
    a.status == b.status && a.mp == b.mp
  }

  lemma FitsAlike(pc: Pc, a: Slots, b: Slots)
    requires SlotFits(pc, a) && (Depends(pc).Some? ==> SameUse(a[Depends(pc).value], b[Depends(pc).value]))
    requires Owns(pc).Some? ==> b[Owns(pc).value] == a[Owns(pc).value]
    ensures SlotFits(pc, b)
  {
  }

  /** The descriptor a step writes. */
  function Writes(pc: Pc, a: Action): Option<Fd> {
    match a
    case TakeSlot(fd) => Some(fd)
    case Operate(_) => if pc.Attached? then Some(pc.fd) else None
    case DriverFails => if pc.OpenDriver? then Some(pc.fd) else None
    case Proceed =>
      if pc.OpenFill? || pc.OpenDriver? || pc.OpenUndo? || pc.Putting? || pc.Cleared? || (pc.AttachBoth? && pc.closing)
      then Some(pc.fd) else None
    case _ => None
  }

  lemma StepWrites(s: State, t: nat, a: Action, fd: Fd)
    requires t < |s.pcs| && Next(s, t, a).Some? && Writes(s.pcs[t], a) != Some(fd)
    ensures Next(s, t, a).value.slots[fd] == s.slots[fd]
  {
  }

  /**
   * A step writes a descriptor that is free, its own, or on a mount point whose mutex it holds; in the last case
   * without fs_mutex it changes the offset only.
   */
  lemma WritesOwn(s: State, t: nat, a: Action, fd: Fd)
    requires t < |s.pcs| && SlotFits(s.pcs[t], s.slots) && Next(s, t, a).Some? && Writes(s.pcs[t], a) == Some(fd)
    ensures s.slots[fd].status != NotUsed && Owns(s.pcs[t]) != Some(fd) ==>
      && s.slots[fd].mp.Some? && HoldsMount(s.pcs[t]) == s.slots[fd].mp && s.slots[fd].status == Ready
      && (HoldsFs(s.pcs[t]) || SameUse(s.slots[fd], Next(s, t, a).value.slots[fd]))
  {
  }

  /** No other task relies on what a step writes. */
  lemma OthersFit(s: State, t: nat, a: Action, u: nat)
    requires t < |s.pcs| && u < |s.pcs| && t != u && Safe(s) && Next(s, t, a).Some?
    ensures SlotFits(s.pcs[u], Next(s, t, a).value.slots)
  {
    hide Next, Writes, SlotsRight;
    var n := Next(s, t, a).value;
    var d := Depends(s.pcs[u]);
    assert SlotFits(s.pcs[t], s.slots) && SlotFits(s.pcs[u], s.slots);
    if d.Some? {
      if Writes(s.pcs[t], a) != d {
        StepWrites(s, t, a, d.value);
      } else {
        WritesOwn(s, t, a, d.value);
        if Owns(s.pcs[t]) == d {
          OwnsTaken(s.pcs[t], s.slots);
        }
      }
    }
    FitsAlike(s.pcs[u], s.slots, n.slots);
  }

  lemma ContinueFits(s: State, t: nat)
    requires t < |s.pcs| && SlotFits(s.pcs[t], s.slots) && SlotsRight(s.slots) && Continue(s, t).Some?
    ensures SlotFits(Continue(s, t).value.pcs[t], Continue(s, t).value.slots)
  {
  }

  lemma StepFits(s: State, t: nat, a: Action)
    requires t < |s.pcs| && SlotFits(s.pcs[t], s.slots) && SlotsRight(s.slots) && Next(s, t, a).Some?
    ensures SlotFits(Next(s, t, a).value.pcs[t], Next(s, t, a).value.slots)
  {
    hide Continue;
    if a == Proceed {
      ContinueFits(s, t);
    }
  }

  lemma StepMounts(s: State, t: nat, a: Action)
    requires t < |s.pcs| && SlotFits(s.pcs[t], s.slots) && SlotsRight(s.slots) && Next(s, t, a).Some?
    ensures SlotsRight(Next(s, t, a).value.slots)
  {
    hide SlotsRight;
    var n := Next(s, t, a).value;
    if Writes(s.pcs[t], a).Some? {
      OneSlotRight(s.slots, n.slots, Writes(s.pcs[t], a).value);
    }
  }

  lemma OneSlotRight(a: Slots, b: Slots, fd: Fd)
    requires SlotsRight(a) && forall i: Fd :: i != fd ==> b[i] == a[i]
    requires b[fd].status == Ready ==> b[fd].mp.Some? || (b[fd].mp == a[fd].mp && a[fd].status == Ready)
    requires b[fd].status == NotUsed ==> b[fd] == FREE
    ensures SlotsRight(b)
  {
  }

  /** A step takes over no descriptor another task owns, and leaves none of its own half open. */
  lemma StepOwns(s: State, t: nat, a: Action)
    requires t < |s.pcs| && SlotFits(s.pcs[t], s.slots) && Next(s, t, a).Some?
    ensures OwnerMoved(s, Next(s, t, a).value, t)
  {
    hide Continue;
    if a == Proceed {
      ContinueOwns(s, t);
    }
  }

  predicate OwnerMoved(s: State, n: State, t: nat)
    requires t < |s.pcs| == |n.pcs|
  {
    var p, q := Owns(s.pcs[t]), Owns(n.pcs[t]);
    && (q.Some? && q != p ==> p.None? && (s.slots[q.value].status == NotUsed || s.slots[q.value].status == Ready))
    && (p.Some? && q != p ==> n.slots[p.value].status == NotUsed || n.slots[p.value].status == Ready)
  }

  lemma ContinueOwns(s: State, t: nat)
    requires t < |s.pcs| && SlotFits(s.pcs[t], s.slots) && Continue(s, t).Some?
    ensures OwnerMoved(s, Continue(s, t).value, t)
  {
  }

  /** A step changes the status only of a descriptor it owns before or after. */
  lemma StepStatus(s: State, t: nat, a: Action)
    requires t < |s.pcs| && SlotFits(s.pcs[t], s.slots) && Next(s, t, a).Some?
    ensures var n := Next(s, t, a).value; var p, q := Owns(s.pcs[t]), Owns(n.pcs[t]);
      forall fd: Fd :: n.slots[fd].status != s.slots[fd].status ==> p == Some(fd) || q == Some(fd)
  {
  }

  lemma StepKeepsSlots(s: State, t: nat, a: Action)
    requires t < |s.pcs| && Safe(s) && Next(s, t, a).Some?
    ensures SlotsAgree(Next(s, t, a).value)
  {
    hide Next, LocksAgree, Owns, SlotFits, SlotsRight;
    StepPcs(s, t, a);
    StepFits(s, t, a);
    StepMounts(s, t, a);
    StepOwns(s, t, a);
    StepStatus(s, t, a);
    var n := Next(s, t, a).value;
    forall u | 0 <= u < |s.pcs| ensures SlotFits(n.pcs[u], n.slots) {
      if u != t {
        OthersFit(s, t, a, u);
      }
    }
    forall u, v | 0 <= u < v < |s.pcs| && Owns(n.pcs[u]).Some? ensures Owns(n.pcs[u]) != Owns(n.pcs[v]) {
      if Owns(s.pcs[u]).Some? {
        OwnsTaken(s.pcs[u], s.slots);
      }
      if Owns(s.pcs[v]).Some? {
        OwnsTaken(s.pcs[v], s.slots);
      }
    }
    forall fd: Fd | n.slots[fd].status == Initing || n.slots[fd].status == Closing ensures Owned(n.pcs, fd) {
      if Owns(n.pcs[t]) != Some(fd) {
        assert Owned(s.pcs, fd);
        var u :| 0 <= u < |s.pcs| && Owns(s.pcs[u]) == Some(fd);
        assert Owns(n.pcs[u]) == Some(fd);
      }
    }
  }

  lemma OwnsTaken(pc: Pc, slots: Slots)
    requires SlotFits(pc, slots) && Owns(pc).Some?
    ensures slots[Owns(pc).value].status == Initing || slots[Owns(pc).value].status == Closing
  {
  }

  // --- whole runs ---

  /** The state after a run of steps, each by the task named; None when some step could not be taken. */
  function After(s: State, run: seq<(nat, Action)>): Option<State>
    decreases run
  {
    if run == [] then Some(s)
    else if run[0].0 >= |s.pcs| || Next(s, run[0].0, run[0].1) == None then None
    else After(Next(s, run[0].0, run[0].1).value, run[1..])
  }

  lemma {:induction false} RunKeepsSafe(s: State, run: seq<(nat, Action)>)
    requires Safe(s) && After(s, run).Some?
    ensures Safe(After(s, run).value) && |After(s, run).value.pcs| == |s.pcs|
    decreases run
  {
    hide Safe, Next;
    if run != [] {
      StepKeepsSafe(s, run[0].0, run[0].1);
      RunKeepsSafe(Next(s, run[0].0, run[0].1).value, run[1..]);
    }
  }

  lemma StepKeepsSafe(s: State, t: nat, a: Action)
    requires t < |s.pcs| && Safe(s) && Next(s, t, a).Some?
    ensures Safe(Next(s, t, a).value) && |Next(s, t, a).value.pcs| == |s.pcs|
  {
    hide Next, LocksAgree, SlotsAgree;
    StepPcs(s, t, a);
    StepKeepsLocks(s, t, a);
    StepKeepsSlots(s, t, a);
  }

  /** The locks agree with the tasks and the descriptors with both in every state of every run. */
  lemma EveryRunSafe(tasks: nat, run: seq<(nat, Action)>)
    requires After(Init(tasks), run).Some?
    ensures Safe(After(Init(tasks), run).value)
  {
    RunKeepsSafe(Init(tasks), run);
  }

  /** Inside a driver call on a mount: a descriptor call, an open, or a directory call. */
  predicate Inside(pc: Pc, m: nat) {
    (pc.Attached? || pc.OpenFill? || pc.OpenDriver? || pc.OpenUndo? || pc.InMount?) && pc.m == m
  }

  lemma OneInsideEachMount(s: State, t: nat, u: nat, m: nat)
    requires Safe(s) && t < |s.pcs| && u < |s.pcs|
    ensures Inside(s.pcs[t], m) && Inside(s.pcs[u], m) ==> t == u
  {
    if Inside(s.pcs[t], m) && Inside(s.pcs[u], m) {
      assert HoldsMount(s.pcs[t]) == Some(m) && HoldsMount(s.pcs[u]) == Some(m);
    }
  }

  lemma StepLeavesAttached(s: State, t: nat, a: Action, u: nat)
    requires Safe(s) && t < |s.pcs| && u < |s.pcs| && t != u && s.pcs[u].Attached? && Next(s, t, a).Some?
    ensures var n := Next(s, t, a).value;
      n.pcs[u] == s.pcs[u] && n.slots[s.pcs[u].fd] == s.slots[s.pcs[u].fd]
  {
    hide Next, Writes, SlotsRight;
    var fd := s.pcs[u].fd;
    StepPcs(s, t, a);
    assert SlotFits(s.pcs[t], s.slots) && SlotFits(s.pcs[u], s.slots);
    assert HoldsMount(s.pcs[u]) == s.slots[fd].mp;
    if Writes(s.pcs[t], a) == Some(fd) {
      WritesOwn(s, t, a, fd);
      if Owns(s.pcs[t]) == Some(fd) {
        OwnsTaken(s.pcs[t], s.slots);
      }
      assert false;
    } else {
      StepWrites(s, t, a, fd);
    }
  }

  /** While a task is attached, whatever the others do, its descriptor keeps every field. */
  lemma {:induction false} AttachedUndisturbed(s: State, run: seq<(nat, Action)>, u: nat)
    requires Safe(s) && u < |s.pcs| && s.pcs[u].Attached? && After(s, run).Some?
    requires forall i :: 0 <= i < |run| ==> run[i].0 != u
    ensures var n := After(s, run).value; var fd := s.pcs[u].fd;
      && |n.pcs| == |s.pcs| && n.pcs[u] == s.pcs[u]
      && n.slots[fd] == s.slots[fd] && n.slots[fd].mp == Some(s.pcs[u].m)
      && n.slots[fd].status == (if s.pcs[u].closing then Closing else Ready)
    decreases run
  {
    hide Next, LocksAgree;
    assert SlotFits(s.pcs[u], s.slots);
    if run != [] {
      StepLeavesAttached(s, run[0].0, run[0].1, u);
      StepKeepsSafe(s, run[0].0, run[0].1);
      AttachedUndisturbed(Next(s, run[0].0, run[0].1).value, run[1..], u);
    }
  }

  /** Attached, or past the status check and pending for the mount point's mutex. */
  predicate Uses(pc: Pc, fd: Fd) {
    (pc.AttachPend? || pc.AttachBoth? || pc.Attached?) && pc.fd == fd
  }

  ghost predicate OnlyUser(pcs: seq<Pc>, fd: Fd, c: nat)
    requires c < |pcs|
  {
    Owns(pcs[c]) == Some(fd) && forall u :: 0 <= u < |pcs| && Uses(pcs[u], fd) ==> u == c
  }

  /** Once a descriptor is closing, only its closer is attached, and the next status it has is NotUsed. */
  lemma ClosingAdmitsNobody(s: State, t: nat, a: Action, fd: Fd)
    requires Safe(s) && s.slots[fd].status == Closing && t < |s.pcs| && Next(s, t, a).Some?
    ensures exists c :: 0 <= c < |s.pcs| && OnlyUser(s.pcs, fd, c)
    ensures Next(s, t, a).value.slots[fd].status in {Closing, NotUsed}
  {
    hide Next, Writes;
    assert Owned(s.pcs, fd);
    var c :| 0 <= c < |s.pcs| && Owns(s.pcs[c]) == Some(fd);
    forall u | 0 <= u < |s.pcs| && Uses(s.pcs[u], fd) ensures u == c {
      assert SlotFits(s.pcs[u], s.slots);
      assert Owns(s.pcs[u]) == Some(fd);
    }
    assert OnlyUser(s.pcs, fd, c);
    if Writes(s.pcs[t], a) == Some(fd) {
      ClosingWritten(s, t, a, fd);
    } else {
      StepWrites(s, t, a, fd);
    }
  }

  lemma ClosingWritten(s: State, t: nat, a: Action, fd: Fd)
    requires t < |s.pcs| && SlotFits(s.pcs[t], s.slots) && Next(s, t, a).Some?
    requires Writes(s.pcs[t], a) == Some(fd) && s.slots[fd].status == Closing
    ensures Next(s, t, a).value.slots[fd].status in {Closing, NotUsed}
  {
  }

  lemma MutexHolder(s: State, m: nat)
    requires LocksAgree(s) && m in s.held
    ensures s.held[m] < |s.pcs| && HoldsMount(s.pcs[s.held[m]]) == Some(m)
  {
  }

  /** With every task idle no mutex is held, and every descriptor is free or open. */
  lemma NothingLeftBehind(s: State)
    requires Safe(s) && forall t :: 0 <= t < |s.pcs| ==> s.pcs[t] == Idle
    ensures s.fs == None && s.held == map[]
    ensures forall fd: Fd :: s.slots[fd] == FREE || (s.slots[fd].status == Ready && s.slots[fd].mp.Some?)
  {
    if s.fs.Some? {
      assert false;
    }
    forall m | m in s.held ensures false {
      MutexHolder(s, m);
    }
    forall fd: Fd ensures s.slots[fd] == FREE || (s.slots[fd].status == Ready && s.slots[fd].mp.Some?) {
      assert !Owned(s.pcs, fd);
    }
  }

  /** What an open leaves when the driver is done: the descriptor is ready on the mount point found, at offset 0. */
  lemma OpensFresh(s: State, t: nat, fd: Fd, m: nat)
    requires Safe(s) && t < |s.pcs| && s.pcs[t] == OpenDriver(fd, m)
    ensures var n := Next(s, t, Proceed);
      n.Some? && n.value.slots[fd] == Slot(Ready, Some(m), 0) && n.value.pcs[t] == InMount(m)
  {
    assert SlotFits(s.pcs[t], s.slots);
  }

  // --- no deadlock ---

  /** Task t is pending on a mutex that task u holds. */
  predicate WaitsOn(s: State, t: nat, u: nat)
    requires t < |s.pcs|
  {
    WaitsFor(s.pcs[t]).Some? && Holder(s, WaitsFor(s.pcs[t]).value) == Some(u)
  }

  /** fs_mutex before m_mutex: whoever holds a mount point's mutex pends on nothing. */
  lemma MountHolderRuns(s: State, t: nat, u: nat, m: nat)
    requires Safe(s) && t < |s.pcs| && WaitsFor(s.pcs[t]) == Some(MountLock(m)) && WaitsOn(s, t, u)
    ensures u < |s.pcs| && WaitsFor(s.pcs[u]) == None && s.pcs[u] != Idle
  {
    assert HoldsMount(s.pcs[u]) == Some(m);
  }

  function After1(i: nat, n: nat): nat {
    if i + 1 < n then i + 1 else 0
  }

  /** Tasks in a ring, each pending on a mutex the next one holds. */
  ghost predicate WaitCycle(s: State, ring: seq<nat>) {
    && ring != []
    && (forall i :: 0 <= i < |ring| ==> ring[i] < |s.pcs|)
    && (forall i, j :: 0 <= i < |ring| && 0 <= j < |ring| && j == After1(i, |ring|) ==> WaitsOn(s, ring[i], ring[j]))
  }

  lemma NoWaitCycle(s: State, ring: seq<nat>)
    requires Safe(s)
    ensures !WaitCycle(s, ring)
  {
    if WaitCycle(s, ring) {
      var i := After1(0, |ring|);
      var j := After1(i, |ring|);
      var t, u, v := ring[0], ring[i], ring[j];
      assert WaitsOn(s, t, u) && WaitsOn(s, u, v) && WaitsOn(s, v, ring[After1(j, |ring|)]);
      if WaitsFor(s.pcs[t]).value == FsLock {
        assert HoldsFs(s.pcs[u]);
        MountHolderRuns(s, u, v, WaitsFor(s.pcs[u]).value.m);
        assert false;
      } else {
        MountHolderRuns(s, t, u, WaitsFor(s.pcs[t]).value.m);
        assert false;
      }
    }
  }

  /** A task can go on without a new call and without an error from the kernel. */
  predicate CanStep(s: State, t: nat)
    requires t < |s.pcs|
  {
    s.pcs[t] != Idle
    && (Next(s, t, Acquire).Some? || Next(s, t, Proceed).Some?
        || Next(s, t, NoSlot).Some? || Next(s, t, NotFound).Some?)
  }

  lemma FreeOfLocks(s: State, t: nat)
    requires Safe(s) && t < |s.pcs| && s.pcs[t] != Idle
    requires WaitsFor(s.pcs[t]).Some? ==> Holder(s, WaitsFor(s.pcs[t]).value) == None
    ensures CanStep(s, t)
  {
    assert SlotFits(s.pcs[t], s.slots);
  }

  /** As long as some call is under way, some call under way can take a step. */
  lemma Progress(s: State, t: nat)
    requires Safe(s) && t < |s.pcs| && s.pcs[t] != Idle
    ensures exists u :: 0 <= u < |s.pcs| && CanStep(s, u)
  {
    hide Next, CanStep;
    var lock := WaitsFor(s.pcs[t]);
    if lock.None? || Holder(s, lock.value) == None {
      FreeOfLocks(s, t);
    } else {
      var u := Holder(s, lock.value).value;
      if lock.value.MountLock? {
        MountHolderRuns(s, t, u, lock.value.m);
        FreeOfLocks(s, u);
      } else {
        assert HoldsFs(s.pcs[u]);
        var next := WaitsFor(s.pcs[u]);
        if next.None? || Holder(s, next.value) == None {
          FreeOfLocks(s, u);
        } else {
          var v := Holder(s, next.value).value;
          MountHolderRuns(s, u, v, next.value.m);
          FreeOfLocks(s, v);
        }
      }
    }
  }

  // --- what the protocol does not exclude ---

  ghost predicate Reaches(s: State, n: State) {
    exists run :: After(s, run) == Some(n)
  }

  lemma {:induction false} RunExtends(s: State, run: seq<(nat, Action)>, t: nat, a: Action)
    requires After(s, run).Some? && t < |After(s, run).value.pcs|
    ensures After(s, run + [(t, a)]) == Next(After(s, run).value, t, a)
    decreases run
  {
    var longer := run + [(t, a)];
    if run == [] {
      assert longer[1..] == [];
    } else {
      assert longer[1..] == run[1..] + [(t, a)];
      RunExtends(Next(s, run[0].0, run[0].1).value, run[1..], t, a);
    }
  }

  predicate Same(a: State, b: State) {
    a.fs == b.fs && a.held == b.held && a.slots == b.slots && a.pcs == b.pcs
  }

  lemma Go(n: State, t: nat, a: Action, next: State)
    requires Reaches(Init(2), n) && t < |n.pcs| && Next(n, t, a).Some? && Same(Next(n, t, a).value, next)
    ensures Reaches(Init(2), next)
  {
    hide Next;
    assert Next(n, t, a).value == next;
    var run :| After(Init(2), run) == Some(n);
    RunExtends(Init(2), run, t, a);
    assert After(Init(2), run + [(t, a)]) == Next(n, t, a);
  }

  /** Two tasks, and nothing open but what is in the first descriptor. */
  function Two(fs: Option<nat>, held: map<nat, nat>, slot: Slot, first: Pc, second: Pc): State {
    State(fs, held, Init(2).slots[0 := slot], [first, second])
  }

  /** Task 0 has both mutexes to open a file on mount m. */
  lemma FileOpening(m: nat)
    ensures Reaches(Init(2), Two(Some(0), map[m := 0], Slot(Initing, None, 0), OpenBoth(0, m), Idle))
  {
    hide Reaches;
    var init := Slot(Initing, None, 0);
    var s0, s1 := Two(None, map[], FREE, Idle, Idle), Two(None, map[], FREE, OpenWait, Idle);
    var s2, s3 := Two(Some(0), map[], FREE, OpenLocked, Idle), Two(Some(0), map[], init, OpenSlot(0), Idle);
    var s4 := Two(Some(0), map[], init, OpenPend(0, m), Idle);
    Reached(Init(2));
    assert Same(s0, Init(2));
    Go(s0, 0, CallOpen, s1);
    Go(s1, 0, Acquire, s2);
    Go(s2, 0, TakeSlot(0), s3);
    Go(s3, 0, Find(m), s4);
    Go(s4, 0, Acquire, Two(Some(0), map[m := 0], init, OpenBoth(0, m), Idle));
  }

  /** Task 0 has opened the file. */
  lemma FileOpened(m: nat)
    ensures Reaches(Init(2), Two(None, map[], Slot(Ready, Some(m), 0), Idle, Idle))
  {
    hide Reaches;
    var init, open := Slot(Initing, None, 0), Slot(Ready, Some(m), 0);
    var s5 := Two(Some(0), map[m := 0], init, OpenBoth(0, m), Idle);
    var s6 := Two(None, map[m := 0], init, OpenFill(0, m), Idle);
    var s7 := Two(None, map[m := 0], Slot(Initing, Some(m), 0), OpenDriver(0, m), Idle);
    var s8 := Two(None, map[m := 0], open, InMount(m), Idle);
    FileOpening(m);
    Go(s5, 0, Proceed, s6);
    Go(s6, 0, Proceed, s7);
    Go(s7, 0, Proceed, s8);
    Go(s8, 0, Proceed, Two(None, map[], open, Idle, Idle));
  }

  /** Then it is attached to the file. */
  lemma FileAttached(m: nat)
    ensures Reaches(Init(2), Two(None, map[m := 0], Slot(Ready, Some(m), 0), Attached(0, m, false), Idle))
  {
    hide Reaches;
    var open := Slot(Ready, Some(m), 0);
    var s0, s1 := Two(None, map[], open, Idle, Idle), Two(None, map[], open, AttachWait(0, false), Idle);
    var s2 := Two(Some(0), map[], open, AttachCheck(0, false), Idle);
    var s3 := Two(Some(0), map[], open, AttachPend(0, m, false), Idle);
    var s4 := Two(Some(0), map[m := 0], open, AttachBoth(0, m, false), Idle);
    FileOpened(m);
    Go(s0, 0, CallAttach(0, false), s1);
    Go(s1, 0, Acquire, s2);
    Go(s2, 0, Proceed, s3);
    Go(s3, 0, Acquire, s4);
    Go(s4, 0, Proceed, Two(None, map[m := 0], open, Attached(0, m, false), Idle));
  }

  /** Someone other than t is inside a driver call on m. */
  ghost predicate Occupied(pcs: seq<Pc>, t: nat, m: nat) {
    exists u :: 0 <= u < |pcs| && u != t && Inside(pcs[u], m)
  }

  /** While t holds fs_mutex and no mount point's, the holder of a mutex is inside that mount point. */
  lemma HeldMeansOccupied(s: State, t: nat, m: nat)
    requires LocksAgree(s) && t < |s.pcs| && HoldsFs(s.pcs[t]) && HoldsMount(s.pcs[t]) == None
    ensures Occupied(s.pcs, t, m) <==> m in s.held
  {
    if m in s.held {
      MutexHolder(s, m);
      var u := s.held[m];
      assert !HoldsFs(s.pcs[u]) && HoldsMount(s.pcs[u]) == Some(m);
    }
    if Occupied(s.pcs, t, m) {
      var u :| 0 <= u < |s.pcs| && u != t && Inside(s.pcs[u], m);
      assert HoldsMount(s.pcs[u]) == Some(m);
    }
  }

  /**
   * los_stat, los_unlink and los_rename take fs_mutex only. One that has found its mount point enters the
   * driver there beside another call exactly when the mutex it does not take is held.
   */
  lemma PathCallMeetsExactly(s: State, t: nat, m: nat)
    requires Safe(s) && t < |s.pcs| && s.pcs[t] == PathLocked
    ensures var n := Next(s, t, Find(m));
      && n.Some? && |n.value.pcs| == |s.pcs| && n.value.pcs[t] == InPath(m)
      && (Occupied(n.value.pcs, t, m) <==> m in s.held)
  {
    var n := Next(s, t, Find(m)).value;
    StepKeepsSafe(s, t, Find(m));
    HeldMeansOccupied(n, t, m);
  }

  /** The same at every later moment of the call. */
  lemma PathCallBesideExactly(s: State, t: nat, m: nat)
    requires Safe(s) && t < |s.pcs| && s.pcs[t] == InPath(m)
    ensures Occupied(s.pcs, t, m) <==> m in s.held
  {
    HeldMeansOccupied(s, t, m);
  }

  /** Only a call on a directory handle can come into the mount point while a path call is there. */
  lemma OnlyHandlesJoin(s: State, t: nat, m: nat, u: nat, a: Action)
    requires Safe(s) && t < |s.pcs| && u < |s.pcs| && s.pcs[t] == InPath(m) && Next(s, u, a).Some?
    ensures |Next(s, u, a).value.pcs| == |s.pcs|
    ensures Inside(Next(s, u, a).value.pcs[u], m) && !Inside(s.pcs[u], m) <==>
      s.pcs[u] == HandleWait(m) && a == Acquire && m !in s.held
  {
    assert SlotFits(s.pcs[u], s.slots);
    assert HoldsFs(s.pcs[u]) ==> u == t;
  }

  /** Two path calls are never in a driver together, on whatever mount points. */
  lemma OnePathCall(s: State, t: nat, u: nat, l: nat, m: nat)
    requires Safe(s) && t < |s.pcs| && u < |s.pcs| && s.pcs[t] == InPath(l) && s.pcs[u] == InPath(m)
    ensures t == u
  {
    assert HoldsFs(s.pcs[t]) && HoldsFs(s.pcs[u]);
  }

  /** The meeting does come about: an unlink inside a mount point while another task is attached there. */
  lemma UnlinkMeetsAttached(m: nat)
    ensures exists n ::
      Reaches(Init(2), n) && |n.pcs| == 2 && n.pcs[0] == Attached(0, m, false) && n.pcs[1] == InPath(m)
  {
    hide Reaches;
    var open, first := Slot(Ready, Some(m), 0), Attached(0, m, false);
    var s1, s2 := Two(None, map[m := 0], open, first, PathWait), Two(Some(1), map[m := 0], open, first, PathLocked);
    FileAttached(m);
    Go(Two(None, map[m := 0], open, first, Idle), 1, CallPath, s1);
    Go(s1, 1, Acquire, s2);
    Go(s2, 1, Find(m), Two(Some(1), map[m := 0], open, first, InPath(m)));
  }

  lemma Reached(s: State)
    ensures Reaches(s, s)
  {
    assert After(s, []) == Some(s);
  }
}
