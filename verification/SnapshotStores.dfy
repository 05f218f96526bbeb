/** Ownership of the per-process snapshot stores below one parent directory: owner files, file locks, and a reaper,
    run by any number of processes that may stop at any step (src/external.rs, lines 345-428, 459-504 and 594-653). */
module SnapshotStores {
  import opened Wrappers

  type Pid = nat
  type Token = string

  /** A file as an open handle sees it: its name may be removed and made again, as another file. */
  type Inode = nat

  /** What a live process owns: its token and the locked owner file. */
  datatype Store = Store(token: Token, owner: Inode)

  /** Where a process stands. Everything but `Idle` is inside the parent lock. */
  datatype Phase =
    | Idle
    | Entered
    // reaping: `open`, `try_lock`, `remove_dir_all`, `drop`, `remove_file`
    | Reaping
    | ReapOpened(token: Token, file: Inode)
    | ReapLocked(token: Token, file: Inode)
    | ReapEmptied(token: Token, file: Inode)
    | ReapDropped(token: Token)
    // creating: `open(create_new)`, `lock`, `create_dir`, or `drop` and `remove_file`
    | Creating(attempts: nat)
    | OwnerMade(token: Token, file: Inode, attempts: nat)
    | OwnerLocked(token: Token, file: Inode, attempts: nat)
    | Undoing(token: Token, attempts: nat, again: bool)

  /** The parent directory and the processes. A root's contents are the names below it. */
  datatype World = World(
    parentLock: Option<Pid>,
    owners: map<Token, Inode>,
    roots: map<Token, set<string>>,
    locks: map<Inode, Pid>,
    nextInode: Inode,
    phases: map<Pid, Phase>,
    stores: map<Pid, set<Store>>)

  function PhaseOf(w: World, p: Pid): Phase {
    if p in w.phases then w.phases[p] else Idle
  }

  function StoresOf(w: World, p: Pid): set<Store> {
    if p in w.stores then w.stores[p] else {}
  }

  ghost predicate Live(w: World, p: Pid, s: Store) {
    s in StoresOf(w, p)
  }

  predicate Unlocked(w: World, file: Inode) {
    file !in w.locks
  }

  function Moved(w: World, p: Pid, phase: Phase): World {
    w.(phases := w.phases[p := phase])
  }

  function Unlock(w: World, file: Inode): World {
    w.(locks := w.locks - {file})
  }

  /** Leaving: the parent lock goes with its handle. */
  function Left(w: World, p: Pid): World {
    Moved(w, p, Idle).(parentLock := None)
  }

  /* ---------- steps ---------- */

  datatype Step =
    | Acquire | Release
    | StartReap | ReapDone
    | ReapOpen(token: Token) | ReapMissing(token: Token) | ReapTryLock | ReapBusy
    | ReapRemovePart(gone: set<string>) | ReapRemoveRoot | ReapDrop | ReapRemoveOwner
    | StartCreate(tries: nat) | CreateOwner(token: Token) | CreateTaken(token: Token) | LockOwner | LockFails
    | MakeRoot | RootTaken | RootFails | UndoOwner | UndoFails | GiveUp
    | Fail
    | Write(token: Token, name: string) | Discard(token: Token, name: string)
    | Stop

  /** The lock a process holds through the handle of its current phase. */
  function PhaseLock(phase: Phase): Option<Inode> {
    match phase
    case ReapLocked(_, file) => Some(file)
    case ReapEmptied(_, file) => Some(file)
    case OwnerLocked(_, file, _) => Some(file)
    case _ => None
  }

  /** Returning with an error from anywhere: open handles, and with them their locks, go; then the parent lock. */
  function Failed(w: World, p: Pid): World {
    var lock := PhaseLock(PhaseOf(w, p));
    Left(if lock.Some? then Unlock(w, lock.value) else w, p)
  }

  /** The process ends, however: every lock it holds goes, and so do its stores. */
  function Stopped(w: World, p: Pid): World {
    World(
      if w.parentLock == Some(p) then None else w.parentLock,
      w.owners, w.roots,
      map f | f in w.locks && w.locks[f] != p :: w.locks[f],
      w.nextInode,
      w.phases[p := Idle],
      w.stores[p := {}])
  }

  /** Where a failing call returns its error at once; elsewhere the owner file is removed first. */
  predicate MayFail(phase: Phase) {
    phase.Entered? || phase.Reaping? || phase.ReapOpened? || phase.ReapLocked? || phase.ReapDropped? || phase.Creating?
  }

  /** After the owner file was removed, or could not be: another attempt, or the error. */
  function Undone(w: World, p: Pid, attempts: nat, again: bool): World {
    if again then Moved(w, p, Creating(attempts)) else Left(w, p)
  }

  predicate Enabled(w: World, p: Pid, step: Step) {
    match step
    case Acquire => PhaseOf(w, p) == Idle && w.parentLock.None?
    case Release => PhaseOf(w, p) == Entered
    case StartReap => PhaseOf(w, p) == Entered
    case ReapDone => PhaseOf(w, p) == Reaping
    case ReapOpen(token) => PhaseOf(w, p) == Reaping && token in w.owners
    case ReapMissing(token) => PhaseOf(w, p) == Reaping && token !in w.owners
    case ReapTryLock => PhaseOf(w, p).ReapOpened? && Unlocked(w, PhaseOf(w, p).file)
    case ReapBusy => PhaseOf(w, p).ReapOpened? && !Unlocked(w, PhaseOf(w, p).file)
    case ReapRemovePart(_) => PhaseOf(w, p).ReapLocked?
    case ReapRemoveRoot => PhaseOf(w, p).ReapLocked?
    case ReapDrop => PhaseOf(w, p).ReapEmptied?
    case ReapRemoveOwner => PhaseOf(w, p).ReapDropped?
    case StartCreate(_) => PhaseOf(w, p) == Entered
    case CreateOwner(token) => PhaseOf(w, p).Creating? && PhaseOf(w, p).attempts > 0 && token !in w.owners
    case CreateTaken(token) => PhaseOf(w, p).Creating? && PhaseOf(w, p).attempts > 0 && token in w.owners
    case LockOwner => PhaseOf(w, p).OwnerMade? && Unlocked(w, PhaseOf(w, p).file)
    case LockFails => PhaseOf(w, p).OwnerMade?
    case MakeRoot => PhaseOf(w, p).OwnerLocked? && PhaseOf(w, p).token !in w.roots
    case RootTaken => PhaseOf(w, p).OwnerLocked? && PhaseOf(w, p).token in w.roots
    case RootFails => PhaseOf(w, p).OwnerLocked?
    case UndoOwner => PhaseOf(w, p).Undoing?
    case UndoFails => PhaseOf(w, p).Undoing?
    case GiveUp => PhaseOf(w, p).Creating? && PhaseOf(w, p).attempts == 0
    case Fail => MayFail(PhaseOf(w, p))
    case Write(token, _) => (exists s | s in StoresOf(w, p) :: s.token == token) && token in w.roots
    case Discard(token, _) => (exists s | s in StoresOf(w, p) :: s.token == token) && token in w.roots
    case Stop => true
  }

  function Effect(w: World, p: Pid, step: Step): World
    requires Enabled(w, p, step)
  {
    var phase := PhaseOf(w, p);
    match step
    case Acquire => Moved(w, p, Entered).(parentLock := Some(p))
    case Release => Left(w, p)
    case StartReap => Moved(w, p, Reaping)
    case ReapDone => Moved(w, p, Entered)
    case ReapOpen(token) => Moved(w, p, ReapOpened(token, w.owners[token]))
    case ReapMissing(_) => w
    case ReapTryLock => Moved(w, p, ReapLocked(phase.token, phase.file)).(locks := w.locks[phase.file := p])
    case ReapBusy => Moved(w, p, Reaping)
    case ReapRemovePart(gone) =>
      if phase.token in w.roots then w.(roots := w.roots[phase.token := w.roots[phase.token] - gone]) else w
    case ReapRemoveRoot => Moved(w, p, ReapEmptied(phase.token, phase.file)).(roots := w.roots - {phase.token})
    case ReapDrop => Moved(Unlock(w, phase.file), p, ReapDropped(phase.token))
    case ReapRemoveOwner => Moved(w, p, Reaping).(owners := w.owners - {phase.token})
    case StartCreate(tries) => Moved(w, p, Creating(tries))
    case CreateOwner(token) =>
      Moved(w, p, OwnerMade(token, w.nextInode, phase.attempts - 1)).(owners := w.owners[token := w.nextInode],
          nextInode := w.nextInode + 1)
    case CreateTaken(_) => Moved(w, p, Creating(phase.attempts - 1))
    case LockOwner =>
      Moved(w, p, OwnerLocked(phase.token, phase.file, phase.attempts)).(locks := w.locks[phase.file := p])
    case MakeRoot =>
      Moved(w, p, Entered).(roots := w.roots[phase.token := {}],
                            stores := w.stores[p := StoresOf(w, p) + {Store(phase.token, phase.file)}])
    case LockFails => Moved(w, p, Undoing(phase.token, phase.attempts, false))
    case RootTaken => Moved(Unlock(w, phase.file), p, Undoing(phase.token, phase.attempts, true))
    case RootFails => Moved(Unlock(w, phase.file), p, Undoing(phase.token, phase.attempts, false))
    case UndoOwner => Undone(w.(owners := w.owners - {phase.token}), p, phase.attempts, phase.again)
    case UndoFails => Undone(w, p, phase.attempts, phase.again)
    case GiveUp => Left(w, p)
    case Fail => Failed(w, p)
    case Write(token, name) => w.(roots := w.roots[token := w.roots[token] + {name}])
    case Discard(token, name) => w.(roots := w.roots[token := w.roots[token] - {name}])
    case Stop => Stopped(w, p)
  }

  const START := World(None, map[], map[], map[], 0, map[], map[])

  datatype Event = Event(pid: Pid, step: Step)

  /** A run: any interleaving of the processes' steps. */
  ghost predicate Run(events: seq<Event>, states: seq<World>) {
    && |states| == |events| + 1
    && states[0] == START
    && forall i :: 0 <= i < |events| ==>
         Enabled(states[i], events[i].pid, events[i].step)
         && states[i + 1] == Effect(states[i], events[i].pid, events[i].step)
  }

  /* ---------- the invariant ---------- */

  /** A process's phase agrees with the files. */
  ghost predicate PhaseHolds(w: World, p: Pid) {
    match PhaseOf(w, p)
    case ReapOpened(token, file) => token in w.owners && w.owners[token] == file
    case ReapLocked(token, file) => token in w.owners && w.owners[token] == file && LockedFree(w, p, token, file)
    case ReapEmptied(token, file) =>
      token in w.owners && w.owners[token] == file && LockedFree(w, p, token, file) && token !in w.roots
    case ReapDropped(token) => token !in w.roots && Unowned(w, token)
    case OwnerMade(token, file, _) =>
      token in w.owners && w.owners[token] == file && token !in w.roots && Unowned(w, token)
    case OwnerLocked(token, file, _) =>
      token in w.owners && w.owners[token] == file && LockedFree(w, p, token, file) && token !in w.roots
    case Undoing(token, _, _) => token !in w.roots && Unowned(w, token)
    case _ => true
  }

  ghost predicate Unowned(w: World, token: Token) {
    forall p, s :: Live(w, p, s) ==> s.token != token
  }

  ghost predicate LockedFree(w: World, p: Pid, token: Token, file: Inode) {
    file in w.locks && w.locks[file] == p && Unowned(w, token)
  }

  /** A live store's owner file is in place and locked by its process, and its root exists. */
  ghost predicate Kept(w: World, p: Pid, s: Store) {
    && s.token in w.owners && w.owners[s.token] == s.owner
    && s.owner in w.locks && w.locks[s.owner] == p
    && s.token in w.roots
  }

  ghost predicate Invariant(w: World) {
    && (forall t :: t in w.roots ==> t in w.owners)
    && (forall t :: t in w.owners ==> w.owners[t] < w.nextInode)
    && (forall t, u :: t in w.owners && u in w.owners && w.owners[t] == w.owners[u] ==> t == u)
    && (forall p: Pid :: PhaseOf(w, p) != Idle ==> w.parentLock == Some(p))
    && (forall p, s :: Live(w, p, s) ==> Kept(w, p, s))
    && (forall p: Pid :: PhaseHolds(w, p))
    && (forall f :: f in w.locks ==> Held(w, f, w.locks[f]))
  }

  /** No lock is stray: its process holds it for a live store or for the step it is at. */
  ghost predicate Held(w: World, f: Inode, p: Pid) {
    PhaseLock(PhaseOf(w, p)) == Some(f) || exists s :: Live(w, p, s) && s.owner == f
  }

  /** The lock a phase holds is not a live store's. */
  lemma {:induction false} PhaseLockFree(w: World, p: Pid, q: Pid, s: Store)
    requires Invariant(w) && Live(w, q, s) && PhaseLock(PhaseOf(w, p)).Some?
    ensures PhaseLock(PhaseOf(w, p)).value != s.owner
  {
    assert PhaseHolds(w, p) && Kept(w, q, s);
  }

  lemma {:induction false} StartHolds()
    ensures Invariant(START)
  {
  }

  /** A token two live stores share belongs to one process and one file. */
  lemma {:induction false} OneOwner(w: World, p: Pid, s: Store, q: Pid, t: Store)
    requires Invariant(w) && Live(w, p, s) && Live(w, q, t) && s.token == t.token
    ensures p == q && s == t
  {
    assert Kept(w, p, s) && Kept(w, q, t);
  }

  /** The part of the invariant that is about names and inodes. */
  ghost predicate Named(w: World) {
    && (forall t :: t in w.roots ==> t in w.owners)
    && (forall t :: t in w.owners ==> w.owners[t] < w.nextInode)
    && (forall t, u :: t in w.owners && u in w.owners && w.owners[t] == w.owners[u] ==> t == u)
  }

  /** The frame shared by all steps of the process inside: the others are idle, so their part is the stores'. */
  lemma {:induction false} Reassemble(w: World, p: Pid, w': World)
    requires Invariant(w) && (forall q: Pid :: q != p ==> PhaseOf(w', q) == PhaseOf(w, q))
    requires w.parentLock == Some(p) || w.parentLock.None?
    requires PhaseOf(w', p) != Idle ==> w'.parentLock == Some(p)
    requires Named(w') && PhaseHolds(w', p)
    requires forall q, s :: Live(w', q, s) ==> Kept(w', q, s)
    requires forall f :: f in w'.locks ==> Held(w', f, w'.locks[f])
    ensures Invariant(w')
  {
    hide Kept;
    hide Held;
    hide Live;
    forall q: Pid
      ensures PhaseHolds(w', q)
      ensures PhaseOf(w', q) != Idle ==> w'.parentLock == Some(q)
    {
      if q != p { assert PhaseOf(w', q) == PhaseOf(w, q); assert PhaseOf(w, q) == Idle; }
    }
  }

  /** Live stores and locks that a step does not touch stay as they are. */
  lemma {:induction false} StoresStay(w: World, w': World, p: Pid)
    requires Invariant(w) && w'.stores == w.stores
    requires forall q: Pid :: q != p ==> PhaseOf(w', q) == PhaseOf(w, q)
    requires forall q, s :: Live(w, q, s) ==>
      && s.token in w'.owners && w'.owners[s.token] == w.owners[s.token]
      && s.owner in w'.locks && w'.locks[s.owner] == w.locks[s.owner]
      && s.token in w'.roots
    requires forall f :: f in w'.locks ==>
      || (f in w.locks && w'.locks[f] == w.locks[f]
          && (w.locks[f] == p ==> PhaseLock(PhaseOf(w, p)) != Some(f) || PhaseLock(PhaseOf(w', p)) == Some(f)))
      || (w'.locks[f] == p && PhaseLock(PhaseOf(w', p)) == Some(f))
    ensures forall q, s :: Live(w', q, s) <==> Live(w, q, s)
    ensures forall q, s :: Live(w', q, s) ==> Kept(w', q, s)
    ensures forall f :: f in w'.locks ==> Held(w', f, w'.locks[f])
  {
    forall q, s | Live(w', q, s)
      ensures Kept(w', q, s)
    {
      assert Live(w, q, s) && Kept(w, q, s);
    }
    forall f | f in w'.locks
      ensures Held(w', f, w'.locks[f])
    {
      if f in w.locks && w'.locks[f] == w.locks[f] {
        assert Held(w, f, w.locks[f]);
        if s :| Live(w, w.locks[f], s) && s.owner == f {
          assert Live(w', w.locks[f], s);
        }
      }
    }
  }

  lemma {:induction false} StopKeeps(w: World, p: Pid)
    requires Invariant(w)
    ensures Invariant(Stopped(w, p))
  {
    var w' := Stopped(w, p);
    forall q, s | Live(w', q, s)
      ensures Live(w, q, s) && Kept(w', q, s)
    {
      assert Live(w, q, s) && Kept(w, q, s);
    }
    forall f | f in w'.locks
      ensures Held(w', f, w'.locks[f])
    {
      StopHeld(w, p, f);
    }
    forall q: Pid
      ensures PhaseHolds(w', q)
    {
      assert PhaseHolds(w, q);
      if q != p && PhaseOf(w, q) != Idle {
        StopPhase(w, p, q);
      }
    }
  }

  lemma {:induction false} StopHeld(w: World, p: Pid, f: Inode)
    requires Invariant(w) && f in Stopped(w, p).locks
    ensures Held(Stopped(w, p), f, Stopped(w, p).locks[f])
  {
    var q := w.locks[f];
    assert Held(w, f, q) && q != p;
    assert PhaseOf(Stopped(w, p), q) == PhaseOf(w, q);
    if s :| Live(w, q, s) && s.owner == f {
      assert Live(Stopped(w, p), q, s);
    }
  }

  lemma {:induction false} StopPhase(w: World, p: Pid, q: Pid)
    requires Invariant(w) && q != p
    ensures PhaseHolds(Stopped(w, p), q)
  {
    var w' := Stopped(w, p);
    assert PhaseHolds(w, q);
    assert PhaseOf(w', q) == PhaseOf(w, q);
    assert forall r, s :: Live(w', r, s) ==> Live(w, r, s);
  }

  lemma {:induction false} FailKeeps(w: World, p: Pid)
    requires Invariant(w) && MayFail(PhaseOf(w, p))
    ensures Invariant(Failed(w, p))
  {
    if PhaseOf(w, p).ReapLocked? {
      FailLockedKeeps(w, p);
    } else {
      InsideHolds(w, p);
      hide Invariant;
      MoveKeeps(w, p, Failed(w, p));
    }
  }

  lemma {:induction false} FailLockedKeeps(w: World, p: Pid)
    requires Invariant(w) && PhaseOf(w, p).ReapLocked?
    ensures Invariant(Failed(w, p))
  {
    var w' := Left(Unlock(w, PhaseOf(w, p).file), p);
    UntouchedStores(w, p);
    StoresStay(w, w', p);
    Reassemble(w, p, w');
  }

  /** The lock of a phase is no live store's, and live stores are as kept. */
  lemma {:induction false} UntouchedStores(w: World, p: Pid)
    requires Invariant(w)
    ensures forall q, s :: Live(w, q, s) ==> Kept(w, q, s) && PhaseLock(PhaseOf(w, p)) != Some(s.owner)
    ensures PhaseHolds(w, p)
  {
    forall q, s | Live(w, q, s)
      ensures Kept(w, q, s) && PhaseLock(PhaseOf(w, p)) != Some(s.owner)
    {
      if PhaseLock(PhaseOf(w, p)).Some? { PhaseLockFree(w, p, q, s); }
    }
  }

  /** Writing and discarding below one's own root touches no name in the parent directory. */
  lemma {:induction false} ContentsKeep(w: World, roots: map<Token, set<string>>)
    requires Invariant(w) && roots.Keys == w.roots.Keys
    ensures Invariant(w.(roots := roots))
  {
    var w' := w.(roots := roots);
    assert forall r, s :: Live(w', r, s) <==> Live(w, r, s);
    forall q, s | Live(w', q, s)
      ensures Kept(w', q, s)
    {
      assert Live(w, q, s) && Kept(w, q, s);
    }
    forall q: Pid
      ensures PhaseHolds(w', q)
    {
      assert PhaseHolds(w, q);
      assert PhaseOf(w', q) == PhaseOf(w, q);
    }
    forall f | f in w'.locks
      ensures Held(w', f, w'.locks[f])
    {
      assert Held(w, f, w.locks[f]);
    }
  }

  /** Steps that change nothing but the phase of the process inside, or let a process in or out. */
  lemma {:induction false} MoveKeeps(w: World, p: Pid, w': World)
    requires Invariant(w) && (w.parentLock == Some(p) || w.parentLock.None?)
    requires w' == w.(phases := w.phases[p := PhaseOf(w', p)], parentLock := w'.parentLock)
    requires PhaseOf(w', p) != Idle ==> w'.parentLock == Some(p)
    requires PhaseLock(PhaseOf(w, p)) == PhaseLock(PhaseOf(w', p)) || PhaseLock(PhaseOf(w, p)).None?
    requires PhaseHolds(w', p)
    ensures Invariant(w')
  {
    UntouchedStores(w, p);
    StoresStay(w, w', p);
    Reassemble(w, p, w');
  }

  lemma {:induction false} SameUnowned(w: World, w': World, token: Token)
    requires w'.stores == w.stores
    ensures Unowned(w', token) <==> Unowned(w, token)
  {
    assert forall q, s :: Live(w', q, s) <==> Live(w, q, s);
  }

  /** Nobody's store has the token of an unlocked owner file. */
  lemma {:induction false} UnlockedUnowned(w: World, token: Token)
    requires Invariant(w) && token in w.owners && Unlocked(w, w.owners[token])
    ensures Unowned(w, token)
  {
    forall q, s | Live(w, q, s)
      ensures s.token != token
    {
      assert Kept(w, q, s);
    }
  }

  /** The reaper takes a lock that nobody holds. */
  lemma {:induction false} ReapLockKeeps(w: World, p: Pid, token: Token, file: Inode)
    requires Invariant(w) && PhaseOf(w, p) == ReapOpened(token, file) && Unlocked(w, file)
    ensures Invariant(Moved(w, p, ReapLocked(token, file)).(locks := w.locks[file := p]))
  {
    var w' := Moved(w, p, ReapLocked(token, file)).(locks := w.locks[file := p]);
    InsideHolds(w, p);
    UnlockedUnowned(w, token);
    UntouchedStores(w, p);
    StoresStay(w, w', p);
    SameUnowned(w, w', token);
    hide Unowned;
    Reassemble(w, p, w');
  }

  /** The creator takes the lock of its new owner file. */
  lemma {:induction false} OwnerLockKeeps(w: World, p: Pid, token: Token, file: Inode, attempts: nat)
    requires Invariant(w) && PhaseOf(w, p) == OwnerMade(token, file, attempts) && Unlocked(w, file)
    ensures Invariant(Moved(w, p, OwnerLocked(token, file, attempts)).(locks := w.locks[file := p]))
  {
    var w' := Moved(w, p, OwnerLocked(token, file, attempts)).(locks := w.locks[file := p]);
    InsideHolds(w, p);
    UntouchedStores(w, p);
    StoresStay(w, w', p);
    SameUnowned(w, w', token);
    hide Unowned;
    Reassemble(w, p, w');
  }

  /** Dropping the handle of a locked file whose token has neither root nor live store. */
  lemma {:induction false} DropKeeps(w: World, p: Pid, phase: Phase)
    requires Invariant(w) && w.parentLock == Some(p) && PhaseLock(PhaseOf(w, p)).Some?
    requires PhaseOf(w, p).ReapEmptied? || PhaseOf(w, p).OwnerLocked?
    requires (phase.ReapDropped? || phase.Undoing?) && phase.token == PhaseOf(w, p).token
    ensures Invariant(Moved(Unlock(w, PhaseOf(w, p).file), p, phase))
  {
    var w' := Moved(Unlock(w, PhaseOf(w, p).file), p, phase);
    UntouchedStores(w, p);
    StoresStay(w, w', p);
    Reassemble(w, p, w');
  }

  /** Removing an owner file whose token has neither root nor live store. */
  lemma {:induction false} RemoveOwnerKeeps(w: World, p: Pid, token: Token, w': World)
    requires Invariant(w) && w.parentLock == Some(p)
    requires (PhaseOf(w, p) == ReapDropped(token) || (PhaseOf(w, p).Undoing? && PhaseOf(w, p).token == token))
    requires w'
      == w.(owners := w.owners - {token}, phases := w.phases[p := PhaseOf(w', p)], parentLock := w'.parentLock)
    requires PhaseOf(w', p) != Idle ==> w'.parentLock == Some(p)
    requires PhaseOf(w', p).Idle? || PhaseOf(w', p).Reaping? || PhaseOf(w', p).Creating?
    ensures Invariant(w')
  {
    UntouchedStores(w, p);
    StoresStay(w, w', p);
    Reassemble(w, p, w');
  }

  /** Removing a root, or part of it, whose token has no live store. */
  lemma {:induction false} RemoveRootKeeps(w: World, p: Pid, w': World)
    requires Invariant(w) && w.parentLock == Some(p) && PhaseOf(w, p).ReapLocked?
    requires PhaseOf(w', p) == PhaseOf(w, p)
      || (PhaseOf(w', p) == ReapEmptied(PhaseOf(w, p).token, PhaseOf(w, p).file)
          && PhaseOf(w, p).token !in w'.roots)
    requires w' == w.(roots := w'.roots, phases := w'.phases)
    requires (forall q: Pid :: q != p ==> PhaseOf(w', q) == PhaseOf(w, q))
    requires forall t :: t in w'.roots ==> t in w.roots
    requires forall t :: t in w.roots && t != PhaseOf(w, p).token ==> t in w'.roots
    ensures Invariant(w')
  {
    UntouchedStores(w, p);
    StoresStay(w, w', p);
    Reassemble(w, p, w');
  }

  /** A new owner file has a new inode, no root and no live store. */
  lemma {:induction false} OwnerKeeps(w: World, p: Pid, token: Token, attempts: nat)
    requires Invariant(w) && w.parentLock == Some(p) && token !in w.owners && PhaseLock(PhaseOf(w, p)).None?
    ensures Invariant(Moved(w, p, OwnerMade(token, w.nextInode, attempts)).(owners := w.owners[token := w.nextInode],
        nextInode := w.nextInode + 1))
  {
    var w' := Moved(w, p, OwnerMade(token, w.nextInode, attempts)).(owners := w.owners[token := w.nextInode],
        nextInode := w.nextInode + 1);
    UntouchedStores(w, p);
    StoresStay(w, w', p);
    forall q, s | Live(w', q, s)
      ensures s.token != token
    {
      assert Live(w, q, s);
    }
    Reassemble(w, p, w');
  }

  /** Making the root turns the locked owner file into a live store. */
  lemma {:induction false} RootKeeps(w: World, p: Pid)
    requires Invariant(w) && Enabled(w, p, MakeRoot)
    ensures Invariant(Effect(w, p, MakeRoot))
  {
    InsideHolds(w, p);
    NewStore(w, Effect(w, p, MakeRoot), p, PhaseOf(w, p).token, PhaseOf(w, p).file);
    hide Kept;
    hide Held;
    hide Live;
    Reassemble(w, p, Effect(w, p, MakeRoot));
  }

  lemma {:induction false} NewStore(w: World, w': World, p: Pid, token: Token, file: Inode)
    requires Invariant(w) && token in w.owners && w.owners[token] == file && file in w.locks && w.locks[file] == p
    requires w'
      == w.(phases := w.phases[p := Entered], roots := w.roots[token := {}],
            stores := w.stores[p := StoresOf(w, p) + {Store(token, file)}])
    requires PhaseLock(PhaseOf(w, p)) == Some(file)
    ensures forall q, s :: Live(w', q, s) ==> Kept(w', q, s)
    ensures forall f :: f in w'.locks ==> Held(w', f, w'.locks[f])
  {
    var made := Store(token, file);
    forall q, s
      ensures Live(w', q, s) <==> Live(w, q, s) || (q == p && s == made)
    {
    }
    forall q, s | Live(w', q, s)
      ensures Kept(w', q, s)
    {
      if Live(w, q, s) { assert Kept(w, q, s); }
    }
    forall f | f in w'.locks
      ensures Held(w', f, w'.locks[f])
    {
      assert Held(w, f, w.locks[f]);
      if s :| Live(w, w.locks[f], s) && s.owner == f { assert Live(w', w.locks[f], s); }
      else { assert Live(w', p, made) && made.owner == f; }
    }
  }

  lemma {:induction false} InsideHolds(w: World, p: Pid)
    requires Invariant(w)
    ensures PhaseOf(w, p) != Idle ==> w.parentLock == Some(p)
    ensures PhaseHolds(w, p)
  {
  }

  lemma {:induction false} StepStartReapKeeps(w: World, p: Pid)
    requires Invariant(w) && Enabled(w, p, StartReap)
    ensures Invariant(Effect(w, p, StartReap))
  {
    InsideHolds(w, p);
    hide Invariant;
    MoveKeeps(w, p, Effect(w, p, StartReap));
  }

  lemma {:induction false} StepReapDoneKeeps(w: World, p: Pid)
    requires Invariant(w) && Enabled(w, p, ReapDone)
    ensures Invariant(Effect(w, p, ReapDone))
  {
    InsideHolds(w, p);
    hide Invariant;
    MoveKeeps(w, p, Effect(w, p, ReapDone));
  }

  lemma {:induction false} StepReapBusyKeeps(w: World, p: Pid)
    requires Invariant(w) && Enabled(w, p, ReapBusy)
    ensures Invariant(Effect(w, p, ReapBusy))
  {
    InsideHolds(w, p);
    hide Invariant;
    MoveKeeps(w, p, Effect(w, p, ReapBusy));
  }

  lemma {:induction false} StepStartCreateKeeps(w: World, p: Pid, tries: nat)
    requires Invariant(w) && Enabled(w, p, StartCreate(tries))
    ensures Invariant(Effect(w, p, StartCreate(tries)))
  {
    InsideHolds(w, p);
    hide Invariant;
    MoveKeeps(w, p, Effect(w, p, StartCreate(tries)));
  }

  lemma {:induction false} StepCreateTakenKeeps(w: World, p: Pid, token: Token)
    requires Invariant(w) && Enabled(w, p, CreateTaken(token))
    ensures Invariant(Effect(w, p, CreateTaken(token)))
  {
    InsideHolds(w, p);
    hide Invariant;
    MoveKeeps(w, p, Effect(w, p, CreateTaken(token)));
  }

  lemma {:induction false} StepLockFailsKeeps(w: World, p: Pid)
    requires Invariant(w) && Enabled(w, p, LockFails)
    ensures Invariant(Effect(w, p, LockFails))
  {
    InsideHolds(w, p);
    hide Invariant;
    SameUnowned(w, Effect(w, p, LockFails), PhaseOf(w, p).token);
    MoveKeeps(w, p, Effect(w, p, LockFails));
  }

  lemma {:induction false} StepUndoFailsKeeps(w: World, p: Pid)
    requires Invariant(w) && Enabled(w, p, UndoFails)
    ensures Invariant(Effect(w, p, UndoFails))
  {
    InsideHolds(w, p);
    hide Invariant;
    MoveKeeps(w, p, Effect(w, p, UndoFails));
  }

  lemma {:induction false} StepAcquireKeeps(w: World, p: Pid)
    requires Invariant(w) && Enabled(w, p, Acquire)
    ensures Invariant(Effect(w, p, Acquire))
  {
    InsideHolds(w, p);
    hide Invariant;
    MoveKeeps(w, p, Effect(w, p, Acquire));
  }

  lemma {:induction false} StepReleaseKeeps(w: World, p: Pid)
    requires Invariant(w) && Enabled(w, p, Release)
    ensures Invariant(Effect(w, p, Release))
  {
    InsideHolds(w, p);
    hide Invariant;
    MoveKeeps(w, p, Effect(w, p, Release));
  }

  lemma {:induction false} StepGiveUpKeeps(w: World, p: Pid)
    requires Invariant(w) && Enabled(w, p, GiveUp)
    ensures Invariant(Effect(w, p, GiveUp))
  {
    InsideHolds(w, p);
    hide Invariant;
    MoveKeeps(w, p, Effect(w, p, GiveUp));
  }

  lemma {:induction false} StepReapOpenKeeps(w: World, p: Pid, token: Token)
    requires Invariant(w) && Enabled(w, p, ReapOpen(token))
    ensures Invariant(Effect(w, p, ReapOpen(token)))
  {
    InsideHolds(w, p);
    hide Invariant;
    MoveKeeps(w, p, Effect(w, p, ReapOpen(token)));
  }

  lemma {:induction false} StepReapTryLockKeeps(w: World, p: Pid)
    requires Invariant(w) && Enabled(w, p, ReapTryLock)
    ensures Invariant(Effect(w, p, ReapTryLock))
  {
    InsideHolds(w, p);
    hide Invariant;
    ReapLockKeeps(w, p, PhaseOf(w, p).token, PhaseOf(w, p).file);
  }

  lemma {:induction false} StepReapRemovePartKeeps(w: World, p: Pid, gone: set<string>)
    requires Invariant(w) && Enabled(w, p, ReapRemovePart(gone))
    ensures Invariant(Effect(w, p, ReapRemovePart(gone)))
  {
    InsideHolds(w, p);
    hide Invariant;
    RemoveRootKeeps(w, p, Effect(w, p, ReapRemovePart(gone)));
  }

  lemma {:induction false} StepReapRemoveRootKeeps(w: World, p: Pid)
    requires Invariant(w) && Enabled(w, p, ReapRemoveRoot)
    ensures Invariant(Effect(w, p, ReapRemoveRoot))
  {
    InsideHolds(w, p);
    hide Invariant;
    RemoveRootKeeps(w, p, Effect(w, p, ReapRemoveRoot));
  }

  lemma {:induction false} StepReapDropKeeps(w: World, p: Pid)
    requires Invariant(w) && Enabled(w, p, ReapDrop)
    ensures Invariant(Effect(w, p, ReapDrop))
  {
    InsideHolds(w, p);
    hide Invariant;
    DropKeeps(w, p, ReapDropped(PhaseOf(w, p).token));
  }

  lemma {:induction false} StepReapRemoveOwnerKeeps(w: World, p: Pid)
    requires Invariant(w) && Enabled(w, p, ReapRemoveOwner)
    ensures Invariant(Effect(w, p, ReapRemoveOwner))
  {
    InsideHolds(w, p);
    hide Invariant;
    RemoveOwnerKeeps(w, p, PhaseOf(w, p).token, Effect(w, p, ReapRemoveOwner));
  }

  lemma {:induction false} StepCreateOwnerKeeps(w: World, p: Pid, token: Token)
    requires Invariant(w) && Enabled(w, p, CreateOwner(token))
    ensures Invariant(Effect(w, p, CreateOwner(token)))
  {
    InsideHolds(w, p);
    hide Invariant;
    OwnerKeeps(w, p, token, PhaseOf(w, p).attempts - 1);
  }

  lemma {:induction false} StepLockOwnerKeeps(w: World, p: Pid)
    requires Invariant(w) && Enabled(w, p, LockOwner)
    ensures Invariant(Effect(w, p, LockOwner))
  {
    InsideHolds(w, p);
    hide Invariant;
    OwnerLockKeeps(w, p, PhaseOf(w, p).token, PhaseOf(w, p).file, PhaseOf(w, p).attempts);
  }

  /** Below an owner file that was just made there is no root. */
  lemma {:induction false} RootTakenNever(w: World, p: Pid)
    requires Invariant(w)
    ensures !Enabled(w, p, RootTaken)
  {
    InsideHolds(w, p);
  }

  lemma {:induction false} StepRootFailsKeeps(w: World, p: Pid)
    requires Invariant(w) && Enabled(w, p, RootFails)
    ensures Invariant(Effect(w, p, RootFails))
  {
    InsideHolds(w, p);
    hide Invariant;
    DropKeeps(w, p, Undoing(PhaseOf(w, p).token, PhaseOf(w, p).attempts, false));
  }

  lemma {:induction false} StepUndoOwnerKeeps(w: World, p: Pid)
    requires Invariant(w) && Enabled(w, p, UndoOwner)
    ensures Invariant(Effect(w, p, UndoOwner))
  {
    InsideHolds(w, p);
    hide Invariant;
    RemoveOwnerKeeps(w, p, PhaseOf(w, p).token, Effect(w, p, UndoOwner));
  }

  lemma {:induction false} StepFailKeeps(w: World, p: Pid)
    requires Invariant(w) && Enabled(w, p, Fail)
    ensures Invariant(Effect(w, p, Fail))
  {
    hide Invariant;
    FailKeeps(w, p);
  }

  lemma {:induction false} StepStopKeeps(w: World, p: Pid)
    requires Invariant(w)
    ensures Enabled(w, p, Stop) && Invariant(Effect(w, p, Stop))
  {
    hide Invariant;
    StopKeeps(w, p);
  }

  lemma {:induction false} StepWriteKeeps(w: World, p: Pid, token: Token, name: string)
    requires Invariant(w) && Enabled(w, p, Write(token, name))
    ensures Invariant(Effect(w, p, Write(token, name)))
  {
    hide Invariant;
    ContentsKeep(w, w.roots[token := w.roots[token] + {name}]);
  }

  lemma {:induction false} StepDiscardKeeps(w: World, p: Pid, token: Token, name: string)
    requires Invariant(w) && Enabled(w, p, Discard(token, name))
    ensures Invariant(Effect(w, p, Discard(token, name)))
  {
    hide Invariant;
    ContentsKeep(w, w.roots[token := w.roots[token] - {name}]);
  }

  lemma {:induction false} NothingDone(w: World, p: Pid, step: Step)
    requires Enabled(w, p, step) && step.ReapMissing?
    ensures Effect(w, p, step) == w
  {
  }

  /** Every step of every process keeps the invariant. */
  lemma {:induction false} StepKeeps(w: World, p: Pid, step: Step)
    requires Invariant(w) && Enabled(w, p, step)
    ensures Invariant(Effect(w, p, step))
  {
    hide Invariant;
    hide Effect;
    hide Enabled;
    match step
    case Acquire => StepAcquireKeeps(w, p);
    case Release => StepReleaseKeeps(w, p);
    case StartReap => StepStartReapKeeps(w, p);
    case ReapDone => StepReapDoneKeeps(w, p);
    case ReapOpen(token) => StepReapOpenKeeps(w, p, token);
    case ReapMissing(_) => NothingDone(w, p, step);
    case ReapTryLock => StepReapTryLockKeeps(w, p);
    case ReapBusy => StepReapBusyKeeps(w, p);
    case ReapRemovePart(gone) => StepReapRemovePartKeeps(w, p, gone);
    case ReapRemoveRoot => StepReapRemoveRootKeeps(w, p);
    case ReapDrop => StepReapDropKeeps(w, p);
    case ReapRemoveOwner => StepReapRemoveOwnerKeeps(w, p);
    case StartCreate(tries) => StepStartCreateKeeps(w, p, tries);
    case CreateOwner(token) => StepCreateOwnerKeeps(w, p, token);
    case CreateTaken(token) => StepCreateTakenKeeps(w, p, token);
    case LockOwner => StepLockOwnerKeeps(w, p);
    case LockFails => StepLockFailsKeeps(w, p);
    case MakeRoot => RootKeeps(w, p);
    case RootTaken => RootTakenNever(w, p);
    case RootFails => StepRootFailsKeeps(w, p);
    case UndoOwner => StepUndoOwnerKeeps(w, p);
    case UndoFails => StepUndoFailsKeeps(w, p);
    case GiveUp => StepGiveUpKeeps(w, p);
    case Fail => StepFailKeeps(w, p);
    case Stop => StepStopKeeps(w, p);
    case Write(token, name) => StepWriteKeeps(w, p, token, name);
    case Discard(token, name) => StepDiscardKeeps(w, p, token, name);
  }

  lemma {:induction false} RunKeeps(events: seq<Event>, states: seq<World>, i: nat)
    requires Run(events, states) && i < |states|
    ensures Invariant(states[i])
    decreases i
  {
    hide Invariant;
    hide Effect;
    hide Enabled;
    if i == 0 {
      StartHolds();
    } else {
      RunKeeps(events, states, i - 1);
      StepKeeps(states[i - 1], events[i - 1].pid, events[i - 1].step);
      assert states[i - 1 + 1] == Effect(states[i - 1], events[i - 1].pid, events[i - 1].step);
    }
  }

  /* ---------- what every run guarantees ---------- */

  predicate TouchesRoots(step: Step) {
    step.ReapRemovePart? || step.ReapRemoveRoot? || step.MakeRoot? || step.Write? || step.Discard?
  }

  predicate Creates(step: Step) {
    step.StartCreate? || step.CreateOwner? || step.CreateTaken? || step.LockOwner? || step.LockFails?
    || step.RootTaken? || step.RootFails? || step.GiveUp?
  }

  lemma {:induction false} UndoStepsSpare(w: World, p: Pid, step: Step)
    requires Enabled(w, p, step) && (step.UndoOwner? || step.UndoFails?)
    ensures Effect(w, p, step).roots == w.roots && Effect(w, p, step).stores == w.stores
  {
  }

  lemma {:induction false} CreateStepsSpare(w: World, p: Pid, step: Step)
    requires Enabled(w, p, step) && Creates(step)
    ensures Effect(w, p, step).roots == w.roots && Effect(w, p, step).stores == w.stores
  {
  }

  lemma {:induction false} OtherStepsSpare(w: World, p: Pid, step: Step)
    requires Enabled(w, p, step) && !TouchesRoots(step) && !Creates(step) && !step.UndoOwner? && !step.UndoFails?
    ensures Effect(w, p, step).roots == w.roots
    ensures Effect(w, p, step).stores == if step.Stop? then w.stores[p := {}] else w.stores
  {
  }

  lemma {:induction false} RootStepsSpare(w: World, p: Pid, step: Step, q: Pid, s: Store)
    requires Enabled(w, p, step) && TouchesRoots(step) && Live(w, q, s) && Kept(w, q, s) && PhaseHolds(w, p)
    requires forall t :: Live(w, p, t) && t.token == s.token ==> p == q
    ensures Live(Effect(w, p, step), q, s) && s.token in Effect(w, p, step).roots
    ensures p != q ==> Effect(w, p, step).roots[s.token] == w.roots[s.token]
  {
    if step.Write? || step.Discard? {
      var mine :| mine in StoresOf(w, p) && mine.token == step.token;
      assert Live(w, p, mine);
    }
  }

  /** A step never removes a live store, and only its own process changes what is below its root. */
  lemma {:induction false} StepSparesLive(w: World, p: Pid, step: Step, q: Pid, s: Store)
    requires Invariant(w) && Enabled(w, p, step) && Live(w, q, s)
    ensures s.token in w.roots
    ensures !(p == q && step.Stop?) ==> Live(Effect(w, p, step), q, s)
    ensures s.token in Effect(w, p, step).roots
    ensures p != q ==> Effect(w, p, step).roots[s.token] == w.roots[s.token]
  {
    assert Kept(w, q, s);
    assert PhaseHolds(w, p);
    forall t | Live(w, p, t) && t.token == s.token
      ensures p == q
    {
      OneOwner(w, p, t, q, s);
    }
    hide Invariant;
    hide Effect;
    hide Enabled;
    hide PhaseHolds;
    if TouchesRoots(step) {
      RootStepsSpare(w, p, step, q, s);
    } else if Creates(step) {
      CreateStepsSpare(w, p, step);
    } else if step.UndoOwner? || step.UndoFails? {
      UndoStepsSpare(w, p, step);
    } else {
      OtherStepsSpare(w, p, step);
    }
  }

  /** In every interleaving, up to the moment its process stops: a live store's root is there, its owner file is there,
      and its token has no other live owner. */
  lemma {:induction false} LiveStoresSafe(events: seq<Event>, states: seq<World>, i: nat, p: Pid, s: Store)
    requires Run(events, states) && i < |states| && Live(states[i], p, s)
    ensures s.token in states[i].roots && s.token in states[i].owners
    ensures forall q, t :: Live(states[i], q, t) && t.token == s.token ==> q == p && t == s
    ensures i < |events| && !(events[i].pid == p && events[i].step.Stop?) ==> Live(states[i + 1], p, s)
    ensures i < |events| && events[i].pid != p ==>
      && s.token in states[i + 1].roots
      && states[i + 1].roots[s.token] == states[i].roots[s.token]
  {
    RunKeeps(events, states, i);
    assert Kept(states[i], p, s);
    forall q, t | Live(states[i], q, t) && t.token == s.token
      ensures q == p && t == s
    {
      OneOwner(states[i], p, s, q, t);
    }
    if i < |events| {
      hide Invariant;
      hide Effect;
      hide Enabled;
      hide Kept;
      StepSparesLive(states[i], events[i].pid, events[i].step, p, s);
      assert states[i + 1] == Effect(states[i], events[i].pid, events[i].step);
    }
  }

  /** Every root on disk still has its owner file, so a stale one can be found and reaped. */
  lemma {:induction false} RootsHaveOwners(events: seq<Event>, states: seq<World>, i: nat, token: Token)
    requires Run(events, states) && i < |states| && token in states[i].roots
    ensures token in states[i].owners
  {
    RunKeeps(events, states, i);
  }

  /** The branch for a root that already exists below a new owner file is never taken. */
  lemma {:induction false} RootNeverTaken(events: seq<Event>, states: seq<World>, i: nat)
    requires Run(events, states) && i < |events|
    ensures !events[i].step.RootTaken?
  {
    RunKeeps(events, states, i);
    var w, p := states[i], events[i].pid;
    assert PhaseHolds(w, p);
    assert Enabled(w, p, events[i].step);
  }

  /* ---------- what is left behind can be reaped ---------- */

  /** When nobody is inside, every lock is a live store's. */
  lemma {:induction false} StaleUnlocked(w: World, token: Token)
    requires Invariant(w) && w.parentLock.None? && token in w.owners && Unowned(w, token)
    ensures Unlocked(w, w.owners[token])
  {
    var f := w.owners[token];
    forall q, s | Live(w, q, s)
      ensures s.owner != f
    {
      assert Kept(w, q, s);
    }
    if f in w.locks {
      HeldByStore(w, f);
    }
  }

  lemma {:induction false} HeldByStore(w: World, f: Inode)
    requires Invariant(w) && w.parentLock.None? && f in w.locks
    ensures exists q, s :: Live(w, q, s) && s.owner == f
  {
    assert Held(w, f, w.locks[f]) && PhaseOf(w, w.locks[f]) == Idle;
  }

  const REAP_ONE: seq<Step> := [ReapTryLock, ReapRemoveRoot, ReapDrop, ReapRemoveOwner, ReapDone, Release]

  /** The steps of one process that reap one token. */
  function ReapSteps(token: Token): seq<Step> {
    [Acquire, StartReap, ReapOpen(token)] + REAP_ONE
  }

  /** From here the steps can be taken one after another, ending in `last`. */
  ghost predicate Leads(w: World, p: Pid, steps: seq<Step>, last: World)
    decreases |steps|
  {
    if steps == [] then last == w
    else Enabled(w, p, steps[0]) && Leads(Effect(w, p, steps[0]), p, steps[1..], last)
  }

  /** Whatever crashes left behind, when nobody is inside any process can reap it: an owner file without a live store,
      with or without a root, and nothing else changes. */
  lemma {:induction false} StaleReapable(w: World, p: Pid, token: Token) returns (last: World)
    requires Invariant(w) && w.parentLock.None? && token in w.owners && Unowned(w, token)
    ensures Leads(w, p, ReapSteps(token), last)
    ensures last.owners == w.owners - {token} && last.roots == w.roots - {token}
    ensures last.parentLock.None? && last.stores == w.stores
  {
    StaleUnlocked(w, token);
    assert PhaseOf(w, p) == Idle;
    var f := w.owners[token];
    var w1 := Effect(w, p, Acquire);
    var w2 := Effect(w1, p, StartReap);
    var w3 := Effect(w2, p, ReapOpen(token));
    assert PhaseOf(w3, p) == ReapOpened(token, f);
    last := ReapOpenedLeads(w3, p, token, f);
    LeadsThree(w, p, token, w1, w2, w3, last);
  }

  lemma {:induction false} LeadsThree(w: World, p: Pid, token: Token, w1: World, w2: World, w3: World, last: World)
    requires Enabled(w, p, Acquire) && w1 == Effect(w, p, Acquire)
    requires Enabled(w1, p, StartReap) && w2 == Effect(w1, p, StartReap)
    requires Enabled(w2, p, ReapOpen(token)) && w3 == Effect(w2, p, ReapOpen(token))
    requires Leads(w3, p, REAP_ONE, last)
    ensures Leads(w, p, ReapSteps(token), last)
  {
    hide Enabled;
    hide Effect;
    var steps := ReapSteps(token);
    assert steps[1..][1..][1..] == REAP_ONE;
    assert steps[1..][1..] == [ReapOpen(token)] + REAP_ONE;
    assert steps[1..] == [StartReap, ReapOpen(token)] + REAP_ONE;
    assert Leads(w2, p, steps[1..][1..], last);
    assert Leads(w1, p, steps[1..], last);
  }

  lemma {:induction false} ReapOpenedLeads(w: World, p: Pid, token: Token, f: Inode) returns (last: World)
    requires PhaseOf(w, p) == ReapOpened(token, f) && Unlocked(w, f)
    ensures Leads(w, p, REAP_ONE, last)
    ensures last.owners == w.owners - {token} && last.roots == w.roots - {token}
    ensures last.parentLock.None? && last.stores == w.stores
  {
    var w1, w2 := RemovingRoot(w, p, token, f);
    var w3, w4 := RemovingOwner(w2, p, token, f);
    var w5 := Effect(w4, p, ReapDone);
    last := Effect(w5, p, Release);
    hide Enabled;
    hide Effect;
    hide Leads;
    assert REAP_ONE[5..] == [Release];
    LeadsEnd(last, p);
    LeadsBack(w5, p, REAP_ONE[5..], last, last);
    LeadsBack(w4, p, REAP_ONE[4..], w5, last);
    LeadsBack(w3, p, REAP_ONE[3..], w4, last);
    LeadsBack(w2, p, REAP_ONE[2..], w3, last);
    LeadsBack(w1, p, REAP_ONE[1..], w2, last);
    LeadsBack(w, p, REAP_ONE, w1, last);
  }

  lemma {:induction false} RemovingRoot(w: World, p: Pid, token: Token, f: Inode) returns (w1: World, w2: World)
    requires PhaseOf(w, p) == ReapOpened(token, f) && Unlocked(w, f)
    ensures Enabled(w, p, ReapTryLock) && w1 == Effect(w, p, ReapTryLock)
    ensures Enabled(w1, p, ReapRemoveRoot) && w2 == Effect(w1, p, ReapRemoveRoot)
    ensures PhaseOf(w2, p) == ReapEmptied(token, f) && w2.owners == w.owners && w2.roots == w.roots - {token}
    ensures w2.stores == w.stores
  {
    w1 := Effect(w, p, ReapTryLock);
    w2 := Effect(w1, p, ReapRemoveRoot);
  }

  lemma {:induction false} RemovingOwner(w: World, p: Pid, token: Token, f: Inode) returns (w1: World, w2: World)
    requires PhaseOf(w, p) == ReapEmptied(token, f)
    ensures Enabled(w, p, ReapDrop) && w1 == Effect(w, p, ReapDrop)
    ensures Enabled(w1, p, ReapRemoveOwner) && w2 == Effect(w1, p, ReapRemoveOwner)
    ensures PhaseOf(w2, p) == Reaping && w2.owners == w.owners - {token} && w2.roots == w.roots && w2.stores == w.stores
  {
    w1 := Effect(w, p, ReapDrop);
    w2 := Effect(w1, p, ReapRemoveOwner);
  }

  lemma {:induction false} LeadsEnd(w: World, p: Pid)
    ensures Leads(w, p, REAP_ONE[6..], w)
  {
  }

  lemma {:induction false} LeadsBack(w: World, p: Pid, steps: seq<Step>, next: World, last: World)
    requires steps != [] && Enabled(w, p, steps[0]) && next == Effect(w, p, steps[0])
    requires Leads(next, p, steps[1..], last)
    ensures Leads(w, p, steps, last)
  {
  }

  /* ---------- a store can be created ---------- */

  /** The steps of one process that create a store under `token`. */
  function CreateSteps(token: Token): seq<Step> {
    [Acquire, StartCreate(1), CreateOwner(token), LockOwner, MakeRoot, Release]
  }

  /** A new file is unlocked when nobody is inside. */
  lemma {:induction false} NewFileUnlocked(w: World)
    requires Invariant(w) && w.parentLock.None?
    ensures Unlocked(w, w.nextInode)
  {
    forall q, s | Live(w, q, s)
      ensures s.owner != w.nextInode
    {
      assert Kept(w, q, s);
    }
    if w.nextInode in w.locks {
      HeldByStore(w, w.nextInode);
    }
  }

  /** When nobody is inside, any process can create a store under any token without an owner file. That adds one live
      store of the process, its locked owner file and its empty root, and changes nothing else. */
  lemma {:induction false} StoreCreatable(w: World, p: Pid, token: Token) returns (last: World, made: Store)
    requires Invariant(w) && w.parentLock.None? && token !in w.owners
    ensures Leads(w, p, CreateSteps(token), last) && Invariant(last)
    ensures made.token == token && forall q, s :: Live(last, q, s) <==> Live(w, q, s) || (q == p && s == made)
    ensures !Live(w, p, made) && made.owner !in w.locks
    ensures last.owners == w.owners[token := made.owner] && last.roots == w.roots[token := {}]
    ensures last.locks == w.locks[made.owner := p] && last.parentLock.None?
    ensures forall q: Pid :: PhaseOf(last, q) == PhaseOf(w, q)
  {
    NewFileUnlocked(w);
    NothingYet(w, p, token);
    hide Invariant;
    hide Enabled;
    hide Effect;
    hide Leads;
    made := Store(token, w.nextInode);
    var w1, w2, w3, w4 := LockingOwner(w, p, token);
    var w5;
    w5, last := MakingRoot(w4, p, token, w.nextInode);
    CreateLeads(w, p, token, w1, w2, w3, w4, w5, last);
    LeadsKeeps(w, p, CreateSteps(token), last);
  }

  lemma {:induction false} NothingYet(w: World, p: Pid, token: Token)
    requires Invariant(w) && w.parentLock.None? && token !in w.owners
    ensures token !in w.roots && PhaseOf(w, p) == Idle && !Live(w, p, Store(token, w.nextInode))
  {
    assert Live(w, p, Store(token, w.nextInode)) ==> Kept(w, p, Store(token, w.nextInode));
  }

  lemma {:induction false} LockingOwner(w: World, p: Pid, token: Token)
    returns (w1: World, w2: World, w3: World, w4: World)
    requires PhaseOf(w, p) == Idle && w.parentLock.None? && token !in w.owners && Unlocked(w, w.nextInode)
    ensures Enabled(w, p, Acquire) && w1 == Effect(w, p, Acquire)
    ensures Enabled(w1, p, StartCreate(1)) && w2 == Effect(w1, p, StartCreate(1))
    ensures Enabled(w2, p, CreateOwner(token)) && w3 == Effect(w2, p, CreateOwner(token))
    ensures Enabled(w3, p, LockOwner) && w4 == Effect(w3, p, LockOwner)
    ensures PhaseOf(w4, p) == OwnerLocked(token, w.nextInode, 0) && w4.owners == w.owners[token := w.nextInode]
    ensures w4.roots == w.roots && w4.locks == w.locks[w.nextInode := p] && w4.stores == w.stores
    ensures forall q: Pid :: q != p ==> PhaseOf(w4, q) == PhaseOf(w, q)
  {
    w1, w2 := GoingIn(w, p);
    w3, w4 := NewOwner(w2, p, token);
    hide Enabled;
    hide Effect;
  }

  lemma {:induction false} GoingIn(w: World, p: Pid) returns (w1: World, w2: World)
    requires PhaseOf(w, p) == Idle && w.parentLock.None?
    ensures Enabled(w, p, Acquire) && w1 == Effect(w, p, Acquire)
    ensures Enabled(w1, p, StartCreate(1)) && w2 == Effect(w1, p, StartCreate(1))
    ensures PhaseOf(w2, p) == Creating(1) && w2.owners == w.owners && w2.roots == w.roots && w2.locks == w.locks
    ensures w2.stores == w.stores && w2.nextInode == w.nextInode
    ensures forall q: Pid :: q != p ==> PhaseOf(w2, q) == PhaseOf(w, q)
  {
    w1 := Effect(w, p, Acquire);
    w2 := Effect(w1, p, StartCreate(1));
  }

  lemma {:induction false} NewOwner(w: World, p: Pid, token: Token) returns (w1: World, w2: World)
    requires PhaseOf(w, p) == Creating(1) && token !in w.owners && Unlocked(w, w.nextInode)
    ensures Enabled(w, p, CreateOwner(token)) && w1 == Effect(w, p, CreateOwner(token))
    ensures Enabled(w1, p, LockOwner) && w2 == Effect(w1, p, LockOwner)
    ensures PhaseOf(w2, p) == OwnerLocked(token, w.nextInode, 0) && w2.owners == w.owners[token := w.nextInode]
    ensures w2.roots == w.roots && w2.locks == w.locks[w.nextInode := p] && w2.stores == w.stores
    ensures forall q: Pid :: q != p ==> PhaseOf(w2, q) == PhaseOf(w, q)
  {
    w1 := Effect(w, p, CreateOwner(token));
    w2 := Effect(w1, p, LockOwner);
  }

  lemma {:induction false} MakingRoot(w: World, p: Pid, token: Token, file: Inode) returns (next: World, last: World)
    requires PhaseOf(w, p) == OwnerLocked(token, file, 0) && token !in w.roots
    ensures Enabled(w, p, MakeRoot) && next == Effect(w, p, MakeRoot)
    ensures Enabled(next, p, Release) && last == Effect(next, p, Release)
    ensures forall q, s :: Live(last, q, s) <==> Live(w, q, s) || (q == p && s == Store(token, file))
    ensures last.owners == w.owners && last.roots == w.roots[token := {}] && last.locks == w.locks
    ensures last.parentLock.None? && PhaseOf(last, p) == Idle
    ensures forall q: Pid :: q != p ==> PhaseOf(last, q) == PhaseOf(w, q)
  {
    next := Effect(w, p, MakeRoot);
    last := Effect(next, p, Release);
  }

  lemma {:induction false} CreateLeads(w: World, p: Pid, token: Token, w1: World, w2: World, w3: World, w4: World,
                                       w5: World, last: World)
    requires Enabled(w, p, Acquire) && w1 == Effect(w, p, Acquire)
    requires Enabled(w1, p, StartCreate(1)) && w2 == Effect(w1, p, StartCreate(1))
    requires Enabled(w2, p, CreateOwner(token)) && w3 == Effect(w2, p, CreateOwner(token))
    requires Enabled(w3, p, LockOwner) && w4 == Effect(w3, p, LockOwner)
    requires Enabled(w4, p, MakeRoot) && w5 == Effect(w4, p, MakeRoot)
    requires Enabled(w5, p, Release) && last == Effect(w5, p, Release)
    ensures Leads(w, p, CreateSteps(token), last)
  {
    hide Enabled;
    hide Effect;
    hide Leads;
    var steps := CreateSteps(token);
    LeadsNothing(last, p);
    assert steps[5..][1..] == [];
    LeadsBack(w5, p, steps[5..], last, last);
    LeadsBack(w4, p, steps[4..], w5, last);
    LeadsBack(w3, p, steps[3..], w4, last);
    LeadsBack(w2, p, steps[2..], w3, last);
    LeadsBack(w1, p, steps[1..], w2, last);
    LeadsBack(w, p, steps, w1, last);
  }

  lemma {:induction false} LeadsNothing(w: World, p: Pid)
    ensures Leads(w, p, [], w)
  {
  }

  lemma {:induction false} LeadsKeeps(w: World, p: Pid, steps: seq<Step>, last: World)
    requires Invariant(w) && Leads(w, p, steps, last)
    ensures Invariant(last)
    decreases |steps|
  {
    hide Invariant;
    hide Effect;
    hide Enabled;
    if steps != [] {
      StepKeeps(w, p, steps[0]);
      LeadsKeeps(Effect(w, p, steps[0]), p, steps[1..], last);
    }
  }

  function TakenSteps(clashes: seq<Token>): seq<Step> {
    if clashes == [] then [] else [CreateTaken(clashes[0])] + TakenSteps(clashes[1..])
  }

  /** Each token that already has an owner file costs one attempt and nothing else. */
  lemma {:induction false} ClashesSkipped(w: World, p: Pid, attempts: nat, clashes: seq<Token>) returns (last: World)
    requires PhaseOf(w, p) == Creating(attempts) && |clashes| <= attempts
    requires forall token :: token in clashes ==> token in w.owners
    ensures Leads(w, p, TakenSteps(clashes), last) && PhaseOf(last, p) == Creating(attempts - |clashes|)
    ensures last.owners == w.owners && last.roots == w.roots && last.locks == w.locks && last.stores == w.stores
    ensures last.parentLock == w.parentLock && forall q: Pid :: q != p ==> PhaseOf(last, q) == PhaseOf(w, q)
    decreases |clashes|
  {
    if clashes == [] {
      last := w;
    } else {
      var next := Effect(w, p, CreateTaken(clashes[0]));
      assert PhaseOf(next, p) == Creating(attempts - 1);
      last := ClashesSkipped(next, p, attempts - 1, clashes[1..]);
      assert TakenSteps(clashes)[1..] == TakenSteps(clashes[1..]);
      LeadsBack(w, p, TakenSteps(clashes), next, last);
    }
  }

  /** Making the root is the only step that adds a live store, and it always adds one: of the process that takes the
      step, under the token and owner file it has just locked. */
  lemma {:induction false} OnlyMakeRootAdds(w: World, p: Pid, step: Step, q: Pid, s: Store)
    requires Invariant(w) && Enabled(w, p, step) && !Live(w, q, s)
    ensures Live(Effect(w, p, step), q, s)
      <==> step.MakeRoot? && q == p && PhaseOf(w, p).OwnerLocked? && s == Store(PhaseOf(w, p).token, PhaseOf(w, p).file)
  {
    hide Invariant;
    if step.MakeRoot? {
    } else if Creates(step) {
      CreateStepsSpare(w, p, step);
    } else if step.UndoOwner? || step.UndoFails? {
      UndoStepsSpare(w, p, step);
    } else if TouchesRoots(step) {
      RootStepsStores(w, p, step);
    } else {
      OtherStepsSpare(w, p, step);
    }
  }

  lemma {:induction false} RootStepsStores(w: World, p: Pid, step: Step)
    requires Enabled(w, p, step) && TouchesRoots(step) && !step.MakeRoot?
    ensures Effect(w, p, step).stores == w.stores
  {
  }

  /* ---------- nobody stays inside for good ---------- */

  /** What stopping, however it happens, leaves behind: the process has no store, no lock and is not inside; the files
      stay, and nothing of the other processes changes. */
  lemma {:induction false} StopFrees(w: World, p: Pid)
    requires Enabled(w, p, Stop)
    ensures
      var w' := Effect(w, p, Stop);
      && w'.owners == w.owners && w'.roots == w.roots
      && w'.parentLock == (if w.parentLock == Some(p) then None else w.parentLock)
      && (forall s :: !Live(w', p, s)) && PhaseOf(w', p) == Idle
      && (forall f :: f in w'.locks <==> f in w.locks && w.locks[f] != p)
      && (forall f :: f in w'.locks ==> w'.locks[f] == w.locks[f])
      && (forall q, s :: q != p ==> (Live(w', q, s) <==> Live(w, q, s)))
      && (forall q: Pid :: q != p ==> PhaseOf(w', q) == PhaseOf(w, q))
  {
  }

  /** A call may fail wherever there is nothing to undo. The process then leaves, and its handles go with their locks:
      the files stay as they are, and so does every store. */
  lemma {:induction false} FailMeans(w: World, p: Pid)
    ensures Enabled(w, p, Fail) <==>
      match PhaseOf(w, p)
      case Entered => true
      case Reaping => true
      case ReapOpened(_, _) => true
      case ReapLocked(_, _) => true
      case ReapDropped(_) => true
      case Creating(_) => true
      case _ => false
    ensures Enabled(w, p, Fail) ==>
      var w' := Effect(w, p, Fail);
      && PhaseOf(w', p) == Idle && w'.parentLock.None?
      && w'.owners == w.owners && w'.roots == w.roots && w'.stores == w.stores
      && w'.locks == (match PhaseOf(w, p) case ReapLocked(_, file) => w.locks - {file} case _ => w.locks)
      && (forall q: Pid :: q != p ==> PhaseOf(w', q) == PhaseOf(w, q))
  {
  }

  /** A process adds and removes files in the root of its own stores only; a reaper may get part of the way through a
      root it has locked. */
  lemma {:induction false} FilesMean(w: World, p: Pid, token: Token, name: string, gone: set<string>)
    ensures Enabled(w, p, Write(token, name)) <==> token in w.roots && exists s :: Live(w, p, s) && s.token == token
    ensures Enabled(w, p, Discard(token, name)) <==> token in w.roots && exists s :: Live(w, p, s) && s.token == token
    ensures Enabled(w, p, Write(token, name)) ==>
      Effect(w, p, Write(token, name)) == w.(roots := w.roots[token := w.roots[token] + {name}])
    ensures Enabled(w, p, Discard(token, name)) ==>
      Effect(w, p, Discard(token, name)) == w.(roots := w.roots[token := w.roots[token] - {name}])
    ensures Enabled(w, p, ReapRemovePart(gone)) <==> PhaseOf(w, p).ReapLocked?
    ensures Enabled(w, p, ReapRemovePart(gone)) && PhaseOf(w, p).token in w.roots ==>
      Effect(w, p, ReapRemovePart(gone))
        == w.(roots := w.roots[PhaseOf(w, p).token := w.roots[PhaseOf(w, p).token] - gone])
  {
  }

  /** The parent lock is held by a process that is inside. */
  ghost predicate HeldInside(w: World) {
    forall p :: w.parentLock == Some(p) ==> PhaseOf(w, p) != Idle
  }

  lemma {:induction false} StepHeldInside(w: World, p: Pid, step: Step)
    requires Invariant(w) && HeldInside(w) && Enabled(w, p, step)
    ensures HeldInside(Effect(w, p, step))
  {
    assert w.parentLock.Some? && w.parentLock.value != p ==> PhaseOf(w, p) == Idle;
    hide Invariant;
    if PhaseOf(w, p) == Idle {
      IdleStep(w, p, step);
    } else {
      InsideStep(w, p, step);
    }
    hide Enabled;
    hide Effect;
  }

  lemma {:induction false} IdleStep(w: World, p: Pid, step: Step)
    requires Enabled(w, p, step) && PhaseOf(w, p) == Idle
    ensures
      var w' := Effect(w, p, step);
      && (w'.parentLock == w.parentLock || w'.parentLock.None? || (w'.parentLock == Some(p) && PhaseOf(w', p) != Idle))
      && forall q: Pid :: q != p ==> PhaseOf(w', q) == PhaseOf(w, q)
  {
  }

  lemma {:induction false} InsideStep(w: World, p: Pid, step: Step)
    requires Enabled(w, p, step) && PhaseOf(w, p) != Idle
    ensures
      var w' := Effect(w, p, step);
      && (w'.parentLock == w.parentLock || w'.parentLock.None?)
      && (w'.parentLock == Some(p) ==> PhaseOf(w', p) != Idle)
      && forall q: Pid :: q != p ==> PhaseOf(w', q) == PhaseOf(w, q)
  {
    StepsAlone(w, p, step);
    hide PhaseOf;
  }

  lemma {:induction false} StepsAlone(w: World, p: Pid, step: Step)
    requires Enabled(w, p, step)
    ensures forall q: Pid :: q != p ==> PhaseOf(Effect(w, p, step), q) == PhaseOf(w, q)
  {
  }

  lemma {:induction false} RunHeldInside(events: seq<Event>, states: seq<World>, i: nat)
    requires Run(events, states) && i < |states|
    ensures HeldInside(states[i])
    decreases i
  {
    hide Invariant;
    hide Effect;
    hide Enabled;
    hide HeldInside;
    if i == 0 {
      StartHeldInside();
    } else {
      RunHeldInside(events, states, i - 1);
      RunKeeps(events, states, i - 1);
      StepHeldInside(states[i - 1], events[i - 1].pid, events[i - 1].step);
      assert states[i - 1 + 1] == Effect(states[i - 1], events[i - 1].pid, events[i - 1].step);
    }
  }

  lemma {:induction false} StartHeldInside()
    ensures HeldInside(START)
  {
  }

  /** From wherever a process is inside, its code has a way out. */
  function WayOut(phase: Phase): seq<Step> {
    match phase
    case Idle => []
    case Entered => [Release]
    case Reaping => [ReapDone, Release]
    case ReapEmptied(_, _) => [ReapDrop, Fail]
    case OwnerMade(_, _, _) => [LockFails, UndoOwner]
    case OwnerLocked(_, _, _) => [RootFails, UndoOwner]
    case Undoing(_, _, again) => if again then [UndoOwner, Fail] else [UndoOwner]
    case _ => [Fail]
  }

  /** In every reachable state the process inside the parent lock can leave it by steps of its own. It takes its
      unfinished owner file with it, keeps every live store and every root, and holds no lock but its stores'. */
  lemma {:induction false} NeverStuck(events: seq<Event>, states: seq<World>, i: nat, p: Pid) returns (last: World)
    requires Run(events, states) && i < |states| && states[i].parentLock == Some(p)
    ensures PhaseOf(states[i], p) != Idle && Leads(states[i], p, WayOut(PhaseOf(states[i], p)), last)
    ensures last.parentLock.None? && PhaseOf(last, p) == Idle && Invariant(last)
    ensures last.stores == states[i].stores && last.roots == states[i].roots
    ensures last.owners == match PhaseOf(states[i], p)
                           case OwnerMade(token, _, _) => states[i].owners - {token}
                           case OwnerLocked(token, _, _) => states[i].owners - {token}
                           case Undoing(token, _, _) => states[i].owners - {token}
                           case _ => states[i].owners
    ensures forall f :: f in last.locks ==> exists q, s :: Live(last, q, s) && s.owner == f
  {
    RunKeeps(events, states, i);
    RunHeldInside(events, states, i);
    hide Run;
    last := Out(states[i], p);
    hide Effect;
    hide Enabled;
    LeadsKeeps(states[i], p, WayOut(PhaseOf(states[i], p)), last);
    forall f | f in last.locks
      ensures exists q, s :: Live(last, q, s) && s.owner == f
    {
      HeldByStore(last, f);
    }
  }

  lemma {:induction false} Out(w: World, p: Pid) returns (last: World)
    requires PhaseOf(w, p) != Idle
    ensures Leads(w, p, WayOut(PhaseOf(w, p)), last)
    ensures last.parentLock.None? && PhaseOf(last, p) == Idle && last.stores == w.stores && last.roots == w.roots
    ensures last.owners == match PhaseOf(w, p)
                           case OwnerMade(token, _, _) => w.owners - {token}
                           case OwnerLocked(token, _, _) => w.owners - {token}
                           case Undoing(token, _, _) => w.owners - {token}
                           case _ => w.owners
  {
    var steps := WayOut(PhaseOf(w, p));
    var w1 := FirstOut(w, p);
    if |steps| == 1 {
      last := w1;
      LeadsOne(w, p, steps[0], last);
    } else {
      last := SecondOut(w1, p, steps[1]);
      LeadsTwo(w, p, steps[0], steps[1], w1, last);
    }
    hide Enabled;
    hide Effect;
    hide Leads;
  }

  /** The first step out ends outside, or at a phase from which one more step does. */
  lemma {:induction false} FirstOut(w: World, p: Pid) returns (w1: World)
    requires PhaseOf(w, p) != Idle
    ensures
      var steps := WayOut(PhaseOf(w, p));
      && 1 <= |steps| <= 2 && Enabled(w, p, steps[0]) && w1 == Effect(w, p, steps[0])
      && w1.stores == w.stores && w1.roots == w.roots
      && w1.owners == (match PhaseOf(w, p) case Undoing(token, _, _) => w.owners - {token} case _ => w.owners)
      && if |steps| == 1 then w1.parentLock.None? && PhaseOf(w1, p) == Idle
         else match PhaseOf(w, p)
              case Undoing(_, _, _) => PhaseOf(w1, p).Creating? && steps[1] == Fail
              case Reaping => PhaseOf(w1, p) == Entered && steps[1] == Release
              case ReapEmptied(token, _) => PhaseOf(w1, p) == ReapDropped(token) && steps[1] == Fail
              case OwnerMade(token, _, attempts) =>
                PhaseOf(w1, p) == Undoing(token, attempts, false) && steps[1] == UndoOwner
              case OwnerLocked(token, _, attempts) =>
                PhaseOf(w1, p) == Undoing(token, attempts, false) && steps[1] == UndoOwner
              case _ => false
  {
    w1 := Effect(w, p, WayOut(PhaseOf(w, p))[0]);
  }

  lemma {:induction false} SecondOut(w: World, p: Pid, step: Step) returns (last: World)
    requires
      match step
      case Release => PhaseOf(w, p) == Entered
      case Fail => PhaseOf(w, p).ReapDropped? || PhaseOf(w, p).Creating?
      case UndoOwner => PhaseOf(w, p).Undoing? && !PhaseOf(w, p).again
      case _ => false
    ensures Enabled(w, p, step) && last == Effect(w, p, step)
    ensures last.parentLock.None? && PhaseOf(last, p) == Idle && last.stores == w.stores && last.roots == w.roots
    ensures last.owners == if step == UndoOwner then w.owners - {PhaseOf(w, p).token} else w.owners
  {
    last := Effect(w, p, step);
  }

  lemma {:induction false} LeadsOne(w: World, p: Pid, step: Step, last: World)
    requires Enabled(w, p, step) && last == Effect(w, p, step)
    ensures Leads(w, p, [step], last)
  {
    hide Enabled;
    hide Effect;
    assert [step][1..] == [];
  }

  lemma {:induction false} LeadsTwo(w: World, p: Pid, first: Step, second: Step, next: World, last: World)
    requires Enabled(w, p, first) && next == Effect(w, p, first)
    requires Enabled(next, p, second) && last == Effect(next, p, second)
    ensures Leads(w, p, [first, second], last)
  {
    hide Enabled;
    hide Effect;
    LeadsOne(next, p, second, last);
    assert [first, second][1..] == [second];
  }

  /* ---------- a complete pass of the reaper ---------- */

  predicate ReapStep(step: Step) {
    step.ReapOpen? || step.ReapMissing? || step.ReapTryLock? || step.ReapBusy? || step.ReapRemovePart?
    || step.ReapRemoveRoot? || step.ReapDrop? || step.ReapRemoveOwner?
  }

  predicate Visits(step: Step, token: Token) {
    step == ReapOpen(token) || step == ReapMissing(token)
  }

  /** Between `i` and `m` process `p` looks at the owner file of `token`. */
  ghost predicate Visited(events: seq<Event>, p: Pid, i: nat, m: nat, token: Token) {
    exists k :: i < k < m && k < |events| && events[k].pid == p && Visits(events[k].step, token)
  }

  /** From `i` to `j` process `p` goes through all owner files it found at the start, without an error. What the other
      processes do meanwhile is arbitrary. */
  ghost predicate Pass(events: seq<Event>, states: seq<World>, p: Pid, i: nat, j: nat)
    requires |states| == |events| + 1
  {
    && i < j < |events| && events[i] == Event(p, StartReap) && events[j] == Event(p, ReapDone)
    && (forall k :: i < k < j && events[k].pid == p ==> ReapStep(events[k].step))
    && (forall token :: token in states[i].owners ==> Visited(events, p, i, j, token))
  }

  ghost predicate Owned(w: World, token: Token) {
    exists q, s :: Live(w, q, s) && s.token == token
  }

  predicate InPass(phase: Phase) {
    phase.Reaping? || phase.ReapOpened? || phase.ReapLocked? || phase.ReapEmptied? || phase.ReapDropped?
  }

  /** The reaper stands before the decision on this token's root. */
  predicate Pending(phase: Phase, token: Token) {
    (phase.ReapOpened? || phase.ReapLocked?) && phase.token == token
  }

  /** A visited token has lost its root, had a live owner when the pass began, or is being dealt with. */
  ghost predicate Settled(start: World, w: World, p: Pid, token: Token) {
    token !in w.roots || Owned(start, token) || Pending(PhaseOf(w, p), token)
  }

  /** During a pass nothing new appears. */
  ghost predicate During(start: World, w: World, p: Pid) {
    && Invariant(w) && InPass(PhaseOf(w, p))
    && (forall token :: token in w.owners ==> token in start.owners)
    && (forall q, s :: Live(w, q, s) ==> Live(start, q, s))
  }

  /** Who is outside can only write below its own root or stop. */
  lemma {:induction false} OutsideSteps(w: World, p: Pid, q: Pid, step: Step)
    requires Invariant(w) && InPass(PhaseOf(w, p)) && q != p && Enabled(w, q, step)
    ensures step.Write? || step.Discard? || step.Stop?
  {
    assert PhaseOf(w, p) != Idle && PhaseOf(w, q) == Idle;
  }

  lemma {:induction false} OutsideKeeps(start: World, w: World, p: Pid, q: Pid, step: Step)
    requires During(start, w, p) && q != p && Enabled(w, q, step)
    ensures During(start, Effect(w, q, step), p)
    ensures forall token :: Settled(start, w, p, token) ==> Settled(start, Effect(w, q, step), p, token)
  {
    OutsideSteps(w, p, q, step);
    StepKeeps(w, q, step);
    OutsideFrame(w, p, q, step);
    hide Invariant;
    hide Effect;
    hide Enabled;
    hide InPass;
    hide Live;
    hide PhaseOf;
  }

  lemma {:induction false} OutsideFrame(w: World, p: Pid, q: Pid, step: Step)
    requires Enabled(w, q, step) && q != p && (step.Write? || step.Discard? || step.Stop?)
    ensures PhaseOf(Effect(w, q, step), p) == PhaseOf(w, p)
    ensures Effect(w, q, step).owners == w.owners && Effect(w, q, step).roots.Keys == w.roots.Keys
    ensures forall r, s :: Live(Effect(w, q, step), r, s) ==> Live(w, r, s)
  {
  }

  /** A locked owner file belongs to a live store, unless the process inside holds it itself. */
  lemma {:induction false} BusyOwned(w: World, p: Pid)
    requires Invariant(w) && Enabled(w, p, ReapBusy)
    ensures Owned(w, PhaseOf(w, p).token)
  {
    InsideHolds(w, p);
    var f := PhaseOf(w, p).file;
    var q := w.locks[f];
    assert Held(w, f, q);
    assert q != p ==> PhaseOf(w, q) == Idle;
    var s :| Live(w, q, s) && s.owner == f;
    assert Kept(w, q, s);
  }

  lemma {:induction false} ReapFrame(w: World, p: Pid, step: Step)
    requires ReapStep(step) && Enabled(w, p, step)
    ensures InPass(PhaseOf(Effect(w, p, step), p)) && Effect(w, p, step).stores == w.stores
    ensures forall token :: token in Effect(w, p, step).owners ==> token in w.owners
  {
  }

  lemma {:induction false} RunStep(events: seq<Event>, states: seq<World>, k: nat)
    requires Run(events, states) && k < |events|
    ensures k + 1 < |states| && Enabled(states[k], events[k].pid, events[k].step)
    ensures states[k + 1] == Effect(states[k], events[k].pid, events[k].step)
  {
  }

  lemma {:induction false} DuringKeeps(start: World, w: World, p: Pid, step: Step)
    requires During(start, w, p) && ReapStep(step) && Enabled(w, p, step)
    ensures During(start, Effect(w, p, step), p)
  {
    StepKeeps(w, p, step);
    ReapFrame(w, p, step);
    hide Invariant;
    hide Effect;
    hide Enabled;
    hide InPass;
  }

  lemma {:induction false} InsideKeeps(start: World, w: World, p: Pid, step: Step)
    requires During(start, w, p) && ReapStep(step) && Enabled(w, p, step)
    ensures During(start, Effect(w, p, step), p)
    ensures forall token :: Settled(start, w, p, token) || Visits(step, token) ==>
      Settled(start, Effect(w, p, step), p, token)
  {
    DuringKeeps(start, w, p, step);
    hide During;
    hide Effect;
    hide Enabled;
    hide Settled;
    var w' := Effect(w, p, step);
    forall token | Settled(start, w, p, token) || Visits(step, token)
      ensures Settled(start, w', p, token)
    {
      SettledStep(start, w, p, step, token);
    }
  }

  lemma {:induction false} SettledStep(start: World, w: World, p: Pid, step: Step, token: Token)
    requires During(start, w, p) && ReapStep(step) && Enabled(w, p, step)
    requires Settled(start, w, p, token) || Visits(step, token)
    ensures Settled(start, Effect(w, p, step), p, token)
  {
    assert token in w.roots ==> token in w.owners;
    if step.ReapBusy? {
      BusyOwned(w, p);
      assert Owned(start, PhaseOf(w, p).token);
    }
    hide During;
    hide Owned;
    SettledFrame(start, w, p, step, token);
  }

  lemma {:induction false} SettledFrame(start: World, w: World, p: Pid, step: Step, token: Token)
    requires ReapStep(step) && Enabled(w, p, step) && (token in w.roots ==> token in w.owners)
    requires step.ReapBusy? ==> Owned(start, PhaseOf(w, p).token)
    requires Settled(start, w, p, token) || Visits(step, token)
    ensures Settled(start, Effect(w, p, step), p, token)
  {
    hide Owned;
  }

  lemma {:induction false} PassNext(start: World, w: World, p: Pid, e: Event)
    requires During(start, w, p) && Enabled(w, e.pid, e.step) && (e.pid == p ==> ReapStep(e.step))
    ensures During(start, Effect(w, e.pid, e.step), p)
    ensures forall token :: Settled(start, w, p, token) || (e.pid == p && Visits(e.step, token)) ==>
      Settled(start, Effect(w, e.pid, e.step), p, token)
  {
    hide During;
    hide Settled;
    hide Effect;
    hide Enabled;
    if e.pid == p {
      InsideKeeps(start, w, p, e.step);
    } else {
      OutsideKeeps(start, w, p, e.pid, e.step);
    }
  }

  lemma {:induction false} VisitedNext(events: seq<Event>, p: Pid, i: nat, m: nat, token: Token)
    requires m < |events| && Visited(events, p, i, m + 1, token)
    ensures Visited(events, p, i, m, token) || (i < m && events[m].pid == p && Visits(events[m].step, token))
  {
  }

  lemma {:induction false} PassHolds(events: seq<Event>, states: seq<World>, p: Pid, i: nat, j: nat, m: nat)
    requires Run(events, states) && Pass(events, states, p, i, j) && i < m <= j
    ensures During(states[i], states[m], p)
    ensures forall token :: Visited(events, p, i, m, token) ==> Settled(states[i], states[m], p, token)
    decreases m
  {
    var k := m - 1;
    RunKeeps(events, states, k);
    RunStep(events, states, k);
    hide During;
    hide Settled;
    hide Effect;
    hide Enabled;
    hide Invariant;
    if k == i {
      PassStarts(states[i], p);
    } else {
      PassHolds(events, states, p, i, j, k);
      assert events[k].pid == p ==> ReapStep(events[k].step);
      hide Run;
      hide Pass;
      PassNext(states[i], states[k], p, events[k]);
      forall token | Visited(events, p, i, m, token)
        ensures Settled(states[i], states[m], p, token)
      {
        VisitedNext(events, p, i, k, token);
      }
    }
  }

  lemma {:induction false} PassStarts(w: World, p: Pid)
    requires Invariant(w) && Enabled(w, p, StartReap)
    ensures During(w, Effect(w, p, StartReap), p)
  {
    StepStartReapKeeps(w, p);
    hide Invariant;
    assert forall q, s :: Live(Effect(w, p, StartReap), q, s) <==> Live(w, q, s);
  }

  /** A live store lives on while its process does not stop. */
  lemma {:induction false} LivesOn(events: seq<Event>, states: seq<World>, i: nat, m: nat, q: Pid, s: Store)
    requires Run(events, states) && i <= m < |states| && Live(states[i], q, s)
    requires forall k :: i <= k < m ==> !(events[k].pid == q && events[k].step.Stop?)
    ensures Live(states[m], q, s)
    decreases m
  {
    if i < m {
      hide Run;
      assert Run(events, states);
      LivesOn(events, states, i, m - 1, q, s);
      LiveStoresSafe(events, states, m - 1, q, s);
    }
  }

  /** A complete pass of the reaper leaves no root but those whose store was alive when it began, and such a store is
      still alive when it ends, unless its own process stopped meanwhile. */
  lemma {:induction false} PassLeavesOwned(events: seq<Event>, states: seq<World>, p: Pid, i: nat, j: nat, token: Token)
    returns (q: Pid, s: Store)
    requires Run(events, states) && Pass(events, states, p, i, j) && token in states[j + 1].roots
    ensures Live(states[i], q, s) && s.token == token
    ensures Live(states[j + 1], q, s) || exists k :: i <= k <= j && events[k] == Event(q, Stop)
  {
    PassHolds(events, states, p, i, j, j);
    assert Enabled(states[j], p, ReapDone) && states[j + 1] == Effect(states[j], p, ReapDone);
    assert states[j].roots == states[j + 1].roots;
    assert token in states[j].owners;
    assert Visited(events, p, i, j, token);
    assert Settled(states[i], states[j], p, token);
    q, s :| Live(states[i], q, s) && s.token == token;
    if forall k :: i <= k <= j ==> events[k] != Event(q, Stop) {
      LivesOn(events, states, i, j + 1, q, s);
    }
  }
}
