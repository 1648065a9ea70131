/** kernel/proc.c behind the system-call gate of kernel/syscall.c: processes run to completion, nested to any depth. */
module Proc {
  import opened Bytes
  import opened ProcTable
  import Elf
  import MemCtx
  import MemHeap
  import MemSums
  import MemWrap

  const STACK_SIZE := 4096
  const ERR_NOT_FOUND := -3
  const ERR_NOMEM := -12
  const ERR_PROTECTED := -13
  const ERR_INVALID_STATE := -22

  /** What a file can hold: at most a quarter of the address space. */
  type Contents = s: seq<byte> | |s| < 0x4000_0000_0000_0000 witness []

  /** What the path of a spawn names: nothing runnable, or a file that may fail to be read in full. */
  datatype Target = NoFile | File(bytes: Contents, readable: bool)

  /** What an image does: any finite list of system calls; a spawned image does the same in its turn. */
  datatype Program =
    | Halt
    | Exit(status: int, rest: Program)
    | Kill(pid: int, status: int, rest: Program)
    | Wait(pid: int, rest: Program)
    | Spawn(target: Target, body: Program, rest: Program)

  datatype Image = Image(base: nat, size: nat, requested: Elf.Range, entry: nat)

  // ----- what a run does, as a relation between states

  datatype KState = KState(procs: seq<Entry>, nextPid: nat, current: nat, panicked: bool, ledger: MemCtx.Ledger,
                           room: MemWrap.Room)

  /** proc_set_current: the old current process is READY again and pid RUNNING; nothing happens unless pid lives. */
  ghost predicate Switches(s: KState, pid: int, m: KState) {
    if Alive(s.procs, pid) then
      pid >= 0 && Demoted(s.procs, m.procs, s.current, pid) && m == s.(procs := m.procs, current := pid)
    else m == s
  }

  /** proc_exit: a living process leaves; pid 1 may not. */
  ghost predicate Exits(s: KState, pid: int, status: int, m: KState) {
    if !Alive(s.procs, pid) then m == s
    else if pid == 1 then m == s.(panicked := true)
    else
      && Departed(s.procs, m.procs, pid, status)
      && m == s.(procs := m.procs, current := if s.current == pid then 0 else s.current)
  }

  /** proc_wait: an exited child goes, with its memory. */
  ghost predicate Waits(s: KState, parent: nat, child: int, m: KState) {
    if exists i :: Waitable(s.procs, i, parent, child)
    then exists i :: Waitable(s.procs, i, parent, child)
                     && m == s.(procs := s.procs[i := NO_PROC], ledger := MemCtx.Without(s.ledger, s.procs[i].memctx),
                                room := s.room.(free := m.room.free))
    else m == s
  }

  ghost predicate Vacant(procs: seq<Entry>) { exists i :: 0 <= i < |procs| && !procs[i].used }
  ghost predicate Spare(contexts: seq<MemCtx.Context>) { exists c :: 0 <= c < |contexts| && !contexts[c].active }

  /** A spawn fails with -1: no parent, nothing to run, or a file that is not read into the buffer it got. */
  ghost predicate Refuses(s: KState, parent: nat, target: Target) {
    || !Has(s.procs, parent) || target.NoFile? || |target.bytes| == 0
    || (&& !target.readable && Vacant(s.procs) && Spare(s.ledger.contexts) && MemCtx.HasSpareRow(s.ledger.rows)
        && !s.room.Lacks(MemWrap.Needed(|target.bytes|)))
  }

  /** The bytes an image takes, those of a stack, and those of file, image and stack together. */
  function Taken(r: Elf.Range): nat { MemWrap.Needed(Span(r)) }

  function Stack(): nat { MemWrap.Needed(4096) }

  function Demand(file: Contents, r: Elf.Range): nat {
    MemWrap.Needed(|file|) + (Taken(r) + Stack())
  }

  /** There is a file to run and room for everything it takes. */
  ghost predicate Welcomes(s: KState, parent: nat, target: Target, r: Elf.Range) {
    && Has(s.procs, parent) && target.File? && target.readable && Elf.Valid(target.bytes, r)
    && Vacant(s.procs) && Spare(s.ledger.contexts) && MemCtx.SpareRows(s.ledger.rows) >= 3
    && MemWrap.HasRoom(s.room.ends, Demand(target.bytes, r))
  }

  /** The pid counter moves once a slot for the process is found. */
  ghost predicate Counts(s: KState, parent: nat, target: Target) {
    Has(s.procs, parent) && target.File? && |target.bytes| != 0 && Vacant(s.procs)
  }

  /** The first half of a spawn: pid is staged with an image, or only the pid counter and the heap have moved. */
  ghost predicate Stages(s: KState, parent: nat, target: Target, m: KState, pid: int) {
    && (pid == -1 <==> Refuses(s, parent, target)) && (pid < -1 ==> pid == ERR_NOMEM)
    && (forall r :: Welcomes(s, parent, target, r) ==> pid >= 0)
    && m.nextPid == s.nextPid + (if Counts(s, parent, target) then 1 else 0)
    && if pid < 0 then m == s.(nextPid := m.nextPid, room := m.room)
       else
         && pid == s.nextPid && m == s.(procs := m.procs, nextPid := s.nextPid + 1, ledger := m.ledger, room := m.room)
         && target.File? && target.readable && exists i ::
           Loaded(s.procs, m.procs, i, pid, parent, target.bytes) && Backed(m.ledger, m.procs[i])
           && MemCtx.Without(m.ledger, m.procs[i].memctx) == s.ledger
  }

  /** The tail of proc_start_flat. */
  ghost predicate Finishes(s: KState, pid: int, previous: nat, m: KState) {
    exists e :: Exits(s, pid, 0, e) &&
      if !e.panicked && previous != 0 && previous != pid && Has(e.procs, previous) then Switches(e, previous, m)
      else m == e
  }

  /** proc_start_flat of a startable process. */
  ghost predicate Starts(s: KState, pid: int, body: Program, m: KState)
    decreases body, 2
  {
    exists a, b ::
      && Switches(s, pid, a) && Runs(body, a, b)
      && if b.panicked then m == b else Finishes(b, pid, s.current, m)
  }

  ghost predicate Spawns(s: KState, parent: nat, target: Target, body: Program, m: KState)
    decreases body, 3
  {
    exists a, pid :: Stages(s, parent, target, a, pid) && if pid < 0 then m == a else Starts(a, pid, body, m)
  }

  /** One system call of an image. */
  ghost predicate Calls(p: Program, s: KState, m: KState)
    decreases p, 0
  {
    if s.current == 0 then m == s
    else match p
      case Halt => m == s
      case Exit(status, _) => Exits(s, s.current, status, m)
      case Kill(pid, status, _) => if pid <= 1 then m == s else Exits(s, pid, status, m)
      case Wait(pid, _) => Waits(s, s.current, pid, m)
      case Spawn(target, body, _) => Spawns(s, s.current, target, body, m)
  }

  /** The system calls of an image one after the other, until it ends or the kernel panics. */
  ghost predicate Runs(p: Program, s: KState, m: KState)
    decreases p, 1
  {
    if p.Halt? then m == s
    else exists a :: Calls(p, s, a) && if a.panicked then m == a else Runs(p.rest, a, m)
  }

  class Kernel {
    const ctxs: MemCtx.Contexts
    var procs: seq<Entry>
    var nextPid: nat
    var current: nat
    var panicked: bool

    ghost predicate Valid()
      reads this, ctxs, ctxs.heap
    {
      ctxs.Valid() && ctxs.heap.Low() && Table(procs, nextPid, current, ctxs.contexts)
    }

    ghost function Now(): KState
      reads this, ctxs, ctxs.heap
    {
      KState(procs, nextPid, current, panicked, ctxs.Snapshot(), ctxs.heap.Shape())
    }

    ghost predicate Tree()
      reads this
    {
      Rooted(procs)
    }

    constructor Init(c: MemCtx.Contexts)
      requires c.Valid() && c.heap.Low()
      ensures Valid() && Tree() && ctxs == c && !panicked && current == 0 && nextPid == 1
      ensures forall q :: !Has(procs, q)
    {
      hide MemCtx.Contexts.Valid;
      ctxs := c;
      procs := seq(PROC_MAX, _ => NO_PROC);
      nextPid := 1;
      current := 0;
      panicked := false;
    }

    method FindProc(pid: int) returns (i: int)
      requires |procs| == PROC_MAX
      ensures -1 <= i < PROC_MAX
      ensures i == -1 <==> !Has(procs, pid)
      ensures i != -1 ==> Is(procs, i, pid)
    {
      i := 0;
      while i < PROC_MAX
        invariant 0 <= i <= PROC_MAX
        invariant forall j :: 0 <= j < i ==> !Is(procs, j, pid)
      {
        if procs[i].used && procs[i].pid == pid {
          assert Is(procs, i, pid);
          return;
        }
        i := i + 1;
      }
      i := -1;
    }

    method FreeSlot() returns (i: int)
      requires |procs| == PROC_MAX
      ensures -1 <= i < PROC_MAX
      ensures i == -1 <==> forall j :: 0 <= j < PROC_MAX ==> procs[j].used
      ensures i != -1 ==> !procs[i].used
    {
      i := 0;
      while i < PROC_MAX
        invariant 0 <= i <= PROC_MAX
        invariant forall j :: 0 <= j < i ==> procs[j].used
      {
        if !procs[i].used {
          return;
        }
        i := i + 1;
      }
      i := -1;
    }

    /** proc_create. The tree survives exactly when the parent is no terminal process. */
    method Create(parent: nat) returns (r: int)
      requires Valid()
      modifies this`procs, this`nextPid, ctxs`contexts, ctxs`nextId
      ensures Valid()
      ensures r < 0 ==> procs == old(procs) && ctxs.Snapshot() == old(ctxs.Snapshot())
      ensures r < 0 ==> r == -1 || r == ERR_NOMEM
      ensures r == -1 <==> (if parent == 0 then old(nextPid) != 1 else !Has(old(procs), parent))
      ensures r == ERR_NOMEM <==> r != -1 && !(Vacant(old(procs)) && Spare(old(ctxs.contexts)))
      ensures nextPid == old(nextPid) + if r != -1 && Vacant(old(procs)) then 1 else 0
      ensures r >= 0 ==> r == old(nextPid)
      ensures r >= 0 ==> exists i, ctx ::
                Placed(old(procs), procs, i, r, parent, ctx) && MemCtx.Unlimited(ctxs.contexts, ctx) &&
                  MemCtx.Known(ctxs.contexts, ctx) && MemCtx.Without(ctxs.Snapshot(), ctx) == old(ctxs.Snapshot())
      ensures r >= 0 && old(Tree()) ==> (Tree() <==> parent == 0 || Alive(old(procs), parent))
    {
      hide Named, Scheduled, Housed, Rooted, MemCtx.Contexts.Valid, MemCtx.Without, MemCtx.Known, Has, Alive;
      TableSize(procs, nextPid, current, ctxs.contexts);
      var p := FindProc(parent);
      if parent != 0 && p == -1 {
        return -1;
      }
      if parent == 0 && nextPid != 1 {
        return -1;
      }
      var i := FreeSlot();
      if i == -1 {
        return ERR_NOMEM;
      }
      var pid := nextPid;
      ghost var contexts := ctxs.contexts;
      FreeEntry(procs, nextPid, i);
      NextPid(procs, nextPid, current, contexts);
      nextPid := nextPid + 1;
      var ctx := ctxs.Create(pid, 0);
      if ctx < 0 {
        return ERR_NOMEM;
      }
      Created(procs, pid, current, contexts, i, parent, ctx, ctxs.contexts);
      procs := procs[i := NewEntry(pid, parent, ctx)];
      if old(Tree()) {
        CreatedTree(old(procs), pid, i, parent, ctx);
      }
      assert Placed(old(procs), procs, i, pid, parent, ctx);
      return pid;
    }

    /** proc_set_current. */
    method SetCurrent(pid: int) returns (r: int)
      requires Valid()
      modifies this`procs, this`current
      ensures Valid() && (old(Tree()) ==> Tree())
      ensures r == if Alive(old(procs), pid) then 0 else -1
      ensures Switches(old(Now()), pid, Now())
      ensures r == -1 ==> procs == old(procs) && current == old(current)
      ensures r == 0 ==> current == pid && Demoted(old(procs), procs, old(current), pid)
      ensures forall q :: Has(procs, q) <==> Has(old(procs), q)
      ensures forall q :: Alive(procs, q) <==> Alive(old(procs), q)
    {
      hide Named, Scheduled, Housed, Rooted, Demoted, MemCtx.Contexts.Valid, Has, Alive;
      TableSize(procs, nextPid, current, ctxs.contexts);
      var i := FindProc(pid);
      if i == -1 {
        NotAlive(procs, pid);
        return -1;
      }
      AliveIs(procs, nextPid, i, pid);
      if Terminal(procs[i].state) {
        return -1;
      }
      var o := -1;
      if current != 0 {
        o := FindProc(current);
        CurrentIs(procs, current);
      }
      SwitchedTable(procs, nextPid, current, ctxs.contexts, o, i, pid);
      SwitchedIs(procs, nextPid, current, o, i, pid);
      if o != -1 && procs[o].state == Running {
        procs := procs[o := procs[o].(state := Ready)];
      }
      current := pid;
      procs := procs[i := procs[i].(state := Running)];
      assert procs == Switched(old(procs), o, i);
      return 0;
    }

    /** proc_current_valid, the gate in front of the system calls. */
    method CurrentValid() returns (ok: bool)
      requires Valid()
      ensures ok <==> current != 0
    {
      TableSize(procs, nextPid, current, ctxs.contexts);
      var i := FindProc(current);
      ok := i != -1 && current > 0 && procs[i].state == Running;
      if current != 0 {
        var j :| Is(procs, j, current) && procs[j].state == Running;
        OneEntry(procs, nextPid, i, j, current);
      }
    }

    /** proc_exit_locked and proc_exit; closing the descriptors is not modelled. */
    method ExitLocked(pid: int, status: int) returns (r: int)
      requires Valid() && Tree() && !panicked
      modifies this
      ensures Valid() && Tree() && nextPid == old(nextPid)
      ensures r == if !Has(old(procs), pid) then ERR_NOT_FOUND
                   else if !Alive(old(procs), pid) then ERR_INVALID_STATE else 0
      ensures Exits(old(Now()), pid, status, Now())
      ensures panicked <==> pid == 1 && r == 0
      ensures r != 0 || panicked ==> procs == old(procs) && current == old(current)
      ensures r == 0 && !panicked ==> current == if old(current) == pid then 0 else old(current)
      ensures r == 0 && !panicked ==> Departed(old(procs), procs, pid, status)
      ensures forall q :: Has(procs, q) <==> Has(old(procs), q)
      ensures forall q :: Alive(procs, q) <==> Alive(old(procs), q) && !(r == 0 && !panicked && q == pid)
    {
      hide Named, Scheduled, Housed, Rooted, MemCtx.Contexts.Valid, Has, Alive;
      TableSize(procs, nextPid, current, ctxs.contexts);
      var i := FindProc(pid);
      if i == -1 {
        NotAlive(procs, pid);
        return ERR_NOT_FOUND;
      }
      AliveIs(procs, nextPid, i, pid);
      if Terminal(procs[i].state) {
        return ERR_INVALID_STATE;
      }
      if pid == 1 {
        panicked := true;
        return 0;
      }
      LeftIs(procs, nextPid, i, pid, status);
      LeftTable(procs, nextPid, current, ctxs.contexts, i, pid, status);
      LeftTree(procs, nextPid, i, pid, status);
      LeftHas(procs, nextPid, i, pid, status);
      var j := 0;
      while j < PROC_MAX
        invariant 0 <= j <= PROC_MAX && |procs| == PROC_MAX
        invariant procs == Reparented(old(procs), pid, j)
        invariant current == old(current) && nextPid == old(nextPid) && !panicked
      {
        if procs[j].used && procs[j].parent == pid {
          procs := procs[j := procs[j].(parent := 1)];
        }
        j := j + 1;
      }
      procs := procs[i := procs[i].(status := status, state := Exited)];
      assert procs == Left(old(procs), i, pid, status);
      if current == pid {
        current := 0;
      }
      return 0;
    }

    /** proc_wait: an exited child leaves the table and takes its memory with it. */
    method Wait(parent: nat, child: int) returns (r: int, status: int)
      requires Valid() && Tree()
      modifies this`procs, ctxs, ctxs.heap
      ensures Valid() && Tree()
      ensures r == -1 || (r == child && r > 0)
      ensures Waits(old(Now()), parent, child, Now())
      ensures r != -1 <==> exists i :: Waitable(old(procs), i, parent, child)
      ensures r == -1 ==> procs == old(procs) && ctxs.Snapshot() == old(ctxs.Snapshot())
      ensures r != -1 ==> exists i ::
                && Waitable(old(procs), i, parent, child) && status == old(procs)[i].status &&
                  procs == old(procs)[i := NO_PROC]
                && ctxs.Snapshot() == MemCtx.Without(old(ctxs.Snapshot()), old(procs)[i].memctx)
      ensures r != -1 ==> forall j :: 0 <= j < PROC_MAX && procs[j].used ==> procs[j].parent != child
      ensures forall q :: Has(procs, q) <==> Has(old(procs), q) && q != r
      ensures forall q :: Alive(procs, q) <==> Alive(old(procs), q)
    {
      hide Scheduled, Housed, Rooted, MemCtx.Contexts.Valid, MemCtx.Without, MemCtx.Known, Has, Alive;
      status := 0;
      var i := FindProc(child);
      HasPositive(procs, nextPid, -1);
      if i == -1 {
        NotWaitable(procs, parent, child);
        return -1, status;
      }
      if procs[i].parent != parent || procs[i].state != Exited {
        WaitableIs(procs, nextPid, i, parent, child);
        return -1, status;
      }
      assert Waitable(procs, i, parent, child);
      AliveIs(procs, nextPid, i, child);
      Childless(procs, nextPid, i, child);
      RemovedHas(procs, nextPid, i, child);
      RemovedTree(procs, nextPid, i, child);
      HousedIs(procs, ctxs.contexts, i);
      status := procs[i].status;
      ghost var contexts := ctxs.contexts;
      var d := ctxs.Destroy(procs[i].memctx);
      Removed(procs, nextPid, current, contexts, i, child, ctxs.contexts);
      procs := procs[i := NO_PROC];
      r := child;
    }

    /** proc_kill. */
    method KillProc(pid: int, status: int) returns (r: int)
      requires Valid() && Tree() && !panicked
      modifies this
      ensures Valid() && Tree() && nextPid == old(nextPid) && !panicked
      ensures if pid <= 1 then Now() == old(Now()) else Exits(old(Now()), pid, status, Now())
      ensures r == if pid == 1 then ERR_PROTECTED
                   else if !Has(old(procs), pid) then ERR_NOT_FOUND
                   else if !Alive(old(procs), pid) then ERR_INVALID_STATE else 0
      ensures r != 0 ==> procs == old(procs) && current == old(current)
      ensures r == 0 ==> current == if old(current) == pid then 0 else old(current)
      ensures r == 0 ==> Departed(old(procs), procs, pid, status)
      ensures forall q :: Has(procs, q) <==> Has(old(procs), q)
      ensures forall q :: Alive(procs, q) <==> Alive(old(procs), q) && !(r == 0 && q == pid)
    {
      hide Scheduled, Housed, Rooted, MemCtx.Contexts.Valid, Has, Alive;
      if pid <= 0 {
        HasPositive(procs, nextPid, pid);
        return ERR_NOT_FOUND;
      }
      if pid == 1 {
        return ERR_PROTECTED;
      }
      var i := FindProc(pid);
      if i == -1 {
        NotAlive(procs, pid);
        return ERR_NOT_FOUND;
      }
      AliveIs(procs, nextPid, i, pid);
      if Terminal(procs[i].state) {
        return ERR_INVALID_STATE;
      }
      r := ExitLocked(pid, status);
    }

    /** proc_alloc: memory out of the process's own context. */
    method ProcAlloc(pid: int, size: nat) returns (p: nat)
      requires Valid() && forall i :: Is(procs, i, pid) && ctxs.Reaches(procs[i].memctx, size) ==>
                 ctxs.heap.CanServe(size)
      modifies ctxs, ctxs.heap
      ensures Valid()
      ensures p == 0 <==> forall i :: Is(procs, i, pid) ==> old(ctxs.Refused(procs[i].memctx, size))
      ensures p == 0 ==> ctxs.Snapshot() == old(ctxs.Snapshot())
      ensures p != 0 ==> Has(procs, pid) && p in ctxs.heap.Allocations() && ctxs.heap.Allocations()[p] >= size > 0
      ensures forall i :: Is(procs, i, pid) ==> Unmoved(old(ctxs.Snapshot()), ctxs.Snapshot(), procs[i].memctx)
      ensures forall i :: Is(procs, i, pid) && p != 0 ==> Holds(ctxs.Snapshot(), procs[i].memctx, p, size)
      ensures forall i, q, n :: Is(procs, i, pid) && Holds(old(ctxs.Snapshot()), procs[i].memctx, q, n) ==>
                Holds(ctxs.Snapshot(), procs[i].memctx, q, n)
      ensures forall i, k: nat, n: nat ::
                Is(procs, i, pid) && p != 0 && old(ctxs.Affords(procs[i].memctx, k + 1, MemWrap.Needed(size) + n)) ==>
                  ctxs.Affords(procs[i].memctx, k, n)
    {
      hide Scheduled, Housed, MemCtx.Contexts.Valid, MemCtx.Without, MemCtx.Known, MemCtx.OwnedPtrs;
      hide MemHeap.Heap.Allocations, MemHeap.Heap.CanServe, Has;
      p := 0;
      var i := FindProc(pid);
      if i == -1 {
        NotIs(procs, pid);
        return;
      }
      ghost var id, l, room := procs[i].memctx, ctxs.Snapshot(), ctxs.heap.Shape();
      EndsOk(ctxs);
      p := ctxs.Alloc(procs[i].memctx, size);
      SameKnown(procs, l.contexts, ctxs.contexts);
      forall j | Is(procs, j, pid) ensures j == i { OneEntry(procs, nextPid, i, j, pid); }
      if p != 0 {
        ghost var slot :| 0 <= slot < |l.rows| && l.rows[slot] == MemCtx.NO_ROW
          && ctxs.rows == l.rows[slot := MemCtx.Row(p, size, id)];
        ghost var c :| 0 <= c < |l.contexts| && MemCtx.Charged(l.contexts, ctxs.contexts, c, id, size);
        Afforded(l, ctxs.Snapshot(), room, slot, c, p, id, size);
      }
    }

    /** proc_free. */
    method ProcFree(pid: int, ptr: nat) returns (r: int)
      requires Valid()
      modifies ctxs, ctxs.heap
      ensures Valid()
      ensures forall i :: Is(procs, i, pid) ==> Unmoved(old(ctxs.Snapshot()), ctxs.Snapshot(), procs[i].memctx)
      ensures r == -1 ==> ctxs.Snapshot() == old(ctxs.Snapshot())
      ensures r != -1 ==> ctxs.heap.Allocations() == old(ctxs.heap.Allocations()) - {ptr}
      ensures r != -1 <==> exists i :: Is(procs, i, pid) && ptr in MemCtx.OwnedPtrs(old(ctxs.rows), procs[i].memctx)
    {
      hide Scheduled, Housed, MemCtx.Contexts.Valid, MemCtx.Without, MemCtx.Known, MemCtx.OwnedPtrs;
      hide MemHeap.Heap.Allocations, MemHeap.Heap.CanServe, Has;
      var i := FindProc(pid);
      if i == -1 {
        NotIs(procs, pid);
        return -1;
      }
      ghost var contexts := ctxs.contexts;
      OwnedNonzero(ctxs.rows, procs[i].memctx);
      r := ctxs.Free(procs[i].memctx, ptr);
      SameKnown(procs, contexts, ctxs.contexts);
      forall j | Is(procs, j, pid) ensures j == i { OneEntry(procs, nextPid, i, j, pid); }
    }

    /** The failure path of proc_spawn_exec: destroy the context, blank the entry. */
    method Rollback(pid: int, ghost was: seq<Entry>, ghost i: int)
      requires Valid() && Staged(was, procs, i, pid)
      modifies this`procs, ctxs, ctxs.heap
      ensures Valid() && procs == was
      ensures ctxs.Snapshot() == old(MemCtx.Without(ctxs.Snapshot(), procs[i].memctx))
    {
      hide Scheduled, Housed, MemCtx.Contexts.Valid, MemCtx.Without, MemCtx.Known, Has;
      var j := FindProc(pid);
      StagedHas(was, procs, i, pid);
      OneEntry(procs, nextPid, i, j, pid);
      HousedIs(procs, ctxs.contexts, i);
      ghost var contexts := ctxs.contexts;
      var d := ctxs.Destroy(procs[j].memctx);
      Removed(procs, nextPid, current, contexts, i, pid, ctxs.contexts);
      procs := procs[j := NO_PROC];
    }

    /** elf_load_process_image: the image is laid out in memory of the process's own context. */
    method LoadImage(pid: int, file: Contents) returns (ok: bool, image: Image, bytes: seq<byte>)
      requires Valid()
      modifies ctxs, ctxs.heap
      ensures Valid()
      ensures forall i :: Is(procs, i, pid) ==> Unmoved(old(ctxs.Snapshot()), ctxs.Snapshot(), procs[i].memctx)
      ensures ok ==> Elf.Valid(file, image.requested) && image.base != 0 && Fits(file, image)
      ensures ok ==> image.base in ctxs.heap.Allocations() && ctxs.heap.Allocations()[image.base] >= image.size
      ensures ok ==> |bytes| == image.size && ImageOf(file, image.requested, bytes)
      ensures !ok ==> ctxs.Snapshot() == old(ctxs.Snapshot())
      ensures ok <==>
                exists r, i :: Elf.Valid(file, r) && Is(procs, i, pid) && !old(ctxs.Refused(procs[i].memctx, Span(r)))
      ensures forall i :: Is(procs, i, pid) && ok ==> Holds(ctxs.Snapshot(), procs[i].memctx, image.base, image.size)
      ensures forall i, k: nat, n: nat ::
                Is(procs, i, pid) && ok && old(ctxs.Affords(procs[i].memctx, k + 1, Taken(image.requested) + n)) ==>
                  ctxs.Affords(procs[i].memctx, k, n)
    {
      hide Scheduled, MemCtx.Contexts.Refused, MemCtx.Contexts.Reaches, Housed, Elf.Valid, Elf.Phdrs, Elf.HeaderOk;
      hide Elf.ImageByte, MemCtx.Contexts.Valid, MemCtx.Without, MemCtx.Known, MemCtx.OwnedPtrs;
      hide MemHeap.Heap.Allocations, MemHeap.Heap.CanServe, Has, MemCtx.Contexts.Affords, Holds, MemWrap.Needed;
      ok, image, bytes := false, Image(0, 0, Elf.Range(0, 0), 0), [];
      var r := Elf.Examine(file);
      if r.None? {
        return;
      }
      ValidRange(file, r.value);
      Elf.ValidOnce(file, r.value);
      var range := r.value;
      var size := range.max - range.min;
      Servable(ctxs, size);
      var base := ProcAlloc(pid, size);
      if base == 0 {
        return;
      }
      var memory := new byte[size];
      var loaded := Elf.Load(file, memory, range);
      ok, image, bytes := true, Image(base, size, range, base + (Elf.Entry(file) - range.min)), memory[..];
    }

    /** proc_attach_image: record the image and give the process a stack. */
    method AttachImage(pid: int, image: Image) returns (r: int)
      requires Valid()
      modifies this`procs, ctxs, ctxs.heap
      ensures Valid() && (old(Tree()) ==> Tree())
      ensures r == 0 || r == -1
      ensures !Has(old(procs), pid) ==> r == -1 && procs == old(procs)
      ensures forall i :: Is(old(procs), i, pid) ==>
                Unmoved(old(ctxs.Snapshot()), ctxs.Snapshot(), old(procs)[i].memctx)
      ensures forall i :: Is(old(procs), i, pid) ==> Imaged(old(procs), procs, i)
      ensures r == 0 <==> exists i ::
                Is(old(procs), i, pid) && image.base != 0 && image.entry != 0 &&
                  !old(ctxs.Refused(procs[i].memctx, STACK_SIZE))
      ensures r == 0 ==> forall i :: Is(old(procs), i, pid) ==>
                && procs[i].entryPoint == image.entry && procs[i].imageBase == image.base
                && procs[i].imageSize == image.size
                && procs[i].requestedBase == image.requested.min && procs[i].requestedEnd == image.requested.max
                && procs[i].stackPointer >= 4096
                && Holds(ctxs.Snapshot(), procs[i].memctx, procs[i].stackPointer - 4096, 4096)
      ensures forall i, q, n :: Is(old(procs), i, pid) && Holds(old(ctxs.Snapshot()), procs[i].memctx, q, n) ==>
                Holds(ctxs.Snapshot(), procs[i].memctx, q, n)
    {
      hide Scheduled, Housed, Rooted, MemCtx.Contexts.Valid, MemCtx.Without, MemCtx.Known, MemCtx.OwnedPtrs;
      hide MemHeap.Heap.Allocations, MemHeap.Heap.CanServe, Has, Alive;
      var i := FindProc(pid);
      if i == -1 {
        NotIs(procs, pid);
        return -1;
      }
      forall j | Is(procs, j, pid) ensures j == i { OneEntry(procs, nextPid, i, j, pid); }
      if image.base == 0 || image.entry == 0 {
        return -1;
      }
      ghost var before := procs;
      var e := procs[i].(entryPoint := image.entry, imageBase := image.base, imageSize := image.size,
                         requestedBase := image.requested.min, requestedEnd := image.requested.max);
      ImagedTable(procs, nextPid, current, ctxs.contexts, i, e);
      procs := procs[i := e];
      Servable(ctxs, STACK_SIZE);
      var stack := ProcAlloc(pid, STACK_SIZE);
      assert Is(procs, i, pid);
      if stack == 0 {
        return -1;
      }
      ghost var e' := procs[i].(stackPointer := stack + STACK_SIZE);
      ImagedTable(procs, nextPid, current, ctxs.contexts, i, e');
      procs := procs[i := procs[i].(stackPointer := stack + STACK_SIZE)];
      return 0;
    }

    /** proc_start_flat: run the image to its end, then give the processor back. */
    method StartFlat(pid: int, body: Program) returns (r: int)
      requires Valid() && Tree() && !panicked
      modifies this, ctxs, ctxs.heap
      ensures Valid() && Tree()
      ensures r == 0 <==> exists i :: Startable(old(procs), i, pid)
      ensures r != 0 ==>
                r == -1 && !panicked && procs == old(procs) && current == old(current) && nextPid == old(nextPid) &&
                  ctxs.Snapshot() == old(ctxs.Snapshot())
      ensures r == 0 ==> Starts(old(Now()), pid, body, Now())
      ensures r == 0 ==> Later(old(procs), old(nextPid), procs, nextPid, pid)
      ensures r == 0 && !panicked ==> Has(procs, pid) && !Alive(procs, pid)
      ensures r == 0 && !panicked ==> current == Restored(procs, old(current), pid)
      decreases body, 2
    {
      hide Scheduled, Housed, Rooted, MemCtx.Contexts.Valid, MemCtx.Without, Has, Alive;
      var i := FindProc(pid);
      if i == -1 {
        NotIs(procs, pid);
        return -1;
      }
      forall j | Is(procs, j, pid) ensures j == i { OneEntry(procs, nextPid, i, j, pid); }
      AliveIs(procs, nextPid, i, pid);
      if procs[i].entryPoint == 0 || Terminal(procs[i].state) {
        return -1;
      }
      assert Startable(procs, i, pid);
      var previous := current;
      var s := SetCurrent(pid);
      LaterSame(old(procs), nextPid, procs, pid);
      ghost var before := procs;
      ghost var n := nextPid;
      ghost var a := Now();
      Run(body, pid);
      ghost var b := Now();
      LaterTrans(old(procs), old(nextPid), before, n, procs, nextPid, pid);
      r := 0;
      if panicked {
        return;
      }
      LaterHas(before, n, procs, nextPid, pid);
      before, n := procs, nextPid;
      Finish(pid, previous);
      LaterTrans(old(procs), old(nextPid), before, n, procs, nextPid, pid);
    }

    /** The tail of proc_start_flat, once the image has returned. */
    method Finish(pid: int, previous: nat)
      requires Valid() && Tree() && !panicked
      requires Has(procs, pid) && (if current == 0 then !Alive(procs, pid) else current == pid)
      modifies this
      ensures Valid() && Tree() && nextPid == old(nextPid)
      ensures Later(old(procs), nextPid, procs, nextPid, pid)
      ensures Finishes(old(Now()), pid, previous, Now())
      ensures !panicked ==> Has(procs, pid) && !Alive(procs, pid) && current == Restored(procs, previous, pid)
    {
      hide Scheduled, Housed, Rooted, MemCtx.Contexts.Valid, Has, Alive;
      CurrentAlive(procs, current);
      var k := FindProc(pid);
      AliveIs(procs, nextPid, k, pid);
      if k != -1 && !Terminal(procs[k].state) {
        var x := ExitLocked(pid, 0);
      }
      LaterLess(old(procs), nextPid, procs, pid);
      ghost var e := Now();
      assert Exits(old(Now()), pid, 0, e);
      if panicked {
        return;
      }
      var p := FindProc(previous);
      if p == -1 {
        NotAlive(procs, previous);
      }
      if previous != 0 && previous != pid && p != -1 {
        var x := SetCurrent(previous);
        LaterLess(old(procs), nextPid, procs, pid);
      } else {
        // the source clears `current` here when it still is pid; the exit above has already done so
        assert current != pid;
      }
    }

    /** proc_spawn_exec: either the child has run, or nothing but the pid counter has changed. */
    method SpawnExec(parent: nat, target: Target, body: Program) returns (r: int)
      requires Valid() && Tree() && !panicked
      requires Has(procs, parent) ==> Alive(procs, parent)
      modifies this, ctxs, ctxs.heap
      ensures Valid() && Tree()
      ensures r < 0 ==> procs == old(procs) && current == old(current) && !panicked && nextPid >= old(nextPid)
      ensures r < 0 ==> ctxs.Snapshot() == old(ctxs.Snapshot()) && ctxs.heap.used == old(ctxs.heap.used)
      ensures r < 0 ==> r == -1 || r == ERR_NOMEM
      ensures r == -1 <==> old(Refuses(Now(), parent, target))
      ensures (exists h :: old(Welcomes(Now(), parent, target, h))) ==> r >= 0
      ensures r >= 0 ==> r == old(nextPid) && target.File? && target.readable
      ensures r >= 0 ==> exists h :: Elf.Valid(target.bytes, h)
      ensures Spawns(old(Now()), parent, target, body, Now())
      ensures Later(old(procs), old(nextPid), procs, nextPid, old(nextPid) - 1)
      ensures r >= 0 && !panicked ==> Has(procs, r) && !Alive(procs, r) && current == Restored(procs, old(current), r)
      decreases body, 3
    {
      hide Table, Rooted, Has, Alive, Loaded, Later, Startable, Restored, Elf.Valid, MemCtx.Contexts.Valid, Backed;
      hide MemHeap.Heap.Allocations, MemHeap.Heap.CanServe, MemSums.MapSum, Refuses, Welcomes, Stages, Starts, Spawns;
      UsedBytes(ctxs);
      r := Stage(parent, target);
      ghost var a := Now();
      if r < 0 {
        StagesFailed(old(Now()), parent, target, body, a, r);
        LaterIdle(procs, old(nextPid), nextPid, old(nextPid) - 1);
        UsedBytes(ctxs);
        return;
      }
      ghost var i := StagesDone(old(Now()), parent, target, a, r);
      ghost var before := procs;
      ghost var n := nextPid;
      StagedStarts(old(procs), procs, i, r, parent, target.bytes);
      StagedLater(old(procs), procs, old(nextPid), i, r, parent, target.bytes);
      var s := StartFlat(r, body);
      LaterWeaker(before, n, procs, nextPid, r, r - 1);
      LaterTrans(old(procs), old(nextPid), before, n, procs, nextPid, r - 1);
    }

    /** The file can be run, and context id has room for everything that takes. */
    ghost predicate Suffices(id: nat, file: Contents)
      reads ctxs, ctxs.heap
    {
      exists r :: Elf.Valid(file, r) && ctxs.Affords(id, 3, Demand(file, r))
    }

    /** Image and stack of a new process. */
    method Equip(pid: int, file: Contents, ghost i: int) returns (r: int)
      requires Valid() && Tree() && Is(procs, i, pid)
      modifies this`procs, ctxs, ctxs.heap
      ensures Valid() && Tree() && (r == 0 || r == ERR_NOMEM)
      ensures Imaged(old(procs), procs, i) && Unmoved(old(ctxs.Snapshot()), ctxs.Snapshot(), procs[i].memctx)
      ensures (exists h :: Elf.Valid(file, h) && old(ctxs.Affords(procs[i].memctx, 2, Taken(h) + Stack()))) ==> r == 0
      ensures r == 0 ==> exists h :: Elf.Valid(file, h) && Shows(procs[i], file, h)
      ensures r == 0 ==> Backed(ctxs.Snapshot(), procs[i])
    {
      hide Scheduled, Housed, Rooted, Alive, Has, Elf.Valid, MemCtx.Contexts.Valid, MemCtx.Contexts.Reaches, ImageOf;
      hide MemCtx.Contexts.Refused, MemCtx.OwnedPtrs, MemCtx.Contexts.Affords, MemCtx.Without, Holds, MemWrap.Needed;
      hide MemHeap.Heap.Allocations, MemHeap.Heap.CanServe, MemHeap.Heap.Low;
      forall j | Is(procs, j, pid) ensures j == i { OneEntry(procs, nextPid, i, j, pid); }
      ghost var id := procs[i].memctx;
      ghost var ample := exists h :: Elf.Valid(file, h) && ctxs.Affords(id, 2, Taken(h) + Stack());
      if ample {
        ghost var h :| Elf.Valid(file, h) && ctxs.Affords(id, 2, Taken(h) + Stack());
        ValidRange(file, h);
        NotRefused(ctxs, id, Span(h), 2, Stack());
      }
      var ok, image, bytes := LoadImage(pid, file);
      if !ok {
        return ERR_NOMEM;
      }
      Elf.ValidOnce(file, image.requested);
      if ample {
        NotRefused(ctxs, id, STACK_SIZE, 1, 0);
      }
      var a := AttachImage(pid, image);
      if a != 0 {
        var f := ProcFree(pid, image.base);
        return ERR_NOMEM;
      }
      assert Shows(procs[i], file, image.requested);
      return 0;
    }

    /** File, image and stack of a new process; what a failure leaves behind is still there. */
    method Furnish(pid: int, target: Target, ghost i: int) returns (r: int)
      requires Valid() && Tree() && target.File? && Is(procs, i, pid)
      modifies this`procs, ctxs, ctxs.heap
      ensures Valid() && Tree() && (r == 0 || r == -1 || r == ERR_NOMEM)
      ensures Imaged(old(procs), procs, i) && Unmoved(old(ctxs.Snapshot()), ctxs.Snapshot(), procs[i].memctx)
      ensures r == -1 <==> !target.readable && !old(ctxs.Refused(procs[i].memctx, |target.bytes|))
      ensures target.readable && old(Suffices(procs[i].memctx, target.bytes)) ==> r == 0
      ensures r == 0 ==> target.readable && exists h :: Elf.Valid(target.bytes, h) && Shows(procs[i], target.bytes, h)
      ensures r == 0 ==> Backed(ctxs.Snapshot(), procs[i])
    {
      hide Scheduled, Housed, Rooted, Alive, Elf.Valid, MemCtx.Contexts.Valid, MemCtx.Contexts.Reaches, Shows, Backed;
      hide MemCtx.Contexts.Refused, MemCtx.Contexts.Affords, MemCtx.Without, Holds, MemWrap.Needed;
      hide MemHeap.Heap.Allocations, MemHeap.Heap.CanServe, MemHeap.Heap.Low;
      forall j | Is(procs, j, pid) ensures j == i { OneEntry(procs, nextPid, i, j, pid); }
      Servable(ctxs, |target.bytes|);
      ghost var id := procs[i].memctx;
      if Suffices(id, target.bytes) {
        ghost var h :| Elf.Valid(target.bytes, h) && ctxs.Affords(id, 3, Demand(target.bytes, h));
        ValidRange(target.bytes, h);
        NotRefused(ctxs, id, |target.bytes|, 3, Taken(h) + Stack());
      }
      var file := ProcAlloc(pid, |target.bytes|);
      if file == 0 {
        return ERR_NOMEM;
      }
      if !target.readable {
        return -1;
      }
      r := Equip(pid, target.bytes, i);
    }

    /** File, image and stack of a new process; on failure the process is gone again. */
    method FillImage(pid: int, target: Target, ghost was: seq<Entry>, ghost i: int) returns (r: int)
      requires Valid() && Tree() && Rooted(was) && target.File? && Staged(was, procs, i, pid)
      modifies this`procs, ctxs, ctxs.heap
      ensures Valid() && Tree() && (r == 0 || r == -1 || r == ERR_NOMEM)
      ensures r < 0 ==> procs == was && ctxs.Snapshot() == old(MemCtx.Without(ctxs.Snapshot(), procs[i].memctx))
      ensures r == -1 <==> !target.readable && !old(ctxs.Refused(procs[i].memctx, |target.bytes|))
      ensures target.readable && old(Suffices(procs[i].memctx, target.bytes)) ==> r == 0
      ensures r == 0 ==> target.readable && procs[i].memctx == old(procs)[i].memctx
      ensures r == 0 ==> Loaded(was, procs, i, pid, old(procs)[i].parent, target.bytes)
      ensures r == 0 ==> Backed(ctxs.Snapshot(), procs[i])
      ensures r == 0 ==> Unmoved(old(ctxs.Snapshot()), ctxs.Snapshot(), procs[i].memctx)
    {
      hide Table, Rooted, Alive, Staged, Imaged, Backed, Shows, Suffices, Elf.Valid, MemCtx.Contexts.Valid;
      hide MemCtx.Contexts.Refused, MemCtx.Without, MemHeap.Heap.Allocations, MemHeap.Heap.Low;
      StagedIs(was, procs, i, pid);
      ghost var before := procs;
      r := Furnish(pid, target, i);
      StagedImaged(was, before, procs, i, pid);
      if r != 0 {
        Rollback(pid, was, i);
      }
    }

    /** The part of proc_spawn_exec before the image starts. */
    method Stage(parent: nat, target: Target) returns (r: int)
      requires Valid() && Tree()
      requires Has(procs, parent) ==> Alive(procs, parent)
      modifies this`procs, this`nextPid, ctxs, ctxs.heap
      ensures Valid() && Tree()
      ensures Stages(old(Now()), parent, target, Now(), r)
    {
      hide Table, Rooted, Has, Alive, Placed, Staged, Loaded, Backed, Elf.Valid, MemCtx.Contexts.Valid, MemCtx.Without;
      hide MemCtx.Contexts.Refused, MemCtx.HasSpareRow, MemCtx.SpareRows, MemCtx.Known, MemCtx.Unlimited, Vacant, Spare;
      hide MemHeap.Heap.Allocations, MemHeap.Heap.Low, MemHeap.Heap.FreeSizes, MemHeap.Heap.Ends, MemWrap.Room.Lacks;
      hide MemWrap.Needed, MemWrap.HasRoom, Suffices, Demand;
      TableSize(procs, nextPid, current, ctxs.contexts);
      WelcomeHasBytes(Now(), parent, target);
      var p := FindProc(parent);
      if p == -1 {
        return -1;
      }
      if target.NoFile? || |target.bytes| == 0 {
        return -1;
      }
      var pid := Create(parent);
      if pid < 0 {
        return pid;
      }
      ghost var i, ctx :| Placed(old(procs), procs, i, pid, parent, ctx) && MemCtx.Unlimited(ctxs.contexts, ctx) &&
        MemCtx.Known(ctxs.contexts, ctx) && MemCtx.Without(ctxs.Snapshot(), ctx) == old(ctxs.Snapshot());
      PlacedStaged(old(procs), procs, i, pid, parent, ctx);
      StagedIs(old(procs), procs, i, pid);
      GrantedIs(ctxs, ctx, |target.bytes|);
      forall h | Welcomes(old(Now()), parent, target, h) ensures Suffices(ctx, target.bytes) {
        Affording(this, ctx, target.bytes, h);
      }
      var e := FillImage(pid, target, old(procs), i);
      if e < 0 {
        return e;
      }
      r := pid;
    }

    /** One system call of the image of `me`, behind the gate. */
    method Step(p: Program, ghost me: int)
      requires Valid() && Tree() && !panicked
      requires Has(procs, me) && (if current == 0 then !Alive(procs, me) else current == me)
      modifies this, ctxs, ctxs.heap
      ensures Valid() && Tree()
      ensures Later(old(procs), old(nextPid), procs, nextPid, me)
      ensures Calls(p, old(Now()), Now())
      ensures !panicked ==> if current == 0 then !Alive(procs, me) else current == me
      ensures old(current) == 0 ==>
                procs == old(procs) && current == 0 && nextPid == old(nextPid) && !panicked &&
                  ctxs.Snapshot() == old(ctxs.Snapshot())
      decreases p, 0
    {
      hide Scheduled, Housed, Rooted, Has, Alive, Later, Elf.Valid, MemCtx.Contexts.Valid, MemCtx.Without;
      hide Exits, Waits, Waitable, Spawns, Refuses, Welcomes, Departed, MemHeap.Heap.Allocations;
      LaterIdle(procs, nextPid, nextPid, me);
      CurrentAlive(procs, current);
      HasBelow(procs, nextPid, me);
      var ok := CurrentValid();
      if !ok {
        return;
      }
      match p {
        case Halt =>
        case Exit(status, rest) =>
          var r := ExitLocked(current, status);
          LaterLess(old(procs), nextPid, procs, me);
        case Kill(pid, status, rest) =>
          var r := KillProc(pid, status);
          LaterLess(old(procs), nextPid, procs, me);
        case Wait(pid, rest) =>
          WaitedIsYounger(procs, nextPid, me, pid);
          var r, status := Wait(current, pid);
          LaterWaited(old(procs), nextPid, procs, me, r);
        case Spawn(target, body, rest) =>
          AliveHas(procs, me);
          var r := SpawnExec(current, target, body);
          LaterWeaker(old(procs), old(nextPid), procs, nextPid, old(nextPid) - 1, me);
          RestoredIs(procs, me, r);
      }
    }

    /** An image runs: its system calls in order, until it returns or the kernel panics. */
    method Run(p: Program, ghost me: int)
      requires Valid() && Tree() && !panicked
      requires Has(procs, me) && (if current == 0 then !Alive(procs, me) else current == me)
      modifies this, ctxs, ctxs.heap
      ensures Valid() && Tree()
      ensures Later(old(procs), old(nextPid), procs, nextPid, me)
      ensures Runs(p, old(Now()), Now())
      ensures !panicked ==> if current == 0 then !Alive(procs, me) else current == me
      ensures old(current) == 0 ==>
                procs == old(procs) && current == 0 && nextPid == old(nextPid) && !panicked &&
                  ctxs.Snapshot() == old(ctxs.Snapshot())
      decreases p, 1
    {
      hide Table, Rooted, Has, Alive, Later, MemCtx.Contexts.Valid, MemHeap.Heap.Allocations, MemHeap.Heap.CanServe;
      LaterIdle(procs, nextPid, nextPid, me);
      if p.Halt? {
        return;
      }
      Step(p, me);
      if panicked {
        return;
      }
      LaterHas(old(procs), old(nextPid), procs, nextPid, me);
      ghost var before := procs;
      ghost var n := nextPid;
      Run(p.rest, me);
      LaterTrans(old(procs), old(nextPid), before, n, procs, nextPid, me);
    }
  }

  /** Slot i was free and holds the new process. */
  ghost predicate Placed(procs: seq<Entry>, procs': seq<Entry>, i: int, pid: nat, parent: nat, ctx: nat) {
    0 <= i < |procs| && procs[i] == NO_PROC &&
      procs' == procs[i := Entry(true, pid, parent, Ready, 0, ctx, 0, 0, 0, 0, 0, 0)]
  }

  lemma TableSize(procs: seq<Entry>, nextPid: nat, current: nat, contexts: seq<MemCtx.Context>)
    requires Table(procs, nextPid, current, contexts)
    ensures |procs| == PROC_MAX && nextPid > 0 && !Has(procs, 0)
  {
  }

  lemma FreeEntry(procs: seq<Entry>, nextPid: nat, i: int)
    requires Named(procs, nextPid) && 0 <= i < |procs| && !procs[i].used
    ensures procs[i] == NO_PROC
  {
  }

  lemma NextPid(procs: seq<Entry>, nextPid: nat, current: nat, contexts: seq<MemCtx.Context>)
    requires Table(procs, nextPid, current, contexts)
    ensures Table(procs, nextPid + 1, current, contexts)
  {
  }

  ghost predicate Waitable(procs: seq<Entry>, i: int, parent: nat, child: int) {
    Is(procs, i, child) && procs[i].parent == parent && procs[i].state == Exited
  }

  lemma WaitableIs(procs: seq<Entry>, nextPid: nat, i: int, parent: nat, child: int)
    requires Named(procs, nextPid) && Is(procs, i, child) && !Waitable(procs, i, parent, child)
    ensures forall j :: !Waitable(procs, j, parent, child)
  {
    forall j
      ensures !Waitable(procs, j, parent, child)
    {
      if Waitable(procs, j, parent, child) {
        OneEntry(procs, nextPid, i, j, child);
      }
    }
  }

  lemma NotWaitable(procs: seq<Entry>, parent: nat, child: int)
    requires !Has(procs, child)
    ensures forall j :: !Waitable(procs, j, parent, child)
  {
  }

  lemma NotAlive(procs: seq<Entry>, pid: int)
    requires !Has(procs, pid)
    ensures !Alive(procs, pid)
  {
  }

  lemma HasPositive(procs: seq<Entry>, nextPid: nat, pid: int)
    requires Named(procs, nextPid) && pid <= 0
    ensures !Has(procs, pid)
  {
  }

  lemma HousedIs(procs: seq<Entry>, contexts: seq<MemCtx.Context>, i: int)
    requires Housed(procs, contexts) && 0 <= i < |procs| && procs[i].used
    ensures MemCtx.Known(contexts, procs[i].memctx)
  {
  }

  lemma CurrentAlive(procs: seq<Entry>, current: nat)
    requires Scheduled(procs, current)
    ensures current != 0 ==> Alive(procs, current)
  {
  }

  lemma CurrentIs(procs: seq<Entry>, current: nat)
    requires Scheduled(procs, current) && current != 0
    ensures Has(procs, current)
  {
  }

  /** Two ledgers that differ only in context id. */
  ghost predicate Unmoved(l: MemCtx.Ledger, l': MemCtx.Ledger, id: nat) {
    MemCtx.Without(l, id) == MemCtx.Without(l', id)
  }

  /** Entry i holds a process that was not in the table `was` and has not run. */
  ghost predicate Staged(was: seq<Entry>, procs: seq<Entry>, i: int, pid: int) {
    && |was| == |procs| && Is(procs, i, pid) && procs[i].state == Ready
    && was == procs[i := NO_PROC]
  }

  /** The staged process is a child of `parent` and has the image of `file` to run. */
  ghost predicate Loaded(was: seq<Entry>, procs: seq<Entry>, i: int, pid: int, parent: nat, file: Contents) {
    && Staged(was, procs, i, pid) && procs[i].parent == parent
    && exists r :: Elf.Valid(file, r) && Shows(procs[i], file, r)
  }

  /** The entry of a process whose image is laid out for the range r. */
  ghost predicate Shows(e: Entry, file: seq<byte>, r: Elf.Range) {
    && |file| >= Elf.EHDR_SIZE && r.min <= Elf.Entry(file) < r.max
    && e.imageBase != 0 && e.entryPoint == e.imageBase + (Elf.Entry(file) - r.min)
    && e.imageSize == r.max - r.min && e.requestedBase == r.min && e.requestedEnd == r.max
  }

  /** Context id owns the block at p, and it has at least `size` bytes. */
  ghost predicate Holds(l: MemCtx.Ledger, id: nat, p: nat, size: nat) {
    p in MemCtx.OwnedPtrs(l.rows, id) && p in l.allocs && l.allocs[p] >= size
  }

  /** Image and stack of a process lie in blocks of its own context. */
  ghost predicate Backed(l: MemCtx.Ledger, e: Entry) {
    && Holds(l, e.memctx, e.imageBase, e.imageSize)
    && e.stackPointer >= 4096 && Holds(l, e.memctx, e.stackPointer - 4096, 4096)
  }

  lemma EndsOk(c: MemCtx.Contexts)
    requires c.Valid()
    ensures c.heap.Ends().Ok()
  {
  }

  /** A granted request is charged to its context, and what was there before is still there. */
  lemma Afforded(l: MemCtx.Ledger, l': MemCtx.Ledger, room: MemWrap.Room, i: int, c: int, p: nat, id: nat, size: nat)
    requires room.ends.Ok() && p !in l.allocs && p in l'.allocs && l'.allocs == l.allocs[p := l'.allocs[p]]
    requires 0 <= i < |l.rows| && l.rows[i] == MemCtx.NO_ROW && p != 0
    requires l'.rows == l.rows[i := MemCtx.Row(p, size, id)] && l'.allocs[p] >= size
    requires MemCtx.Charged(l.contexts, l'.contexts, c, id, size)
    requires MemCtx.OwnedPtrs(l'.rows, id) == MemCtx.OwnedPtrs(l.rows, id) + {p}
    ensures Holds(l', id, p, size) && forall q, n :: Holds(l, id, q, n) ==> Holds(l', id, q, n)
    ensures forall k: nat, n: nat ::
              MemCtx.Ample(l.contexts, l.rows, room.ends, id, k + 1, MemWrap.Needed(size) + n) ==>
                MemCtx.Ample(l'.contexts, l'.rows, room.Granted(MemWrap.Needed(size)), id, k, n)
  {
    hide MemCtx.Ample, MemCtx.OwnedPtrs, MemWrap.Room.Granted;
    forall k: nat, n: nat | MemCtx.Ample(l.contexts, l.rows, room.ends, id, k + 1, MemWrap.Needed(size) + n)
      ensures MemCtx.Ample(l'.contexts, l'.rows, room.Granted(MemWrap.Needed(size)), id, k, n)
    {
      MemCtx.StillAmple(l, l', room, i, c, p, id, size, k, n);
    }
  }

  lemma NotRefused(c: MemCtx.Contexts, id: nat, size: nat, k: nat, n: nat)
    requires c.Valid() && size > 0 && k > 0 && c.Affords(id, k, MemWrap.Needed(size) + n)
    ensures !c.Refused(id, size)
  {
    hide MemCtx.Ample, MemCtx.OverQuota, MemCtx.HasSpareRow, MemCtx.Known, MemWrap.Full, MemWrap.Has;
    EndsOk(c);
    MemCtx.AmpleGrants(c.contexts, c.rows, c.heap.Shape(), id, size, k, n);
  }

  lemma WelcomeHasBytes(s: KState, parent: nat, target: Target)
    ensures forall r :: Welcomes(s, parent, target, r) ==> target.File? && |target.bytes| > 0
  {
    forall r | Welcomes(s, parent, target, r)
      ensures |target.bytes| > 0
    {
      ValidRange(target.bytes, r);
    }
  }

  lemma StagesFailed(s: KState, parent: nat, target: Target, body: Program, m: KState, pid: int)
    requires Stages(s, parent, target, m, pid) && pid < 0
    ensures m == s.(nextPid := m.nextPid, room := m.room) && m.nextPid >= s.nextPid && (pid == -1 || pid == ERR_NOMEM)
    ensures pid == -1 <==> Refuses(s, parent, target)
    ensures !exists r :: Welcomes(s, parent, target, r)
    ensures Spawns(s, parent, target, body, m)
  {
  }

  lemma StagesDone(s: KState, parent: nat, target: Target, m: KState, pid: int) returns (i: int)
    requires Stages(s, parent, target, m, pid) && pid >= 0
    ensures !Refuses(s, parent, target) && pid == s.nextPid && m.nextPid == pid + 1 && m.current == s.current
    ensures target.File? && target.readable && m.panicked == s.panicked
    ensures Loaded(s.procs, m.procs, i, pid, parent, target.bytes)
    ensures forall body, m' :: Starts(m, pid, body, m') ==> Spawns(s, parent, target, body, m')
  {
    i :| Loaded(s.procs, m.procs, i, pid, parent, target.bytes);
  }

  /** For a context without a quota only rows and memory count. */
  lemma GrantedIs(c: MemCtx.Contexts, id: nat, size: nat)
    requires MemCtx.Known(c.contexts, id) && MemCtx.Unlimited(c.contexts, id) && size > 0
    ensures c.Refused(id, size) <==> !MemCtx.HasSpareRow(c.rows) || c.heap.Shape().Lacks(MemWrap.Needed(size))
  {
    hide MemWrap.Has, MemWrap.Full, MemCtx.HasSpareRow;
  }

  lemma Affording(k: Kernel, id: nat, file: Contents, r: Elf.Range)
    requires Elf.Valid(file, r) && MemCtx.Known(k.ctxs.contexts, id) && MemCtx.Unlimited(k.ctxs.contexts, id)
    requires MemCtx.SpareRows(k.ctxs.rows) >= 3 && MemWrap.HasRoom(k.ctxs.heap.Ends(), Demand(file, r))
    ensures k.Suffices(id, file)
  {
    hide Demand, Elf.Valid, MemWrap.HasRoom, MemCtx.SpareRows;
    assert k.ctxs.Affords(id, 3, Demand(file, r));
  }

  lemma StagedImaged(was: seq<Entry>, procs: seq<Entry>, procs': seq<Entry>, i: int, pid: int)
    requires Staged(was, procs, i, pid) && Imaged(procs, procs', i)
    ensures Staged(was, procs', i, pid) && procs'[i].memctx == procs[i].memctx && procs'[i].parent == procs[i].parent
  {
    assert procs'[i := NO_PROC] == procs[i := NO_PROC];
  }

  lemma StagedIs(was: seq<Entry>, procs: seq<Entry>, i: int, pid: int)
    requires Staged(was, procs, i, pid)
    ensures Is(procs, i, pid)
  {
  }

  lemma StagedHas(was: seq<Entry>, procs: seq<Entry>, i: int, pid: int)
    requires Staged(was, procs, i, pid)
    ensures Has(procs, pid)
  {
  }

  lemma OwnedNonzero(rows: seq<MemCtx.Row>, id: nat)
    ensures 0 !in MemCtx.OwnedPtrs(rows, id)
  {
  }

  lemma NotIs(procs: seq<Entry>, pid: int)
    requires !Has(procs, pid)
    ensures forall i :: !Is(procs, i, pid)
  {
  }

  lemma SameKnown(procs: seq<Entry>, contexts: seq<MemCtx.Context>, contexts': seq<MemCtx.Context>)
    requires Housed(procs, contexts) && forall k :: MemCtx.Known(contexts', k) <==> MemCtx.Known(contexts, k)
    ensures Housed(procs, contexts')
  {
  }

  /** The entry point lies inside the image. */
  ghost predicate Fits(file: seq<byte>, image: Image) {
    && |file| >= Elf.EHDR_SIZE && image.requested.min <= Elf.Entry(file) < image.requested.max
    && image.size == image.requested.max - image.requested.min
    && image.entry == image.base + (Elf.Entry(file) - image.requested.min)
  }

  ghost predicate ImageOf(file: seq<byte>, r: Elf.Range, bytes: seq<byte>)
    requires Elf.Valid(file, r)
  {
    forall i :: 0 <= i < |bytes| ==> bytes[i] == Elf.ImageByte(file, Elf.Phdrs(file), |Elf.Phdrs(file)|, r.min + i)
  }

  function Span(r: Elf.Range): nat { if r.min <= r.max then r.max - r.min else 0 }

  lemma ValidRange(file: seq<byte>, r: Elf.Range)
    requires Elf.Valid(file, r)
    ensures |file| >= Elf.EHDR_SIZE && r.min <= Elf.Entry(file) < r.max && r.max - r.min <= Elf.MAX_LOAD_SIZE
  {
  }

  ghost predicate Startable(procs: seq<Entry>, i: int, pid: int) {
    Is(procs, i, pid) && procs[i].entryPoint != 0 && !Terminal(procs[i].state)
  }

  /** Who runs when the image of pid has ended: the process that started it, unless it was terminated meanwhile. */
  ghost function Restored(procs: seq<Entry>, previous: nat, pid: int): nat {
    if previous != 0 && previous != pid && Alive(procs, previous) then previous else 0
  }

  /** Entry i got new image fields. */
  ghost predicate Imaged(procs: seq<Entry>, procs': seq<Entry>, i: int) {
    && 0 <= i < |procs| == |procs'| && procs' == procs[i := procs'[i]]
    && procs'[i].used == procs[i].used && procs'[i].pid == procs[i].pid && procs'[i].parent == procs[i].parent
    && procs'[i].state == procs[i].state && procs'[i].status == procs[i].status && procs'[i].memctx == procs[i].memctx
  }

  lemma ImagedTable(procs: seq<Entry>, nextPid: nat, current: nat, contexts: seq<MemCtx.Context>, i: int, e: Entry)
    requires Table(procs, nextPid, current, contexts) && 0 <= i < |procs| && procs[i].used &&
             Imaged(procs, procs[i := e], i)
    ensures Table(procs[i := e], nextPid, current, contexts)
    ensures Rooted(procs) ==> Rooted(procs[i := e])
  {
    hide Named, Housed;
    var procs' := procs[i := e];
    ImagedAlike(procs, nextPid, i, e);
    AlikeNamed(procs, procs', nextPid, contexts);
    AliveKept(procs, i, e);
    if current != 0 {
      var j :| Is(procs, j, current) && procs[j].state == Running;
      assert Is(procs', j, current) && procs'[j].state == Running;
    }
  }

  lemma ImagedAlike(procs: seq<Entry>, nextPid: nat, i: int, e: Entry)
    requires Named(procs, nextPid) && 0 <= i < |procs| && procs[i].used && Imaged(procs, procs[i := e], i)
    ensures Alike(procs, procs[i := e])
  {
  }

  lemma LaterSame(procs: seq<Entry>, nextPid: nat, procs': seq<Entry>, me: int)
    requires forall q :: Has(procs', q) <==> Has(procs, q)
    requires forall q :: Alive(procs', q) <==> Alive(procs, q)
    ensures Later(procs, nextPid, procs', nextPid, me)
  {
  }

  lemma LaterIdle(procs: seq<Entry>, n: nat, n': nat, me: int)
    requires n <= n'
    ensures Later(procs, n, procs, n', me)
  {
  }

  lemma LaterLess(procs: seq<Entry>, nextPid: nat, procs': seq<Entry>, me: int)
    requires forall q :: Has(procs', q) <==> Has(procs, q)
    requires forall q :: Alive(procs', q) ==> Alive(procs, q)
    ensures Later(procs, nextPid, procs', nextPid, me)
  {
  }

  lemma LaterHas(procs: seq<Entry>, n: nat, procs': seq<Entry>, n': nat, me: int)
    requires Later(procs, n, procs', n', me) && Has(procs, me)
    ensures Has(procs', me)
  {
  }

  lemma PlacedStaged(was: seq<Entry>, procs: seq<Entry>, i: int, pid: nat, parent: nat, ctx: nat)
    requires Placed(was, procs, i, pid, parent, ctx)
    ensures Staged(was, procs, i, pid) && procs[i].memctx == ctx && procs[i].parent == parent
  {
  }

  lemma StagedStarts(was: seq<Entry>, procs: seq<Entry>, i: int, pid: int, parent: nat, file: Contents)
    requires Loaded(was, procs, i, pid, parent, file)
    ensures Startable(procs, i, pid) && exists r :: Elf.Valid(file, r)
  {
  }

  lemma StagedLater(was: seq<Entry>, procs: seq<Entry>, nextPid: nat, i: int, pid: int, parent: nat, file: Contents)
    requires Loaded(was, procs, i, pid, parent, file) && pid == nextPid
    ensures Later(was, nextPid, procs, nextPid + 1, nextPid - 1)
  {
    forall q
      ensures Has(was, q) ==> Has(procs, q)
      ensures q != pid && Has(procs, q) ==> Has(was, q)
      ensures q != pid && Alive(procs, q) ==> Alive(was, q)
    {
      assert forall j :: j != i ==> Is(was, j, q) == Is(procs, j, q);
    }
  }

  /** On a heap in the lower quarter every request up to a quarter of the address space can be served. */
  lemma Servable(c: MemCtx.Contexts, size: nat)
    requires c.Valid() && c.heap.Low() && size <= 0x4000_0000_0000_0000
    ensures c.heap.CanServe(size)
  {
    c.heap.LowServes(size);
  }

  lemma UsedBytes(c: MemCtx.Contexts)
    requires c.Valid()
    ensures c.heap.used == MemSums.MapSum(c.Snapshot().allocs)
  {
    MemSums.UsedIs(c.heap);
  }

  lemma LaterWeaker(procs: seq<Entry>, n: nat, procs': seq<Entry>, n': nat, me: int, less: int)
    requires Later(procs, n, procs', n', me) && less <= me
    ensures Later(procs, n, procs', n', less)
  {
  }

  lemma HasBelow(procs: seq<Entry>, nextPid: nat, pid: int)
    requires Named(procs, nextPid) && Has(procs, pid)
    ensures 0 < pid < nextPid
  {
  }

  lemma AliveHas(procs: seq<Entry>, pid: int)
    requires Alive(procs, pid)
    ensures Has(procs, pid)
  {
  }

  /** Only younger processes have me as their parent. */
  lemma WaitedIsYounger(procs: seq<Entry>, nextPid: nat, me: int, child: int)
    requires Named(procs, nextPid) && Rooted(procs) && me > 0
    ensures forall i :: 0 <= me && Waitable(procs, i, me, child) ==> me < child
  {
  }

  lemma LaterWaited(procs: seq<Entry>, nextPid: nat, procs': seq<Entry>, me: int, child: int)
    requires forall q :: Has(procs', q) <==> Has(procs, q) && q != child
    requires forall q :: Alive(procs', q) <==> Alive(procs, q)
    requires child > me || !Has(procs, child)
    ensures Later(procs, nextPid, procs', nextPid, me)
  {
  }

  lemma RestoredIs(procs: seq<Entry>, previous: nat, pid: int)
    requires previous != 0 && previous != pid
    ensures var c := Restored(procs, previous, pid); if c == 0 then !Alive(procs, previous) else c == previous
  {
  }
}
