/** The process table of kernel/proc.c as a value: who is in it, who runs, who is whose parent. */
module ProcTable {
  import MemCtx

  const PROC_MAX := 16

  datatype State = Unused | Ready | Running | Exited | Zombie | Dead

  datatype Entry = Entry(used: bool, pid: nat, parent: nat, state: State, status: int, memctx: nat,
                         entryPoint: nat, imageBase: nat, imageSize: nat, requestedBase: nat, requestedEnd: nat,
                         stackPointer: nat)

  const NO_PROC := Entry(false, 0, 0, Unused, 0, 0, 0, 0, 0, 0, 0, 0)

  predicate Terminal(s: State) { s == Exited || s == Zombie || s == Dead }

  predicate Is(procs: seq<Entry>, i: int, pid: int) {
    0 <= i < |procs| && procs[i].used && procs[i].pid == pid
  }

  ghost predicate Has(procs: seq<Entry>, pid: int) { exists i :: Is(procs, i, pid) }

  ghost predicate Alive(procs: seq<Entry>, pid: int) {
    exists i :: Is(procs, i, pid) && !Terminal(procs[i].state)
  }

  /** Free entries are blank; used ones carry distinct pids below nextPid. */
  ghost predicate Named(procs: seq<Entry>, nextPid: nat) {
    && |procs| == PROC_MAX && nextPid > 0
    && (forall i :: 0 <= i < |procs| && !procs[i].used ==> procs[i] == NO_PROC)
    && (forall i :: 0 <= i < |procs| && procs[i].used ==> 0 < procs[i].pid < nextPid && procs[i].state != Unused)
    && (forall i, j :: 0 <= i < j < |procs| && procs[i].used && procs[j].used ==> procs[i].pid != procs[j].pid)
  }

  /** Nobody runs but the current process, and a current process runs. */
  ghost predicate Scheduled(procs: seq<Entry>, current: nat) {
    && (forall i :: 0 <= i < |procs| && procs[i].state == Running ==> procs[i].used && procs[i].pid == current)
    && (current != 0 ==> exists i :: Is(procs, i, current) && procs[i].state == Running)
  }

  /** Every process but pid 1 has a living parent with a smaller pid; pid 1 is alive and the only root. */
  ghost predicate Rooted(procs: seq<Entry>) {
    forall i :: 0 <= i < |procs| && procs[i].used ==>
      && Alive(procs, 1)
      && (procs[i].pid == 1 ==> procs[i].parent == 0)
      && (procs[i].pid != 1 ==> procs[i].parent < procs[i].pid && Alive(procs, procs[i].parent))
  }

  /** Every process has a memory context of its own. */
  ghost predicate Housed(procs: seq<Entry>, contexts: seq<MemCtx.Context>) {
    && (forall i :: 0 <= i < |procs| && procs[i].used ==> MemCtx.Known(contexts, procs[i].memctx))
    && (forall i, j :: 0 <= i < j < |procs| && procs[i].used && procs[j].used ==> procs[i].memctx != procs[j].memctx)
  }

  ghost predicate Table(procs: seq<Entry>, nextPid: nat, current: nat, contexts: seq<MemCtx.Context>) {
    Named(procs, nextPid) && Scheduled(procs, current) && Housed(procs, contexts)
  }

  lemma OneEntry(procs: seq<Entry>, nextPid: nat, i: int, j: int, pid: int)
    requires Named(procs, nextPid) && Is(procs, i, pid) && Is(procs, j, pid)
    ensures i == j
  {
    if i < j {
    } else if j < i {
    }
  }

  lemma AliveIs(procs: seq<Entry>, nextPid: nat, i: int, pid: int)
    requires Named(procs, nextPid) && Is(procs, i, pid)
    ensures Has(procs, pid) && (Alive(procs, pid) <==> !Terminal(procs[i].state))
  {
    if Alive(procs, pid) {
      var j :| Is(procs, j, pid) && !Terminal(procs[j].state);
      OneEntry(procs, nextPid, i, j, pid);
    }
  }

  /** One entry changes, keeping its pid, and lives on or not as it did: the living stay the living. */
  lemma AliveKept(procs: seq<Entry>, i: int, e: Entry)
    requires 0 <= i < |procs| && e.used == procs[i].used && e.pid == procs[i].pid &&
             Terminal(e.state) == Terminal(procs[i].state)
    ensures forall q :: Alive(procs[i := e], q) <==> Alive(procs, q)
    ensures forall q :: Has(procs[i := e], q) <==> Has(procs, q)
  {
    var procs' := procs[i := e];
    forall q
      ensures (Alive(procs', q) <==> Alive(procs, q)) && (Has(procs', q) <==> Has(procs, q))
    {
      assert forall j :: Is(procs', j, q) <==> Is(procs, j, q);
    }
  }

  /** The same processes with the same contexts; states and parents may differ. */
  ghost predicate Alike(procs: seq<Entry>, procs': seq<Entry>) {
    && |procs| == |procs'|
    && forall i :: 0 <= i < |procs| ==>
         && procs'[i].used == procs[i].used && procs'[i].pid == procs[i].pid && procs'[i].memctx == procs[i].memctx
         && (if procs[i].used then procs'[i].state != Unused else procs'[i] == procs[i])
  }

  lemma AlikeNamed(procs: seq<Entry>, procs': seq<Entry>, nextPid: nat, contexts: seq<MemCtx.Context>)
    requires Named(procs, nextPid) && Housed(procs, contexts) && Alike(procs, procs')
    ensures Named(procs', nextPid) && Housed(procs', contexts)
    ensures forall i, q :: Is(procs', i, q) <==> Is(procs, i, q)
    ensures forall q :: Has(procs', q) <==> Has(procs, q)
  {
    assert forall i, q :: Is(procs', i, q) <==> Is(procs, i, q);
    forall q
      ensures Has(procs', q) <==> Has(procs, q)
    {
    }
  }

  // ----- what later states keep of earlier ones

  /** Pids are never reused, the dead stay dead, and no process with pid up to `me` leaves the table. */
  ghost predicate Later(procs: seq<Entry>, nextPid: nat, procs': seq<Entry>, nextPid': nat, me: int) {
    && nextPid <= nextPid'
    && (forall q :: q < nextPid && Has(procs', q) ==> Has(procs, q))
    && (forall q :: q < nextPid && Alive(procs', q) ==> Alive(procs, q))
    && (forall q :: q <= me && Has(procs, q) ==> Has(procs', q))
  }

  lemma LaterTrans(a: seq<Entry>, n: nat, b: seq<Entry>, n': nat, c: seq<Entry>, n'': nat, me: int)
    requires Later(a, n, b, n', me) && Later(b, n', c, n'', me)
    ensures Later(a, n, c, n'', me)
  {
  }

  /** Pid 1 outlives every run in which it stays in the table. */
  lemma FirstStays(procs: seq<Entry>, nextPid: nat, procs': seq<Entry>, nextPid': nat, me: int)
    requires Later(procs, nextPid, procs', nextPid', me) && me >= 1 && Has(procs, 1) && Rooted(procs')
    ensures Alive(procs', 1)
  {
    var i :| Is(procs', i, 1);
    assert procs'[i].used;
  }

  /** From parent to parent, down to pid 1. */
  ghost predicate Lineage(procs: seq<Entry>, path: seq<nat>) {
    path != [] &&
    if |path| == 1 then path[0] == 1 && Alive(procs, 1)
    else Lineage(procs, path[1..]) && exists i :: Is(procs, i, path[0]) && procs[i].parent == path[1]
  }

  lemma {:induction false} DescendsFromFirst(procs: seq<Entry>, nextPid: nat, i: int) returns (path: seq<nat>)
    requires Named(procs, nextPid) && Rooted(procs) && 0 <= i < |procs| && procs[i].used
    ensures Lineage(procs, path) && path[0] == procs[i].pid
    decreases procs[i].pid
  {
    if procs[i].pid == 1 {
      path := [1];
    } else {
      var j :| Is(procs, j, procs[i].parent) && !Terminal(procs[j].state);
      var tail := DescendsFromFirst(procs, nextPid, j);
      path := [procs[i].pid] + tail;
      assert path[1..] == tail;
      assert Is(procs, i, path[0]) && procs[i].parent == path[1];
    }
  }

  // ----- creation

  function NewEntry(pid: nat, parent: nat, ctx: nat): Entry {
    NO_PROC.(used := true, pid := pid, parent := parent, state := Ready, memctx := ctx)
  }

  lemma Created(procs: seq<Entry>, nextPid: nat, current: nat, contexts: seq<MemCtx.Context>, i: int, parent: nat,
                ctx: nat,
                contexts': seq<MemCtx.Context>)
    requires Table(procs, nextPid, current, contexts) && 0 <= i < |procs| && !procs[i].used
    requires !MemCtx.Known(contexts, ctx)
    requires forall k :: MemCtx.Known(contexts', k) <==> MemCtx.Known(contexts, k) || k == ctx
    ensures Table(procs[i := NewEntry(nextPid, parent, ctx)], nextPid + 1, current, contexts')
  {
    var procs' := procs[i := NewEntry(nextPid, parent, ctx)];
    if current != 0 {
      var j :| Is(procs, j, current) && procs[j].state == Running;
      assert Is(procs', j, current) && procs'[j].state == Running;
    }
  }

  lemma CreatedHas(procs: seq<Entry>, nextPid: nat, i: int, parent: nat, ctx: nat)
    requires Named(procs, nextPid) && 0 <= i < |procs| && !procs[i].used
    ensures var procs' := procs[i := NewEntry(nextPid, parent, ctx)];
            && (forall q :: Has(procs', q) <==> Has(procs, q) || q == nextPid)
            && (forall q :: Alive(procs', q) <==> Alive(procs, q) || q == nextPid)
  {
    var procs' := procs[i := NewEntry(nextPid, parent, ctx)];
    forall q
      ensures Has(procs', q) <==> Has(procs, q) || q == nextPid
      ensures Alive(procs', q) <==> Alive(procs, q) || q == nextPid
    {
      assert forall j :: j != i ==> Is(procs', j, q) == Is(procs, j, q);
      assert Is(procs', i, nextPid);
    }
  }

  /** The tree is kept by a creation exactly when the new process starts the table or its parent lives. */
  lemma CreatedTree(procs: seq<Entry>, nextPid: nat, i: int, parent: nat, ctx: nat)
    requires Named(procs, nextPid) && Rooted(procs) && 0 <= i < |procs| && !procs[i].used
    requires if parent == 0 then nextPid == 1 else Has(procs, parent)
    ensures Rooted(procs[i := NewEntry(nextPid, parent, ctx)]) <==> parent == 0 || Alive(procs, parent)
  {
    var procs' := procs[i := NewEntry(nextPid, parent, ctx)];
    CreatedHas(procs, nextPid, i, parent, ctx);
    if parent == 0 {
      forall j | 0 <= j < |procs| ensures !procs[j].used { }
      assert Alive(procs', 1);
    } else {
      var p :| Is(procs, p, parent);
      assert parent < nextPid;
      assert procs'[i].pid != 1 ==> procs'[i].parent == parent;
    }
  }

  /** Pid 1 lives, its child pid 2 has exited and was not waited for. */
  function Leftover(): (procs: seq<Entry>)
    ensures |procs| == PROC_MAX
  {
    [NewEntry(1, 0, 1), NewEntry(2, 1, 2).(state := Exited)] + seq(PROC_MAX - 2, _ => NO_PROC)
  }

  lemma LeftoverNamed()
    ensures Named(Leftover(), 3) && Is(Leftover(), 0, 1) && Is(Leftover(), 1, 2) && Terminal(Leftover()[1].state)
    ensures !Leftover()[2].used && !Terminal(Leftover()[0].state)
  {
  }

  lemma LeftoverRooted()
    ensures Rooted(Leftover())
  {
    LeftoverNamed();
    assert Alive(Leftover(), 1);
  }

  /** A process created under the exited one loses its parent for good once pid 1 waits for it. */
  lemma TerminalParentBreaks()
    ensures var procs := Leftover(); var created := procs[2 := NewEntry(3, 2, 3)]; var waited := created[1 := NO_PROC];
            && Named(procs, 3) && Rooted(procs) && Has(procs, 2) && !Rooted(created)
            && created[1].parent == 1 && created[1].state == Exited
            && Is(waited, 2, 3) && waited[2].parent == 2 && !Has(waited, 2)
  {
    hide Named, Rooted, Alive, Leftover;
    LeftoverNamed();
    LeftoverRooted();
    AliveIs(Leftover(), 3, 1, 2);
    CreatedTree(Leftover(), 3, 2, 2, 3);
    LeftoverWaited();
  }

  lemma LeftoverWaited()
    ensures var created := Leftover()[2 := NewEntry(3, 2, 3)]; var waited := created[1 := NO_PROC];
            created[1].parent == 1 && created[1].state == Exited && Is(waited, 2, 3) && waited[2].parent == 2 &&
              !Has(waited, 2)
  {
  }

  // ----- the current process

  /** The table after proc_set_current: the old current process is READY again, entry i RUNNING. */
  function Switched(procs: seq<Entry>, o: int, i: int): (r: seq<Entry>)
    requires 0 <= i < |procs| && o < |procs|
    ensures |r| == |procs|
  {
    var demoted := if 0 <= o && procs[o].state == Running then procs[o := procs[o].(state := Ready)] else procs;
    demoted[i := demoted[i].(state := Running)]
  }

  lemma SwitchedTable(procs: seq<Entry>, nextPid: nat, current: nat, contexts: seq<MemCtx.Context>, o: int, i: int,
                      pid: nat)
    requires Table(procs, nextPid, current, contexts) && Is(procs, i, pid) && !Terminal(procs[i].state)
    requires -1 <= o < |procs| && (current == 0 ==> o == -1) && (current != 0 ==> Is(procs, o, current))
    ensures Table(Switched(procs, o, i), nextPid, pid, contexts)
    ensures Rooted(procs) ==> Rooted(Switched(procs, o, i))
    ensures forall q :: Alive(Switched(procs, o, i), q) <==> Alive(procs, q)
    ensures forall q :: Has(Switched(procs, o, i), q) <==> Has(procs, q)
  {
    hide Named, Housed;
    var procs' := Switched(procs, o, i);
    SwitchedAlike(procs, nextPid, o, i);
    AlikeNamed(procs, procs', nextPid, contexts);
    SwitchedAlive(procs, o, i);
    assert Is(procs', i, pid) && procs'[i].state == Running;
    forall j | 0 <= j < |procs| && procs'[j].state == Running
      ensures j == i
    {
      if j != i {
        OneEntry(procs, nextPid, j, o, current);
      }
    }
    SwitchedRest(procs, o, i);
    SameTree(procs, procs');
  }

  lemma SameTree(procs: seq<Entry>, procs': seq<Entry>)
    requires |procs| == |procs'| && forall q :: Alive(procs', q) <==> Alive(procs, q)
    requires forall j :: 0 <= j < |procs| ==> procs'[j].(state := Ready) == procs[j].(state := Ready)
    ensures Rooted(procs) ==> Rooted(procs')
  {
    forall j | 0 <= j < |procs|
      ensures procs'[j].used == procs[j].used && procs'[j].pid == procs[j].pid && procs'[j].parent == procs[j].parent
    {
      assert procs'[j].(state := Ready) == procs[j].(state := Ready);
    }
  }

  lemma SwitchedAlive(procs: seq<Entry>, o: int, i: int)
    requires 0 <= i < |procs| && o < |procs| && !Terminal(procs[i].state)
    ensures forall q :: Alive(Switched(procs, o, i), q) <==> Alive(procs, q)
  {
    var procs' := Switched(procs, o, i);
    forall q
      ensures Alive(procs', q) <==> Alive(procs, q)
    {
      assert forall j :: Is(procs', j, q) <==> Is(procs, j, q);
    }
  }

  lemma SwitchedRest(procs: seq<Entry>, o: int, i: int)
    requires 0 <= i < |procs| && o < |procs|
    ensures forall j :: 0 <= j < |procs| ==> Switched(procs, o, i)[j].(state := Ready) == procs[j].(state := Ready)
  {
  }

  /** Pid runs, the process that ran before it is READY, and nothing else has changed. */
  predicate Demoted(procs: seq<Entry>, procs': seq<Entry>, current: nat, pid: int) {
    && |procs'| == |procs|
    && forall j :: 0 <= j < |procs| ==>
         procs'[j] == procs[j].(state := if procs[j].used && procs[j].pid == pid then Running
                                         else if procs[j].used && procs[j].pid == current then Ready
                                         else procs[j].state)
  }

  lemma SwitchedIs(procs: seq<Entry>, nextPid: nat, current: nat, o: int, i: int, pid: nat)
    requires Named(procs, nextPid) && Scheduled(procs, current) && Is(procs, i, pid)
    requires -1 <= o < |procs| && if current == 0 then o == -1 else Is(procs, o, current)
    ensures Demoted(procs, Switched(procs, o, i), current, pid)
  {
    hide Named;
    forall j | 0 <= j < |procs|
      ensures procs[j].used && procs[j].pid == pid ==> j == i
      ensures procs[j].used && procs[j].pid == current ==> j == o
    {
      CurrentOnly(procs, nextPid, current, o, j);
      if Is(procs, j, pid) {
        OneEntry(procs, nextPid, i, j, pid);
      }
    }
    if current != 0 {
      var r :| Is(procs, r, current) && procs[r].state == Running;
      OneEntry(procs, nextPid, r, o, current);
    }
  }

  lemma CurrentOnly(procs: seq<Entry>, nextPid: nat, current: nat, o: int, j: int)
    requires Named(procs, nextPid) && (current != 0 ==> Is(procs, o, current))
    ensures Is(procs, j, current) ==> j == o
  {
    if Is(procs, j, current) {
      OneEntry(procs, nextPid, o, j, current);
    }
  }

  lemma SwitchedAlike(procs: seq<Entry>, nextPid: nat, o: int, i: int)
    requires Named(procs, nextPid) && 0 <= i < |procs| && o < |procs| && procs[i].used && (o >= 0 ==> procs[o].used)
    ensures Alike(procs, Switched(procs, o, i))
  {
  }

  // ----- termination

  /** The table after proc_exit_locked: the children of entry i go to pid 1, entry i is EXITED. */
  function Left(procs: seq<Entry>, i: int, pid: nat, status: int): (r: seq<Entry>)
    requires 0 <= i < |procs|
    ensures |r| == |procs|
  {
    var moved := Reparented(procs, pid, |procs|);
    moved[i := moved[i].(status := status, state := Exited)]
  }

  /** The first n entries have lost pid as their parent. */
  function Reparented(procs: seq<Entry>, pid: nat, n: nat): (r: seq<Entry>)
    requires n <= |procs|
    ensures |r| == |procs|
    ensures forall j :: 0 <= j < |procs| ==>
              r[j] == if j < n && procs[j].used && procs[j].parent == pid then procs[j].(parent := 1) else procs[j]
  {
    seq(|procs|, j requires 0 <= j < |procs| =>
      if j < n && procs[j].used && procs[j].parent == pid then procs[j].(parent := 1) else procs[j])
  }

  /** Pid is EXITED with its status, its children are children of pid 1, and nothing else has changed. */
  predicate Departed(procs: seq<Entry>, procs': seq<Entry>, pid: int, status: int) {
    && |procs'| == |procs|
    && forall j :: 0 <= j < |procs| ==>
         procs'[j] == if !procs[j].used then procs[j]
                      else if procs[j].pid == pid then procs[j].(status := status, state := Exited)
                      else if procs[j].parent == pid then procs[j].(parent := 1) else procs[j]
  }

  lemma LeftIs(procs: seq<Entry>, nextPid: nat, i: int, pid: nat, status: int)
    requires Named(procs, nextPid) && Rooted(procs) && Is(procs, i, pid)
    ensures Departed(procs, Left(procs, i, pid, status), pid, status)
  {
    forall j | 0 <= j < |procs| && Is(procs, j, pid)
      ensures j == i
    {
      OneEntry(procs, nextPid, i, j, pid);
    }
    assert procs[i].parent != pid;
  }

  lemma LeftAlike(procs: seq<Entry>, nextPid: nat, i: int, pid: nat, status: int)
    requires Named(procs, nextPid) && Is(procs, i, pid)
    ensures Alike(procs, Left(procs, i, pid, status))
  {
  }

  lemma LeftHas(procs: seq<Entry>, nextPid: nat, i: int, pid: nat, status: int)
    requires Named(procs, nextPid) && Is(procs, i, pid)
    ensures forall q :: Has(Left(procs, i, pid, status), q) <==> Has(procs, q)
    ensures forall q :: Alive(Left(procs, i, pid, status), q) <==> Alive(procs, q) && q != pid
  {
    hide Named;
    var procs' := Left(procs, i, pid, status);
    forall q
      ensures (Has(procs', q) <==> Has(procs, q)) && (Alive(procs', q) <==> Alive(procs, q) && q != pid)
    {
      assert forall j :: Is(procs', j, q) <==> Is(procs, j, q);
      if Alive(procs, q) && q != pid {
        var j :| Is(procs, j, q) && !Terminal(procs[j].state);
        assert Is(procs', j, q) && !Terminal(procs'[j].state);
      }
      if Alive(procs', q) {
        var j :| Is(procs', j, q) && !Terminal(procs'[j].state);
        assert j != i;
        if q == pid {
          OneEntry(procs, nextPid, i, j, pid);
        }
      }
    }
  }

  lemma LeftTable(procs: seq<Entry>, nextPid: nat, current: nat, contexts: seq<MemCtx.Context>, i: int, pid: nat,
                  status: int)
    requires Table(procs, nextPid, current, contexts) && Is(procs, i, pid)
    ensures Table(Left(procs, i, pid, status), nextPid, if current == pid then 0 else current, contexts)
  {
    hide Named, Housed;
    var procs' := Left(procs, i, pid, status);
    LeftAlike(procs, nextPid, i, pid, status);
    AlikeNamed(procs, procs', nextPid, contexts);
    if current != 0 && current != pid {
      var j :| Is(procs, j, current) && procs[j].state == Running;
      assert Is(procs', j, current) && procs'[j].state == Running;
    }
    forall j | 0 <= j < |procs| && procs'[j].state == Running
      ensures procs'[j].used && procs'[j].pid == current && current != pid
    {
      assert procs[j].state == Running;
      if current == pid {
        OneEntry(procs, nextPid, i, j, pid);
      }
    }
  }

  lemma LeftTree(procs: seq<Entry>, nextPid: nat, i: int, pid: nat, status: int)
    requires Named(procs, nextPid) && Rooted(procs) && Is(procs, i, pid) && pid != 1
    ensures Rooted(Left(procs, i, pid, status))
  {
    var procs' := Left(procs, i, pid, status);
    LeftHas(procs, nextPid, i, pid, status);
    assert Alive(procs, 1);
    forall j | 0 <= j < |procs| && procs'[j].used
      ensures Alive(procs', 1)
      ensures procs'[j].pid == 1 ==> procs'[j].parent == 0
      ensures procs'[j].pid != 1 ==> procs'[j].parent < procs'[j].pid && Alive(procs', procs'[j].parent)
    {
      assert procs[j].used && procs[j].pid == procs'[j].pid;
      assert pid > 0;
    }
  }

  /** Nobody's parent is terminal, so a terminal process has no children. */
  lemma Childless(procs: seq<Entry>, nextPid: nat, i: int, pid: nat)
    requires Named(procs, nextPid) && Rooted(procs) && Is(procs, i, pid) && Terminal(procs[i].state)
    ensures forall j :: 0 <= j < |procs| && procs[j].used ==> procs[j].parent != pid
    ensures pid != 1
  {
    AliveIs(procs, nextPid, i, pid);
    assert 0 < pid;
  }

  // ----- removal

  lemma Removed(procs: seq<Entry>, nextPid: nat, current: nat, contexts: seq<MemCtx.Context>, i: int, pid: nat,
                contexts': seq<MemCtx.Context>)
    requires Table(procs, nextPid, current, contexts) && Is(procs, i, pid) && procs[i].state != Running
    requires forall k :: MemCtx.Known(contexts', k) <==> MemCtx.Known(contexts, k) && k != procs[i].memctx
    ensures Table(procs[i := NO_PROC], nextPid, current, contexts')
  {
    var procs' := procs[i := NO_PROC];
    if current != 0 {
      var j :| Is(procs, j, current) && procs[j].state == Running;
      assert Is(procs', j, current) && procs'[j].state == Running;
    }
  }

  lemma RemovedHas(procs: seq<Entry>, nextPid: nat, i: int, pid: nat)
    requires Named(procs, nextPid) && Is(procs, i, pid)
    ensures forall q :: Has(procs[i := NO_PROC], q) <==> Has(procs, q) && q != pid
    ensures forall q :: Alive(procs[i := NO_PROC], q) <==> Alive(procs, q) && q != pid
  {
    hide Named;
    var procs' := procs[i := NO_PROC];
    forall q
      ensures Has(procs', q) <==> Has(procs, q) && q != pid
      ensures Alive(procs', q) <==> Alive(procs, q) && q != pid
    {
      forall j | Is(procs, j, q) && q != pid ensures Is(procs', j, q) { }
      forall j | Is(procs', j, q)
        ensures Is(procs, j, q) && q != pid
      {
        if q == pid {
          OneEntry(procs, nextPid, i, j, pid);
        }
      }
    }
  }

  lemma RemovedTree(procs: seq<Entry>, nextPid: nat, i: int, pid: nat)
    requires Named(procs, nextPid) && Rooted(procs) && Is(procs, i, pid) && Terminal(procs[i].state)
    ensures Rooted(procs[i := NO_PROC])
  {
    RemovedHas(procs, nextPid, i, pid);
    Childless(procs, nextPid, i, pid);
  }
}
