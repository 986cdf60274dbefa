/**
 Process exit and wait as interleaved steps of their threads.  An exiting thread
 marks itself a zombie under its own lock only, then reparents its children under
 the table lock, then wakes its parent under the parent's lock.  A waiting thread
 scans the table, takes its own lock, scans again, and sleeps on its own lock.
 */
module ExitWait {
  import opened Common

  datatype Life = Running | Zombie | Dead

  /** `begun` and `reaped` record, for the proofs, the statuses of exits begun and reported. */
  datatype Proc = Proc(ppid: int, leader: bool, life: Life, status: int, begun: seq<int>, reaped: seq<int>)

  /** Where a process's exiting thread is; `Stamped` holds the process's own lock and
      `Reparenting` the table lock. */
  datatype ExitPc =
    | Idle
    | Stamped
    | Marked
    | Reparenting(rest: seq<int>)
    | Reparented
    | Found(parent: int)
    | Done

  /** Where a waiting thread is; `First` and `Second` hold the table lock, and
      `Locked`, `Second` and `Ready` hold the waiting process's own lock. */
  datatype WaitPc =
    | Start
    | First(rest: seq<int>, found: bool)
    | Unlocked
    | Locked
    | Second(rest: seq<int>, found: bool)
    | Ready
    | Asleep
    | Awake
    | Returned(pid: int)

  /** A thread of process `self` waiting for `want`, or for any child if that is not positive; `noHang` is WNOHANG. */
  datatype Waiter = Waiter(self: int, want: int, noHang: bool, pc: WaitPc)

  datatype State = State(procs: map<int, Proc>, exits: map<int, ExitPc>, waiters: map<int, Waiter>, tableLocked: bool)

  predicate Matches(w: Waiter, c: int, p: Proc) {
    p.ppid == w.self && (w.want <= 0 || c == w.want)
  }

  predicate HoldsOwnLock(pc: WaitPc) {
    pc.Locked? || pc.Second? || pc.Ready?
  }

  ghost predicate LockFree(s: State, pid: int) {
    && (pid in s.exits ==> !s.exits[pid].Stamped?)
    && forall w :: w in s.waiters && s.waiters[w].self == pid ==> !HoldsOwnLock(s.waiters[w].pc)
  }

  /** The whole process list, in some order. */
  ghost predicate Listing(s: State, rest: seq<int>) {
    forall c :: c in rest <==> c in s.procs
  }

  // ----- steps of the exiting thread -----

  /** Takes the process's own lock and stores the status. */
  ghost predicate ExitStatus(s: State, t: State, p: int, status: int) {
    && p in s.procs && p in s.exits && (s.exits[p].Idle? || s.exits[p].Done?) && LockFree(s, p)
    && t == s.(procs := s.procs[p := s.procs[p].(status := status, begun := s.procs[p].begun + [status])],
               exits := s.exits[p := Stamped])
  }

  /** Becomes a zombie and drops the lock; a thread other than the leader is then finished. */
  ghost predicate ExitZombie(s: State, t: State, p: int) {
    && p in s.procs && p in s.exits && s.exits[p].Stamped?
    && t == s.(procs := s.procs[p := s.procs[p].(life := Zombie)],
               exits := s.exits[p := if s.procs[p].leader then Marked else Done])
  }

  ghost predicate ExitReparentBegin(s: State, t: State, p: int, rest: seq<int>) {
    && p in s.exits && s.exits[p].Marked? && !s.tableLocked && Listing(s, rest)
    && t == s.(exits := s.exits[p := Reparenting(rest)], tableLocked := true)
  }

  /** One child goes to process 1; if it is a zombie it is taken as collected. */
  function Orphan(c: Proc, p: int): Proc {
    if c.ppid != p then c else c.(ppid := 1, life := if c.life.Zombie? then Dead else c.life)
  }

  ghost predicate ExitReparentOne(s: State, t: State, p: int) {
    && p in s.exits && s.exits[p].Reparenting? && s.exits[p].rest != [] && s.exits[p].rest[0] in s.procs
    && var c := s.exits[p].rest[0];
       t == s.(procs := s.procs[c := Orphan(s.procs[c], p)], exits := s.exits[p := Reparenting(s.exits[p].rest[1..])])
  }

  ghost predicate ExitReparentEnd(s: State, t: State, p: int) {
    && p in s.exits && s.exits[p].Reparenting? && s.exits[p].rest == []
    && t == s.(exits := s.exits[p := Reparented], tableLocked := false)
  }

  /** Looks the parent up; without one there is nobody to wake. */
  ghost predicate ExitFind(s: State, t: State, p: int) {
    && p in s.exits && p in s.procs && s.exits[p].Reparented? && !s.tableLocked
    && t == s.(exits := s.exits[p := if s.procs[p].ppid in s.procs then Found(s.procs[p].ppid) else Done])
  }

  function Woken(w: Waiter, pid: int): Waiter {
    if w.self == pid && w.pc.Asleep? then w.(pc := Awake) else w
  }

  /** The broadcast, under the parent's lock. */
  ghost predicate ExitBroadcast(s: State, t: State, p: int) {
    && p in s.exits && s.exits[p].Found? && LockFree(s, s.exits[p].parent)
    && t == s.(exits := s.exits[p := Done],
               waiters := map w | w in s.waiters :: Woken(s.waiters[w], s.exits[p].parent))
  }

  // ----- steps of the waiting thread -----

  ghost predicate WaitMove(s: State, t: State, w: int, pc: WaitPc, lock: bool)
    requires w in s.waiters
  {
    t == s.(waiters := s.waiters[w := s.waiters[w].(pc := pc)], tableLocked := lock)
  }

  ghost predicate WaitEnter(s: State, t: State, w: int, self: int, want: int, noHang: bool) {
    w !in s.waiters && self in s.procs && t == s.(waiters := s.waiters[w := Waiter(self, want, noHang, Start)])
  }

  ghost predicate WaitScanBegin(s: State, t: State, w: int, rest: seq<int>) {
    && w in s.waiters && !s.tableLocked && Listing(s, rest)
    && (s.waiters[w].pc.Start? || s.waiters[w].pc.Locked?)
    && WaitMove(s, t, w, if s.waiters[w].pc.Start? then First(rest, false) else Second(rest, false), true)
  }

  predicate Scanning(pc: WaitPc) {
    (pc.First? || pc.Second?) && pc.rest != []
  }

  function Advance(pc: WaitPc, hit: bool): WaitPc
    requires Scanning(pc)
  {
    if pc.First? then First(pc.rest[1..], pc.found || hit) else Second(pc.rest[1..], pc.found || hit)
  }

  /** Looks at one process: reaps a matching zombie and returns, else goes on. */
  ghost predicate WaitVisit(s: State, t: State, w: int) {
    && w in s.waiters && Scanning(s.waiters[w].pc) && s.waiters[w].pc.rest[0] in s.procs
    && var c := s.waiters[w].pc.rest[0];
       var p := s.procs[c];
       if Matches(s.waiters[w], c, p) && p.life.Zombie? then
         t == s.(procs := s.procs[c := p.(life := Dead, reaped := p.reaped + [p.status])],
                 waiters := s.waiters[w := s.waiters[w].(pc := Returned(c))], tableLocked := false)
       else
         WaitMove(s, t, w, Advance(s.waiters[w].pc, Matches(s.waiters[w], c, p)), true)
  }

  /** A scan without a zombie: no child at all ends the wait, else lock or get ready to sleep. */
  ghost predicate WaitScanEnd(s: State, t: State, w: int) {
    && w in s.waiters && (s.waiters[w].pc.First? || s.waiters[w].pc.Second?) && s.waiters[w].pc.rest == []
    && var pc := s.waiters[w].pc;
       WaitMove(s, t, w,
         if !pc.found then Returned(-10)
         else if pc.Second? then Ready
         else if s.waiters[w].noHang then Returned(0) else Unlocked,
         false)
  }

  ghost predicate WaitLock(s: State, t: State, w: int) {
    && w in s.waiters && s.waiters[w].pc.Unlocked? && LockFree(s, s.waiters[w].self)
    && WaitMove(s, t, w, Locked, s.tableLocked)
  }

  /** Releases the lock and sleeps, in one step. */
  ghost predicate WaitSleep(s: State, t: State, w: int) {
    w in s.waiters && s.waiters[w].pc.Ready? && WaitMove(s, t, w, Asleep, s.tableLocked)
  }

  /** Takes the lock back after waking, releases it, and starts over. */
  ghost predicate WaitResume(s: State, t: State, w: int) {
    && w in s.waiters && s.waiters[w].pc.Awake? && LockFree(s, s.waiters[w].self)
    && WaitMove(s, t, w, Start, s.tableLocked)
  }

  /** A wake-up nobody asked for. */
  ghost predicate WaitSpurious(s: State, t: State, w: int) {
    w in s.waiters && s.waiters[w].pc.Asleep? && WaitMove(s, t, w, Awake, s.tableLocked)
  }

  // ----- the table -----

  /** A new process or thread appears. */
  ghost predicate Create(s: State, t: State, c: int, ppid: int, leader: bool) {
    && c > 0 && c !in s.procs && c !in s.exits && !s.tableLocked
    && t == s.(procs := s.procs[c := Proc(ppid, leader, Running, 0, [], [])], exits := s.exits[c := Idle])
  }

  ghost predicate ExitStep(s: State, t: State, p: int) {
    || (exists status :: ExitStatus(s, t, p, status)) || ExitZombie(s, t, p)
    || (exists rest :: ExitReparentBegin(s, t, p, rest))
    || ExitReparentOne(s, t, p) || ExitReparentEnd(s, t, p) || ExitFind(s, t, p) || ExitBroadcast(s, t, p)
  }

  ghost predicate WaitStep(s: State, t: State, w: int) {
    || (exists self, want, noHang :: WaitEnter(s, t, w, self, want, noHang))
    || (exists rest :: WaitScanBegin(s, t, w, rest))
    || WaitVisit(s, t, w) || WaitScanEnd(s, t, w)
    || WaitLock(s, t, w) || WaitSleep(s, t, w) || WaitSpurious(s, t, w) || WaitResume(s, t, w)
  }

  ghost predicate Next(s: State, t: State) {
    || (exists p :: ExitStep(s, t, p))
    || (exists w :: WaitStep(s, t, w))
    || (exists c, ppid, leader :: Create(s, t, c, ppid, leader))
  }

  /** At the start nobody waits and nobody has begun to exit. */
  ghost predicate Init(s: State) {
    && s.procs.Keys == s.exits.Keys && s.waiters == map[] && !s.tableLocked
    && (forall c :: c in s.procs ==> c > 0 && s.exits[c].Idle?)
    && (forall c :: c in s.procs ==> s.procs[c].life.Running? && s.procs[c].begun == [] && s.procs[c].reaped == [])
  }

  // ----- the invariant -----

  /** The exit thread of a zombie still has its broadcast to this parent before it. */
  ghost predicate WillWake(pc: ExitPc, parent: int) {
    pc.Stamped? || pc.Marked? || pc.Reparenting? || pc.Reparented? || pc == Found(parent)
  }

  /** Every zombie leader child that a waiter has passed by has yet to broadcast. */
  ghost predicate WaiterSafe(s: State, w: Waiter)
    requires s.procs.Keys == s.exits.Keys
  {
    w.pc.Second? || w.pc.Ready? || w.pc.Asleep? ==>
      forall c :: c in s.procs && Matches(w, c, s.procs[c]) && s.procs[c].leader && s.procs[c].life.Zombie? ==>
        (w.pc.Second? && c in w.pc.rest) || WillWake(s.exits[c], w.self)
  }

  /** A zombie leader has begun its exit, and the parent it found is still its parent. */
  ghost predicate ExitSafe(s: State, c: int)
    requires c in s.procs && c in s.exits
  {
    s.procs[c].leader && s.procs[c].life.Zombie? ==>
      !s.exits[c].Idle? && (s.exits[c].Found? ==> s.exits[c].parent == s.procs[c].ppid)
  }

  /** Each report, pending report and stored status is matched by an exit begun. */
  ghost predicate Accounted(p: Proc, pc: ExitPc) {
    && |p.reaped| + (if p.life.Zombie? then 1 else 0) + (if pc.Stamped? then 1 else 0) <= |p.begun|
    && (p.life.Zombie? || pc.Stamped? ==> p.status == p.begun[|p.begun| - 1])
    && (forall k :: 0 <= k < |p.reaped| ==> p.reaped[k] in p.begun)
  }

  ghost predicate Inv(s: State) {
    && s.procs.Keys == s.exits.Keys
    && (forall w :: w in s.waiters ==> s.waiters[w].self in s.procs && WaiterSafe(s, s.waiters[w]))
    && (forall c :: c in s.procs ==> ExitSafe(s, c) && Accounted(s.procs[c], s.exits[c]))
  }

  lemma StatusKeeps(s: State, t: State, p: int, status: int)
    requires Inv(s)
    requires ExitStatus(s, t, p, status)
    ensures Inv(t)
  {
  }

  lemma ZombieKeeps(s: State, t: State, p: int)
    requires Inv(s)
    requires ExitZombie(s, t, p)
    ensures Inv(t)
  {
  }

  lemma ReparentBeginKeeps(s: State, t: State, p: int, rest: seq<int>)
    requires Inv(s)
    requires ExitReparentBegin(s, t, p, rest)
    ensures Inv(t)
  {
  }

  lemma ReparentOneKeeps(s: State, t: State, p: int)
    requires Inv(s)
    requires ExitReparentOne(s, t, p)
    ensures Inv(t)
  {
  }

  lemma ReparentEndKeeps(s: State, t: State, p: int)
    requires Inv(s)
    requires ExitReparentEnd(s, t, p)
    ensures Inv(t)
  {
  }

  lemma FindKeeps(s: State, t: State, p: int)
    requires Inv(s)
    requires ExitFind(s, t, p)
    ensures Inv(t)
  {
  }

  lemma BroadcastKeeps(s: State, t: State, p: int)
    requires Inv(s)
    requires ExitBroadcast(s, t, p)
    ensures Inv(t)
  {
  }

  lemma ExitKeeps(s: State, t: State, p: int)
    requires Inv(s)
    requires ExitStep(s, t, p)
    ensures Inv(t)
  {
    if status :| ExitStatus(s, t, p, status) {
      StatusKeeps(s, t, p, status);
    } else if ExitZombie(s, t, p) {
      ZombieKeeps(s, t, p);
    } else if rest :| ExitReparentBegin(s, t, p, rest) {
      ReparentBeginKeeps(s, t, p, rest);
    } else if ExitReparentOne(s, t, p) {
      ReparentOneKeeps(s, t, p);
    } else if ExitReparentEnd(s, t, p) {
      ReparentEndKeeps(s, t, p);
    } else if ExitFind(s, t, p) {
      FindKeeps(s, t, p);
    } else {
      BroadcastKeeps(s, t, p);
    }
  }

  lemma EnterKeeps(s: State, t: State, w: int, self: int, want: int, noHang: bool)
    requires Inv(s) && WaitEnter(s, t, w, self, want, noHang)
    ensures Inv(t)
  {
  }

  lemma ScanBeginKeeps(s: State, t: State, w: int, rest: seq<int>)
    requires Inv(s) && WaitScanBegin(s, t, w, rest)
    ensures Inv(t)
  {
  }

  lemma VisitKeeps(s: State, t: State, w: int)
    requires Inv(s) && WaitVisit(s, t, w)
    ensures Inv(t)
  {
  }

  lemma ScanEndKeeps(s: State, t: State, w: int)
    requires Inv(s) && WaitScanEnd(s, t, w)
    ensures Inv(t)
  {
  }

  /** Moves to places where nothing is promised, and from ready to asleep. */
  lemma MoveKeeps(s: State, t: State, w: int, pc: WaitPc)
    requires Inv(s) && w in s.waiters && WaitMove(s, t, w, pc, s.tableLocked)
    requires pc.Locked? || pc.Awake? || pc.Start? || (pc.Asleep? && s.waiters[w].pc.Ready?)
    ensures Inv(t)
  {
  }

  lemma WaitKeeps(s: State, t: State, w: int)
    requires Inv(s)
    requires WaitStep(s, t, w)
    ensures Inv(t)
  {
    if self, want, noHang :| WaitEnter(s, t, w, self, want, noHang) {
      EnterKeeps(s, t, w, self, want, noHang);
    } else if rest :| WaitScanBegin(s, t, w, rest) {
      ScanBeginKeeps(s, t, w, rest);
    } else if WaitVisit(s, t, w) {
      VisitKeeps(s, t, w);
    } else if WaitScanEnd(s, t, w) {
      ScanEndKeeps(s, t, w);
    } else if WaitLock(s, t, w) {
      MoveKeeps(s, t, w, Locked);
    } else if WaitSleep(s, t, w) {
      MoveKeeps(s, t, w, Asleep);
    } else if WaitSpurious(s, t, w) {
      MoveKeeps(s, t, w, Awake);
    } else {
      MoveKeeps(s, t, w, Start);
    }
  }

  /** Every step of any thread keeps the invariant. */
  lemma NextKeeps(s: State, t: State)
    requires Inv(s)
    requires Next(s, t)
    ensures Inv(t)
  {
    if p :| ExitStep(s, t, p) {
      ExitKeeps(s, t, p);
    } else if w :| WaitStep(s, t, w) {
      WaitKeeps(s, t, w);
    } else {
      var c, ppid, leader :| Create(s, t, c, ppid, leader);
    }
  }

  /** Any interleaving, from the start. */
  ghost predicate Execution(run: seq<State>) {
    && run != [] && Init(run[0])
    && (forall k :: 0 < k < |run| ==> StepAt(run, k))
  }

  ghost predicate StepAt(run: seq<State>, k: int)
    requires 0 < k < |run|
  {
    Next(run[k - 1], run[k])
  }

  lemma {:induction false} ExecutionInv(run: seq<State>, k: nat)
    requires Execution(run)
    requires k < |run|
    ensures Inv(run[k])
  {
    if k == 0 {
    } else {
      ExecutionInv(run, k - 1);
      assert StepAt(run, k);
      NextKeeps(run[k - 1], run[k]);
    }
  }

  /**
   No wake-up is lost: in every state of every interleaving, if a thread sleeps while a
   child it waits for is a zombie leader, that child's exit still has its broadcast to
   this very parent before it.
   */
  lemma NoLostWakeup(run: seq<State>, k: nat, w: int, c: int)
    requires Execution(run)
    requires k < |run|
    requires w in run[k].waiters && run[k].waiters[w].pc.Asleep?
    requires c in run[k].procs && run[k].procs[c].ppid == run[k].waiters[w].self
    requires run[k].waiters[w].want <= 0 || run[k].waiters[w].want == c
    requires run[k].procs[c].leader && run[k].procs[c].life.Zombie?
    ensures c in run[k].exits && WillWake(run[k].exits[c], run[k].waiters[w].self)
  {
    ExecutionInv(run, k);
  }

  /** A process's reports never outnumber its exits, and each carries a status it exited with. */
  lemma ReportsMatchExits(run: seq<State>, k: nat, c: int)
    requires Execution(run)
    requires k < |run|
    requires c in run[k].procs
    ensures |run[k].procs[c].reaped| <= |run[k].procs[c].begun|
    ensures forall j :: 0 <= j < |run[k].procs[c].reaped| ==> run[k].procs[c].reaped[j] in run[k].procs[c].begun
  {
    ExecutionInv(run, k);
  }

  /** A process that exits once is reported at most once, with its own status. */
  lemma ReapedAtMostOnce(run: seq<State>, k: nat, c: int, status: int)
    requires Execution(run)
    requires k < |run|
    requires c in run[k].procs && run[k].procs[c].begun == [status]
    ensures run[k].procs[c].reaped == [] || run[k].procs[c].reaped == [status]
  {
    ReportsMatchExits(run, k, c);
    var r := run[k].procs[c].reaped;
    assert r != [] ==> r[0] in [status];
  }

  // ----- exiting twice -----

  /** Process 1 with one child, 2; `pc` is where the child's exit is. */
  function Pair(life: Life, status: int, begun: seq<int>, reaped: seq<int>, pc: ExitPc,
                waiters: map<int, Waiter>, locked: bool): State
  {
    State(map[1 := Proc(0, true, Running, 0, [], []), 2 := Proc(1, true, life, status, begun, reaped)],
          map[1 := Idle, 2 := pc], waiters, locked)
  }

  ghost predicate Quiet(ws: map<int, Waiter>, next: nat) {
    forall w :: w in ws ==> w < next && ws[w].pc.Returned?
  }

  lemma NobodyToWake(ws: map<int, Waiter>, next: nat)
    requires Quiet(ws, next)
    ensures (map w | w in ws :: Woken(ws[w], 1)) == ws
  {
    assert forall w :: w in ws ==> Woken(ws[w], 1) == ws[w];
  }

  lemma Stamps(life: Life, prev: int, a: int, begun: seq<int>, reaped: seq<int>, start: ExitPc, ws: map<int, Waiter>)
    requires (start.Idle? || start.Done?) && forall x :: x in ws ==> ws[x].pc.Returned? || ws[x].pc.Start?
    ensures Next(Pair(life, prev, begun, reaped, start, ws, false), Pair(life, a, begun + [a], reaped, Stamped, ws, false))
  {
    var s, t := Pair(life, prev, begun, reaped, start, ws, false), Pair(life, a, begun + [a], reaped, Stamped, ws, false);
    assert ExitStatus(s, t, 2, a);
    assert ExitStep(s, t, 2);
  }

  lemma Dies(life: Life, a: int, begun: seq<int>, reaped: seq<int>, ws: map<int, Waiter>)
    ensures Next(Pair(life, a, begun, reaped, Stamped, ws, false), Pair(Zombie, a, begun, reaped, Marked, ws, false))
  {
    var s, t := Pair(life, a, begun, reaped, Stamped, ws, false), Pair(Zombie, a, begun, reaped, Marked, ws, false);
    assert ExitZombie(s, t, 2);
    assert ExitStep(s, t, 2);
  }

  lemma Scans(a: int, begun: seq<int>, reaped: seq<int>, ws: map<int, Waiter>, w: nat)
    ensures Next(Pair(Zombie, a, begun, reaped, Marked, ws[w := Waiter(1, 2, false, Start)], false),
                 Pair(Zombie, a, begun, reaped, Marked, ws[w := Waiter(1, 2, false, First([2, 1], false))], true))
  {
    var s := Pair(Zombie, a, begun, reaped, Marked, ws[w := Waiter(1, 2, false, Start)], false);
    var t := Pair(Zombie, a, begun, reaped, Marked, ws[w := Waiter(1, 2, false, First([2, 1], false))], true);
    assert WaitScanBegin(s, t, w, [2, 1]);
    assert WaitStep(s, t, w);
  }

  lemma Reaps(a: int, begun: seq<int>, reaped: seq<int>, ws: map<int, Waiter>, w: nat)
    ensures Next(Pair(Zombie, a, begun, reaped, Marked, ws[w := Waiter(1, 2, false, First([2, 1], false))], true),
                 Pair(Dead, a, begun, reaped + [a], Marked, ws[w := Waiter(1, 2, false, Returned(2))], false))
  {
    var s := Pair(Zombie, a, begun, reaped, Marked, ws[w := Waiter(1, 2, false, First([2, 1], false))], true);
    var t := Pair(Dead, a, begun, reaped + [a], Marked, ws[w := Waiter(1, 2, false, Returned(2))], false);
    assert WaitVisit(s, t, w);
    assert WaitStep(s, t, w);
  }

  lemma PassBegins(a: int, begun: seq<int>, reaped: seq<int>, ws: map<int, Waiter>)
    ensures Next(Pair(Dead, a, begun, reaped, Marked, ws, false), Pair(Dead, a, begun, reaped, Reparenting([1, 2]), ws, true))
  {
    var s, t := Pair(Dead, a, begun, reaped, Marked, ws, false), Pair(Dead, a, begun, reaped, Reparenting([1, 2]), ws, true);
    assert ExitReparentBegin(s, t, 2, [1, 2]);
    assert ExitStep(s, t, 2);
  }

  lemma PassGoesOn(a: int, begun: seq<int>, reaped: seq<int>, ws: map<int, Waiter>, c: int, rest: seq<int>)
    requires c == 1 || c == 2
    ensures Next(Pair(Dead, a, begun, reaped, Reparenting([c] + rest), ws, true),
                 Pair(Dead, a, begun, reaped, Reparenting(rest), ws, true))
  {
    var s := Pair(Dead, a, begun, reaped, Reparenting([c] + rest), ws, true);
    var t := Pair(Dead, a, begun, reaped, Reparenting(rest), ws, true);
    assert ([c] + rest)[1..] == rest;
    assert ExitReparentOne(s, t, 2);
    assert ExitStep(s, t, 2);
  }

  lemma PassEnds(a: int, begun: seq<int>, reaped: seq<int>, ws: map<int, Waiter>)
    ensures Next(Pair(Dead, a, begun, reaped, Reparenting([]), ws, true), Pair(Dead, a, begun, reaped, Reparented, ws, false))
  {
    var s, t := Pair(Dead, a, begun, reaped, Reparenting([]), ws, true), Pair(Dead, a, begun, reaped, Reparented, ws, false);
    assert ExitReparentEnd(s, t, 2);
    assert ExitStep(s, t, 2);
  }

  lemma Finds(a: int, begun: seq<int>, reaped: seq<int>, ws: map<int, Waiter>)
    ensures Next(Pair(Dead, a, begun, reaped, Reparented, ws, false), Pair(Dead, a, begun, reaped, Found(1), ws, false))
  {
    var s, t := Pair(Dead, a, begun, reaped, Reparented, ws, false), Pair(Dead, a, begun, reaped, Found(1), ws, false);
    assert ExitFind(s, t, 2);
    assert ExitStep(s, t, 2);
  }

  lemma Wakes(a: int, begun: seq<int>, reaped: seq<int>, ws: map<int, Waiter>, next: nat)
    requires Quiet(ws, next)
    ensures Next(Pair(Dead, a, begun, reaped, Found(1), ws, false), Pair(Dead, a, begun, reaped, Done, ws, false))
  {
    var s, t := Pair(Dead, a, begun, reaped, Found(1), ws, false), Pair(Dead, a, begun, reaped, Done, ws, false);
    NobodyToWake(ws, next);
    assert ExitBroadcast(s, t, 2);
    assert ExitStep(s, t, 2);
  }

  lemma Enters(life: Life, prev: int, begun: seq<int>, reaped: seq<int>, pc: ExitPc, ws: map<int, Waiter>, w: nat)
    requires w !in ws
    ensures Next(Pair(life, prev, begun, reaped, pc, ws, false),
                 Pair(life, prev, begun, reaped, pc, ws[w := Waiter(1, 2, false, Start)], false))
  {
    var s := Pair(life, prev, begun, reaped, pc, ws, false);
    var t := Pair(life, prev, begun, reaped, pc, ws[w := Waiter(1, 2, false, Start)], false);
    assert WaitEnter(s, t, w, 1, 2, false);
    assert WaitStep(s, t, w);
  }

  lemma Extend(run: seq<State>, s: State, t: State) returns (longer: seq<State>)
    requires Execution(run) && s == run[|run| - 1] && Next(s, t)
    ensures Execution(longer) && longer[|longer| - 1] == t
  {
    longer := run + [t];
    forall k | 0 < k < |longer|
      ensures StepAt(longer, k)
    {
      if k < |run| {
        assert StepAt(run, k) && longer[k - 1] == run[k - 1] && longer[k] == run[k];
      }
    }
  }

  /** The child exits and is reported to waiter `w`. */
  lemma ExitsAndIsReported(run: seq<State>, life: Life, prev: int, a: int, begun: seq<int>, reaped: seq<int>, pc: ExitPc,
                           ws: map<int, Waiter>, w: nat)
    returns (longer: seq<State>)
    requires Execution(run) && run[|run| - 1] == Pair(life, prev, begun, reaped, pc, ws, false)
    requires (pc.Idle? || pc.Done?) && Quiet(ws, w)
    ensures Execution(longer)
    ensures longer[|longer| - 1] ==
      Pair(Dead, a, begun + [a], reaped + [a], Marked, ws[w := Waiter(1, 2, false, Returned(2))], false)
  {
    var b, started := begun + [a], ws[w := Waiter(1, 2, false, Start)];
    var s0, s1 := Pair(life, prev, begun, reaped, pc, ws, false), Pair(life, prev, begun, reaped, pc, started, false);
    var s2, s3 := Pair(life, a, b, reaped, Stamped, started, false), Pair(Zombie, a, b, reaped, Marked, started, false);
    var s4 := Pair(Zombie, a, b, reaped, Marked, ws[w := Waiter(1, 2, false, First([2, 1], false))], true);
    var s5 := Pair(Dead, a, b, reaped + [a], Marked, ws[w := Waiter(1, 2, false, Returned(2))], false);
    Enters(life, prev, begun, reaped, pc, ws, w);
    longer := Extend(run, s0, s1);
    Stamps(life, prev, a, begun, reaped, pc, started);
    longer := Extend(longer, s1, s2);
    Dies(life, a, b, reaped, started);
    longer := Extend(longer, s2, s3);
    Scans(a, b, reaped, ws, w);
    longer := Extend(longer, s3, s4);
    Reaps(a, b, reaped, ws, w);
    longer := Extend(longer, s4, s5);
  }

  /** The rest of its exit. */
  lemma FinishesExit(run: seq<State>, a: int, begun: seq<int>, reaped: seq<int>, ws: map<int, Waiter>, next: nat)
    returns (longer: seq<State>)
    requires Execution(run) && run[|run| - 1] == Pair(Dead, a, begun, reaped, Marked, ws, false) && Quiet(ws, next)
    ensures Execution(longer) && longer[|longer| - 1] == Pair(Dead, a, begun, reaped, Done, ws, false)
  {
    var s0, s1 := Pair(Dead, a, begun, reaped, Marked, ws, false), Pair(Dead, a, begun, reaped, Reparenting([1, 2]), ws, true);
    var s2 := Pair(Dead, a, begun, reaped, Reparenting([2]), ws, true);
    var s3 := Pair(Dead, a, begun, reaped, Reparenting([]), ws, true);
    var s4, s5 := Pair(Dead, a, begun, reaped, Reparented, ws, false), Pair(Dead, a, begun, reaped, Found(1), ws, false);
    PassBegins(a, begun, reaped, ws);
    longer := Extend(run, s0, s1);
    assert [1] + [2] == [1, 2] && [2] + [] == [2];
    PassGoesOn(a, begun, reaped, ws, 1, [2]);
    longer := Extend(longer, s1, s2);
    PassGoesOn(a, begun, reaped, ws, 2, []);
    longer := Extend(longer, s2, s3);
    PassEnds(a, begun, reaped, ws);
    longer := Extend(longer, s3, s4);
    Finds(a, begun, reaped, ws);
    longer := Extend(longer, s4, s5);
    Wakes(a, begun, reaped, ws, next);
    longer := Extend(longer, s5, Pair(Dead, a, begun, reaped, Done, ws, false));
  }

  /** The child has been reported exactly as often as it exited, and nobody is busy. */
  ghost predicate AllReported(s: State, statuses: seq<int>) {
    exists life, prev, pc: ExitPc, ws, next: nat ::
      (pc.Idle? || pc.Done?) && Quiet(ws, next) && s == Pair(life, prev, statuses, statuses, pc, ws, false)
  }

  /** One more exit and one more report. */
  lemma ExitAgain(run: seq<State>, statuses: seq<int>, a: int) returns (longer: seq<State>)
    requires Execution(run)
    requires AllReported(run[|run| - 1], statuses)
    ensures Execution(longer)
    ensures AllReported(longer[|longer| - 1], statuses + [a])
  {
    var life, prev, pc: ExitPc, ws, w: nat :|
      (pc.Idle? || pc.Done?) && Quiet(ws, w) && run[|run| - 1] == Pair(life, prev, statuses, statuses, pc, ws, false);
    var done := ws[w := Waiter(1, 2, false, Returned(2))];
    assert Quiet(done, w + 1);
    longer := ExitsAndIsReported(run, life, prev, a, statuses, statuses, pc, ws, w);
    longer := FinishesExit(longer, a, statuses + [a], statuses + [a], done, w + 1);
  }

  /**
   Exiting once is needed: a process that runs its exit several times, as one killed by a
   signal does, can be reported once for every time, whatever the statuses.
   */
  lemma {:induction false} ReportedOncePerExit(statuses: seq<int>) returns (run: seq<State>)
    ensures Execution(run)
    ensures AllReported(run[|run| - 1], statuses)
    decreases |statuses|
  {
    if statuses == [] {
      run := [Pair(Running, 0, [], [], Idle, map[], false)];
      assert Quiet(map[], 0);
    } else {
      var shorter := ReportedOncePerExit(statuses[..|statuses| - 1]);
      run := ExitAgain(shorter, statuses[..|statuses| - 1], statuses[|statuses| - 1]);
      assert statuses == statuses[..|statuses| - 1] + [statuses[|statuses| - 1]];
    }
  }
}
