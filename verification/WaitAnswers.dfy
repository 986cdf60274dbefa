/**
 What a wait answers.  The table lock has one holder at a time, so a scan sees one list of
 processes: it finds a child exactly when there is one, and a reparenting pass leaves none.
 */
module WaitAnswers {
  import opened Common
  import opened ExitWait

  // ----- the lock and what its holder knows -----

  predicate ExitHolds(pc: ExitPc) {
    pc.Reparenting?
  }

  predicate WaitHolds(pc: WaitPc) {
    pc.First? || pc.Second?
  }

  /** At most one thread holds the table lock, and none when it is free. */
  ghost predicate OneHolder(s: State) {
    && (!s.tableLocked ==>
          && (forall p :: p in s.exits ==> !ExitHolds(s.exits[p]))
          && (forall w :: w in s.waiters ==> !WaitHolds(s.waiters[w].pc)))
    && (forall p, q :: p in s.exits && q in s.exits && ExitHolds(s.exits[p]) && ExitHolds(s.exits[q]) ==> p == q)
    && (forall w, x :: w in s.waiters && x in s.waiters && WaitHolds(s.waiters[w].pc) && WaitHolds(s.waiters[x].pc) ==>
          w == x)
    && (forall p, w :: p in s.exits && w in s.waiters ==> !(ExitHolds(s.exits[p]) && WaitHolds(s.waiters[w].pc)))
  }

  /** Process `c` is one that the waiter asks for: a child, and the one wanted if one is. */
  ghost predicate Asked(procs: map<int, Proc>, w: Waiter, c: int) {
    c in procs && procs[c].ppid == w.self && (w.want <= 0 || c == w.want)
  }

  /** A scan that has found something is right, and one that has not has all there is before it. */
  ghost predicate ScanKnows(procs: map<int, Proc>, w: Waiter) {
    WaitHolds(w.pc) ==>
      && (w.pc.found ==> exists c :: Asked(procs, w, c))
      && (!w.pc.found ==> forall c :: Asked(procs, w, c) ==> c in w.pc.rest)
  }

  /** A reparenting pass has every remaining child before it. */
  ghost predicate PassKnows(procs: map<int, Proc>, p: int, pc: ExitPc) {
    pc.Reparenting? ==> forall c :: c in procs && procs[c].ppid == p && p != 1 ==> c in pc.rest
  }

  ghost predicate ScansKnow(s: State) {
    (forall c :: c in s.procs ==> c > 0) && forall w :: w in s.waiters ==> ScanKnows(s.procs, s.waiters[w])
  }

  ghost predicate Knowing(s: State) {
    OneHolder(s) && ScansKnow(s) && forall p :: p in s.exits ==> PassKnows(s.procs, p, s.exits[p])
  }

  /** The same processes with the same parents. */
  ghost predicate SameFamily(a: map<int, Proc>, b: map<int, Proc>) {
    a.Keys == b.Keys && forall c :: c in a ==> b[c].ppid == a[c].ppid
  }

  lemma FamilyKnows(a: map<int, Proc>, b: map<int, Proc>, w: Waiter)
    requires SameFamily(a, b) && ScanKnows(a, w)
    ensures ScanKnows(b, w)
  {
    assert forall c :: Asked(b, w, c) <==> Asked(a, w, c);
  }

  // ----- every step keeps it -----

  /** Steps of an exiting thread outside its pass: nobody's parent changes, and no lock. */
  lemma QuietExitKeeps(s: State, t: State, p: int)
    requires Knowing(s) && SameFamily(s.procs, t.procs) && t.tableLocked == s.tableLocked && t.waiters == s.waiters
    requires p in s.exits && p in t.exits && t.exits == s.exits[p := t.exits[p]]
    requires !ExitHolds(s.exits[p]) && !ExitHolds(t.exits[p])
    ensures Knowing(t)
  {
    forall w | w in t.waiters
      ensures ScanKnows(t.procs, t.waiters[w])
    {
      FamilyKnows(s.procs, t.procs, s.waiters[w]);
    }
  }

  lemma ReparentBeginKnows(s: State, t: State, p: int, rest: seq<int>)
    requires Knowing(s) && ExitReparentBegin(s, t, p, rest)
    ensures Knowing(t)
  {
  }

  lemma ReparentOneKnows(s: State, t: State, p: int)
    requires Knowing(s) && ExitReparentOne(s, t, p)
    ensures Knowing(t)
  {
    var rest := s.exits[p].rest;
    assert forall c :: c in rest ==> c == rest[0] || c in rest[1..];
  }

  lemma ReparentEndKnows(s: State, t: State, p: int)
    requires Knowing(s) && ExitReparentEnd(s, t, p)
    ensures Knowing(t)
  {
  }

  lemma BroadcastKnows(s: State, t: State, p: int)
    requires Knowing(s) && ExitBroadcast(s, t, p)
    ensures Knowing(t)
  {
    assert forall w :: w in s.waiters ==>
      w in t.waiters && t.waiters[w] == Woken(s.waiters[w], s.exits[p].parent);
  }

  lemma ExitKnows(s: State, t: State, p: int)
    requires Knowing(s) && ExitStep(s, t, p)
    ensures Knowing(t)
  {
    if status :| ExitStatus(s, t, p, status) {
      QuietExitKeeps(s, t, p);
    } else if ExitZombie(s, t, p) {
      QuietExitKeeps(s, t, p);
    } else if rest :| ExitReparentBegin(s, t, p, rest) {
      ReparentBeginKnows(s, t, p, rest);
    } else if ExitReparentOne(s, t, p) {
      ReparentOneKnows(s, t, p);
    } else if ExitReparentEnd(s, t, p) {
      ReparentEndKnows(s, t, p);
    } else if ExitFind(s, t, p) {
      QuietExitKeeps(s, t, p);
    } else {
      BroadcastKnows(s, t, p);
    }
  }

  /** Steps of a waiting thread that neither hold nor take the table lock. */
  lemma QuietWaitKnows(s: State, t: State, w: int)
    requires Knowing(s) && t.procs == s.procs && t.exits == s.exits && t.tableLocked == s.tableLocked
    requires w in t.waiters && t.waiters == s.waiters[w := t.waiters[w]] && !WaitHolds(t.waiters[w].pc)
    requires w in s.waiters ==> !WaitHolds(s.waiters[w].pc)
    ensures Knowing(t)
  {
  }

  lemma ScanBeginKnows(s: State, t: State, w: int, rest: seq<int>)
    requires Knowing(s) && WaitScanBegin(s, t, w, rest)
    ensures Knowing(t)
  {
  }

  lemma VisitKnows(s: State, t: State, w: int)
    requires Knowing(s) && WaitVisit(s, t, w)
    ensures Knowing(t)
  {
    var x := s.waiters[w];
    var c, rest := x.pc.rest[0], x.pc.rest;
    assert forall d :: d in rest ==> d == c || d in rest[1..];
    if Matches(x, c, s.procs[c]) && s.procs[c].life.Zombie? {
      assert SameFamily(s.procs, t.procs);
    } else {
      var y := t.waiters[w];
      assert y == x.(pc := Advance(x.pc, Matches(x, c, s.procs[c])));
      assert forall d :: Asked(t.procs, y, d) <==> Asked(s.procs, x, d);
      if Matches(x, c, s.procs[c]) {
        assert Asked(t.procs, y, c);
      }
      assert ScanKnows(t.procs, y);
    }
  }

  lemma ScanEndKnows(s: State, t: State, w: int)
    requires Knowing(s) && WaitScanEnd(s, t, w)
    ensures Knowing(t)
  {
  }

  lemma WaitKnows(s: State, t: State, w: int)
    requires Knowing(s) && WaitStep(s, t, w)
    ensures Knowing(t)
  {
    if self, want, noHang :| WaitEnter(s, t, w, self, want, noHang) {
      QuietWaitKnows(s, t, w);
    } else if rest :| WaitScanBegin(s, t, w, rest) {
      ScanBeginKnows(s, t, w, rest);
    } else if WaitVisit(s, t, w) {
      VisitKnows(s, t, w);
    } else if WaitScanEnd(s, t, w) {
      ScanEndKnows(s, t, w);
    } else {
      QuietWaitKnows(s, t, w);
    }
  }

  lemma CreateKnows(s: State, t: State, c: int, ppid: int, leader: bool)
    requires Knowing(s) && Create(s, t, c, ppid, leader)
    ensures Knowing(t)
  {
  }

  lemma NextKnows(s: State, t: State)
    requires Knowing(s) && Next(s, t)
    ensures Knowing(t)
  {
    if p :| ExitStep(s, t, p) {
      ExitKnows(s, t, p);
    } else if w :| WaitStep(s, t, w) {
      WaitKnows(s, t, w);
    } else {
      var c, ppid, leader :| Create(s, t, c, ppid, leader);
      CreateKnows(s, t, c, ppid, leader);
    }
  }

  lemma {:induction false} AlwaysKnowing(run: seq<State>, k: nat)
    requires Execution(run) && k < |run|
    ensures Knowing(run[k])
    decreases k
  {
    if k > 0 {
      AlwaysKnowing(run, k - 1);
      assert StepAt(run, k);
      NextKnows(run[k - 1], run[k]);
    }
  }

  lemma AlwaysScans(run: seq<State>, k: nat)
    requires Execution(run) && k < |run|
    ensures ScansKnow(run[k])
  {
    AlwaysKnowing(run, k);
  }

  // ----- what a wait answers -----

  /** Waiter `w` comes to `pc` in the step from `s` to `t`. */
  ghost predicate Comes(s: State, t: State, w: int, pc: WaitPc) {
    w in s.waiters && w in t.waiters && t.waiters[w].pc == pc && s.waiters[w].pc != pc
  }

  /** What a waiter asks for. */
  ghost predicate SameQuestion(x: Waiter, y: Waiter) {
    x.self == y.self && x.want == y.want && x.noHang == y.noHang
  }

  /** Exiting threads leave waiters alone, apart from waking them. */
  lemma ExitFrame(s: State, t: State, p: int)
    requires ExitStep(s, t, p)
    ensures t.waiters.Keys == s.waiters.Keys
    ensures forall w :: w in s.waiters ==> t.waiters[w] == s.waiters[w] || t.waiters[w] == s.waiters[w].(pc := Awake)
  {
  }

  lemma ScanFrame(s: State, t: State, x: int)
    requires WaitVisit(s, t, x) || WaitScanEnd(s, t, x)
    ensures x in s.waiters && x in t.waiters && SameQuestion(s.waiters[x], t.waiters[x])
    ensures t.waiters == s.waiters[x := t.waiters[x]]
  {
  }

  lemma SleepFrame(s: State, t: State, x: int)
    requires WaitLock(s, t, x) || WaitSleep(s, t, x) || WaitSpurious(s, t, x) || WaitResume(s, t, x)
    ensures x in s.waiters && x in t.waiters && SameQuestion(s.waiters[x], t.waiters[x])
    ensures t.waiters == s.waiters[x := t.waiters[x]]
  {
  }

  /** Waiting threads leave each other alone, and never change what they ask for. */
  lemma WaitFrame(s: State, t: State, x: int)
    requires WaitStep(s, t, x)
    ensures x in t.waiters && t.waiters == s.waiters[x := t.waiters[x]]
    ensures x in s.waiters ==> SameQuestion(s.waiters[x], t.waiters[x])
    ensures x !in s.waiters ==> t.waiters[x].pc.Start?
  {
    if WaitVisit(s, t, x) || WaitScanEnd(s, t, x) {
      ScanFrame(s, t, x);
    } else if WaitLock(s, t, x) || WaitSleep(s, t, x) || WaitSpurious(s, t, x) || WaitResume(s, t, x) {
      SleepFrame(s, t, x);
    }
  }

  lemma CreateFrame(s: State, t: State)
    requires Next(s, t) && (forall p :: !ExitStep(s, t, p)) && (forall w :: !WaitStep(s, t, w))
    ensures t.waiters == s.waiters
  {
  }

  /** One step, as a waiter sees it: its own, or it was woken, or nothing. */
  lemma WaiterStep(s: State, t: State, w: int)
    requires Next(s, t) && w in t.waiters && (w in s.waiters || !t.waiters[w].pc.Start?)
    ensures w in s.waiters && SameQuestion(s.waiters[w], t.waiters[w])
    ensures WaitStep(s, t, w) || t.waiters[w] == s.waiters[w] || t.waiters[w].pc.Awake?
  {
    if p :| ExitStep(s, t, p) {
      ExitFrame(s, t, p);
    } else if x :| WaitStep(s, t, x) {
      WaitFrame(s, t, x);
    } else {
      CreateFrame(s, t);
    }
  }

  /** Where a waiter's own step can lead. */
  lemma StepEnds(s: State, t: State, w: int)
    requires WaitStep(s, t, w) && w in s.waiters
    ensures w in t.waiters
    ensures
      var x, pc := s.waiters[w].pc, t.waiters[w].pc;
      pc == Returned(-10) || pc == Returned(0) || pc == Unlocked || pc == Ready ==>
        WaitScanEnd(s, t, w) || WaitVisit(s, t, w)
    ensures t.waiters[w].pc.Asleep? ==> s.waiters[w].pc.Ready?
    ensures t.waiters[w].pc.Returned? && t.waiters[w].pc.pid > 0 ==> WaitVisit(s, t, w)
  {
  }

  lemma ScanEndIs(s: State, t: State, w: int)
    requires WaitScanEnd(s, t, w)
    ensures w in t.waiters && WaitHolds(s.waiters[w].pc) && s.waiters[w].pc.rest == [] && t.procs == s.procs
    ensures t.waiters[w].pc == Returned(-10) <==> !s.waiters[w].pc.found
    ensures t.waiters[w].pc == Returned(0) ==> s.waiters[w].noHang
    ensures t.waiters[w].pc == Unlocked ==> !s.waiters[w].noHang
  {
  }

  lemma VisitIs(s: State, t: State, w: int)
    requires ScansKnow(s) && WaitVisit(s, t, w)
    ensures w in t.waiters
    ensures WaitHolds(t.waiters[w].pc) || (t.waiters[w].pc == Returned(s.waiters[w].pc.rest[0]) && s.waiters[w].pc.rest[0] > 0)
  {
  }

  /** A wait that ends without a child, or goes on, does so at the end of a scan. */
  lemma EndsScan(s: State, t: State, w: int, pc: WaitPc)
    requires ScansKnow(s) && WaitStep(s, t, w) && Comes(s, t, w, pc)
    requires pc == Returned(-10) || pc == Returned(0) || pc == Unlocked || pc == Ready
    ensures WaitHolds(s.waiters[w].pc) && s.waiters[w].pc.rest == [] && t.procs == s.procs
    ensures pc == Returned(-10) <==> !s.waiters[w].pc.found
    ensures (pc == Returned(0) ==> s.waiters[w].noHang) && (pc == Unlocked ==> !s.waiters[w].noHang)
  {
    StepEnds(s, t, w);
    if WaitScanEnd(s, t, w) {
      ScanEndIs(s, t, w);
    } else {
      VisitIs(s, t, w);
    }
  }

  lemma FailsIn(s: State, t: State, w: int, c: int)
    requires ScansKnow(s) && Next(s, t) && Comes(s, t, w, Returned(-10)) && c in t.procs
    ensures !(t.procs[c].ppid == t.waiters[w].self && (t.waiters[w].want <= 0 || t.waiters[w].want == c))
  {
    WaiterStep(s, t, w);
    EndsScan(s, t, w, Returned(-10));
    assert ScanKnows(s.procs, s.waiters[w]) && !Asked(s.procs, s.waiters[w], c);
  }

  /** A wait fails for want of children only when there is none that it asks for. */
  lemma FailsWithoutChild(run: seq<State>, k: nat, w: int, c: int)
    requires Execution(run) && 0 < k < |run| && Comes(run[k - 1], run[k], w, Returned(-10)) && c in run[k].procs
    ensures var x := run[k].waiters[w];
      !(run[k].procs[c].ppid == x.self && (x.want <= 0 || x.want == c))
  {
    AlwaysScans(run, k - 1);
    assert StepAt(run, k);
    FailsIn(run[k - 1], run[k], w, c);
  }

  lemma WaitsIn(s: State, t: State, w: int, pc: WaitPc) returns (c: int)
    requires ScansKnow(s) && Next(s, t) && Comes(s, t, w, pc) && (pc == Returned(0) || pc == Unlocked || pc == Ready)
    ensures
      var x := t.waiters[w];
      && c in t.procs && t.procs[c].ppid == x.self && (x.want <= 0 || x.want == c)
      && (pc == Returned(0) ==> x.noHang) && (pc == Unlocked ==> !x.noHang)
  {
    WaiterStep(s, t, w);
    EndsScan(s, t, w, pc);
    assert ScanKnows(s.procs, s.waiters[w]);
    c :| Asked(s.procs, s.waiters[w], c);
  }

  /**
   A wait that answers 0, goes to lock or gets ready to sleep has a child that it asks for;
   it answers 0 only if it must not hang, and goes to lock only if it may.
   */
  lemma WaitsForChild(run: seq<State>, k: nat, w: int, pc: WaitPc) returns (c: int)
    requires Execution(run) && 0 < k < |run| && Comes(run[k - 1], run[k], w, pc)
    requires pc == Returned(0) || pc == Unlocked || pc == Ready
    ensures
      var x := run[k].waiters[w];
      && c in run[k].procs && run[k].procs[c].ppid == x.self && (x.want <= 0 || x.want == c)
      && (pc == Returned(0) ==> x.noHang) && (pc == Unlocked ==> !x.noHang)
  {
    var s, t := run[k - 1], run[k];
    AlwaysScans(run, k - 1);
    assert StepAt(run, k);
    c := WaitsIn(s, t, w, pc);
  }

  /** Whoever sleeps or is ready to was so before, or got ready now, or has just fallen asleep. */
  lemma SleepsFrom(s: State, t: State, w: int)
    requires Next(s, t) && w in t.waiters && (t.waiters[w].pc.Asleep? || t.waiters[w].pc.Ready?)
    ensures w in s.waiters && SameQuestion(s.waiters[w], t.waiters[w])
    ensures s.waiters[w].pc.Asleep? || s.waiters[w].pc.Ready? || t.waiters[w].pc.Ready?
  {
    WaiterStep(s, t, w);
    if WaitStep(s, t, w) {
      StepEnds(s, t, w);
    }
  }

  /** Nobody sleeps without having had such a child when getting ready. */
  lemma {:induction false} SleepsWithChild(run: seq<State>, k: nat, w: int) returns (j: nat, c: int)
    requires Execution(run) && k < |run| && w in run[k].waiters
    requires run[k].waiters[w].pc.Asleep? || run[k].waiters[w].pc.Ready?
    ensures j <= k && w in run[j].waiters && run[j].waiters[w].pc.Ready?
    ensures run[j].waiters[w].self == run[k].waiters[w].self && run[j].waiters[w].want == run[k].waiters[w].want
    ensures c in run[j].procs && run[j].procs[c].ppid == run[j].waiters[w].self
    ensures run[j].waiters[w].want <= 0 || run[j].waiters[w].want == c
    decreases k
  {
    assert k > 0 && StepAt(run, k);
    SleepsFrom(run[k - 1], run[k], w);
    if run[k - 1].waiters[w].pc.Asleep? || run[k - 1].waiters[w].pc.Ready? {
      j, c := SleepsWithChild(run, k - 1, w);
    } else {
      j := k;
      c := WaitsForChild(run, k, w, Ready);
    }
  }

  lemma AnswersIn(s: State, t: State, w: int, c: int)
    requires Next(s, t) && Comes(s, t, w, Returned(c)) && c > 0
    ensures
      var x, p := t.waiters[w], s.procs;
      && c in p && p[c].ppid == x.self && (x.want <= 0 || x.want == c) && p[c].life.Zombie?
      && t.procs == p[c := p[c].(life := Dead, reaped := p[c].reaped + [p[c].status])]
  {
    WaiterStep(s, t, w);
    StepEnds(s, t, w);
  }

  /** A wait answers with a process only if it is one it asks for and a zombie, whose status it then reports. */
  lemma AnswersWithZombie(run: seq<State>, k: nat, w: int, c: int)
    requires Execution(run) && 0 < k < |run| && c > 0 && Comes(run[k - 1], run[k], w, Returned(c))
    ensures
      var x, p := run[k].waiters[w], run[k - 1].procs;
      && c in p && p[c].ppid == x.self && (x.want <= 0 || x.want == c) && p[c].life.Zombie?
      && run[k].procs == p[c := p[c].(life := Dead, reaped := p[c].reaped + [p[c].status])]
  {
    assert StepAt(run, k);
    AnswersIn(run[k - 1], run[k], w, c);
  }

  lemma VisitGoesOn(s: State, t: State, w: int)
    requires WaitStep(s, t, w) && w in s.waiters && w in t.waiters && Scanning(s.waiters[w].pc) && WaitHolds(t.waiters[w].pc)
    ensures WaitVisit(s, t, w)
  {
  }

  /** A scan never goes past a zombie that it asks for. */
  lemma StopsAtZombie(s: State, t: State, w: int)
    requires Next(s, t) && w in s.waiters && w in t.waiters && Scanning(s.waiters[w].pc) && WaitHolds(t.waiters[w].pc)
    requires t.waiters[w] != s.waiters[w]
    ensures t.waiters[w].pc.rest == s.waiters[w].pc.rest[1..] && s.waiters[w].pc.rest[0] in s.procs
    ensures
      var x, c := t.waiters[w], s.waiters[w].pc.rest[0];
      !(s.procs[c].life.Zombie? && s.procs[c].ppid == x.self && (x.want <= 0 || x.want == c))
  {
    WaiterStep(s, t, w);
    VisitGoesOn(s, t, w);
  }

  // ----- what a pass leaves -----

  lemma ExitEndsPass(s: State, t: State, q: int, p: int)
    requires ExitStep(s, t, q) && p in s.exits && p in t.exits && s.exits[p].Reparenting? && t.exits[p].Reparented?
    ensures s.exits[p].rest == [] && t.procs == s.procs
  {
  }

  lemma PassEnds(s: State, t: State, p: int)
    requires Next(s, t) && p in s.exits && p in t.exits && s.exits[p].Reparenting? && t.exits[p].Reparented?
    ensures s.exits[p].rest == [] && t.procs == s.procs
  {
    if q :| ExitStep(s, t, q) {
      ExitEndsPass(s, t, q, p);
    }
  }

  /** When a process has reparented its children, none is left. */
  lemma NoChildLeft(run: seq<State>, k: nat, p: int, c: int)
    requires Execution(run) && 0 < k < |run| && p in run[k - 1].exits && p in run[k].exits && p != 1
    requires run[k - 1].exits[p].Reparenting? && run[k].exits[p].Reparented? && c in run[k].procs
    ensures run[k].procs[c].ppid != p
  {
    AlwaysKnowing(run, k - 1);
    assert StepAt(run, k);
    PassEnds(run[k - 1], run[k], p);
    assert PassKnows(run[k - 1].procs, p, run[k - 1].exits[p]);
  }

  lemma ParentIn(s: State, t: State, c: int)
    requires Next(s, t) && c in s.procs
    ensures c in t.procs
    ensures t.procs[c].ppid == s.procs[c].ppid || (t.procs[c].ppid == 1 && exists q :: ExitReparentOne(s, t, q))
  {
    if q :| ExitStep(s, t, q) {
      ExitParents(s, t, q, c);
    } else if w :| WaitStep(s, t, w) {
      WaitParents(s, t, w, c);
    }
  }

  lemma ExitParents(s: State, t: State, q: int, c: int)
    requires ExitStep(s, t, q) && c in s.procs
    ensures c in t.procs
    ensures t.procs[c].ppid == s.procs[c].ppid || (t.procs[c].ppid == 1 && ExitReparentOne(s, t, q))
  {
  }

  lemma WaitParents(s: State, t: State, w: int, c: int)
    requires WaitStep(s, t, w) && c in s.procs
    ensures c in t.procs && t.procs[c].ppid == s.procs[c].ppid
  {
  }

  lemma OrphanOf(s: State, t: State, q: int, c: int)
    requires ExitReparentOne(s, t, q) && c in s.procs && c in t.procs && t.procs[c].ppid != s.procs[c].ppid
    ensures s.procs[c].ppid == q && s.exits[q].Reparenting?
  {
  }

  /** A process changes parents only when its parent reparents it, and then to process 1. */
  lemma ParentBecomesInit(run: seq<State>, k: nat, c: int)
    requires Execution(run) && 0 < k < |run| && c in run[k - 1].procs
    ensures c in run[k].procs
    ensures run[k].procs[c].ppid != run[k - 1].procs[c].ppid ==>
      var p := run[k - 1].procs[c].ppid;
      run[k].procs[c].ppid == 1 && p in run[k - 1].exits && run[k - 1].exits[p].Reparenting?
  {
    assert StepAt(run, k);
    ParentIn(run[k - 1], run[k], c);
    if run[k].procs[c].ppid != run[k - 1].procs[c].ppid {
      var q :| ExitReparentOne(run[k - 1], run[k], q);
      OrphanOf(run[k - 1], run[k], q, c);
    }
  }
}
