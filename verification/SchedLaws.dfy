/** What the events of the process ring promise to the processes, over whole runs. */
module SchedLaws {
  import opened SchedSpec

  /** The same process up to its state, its slice and its registers. */
  predicate SameProcess(a: Proc, b: Proc) {
    a.pid == b.pid && a.priority == b.priority && a.stack == b.stack
  }

  // ---------------------------------------------------------------------------
  // Killing
  // ---------------------------------------------------------------------------

  /** A kill makes a zombie of the first process with that number, and of nobody else; everything else
      stays as it is. */
  lemma KillMarksFirst(s: Sched, pid: nat, i: nat)
    requires i < |s.ring| && s.ring[i].pid == pid && forall j :: 0 <= j < i ==> s.ring[j].pid != pid
    ensures var t := Step(s, Kill(pid));
            && |t.ring| == |s.ring| && t.cur == s.cur && t.nextPid == s.nextPid
            && t.ring[i].state == ZOMBIE && SameProcess(t.ring[i], s.ring[i])
            && t.ring[i].ticks == s.ring[i].ticks && t.ring[i].regs == s.ring[i].regs
            && forall j :: 0 <= j < |s.ring| && j != i ==> t.ring[j] == s.ring[j]
  {
  }

  /** A number that nobody has kills nobody. */
  lemma KillOfNobody(s: Sched, pid: nat)
    requires forall j :: 0 <= j < |s.ring| ==> s.ring[j].pid != pid
    ensures Step(s, Kill(pid)) == s
  {
  }

  /** The number was given away, and the process that has it is a zombie or gone. */
  ghost predicate Dead(s: Sched, pid: nat) {
    pid < s.nextPid && forall i :: 0 <= i < |s.ring| && s.ring[i].pid == pid ==> s.ring[i].state == ZOMBIE
  }

  lemma KilledIsDead(s: Sched, pid: nat)
    requires PidsInUse(s) && pid < s.nextPid
    ensures Dead(Step(s, Kill(pid)), pid)
  {
  }

  lemma DeadStays(s: Sched, e: Event, pid: nat)
    requires Dead(s, pid)
    ensures Dead(Step(s, e), pid)
    ensures Current(Step(s, e), pid) ==> Current(s, pid)
    ensures e.Tick? && Switches(s) ==> !Current(Step(s, e), pid)
  {
    hide Removed, Probe, Quantum, CountedLength, InitialFrame;
    if e.Reap? && s.cur < |s.ring| {
      var t := Step(s, e);
      forall i | 0 <= i < |t.ring| && t.ring[i].pid == pid ensures t.ring[i].state == ZOMBIE {
        var j := KeptMember(s, 0, i);
      }
      if !Reapable(s, s.cur) {
        KeptAt(s, 0, s.cur);
      }
    }
  }

  /** After a kill, in every later run: the process is a zombie or gone, it becomes the current one only if
      it was, and no hand-over goes to it. */
  lemma {:induction false} KilledNeverRuns(s: Sched, pid: nat, events: seq<Event>, frame: Frame)
    requires PidsInUse(s) && pid < s.nextPid
    ensures var t := Run(Step(s, Kill(pid)), events);
            && Dead(t, pid) && (Current(t, pid) ==> Current(s, pid))
            && (Switches(t) ==> !Current(Step(t, Tick(frame)), pid))
  {
    hide Step, Switches, Dead;
    KilledIsDead(s, pid);
    var k := Step(s, Kill(pid));
    if events == [] {
      KilledCurrent(s, pid);
      DeadStays(k, Tick(frame), pid);
    } else {
      var before, e := events[..|events| - 1], events[|events| - 1];
      KilledNeverRuns(s, pid, before, frame);
      DeadStays(Run(k, before), e, pid);
      DeadStays(Run(k, events), Tick(frame), pid);
    }
  }

  lemma KilledCurrent(s: Sched, pid: nat)
    ensures Current(Step(s, Kill(pid)), pid) ==> Current(s, pid)
  {
  }

  // ---------------------------------------------------------------------------
  // Whose turn it is, and for how long
  // ---------------------------------------------------------------------------

  lemma {:induction false} ProbeIsNearest(ring: seq<Proc>, i: nat, steps: nat) returns (d: nat)
    requires i < |ring| && ring[Probe(ring, i, steps)].state != ZOMBIE
    ensures d < |ring| && Probe(ring, i, steps) == Walk(i, d, |ring|)
    ensures forall e :: 0 <= e < d ==> ring[Walk(i, e, |ring|)].state == ZOMBIE
    decreases steps
  {
    assert Walk(i, 0, |ring|) == i;
    d := 0;
    if ring[i].state == ZOMBIE {
      var j := Succ(i, |ring|);
      d := ProbeIsNearest(ring, j, steps - 1);
      d := d + 1;
      forall e | 0 <= e < d ensures ring[Walk(i, e, |ring|)].state == ZOMBIE {
        assert e > 0 ==> Walk(i, e, |ring|) == Walk(j, e - 1, |ring|);
      }
    }
  }

  /** The position e places behind i in the ring of n. */
  function Behind(i: nat, e: nat, n: nat): (r: nat)
    requires n > 0
    ensures r < n
  {
    (i + e) % n
  }

  lemma BehindIsWalk(i: nat, e: nat, n: nat)
    requires i < n && 1 <= e <= n
    ensures Behind(i, e, n) == Walk(Succ(i, n), e - 1, n)
  {
  }

  /** Position r is the nearest living process behind i, d places on. */
  ghost predicate NearestLiving(ring: seq<Proc>, i: nat, d: nat, r: nat) {
    && 1 <= d <= |ring| && r == Behind(i, d, |ring|) && ring[r].state != ZOMBIE
    && forall e :: 1 <= e < d ==> ring[Behind(i, e, |ring|)].state == ZOMBIE
  }

  /** A hand-over goes to the nearest living process behind the current one in the order of the links, and
      gives it a slice of four ticks less its priority, but at least one. */
  lemma NextIsNearest(s: Sched, frame: Frame)
    requires Switches(s)
    ensures var t := Step(s, Tick(frame));
            && |t.ring| == |s.ring| && t.cur < |s.ring| && (exists d :: NearestLiving(s.ring, s.cur, d, t.cur))
            && t.ring[t.cur].state == RUNNING && SameProcess(t.ring[t.cur], s.ring[t.cur])
            && t.ring[t.cur].ticks == (if s.ring[t.cur].priority >= 3 then 1 else 4 - s.ring[t.cur].priority)
            && forall j :: 0 <= j < |s.ring| && j != s.cur && j != t.cur ==> t.ring[j] == s.ring[j]
  {
    hide Probe, Walk, Behind, Succ, CountedLength;
    var n, i := |s.ring|, Succ(s.cur, |s.ring|);
    var c := ProbeIsNearest(Stopped(s), i, CountedLength(s.ring));
    BehindIsWalk(s.cur, c + 1, n);
    forall e | 1 <= e < c + 1 ensures s.ring[Behind(s.cur, e, n)].state == ZOMBIE {
      BehindIsWalk(s.cur, e, n);
    }
    assert NearestLiving(s.ring, s.cur, c + 1, Step(s, Tick(frame)).cur);
  }

  /** A slice of q ticks: the process stays the current one for q - 1 ticks, and the next one ends the
      slice, with a hand-over unless the ring is starved. */
  lemma SliceLasts(s: Sched, frame: Frame, n: nat)
    requires s.cur < |s.ring| && n < s.ring[s.cur].ticks
    ensures var t := Run(s, seq(n, _ => Tick(frame)));
            && t.cur == s.cur && |t.ring| == |s.ring|
            && (Switches(t) <==> n + 1 == s.ring[s.cur].ticks && !Starved(s))
  {
    hide Probe;
    CountDown(s, frame, n);
    var t := Run(s, seq(n, _ => Tick(frame)));
    if n + 1 == s.ring[s.cur].ticks {
      assert Stopped(t) == Stopped(s);
      SwitchesIffServed(t);
    }
  }

  /** After a yield the next tick ends the slice; nothing else changes. */
  lemma YieldEndsSlice(s: Sched)
    requires s.cur < |s.ring|
    ensures var t := Step(s, Yield);
            && t.cur == s.cur && t.nextPid == s.nextPid && |t.ring| == |s.ring| && t.ring[t.cur].ticks == 0
            && t.ring[t.cur] == s.ring[s.cur].(ticks := t.ring[t.cur].ticks)
            && (forall j :: 0 <= j < |s.ring| && j != s.cur ==> t.ring[j] == s.ring[j])
            && (Switches(t) <==> !Starved(s))
  {
    hide Probe;
    var t := Step(s, Yield);
    assert Stopped(t) == Stopped(s);
    SwitchesIffServed(t);
  }

  // ---------------------------------------------------------------------------
  // The reaper
  // ---------------------------------------------------------------------------

  ghost predicate StandsBefore(ring: seq<Proc>, p: Proc, q: Proc) {
    exists a, b :: 0 <= a < b < |ring| && ring[a] == p && ring[b] == q
  }

  /** A pass takes out exactly the zombies among the 100 processes behind the head, without the current one. */
  lemma ReapedIff(s: Sched, i: nat)
    requires PidsInUse(s) && s.cur < |s.ring| && i < |s.ring|
    ensures s.ring[i] !in Step(s, Reap).ring <==> 1 <= i <= 100 && s.ring[i].state == ZOMBIE && i != s.cur
  {
    hide Kept, Removed;
    if Reapable(s, i) {
      if s.ring[i] in Kept(s, 0) {
        var k :| 0 <= k < |Kept(s, 0)| && Kept(s, 0)[k] == s.ring[i];
        var j := KeptMember(s, 0, k);
      }
    } else {
      KeptAt(s, 0, i);
    }
  }

  /** The processes that a pass leaves were all there, and they stay in their order. */
  lemma ReapKeepsOrder(s: Sched, k: nat)
    requires k < |Step(s, Reap).ring|
    ensures Step(s, Reap).ring[k] in s.ring && Step(s, Reap).nextPid == s.nextPid
    ensures forall m :: k < m < |Step(s, Reap).ring| ==> StandsBefore(s.ring, Step(s, Reap).ring[k], Step(s, Reap).ring[m])
  {
    hide Kept, Removed;
    var t := Step(s, Reap);
    if s.cur < |s.ring| {
      var j := KeptMember(s, 0, k);
      forall m | k < m < |t.ring| ensures StandsBefore(s.ring, t.ring[k], t.ring[m]) {
        KeptInOrder(s, 0, k, m);
      }
    }
  }

  // ---------------------------------------------------------------------------
  // The first time a process runs
  // ---------------------------------------------------------------------------

  /** The frame that a new process starts with: at its entry point, at the end of its stack page, with
      interrupts enabled, the kernel's segments and all general registers 0. */
  ghost predicate StartsAt(f: Frame, entry: nat, stack: nat) {
    && f.rip == entry && f.rsp == stack + 4096
    && f.cs == 0x08 && f.ss == 0x10 && f.rflags == 0x202
    && |f.general| == 15 && forall r :: 0 <= r < 15 ==> f.general[r] == 0
  }

  /** Process pid has not run since it was created: it still has its initial frame. */
  ghost predicate Fresh(s: Sched, pid: nat, entry: nat, priority: nat, stack: nat) {
    && pid < s.nextPid
    && forall i :: 0 <= i < |s.ring| && s.ring[i].pid == pid ==>
         StartsAt(s.ring[i].regs, entry, stack) && s.ring[i].priority == priority && s.ring[i].stack == stack
  }

  /** A new process goes behind all others, ready, with the next number; the others stay as they are. */
  lemma AddAppends(s: Sched, entry: nat, priority: nat, stack: nat)
    requires PidsInUse(s)
    ensures var t := Step(s, Add(entry, priority, stack));
            && |t.ring| == |s.ring| + 1 && t.ring[..|s.ring|] == s.ring && t.nextPid == s.nextPid + 1
            && t.ring[|s.ring|].pid == s.nextPid
            && t.ring[|s.ring|].state == (if s.ring == [] then RUNNING else READY)
            && t.ring[|s.ring|].ticks == (if priority >= 3 then 1 else 4 - priority)
            && (s.ring != [] ==> t.cur == s.cur) && Fresh(t, s.nextPid, entry, priority, stack)
  {
  }

  lemma FreshStays(s: Sched, e: Event, pid: nat, entry: nat, priority: nat, stack: nat)
    requires Fresh(s, pid, entry, priority, stack) && !Current(s, pid)
    ensures Fresh(Step(s, e), pid, entry, priority, stack)
    ensures e.Tick? && Current(Step(s, e), pid) ==> StartsAt(TickStep(s, e.frame).1, entry, stack)
  {
    hide Removed, Probe, Quantum, CountedLength, InitialFrame, StartsAt;
    if e.Reap? && s.cur < |s.ring| {
      var t := Step(s, e);
      forall i | 0 <= i < |t.ring| && t.ring[i].pid == pid
        ensures StartsAt(t.ring[i].regs, entry, stack) && t.ring[i].priority == priority && t.ring[i].stack == stack
      {
        var j := KeptMember(s, 0, i);
      }
    }
  }

  lemma {:induction false} FreshRun(s: Sched, events: seq<Event>, pid: nat, entry: nat, priority: nat, stack: nat)
    requires Fresh(s, pid, entry, priority, stack)
    requires forall k :: 0 <= k < |events| ==> !Current(Run(s, events[..k]), pid)
    ensures Fresh(Run(s, events), pid, entry, priority, stack)
  {
    hide Fresh, Step, Current;
    if events != [] {
      var before := events[..|events| - 1];
      forall k | 0 <= k < |before| ensures !Current(Run(s, before[..k]), pid) {
        assert before[..k] == events[..k];
      }
      FreshRun(s, before, pid, entry, priority, stack);
      FreshStays(Run(s, before), events[|events| - 1], pid, entry, priority, stack);
    }
  }

  /** However long it takes: the first hand-over to a process goes to its entry point, on its own stack. */
  lemma FirstHandOver(s: Sched, entry: nat, priority: nat, stack: nat, events: seq<Event>, frame: Frame)
    requires PidsInUse(s)
    requires var t := Step(s, Add(entry, priority, stack));
             && (forall k :: 0 <= k <= |events| ==> !Current(Run(t, events[..k]), s.nextPid))
             && Current(Step(Run(t, events), Tick(frame)), s.nextPid)
    ensures StartsAt(TickStep(Run(Step(s, Add(entry, priority, stack)), events), frame).1, entry, stack)
  {
    hide Fresh, Step, Current;
    var t := Step(s, Add(entry, priority, stack));
    AddAppends(s, entry, priority, stack);
    FreshRun(t, events, s.nextPid, entry, priority, stack);
    assert events[..|events|] == events;
    FreshStays(Run(t, events), Tick(frame), s.nextPid, entry, priority, stack);
  }

  /** Only a tick makes another process the current one. */
  lemma OnlyTicksHandOver(s: Sched, e: Event, pid: nat)
    requires Current(Step(s, e), pid) && !Current(s, pid) && !e.Add?
    ensures e.Tick?
  {
    if e.Reap? {
      hide Kept, Removed;
      KeptAt(s, 0, s.cur);
    }
  }

  /** The first point of a run at which the process is the current one. */
  lemma {:induction false} FirstTime(s: Sched, events: seq<Event>, pid: nat, m: nat) returns (k: nat)
    requires m <= |events| && Current(Run(s, events[..m]), pid)
    ensures k <= m && Current(Run(s, events[..k]), pid) && forall j :: 0 <= j < k ==> !Current(Run(s, events[..j]), pid)
  {
    hide Current, Run;
    k := 0;
    while !Current(Run(s, events[..k]), pid)
      invariant k <= m && forall j :: 0 <= j < k ==> !Current(Run(s, events[..j]), pid)
      decreases m - k
    {
      assert k != m;
      k := k + 1;
    }
  }

  lemma NewProcessTurn(s: Sched, entry: nat, priority: nat, stack: nat, events: seq<Event>) returns (m: nat)
    requires Inv(s) && 1 <= |s.ring| <= 254
    requires LeavesAlone(events, s.nextPid) && Ticks(events) >= 4 * |s.ring|
    ensures var t := Step(s, Add(entry, priority, stack));
            && 0 < m <= |events| && Current(Run(t, events[..m]), s.nextPid)
            && forall j :: 0 <= j < m ==> !Current(Run(t, events[..j]), s.nextPid)
  {
    hide Quantum, InitialFrame, Ticks, LeavesAlone;
    var t, pid := Step(s, Add(entry, priority, stack)), s.nextPid;
    StepKeepsInv(s, Add(entry, priority, stack));
    BoundedWaiting(t, events, pid, |s.ring|);
    m :| 0 <= m <= |events| && Current(Run(t, events[..m]), pid);
    m := FirstTime(t, events, pid, m);
  }

  /** The event that first makes the process the current one is a tick. */
  lemma TurnIsTick(t: Sched, events: seq<Event>, pid: nat, k: nat)
    requires k < |events| && LeavesAlone(events, pid) && Current(Run(t, events[..k + 1]), pid)
    requires forall j :: 0 <= j <= k ==> !Current(Run(t, events[..j]), pid)
    ensures events[k].Tick? && Run(t, events[..k + 1]) == Step(Run(t, events[..k]), events[k])
    ensures forall j :: 0 <= j <= k ==> !Current(Run(t, events[..k][..j]), pid)
  {
    hide Step, Current;
    var before := events[..k];
    assert events[..k + 1][..k] == before && events[..k + 1][k] == events[k];
    OnlyTicksHandOver(Run(t, before), events[k], pid);
    forall j | 0 <= j <= k ensures !Current(Run(t, before[..j]), pid) {
      assert before[..j] == events[..j];
    }
  }

  /** In a run from t, event k is the tick that makes the process the current one for the first time, and the
      interrupt returns to its entry point on its own stack. */
  ghost predicate StartedBy(t: Sched, events: seq<Event>, k: nat, pid: nat, entry: nat, stack: nat) {
    && k < |events| && events[k].Tick?
    && (forall j :: 0 <= j <= k ==> !Current(Run(t, events[..j]), pid)) && Current(Run(t, events[..k + 1]), pid)
    && StartsAt(TickStep(Run(t, events[..k]), events[k].frame).1, entry, stack)
  }

  /** A new process in a ring of up to 254 others gets the CPU within four ticks for each of them, whatever
      yields, kills of others and reaper passes happen, and starts at its entry point on its own stack. */
  lemma NewProcessStarts(s: Sched, entry: nat, priority: nat, stack: nat, events: seq<Event>)
    requires Inv(s) && 1 <= |s.ring| <= 254
    requires LeavesAlone(events, s.nextPid) && Ticks(events) >= 4 * |s.ring|
    ensures exists k :: StartedBy(Step(s, Add(entry, priority, stack)), events, k, s.nextPid, entry, stack)
  {
    var m := NewProcessTurn(s, entry, priority, stack, events);
    var t, k := Step(s, Add(entry, priority, stack)), m - 1;
    hide Step, Current, StartsAt, Run, Inv, Ticks, LeavesAlone;
    TurnIsTick(t, events, s.nextPid, k);
    FirstHandOver(s, entry, priority, stack, events[..k], events[k].frame);
    assert StartedBy(t, events, k, s.nextPid, entry, stack);
  }
}
