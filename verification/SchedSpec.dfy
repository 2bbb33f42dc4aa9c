/** The process ring as a value: who runs, who waits, and what one event does. */
module SchedSpec {
  datatype State = NEW | READY | RUNNING | BLOCKED | ZOMBIE

  /** The registers an interrupt saves: r15 down to rax in one sequence, then what the CPU pushes. */
  datatype Frame = Frame(general: seq<nat>, intNum: nat, errorCode: nat,
                         rip: nat, cs: nat, rflags: nat, rsp: nat, ss: nat)

  datatype Proc = Proc(pid: nat, state: State, priority: nat, ticks: nat, regs: Frame, stack: nat)

  /** The ring in link order from the head, the position of the running process in it, and the
      number the next process will get. */
  datatype Sched = Sched(ring: seq<Proc>, cur: nat, nextPid: nat)

  datatype Event =
    | Tick(frame: Frame)
    | Yield
    | Kill(pid: nat)
    | Reap
    | Add(entry: nat, priority: nat, stack: nat)

  function Quantum(priority: nat): (q: nat)
    ensures 1 <= q <= 4
  {
    if priority == 0 then 4 else if priority == 1 then 3 else if priority == 2 then 2 else 1
  }

  function Succ(i: nat, n: nat): (r: nat)
    requires i < n
    ensures r < n
  {
    if i + 1 == n then 0 else i + 1
  }

  // ---------------------------------------------------------------------------
  // The timer tick
  // ---------------------------------------------------------------------------

  /** The process the search for a successor stops at, after at most steps zombies. */
  function Probe(ring: seq<Proc>, i: nat, steps: nat): (r: nat)
    requires i < |ring|
    ensures r < |ring|
    decreases steps
  {
    if ring[i].state == ZOMBIE && steps > 0 then Probe(ring, Succ(i, |ring|), steps - 1) else i
  }

  /** The number of ring members, counted in eight bits. */
  function CountedLength(ring: seq<Proc>): nat {
    |ring| % 256
  }

  /** The time slice of the running process after this tick. */
  function TicksLeft(s: Sched): nat
    requires s.cur < |s.ring|
  {
    var t := s.ring[s.cur].ticks;
    if t > 0 then t - 1 else 0
  }

  /** The ring once the slice has run out: the running process has stopped running. */
  function Stopped(s: Sched): (ring: seq<Proc>)
    requires s.cur < |s.ring|
    ensures |ring| == |s.ring|
  {
    var p := s.ring[s.cur];
    s.ring[s.cur := p.(ticks := 0, state := if p.state == RUNNING then READY else p.state)]
  }

  function Successor(s: Sched): (r: nat)
    requires s.cur < |s.ring|
    ensures r < |s.ring|
  {
    Probe(Stopped(s), Succ(s.cur, |s.ring|), CountedLength(s.ring))
  }

  /** Whether the tick hands the CPU over (possibly back to the same process). */
  predicate Switches(s: Sched) {
    s.cur < |s.ring| && TicksLeft(s) == 0 && Stopped(s)[Successor(s)].state != ZOMBIE
  }

  function SwitchedRing(s: Sched, frame: Frame): (ring: seq<Proc>)
    requires s.cur < |s.ring|
    ensures |ring| == |s.ring|
  {
    var stopped := Stopped(s);
    var saved := stopped[s.cur := stopped[s.cur].(regs := frame)];
    var next := Successor(s);
    saved[next := saved[next].(state := RUNNING, ticks := Quantum(saved[next].priority))]
  }

  /** schedule: the new ring and the frame the interrupt returns to. */
  function TickStep(s: Sched, frame: Frame): (r: (Sched, Frame)) {
    if s.cur >= |s.ring| then (s, frame)
    else if TicksLeft(s) > 0 then
      (s.(ring := s.ring[s.cur := s.ring[s.cur].(ticks := TicksLeft(s))]), frame)
    else if !Switches(s) then (s.(ring := Stopped(s)), frame)
    else
      var ring := SwitchedRing(s, frame);
      (s.(ring := ring, cur := Successor(s)), ring[Successor(s)].regs)
  }

  // ---------------------------------------------------------------------------
  // The other events
  // ---------------------------------------------------------------------------

  function YieldStep(s: Sched): Sched {
    if s.cur >= |s.ring| then s
    else s.(ring := s.ring[s.cur := s.ring[s.cur].(ticks := 0)])
  }

  /** First position from i on with that number, or the length of the ring. */
  function FindPid(ring: seq<Proc>, pid: nat, i: nat): (r: nat)
    requires i <= |ring|
    decreases |ring| - i
    ensures i <= r <= |ring| && (r < |ring| ==> ring[r].pid == pid)
    ensures forall j :: i <= j < r ==> ring[j].pid != pid
  {
    if i == |ring| || ring[i].pid == pid then i else FindPid(ring, pid, i + 1)
  }

  function KillStep(s: Sched, pid: nat): Sched {
    var i := FindPid(s.ring, pid, 0);
    if i == |s.ring| then s else s.(ring := s.ring[i := s.ring[i].(state := ZOMBIE)])
  }

  function InitialFrame(entry: nat, stack: nat): Frame {
    Frame(seq(15, _ => 0), 0, 0, entry, 0x08, 0x202, stack + 4096, 0x10)
  }

  function AddStep(s: Sched, entry: nat, priority: nat, stack: nat): Sched {
    var p := Proc(s.nextPid, if s.ring == [] then RUNNING else READY, priority, Quantum(priority),
                  InitialFrame(entry, stack), stack);
    Sched(s.ring + [p], if s.ring == [] then 0 else s.cur, s.nextPid + 1)
  }

  /** A reaper pass looks at the 100 processes behind the head and spares the running one. */
  predicate Reapable(s: Sched, i: nat)
    requires i < |s.ring|
  {
    1 <= i <= 100 && s.ring[i].state == ZOMBIE && i != s.cur
  }

  /** The processes from i on that a pass leaves in the ring. */
  function Kept(s: Sched, i: nat): (r: seq<Proc>)
    requires i <= |s.ring|
    decreases |s.ring| - i
  {
    if i == |s.ring| then []
    else if Reapable(s, i) then Kept(s, i + 1)
    else [s.ring[i]] + Kept(s, i + 1)
  }

  /** How many of the processes before position i a pass removes. */
  function Removed(s: Sched, i: nat): (r: nat)
    requires i <= |s.ring|
    ensures r <= i
  {
    if i == 0 then 0 else Removed(s, i - 1) + (if Reapable(s, i - 1) then 1 else 0)
  }

  function ReapStep(s: Sched): Sched {
    if s.cur >= |s.ring| then s
    else Sched(Kept(s, 0), s.cur - Removed(s, s.cur), s.nextPid)
  }

  function Step(s: Sched, e: Event): Sched {
    match e
    case Tick(frame) => TickStep(s, frame).0
    case Yield => YieldStep(s)
    case Kill(pid) => KillStep(s, pid)
    case Reap => ReapStep(s)
    case Add(entry, priority, stack) => AddStep(s, entry, priority, stack)
  }

  function Run(s: Sched, events: seq<Event>): Sched {
    if events == [] then s
    else Step(Run(s, events[..|events| - 1]), events[|events| - 1])
  }

  // ---------------------------------------------------------------------------
  // What every event keeps
  // ---------------------------------------------------------------------------

  ghost predicate UniquePids(ring: seq<Proc>) {
    forall i, j :: 0 <= i < j < |ring| ==> ring[i].pid != ring[j].pid
  }

  /** At most the current process is RUNNING; it is RUNNING or ZOMBIE, the others READY or ZOMBIE;
      numbers are unique and slices at most four ticks. */
  ghost predicate Inv(s: Sched) {
    && (s.ring == [] || s.cur < |s.ring|)
    && UniquePids(s.ring)
    && forall i :: 0 <= i < |s.ring| ==>
         && s.ring[i].pid < s.nextPid && s.ring[i].ticks <= 4
         && (s.ring[i].state == ZOMBIE || s.ring[i].state == if i == s.cur then RUNNING else READY)
  }

  /** The search from i stops e places on, at a living process. */
  ghost predicate StopsAfter(ring: seq<Proc>, i: nat, steps: nat, e: nat) {
    && i < |ring| && e <= |ring|
    && Probe(ring, i, steps) == Walk(i, e, |ring|)
    && ring[Walk(i, e, |ring|)].state != ZOMBIE
  }

  lemma {:induction false} ProbeFindsLiving(ring: seq<Proc>, i: nat, steps: nat, d: nat)
    requires i < |ring| && d <= steps && d < |ring| && ring[Walk(i, d, |ring|)].state != ZOMBIE
    ensures exists e :: 0 <= e <= d && StopsAfter(ring, i, steps, e)
    decreases steps
  {
    if ring[i].state != ZOMBIE {
      assert Walk(i, 0, |ring|) == i;
      assert StopsAfter(ring, i, steps, 0);
    } else {
      assert d > 0;
      var j := Succ(i, |ring|);
      assert Walk(j, d - 1, |ring|) == Walk(i, d, |ring|);
      ProbeFindsLiving(ring, j, steps - 1, d - 1);
      var e :| 0 <= e <= d - 1 && StopsAfter(ring, j, steps - 1, e);
      assert Walk(j, e, |ring|) == Walk(i, e + 1, |ring|);
      assert StopsAfter(ring, i, steps, e + 1);
    }
  }

  /** The position d places behind i. */
  function Walk(i: nat, d: nat, n: nat): (r: nat)
    requires i < n && d <= n
    ensures r < n
  {
    if i + d < n then i + d else i + d - n
  }

  lemma {:induction false} ProbeAmongDead(ring: seq<Proc>, i: nat, steps: nat)
    requires i < |ring| && forall d :: 0 <= d <= steps && d < |ring| ==> ring[Walk(i, d, |ring|)].state == ZOMBIE
    ensures ring[Probe(ring, i, steps)].state == ZOMBIE
    decreases steps
  {
    assert Walk(i, 0, |ring|) == i;
    if steps > 0 {
      var j, n := Succ(i, |ring|), |ring|;
      forall d | 0 <= d <= steps - 1 && d < n ensures ring[Walk(j, d, n)].state == ZOMBIE {
        assert Walk(j, d, n) == if d + 1 < n then Walk(i, d + 1, n) else i;
      }
      ProbeAmongDead(ring, j, steps - 1);
    }
  }

  /** Every process that the search at the end of the slice can reach is dead: the neighbour of the
      current one and as many places further on as the eight-bit count allows. */
  ghost predicate Starved(s: Sched) {
    && s.cur < |s.ring|
    && forall d :: 0 <= d <= |s.ring| % 256 && d < |s.ring|
         ==> Stopped(s)[Walk(Succ(s.cur, |s.ring|), d, |s.ring|)].state == ZOMBIE
  }

  /** At the end of a slice the CPU is handed over exactly if the ring is not starved, for every size
      of the ring. */
  lemma SwitchesIffServed(s: Sched)
    requires s.cur < |s.ring| && TicksLeft(s) == 0
    ensures Switches(s) <==> !Starved(s)
  {
    var ring, i, c := Stopped(s), Succ(s.cur, |s.ring|), CountedLength(s.ring);
    if Starved(s) {
      ProbeAmongDead(ring, i, c);
    } else {
      var d :| 0 <= d <= |s.ring| % 256 && d < |s.ring| && ring[Walk(i, d, |s.ring|)].state != ZOMBIE;
      ProbeFindsLiving(ring, i, c, d);
    }
  }

  /** Up to 255 processes, starved means that none is alive. */
  lemma StarvedIfAllDead(s: Sched)
    requires s.cur < |s.ring| <= 255
    ensures Starved(s) <==> forall i :: 0 <= i < |s.ring| ==> s.ring[i].state == ZOMBIE
  {
    var n, k := |s.ring|, Succ(s.cur, |s.ring|);
    if Starved(s) {
      forall i | 0 <= i < n ensures s.ring[i].state == ZOMBIE {
        var d := if i >= k then i - k else i + n - k;
        assert Walk(k, d, n) == i;
      }
    }
  }

  /** A tick keeps the invariant exactly unless a running process is stopped in a starved ring. */
  lemma TickKeepsInvIff(s: Sched, frame: Frame)
    requires Inv(s)
    ensures Inv(TickStep(s, frame).0)
            <==> !(Starved(s) && TicksLeft(s) == 0 && s.ring[s.cur].state == RUNNING)
  {
    if s.cur < |s.ring| && TicksLeft(s) == 0 {
      SwitchesIffServed(s);
      if Starved(s) && s.ring[s.cur].state == RUNNING {
        assert TickStep(s, frame).0.ring[s.cur].state == READY;
      }
    }
  }

  lemma TickKeepsInv(s: Sched, frame: Frame)
    requires Inv(s) && |s.ring| <= 255
    ensures Inv(TickStep(s, frame).0)
  {
    TickKeepsInvIff(s, frame);
    if s.cur < |s.ring| {
      StarvedIfAllDead(s);
    }
  }

  lemma {:induction false} KeptMember(s: Sched, i: nat, k: nat) returns (j: nat)
    requires i <= |s.ring| && k < |Kept(s, i)|
    ensures i <= j < |s.ring| && !Reapable(s, j) && Kept(s, i)[k] == s.ring[j]
    ensures j == k + i + Removed(s, j) - Removed(s, i)
    decreases |s.ring| - i
  {
    if Reapable(s, i) {
      j := KeptMember(s, i + 1, k);
    } else if k == 0 {
      j := i;
    } else {
      j := KeptMember(s, i + 1, k - 1);
    }
  }

  lemma {:induction false} KeptLength(s: Sched, i: nat)
    requires i <= |s.ring|
    ensures |Kept(s, i)| == |s.ring| - i - (Removed(s, |s.ring|) - Removed(s, i))
    decreases |s.ring| - i
  {
    if i < |s.ring| {
      KeptLength(s, i + 1);
    }
  }

  lemma {:induction false} RemovedMonotone(s: Sched, i: nat, j: nat)
    requires i <= j <= |s.ring|
    ensures Removed(s, i) <= Removed(s, j) <= Removed(s, i) + (j - i)
    decreases j
  {
    if i < j {
      RemovedMonotone(s, i, j - 1);
    }
  }

  /** Where a process that stays ends up. */
  lemma {:induction false} KeptAt(s: Sched, i: nat, j: nat)
    requires i <= j < |s.ring| && !Reapable(s, j)
    ensures 0 <= j - i - (Removed(s, j) - Removed(s, i)) < |Kept(s, i)|
    ensures Kept(s, i)[j - i - (Removed(s, j) - Removed(s, i))] == s.ring[j]
    decreases j - i
  {
    RemovedMonotone(s, i, j);
    if i < j {
      KeptAt(s, i + 1, j);
    }
  }

  lemma {:induction false} NoneKeptOut(s: Sched, i: nat)
    requires 100 < i <= |s.ring|
    ensures Kept(s, i) == s.ring[i..]
    decreases |s.ring| - i
  {
    if i < |s.ring| {
      NoneKeptOut(s, i + 1);
    }
  }

  lemma {:induction false} NoneRemovedBehind(s: Sched, i: nat, j: nat)
    requires 100 < i <= j <= |s.ring|
    ensures Removed(s, j) == Removed(s, i)
    decreases j
  {
    if i < j {
      NoneRemovedBehind(s, i, j - 1);
    }
  }

  /** In the middle of a pass over s: the positions before i have been looked at, ring and cur are
      what is left, and position k is next. */
  ghost predicate InPass(s: Sched, i: nat, ring: seq<Proc>, cur: nat, k: nat) {
    && s.cur < |s.ring| && 1 <= i <= |s.ring| && 1 <= k <= |ring| && i <= 101
    && i - k == Removed(s, i) && |ring| - k == |s.ring| - i
    && ring[k..] == s.ring[i..]
    && ring[..k] + Kept(s, i) == Kept(s, 0)
    && cur == s.cur - Removed(s, if i < s.cur then i else s.cur)
  }

  lemma PassBegins(s: Sched)
    requires s.cur < |s.ring|
    ensures InPass(s, 1, s.ring, s.cur, 1)
  {
  }

  lemma PassLooks(s: Sched, i: nat, ring: seq<Proc>, cur: nat, k: nat)
    requires InPass(s, i, ring, cur, k) && k < |ring|
    ensures 1 <= i < |s.ring| && ring[k] == s.ring[i] && (k == cur <==> i == s.cur)
  {
    assert ring[k] == ring[k..][0] && s.ring[i] == s.ring[i..][0];
    if s.cur < i {
      RemovedStrict(s, s.cur, i);
    } else {
      RemovedMonotone(s, i, s.cur);
    }
  }

  lemma PassKeeps(s: Sched, i: nat, ring: seq<Proc>, cur: nat, k: nat)
    requires InPass(s, i, ring, cur, k) && k < |ring| && i < |s.ring| && i <= 100 && !Reapable(s, i)
    ensures InPass(s, i + 1, ring, cur, k + 1)
  {
    PassLooks(s, i, ring, cur, k);
    assert ring[..k + 1] == ring[..k] + [ring[k]];
    assert ring[k + 1..] == ring[k..][1..] && s.ring[i + 1..] == s.ring[i..][1..];
  }

  lemma PassRemoves(s: Sched, i: nat, ring: seq<Proc>, cur: nat, k: nat)
    requires InPass(s, i, ring, cur, k) && k < |ring| && i < |s.ring| && i <= 100 && Reapable(s, i)
    ensures InPass(s, i + 1, ring[..k] + ring[k + 1..], if k < cur then cur - 1 else cur, k)
  {
    PassLooks(s, i, ring, cur, k);
    if s.cur < i {
      RemovedStrict(s, s.cur, i);
    } else {
      RemovedMonotone(s, i, s.cur);
      RemovedMonotone(s, i + 1, s.cur);
    }
    assert s.ring[i + 1..] == s.ring[i..][1..];
  }

  lemma PassEnds(s: Sched, i: nat, ring: seq<Proc>, cur: nat, k: nat)
    requires InPass(s, i, ring, cur, k) && (k == |ring| || i == 101)
    ensures Sched(ring, cur, s.nextPid) == ReapStep(s)
  {
    if k == |ring| {
      assert ring[..k] == ring && Kept(s, i) == [];
    } else {
      NoneKeptOut(s, i);
      assert ring == ring[..k] + ring[k..];
      if i < s.cur {
        NoneRemovedBehind(s, i, s.cur);
      }
    }
  }

  /** With at most 101 processes a pass leaves no zombie but the head and the running process. */
  lemma PassIsComplete(s: Sched, k: nat)
    requires s.cur < |s.ring| <= 101 && k < |ReapStep(s).ring| && ReapStep(s).ring[k].state == ZOMBIE
    ensures k == 0 || k == ReapStep(s).cur
  {
    var j := KeptMember(s, 0, k);
  }

  lemma ReapKeepsInv(s: Sched)
    requires Inv(s)
    ensures Inv(ReapStep(s))
  {
    if s.cur < |s.ring| {
      var t := ReapStep(s);
      KeptAt(s, 0, s.cur);
      forall k | 0 <= k < |t.ring|
        ensures t.ring[k].pid < t.nextPid && t.ring[k].ticks <= 4
        ensures t.ring[k].state == ZOMBIE || t.ring[k].state == if k == t.cur then RUNNING else READY
      {
        var j := KeptMember(s, 0, k);
        if j < s.cur {
          RemovedMonotone(s, j, s.cur);
          RemovedStrict(s, j, s.cur);
        } else if s.cur < j {
          RemovedStrict(s, s.cur, j);
        }
      }
      forall a, b | 0 <= a < b < |t.ring| ensures t.ring[a].pid != t.ring[b].pid {
        var i := KeptMember(s, 0, a);
        var j := KeptMember(s, 0, b);
        if i == j {
          assert false;
        }
      }
    }
  }

  /** A process that stays moves past fewer removals than positions. */
  lemma {:induction false} RemovedStrict(s: Sched, i: nat, j: nat)
    requires i < j <= |s.ring| && !Reapable(s, i)
    ensures Removed(s, j) - Removed(s, i) < j - i
  {
    RemovedMonotone(s, i + 1, j);
  }

  lemma StepKeepsInv(s: Sched, e: Event)
    requires Inv(s) && |s.ring| <= 255
    ensures Inv(Step(s, e))
  {
    match e
    case Tick(frame) => TickKeepsInv(s, frame);
    case Reap => ReapKeepsInv(s);
    case _ =>
  }

  /** At no point of the run does the ring have more than 255 members. */
  ghost predicate StaysSmall(s: Sched, events: seq<Event>) {
    forall k :: 0 <= k <= |events| ==> |Run(s, events[..k]).ring| <= 255
  }

  lemma SmallBefore(s: Sched, events: seq<Event>)
    requires StaysSmall(s, events) && events != []
    ensures StaysSmall(s, events[..|events| - 1]) && |Run(s, events[..|events| - 1]).ring| <= 255
  {
    var before := events[..|events| - 1];
    forall k | 0 <= k <= |before| ensures |Run(s, before[..k]).ring| <= 255 {
      assert before[..k] == events[..k];
    }
  }

  /** Over every run, however many processes it creates: the invariant holds at the end, as long as
      the ring never has more than 255 members. */
  lemma {:induction false} RunKeepsInv(s: Sched, events: seq<Event>)
    requires Inv(s) && StaysSmall(s, events)
    ensures Inv(Run(s, events))
  {
    if events != [] {
      SmallBefore(s, events);
      RunKeepsInv(s, events[..|events| - 1]);
      StepKeepsInv(Run(s, events[..|events| - 1]), events[|events| - 1]);
    }
  }

  // ---------------------------------------------------------------------------
  // Bounded waiting
  // ---------------------------------------------------------------------------

  ghost predicate Current(s: Sched, pid: nat) {
    s.cur < |s.ring| && s.ring[s.cur].pid == pid
  }

  /** The living process pid stands at position j and is not the current one. */
  ghost predicate Waiting(s: Sched, pid: nat, j: nat) {
    && s.cur < |s.ring| && j < |s.ring| && j != s.cur
    && s.ring[j].pid == pid && s.ring[j].state != ZOMBIE
  }

  /** Places from the current process to position j, in link order. */
  function Distance(s: Sched, j: nat): (d: nat)
    requires s.cur < |s.ring| && j < |s.ring| && j != s.cur
    ensures 1 <= d < |s.ring| && Walk(s.cur, d, |s.ring|) == j
  {
    if s.cur < j then j - s.cur else j + |s.ring| - s.cur
  }

  /** Ticks that pass at most before the process at position j runs. */
  function Wait(s: Sched, j: nat): (w: nat)
    requires s.cur < |s.ring| && j < |s.ring| && j != s.cur
    ensures w >= 1
  {
    (if s.ring[s.cur].ticks == 0 then 1 else s.ring[s.cur].ticks) + 4 * (Distance(s, j) - 1)
  }

  lemma WaitTick(s: Sched, frame: Frame, pid: nat, j: nat)
    requires Inv(s) && |s.ring| <= 255 && Waiting(s, pid, j)
    ensures var t := TickStep(s, frame).0;
            Current(t, pid) || (Waiting(t, pid, j) && Wait(t, j) < Wait(s, j))
  {
    if TicksLeft(s) == 0 {
      var n, d, i := |s.ring|, Distance(s, j), Succ(s.cur, |s.ring|);
      assert Walk(i, d - 1, n) == j;
      ProbeFindsLiving(Stopped(s), i, CountedLength(s.ring), d - 1);
      var e :| 0 <= e <= d - 1 && StopsAfter(Stopped(s), i, CountedLength(s.ring), e);
      assert Successor(s) == Walk(s.cur, e + 1, n);
    }
  }

  /** A reaper pass keeps the processes at the current position and at position j, and brings j no
      further away. */
  lemma ReapKeepsPlaces(s: Sched, j: nat)
    requires s.cur < |s.ring| && j < |s.ring| && j != s.cur && s.ring[j].state != ZOMBIE
    ensures var t, j' := ReapStep(s), j - Removed(s, j);
            && t.cur < |t.ring| && 0 <= j' < |t.ring| && j' != t.cur
            && t.ring[j'] == s.ring[j] && t.ring[t.cur] == s.ring[s.cur]
            && Distance(t, j') <= Distance(s, j)
  {
    assert Removed(s, 0) == 0;
    hide Kept, Removed, Walk;
    KeptAt(s, 0, j);
    KeptAt(s, 0, s.cur);
    KeptLength(s, 0);
    RemovedMonotone(s, s.cur, |s.ring|);
    RemovedMonotone(s, j, |s.ring|);
    if j < s.cur {
      RemovedMonotone(s, j, s.cur);
      RemovedStrict(s, j, s.cur);
    } else {
      RemovedMonotone(s, s.cur, j);
      RemovedStrict(s, s.cur, j);
    }
  }

  lemma WaitReap(s: Sched, pid: nat, j: nat) returns (j': nat)
    requires Waiting(s, pid, j)
    ensures Waiting(ReapStep(s), pid, j') && Wait(ReapStep(s), j') <= Wait(s, j)
  {
    hide ReapStep, Distance;
    ReapKeepsPlaces(s, j);
    j' := j - Removed(s, j);
  }

  lemma WaitStep(s: Sched, e: Event, pid: nat, j: nat) returns (j': nat)
    requires Inv(s) && |s.ring| <= 255 && Waiting(s, pid, j) && e != Kill(pid) && !e.Add?
    ensures Current(Step(s, e), pid)
            || (Waiting(Step(s, e), pid, j') && Wait(Step(s, e), j') <= Wait(s, j) - (if e.Tick? then 1 else 0))
  {
    j' := j;
    match e
    case Tick(frame) => WaitTick(s, frame, pid, j);
    case Reap => j' := WaitReap(s, pid, j);
    case _ =>
  }

  function Ticks(events: seq<Event>): nat {
    if events == [] then 0
    else Ticks(events[..|events| - 1]) + (if events[|events| - 1].Tick? then 1 else 0)
  }

  ghost predicate LeavesAlone(events: seq<Event>, pid: nat) {
    forall i :: 0 <= i < |events| ==> events[i] != Kill(pid) && !events[i].Add?
  }

  lemma {:induction false} RingShrinks(s: Sched, events: seq<Event>, pid: nat)
    requires LeavesAlone(events, pid)
    ensures |Run(s, events).ring| <= |s.ring|
  {
    if events != [] {
      RingShrinks(s, events[..|events| - 1], pid);
      KeptLength(Run(s, events[..|events| - 1]), 0);
    }
  }

  lemma {:induction false} WaitRun(s: Sched, events: seq<Event>, pid: nat, j: nat) returns (k: nat, j': nat)
    requires Inv(s) && |s.ring| <= 255 && Waiting(s, pid, j) && LeavesAlone(events, pid)
    ensures k <= |events|
    ensures Current(Run(s, events[..k]), pid)
            || (Waiting(Run(s, events), pid, j') && Wait(Run(s, events), j') <= Wait(s, j) - Ticks(events))
  {
    hide Wait, Step, Distance;
    if events == [] {
      k, j' := 0, j;
    } else {
      var before, e := events[..|events| - 1], events[|events| - 1];
      k, j' := WaitRun(s, before, pid, j);
      assert before[..k] == events[..k];
      if !Current(Run(s, events[..k]), pid) {
        forall k | 0 <= k <= |before| ensures |Run(s, before[..k]).ring| <= 255 {
          RingShrinks(s, before[..k], pid);
        }
        assert before[..|before|] == before;
        RunKeepsInv(s, before);
        j' := WaitStep(Run(s, before), e, pid, j');
        k := |events|;
        assert events[..k] == events;
      }
    }
  }

  /** Bounded waiting: a living process at distance d is the current one at some point of every run
      with at least 4 * d ticks, whatever yields, kills of other processes and reaper passes the run
      contains. */
  lemma {:induction false} BoundedWaiting(s: Sched, events: seq<Event>, pid: nat, j: nat)
    requires Inv(s) && |s.ring| <= 255 && Waiting(s, pid, j) && LeavesAlone(events, pid)
    requires Ticks(events) >= 4 * Distance(s, j)
    ensures exists k :: 0 <= k <= |events| && Current(Run(s, events[..k]), pid)
  {
    var k, j' := WaitRun(s, events, pid, j);
  }

  // ---------------------------------------------------------------------------
  // Starvation
  // ---------------------------------------------------------------------------

  ghost predicate OnlyTicksAndKills(events: seq<Event>) {
    forall i :: 0 <= i < |events| ==> events[i].Tick? || events[i].Yield? || events[i].Kill?
  }

  lemma StarvedStep(s: Sched, e: Event)
    requires Starved(s) && (e.Tick? || e.Yield? || e.Kill?)
    ensures Starved(Step(s, e)) && Step(s, e).cur == s.cur && |Step(s, e).ring| == |s.ring| && !Switches(s)
  {
    hide Probe, Successor, SwitchedRing;
    if TicksLeft(s) == 0 {
      SwitchesIffServed(s);
    }
    var t := Step(s, e);
    assert forall i :: 0 <= i < |s.ring| && Stopped(s)[i].state == ZOMBIE ==> Stopped(t)[i].state == ZOMBIE;
  }

  /** A starved ring stays so, with the same process, whatever ticks, yields and kills happen. */
  lemma {:induction false} StarvedForever(s: Sched, events: seq<Event>)
    requires Starved(s) && OnlyTicksAndKills(events)
    ensures var t := Run(s, events);
            Starved(t) && t.cur == s.cur && |t.ring| == |s.ring| && !Switches(t)
  {
    hide Starved, Step, Switches;
    if events == [] {
      StarvedStep(s, Yield);
    } else {
      var before := events[..|events| - 1];
      StarvedForever(s, before);
      StarvedStep(Run(s, before), events[|events| - 1]);
      StarvedStep(Run(s, events), Yield);
    }
  }

  /** n ticks of a slice that lasts longer. */
  lemma {:induction false} CountDown(s: Sched, frame: Frame, n: nat)
    requires s.cur < |s.ring| && n < s.ring[s.cur].ticks
    ensures Run(s, seq(n, _ => Tick(frame)))
            == s.(ring := s.ring[s.cur := s.ring[s.cur].(ticks := s.ring[s.cur].ticks - n)])
  {
    var ticks := seq(n, _ => Tick(frame));
    if n > 0 {
      assert ticks[..n - 1] == seq(n - 1, _ => Tick(frame));
      CountDown(s, frame, n - 1);
    } else {
      assert s.ring[s.cur := s.ring[s.cur]] == s.ring;
    }
  }

  /** Ticks, yields and kills can lead to a hand-over exactly if the ring is not starved. */
  lemma ServedIff(s: Sched, frame: Frame)
    requires s.cur < |s.ring|
    ensures (exists events :: OnlyTicksAndKills(events) && Switches(Run(s, events))) <==> !Starved(s)
  {
    if Starved(s) {
      forall events | OnlyTicksAndKills(events) ensures !Switches(Run(s, events)) {
        StarvedForever(s, events);
      }
    } else {
      var n := if s.ring[s.cur].ticks == 0 then 0 else s.ring[s.cur].ticks - 1;
      var ticks := seq(n, _ => Tick(frame));
      assert OnlyTicksAndKills(ticks);
      if n > 0 {
        CountDown(s, frame, n);
      }
      var t := Run(s, ticks);
      assert Stopped(t) == Stopped(s) && t.cur == s.cur;
      SwitchesIffServed(t);
    }
  }

  /** With 256 processes the eight-bit count is 0, no zombie is skipped, and one dead neighbour keeps
      every other process from ever running. */
  lemma StuckWith256(s: Sched, events: seq<Event>)
    requires |s.ring| == 256 && s.cur < 256 && s.ring[Succ(s.cur, 256)].state == ZOMBIE
    requires OnlyTicksAndKills(events)
    ensures Run(s, events).cur == s.cur && !Switches(Run(s, events))
  {
    assert Starved(s);
    StarvedForever(s, events);
  }

  // ---------------------------------------------------------------------------
  // Registers survive
  // ---------------------------------------------------------------------------

  /** The frame the process should come back with: the one passed to the tick that last switched
      it out, or the one it was created with. Read off the history alone. */
  ghost function LastSaved(s: Sched, events: seq<Event>, pid: nat): Frame
    requires exists i :: 0 <= i < |Run(s, events).ring| && Run(s, events).ring[i].pid == pid
    decreases |events|
  {
    if events == [] then s.ring[FindPid(s.ring, pid, 0)].regs
    else
      var before, e := events[..|events| - 1], events[|events| - 1];
      var t := Run(s, before);
      if e.Tick? && Switches(t) && t.ring[t.cur].pid == pid then e.frame
      else if e.Add? && t.nextPid == pid then InitialFrame(e.entry, e.stack)
      else
        PidWasThere(t, e, pid);
        LastSaved(s, before, pid)
  }

  lemma PidWasThere(t: Sched, e: Event, pid: nat)
    requires exists i :: 0 <= i < |Step(t, e).ring| && Step(t, e).ring[i].pid == pid
    requires !(e.Add? && t.nextPid == pid)
    ensures exists i :: 0 <= i < |t.ring| && t.ring[i].pid == pid
  {
    var i :| 0 <= i < |Step(t, e).ring| && Step(t, e).ring[i].pid == pid;
    if e.Reap? && t.cur < |t.ring| {
      var j := KeptMember(t, 0, i);
    } else {
      assert i < |t.ring| && t.ring[i].pid == pid;
    }
  }

  ghost predicate PidsInUse(s: Sched) {
    UniquePids(s.ring) && forall i :: 0 <= i < |s.ring| ==> s.ring[i].pid < s.nextPid
  }

  lemma StepKeepsPids(t: Sched, e: Event)
    requires PidsInUse(t)
    ensures PidsInUse(Step(t, e))
  {
    hide Removed, Probe, Quantum, CountedLength;
    if e.Reap? && t.cur < |t.ring| {
      var u := Step(t, e);
      forall i, k | 0 <= i < k < |u.ring| ensures u.ring[i].pid < t.nextPid && u.ring[i].pid != u.ring[k].pid {
        KeptInOrder(t, 0, i, k);
      }
      forall i | 0 <= i < |u.ring| ensures u.ring[i].pid < t.nextPid {
        var j := KeptMember(t, 0, i);
      }
    }
  }

  /** Members that stay, stay in order. */
  lemma KeptInOrder(s: Sched, i: nat, k: nat, m: nat)
    requires i <= |s.ring| && k < m < |Kept(s, i)|
    ensures exists a, b :: i <= a < b < |s.ring| && Kept(s, i)[k] == s.ring[a] && Kept(s, i)[m] == s.ring[b]
  {
    var a := KeptMember(s, i, k);
    var b := KeptMember(s, i, m);
    if a > b {
      RemovedMonotone(s, b, a);
    }
  }

  /** At every point of every run, a process is the only one with its number. */
  lemma {:induction false} RunKeepsPids(s: Sched, events: seq<Event>)
    requires PidsInUse(s)
    ensures PidsInUse(Run(s, events))
  {
    if events != [] {
      RunKeepsPids(s, events[..|events| - 1]);
      StepKeepsPids(Run(s, events[..|events| - 1]), events[|events| - 1]);
    }
  }

  /** One step gives a process a new frame only by switching it out or creating it. */
  lemma StepFrames(t: Sched, e: Event, i: nat) returns (j: nat)
    requires PidsInUse(t) && i < |Step(t, e).ring|
    ensures var p := Step(t, e).ring[i];
            if e.Tick? && Switches(t) && t.ring[t.cur].pid == p.pid then p.regs == e.frame
            else if e.Add? && t.nextPid == p.pid then p.regs == InitialFrame(e.entry, e.stack)
            else j < |t.ring| && t.ring[j].pid == p.pid && t.ring[j].regs == p.regs
  {
    hide Removed, Probe, Quantum, CountedLength;
    j := i;
    if e.Reap? && t.cur < |t.ring| {
      j := KeptMember(t, 0, i);
    }
  }

  /** After every run, every process in the ring holds exactly the frame it was last saved with. */
  lemma {:induction false} SavedFrames(s: Sched, events: seq<Event>, i: nat)
    requires PidsInUse(s) && i < |Run(s, events).ring|
    ensures Run(s, events).ring[i].regs == LastSaved(s, events, Run(s, events).ring[i].pid)
    decreases |events|
  {
    if events == [] {
      assert FindPid(s.ring, s.ring[i].pid, 0) == i;
    } else {
      hide Step, Switches;
      RunKeepsPids(s, events[..|events| - 1]);
      var before, e := events[..|events| - 1], events[|events| - 1];
      var t := Run(s, before);
      var j := StepFrames(t, e, i);
      if j < |t.ring| {
        SavedFrames(s, before, j);
      }
    }
  }

  /** Whenever a tick hands over the CPU, the interrupt returns to the frame that the process was
      last switched out with (its initial frame the first time), also when it is the same process
      again; without a hand-over the frame is untouched. */
  lemma ResumeRestoresFrame(s: Sched, events: seq<Event>, frame: Frame)
    requires PidsInUse(s)
    ensures var t := Run(s, events);
            var all := events + [Tick(frame)];
            && Run(s, all) == TickStep(t, frame).0
            && (!Switches(t) ==> TickStep(t, frame).1 == frame)
            && (Switches(t) ==>
                  && t.cur < |t.ring| && Run(s, all).cur == Successor(t) < |Run(s, all).ring|
                  && TickStep(t, frame).1 == LastSaved(s, all, Run(s, all).ring[Successor(t)].pid))
  {
    var all := events + [Tick(frame)];
    assert all[..|all| - 1] == events;
    if Switches(Run(s, events)) {
      SavedFrames(s, all, Successor(Run(s, events)));
    }
  }
}
