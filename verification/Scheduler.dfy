/** The scheduler's linked ring of process control blocks, refining SchedSpec. */
module Scheduler {
  import opened Options
  import opened SchedSpec
  import opened SchedLaws
  import opened Pmm
  import H = HeapSpec
  import Heap

  const PCB_SIZE: nat := 248  // bytes of a control block

  class PCB {
    var regs: Frame
    var cr3: nat
    var state: State
    var pid: nat
    var next: PCB?
    var name: seq<char>
    const stack: nat  // set once, when the block is created
    const addr: nat   // where the block lies in the heap
    var priority: nat
    var ticksRemaining: nat

    /** The initial contents of a control block, as create_process fills it in. */
    constructor (addr: nat, name: seq<char>, entry: nat, priority: nat, stack: nat, pid: nat, cr3: nat)
      ensures regs == InitialFrame(entry, stack) && StartsAt(regs, entry, stack)
      ensures state == NEW && next == null && ticksRemaining == 0
      ensures this.pid == pid && this.priority == priority && this.stack == stack && this.cr3 == cr3
      ensures this.addr == addr
      ensures this.name == if |name| <= 31 then name else name[..31]
    {
      regs := InitialFrame(entry, stack);
      this.cr3 := cr3;
      state := NEW;
      this.pid := pid;
      next := null;
      this.name := if |name| <= 31 then name else name[..31];
      this.stack := stack;
      this.addr := addr;
      this.priority := priority;
      ticksRemaining := 0;
    }

    ghost function View(): Proc
      reads this
    {
      Proc(pid, state, priority, ticksRemaining, regs, stack)
    }
  }

  ghost function Views(ring: seq<PCB>): (r: seq<Proc>)
    reads ring
    ensures |r| == |ring|
    ensures forall i :: 0 <= i < |ring| ==> r[i] == ring[i].View()
  {
    if ring == [] then []
    else
      assert ring[0] in ring;
      assert forall p :: p in ring[1..] ==> p in ring;
      [ring[0].View()] + Views(ring[1..])
  }

  /** The stacks of the ring's processes. */
  ghost function Stacks(ring: seq<PCB>): (r: seq<nat>)
    ensures |r| == |ring| && forall i :: 0 <= i < |ring| ==> r[i] == ring[i].stack
  {
    seq(|ring|, i requires 0 <= i < |ring| => ring[i].stack)
  }

  /** Every stack is a page of its own that the allocator has handed out. */
  ghost predicate StacksOwned(stacks: seq<nat>, bits: seq<bool>) {
    && (forall i :: 0 <= i < |stacks| ==> TakenPage(stacks[i], bits))
    && (forall i, j :: 0 <= i < j < |stacks| ==> PageOf(stacks[i]) != PageOf(stacks[j]))
  }

  ghost predicate TakenPage(addr: nat, bits: seq<bool>) {
    0 < PageOf(addr) < |bits| && addr == PageAddress(PageOf(addr)) && bits[PageOf(addr)]
  }

  lemma StackTaken(stacks: seq<nat>, bits: seq<bool>, bits': seq<bool>, addr: nat)
    requires StacksOwned(stacks, bits) && Took(bits, bits', addr)
    ensures StacksOwned(stacks + [addr], bits')
  {
  }

  /** Giving back the stack at position k keeps the others. */
  lemma StackReturned(stacks: seq<nat>, bits: seq<bool>, k: nat)
    requires StacksOwned(stacks, bits) && k < |stacks|
    ensures TakenPage(stacks[k], bits)
    ensures StacksOwned(stacks[..k] + stacks[k + 1..], bits[PageOf(stacks[k]) := false])
  {
  }

  /** The heap blocks of the ring's control blocks. */
  ghost function Homes(ring: seq<PCB>): (r: seq<nat>)
    ensures |r| == |ring| && forall i :: 0 <= i < |ring| ==> r[i] == ring[i].addr
  {
    seq(|ring|, i requires 0 <= i < |ring| => ring[i].addr)
  }

  /** Every control block has a heap block of its own that is in use. */
  ghost predicate HomesOwned(homes: seq<nat>, blocks: seq<H.Blk>) {
    && (forall i :: 0 <= i < |homes| ==> H.InUseAt(blocks, homes[i]))
    && (forall i, j :: 0 <= i < j < |homes| ==> homes[i] != homes[j])
  }

  lemma HomeTaken(homes: seq<nat>, blocks: seq<H.Blk>)
    requires HomesOwned(homes, blocks) && H.Tiled(blocks) && H.Alloc(blocks, PCB_SIZE).1.Some?
    ensures HomesOwned(homes + [H.Alloc(blocks, PCB_SIZE).1.value], H.Alloc(blocks, PCB_SIZE).0)
  {
    hide H.Alloc, H.InUseAt;
    H.AllocOwns(blocks, PCB_SIZE);
  }

  lemma HomeReturned(homes: seq<nat>, blocks: seq<H.Blk>, k: nat)
    requires HomesOwned(homes, blocks) && H.Tiled(blocks) && k < |homes|
    ensures H.InUseAt(blocks, homes[k])
    ensures HomesOwned(homes[..k] + homes[k + 1..], H.Free(blocks, Some(homes[k])))
  {
    hide H.Free, H.InUseAt;
    H.FreeDisowns(blocks, homes[k]);
    var rest := homes[..k] + homes[k + 1..];
    forall i | 0 <= i < |rest| ensures H.InUseAt(H.Free(blocks, Some(homes[k])), rest[i]) {
      var j := if i < k then i else i + 1;
      assert rest[i] == homes[j] && homes[j] != homes[k];
    }
  }

  class RoundRobin {
    var head: PCB?
    var current: PCB?
    var nextPid: nat
    var kernelStack: nat  // what the task state segment holds
    const pmm: PageAllocator
    const heap: Heap.KernelHeap

    ghost var ring: seq<PCB>  // the control blocks in link order, from the head
    ghost var cur: nat        // position of the current one

    /** The links form a single cycle through distinct control blocks, containing head and current. */
    ghost predicate Linked()
      reads this, ring
    {
      && (head == null <==> ring == []) && (current == null <==> ring == [])
      && (ring == [] ==> cur == 0)
      && (ring != [] ==> head == ring[0] && cur < |ring| && current == ring[cur])
      && (forall i, j :: 0 <= i < j < |ring| ==> ring[i] != ring[j])
      && (forall i {:trigger ring[i].next} :: 0 <= i < |ring| ==> ring[i].next == ring[Succ(i, |ring|)])
    }

    ghost predicate Valid()
      reads this, ring, pmm, pmm.bitmap, heap
    {
      && Linked() && pmm.Valid() && StacksOwned(Stacks(ring), pmm.Bits())
      && heap.Valid() && HomesOwned(Homes(ring), heap.blocks)
    }

    ghost function Abs(): Sched
      reads this, ring
    {
      Sched(Views(ring), cur, nextPid)
    }

    /** schedular_init. */
    constructor (pages: PageAllocator, kernelHeap: Heap.KernelHeap)
      requires pages.Valid() && kernelHeap.Valid()
      ensures Valid() && Abs() == Sched([], 0, 0) && pmm == pages && heap == kernelHeap
    {
      head, current, nextPid, kernelStack := null, null, 0, 0;
      pmm, heap := pages, kernelHeap;
      ring, cur := [], 0;
    }

    // -------------------------------------------------------------------------
    // Adding a process
    // -------------------------------------------------------------------------

    /** create_process: a control block in a heap block of its own, with a stack page of its own, unless
        the entry point or the name is missing or no free heap block is large enough. */
    method CreateProcess(name: Option<seq<char>>, entry: nat, priority: nat, cr3: nat)
      returns (neu: PCB?)
      requires pmm.Valid() && CountFree(pmm.Bits()) > 0 && heap.Valid()
      modifies this`nextPid, pmm`freePages, pmm.bitmap, heap`hdr, heap`blocks
      ensures pmm.Valid() && heap.Valid()
      ensures neu != null <==> entry != 0 && name.Some? && name.value != [] && H.Satisfiable(old(heap.blocks), PCB_SIZE)
      ensures neu == null ==> nextPid == old(nextPid) && pmm.Bits() == old(pmm.Bits()) && pmm.freePages == old(pmm.freePages)
                              && heap.blocks == old(heap.blocks)
      ensures neu != null ==>
                && fresh(neu) && nextPid == old(nextPid) + 1 && pmm.freePages == old(pmm.freePages) - 1
                && neu.View() == Proc(old(nextPid), NEW, priority, 0, InitialFrame(entry, neu.stack), neu.stack)
                && StartsAt(neu.regs, entry, neu.stack) && neu.regs.rsp == PageAddress(PageOf(neu.stack) + 1)
                && Took(old(pmm.Bits()), pmm.Bits(), neu.stack)
                && H.Alloc(old(heap.blocks), PCB_SIZE) == (heap.blocks, Some(neu.addr))
    {
      hide BitsOf, CountFree, PageOf, InitialFrame, StartsAt, H.Alloc;
      if entry == 0 { return null; }
      if name.None? { return null; }
      if name.value == [] { return null; }
      H.AllocEffect(heap.blocks, PCB_SIZE);
      heap.IsTiled();
      if H.Alloc(heap.blocks, PCB_SIZE).1.Some? { H.AllocOwns(heap.blocks, PCB_SIZE); }
      var addr := heap.Kmalloc(PCB_SIZE);
      if addr == 0 { return null; }
      var stack := pmm.Alloc();
      neu := new PCB(addr, name.value, entry, priority, stack, nextPid, cr3);
      nextPid := nextPid + 1;
      StackTop(neu.regs, entry, neu.stack);
    }

    static lemma StackTop(f: Frame, entry: nat, stack: nat)
      requires StartsAt(f, entry, stack)
      ensures stack == PageAddress(PageOf(stack)) ==> f.rsp == PageAddress(PageOf(stack) + 1)
    {
    }

    /** scheduler_add. Free pages and ring members together stay the same in number, and so do heap
        blocks in use less ring members. */
    method Add(name: Option<seq<char>>, entry: nat, priority: nat, cr3: nat)
      returns (added: bool, ghost stack: nat)
      requires Valid() && CountFree(pmm.Bits()) > 0
      modifies this, ring, pmm`freePages, pmm.bitmap, heap`hdr, heap`blocks
      ensures Valid()
      ensures added == (entry != 0 && name.Some? && name.value != [] && H.Satisfiable(old(heap.blocks), PCB_SIZE))
      ensures !added ==> Abs() == old(Abs()) && pmm.freePages == old(pmm.freePages)
      ensures H.UsedCount(heap.blocks) - |ring| == old(H.UsedCount(heap.blocks) - |ring|)
      ensures added ==>
                && Abs() == AddStep(old(Abs()), entry, priority, stack)
                && Took(old(pmm.Bits()), pmm.Bits(), stack)
      ensures pmm.freePages + |ring| == old(pmm.freePages + |ring|)
    {
      hide BitsOf, CountFree, Views, PageOf, Took, StacksOwned, Stacks, Quantum, InitialFrame, H.Alloc, H.Tiled;
      hide HomesOwned, Homes, H.UsedCount, H.InUseAt, H.Satisfiable, Heap.KernelHeap.Valid;
      ghost var stacks, bits, homes, blocks := Stacks(ring), pmm.Bits(), Homes(ring), heap.blocks;
      hide PageAllocator.Valid;
      heap.IsTiled();
      var neu := CreateProcess(name, entry, priority, cr3);
      added, stack := neu != null, 0;
      if neu == null { return; }
      stack := neu.stack;
      Link(neu);
      StackTaken(stacks, bits, pmm.Bits(), stack);
      assert Stacks(ring) == stacks + [stack];
      HomeTaken(homes, blocks);
      H.AllocOwns(blocks, PCB_SIZE);
      assert Homes(ring) == homes + [neu.addr];
    }

    /** Appends a fresh control block behind the last one of the ring. */
    method Link(neu: PCB)
      requires Linked() && neu !in ring
      modifies this`head, this`current, this`ring, this`cur, ring, neu
      ensures Linked() && ring == old(ring) + [neu]
      ensures Views(ring) == old(Views(ring)) + [old(neu.View()).(
                  ticks := Quantum(old(neu.priority)), state := if old(ring) == [] then RUNNING else READY)]
      ensures cur == if old(ring) == [] then 0 else old(cur)
    {
      hide Views, Quantum;
      ghost var was, ring0, fields := Views(ring), ring, neu.View();
      neu.ticksRemaining := Quantum(neu.priority);
      if head == null {
        current := neu;
        head := neu;
        neu.next := neu;
        neu.state := RUNNING;
        ring, cur := [neu], 0;
      } else {
        var temp := head;
        ghost var i := 0;
        while temp.next != head
          invariant 0 <= i < |ring| && temp == ring[i]
          decreases |ring| - i
        {
          temp := temp.next;
          i := i + 1;
        }
        temp.next := neu;
        neu.next := head;
        neu.state := READY;
        ring := ring + [neu];
      }
      assert forall i :: 0 <= i < |ring0| ==> ring[i] == ring0[i] && ring[i].View() == was[i];
      assert neu.View() == fields.(ticks := Quantum(fields.priority), state := if ring0 == [] then RUNNING else READY);
    }

    // -------------------------------------------------------------------------
    // Timer tick, yield and kill
    // -------------------------------------------------------------------------

    /** The members of the ring, counted in eight bits. */
    method CountRing() returns (total: nat)
      requires Linked() && head != null
      ensures total == CountedLength(Views(ring))
    {
      hide Views;
      total := 0;
      var temp := head;
      ghost var i := 0;
      while true
        invariant 0 <= i < |ring| && temp == ring[i] && total == i % 256
        decreases |ring| - i
      {
        CountOne(i);
        total := (total + 1) % 256;
        temp := temp.next;
        if temp == head { return; }
        i := i + 1;
      }
    }

    static lemma CountOne(i: nat)
      ensures (i % 256 + 1) % 256 == (i + 1) % 256
    {
    }

    /** Walks on from next past zombies, at most total of them. */
    method SkipZombies(next: PCB, total: nat, ghost start: nat) returns (found: PCB, ghost i: nat)
      requires Linked() && start < |ring| && next == ring[start]
      ensures i == Probe(Views(ring), start, total) && found == ring[i]
      ensures found == ring[Probe(Views(ring), start, total)]
    {
      hide Views;
      found, i := next, start;
      var checked := 0;
      while found.state == ZOMBIE && checked < total
        invariant 0 <= i < |ring| && found == ring[i] && 0 <= checked <= total
        invariant Probe(Views(ring), i, total - checked) == Probe(Views(ring), start, total)
      {
        found := found.next;
        checked := checked + 1;
        i := Succ(i, |ring|);
      }
    }

    /** First half of schedule: one tick off the slice; at its end the process stops running. */
    method RunDown() returns (expired: bool)
      requires Linked() && current != null
      modifies ring
      ensures Linked() && ring == old(ring) && expired == (TicksLeft(old(Abs())) == 0)
      ensures !expired ==> Abs() == TickStep(old(Abs()), old(current.regs)).0
      ensures expired ==> Views(ring) == Stopped(old(Abs()))
    {
      hide Views, Probe;
      ghost var s := Abs();
      if current.ticksRemaining > 0 {
        current.ticksRemaining := current.ticksRemaining - 1;
      }
      expired := current.ticksRemaining == 0;
      if expired && current.state == RUNNING {
        current.state := READY;
      }
      assert expired ==> Views(ring) == Stopped(s);
      assert !expired ==> Views(ring) == s.ring[cur := s.ring[cur].(ticks := TicksLeft(s))];
    }

    /** Second half: saves the frame, hands the CPU to the process at position n. */
    method SwitchTo(next: PCB, ghost n: nat, frame: Frame, ghost s: Sched) returns (out: Frame)
      requires Linked() && n < |ring| && next == ring[n] && s.cur == cur && s.nextPid == nextPid
      requires |s.ring| == |ring| && Views(ring) == Stopped(s) && n == Successor(s)
      modifies this`current, this`cur, this`kernelStack, ring
      ensures Linked() && ring == old(ring) && nextPid == old(nextPid) && kernelStack == current.stack + 4096
      ensures Abs() == Sched(SwitchedRing(s, frame), n, s.nextPid) && out == SwitchedRing(s, frame)[n].regs
    {
      hide Views, Quantum, Stopped, Successor;
      ghost var stopped := Stopped(s);
      current.regs := frame;
      assert Views(ring) == stopped[cur := stopped[cur].(regs := frame)];
      current, cur := next, n;
      current.state := RUNNING;
      current.ticksRemaining := Quantum(current.priority);
      assert Views(ring) == SwitchedRing(s, frame);
      out := current.regs;
      kernelStack := current.stack + 4096;
    }

    /** schedule: runs the current process down one tick; at the end of its slice saves the frame,
        picks the next living process and returns that one's frame. */
    method Schedule(frame: Frame) returns (out: Frame)
      requires Linked()
      modifies this`current, this`cur, this`kernelStack, ring
      ensures Linked() && ring == old(ring) && (Abs(), out) == TickStep(old(Abs()), frame)
      ensures Switches(old(Abs())) ==> current != null && kernelStack == current.stack + 4096
      ensures !Switches(old(Abs())) ==> kernelStack == old(kernelStack)
    {
      hide Views, Stopped, SwitchedRing, Probe;
      out := frame;
      if current == null || head == null { return; }
      ghost var s := Abs();
      var expired := RunDown();
      if !expired { return; }
      var total := CountRing();
      var next, n := SkipZombies(current.next, total, Succ(cur, |ring|));
      if next.state == ZOMBIE { return; }
      out := SwitchTo(next, n, frame, s);
    }

    method Yield()
      requires Linked()
      modifies ring
      ensures Linked() && ring == old(ring) && Abs() == YieldStep(old(Abs()))
    {
      hide Views;
      if current == null { return; }
      ghost var s := Abs();
      current.ticksRemaining := 0;
      assert Views(ring) == s.ring[cur := s.ring[cur].(ticks := 0)];
    }

    /** schedular_remove and kill_process. */
    method Remove(pid: nat)
      requires Linked()
      modifies ring
      ensures Linked() && ring == old(ring) && Abs() == Step(old(Abs()), Kill(pid))
      ensures forall i :: 0 <= i < |ring| && old(ring[i].pid) == pid && (forall j :: 0 <= j < i ==> old(ring[j].pid) != pid)
                          ==> ring[i].state == ZOMBIE
    {
      hide Views;
      if head == null { return; }
      ghost var s := Abs();
      var p := head;
      ghost var i := 0;
      while true
        invariant 0 <= i < |ring| && p == ring[i] && Abs() == s
        invariant FindPid(s.ring, pid, i) == FindPid(s.ring, pid, 0)
        decreases |ring| - i
      {
        if p.pid == pid {
          if p.state == ZOMBIE {
            assert s.ring[i := s.ring[i].(state := ZOMBIE)] == s.ring;
            return;
          }
          p.state := ZOMBIE;
          assert Views(ring) == s.ring[i := s.ring[i].(state := ZOMBIE)];
          return;
        }
        p := p.next;
        if p == head { return; }
        i := i + 1;
      }
    }

    // -------------------------------------------------------------------------
    // The reaper
    // -------------------------------------------------------------------------

    /** Takes the process behind prev out of the links. */
    method Detach(prev: PCB, ghost k: nat)
      requires Linked() && 1 <= k < |ring| && k != cur && prev == ring[k - 1]
      modifies prev`next, this`ring, this`cur
      ensures Linked() && ring == old(ring)[..k] + old(ring)[k + 1..]
      ensures prev.next == if k == |ring| then head else ring[k]
      ensures cur == if k < old(cur) then old(cur) - 1 else old(cur)
    {
      ghost var ring0 := ring;
      prev.next := prev.next.next;
      ring := ring0[..k] + ring0[k + 1..];
      cur := if k < cur then cur - 1 else cur;
      forall i | 0 <= i < |ring| ensures ring[i].next == ring[Succ(i, |ring|)] {
        var j := if i < k then i else i + 1;
        assert ring[i] == ring0[j] && (i != k - 1 ==> ring0[j].next == ring0[Succ(j, |ring0|)]);
      }
    }

    /** The stack page and the heap block of the process at position k become free. */
    method GiveBack(victim: PCB, ghost stacks: seq<nat>, ghost homes: seq<nat>, ghost k: nat)
      requires pmm.Valid() && StacksOwned(stacks, pmm.Bits()) && heap.Valid() && HomesOwned(homes, heap.blocks)
      requires k < |stacks| == |homes| && victim.stack == stacks[k] && victim.addr == homes[k]
      modifies pmm`freePages, pmm.bitmap, heap`hdr, heap`blocks
      ensures pmm.Valid() && StacksOwned(stacks[..k] + stacks[k + 1..], pmm.Bits())
      ensures heap.Valid() && HomesOwned(homes[..k] + homes[k + 1..], heap.blocks)
      ensures pmm.freePages == old(pmm.freePages) + 1 && heap.blocks == H.Free(old(heap.blocks), Some(victim.addr))
      ensures H.UsedCount(heap.blocks) == old(H.UsedCount(heap.blocks)) - 1
    {
      hide BitsOf, CountFree, PageOf, StacksOwned, HomesOwned, H.UsedCount, H.InUseAt, H.Free, H.Tiled;
      heap.IsTiled();
      HomeReturned(homes, heap.blocks, k);
      H.FreeDisowns(heap.blocks, homes[k]);
      StackReturned(stacks, pmm.Bits(), k);
      pmm.Free(victim.stack);
      heap.Kfree(victim.addr);
    }

    /** Unlinks a dead process and gives its stack page and its heap block back. */
    method Bury(prev: PCB, victim: PCB, ghost k: nat)
      requires Valid() && 1 <= k < |ring| && k != cur && prev == ring[k - 1] && victim == ring[k]
      modifies prev`next, this`ring, this`cur, pmm`freePages, pmm.bitmap, heap`hdr, heap`blocks
      ensures Valid() && ring == old(ring)[..k] + old(ring)[k + 1..]
      ensures heap.blocks == H.Free(old(heap.blocks), Some(victim.addr))
      ensures H.UsedCount(heap.blocks) == old(H.UsedCount(heap.blocks)) - 1
      ensures prev.next == if k == |ring| then head else ring[k]
      ensures Views(ring) == old(Views(ring))[..k] + old(Views(ring))[k + 1..]
      ensures cur == if k < old(cur) then old(cur) - 1 else old(cur)
      ensures pmm.freePages == old(pmm.freePages) + 1
      ensures forall x :: x in ring ==> x in old(ring)
    {
      hide Views, BitsOf, CountFree, PageOf, StacksOwned, Stacks, HomesOwned, Homes, H.UsedCount, H.InUseAt, H.Free, H.Tiled;
      ghost var stacks, was, ring0, homes := Stacks(ring), Views(ring), ring, Homes(ring);
      hide PageAllocator.Valid, Heap.KernelHeap.Valid;
      Detach(prev, k);
      GiveBack(victim, stacks, homes, k);
      assert Homes(ring) == homes[..k] + homes[k + 1..];
      assert Stacks(ring) == stacks[..k] + stacks[k + 1..];
      assert Views(ring) == was[..k] + was[k + 1..];
    }

    /** What InPass says of the links: p is looked at next, prev is in front of it. */
    ghost predicate At(prev: PCB, p: PCB, s: Sched, i: nat, k: nat)
      reads this, ring
    {
      && 1 <= k <= |ring| && prev == ring[k - 1] && p == ring[if k == |ring| then 0 else k]
      && InPass(s, i, Views(ring), cur, k)
    }

    /** The body of the reaper's loop. */
    method LookAt(prev: PCB, p: PCB, ghost s: Sched, ghost i: nat, ghost k: nat)
      returns (prev': PCB, p': PCB, ghost k': nat)
      requires Valid() && At(prev, p, s, i, k) && p != head && i <= 100
      modifies prev`next, this`ring, this`cur, pmm`freePages, pmm.bitmap, heap`hdr, heap`blocks
      ensures Valid() && At(prev', p', s, i + 1, k')
      ensures pmm.freePages + |ring| == old(pmm.freePages + |ring|)
      ensures H.UsedCount(heap.blocks) - |ring| == old(H.UsedCount(heap.blocks) - |ring|)
      ensures forall x :: x in ring ==> x in old(ring)
    {
      hide Views, BitsOf, CountFree, PageOf, PageAddress, StacksOwned, Stacks, InPass, Kept, Removed;
      hide HomesOwned, Homes, H.UsedCount, H.Free, PageAllocator.Valid, Heap.KernelHeap.Valid;
      hide At, Linked;
      Looks(prev, p, s, i, k);
      if p.state == ZOMBIE && p != current {
        PassRemoves(s, i, Views(ring), cur, k);
        Bury(prev, p, k);
        Follows(prev, s, i + 1, k);
        return prev, prev.next, k;
      } else {
        PassKeeps(s, i, Views(ring), cur, k);
        StepsOver(p, s, i, k);
        return p, p.next, k + 1;
      }
    }

    lemma Looks(prev: PCB, p: PCB, s: Sched, i: nat, k: nat)
      requires Linked() && At(prev, p, s, i, k) && p != head
      ensures 1 <= k < |ring| && prev == ring[k - 1] && p == ring[k] && cur < |ring| && InPass(s, i, Views(ring), cur, k)
      ensures 1 <= i < |s.ring| && (p == current <==> k == cur)
      ensures i <= 100 ==> (Reapable(s, i) <==> p.state == ZOMBIE && p != current)
    {
      hide Views, InPass;
      PassLooks(s, i, Views(ring), cur, k);
    }

    lemma Follows(prev: PCB, s: Sched, i: nat, k: nat)
      requires Linked() && 1 <= k <= |ring| && prev == ring[k - 1] && InPass(s, i, Views(ring), cur, k)
      requires prev.next == if k == |ring| then head else ring[k]
      ensures prev.next != null && At(prev, prev.next, s, i, k)
    {
      hide Views, InPass;
    }

    lemma StepsOver(p: PCB, s: Sched, i: nat, k: nat)
      requires Linked() && 1 <= k < |ring| && p == ring[k] && InPass(s, i + 1, Views(ring), cur, k + 1)
      ensures p.next != null && At(p, p.next, s, i + 1, k + 1)
    {
      hide Views, InPass;
    }

    /** One pass of reaper_process over the ring. */
    method ReapPass()
      requires Valid()
      modifies ring, this`ring, this`cur, pmm`freePages, pmm.bitmap, heap`hdr, heap`blocks
      ensures Valid() && Abs() == ReapStep(old(Abs()))
      ensures pmm.freePages + |ring| == old(pmm.freePages + |ring|)
      ensures H.UsedCount(heap.blocks) - |ring| == old(H.UsedCount(heap.blocks) - |ring|)
    {
      hide Views, BitsOf, CountFree, PageOf, StacksOwned, Stacks, InPass, Kept, Removed;
      hide HomesOwned, Homes, H.UsedCount, PageAllocator.Valid, Heap.KernelHeap.Valid, At;
      if head == null { return; }
      ghost var s, total, used := Abs(), pmm.freePages + |ring|, H.UsedCount(heap.blocks) - |ring|;
      ghost var i, k := 1, 1;
      PassBegins(s);
      Follows(head, s, 1, 1);
      var prev: PCB, p: PCB := head, head.next;
      var safety := 100;
      while p != head && safety != 0
        invariant H.UsedCount(heap.blocks) - |ring| == used
        invariant Valid() && pmm.freePages + |ring| == total && safety == 101 - i && 1 <= i <= 101
        invariant At(prev, p, s, i, k)
        invariant forall x :: x in ring ==> x in old(ring)
        decreases safety
      {
        safety := safety - 1;
        PrevInRing(prev, p, s, i, k);
        prev, p, k := LookAt(prev, p, s, i, k);
        i := i + 1;
      }
      Ends(prev, p, s, i, k);
    }

    lemma PrevInRing(prev: PCB, p: PCB, s: Sched, i: nat, k: nat)
      requires At(prev, p, s, i, k)
      ensures prev in ring
    {
    }

    lemma Ends(prev: PCB, p: PCB, s: Sched, i: nat, k: nat)
      requires Linked() && At(prev, p, s, i, k) && (p == head || i == 101)
      ensures Sched(Views(ring), cur, s.nextPid) == ReapStep(s)
    {
      hide Views, InPass;
      PassEnds(s, i, Views(ring), cur, k);
    }
  }
}
