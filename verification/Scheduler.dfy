/** The preemptive scheduler of kernel_main.cpp as a small machine: one CPU, memory, the
    task table, and the timer interrupt's pushes, task switch and pops. */
module Scheduler {
  import opened Arith
  import opened Paging

  // ----- registers and the saved frame

  datatype Gpr = RAX | RCX | RDX | RBX | RBP | RSI | RDI | R8 | R9 | R10 | R11 | R12 | R13 | R14 | R15

  ghost predicate EveryRegister(m: imap<Gpr, Word>) {
    forall g: Gpr :: g in m
  }

  type Regs = m: imap<Gpr, Word> | EveryRegister(m) ghost witness (imap g: Gpr :: 0)

  /** Everything a task needs to go on: 15 general registers and what iretq loads. */
  datatype Cpu = Cpu(regs: Regs, rip: Word, cs: Word, rflags: Word, rsp: Word, ss: Word)

  /** pit_isr's pushes and its pops, in program order. */
  const PUSHES: seq<Gpr> := [RAX, RCX, RDX, RBX, RBP, RSI, RDI, R8, R9, R10, R11, R12, R13, R14, R15]
  const POPS: seq<Gpr> := [R15, R14, R13, R12, R11, R10, R9, R8, RDI, RSI, RBP, RBX, RDX, RCX, RAX]

  /** The first fields of struct InterruptFrame, from its lowest address. */
  const LAYOUT: seq<Gpr> := [R15, R14, R13, R12, R11, R10, R9, R8, RDI, RSI, RBP, RBX, RDX, RCX, RAX]

  const FRAME := 160                // sizeof(InterruptFrame)

  /** The registers stored upwards from `base` in the order given. */
  ghost predicate RegsAt(ram: Ram, base: int, regs: Regs, order: seq<Gpr>) {
    forall n :: 0 <= n < |order| ==> ram[base + 8 * n] == regs[order[n]]
  }

  /** An InterruptFrame at `base` that holds the context c. */
  ghost predicate FrameAt(ram: Ram, base: int, c: Cpu) {
    && RegsAt(ram, base, c.regs, LAYOUT)
    && ram[base + 120] == c.rip
    && ram[base + 128] == c.cs
    && ram[base + 136] == c.rflags
    && ram[base + 144] == c.rsp
    && ram[base + 152] == c.ss
  }

  lemma FrameKept(ram: Ram, ram': Ram, base: int, c: Cpu)
    requires FrameAt(ram, base, c)
    requires forall a :: base <= a < base + FRAME ==> ram'[a] == ram[a]
    ensures FrameAt(ram', base, c)
  {
  }

  // ----- saving

  function PushAll(ram: Ram, rsp: int, regs: Regs, order: seq<Gpr>): Ram
    decreases |order|
  {
    if order == [] then ram else PushAll(ram[rsp - 8 := regs[order[0]]], rsp - 8, regs, order[1..])
  }

  /** Pushing in one order leaves the registers stored upwards in the opposite order. */
  lemma {:induction false} PushAllStores(ram: Ram, rsp: int, regs: Regs, order: seq<Gpr>, up: seq<Gpr>)
    requires |up| == |order| && forall n :: 0 <= n < |up| ==> up[n] == order[|order| - 1 - n]
    ensures var ram' := PushAll(ram, rsp, regs, order);
            && RegsAt(ram', rsp - 8 * |order|, regs, up)
            && (forall a :: a < rsp - 8 * |order| || rsp <= a ==> ram'[a] == ram[a])
    decreases |order|
  {
    if order != [] {
      var last := |order| - 1;
      var ram1 := ram[rsp - 8 := regs[order[0]]];
      var base := rsp - 8 * |order|;
      PushAllStores(ram1, rsp - 8, regs, order[1..], up[..last]);
      var ram' := PushAll(ram, rsp, regs, order);
      assert rsp - 8 - 8 * |order[1..]| == base;
      forall n | 0 <= n < |up| ensures ram'[base + 8 * n] == regs[up[n]] {
        if n < last {
          assert up[..last][n] == up[n];
        } else {
          assert base + 8 * n == rsp - 8 && ram'[rsp - 8] == ram1[rsp - 8];
        }
      }
    }
  }

  /** The CPU's part of an interrupt in 64-bit mode: align the stack to 16 bytes, then push
      SS, RSP, RFLAGS, CS and RIP (Intel SDM, Volume 3A, section 6.14.2). */
  function HwPush(ram: Ram, c: Cpu): Ram {
    var top := AlignDown(c.rsp, 16);
    ram[top - 8 := c.ss][top - 16 := c.rsp][top - 24 := c.rflags][top - 32 := c.cs][top - 40 := c.rip]
  }

  function SavedRsp(c: Cpu): int { AlignDown(c.rsp, 16) - FRAME }

  function Save(ram: Ram, c: Cpu): Ram {
    PushAll(HwPush(ram, c), AlignDown(c.rsp, 16) - 40, c.regs, PUSHES)
  }

  /** Push order and frame layout agree: what is pushed is an InterruptFrame of the interrupted
      context, and nothing outside those 160 bytes changes. */
  lemma SaveBuildsFrame(ram: Ram, c: Cpu)
    ensures FrameAt(Save(ram, c), SavedRsp(c), c)
    ensures forall a :: a < SavedRsp(c) || SavedRsp(c) + FRAME <= a ==> Save(ram, c)[a] == ram[a]
  {
    hide PushAll, AlignDown;
    var top := AlignDown(c.rsp, 16);
    PushesAreLayoutReversed();
    PushAllStores(HwPush(ram, c), top - 40, c.regs, PUSHES, LAYOUT);
  }

  lemma PushesAreLayoutReversed()
    ensures |PUSHES| == |LAYOUT| == 15 && forall n :: 0 <= n < 15 ==> LAYOUT[n] == PUSHES[14 - n]
  {
    forall n | 0 <= n < 15 ensures LAYOUT[n] == PUSHES[14 - n] {
      assert Place(LAYOUT[n]) == n;
      assert Place(PUSHES[14 - n]) == n;
    }
  }

  // ----- restoring

  function PopAll(ram: Ram, rsp: int, regs: Regs, order: seq<Gpr>): Regs
    decreases |order|
  {
    if order == [] then regs else PopAll(ram, rsp + 8, regs[order[0] := ram[rsp]], order[1..])
  }

  ghost predicate Distinct(order: seq<Gpr>) {
    forall i, j :: 0 <= i < j < |order| ==> order[i] != order[j]
  }

  lemma {:induction false} PopAllLoads(ram: Ram, rsp: int, regs: Regs, order: seq<Gpr>)
    requires Distinct(order)
    ensures forall n :: 0 <= n < |order| ==> PopAll(ram, rsp, regs, order)[order[n]] == ram[rsp + 8 * n]
    ensures forall g :: g !in order ==> PopAll(ram, rsp, regs, order)[g] == regs[g]
    decreases |order|
  {
    if order != [] {
      var tail := order[1..];
      var regs1 := regs[order[0] := ram[rsp]];
      PopAllLoads(ram, rsp + 8, regs1, tail);
      forall n | 0 <= n < |order| ensures PopAll(ram, rsp, regs, order)[order[n]] == ram[rsp + 8 * n] {
        if n > 0 {
          assert order[n] == tail[n - 1];
          assert ram[rsp + 8 + 8 * (n - 1)] == ram[rsp + 8 * n];
        } else {
          assert order[0] !in tail;
        }
      }
    }
  }

  /** The pops and iretq from a frame at rsp; `regs` is what the registers held before. */
  function Restore(ram: Ram, rsp: int, regs: Regs): Cpu {
    Cpu(PopAll(ram, rsp, regs, POPS), ram[rsp + 120], ram[rsp + 128], ram[rsp + 136], ram[rsp + 144], ram[rsp + 152])
  }

  lemma PopsReadLayout(ram: Ram, rsp: int, regs: Regs, saved: Regs, order: seq<Gpr>)
    requires RegsAt(ram, rsp, saved, order) && Distinct(order)
    requires forall g: Gpr :: g in order
    ensures PopAll(ram, rsp, regs, order) == saved
  {
    PopAllLoads(ram, rsp, regs, order);
    var r := PopAll(ram, rsp, regs, order);
    forall g: Gpr ensures r[g] == saved[g] {
      assert g in order;
    }
  }

  /** Pop order and frame layout agree: whatever the registers held, a frame restores its context. */
  lemma RestoreReadsFrame(ram: Ram, rsp: int, regs: Regs, c: Cpu)
    requires FrameAt(ram, rsp, c)
    ensures Restore(ram, rsp, regs) == c
  {
    assert POPS == LAYOUT && Distinct(POPS) && forall g: Gpr :: g in POPS by {
      PopsAreDistinct();
      forall g: Gpr ensures g in POPS { PlaceOfRegister(g); }
    }
    PopsReadLayout(ram, rsp, regs, c.regs, POPS);
  }

  /** Where a register lies in the frame. */
  function Place(g: Gpr): int {
    match g
    case R15 => 0 case R14 => 1 case R13 => 2 case R12 => 3 case R11 => 4 case R10 => 5 case R9 => 6
    case R8 => 7 case RDI => 8 case RSI => 9 case RBP => 10 case RBX => 11 case RDX => 12 case RCX => 13
    case RAX => 14
  }

  lemma PlaceOfRegister(g: Gpr)
    ensures 0 <= Place(g) < |POPS| == 15 && POPS[Place(g)] == g
  {
  }

  lemma PopsAreDistinct()
    ensures Distinct(POPS)
  {
    forall n | 0 <= n < 15 ensures Place(POPS[n]) == n { }
  }

  /** What the interrupt saves, word by word below the aligned stack pointer: what the processor pushes, then
      the registers with R15 lowest. */
  lemma SavedWords(ram: Ram, c: Cpu)
    ensures var top, r := c.rsp - c.rsp % 16, Save(ram, c);
            && r[top - 8] == c.ss && r[top - 16] == c.rsp && r[top - 24] == c.rflags && r[top - 32] == c.cs
            && r[top - 40] == c.rip
            && forall g: Gpr :: r[top - 160 + 8 * Place(g)] == c.regs[g]
  {
    hide Save, FrameAt, Place;
    SaveBuildsFrame(ram, c);
    FrameWords(Save(ram, c), SavedRsp(c), c);
    assert SavedRsp(c) == c.rsp - c.rsp % 16 - 160;
  }

  lemma FrameWords(ram: Ram, base: int, c: Cpu)
    requires FrameAt(ram, base, c)
    ensures ram[base + 120] == c.rip && ram[base + 128] == c.cs && ram[base + 136] == c.rflags
    ensures ram[base + 144] == c.rsp && ram[base + 152] == c.ss
    ensures forall g: Gpr :: ram[base + 8 * Place(g)] == c.regs[g]
  {
    hide Place, LAYOUT;
    forall g: Gpr ensures ram[base + 8 * Place(g)] == c.regs[g] {
      LayoutOfRegister(g);
    }
  }

  lemma LayoutOfRegister(g: Gpr)
    ensures 0 <= Place(g) < |LAYOUT| == 15 && LAYOUT[Place(g)] == g
  {
  }

  // ----- the machine

  const MAX_TASKS := 4
  const STACKS := 0x120_0000

  /** Task t's stack: task 0 keeps the boot stack, the others get one megabyte each. */
  function Top(t: int): int { if t == 0 then 0x300_0000 else STACKS + t * 0x10_0000 }

  function Low(t: int): int { if t == 0 then 0x150_0000 else Top(t) - 0x10_0000 }

  /** The running task keeps its stack pointer inside its stack, with room for one frame. */
  predicate HasRoom(t: int, rsp: int) { Low(t) + 176 <= rsp <= Top(t) }

  datatype Machine = Machine(cpu: Cpu, ram: Ram, saved: seq<int>, active: seq<bool>, current: int, num: int, ticks: int)

  predicate Shaped(m: Machine) {
    && |m.saved| == |m.active| == MAX_TASKS
    && 1 <= m.num <= MAX_TASKS && 0 <= m.current < m.num
    && forall t :: 0 <= t < m.num ==> m.active[t]
  }

  /** schedule's choice: the next task, or back to 0. */
  function NextTask(current: int, num: int, active: seq<bool>): int
    requires 0 <= current && num <= |active|
  {
    if current + 1 >= num || !active[current + 1] then 0 else current + 1
  }

  /** What create_task fabricates for task id. */
  ghost function InitialContext(id: int, entry: Word, cs: Word, ss: Word): Cpu
    requires 0 <= id < MAX_TASKS
  {
    Cpu(imap g: Gpr :: Zero(g), entry, cs, 0x202, Top(id) - 8, ss)
  }

  function Zero(g: Gpr): Word { 0 }

  ghost function Fabricate(ram: Ram, id: int, entry: Word, cs: Word, ss: Word): Ram
    requires 0 <= id < MAX_TASKS
  {
    var base := Top(id) - FRAME;
    ZeroedTo(ram, base, FRAME / 8)[base + 120 := entry][base + 128 := cs][base + 152 := ss][base + 136 := 0x202]
      [base + 144 := Top(id) - 8]
  }

  /** The processor takes interrupts while bit 9 of rflags is set. */
  predicate TakesInterrupts(c: Cpu) { c.rflags / 0x200 % 2 == 1 }

  /** The flags after sti. */
  function WithInterrupts(flags: Word): (r: Word)
    ensures r / 0x200 % 2 == 1 && r % 0x200 == flags % 0x200 && r / 0x400 == flags / 0x400
    ensures flags / 0x200 % 2 == 1 ==> r == flags
  {
    if flags / 0x200 % 2 == 1 then flags else flags + 0x200
  }

  /** The flags after cli. */
  function WithoutInterrupts(flags: Word): (r: Word)
    ensures r / 0x200 % 2 == 0 && WithInterrupts(r) == WithInterrupts(flags)
  {
    if flags / 0x200 % 2 == 1 then flags - 0x200 else flags
  }

  /** What can happen next: the timer interrupt, if the running task lets it (`after` is memory once schedule's own call
      frames, below the saved frame, have come and gone), a create_task call by the running
      task, or the running task doing anything else it can do. */
  datatype Event = Tick(after: Ram) | Create(entry: Word) | Work(cpu: Cpu, ram: Ram)

  ghost predicate Legal(m: Machine, e: Event) {
    match e
    case Tick(after) =>
      && TakesInterrupts(m.cpu)
      && forall a: int :: !(Low(m.current) <= a < SavedRsp(m.cpu)) ==> after[a] == Save(m.ram, m.cpu)[a]
    case Create(_) => true
    case Work(cpu, ram) =>
      && HasRoom(m.current, cpu.rsp)
      && forall t, a :: 0 <= t < m.num && t != m.current && Low(t) <= a < Top(t) ==> ram[a] == m.ram[a]
  }

  ghost function Step(m: Machine, e: Event): Machine
    requires Shaped(m)
  {
    match e
    case Tick(after) =>
      var saved := m.saved[m.current := SavedRsp(m.cpu)];
      var next := NextTask(m.current, m.num, m.active);
      Machine(Restore(after, saved[next], m.cpu.regs), after, saved, m.active, next, m.num, m.ticks + 1)
    case Create(entry) =>
      var cpu := m.cpu.(rflags := WithInterrupts(m.cpu.rflags));
      if m.num >= MAX_TASKS then m.(cpu := cpu) else
      m.(cpu := cpu,
         ram := Fabricate(m.ram, m.num, entry, m.cpu.cs, m.cpu.ss),
         saved := m.saved[m.num := Top(m.num) - FRAME],
         active := m.active[m.num := true],
         num := m.num + 1)
    case Work(cpu, ram) => m.(cpu := cpu, ram := ram)
  }

  // ----- what every step keeps

  /** Each suspended task's frame lies in its own stack and holds its context. */
  ghost predicate Suspended(m: Machine, t: int, c: Cpu)
    requires Shaped(m) && 0 <= t < m.num
  {
    HasRoom(t, c.rsp) && Low(t) <= m.saved[t] && m.saved[t] + FRAME <= Top(t) && FrameAt(m.ram, m.saved[t], c)
  }

  ghost predicate Inv(m: Machine, ctx: seq<Cpu>) {
    && Shaped(m) && |ctx| == MAX_TASKS
    && HasRoom(m.current, m.cpu.rsp)
    && forall t :: 0 <= t < m.num && t != m.current ==> Suspended(m, t, ctx[t])
  }

  lemma StacksAreDisjoint(t: int, u: int)
    requires 0 <= t < MAX_TASKS && 0 <= u < MAX_TASKS && t != u
    ensures Top(t) <= Low(u) || Top(u) <= Low(t)
  {
  }

  lemma SavedFrameFits(t: int, c: Cpu)
    requires HasRoom(t, c.rsp)
    ensures Low(t) <= SavedRsp(c) && SavedRsp(c) + FRAME <= Top(t)
  {
  }

  /** The timer interrupt hands the CPU to a suspended task exactly as it was suspended. */
  lemma TickKeeps(m: Machine, ctx: seq<Cpu>, after: Ram)
    requires Inv(m, ctx) && Legal(m, Tick(after))
    ensures var ctx' := ctx[m.current := m.cpu];
            var m' := Step(m, Tick(after));
            Inv(m', ctx') && m'.cpu == ctx'[m'.current]
  {
    hide Save, Restore, FrameAt, AlignDown;
    var ctx' := ctx[m.current := m.cpu];
    var m' := Step(m, Tick(after));
    SaveBuildsFrame(m.ram, m.cpu);
    SavedFrameFits(m.current, m.cpu);
    forall t | 0 <= t < m.num
      ensures HasRoom(t, ctx'[t].rsp) && Low(t) <= m'.saved[t] && m'.saved[t] + FRAME <= Top(t)
      ensures FrameAt(after, m'.saved[t], ctx'[t])
    {
      if t == m.current {
        FrameKept(Save(m.ram, m.cpu), after, SavedRsp(m.cpu), m.cpu);
      } else {
        StacksAreDisjoint(t, m.current);
        assert Suspended(m, t, ctx[t]);
        FrameKept(m.ram, after, m.saved[t], ctx[t]);
      }
    }
    RestoreReadsFrame(after, m'.saved[m'.current], m.cpu.regs, ctx'[m'.current]);
  }

  /** The twenty words of a new task's frame: 15 zeros, where to start and on which stack. */
  ghost predicate StartsAt(ram: Ram, frame: int, entry: Word, cs: Word, ss: Word) {
    && (forall n :: 0 <= n < 15 ==> ram[frame + 8 * n] == 0)
    && ram[frame + 120] == entry && ram[frame + 128] == cs && ram[frame + 136] == 0x202
    && ram[frame + 144] == frame + 152 && ram[frame + 152] == ss
  }

  lemma FabricatedWords(ram: Ram, id: int, entry: Word, cs: Word, ss: Word)
    requires 1 <= id < MAX_TASKS
    ensures Top(id) == 0x120_0000 + id * 0x10_0000
    ensures StartsAt(Fabricate(ram, id, entry, cs, ss), Top(id) - FRAME, entry, cs, ss)
  {
  }

  lemma FabricateBuildsFrame(ram: Ram, id: int, entry: Word, cs: Word, ss: Word)
    requires 0 <= id < MAX_TASKS
    ensures FrameAt(Fabricate(ram, id, entry, cs, ss), Top(id) - FRAME, InitialContext(id, entry, cs, ss))
    ensures forall a :: a < Top(id) - FRAME || Top(id) <= a ==> Fabricate(ram, id, entry, cs, ss)[a] == ram[a]
  {
  }

  lemma CreateKeeps(m: Machine, ctx: seq<Cpu>, entry: Word)
    requires Inv(m, ctx)
    ensures var ctx' := if m.num >= MAX_TASKS then ctx
                        else ctx[m.num := InitialContext(m.num, entry, m.cpu.cs, m.cpu.ss)];
            Inv(Step(m, Create(entry)), ctx')
  {
    hide FrameAt, Fabricate;
    var id := m.num;
    if id < MAX_TASKS {
      var c := InitialContext(id, entry, m.cpu.cs, m.cpu.ss);
      var m' := Step(m, Create(entry));
      FabricateBuildsFrame(m.ram, id, entry, m.cpu.cs, m.cpu.ss);
      var ctx' := ctx[id := c];
      forall t | 0 <= t < m'.num && t != m'.current ensures Suspended(m', t, ctx'[t]) {
        if t != id {
          StacksAreDisjoint(t, id);
          assert Suspended(m, t, ctx[t]);
          FrameKept(m.ram, m'.ram, m.saved[t], ctx[t]);
        }
      }
    }
  }

  lemma WorkKeeps(m: Machine, ctx: seq<Cpu>, cpu: Cpu, ram: Ram)
    requires Inv(m, ctx) && Legal(m, Work(cpu, ram))
    ensures Inv(Step(m, Work(cpu, ram)), ctx)
  {
  }

  // ----- whole runs

  /** main's state when the timer first fires: only task 0, running on the boot stack. */
  predicate Started(m: Machine) {
    && m.current == 0 && m.num == 1 && m.active == [true, false, false, false]
    && |m.saved| == MAX_TASKS && HasRoom(0, m.cpu.rsp)
  }

  /** The machine after the events, from the oldest to the newest. */
  ghost function Exec(m: Machine, events: seq<Event>): (r: Machine)
    requires Shaped(m)
    ensures Shaped(r)
  {
    if events == [] then m else StepShaped(Exec(m, events[..|events| - 1]), events[|events| - 1])
  }

  /** No step takes a task out of service or leaves current_task out of range. */
  ghost function StepShaped(m: Machine, e: Event): (r: Machine)
    requires Shaped(m)
    ensures Shaped(r) && m.num <= r.num && r == Step(m, e)
  {
    Step(m, e)
  }

  ghost predicate LegalRun(m: Machine, events: seq<Event>)
    requires Shaped(m)
  {
    events == [] ||
    (var front := events[..|events| - 1];
     LegalRun(m, front) && Legal(Exec(m, front), events[|events| - 1]))
  }

  /** What task t must go on with: the CPU as it was when t was last interrupted, or, when t
      never ran, the context fabricated when it was created. */
  ghost function LastContext(m: Machine, events: seq<Event>, t: int): Cpu
    requires Shaped(m)
  {
    if events == [] then m.cpu
    else
      var front := events[..|events| - 1];
      var s := Exec(m, front);
      match events[|events| - 1]
      case Tick(_) => if s.current == t then s.cpu else LastContext(m, front, t)
      case Create(entry) =>
        if s.num < MAX_TASKS && s.num == t then InitialContext(t, entry, s.cpu.cs, s.cpu.ss)
        else LastContext(m, front, t)
      case Work(_, _) => LastContext(m, front, t)
  }

  /** Memory at that moment. */
  ghost function LastRam(m: Machine, events: seq<Event>, t: int): Ram
    requires Shaped(m)
  {
    if events == [] then m.ram
    else
      var front := events[..|events| - 1];
      var s := Exec(m, front);
      match events[|events| - 1]
      case Tick(_) => if s.current == t then s.ram else LastRam(m, front, t)
      case Create(entry) =>
        if s.num < MAX_TASKS && s.num == t then Fabricate(s.ram, t, entry, s.cpu.cs, s.cpu.ss)
        else LastRam(m, front, t)
      case Work(_, _) => LastRam(m, front, t)
  }

  /** What task t has on its stack when it is at rsp is the same in both memories. */
  ghost predicate SameStack(t: int, rsp: int, ram: Ram, ram': Ram) {
    forall a: int :: rsp <= a < Top(t) ==> ram'[a] == ram[a]
  }

  ghost function Contexts(m: Machine, events: seq<Event>): seq<Cpu>
    requires Shaped(m)
  {
    [LastContext(m, events, 0), LastContext(m, events, 1), LastContext(m, events, 2), LastContext(m, events, 3)]
  }

  lemma StartKeeps(m: Machine)
    requires Started(m)
    ensures Inv(m, [m.cpu, m.cpu, m.cpu, m.cpu])
  {
  }

  lemma ExecLast(m: Machine, events: seq<Event>)
    requires Shaped(m)
    ensures events == [] ==> Exec(m, events) == m
    ensures events != [] ==>
              Exec(m, events) == StepShaped(Exec(m, events[..|events| - 1]), events[|events| - 1])
  {
  }

  /** How an event changes what the tasks must go on with. */
  lemma ContextsAfter(m: Machine, events: seq<Event>)
    requires Shaped(m) && events != []
    ensures var s, ctx := Exec(m, events[..|events| - 1]), Contexts(m, events[..|events| - 1]);
            Contexts(m, events) ==
            match events[|events| - 1]
            case Tick(_) => ctx[s.current := s.cpu]
            case Create(entry) =>
              if s.num >= MAX_TASKS then ctx else ctx[s.num := InitialContext(s.num, entry, s.cpu.cs, s.cpu.ss)]
            case Work(_, _) => ctx
  {
    hide Exec, InitialContext;
  }

  lemma ContextOf(m: Machine, events: seq<Event>, t: int)
    requires Shaped(m) && 0 <= t < MAX_TASKS
    ensures Contexts(m, events)[t] == LastContext(m, events, t)
  {
    hide LastContext, Shaped;
  }

  lemma {:induction false} RunKeeps(m: Machine, events: seq<Event>)
    requires Started(m) && LegalRun(m, events)
    ensures Inv(Exec(m, events), Contexts(m, events))
  {
    hide Step, Legal, Inv, Suspended, InitialContext;
    if events == [] {
      StartKeeps(m);
    } else {
      var front, e := events[..|events| - 1], events[|events| - 1];
      var s, ctx := Exec(m, front), Contexts(m, front);
      RunKeeps(m, front);
      ContextsAfter(m, events);
      hide Contexts;
      match e
      case Tick(after) => TickKeeps(s, ctx, after);
      case Create(entry) => CreateKeeps(s, ctx, entry);
      case Work(cpu, ram) => WorkKeeps(s, ctx, cpu, ram);
    }
  }

  /** A timer interrupt writes below the stack pointer of the task it suspends, and on no other stack. */
  lemma TickKeepsStacks(m: Machine, ctx: seq<Cpu>, after: Ram, t: int)
    requires Inv(m, ctx) && Legal(m, Tick(after)) && 0 <= t < m.num
    ensures t == m.current ==> SameStack(t, m.cpu.rsp, m.ram, after)
    ensures t != m.current ==> SameStack(t, Low(t), m.ram, after) && Low(t) <= ctx[t].rsp
  {
    hide Save, FrameAt;
    SaveBuildsFrame(m.ram, m.cpu);
    SavedFrameFits(m.current, m.cpu);
    SavedBelow(m.cpu);
    hide SavedRsp;
    if t != m.current {
      StacksAreDisjoint(t, m.current);
      assert Suspended(m, t, ctx[t]);
    }
  }

  lemma SavedBelow(c: Cpu)
    ensures SavedRsp(c) + FRAME <= c.rsp
  {
  }

  /** Nothing else writes on the stack of a suspended task. */
  lemma OthersKeepStacks(m: Machine, ctx: seq<Cpu>, e: Event, t: int)
    requires Inv(m, ctx) && Legal(m, e) && !e.Tick? && 0 <= t < m.num && t != m.current
    ensures SameStack(t, Low(t), m.ram, Step(m, e).ram) && Low(t) <= ctx[t].rsp
  {
    hide FrameAt, Fabricate;
    assert Suspended(m, t, ctx[t]);
    if e.Create? && m.num < MAX_TASKS {
      FabricateBuildsFrame(m.ram, m.num, e.entry, m.cpu.cs, m.cpu.ss);
      StacksAreDisjoint(t, m.num);
    }
  }

  /** While a task is suspended, and when it goes on, its stack is what it was. */
  lemma {:induction false} StackStays(m: Machine, events: seq<Event>, t: int)
    requires Started(m) && LegalRun(m, events) && 0 <= t < Exec(m, events).num
    requires Exec(m, events).current != t || (events != [] && events[|events| - 1].Tick?)
    ensures SameStack(t, LastContext(m, events, t).rsp, LastRam(m, events, t), Exec(m, events).ram)
  {
    hide Step, Legal, Inv, Suspended, Fabricate, InitialContext, SameStack, Started, Shaped;
    StartIsShaped(m);
    StartRunsFirst(m);
    if events != [] {
      var front, e := events[..|events| - 1], events[|events| - 1];
      var s := Exec(m, front);
      RunKeeps(m, front);
      StepCounts(s, e);
      StepRam(s, e);
      if t < s.num && t != s.current {
        StackStays(m, front, t);
        TasksFit(s);
        ContextOf(m, front, t);
        var c := LastContext(m, front, t);
        if e.Tick? {
          TickKeepsStacks(s, Contexts(m, front), e.after, t);
        } else {
          OthersKeepStacks(s, Contexts(m, front), e, t);
        }
        StacksJoin(t, c.rsp, LastRam(m, front, t), s.ram, Step(s, e).ram);
      } else if e.Tick? {
        TickKeepsStacks(s, Contexts(m, front), e.after, t);
      } else {
        SameAsItself(t, LastContext(m, events, t).rsp, Exec(m, events).ram);
      }
    }
  }

  lemma TasksFit(m: Machine)
    requires Shaped(m)
    ensures 1 <= m.num <= MAX_TASKS
  {
  }

  lemma StartRunsFirst(m: Machine)
    requires Started(m)
    ensures Exec(m, []) == m && m.current == 0 && m.num == 1
  {
  }

  lemma SameAsItself(t: int, rsp: int, ram: Ram)
    ensures SameStack(t, rsp, ram, ram)
  {
  }

  lemma StacksJoin(t: int, rsp: int, ram: Ram, ram': Ram, ram'': Ram)
    requires SameStack(t, rsp, ram, ram') && SameStack(t, Low(t), ram', ram'') && Low(t) <= rsp
    ensures SameStack(t, rsp, ram, ram'')
  {
  }

  lemma StepRam(m: Machine, e: Event)
    requires Shaped(m)
    ensures e.Tick? ==> Step(m, e).ram == e.after
    ensures e.Create? && m.num < MAX_TASKS ==> Step(m, e).ram == Fabricate(m.ram, m.num, e.entry, m.cpu.cs, m.cpu.ss)
  {
    hide Restore, Save, Fabricate;
  }

  /** After every timer interrupt of every run, the task switched to has all 15 general
      registers, rip, rflags, rsp, cs and ss exactly as when it was last interrupted, or as
      fabricated if it starts now, and on its stack, from rsp up, exactly what was there then. */
  lemma ResumesExactly(m: Machine, events: seq<Event>)
    requires Started(m) && LegalRun(m, events) && events != [] && events[|events| - 1].Tick?
    ensures var r := Exec(m, events);
            && r.cpu == LastContext(m, events, r.current)
            && SameStack(r.current, r.cpu.rsp, LastRam(m, events, r.current), r.ram)
  {
    hide Step, Legal, Inv, Suspended, LastContext, LastRam, Contexts, Exec, Started;
    StartIsShaped(m);
    var front := events[..|events| - 1];
    RunKeeps(m, front);
    TickKeeps(Exec(m, front), Contexts(m, front), events[|events| - 1].after);
    ContextsAfter(m, events);
    ExecLast(m, events);
    ContextOf(m, events, Exec(m, events).current);
    StackStays(m, events, Exec(m, events).current);
  }

  /** From its creation until it first runs, a task is to go on with what was fabricated for it. */
  lemma {:induction false} CreatedWaits(m: Machine, events: seq<Event>, k: nat, id: int)
    requires Started(m) && k < |events| && events[k].Create?
    requires Exec(m, events[..k]).num == id < MAX_TASKS
    requires forall j :: k < j < |events| ==> Exec(m, events[..j]).current != id
    ensures id < Exec(m, events).num
    ensures var s := Exec(m, events[..k]);
            LastContext(m, events, id) == InitialContext(id, events[k].entry, s.cpu.cs, s.cpu.ss)
    decreases |events|
  {
    hide Step, InitialContext, Started, Shaped, Exec;
    StartIsShaped(m);
    var n := |events| - 1;
    var front := events[..n];
    ExecLast(m, events);
    StepCounts(Exec(m, front), events[n]);
    TasksFit(Exec(m, events));
    if k < n {
      assert front[..k] == events[..k];
      assert forall j :: k < j < n ==> front[..j] == events[..j];
      CreatedWaits(m, front, k, id);
    }
  }

  /** The first time a task runs: wherever in a run it was created, and whatever happened in between, the
      processor starts at its entry with all 15 registers zero, the creator's segments, interrupts on,
      and the stack pointer 8 below the top of its own megabyte above 18 MB. */
  lemma NewTaskStarts(m: Machine, events: seq<Event>, k: nat)
    requires Started(m) && LegalRun(m, events) && FirstSwitch(m, events, k)
    ensures var creator, id := Exec(m, events[..k]).cpu, Exec(m, events[..k]).num;
            var c := Exec(m, events).cpu;
            && c.rip == events[k].entry
            && (forall g: Gpr :: c.regs[g] == 0)
            && c.cs == creator.cs && c.ss == creator.ss
            && c.rflags == 0x202
            && c.rsp == 0x120_0000 + id * 0x10_0000 - 8
  {
    hide Step, LastContext, LegalRun, Exec, SameStack, LastRam, InitialContext, Started, Shaped;
    StartIsShaped(m);
    var s := Exec(m, events[..k]);
    TasksFit(s);
    ResumesExactly(m, events);
    CreatedWaits(m, events, k, s.num);
    InitialWords(s.num, events[k].entry, s.cpu.cs, s.cpu.ss);
  }

  /** Event k creates a task, and the last event is the first switch to it. */
  ghost predicate FirstSwitch(m: Machine, events: seq<Event>, k: nat)
    requires Shaped(m)
  {
    && k < |events| - 1 && events[k].Create? && events[|events| - 1].Tick?
    && var id := Exec(m, events[..k]).num;
    id < 4 && Exec(m, events).current == id && forall j :: k < j < |events| ==> Exec(m, events[..j]).current != id
  }

  lemma InitialWords(id: int, entry: Word, cs: Word, ss: Word)
    requires 1 <= id < MAX_TASKS
    ensures var c := InitialContext(id, entry, cs, ss);
            && c.rip == entry && (forall g: Gpr :: c.regs[g] == 0) && c.cs == cs && c.ss == ss
            && c.rflags == 0x202 && c.rsp == 0x120_0000 + id * 0x10_0000 - 8
  {
  }

  /** Every task leaves interrupts on when it works. */
  predicate LeavesInterruptsOn(events: seq<Event>) {
    forall e :: e in events && e.Work? ==> TakesInterrupts(e.cpu)
  }

  /** In a run of such tasks interrupts are on at every moment, after every switch and in every context
      a task goes on with, so the timer can always take the processor from whoever has it. */
  lemma {:induction false} TimerAlwaysComes(m: Machine, events: seq<Event>)
    requires Started(m) && TakesInterrupts(m.cpu) && LegalRun(m, events) && LeavesInterruptsOn(events)
    ensures TakesInterrupts(Exec(m, events).cpu)
    ensures Legal(Exec(m, events), Tick(Save(Exec(m, events).ram, Exec(m, events).cpu)))
    ensures forall t :: 0 <= t < 4 ==> TakesInterrupts(LastContext(m, events, t))
  {
    hide Step, Save, Started, SameStack, LastRam;
    StartIsShaped(m);
    if events != [] {
      var front, e := events[..|events| - 1], events[|events| - 1];
      var s := Exec(m, front);
      TimerAlwaysComes(m, front);
      StepRunning(s, e);
      forall t | 0 <= t < 4 ensures TakesInterrupts(LastContext(m, events, t)) {
        if e.Create? {
          FlagsOfNewTask(s, t, e);
        }
      }
      if e.Tick? {
        ResumesExactly(m, events);
        CurrentFits(Exec(m, events));
      }
    }
  }

  /** Whom a step that is no switch leaves running. */
  lemma StepRunning(m: Machine, e: Event)
    requires Shaped(m)
    ensures e.Create? ==> TakesInterrupts(Step(m, e).cpu)
    ensures e.Work? ==> Step(m, e).cpu == e.cpu
  {
    hide Fabricate, Restore, Save;
  }

  lemma FlagsOfNewTask(m: Machine, t: int, e: Event)
    requires 0 <= t < 4 && e.Create?
    ensures TakesInterrupts(InitialContext(t, e.entry, m.cpu.cs, m.cpu.ss))
  {
  }

  lemma CurrentFits(m: Machine)
    requires Shaped(m)
    ensures 0 <= m.current < 4
  {
  }

  lemma StartIsShaped(m: Machine)
    requires Started(m)
    ensures Shaped(m)
  {
  }

  // ----- fairness

  function Ticks(events: seq<Event>): nat {
    if events == [] then 0 else Ticks(events[..|events| - 1]) + if events[|events| - 1].Tick? then 1 else 0
  }

  /** What a step does to the counters. */
  lemma StepCounts(m: Machine, e: Event)
    requires Shaped(m)
    ensures var r := Step(m, e);
            && r.num == (if e.Create? && m.num < MAX_TASKS then m.num + 1 else m.num)
            && r.current == (if !e.Tick? then m.current else if m.current + 1 >= m.num then 0 else m.current + 1)
            && r.ticks == (if e.Tick? then m.ticks + 1 else m.ticks)
  {
    hide Restore, Save, Fabricate;
  }

  /** Whose turn it is after k switches among n tasks. */
  function Turn(k: int, n: int): int
    requires n > 0
  {
    k % n
  }

  lemma NextTurn(k: int, n: int)
    requires 1 <= n <= MAX_TASKS
    ensures 0 <= k < n ==> Turn(k, n) == k
    ensures Turn(k + 1, n) == if Turn(k, n) + 1 >= n then 0 else Turn(k, n) + 1
  {
    var q := k / n;
    if k % n + 1 >= n {
      DivModIs(k + 1, n, q + 1, 0);
    } else {
      DivModIs(k + 1, n, q, k % n + 1);
    }
  }

  /** While no task is added the CPU goes round robin: task c + k mod n after k ticks, so each
      task runs again after exactly n. */
  lemma {:induction false} RoundRobin(m: Machine, events: seq<Event>)
    requires Shaped(m) && Exec(m, events).num == m.num
    ensures Exec(m, events).current == Turn(m.current + Ticks(events), m.num)
    ensures Exec(m, events).ticks == m.ticks + Ticks(events)
  {
    hide Step, Turn;
    if events == [] {
      NextTurn(m.current, m.num);
    } else {
      var front := events[..|events| - 1];
      var s := Exec(m, front);
      StepCounts(s, events[|events| - 1]);
      assert s.num == m.num by { OnlyGrows(m, front); }
      RoundRobin(m, front);
      NextTurn(m.current + Ticks(front), m.num);
    }
  }

  lemma {:induction false} OnlyGrows(m: Machine, events: seq<Event>)
    requires Shaped(m)
    ensures m.num <= Exec(m, events).num
  {
    if events != [] {
      OnlyGrows(m, events[..|events| - 1]);
    }
  }

  /** How many ticks at most until t runs, whatever is created meanwhile. */
  function Wait(current: int, t: int): int { if current < t then t - current else MAX_TASKS - current + t }

  lemma Inner<T>(s: seq<T>)
    requires s != []
    ensures |s| == 1 ==> s[..|s| - 1] == [] && s[1..] == []
    ensures |s| > 1 ==>
              && s[..|s| - 1][1..] == s[1..][..|s| - 2]
              && s[..|s| - 1][0] == s[0] && s[1..][|s| - 2] == s[|s| - 1]
  {
  }

  /** Events from m in their order: the first one, then the rest. */
  lemma {:induction false} ExecFirst(m: Machine, events: seq<Event>)
    requires Shaped(m) && events != []
    ensures Exec(m, events) == Exec(StepShaped(m, events[0]), events[1..])
  {
    hide StepShaped, Shaped, Exec;
    var front, rest := events[..|events| - 1], events[1..];
    Inner(events);
    ExecLast(m, events);
    ExecLast(StepShaped(m, events[0]), rest);
    if front == [] {
      ExecLast(m, front);
      assert rest == [];
    } else {
      ExecFirst(m, front);
    }
  }

  lemma {:induction false} TicksFirst(events: seq<Event>)
    requires events != []
    ensures Ticks(events) == (if events[0].Tick? then 1 else 0) + Ticks(events[1..])
  {
    Inner(events);
    if |events| > 1 {
      TicksFirst(events[..|events| - 1]);
    }
  }

  /** Under any interleaving of ticks, creations and work, task t runs again within four ticks. */
  lemma {:induction false} RunsAgainWithin(m: Machine, events: seq<Event>, t: int) returns (k: int)
    requires Shaped(m) && 0 <= t < m.num
    requires Ticks(events) >= Wait(m.current, t)
    ensures 0 < k <= |events| && events[k - 1].Tick?
    ensures Ticks(events[..k]) <= Wait(m.current, t) <= MAX_TASKS
    ensures Exec(m, events[..k]).current == t
    decreases |events|
  {
    hide Step;
    StepCounts(m, events[0]);
    var e := events[0];
    var m1 := StepShaped(m, e);
    TicksFirst(events);
    if e.Tick? && m1.current == t {
      k := 1;
      assert events[..1][1..] == [];
    } else {
      k := RunsAgainWithin(m1, events[1..], t);
      k := k + 1;
      assert events[..k][1..] == events[1..][..k - 1];
    }
    ExecFirst(m, events[..k]);
    TicksFirst(events[..k]);
  }

  // ----- the code

  class Kernel {
    var cpu: Cpu
    var ram: Ram
    var taskRsp: array<int>         // tasks[t].rsp
    var taskActive: array<bool>     // tasks[t].active
    var currentTask: int
    var numTasks: int
    var systemTicks: int

    ghost predicate Valid()
      reads this, taskRsp, taskActive
    {
      taskRsp.Length == taskActive.Length == MAX_TASKS && Shaped(Abs())
    }

    ghost function Abs(): Machine
      reads this, taskRsp, taskActive
    {
      Machine(cpu, ram, taskRsp[..], taskActive[..], currentTask, numTasks, systemTicks)
    }

    /** main's set-up: task 0 is whoever runs now. */
    constructor (cpu: Cpu, ram: Ram)
      requires HasRoom(0, cpu.rsp)
      ensures Valid() && fresh(taskRsp) && fresh(taskActive)
      ensures Started(Abs()) && Abs().cpu == cpu && Abs().ram == ram && Abs().ticks == 0
    {
      this.cpu, this.ram := cpu, ram;
      currentTask, numTasks, systemTicks := 0, 1, 0;
      taskRsp := new int[MAX_TASKS](_ => 0);
      taskActive := new bool[MAX_TASKS](_ => false);
      new;
      taskActive[0] := true;
      assert taskActive[..] == [true, false, false, false];
    }

    method CreateTask(entry: Word)
      requires Valid()
      modifies this, taskRsp, taskActive
      ensures Valid() && taskRsp == old(taskRsp) && taskActive == old(taskActive)
      ensures Abs() == Step(old(Abs()), Create(entry))
      ensures old(numTasks) < 4 ==>
                && numTasks == old(numTasks) + 1
                && taskRsp[old(numTasks)] == 0x120_0000 + old(numTasks) * 0x10_0000 - 160
                && StartsAt(ram, taskRsp[old(numTasks)], entry, old(cpu.cs), old(cpu.ss))
      ensures old(numTasks) == 4 ==> numTasks == 4 && ram == old(ram) && taskRsp[..] == old(taskRsp[..])
    {
      hide AlignDown, Fabricate, StartsAt, WithInterrupts, WithoutInterrupts;
      cpu := cpu.(rflags := WithoutInterrupts(cpu.rflags));
      if numTasks >= MAX_TASKS {
        cpu := cpu.(rflags := WithInterrupts(cpu.rflags));
        return;
      }
      var id := numTasks;
      var frame := BuildFrame(id, entry);
      taskRsp[id] := frame;
      taskActive[id] := true;
      numTasks := numTasks + 1;
      cpu := cpu.(rflags := WithInterrupts(cpu.rflags));
      assert taskRsp[..] == old(taskRsp[..])[id := frame];
      assert taskActive[..] == old(taskActive[..])[id := true];
    }

    /** The frame a new task starts from: zeroed, then filled field by field. */
    method BuildFrame(id: int, entry: Word) returns (frame: int)
      requires 1 <= id < MAX_TASKS
      modifies this`ram
      ensures ram == Fabricate(old(ram), id, entry, cpu.cs, cpu.ss) && frame == Top(id) - FRAME
      ensures frame == 0x120_0000 + id * 0x10_0000 - 160 && StartsAt(ram, frame, entry, cpu.cs, cpu.ss)
    {
      hide ZeroedTo, AlignDown, Top;
      var stackBase := STACKS + id * 0x10_0000;
      stackBase := AlignDown(stackBase, 16);
      StackIsAligned(id);
      frame := stackBase - FRAME;
      var i := 0;
      ZeroedStep(ram, frame, 0);
      while i < FRAME / 8
        invariant 0 <= i <= FRAME / 8
        invariant ram == ZeroedTo(old(ram), frame, i)
      {
        ZeroedStep(old(ram), frame, i);
        ram := ram[frame + 8 * i := 0];
        i := i + 1;
      }
      ram := ram[frame + 120 := entry];
      ram := ram[frame + 128 := cpu.cs];
      ram := ram[frame + 152 := cpu.ss];
      ram := ram[frame + 136 := 0x202];
      ram := ram[frame + 144 := stackBase - 8];
      FabricatedWords(old(ram), id, entry, cpu.cs, cpu.ss);
    }

    method Schedule(oldRsp: int) returns (rsp: int)
      requires Valid()
      modifies this`currentTask, this`systemTicks, taskRsp
      ensures Valid() && taskRsp[..] == old(taskRsp[..])[old(currentTask) := oldRsp]
      ensures currentTask == NextTask(old(currentTask), numTasks, taskActive[..])
      ensures rsp == taskRsp[currentTask] && systemTicks == old(systemTicks) + 1
    {
      systemTicks := systemTicks + 1;
      taskRsp[currentTask] := oldRsp;
      currentTask := currentTask + 1;
      if currentTask >= numTasks || !taskActive[currentTask] {
        currentTask := 0;
      }
      rsp := taskRsp[currentTask];
    }

    /** The interrupt: the CPU's own pushes, pit_isr's pushes one by one, schedule, the pops
        one by one from the stack it returns, and iretq. */
    method PitIsr(after: Ram)
      requires Valid() && Legal(Abs(), Tick(after))
      modifies this`cpu, this`ram, this`currentTask, this`systemTicks, taskRsp
      ensures Valid()
      ensures Abs() == Step(old(Abs()), Tick(after))
    {
      hide Legal, PushAll, PopAll, HwPush, AlignDown, NextTask, PUSHES, POPS, LAYOUT;
      PushesAreLayoutReversed();
      ram := HwPush(ram, cpu);
      var rsp := PushRegisters(AlignDown(cpu.rsp, 16) - 40, PUSHES);
      ram := after;
      rsp := Schedule(rsp);
      var regs := PopRegisters(rsp, POPS);
      rsp := rsp + 120;
      cpu := Cpu(regs, ram[rsp], ram[rsp + 8], ram[rsp + 16], ram[rsp + 24], ram[rsp + 32]);
    }

    method PushRegisters(top: int, order: seq<Gpr>) returns (rsp: int)
      modifies this`ram
      ensures ram == PushAll(old(ram), top, cpu.regs, order)
      ensures rsp == top - 8 * |order|
    {
      rsp := top;
      var i := 0;
      assert order[0..] == order;
      while i < |order|
        invariant 0 <= i <= |order| && rsp == top - 8 * i
        invariant PushAll(ram, rsp, cpu.regs, order[i..]) == PushAll(old(ram), top, cpu.regs, order)
      {
        Tail(order, i);
        ram := ram[rsp - 8 := cpu.regs[order[i]]];
        rsp := rsp - 8;
        i := i + 1;
      }
    }

    method PopRegisters(base: int, order: seq<Gpr>) returns (regs: Regs)
      ensures regs == PopAll(ram, base, cpu.regs, order)
    {
      regs := cpu.regs;
      var rsp, i := base, 0;
      assert order[0..] == order;
      while i < |order|
        invariant 0 <= i <= |order| && rsp == base + 8 * i
        invariant PopAll(ram, rsp, regs, order[i..]) == PopAll(ram, base, cpu.regs, order)
      {
        Tail(order, i);
        regs := regs[order[i] := ram[rsp]];
        rsp := rsp + 8;
        i := i + 1;
      }
    }
  }

  lemma StackIsAligned(id: int)
    requires 1 <= id < MAX_TASKS
    ensures AlignDown(STACKS + id * 0x10_0000, 16) == Top(id) && (Top(id) - FRAME) % 8 == 0
    ensures 0x130_0000 <= Top(id) <= 0x150_0000
  {
  }

  lemma Tail(s: seq<Gpr>, i: int)
    requires 0 <= i < |s|
    ensures s[i..] != [] && s[i..][0] == s[i] && s[i..][1..] == s[i + 1..]
  {
  }
}
