/** The yield path: `svc_handler_asm` of os/interrupts/interrupt_handlers.S and the save and
    restore routines of os/scheduler/scheduler_asm.S around the scheduler. Register contents
    are only moved, so their width plays no part; status registers and modes are left out. */
module ContextSwitch {
  import opened Options
  import opened Words
  import opened Scheduler

  // ---------- Specification ----------

  /** What the PCB holds after a yield made with registers `c`: the pop order exchanges r0
      and r1, and the process will resume at its link register. */
  function Saved(c: Context): (pcb: Context) {
    Context([c.r[1], c.r[0]] + c.r[2..], c.sp, c.lr, c.lr)
  }

  datatype Sys = Sys(sched: Sched, pcbs: map<Pid, Context>)

  /** Every process that can be chosen has a PCB. */
  ghost predicate HasPcbs(y: Sys) {
    && y.sched.idle in y.pcbs
    && (forall i :: 0 <= i < |y.sched.ready| ==> y.sched.ready[i] in y.pcbs)
    && (y.sched.current.Some? ==> y.sched.current.value in y.pcbs)
  }

  /** The first dispatch: nothing to save. */
  function Boot(y: Sys): Sys {
    y.(sched := Dispatch(y.sched))
  }

  /** A yield by the running process with registers `c`. */
  function Yield(y: Sys, c: Context): Sys
    requires y.sched.current.Some?
  {
    Sys(Dispatch(y.sched), y.pcbs[y.sched.current.value := Saved(c)])
  }

  /** The registers the chosen process starts or continues with. */
  function Resumed(y: Sys): Context
    requires HasPcbs(y) && y.sched.current.Some?
  {
    y.pcbs[y.sched.current.value]
  }

  /** The system after dispatch `k`; `at(k)` are the registers in which the process chosen by
      dispatch `k` makes its next yield, whatever it did in the meantime. */
  function After(y: Sys, at: nat -> Context, k: nat): (t: Sys)
    ensures t.sched.current.Some?
  {
    if k == 0 then Boot(y) else Yield(After(y, at, k - 1), at(k - 1))
  }

  function RunningAt(y: Sys, at: nat -> Context, k: nat): Pid {
    After(y, at, k).sched.current.value
  }

  // ---------- Whole runs ----------

  lemma DispatchKeepsReady(y: Sys)
    requires HasPcbs(y)
    ensures HasPcbs(Boot(y))
  {}

  lemma {:induction false} RunKeepsReady(y: Sys, at: nat -> Context, k: nat)
    requires HasPcbs(y)
    ensures HasPcbs(After(y, at, k))
    ensures After(y, at, k).sched == DispatchN(y.sched, k + 1)
    decreases k
  {
    if k == 0 {
      DispatchKeepsReady(y);
      assert DispatchN(y.sched, 1) == Dispatch(DispatchN(y.sched, 0));
    } else {
      RunKeepsReady(y, at, k - 1);
      var t := After(y, at, k - 1);
      DispatchKeepsReady(Sys(t.sched, t.pcbs[t.sched.current.value := Saved(at(k - 1))]));
    }
  }

  /** A PCB changes only when its own process yields. */
  lemma {:induction false} PcbUndisturbed(y: Sys, at: nat -> Context, p: Pid, j: nat, k: nat)
    requires j <= k && p in After(y, at, j).pcbs
    requires forall m :: j <= m < k ==> RunningAt(y, at, m) != p
    ensures p in After(y, at, k).pcbs && After(y, at, k).pcbs[p] == After(y, at, j).pcbs[p]
    decreases k
  {
    if j < k {
      PcbUndisturbed(y, at, p, j, k - 1);
      assert RunningAt(y, at, k - 1) != p;
    }
  }

  /** Whatever runs in between, a process that yielded after dispatch `j` and is next chosen
      by dispatch `k` finds what it left. */
  lemma ResumesWhereItYielded(y: Sys, at: nat -> Context, j: nat, k: nat)
    requires HasPcbs(y) && j < k && RunningAt(y, at, k) == RunningAt(y, at, j)
    requires forall m :: j < m < k ==> RunningAt(y, at, m) != RunningAt(y, at, j)
    ensures HasPcbs(After(y, at, k))
    ensures Resumed(After(y, at, k)) == Saved(at(j))
  {
    RunKeepsReady(y, at, k);
    PcbUndisturbed(y, at, RunningAt(y, at, j), j + 1, k);
  }

  /** r2 to r12 and the stack pointer survive, execution continues at the saved link
      register, r0 and r1 come back exchanged. */
  lemma ResumedRegisters(c: Context)
    ensures forall i :: 2 <= i < 13 ==> Saved(c).r[i] == c.r[i]
    ensures Saved(c).sp == c.sp && Saved(c).pc == c.lr && Saved(c).lr == c.lr
    ensures Saved(c).r[0] == c.r[1] && Saved(c).r[1] == c.r[0]
    ensures Saved(c).r == c.r <==> c.r[0] == c.r[1]
  {
    assert c.r[0] == c.r[1] ==> Saved(c).r == c.r;
  }

  lemma ExchangeExample(sp: Word, lr: Word, pc: Word)
    ensures var c := Context([7, 9] + seq(11, _ => 0), sp, lr, pc);
            Saved(c).r[0] == 9 && Saved(c).r[1] == 7 && Saved(c).r != c.r
  {
    ResumedRegisters(Context([7, 9] + seq(11, _ => 0), sp, lr, pc));
  }

  lemma RunningInTurn(y: Sys, at: nat -> Context, k: nat)
    requires HasPcbs(y) && Initial(y.sched) && y.sched.ready != []
    ensures RunningAt(y, at, k) == y.sched.ready[k % |y.sched.ready|]
  {
    RunKeepsReady(y, at, k);
    RoundRobin(y.sched, k);
  }

  lemma SameTurn(y: Sys, at: nat -> Context, k: nat, m: nat)
    requires HasPcbs(y) && Initial(y.sched) && k < m <= k + |y.sched.ready|
    ensures RunningAt(y, at, m) == RunningAt(y, at, k) <==> m == k + |y.sched.ready|
  {
    RunKeepsReady(y, at, k);
    RunKeepsReady(y, at, m);
    NextTurn(y.sched, k, m - k);
  }

  /** Round robin and isolation together: with `n` processes, the one that yielded after
      dispatch `k` is chosen again by dispatch `k + n`, with exactly what it left. */
  lemma FairAndIsolated(y: Sys, at: nat -> Context, k: nat, n: nat)
    requires HasPcbs(y) && Initial(y.sched) && n == |y.sched.ready| > 0
    ensures RunningAt(y, at, k + n) == RunningAt(y, at, k) == y.sched.ready[k % n]
    ensures HasPcbs(After(y, at, k + n)) && Resumed(After(y, at, k + n)) == Saved(at(k))
  {
    RunningInTurn(y, at, k);
    forall m | k < m <= k + n
      ensures RunningAt(y, at, m) == RunningAt(y, at, k) <==> m == k + n
    {
      SameTurn(y, at, k, m);
    }
    ResumesWhereItYielded(y, at, k, k + n);
  }

  /** Until its first turn a process keeps the PCB it was created with, and starts from it. */
  lemma FirstTurn(y: Sys, at: nat -> Context, k: nat)
    requires HasPcbs(y) && Initial(y.sched) && k < |y.sched.ready|
    ensures RunningAt(y, at, k) == y.sched.ready[k]
    ensures HasPcbs(After(y, at, k)) && Resumed(After(y, at, k)) == y.pcbs[y.sched.ready[k]]
  {
    var q := y.sched.ready;
    forall m | 0 <= m <= k
      ensures RunningAt(y, at, m) == q[m]
    {
      RunKeepsReady(y, at, m);
      RoundRobin(y.sched, m);
      DivModUnique(0, m, |q|);
    }
    RunKeepsReady(y, at, k);
    PcbUndisturbed(y, at, q[k], 0, k);
  }

  // ---------- The OS stack over a run ----------

  /** The cached OS stack pointer after dispatch `k`, `frames(i)` bytes of stack being taken
      by the scheduler's C code in dispatch `i`. */
  function OsSpAfter(osSp: Word, frames: nat -> nat, k: nat): (sp: Word) {
    (if k == 0 then osSp else OsSpAfter(osSp, frames, k - 1)) - frames(k) - 4
  }

  function Taken(frames: nat -> nat, k: nat): (total: nat) {
    (if k == 0 then 0 else Taken(frames, k - 1)) + frames(k)
  }

  /** The stack pointer never comes back: all frames and one word for each dispatch are gone. */
  lemma {:induction false} OsStackLost(osSp: Word, frames: nat -> nat, k: nat)
    ensures OsSpAfter(osSp, frames, k) == osSp - Taken(frames, k) - 4 * (k + 1)
    decreases k
  {
    if k > 0 {
      OsStackLost(osSp, frames, k - 1);
    }
  }

  /** The lowest word a run of `k + 1` dispatches has pushed stays at `limit` or above exactly
      while the frames and words lost leave room for one restore. */
  lemma RoomWhile(osSp: Word, limit: Word, frames: nat -> nat, k: nat)
    ensures limit <= OsSpAfter(osSp, frames, k) - 56 <==> Taken(frames, k) + 4 * (k + 1) + 56 <= osSp - limit
  {
    OsStackLost(osSp, frames, k);
  }

  /** Whatever the size of the OS stack, a run of yields leaves it at the bottom. */
  lemma OsStackExhausted(osSp: Word, limit: Word, frames: nat -> nat, k: nat)
    requires 4 * (k + 1) > osSp - limit
    ensures OsSpAfter(osSp, frames, k) < limit
  {
    OsStackLost(osSp, frames, k);
  }

  // ---------- The machine ----------

  /** Where register `j` lies once a context has been pushed below `base`. */
  function Slot(base: Word, j: nat): Word {
    base - 60 + 4 * j
  }

  /** sp, lr and the registers from `i` on are on the stack below `base`. */
  ghost predicate OnStack(memory: map<Word, Word>, base: Word, pcb: Context, i: nat) {
    && base - 4 in memory && memory[base - 4] == pcb.sp
    && base - 8 in memory && memory[base - 8] == pcb.lr
    && forall j: nat :: i <= j < 13 ==> Slot(base, j) in memory && memory[Slot(base, j)] == pcb.r[j]
  }

  /** Every word of `now` that is not one of `was` lies at `low` or above. */
  ghost predicate WrittenFrom(was: map<Word, Word>, now: map<Word, Word>, low: Word) {
    forall a :: a in now ==> a in was || low <= a
  }

  lemma WrittenTwice(a: map<Word, Word>, b: map<Word, Word>, c: map<Word, Word>, low: Word, lower: Word)
    requires WrittenFrom(a, b, low) && WrittenFrom(b, c, lower) && lower <= low
    ensures WrittenFrom(a, c, lower)
  {}

  /** The routines in assembly, one statement for each load, store, push or pop. */
  class Machine {
    const queues: Queues
    var r: Regs
    var sp: Word
    var lr: Word
    var pc: Word
    var memory: map<Word, Word>  // stack words; the PCBs lie elsewhere
    var svcStack: seq<Word>      // the banked Supervisor stack, top first
    var osSpCache: Word
    var usrSpCache: Word
    var irqLrCache: Word
    var pcCache: Word

    ghost predicate Valid()
      reads this, queues, queues.processes, queues.processes.buffer
      reads queues.free, queues.free.buffer, queues.ready, queues.ready.buffer
    {
      queues.Valid() && HasPcbs(View())
    }

    ghost function View(): Sys
      reads this, queues, queues.ready
    {
      Sys(queues.View(), queues.pcbs)
    }

    ghost function Registers(): Context
      reads this
    {
      Context(r, sp, lr, pc)
    }

    constructor (queues: Queues, osSp: Word)
      ensures this.queues == queues && sp == osSp && memory == map[]
    {
      this.queues := queues;
      r, sp, lr, pc := seq(13, _ => 0), osSp, 0, 0;
      memory, svcStack := map[], [];
      osSpCache, usrSpCache, irqLrCache, pcCache := osSp, 0, 0, 0;
    }

    method Push(w: Word)
      modifies this`sp, this`memory
      ensures sp == old(sp) - 4 && memory == old(memory)[sp := w]
    {
      sp := sp - 4;
      memory := memory[sp := w];
    }

    method Pop() returns (w: Word)
      requires sp in memory
      modifies this`sp
      ensures w == memory[old(sp)] && sp == old(sp) + 4
    {
      w := memory[sp];
      sp := sp + 4;
    }

    /** `save_sp_and_lr_usr`, on the values in r0 and r1. */
    method SaveSpAndLr()
      modifies this`usrSpCache, this`irqLrCache
      ensures usrSpCache == r[0] && irqLrCache == r[1]
    {
      usrSpCache := r[0];
      irqLrCache := r[1];
    }

    /** `save_context_asm`: every register word of the current PCB is written. */
    method SaveContext()
      requires Valid() && queues.current.Some?
      modifies queues`pcbs, this`r, this`sp, this`memory
      ensures queues.pcbs == old(queues.pcbs)[queues.current.value :=
                                              Saved(Context(old(r), usrSpCache, irqLrCache, irqLrCache))]
      ensures sp == old(sp) && WrittenFrom(old(memory), memory, old(sp) - 8)
    {
      var p := queues.current.value;
      Push(r[0]);
      Push(r[1]);
      var words := queues.pcbs[p].r;
      for i := 2 to 13
        invariant |words| == 13 && forall j :: 2 <= j < i ==> words[j] == r[j]
      {
        words := words[i := r[i]];
      }
      var top := Pop();
      words := words[0 := top];
      top := Pop();
      words := words[1 := top];
      r := r[1 := top];
      assert words == [old(r)[1], old(r)[0]] + old(r)[2..];
      queues.pcbs := queues.pcbs[p := Context(words, usrSpCache, irqLrCache, irqLrCache)];
    }

    /** The pushes of `restore_context_asm`: sp, lr, then r12 down to r0. */
    method PushContext(pcb: Context)
      modifies this`sp, this`memory
      ensures sp == old(sp) - 60 && OnStack(memory, old(sp), pcb, 0)
      ensures WrittenFrom(old(memory), memory, sp)
    {
      ghost var base := sp;
      Push(pcb.sp);
      Push(pcb.lr);
      for i := 13 downto 0
        invariant sp == Slot(base, i)
        invariant OnStack(memory, base, pcb, i) && WrittenFrom(old(memory), memory, sp)
      {
        Push(pcb.r[i]);
      }
    }

    /** The pops of r0 to r12. */
    method PopRegisters(ghost base: Word, ghost pcb: Context)
      requires sp == Slot(base, 0) && OnStack(memory, base, pcb, 0)
      modifies this`r, this`sp
      ensures r == pcb.r && sp == Slot(base, 13)
    {
      for i := 0 to 13
        invariant sp == Slot(base, i)
        invariant forall j :: 0 <= j < i ==> r[j] == pcb.r[j]
      {
        var w := Pop();
        r := r[i := w];
      }
    }

    /** `restore_context_asm`: the words of the current PCB go over the OS stack into the
        registers. One word, the one that held the process's sp, is left on the OS stack. */
    method RestoreContext()
      requires Valid() && queues.current.Some?
      modifies this`r, this`sp, this`lr, this`pc, this`memory, this`osSpCache, this`pcCache
      ensures Registers() == queues.pcbs[queues.current.value]
      ensures osSpCache == old(sp) - 4 && WrittenFrom(old(memory), memory, old(sp) - 60)
    {
      var pcb := queues.pcbs[queues.current.value];
      ghost var base := sp;
      pcCache := pcb.pc;
      PushContext(pcb);
      PopRegisters(base, pcb);
      lr := Pop();
      osSpCache := sp;
      sp := memory[sp];
      pc := pcCache;
    }

    /** r0 and r1 go onto the Supervisor stack and take sp and lr instead. */
    method StashPair()
      modifies this`r, this`svcStack
      ensures svcStack == [old(r)[1], old(r)[0]] + old(svcStack)
      ensures r == [sp, lr] + old(r)[2..]
    {
      var usrSp: Word, usrLr: Word := sp, lr;
      svcStack := [r[0]] + svcStack;
      svcStack := [r[1]] + svcStack;
      r := r[0 := usrSp];
      r := r[1 := usrLr];
    }

    /** r1 and r0 come back from the Supervisor stack. */
    method UnstashPair()
      requires |svcStack| >= 2
      modifies this`r, this`svcStack
      ensures svcStack == old(svcStack)[2..]
      ensures r == old(r)[0 := old(svcStack)[1]][1 := old(svcStack)[0]]
    {
      var changed: Regs := r[1 := svcStack[0]];
      svcStack := svcStack[1..];
      changed := changed[0 := svcStack[0]];
      svcStack := svcStack[1..];
      r := changed;
    }

    /** `svc_handler_asm` up to the scheduler: r0 and r1 go over the Supervisor stack while
        they carry the process's sp and lr to the caches, then the context is saved. `ret` is
        what the branches leave in lr. */
    method SvcEntry(ret: Word)
      requires Valid() && queues.current.Some?
      modifies this, queues`pcbs
      ensures queues.pcbs == old(queues.pcbs)[queues.current.value := Saved(old(Registers()))]
      ensures svcStack == old(svcStack) && sp == osSpCache == old(osSpCache)
      ensures WrittenFrom(old(memory), memory, sp - 8)
    {
      StashPair();
      assert r[2..] == old(r)[2..];
      SaveSpAndLr();
      UnstashPair();
      assert r == old(r);
      lr := ret;
      sp := osSpCache;
      SaveContext();
    }

    /** A yield as the processor carries it out: the trap, the scheduler, and the jump into
        the process chosen. `scratch` and `frame` are what the C code of the scheduler leaves
        in the registers and takes from the OS stack. */
    method YieldTrap(ret: Word, scratch: Regs, frame: nat)
      requires Valid() && queues.current.Some?
      modifies this, queues`pcbs, queues`current, queues`states, queues.ready, queues.ready.buffer
      ensures Valid() && View() == Yield(old(View()), old(Registers()))
      ensures Registers() == Resumed(View())
      ensures svcStack == old(svcStack)
      ensures osSpCache == old(osSpCache) - frame - 4 && WrittenFrom(old(memory), memory, osSpCache - 56)
    {
      SvcEntry(ret);
      DispatchKeepsReady(View());
      queues.Run();
      r, sp, lr := scratch, sp - frame, ret;
      RestoreContext();
    }

    /** The first entry into `scheduler_run`, from `kmain`. */
    method Start(frame: nat)
      requires Valid()
      modifies this, queues`current, queues`states, queues.ready, queues.ready.buffer
      ensures Valid() && View() == Boot(old(View()))
      ensures Registers() == Resumed(View())
      ensures osSpCache == old(sp) - frame - 4 && WrittenFrom(old(memory), memory, osSpCache - 56)
    {
      DispatchKeepsReady(View());
      queues.Run();
      sp := sp - frame;
      RestoreContext();
    }

    /** The running process comes to have the registers `c`. */
    method Compute(c: Context)
      requires Valid()
      modifies this`r, this`sp, this`lr, this`pc
      ensures Valid() && View() == old(View()) && Registers() == c
    {
      r, sp, lr, pc := c.r, c.sp, c.lr, c.pc;
    }

    /** A process computes and then yields. */
    method Turn(c: Context, ret: Word, scratch: Regs, frame: nat)
      requires Valid() && View().sched.current.Some?
      modifies this, queues`pcbs, queues`current, queues`states, queues.ready, queues.ready.buffer
      ensures Valid() && View() == Yield(old(View()), c)
      ensures Registers() == Resumed(View())
      ensures osSpCache == old(osSpCache) - frame - 4 && WrittenFrom(old(memory), memory, osSpCache - 56)
    {
      Compute(c);
      YieldTrap(ret, scratch, frame);
    }

    /** The machine stands where the run specification says after dispatch `k`: the run began
        in `begin`, with the OS stack at `osSp` and stack words `was`. */
    ghost predicate At(begin: Sys, at: nat -> Context, osSp: Word, frames: nat -> nat, was: map<Word, Word>, k: nat)
      reads this, queues, queues.processes, queues.processes.buffer
      reads queues.free, queues.free.buffer, queues.ready, queues.ready.buffer
    {
      && Valid() && View() == After(begin, at, k)
      && Registers() == Resumed(View())
      && osSpCache == OsSpAfter(osSp, frames, k)
      && WrittenFrom(was, memory, osSpCache - 56)
    }

    /** From one dispatch of a run to the next. */
    method Advance(at: nat -> Context, ret: Word, scratch: Regs, frames: nat -> nat, k: nat,
                   ghost begin: Sys, ghost osSp: Word, ghost was: map<Word, Word>)
      requires At(begin, at, osSp, frames, was, k)
      modifies this, queues`pcbs, queues`current, queues`states, queues.ready, queues.ready.buffer
      ensures At(begin, at, osSp, frames, was, k + 1)
    {
      ghost var before := memory;
      Turn(at(k), ret, scratch, frames(k + 1));
      WrittenTwice(was, before, memory, OsSpAfter(osSp, frames, k) - 56, osSpCache - 56);
    }

    /** A whole run: the first dispatch, then `n` yields, each process having done what it
        pleased with its registers. */
    method RunFor(at: nat -> Context, ret: Word, scratch: Regs, frames: nat -> nat, n: nat)
      requires Valid()
      modifies this, queues`pcbs, queues`current, queues`states, queues.ready, queues.ready.buffer
      ensures At(old(View()), at, old(sp), frames, old(memory), n)
    {
      ghost var begin, osSp, was := View(), sp, memory;
      Start(frames(0));
      for i := 0 to n
        invariant At(begin, at, osSp, frames, was, i)
      {
        Advance(at, ret, scratch, frames, i, begin, osSp, was);
      }
    }
  }

  // ---------- From boot ----------

  /** The state `scheduler_init` leaves: idle in slot 0, three processes ready. */
  ghost predicate Booted(y: Sys, table: Word, idleTask: Word, tasks: seq<Word>)
    requires |tasks| == 3
  {
    && Initial(y.sched) && y.sched.idle == 0 && y.sched.ready == [1, 2, 3]
    && y.pcbs == map[0 := Created(idleTask, StackTop(table, 0)), 1 := Created(tasks[0], StackTop(table, 1)),
                     2 := Created(tasks[1], StackTop(table, 2)), 3 := Created(tasks[2], StackTop(table, 3))]
  }

  /** The first three turns, in plain numbers: P1, P2 and the motor task each begin at their own
      entry point, r0 to r12 hold their numbers, lr is 0, and the stack pointers are one process
      record apart. */
  lemma FirstTurns(y: Sys, table: Word, idleTask: Word, tasks: seq<Word>, at: nat -> Context, k: nat)
    requires |tasks| == 3 && Booted(y, table, idleTask, tasks) && k < 3
    ensures HasPcbs(After(y, at, k))
    ensures var c := Resumed(After(y, at, k));
            && c.pc == tasks[k] && c.lr == 0
            && c.sp == table + 65648 * (1 + k) + 65616
            && forall i :: 0 <= i < 13 ==> c.r[i] == i
  {
    FromBoot(y, table, idleTask, tasks, at, k);
  }

  lemma BootTurn(y: Sys, table: Word, idleTask: Word, tasks: seq<Word>, at: nat -> Context, k: nat)
    requires |tasks| == 3 && Booted(y, table, idleTask, tasks)
    ensures HasPcbs(y) && RunningAt(y, at, k) == 1 + k % 3
  {
    RunningInTurn(y, at, k);
  }

  /** From boot dispatch `k` runs slot 1 + k mod 3: at first from its own entry point with its
      own stack, later with what it left at its last yield. */
  lemma FromBoot(y: Sys, table: Word, idleTask: Word, tasks: seq<Word>, at: nat -> Context, k: nat)
    requires |tasks| == 3 && Booted(y, table, idleTask, tasks)
    ensures HasPcbs(y) && HasPcbs(After(y, at, k)) && RunningAt(y, at, k) == 1 + k % 3
    ensures Resumed(After(y, at, k))
         == if k < 3 then Created(tasks[k], StackTop(table, 1 + k)) else Saved(at(k - 3))
  {
    BootTurn(y, table, idleTask, tasks, at, k);
    RunKeepsReady(y, at, k);
    if k < 3 {
      FirstTurn(y, at, k);
    } else {
      FairAndIsolated(y, at, k - 3, 3);
    }
  }

  /** `kmain` from the initialisation of the scheduler on, through `n` yields. */
  method BootAndRun(table: Word, idleTask: Word, tasks: seq<Word>, osSp: Word,
                    at: nat -> Context, ret: Word, scratch: Regs, frames: nat -> nat, n: nat)
    returns (m: Machine)
    requires |tasks| == 3
    ensures m.Valid() && m.queues.current == Some(1 + n % 3)
    ensures m.Registers() == if n < 3 then Created(tasks[n], StackTop(table, 1 + n)) else Saved(at(n - 3))
    ensures n < 3 ==> m.pc == tasks[n] && m.lr == 0 && m.sp == table + 65648 * (1 + n) + 65616
    ensures forall a :: a in m.memory ==> OsSpAfter(osSp, frames, n) - 56 <= a
  {
    var queues := new Queues(table);
    queues.Init(idleTask, tasks[0], tasks[1], tasks[2]);
    m := new Machine(queues, osSp);
    ghost var y := m.View();
    FromBoot(y, table, idleTask, tasks, at, n);
    m.RunFor(at, ret, scratch, frames, n);
  }
}
