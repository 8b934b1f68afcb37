/** The round-robin scheduler of os/scheduler/scheduler.c: a ready ring, a current process
    and an idle process that runs when nothing else can. */
module Scheduler {
  import opened Options
  import opened Words
  import opened RingBuffers

  type Pid = nat

  type Word = int

  /** r0 to r12. */
  type Regs = s: seq<Word> | |s| == 13 witness seq(13, _ => 0)

  /** The registers of a process, and equally the register words of its PCB. */
  datatype Context = Context(r: Regs, sp: Word, lr: Word, pc: Word)

  datatype ProcessState = Undefined | New | Ready | Running | Blocked | Terminated

  datatype Sched = Sched(ready: seq<Pid>, current: Option<Pid>, idle: Pid, states: map<Pid, ProcessState>)

  // ---------- One dispatch ----------

  /** The running process goes to the back of the ready queue, the front one runs. */
  function Dispatch(s: Sched): (t: Sched)
    ensures t.current.Some? && t.idle == s.idle
  {
    var requeue := s.current.Some? && s.current.value != s.idle;
    var states := if requeue then s.states[s.current.value := Ready] else s.states;
    var ready := if requeue && |s.ready| < CAPACITY then s.ready + [s.current.value] else s.ready;
    var next := if ready == [] then s.idle else ready[0];
    Sched(if ready == [] then [] else ready[1..], Some(next), s.idle, states[next := Running])
  }

  function DispatchN(s: Sched, k: nat): (t: Sched) {
    if k == 0 then s else Dispatch(DispatchN(s, k - 1))
  }

  // ---------- Whole runs ----------

  ghost predicate Distinct(q: seq<Pid>) {
    forall i, j :: 0 <= i < j < |q| ==> q[i] != q[j]
  }

  /** The state `scheduler_run` is first entered in: nothing has run yet. */
  ghost predicate Initial(s: Sched) {
    && s.current == None
    && |s.ready| <= CAPACITY
    && Distinct(s.ready) && s.idle !in s.ready
    && forall p :: p in s.states ==> s.states[p] != Running
  }

  /** `q` read circularly from position `from`. */
  function Rotation(q: seq<Pid>, from: nat, length: nat): (r: seq<Pid>)
    requires q != []
    ensures |r| == length
  {
    seq(length, i requires 0 <= i < length => q[(from + i) % |q|])
  }

  lemma ModPeriod(a: nat, n: nat)
    requires n > 0
    ensures (a + n) % n == a % n
  {
    DivModFacts(a, n);
    assert a + n == (a / n + 1) * n + a % n;
    DivModUnique(a / n + 1, a % n, n);
  }

  /** Closing the circle with the process that just ran, and opening it at the next one. */
  lemma RotationStep(q: seq<Pid>, k: nat)
    requires q != []
    ensures Rotation(q, k + 1, |q| - 1) + [q[k % |q|]] == Rotation(q, k + 1, |q|)
    ensures Rotation(q, k + 1, |q|)[0] == q[(k + 1) % |q|]
    ensures Rotation(q, k + 1, |q|)[1..] == Rotation(q, k + 2, |q| - 1)
  {
    ModPeriod(k, |q|);
    assert Rotation(q, k + 1, |q|)[|q| - 1] == q[(k + |q|) % |q|];
    var circle, rest := Rotation(q, k + 1, |q|), Rotation(q, k + 2, |q| - 1);
    forall i | 0 <= i < |rest|
      ensures circle[1..][i] == rest[i]
    {
      assert k + 1 + (i + 1) == k + 2 + i;
    }
  }

  lemma FirstRotation(q: seq<Pid>)
    requires q != []
    ensures q[0 % |q|] == q[0]
    ensures Rotation(q, 1, |q| - 1) == q[1..]
  {
    DivModUnique(0, 0, |q|);
    forall i | 0 <= i < |q| - 1
      ensures Rotation(q, 1, |q| - 1)[i] == q[1..][i]
    {
      DivModUnique(0, 1 + i, |q|);
    }
  }

  /** A dispatch moves the running process to the back and runs the front one. */
  lemma DispatchBusy(s: Sched, c: Pid, circle: seq<Pid>)
    requires s.current == Some(c) && c != s.idle && |s.ready| < CAPACITY
    requires circle == s.ready + [c]
    ensures Dispatch(s).current == Some(circle[0]) && Dispatch(s).ready == circle[1..]
  {}

  /** After dispatch `k` the running process is `q[k mod n]` and the ready queue is the rest
      of the circle, in order. */
  lemma {:induction false} RoundRobin(s: Sched, k: nat)
    requires Initial(s) && s.ready != []
    ensures var q, t := s.ready, DispatchN(s, k + 1);
            && t.current == Some(q[k % |q|])
            && t.ready == Rotation(q, k + 1, |q| - 1)
    decreases k
  {
    var q := s.ready;
    if k == 0 {
      FirstRotation(q);
      assert DispatchN(s, 1) == Dispatch(DispatchN(s, 0));
    } else {
      RoundRobin(s, k - 1);
      IdleKept(s, k);
      RotationStep(q, k - 1);
      var c := q[(k - 1) % |q|];
      assert c in q;
      DispatchBusy(DispatchN(s, k), c, Rotation(q, k, |q|));
    }
  }

  lemma {:induction false} IdleKept(s: Sched, k: nat)
    ensures DispatchN(s, k).idle == s.idle
    decreases k
  {
    if k > 0 {
      IdleKept(s, k - 1);
    }
  }

  lemma {:induction false} RotationIsPermutation(q: seq<Pid>, k: nat)
    requires q != []
    ensures multiset(Rotation(q, k, |q|)) == multiset(q)
    decreases k
  {
    if k == 0 {
      forall i | 0 <= i < |q|
        ensures Rotation(q, 0, |q|)[i] == q[i]
      {
        DivModUnique(0, i, |q|);
      }
      assert Rotation(q, 0, |q|) == q;
    } else {
      RotationIsPermutation(q, k - 1);
      var was := Rotation(q, k - 1, |q|);
      RotationShift(q, k - 1);
      assert was == [was[0]] + was[1..];
    }
  }

  lemma RotationShift(q: seq<Pid>, k: nat)
    requires q != []
    ensures Rotation(q, k + 1, |q|) == Rotation(q, k, |q|)[1..] + [Rotation(q, k, |q|)[0]]
  {
    var n := |q|;
    ModPeriod(k, n);
    forall i | 0 <= i < n
      ensures Rotation(q, k + 1, n)[i] == (Rotation(q, k, n)[1..] + [Rotation(q, k, n)[0]])[i]
    {
      assert k + 1 + i == k + (i + 1);
    }
  }

  /** No push is refused and no process is lost: the ready queue and the running process are
      always a permutation of the initial queue, and idle never runs. */
  lemma NothingLost(s: Sched, k: nat)
    requires Initial(s) && s.ready != []
    ensures var t := DispatchN(s, k + 1);
            && multiset(t.ready + [t.current.value]) == multiset(s.ready)
            && |t.ready| < CAPACITY
            && t.current.value != s.idle
  {
    var q := s.ready;
    RoundRobin(s, k);
    RotationStep(q, k);
    RotationIsPermutation(q, k + 1);
    assert q[k % |q|] in q;
  }

  /** With nothing to run, idle runs forever. */
  lemma {:induction false} IdleRuns(s: Sched, k: nat)
    requires Initial(s) && s.ready == []
    ensures var t := DispatchN(s, k + 1); t.current == Some(s.idle) && t.ready == []
    decreases k
  {
    if k > 0 {
      IdleRuns(s, k - 1);
      assert DispatchN(s, k + 1) == Dispatch(DispatchN(s, k));
    } else {
      assert DispatchN(s, 1) == Dispatch(DispatchN(s, 0));
    }
  }

  /** Exactly the current process is RUNNING. */
  ghost predicate OneRunning(s: Sched) {
    forall p :: p in s.states && s.states[p] == Running <==> s.current == Some(p)
  }

  lemma IdleOnlyWhenEmpty(s: Sched, k: nat)
    requires Initial(s)
    ensures var t := DispatchN(s, k + 1); t.current == Some(t.idle) ==> t.ready == []
  {
    IdleKept(s, k + 1);
    if s.ready == [] {
      IdleRuns(s, k);
    } else {
      NothingLost(s, k);
    }
  }

  lemma DispatchOneRunning(s: Sched)
    requires OneRunning(s)
    requires s.current == Some(s.idle) ==> s.ready == []
    ensures OneRunning(Dispatch(s))
  {}

  /** After every dispatch of every run exactly one process is RUNNING. */
  lemma {:induction false} ExactlyOneRunning(s: Sched, k: nat)
    requires Initial(s)
    ensures OneRunning(DispatchN(s, k + 1))
    decreases k
  {
    if k == 0 {
      DispatchOneRunning(s);
      assert DispatchN(s, 1) == Dispatch(DispatchN(s, 0));
    } else {
      ExactlyOneRunning(s, k - 1);
      var t := DispatchN(s, k);
      assert t.current == Some(t.idle) ==> t.ready == [] by {
        IdleOnlyWhenEmpty(s, k - 1);
      }
      DispatchOneRunning(t);
    }
  }

  /** No process of the queue has run: the state they are created in. */
  ghost predicate AllNew(s: Sched) {
    forall i :: 0 <= i < |s.ready| ==> s.ready[i] in s.states && s.states[s.ready[i]] == New
  }

  /** The state of the process at place `j` of the initial queue after dispatch `k`. */
  function StateAfter(j: nat, k: nat, n: nat): (state: ProcessState)
    requires n > 0
  {
    if j == k % n then Running else if j < k then Ready else New
  }

  /** What one dispatch does to the state of a process `p`. */
  lemma DispatchState(s: Sched, c: Pid, next: Pid, p: Pid)
    requires s.current == Some(c) && c != s.idle && Dispatch(s).current == Some(next)
    requires p in s.states
    ensures p in Dispatch(s).states
    ensures Dispatch(s).states[p] == if p == next then Running else if p == c then Ready else s.states[p]
  {}

  /** After every dispatch the process chosen is RUNNING, those that have run before are
      READY, and those that have not are NEW. */
  lemma {:induction false} StatesOfQueue(s: Sched, k: nat, j: nat)
    requires Initial(s) && AllNew(s) && j < |s.ready|
    ensures var t := DispatchN(s, k + 1);
            s.ready[j] in t.states && t.states[s.ready[j]] == StateAfter(j, k, |s.ready|)
    decreases k
  {
    var q := s.ready;
    RoundRobin(s, k);
    IdleKept(s, k);
    if k == 0 {
      FirstRotation(q);
      assert DispatchN(s, 1) == Dispatch(DispatchN(s, 0));
      DivModUnique(0, 0, |q|);
    } else {
      StatesOfQueue(s, k - 1, j);
      RoundRobin(s, k - 1);
      PlaceBefore(k, j, |q|);
      var c := q[(k - 1) % |q|];
      assert c in q;
      DispatchState(DispatchN(s, k), c, q[k % |q|], q[j]);
    }
  }

  /** The place that has just run, and whether place `j` has. */
  lemma PlaceBefore(k: nat, j: nat, n: nat)
    requires k > 0 && j < n
    ensures j < k && j != (k - 1) % n ==> j < k - 1
    ensures k - 1 < n ==> (k - 1) % n == k - 1
  {
    if k - 1 < n {
      DivModUnique(0, k - 1, n);
    }
  }

  /** Between two dispatches of a process every other one runs exactly once: with distinct
      processes, the same one runs again after exactly `n` dispatches and not before. */
  lemma NextTurn(s: Sched, k: nat, d: nat)
    requires Initial(s) && s.ready != [] && 0 < d <= |s.ready|
    ensures DispatchN(s, k + d + 1).current == DispatchN(s, k + 1).current <==> d == |s.ready|
  {
    var q := s.ready;
    RoundRobin(s, k);
    RoundRobin(s, k + d);
    if d == |q| {
      ModPeriod(k, |q|);
    } else {
      ModDiffers(k, d, |q|);
    }
  }

  lemma ModDiffers(k: nat, d: nat, n: nat)
    requires 0 < d < n
    ensures (k + d) % n != k % n
  {
    DivModFacts(k, n);
    DivModFacts(k + d, n);
    var gap := (k + d) / n - k / n;
    assert gap * n == (k + d) / n * n - k / n * n;
    assert gap * n == d - ((k + d) % n - k % n);
    assert gap >= 1 ==> gap * n >= n;
    assert gap <= 0 ==> gap * n <= 0;
  }

  // ---------- Implementation ----------

  const MAX_PROCESSES: nat := 32

  /** The slots `from` to 31, in order. */
  function Slots(from: nat): (pids: seq<Pid>)
    requires from <= MAX_PROCESSES
  {
    seq(MAX_PROCESSES - from, i requires 0 <= i < MAX_PROCESSES - from => from + i)
  }

  lemma SlotsTail(from: nat)
    requires from < MAX_PROCESSES
    ensures Slots(from)[0] == from && Slots(from)[1..] == Slots(from + 1)
  {}

  const USER_STACK_SIZE: nat := 0x1_0000
  const PROCESS_SIZE: nat := 80 + USER_STACK_SIZE + 32  // words before the stack, the stack, the rest
  const SYSTEM_STATUS: Word := 0xDF                     // System mode, interrupts masked

  /** Where the stack of a slot ends, the process table beginning at `table`. */
  function StackTop(table: Word, pid: Pid): (top: Word) {
    table + PROCESS_SIZE * pid + 80 + USER_STACK_SIZE
  }

  /** The record of slot `pid` in the process table. */
  predicate InRecord(table: Word, pid: Pid, low: Word, high: Word) {
    table + 65648 * pid <= low && high <= table + 65648 * pid + 65648
  }

  /** Every slot has its own stack: the 64 KiB below the stack pointer a process begins with
      lie in its own record, behind the 80 bytes of registers and other leading words, and so
      the stacks of two slots share no memory. */
  lemma StacksDisjoint(table: Word, p: Pid, q: Pid, entry: Word)
    requires p < q
    ensures var low, high := Created(entry, StackTop(table, p)).sp, Created(entry, StackTop(table, q)).sp;
            && InRecord(table, p, low - 0x1_0000 - 80, low + 32)
            && InRecord(table, q, high - 0x1_0000 - 80, high + 32)
            && low + 32 + 80 <= high - 0x1_0000
  {}

  /** The register words `process_create` leaves for a process that begins at `entry`. */
  function Created(entry: Word, stackTop: Word): (c: Context) {
    Context(seq(13, i requires 0 <= i < 13 => i), stackTop, 0, entry)
  }

  /** The leading words of a process: r0 to r12, sp, lr, cpsr and pc. */
  type Words17 = s: seq<Word> | |s| == 17 witness seq(17, _ => 0)

  /** The register part of `process_create`. The clearing loop runs over sixteen words, three
      more than there are registers, so the status word set before it is lost. */
  method InitialWords(was: Words17, entry: Word, stackTop: Word) returns (words: Words17)
    ensures forall i :: 0 <= i < 13 ==> words[i] == i
    ensures words[13] == stackTop && words[14] == 0 && words[15] == 15 && words[16] == entry
    ensures words[15] != SYSTEM_STATUS
  {
    words := was[16 := entry];
    words := words[15 := SYSTEM_STATUS];
    for i := 0 to 16
      invariant forall j :: 0 <= j < i ==> words[j] == j
      invariant words[16] == entry
    {
      words := words[i := i];
    }
    words := words[14 := 0];
    words := words[13 := stackTop];
  }

  /** The scheduler's globals; a process is named by its slot in the process table. */
  class Queues {
    const table: Word
    const processes: PointerRing<Pid>
    const free: PointerRing<Pid>
    const ready: PointerRing<Pid>
    var current: Option<Pid>
    var idle: Pid
    var count: int
    var states: map<Pid, ProcessState>
    var pcbs: map<Pid, Context>
    var status: map<Pid, Word>  // the cpsr word of each process

    ghost predicate Valid()
      reads this, processes, processes.buffer, free, free.buffer, ready, ready.buffer
    {
      && processes.Valid() && free.Valid() && ready.Valid()
      && processes != free && processes != ready && free != ready
      && processes.buffer != free.buffer && processes.buffer != ready.buffer && free.buffer != ready.buffer
    }

    ghost function View(): Sched
      reads this, ready
    {
      Sched(ready.contents, current, idle, states)
    }

    constructor (table: Word)
      ensures Valid() && this.table == table && Blank()
      ensures fresh(processes) && fresh(processes.buffer)
      ensures fresh(free) && fresh(free.buffer) && fresh(ready) && fresh(ready.buffer)
    {
      this.table := table;
      processes := new PointerRing<Pid>();
      free := new PointerRing<Pid>();
      ready := new PointerRing<Pid>();
      current, idle, count := None, 0, 0;
      states, pcbs, status := map[], map[], map[];
    }

    /** Before `scheduler_init`: nothing queued, nothing running, no slot set up. */
    ghost predicate Blank()
      reads this, processes, free, ready
    {
      && processes.contents == [] && free.contents == [] && ready.contents == []
      && current == None && count == 0
      && states == map[] && pcbs == map[] && status == map[]
    }

    /** `process_create`: the oldest free slot becomes NEW and gets its first context. */
    method Create(entry: Word) returns (pid: Option<Pid>)
      requires Valid()
      modifies this`states, this`pcbs, this`status, this`count, free
      ensures Valid()
      ensures if old(free.contents) == [] then
                && pid == None && free.contents == [] && count == old(count)
                && states == old(states) && pcbs == old(pcbs) && status == old(status)
              else
                && pid == Some(old(free.contents)[0])
                && free.contents == old(free.contents)[1..]
                && count == old(count) + 1
                && states == old(states)[pid.value := New]
                && pcbs == old(pcbs)[pid.value := Created(entry, StackTop(table, pid.value))]
                && status == old(status)[pid.value := 15]
    {
      pid := free.Pop();
      if pid.Some? {
        var words := InitialWords(seq(17, _ => 0), entry, StackTop(table, pid.value));
        assert words[..13] == Created(entry, StackTop(table, pid.value)).r;
        states := states[pid.value := New];
        pcbs := pcbs[pid.value := Context(words[..13], words[13], words[14], words[16])];
        status := status[pid.value := words[15]];
        count := count + 1;
      }
    }

    /** Slot filling of `scheduler_init`. */
    method FillSlots()
      requires Valid() && Blank()
      modifies this`states, free, free.buffer
      ensures Valid() && free.contents == Slots(0) && |free.contents| == 32
      ensures forall p: Pid :: p in states <==> p < MAX_PROCESSES
      ensures forall p :: p in states ==> states[p] == Undefined
    {
      for i := 0 to MAX_PROCESSES
        invariant Valid()
        invariant free.contents == seq(i, j requires 0 <= j < i => j)
        invariant forall p: Pid :: p in states <==> p < i
        invariant forall p :: p in states ==> states[p] == Undefined
      {
        states := states[i := Undefined];
        var ok := free.Push(i);
      }
    }

    /** `process_create` followed by the push to the list of processes. */
    method CreateListed(entry: Word, ghost slot: nat) returns (pid: Pid)
      requires Valid() && slot < MAX_PROCESSES && free.contents == Slots(slot) && |processes.contents| < CAPACITY
      modifies this`states, this`pcbs, this`status, this`count, free, processes, processes.buffer
      ensures Valid() && pid == slot && free.contents == Slots(slot + 1)
      ensures processes.contents == old(processes.contents) + [slot]
      ensures count == old(count) + 1 && states == old(states)[slot := New]
      ensures pcbs == old(pcbs)[slot := Created(entry, StackTop(table, slot))]
      ensures status == old(status)[slot := 15]
    {
      SlotsTail(slot);
      assert free.contents != [] && free.contents[0] == slot;
      var created := Create(entry);
      assert created == Some(slot);
      pid := created.value;
      var ok := processes.Push(pid);
    }

    /** An ordinary process, also pushed to the ready queue. The count goes up twice: once in
        `process_create` and once more here. */
    method CreateReady(entry: Word, ghost slot: nat)
      requires Valid() && slot < MAX_PROCESSES && free.contents == Slots(slot)
      requires |ready.contents| < CAPACITY && |processes.contents| < CAPACITY
      modifies this`states, this`pcbs, this`status, this`count
      modifies free, ready, ready.buffer, processes, processes.buffer
      ensures Valid() && free.contents == Slots(slot + 1)
      ensures processes.contents == old(processes.contents) + [slot]
      ensures ready.contents == old(ready.contents) + [slot]
      ensures count == old(count) + 2 && states == old(states)[slot := New]
      ensures pcbs == old(pcbs)[slot := Created(entry, StackTop(table, slot))]
      ensures status == old(status)[slot := 15]
    {
      var pid := CreateListed(entry, slot);
      var ok := ready.Push(pid);
      count := count + 1;
    }

    /** P1, P2 and the motor task. */
    method CreateTasks(p1: Word, p2: Word, motorTask: Word)
      requires Valid() && free.contents == Slots(1) && ready.contents == [] && processes.contents == [0]
      modifies this`states, this`pcbs, this`status, this`count
      modifies free, ready, ready.buffer, processes, processes.buffer
      ensures Valid() && free.contents == Slots(4)
      ensures processes.contents == [0, 1, 2, 3] && ready.contents == [1, 2, 3]
      ensures count == old(count) + 6 && states == old(states)[1 := New][2 := New][3 := New]
      ensures pcbs == old(pcbs)[1 := Created(p1, StackTop(table, 1))][2 := Created(p2, StackTop(table, 2))]
                               [3 := Created(motorTask, StackTop(table, 3))]
      ensures status == old(status)[1 := 15][2 := 15][3 := 15]
    {
      CreateReady(p1, 1);
      CreateReady(p2, 2);
      CreateReady(motorTask, 3);
    }

    /** `scheduler_init`: idle in slot 0, then P1, P2 and the motor task, ready in order. Four
        processes are created and seven counted. */
    method Init(idleTask: Word, p1: Word, p2: Word, motorTask: Word)
      requires Valid() && Blank()
      modifies this`idle, this`count, this`states, this`pcbs, this`status
      modifies free, free.buffer, ready, ready.buffer, processes, processes.buffer
      ensures Valid() && Initial(View()) && idle == 0
      ensures processes.contents == [0, 1, 2, 3] && ready.contents == [1, 2, 3] && free.contents == Slots(4)
      ensures count == 7
      ensures pcbs == map[0 := Created(idleTask, StackTop(table, 0)), 1 := Created(p1, StackTop(table, 1)),
                          2 := Created(p2, StackTop(table, 2)), 3 := Created(motorTask, StackTop(table, 3))]
      ensures status == map[0 := 15, 1 := 15, 2 := 15, 3 := 15]
    {
      FillSlots();
      idle := CreateListed(idleTask, 0);
      CreateTasks(p1, p2, motorTask);
    }

    /** First half of `scheduler_run`: a running process other than idle goes to the back. */
    method Requeue()
      requires Valid()
      modifies this`states, ready, ready.buffer
      ensures Valid() && free.contents == old(free.contents)
      ensures if current.Some? && current.value != idle then
                && states == old(states)[current.value := Ready]
                && ready.contents == (if |old(ready.contents)| < CAPACITY then old(ready.contents) + [current.value]
                                      else old(ready.contents))
              else states == old(states) && ready.contents == old(ready.contents)
    {
      if current.Some? && current.value != idle {
        states := states[current.value := Ready];
        var _ := ready.Push(current.value);
      }
    }

    /** `scheduler_run` up to the jump into the chosen process. */
    method Run()
      requires Valid()
      modifies this`current, this`states, ready, ready.buffer
      ensures Valid() && free.contents == old(free.contents)
      ensures View() == Dispatch(old(View()))
    {
      Requeue();
      var next := ready.Pop();
      if next.None? {
        next := Some(idle);
      }
      current := next;
      states := states[next.value := Running];
    }
  }
}
