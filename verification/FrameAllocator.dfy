/** The section-frame allocator of os/mmu/mmu.c: a free list threaded through a static array
    of 512 frames, one for each megabyte of physical memory. */
module FrameAllocator {
  import opened Options
  import opened Words

  const PHYS_BASE: uint32 := 0x8000_0000
  const PHYS_SIZE: uint32 := 0x2000_0000
  const SECTION_SIZE: uint32 := 0x10_0000
  const BOOT_PAGE_TABLE_BASE: uint32 := 0x9000_0000
  const FRAME_COUNT: nat := 512

  function AddressOf(slot: nat): (addr: uint32)
    requires slot < FRAME_COUNT
  {
    PHYS_BASE + slot * SECTION_SIZE
  }

  /** The address of a whole frame of physical memory. */
  predicate IsFrame(addr: uint32) {
    addr % SECTION_SIZE == 0 && PHYS_BASE <= addr < PHYS_BASE + PHYS_SIZE
  }

  function SlotOf(addr: uint32): (slot: nat)
    requires IsFrame(addr)
    ensures slot < FRAME_COUNT && AddressOf(slot) == addr
  {
    (addr - PHYS_BASE) / SECTION_SIZE
  }

  // ---------- Specification: a stack of free addresses ----------

  ghost predicate Distinct<T>(s: seq<T>) {
    forall i, j :: 0 <= i < j < |s| ==> s[i] != s[j]
  }

  /** The free list, most recently freed first. */
  ghost predicate ValidFreeList(free: seq<uint32>) {
    Distinct(free) && forall i :: 0 <= i < |free| ==> IsFrame(free[i])
  }

  datatype Op = Alloc | Free(addr: uint32)

  /** One call: the free list after it, and the address an allocation returns (0 for none). */
  datatype Step = Step(free: seq<uint32>, returned: uint32)

  function Apply(free: seq<uint32>, op: Op): (s: Step) {
    match op
    case Alloc => if free == [] then Step([], 0) else Step(free[1..], free[0])
    case Free(addr) =>
      if IsFrame(addr) && addr !in free then Step([addr] + free, 0) else Step(free, 0)
  }

  /** The steps of a whole run of calls. */
  function Run(free: seq<uint32>, ops: seq<Op>): (steps: seq<Step>)
    ensures |steps| == |ops|
    decreases |ops|
  {
    if ops == [] then []
    else
      var s := Apply(free, ops[0]);
      [s] + Run(s.free, ops[1..])
  }

  /** A free is accepted exactly for a megabyte-aligned address of physical memory that is not
      free already; refused ones change nothing. */
  lemma FreeExactly(free: seq<uint32>, a: uint32)
    ensures Apply(free, Free(a))
         == Step(if a % 0x10_0000 == 0 && 0x8000_0000 <= a < 0xA000_0000 && a !in free then [a] + free else free, 0)
  {}

  // ---------- Every run ----------

  lemma ApplyKeepsValid(free: seq<uint32>, op: Op)
    requires ValidFreeList(free)
    ensures ValidFreeList(Apply(free, op).free)
  {}

  lemma {:induction false} RunKeepsValid(free: seq<uint32>, ops: seq<Op>, i: nat)
    requires ValidFreeList(free) && i < |ops|
    ensures ValidFreeList(Run(free, ops)[i].free)
    decreases i
  {
    ApplyKeepsValid(free, ops[0]);
    if i > 0 {
      RunKeepsValid(Apply(free, ops[0]).free, ops[1..], i - 1);
    }
  }

  /** An address that is not free stays out of reach until someone frees it. */
  lemma {:induction false} OutUntilFreed(free: seq<uint32>, ops: seq<Op>, a: uint32, i: nat)
    requires a != 0 && a !in free && i < |ops|
    requires forall m :: 0 <= m < i ==> ops[m] != Free(a)
    ensures Run(free, ops)[i].returned != a
    decreases i
  {
    if i > 0 {
      OutUntilFreed(Apply(free, ops[0]).free, ops[1..], a, i - 1);
    }
  }

  /** Whatever addresses clients free, no address is handed out twice without having been
      freed in between. */
  lemma {:induction false} NeverHandedOutTwice(free: seq<uint32>, ops: seq<Op>, i: nat, j: nat)
    requires ValidFreeList(free) && i < j < |ops|
    requires Run(free, ops)[i].returned == Run(free, ops)[j].returned != 0
    ensures exists m :: i < m < j && ops[m] == Free(Run(free, ops)[i].returned)
    decreases i
  {
    var s := Apply(free, ops[0]);
    ApplyKeepsValid(free, ops[0]);
    if i > 0 {
      NeverHandedOutTwice(s.free, ops[1..], i - 1, j - 1);
      var m :| i - 1 < m < j - 1 && ops[1..][m] == Free(Run(s.free, ops[1..])[i - 1].returned);
      assert ops[m + 1] == Free(Run(free, ops)[i].returned);
    } else {
      var a := s.returned;
      if forall m :: 0 < m < j ==> ops[m] != Free(a) {
        OutUntilFreed(s.free, ops[1..], a, j - 1);
        assert false;
      }
    }
  }

  /** An address handed out was free to begin with or was freed by a client. */
  lemma {:induction false} HandedOutWasFree(free: seq<uint32>, ops: seq<Op>, i: nat)
    requires i < |ops| && Run(free, ops)[i].returned != 0
    ensures var a := Run(free, ops)[i].returned;
            a in free || exists m :: 0 <= m < i && ops[m] == Free(a)
    decreases i
  {
    var a := Run(free, ops)[i].returned;
    if a !in free && forall m :: 0 <= m < i ==> ops[m] != Free(a) {
      OutUntilFreed(free, ops, a, i);
    }
  }

  /** The discipline below is needed: any frame a client frees without holding it, reserved
      or not, is the next one handed out. */
  lemma FreedIsHandedOutNext(free: seq<uint32>, a: uint32)
    requires IsFrame(a) && a !in free
    ensures Run(free, [Free(a), Alloc])[1].returned == a
  {
    var ops := [Free(a), Alloc];
    assert ops[1..] == [Alloc];
    assert Run([a] + free, [Alloc])[0] == Apply([a] + free, Alloc);
  }

  // ---------- Runs of disciplined clients ----------

  function HeldAfter(held: set<uint32>, free: seq<uint32>, op: Op): set<uint32> {
    match op
    case Alloc => if free == [] then held else held + {free[0]}
    case Free(addr) => held - {addr}
  }

  /** Every address freed is one that the clients hold at that moment. */
  ghost predicate Disciplined(held: set<uint32>, free: seq<uint32>, ops: seq<Op>)
    decreases |ops|
  {
    ops == [] || (
      && (ops[0].Free? ==> ops[0].addr in held)
      && Disciplined(HeldAfter(held, free, ops[0]), Apply(free, ops[0]).free, ops[1..]))
  }

  /** Held and free frames are disjoint and together all of `managed`. */
  ghost predicate Partition(free: seq<uint32>, held: set<uint32>, managed: set<uint32>) {
    && ValidFreeList(free)
    && (forall a :: a in managed <==> a in held || a in free)
    && (forall a :: a in held ==> a !in free && IsFrame(a))
  }

  ghost function HeldAt(held: set<uint32>, free: seq<uint32>, ops: seq<Op>, i: nat): set<uint32>
    requires i <= |ops|
    decreases i
  {
    if i == 0 then held
    else HeldAt(HeldAfter(held, free, ops[0]), Apply(free, ops[0]).free, ops[1..], i - 1)
  }

  /** The free list before call `i` of a run. */
  ghost function FreeAt(free: seq<uint32>, ops: seq<Op>, i: nat): seq<uint32>
    requires i <= |ops|
  {
    if i == 0 then free else Run(free, ops)[i - 1].free
  }

  lemma ApplyKeepsPartition(free: seq<uint32>, held: set<uint32>, managed: set<uint32>, op: Op)
    requires Partition(free, held, managed)
    requires op.Free? ==> op.addr in held
    ensures Partition(Apply(free, op).free, HeldAfter(held, free, op), managed)
  {
    ApplyKeepsValid(free, op);
    match op
    case Alloc =>
      if free != [] {
        assert free == [free[0]] + free[1..];
        assert free[0] !in free[1..];
      }
    case Free(addr) =>
  }

  /** Each step of a run is the call applied to the free list before it. */
  lemma {:induction false} RunSteps(free: seq<uint32>, ops: seq<Op>, i: nat)
    requires i < |ops|
    ensures Run(free, ops)[i] == Apply(FreeAt(free, ops, i), ops[i])
    decreases i
  {
    if i > 0 {
      var next := Apply(free, ops[0]).free;
      RunSteps(next, ops[1..], i - 1);
      assert FreeAt(next, ops[1..], i - 1) == FreeAt(free, ops, i);
    }
  }

  lemma {:induction false} PartitionAt(free: seq<uint32>, held: set<uint32>, managed: set<uint32>, ops: seq<Op>, i: nat)
    requires Partition(free, held, managed) && Disciplined(held, free, ops) && i < |ops|
    ensures Partition(FreeAt(free, ops, i), HeldAt(held, free, ops, i), managed)
    ensures ops[i].Free? ==> ops[i].addr in HeldAt(held, free, ops, i)
    decreases i
  {
    if i > 0 {
      var next := Apply(free, ops[0]).free;
      ApplyKeepsPartition(free, held, managed, ops[0]);
      PartitionAt(next, HeldAfter(held, free, ops[0]), managed, ops[1..], i - 1);
      assert FreeAt(next, ops[1..], i - 1) == FreeAt(free, ops, i);
    }
  }

  /** If clients free only what they hold, then at every point of every run free and held
      frames partition the managed ones, each free is accepted, and an allocation fails
      exactly when every managed frame is held. */
  lemma DisciplinedRun(free: seq<uint32>, held: set<uint32>, managed: set<uint32>, ops: seq<Op>, i: nat)
    requires Partition(free, held, managed) && Disciplined(held, free, ops) && i < |ops|
    ensures Partition(FreeAt(free, ops, i), HeldAt(held, free, ops, i), managed)
    ensures ops[i].Free? ==> Run(free, ops)[i].free == [ops[i].addr] + FreeAt(free, ops, i)
    ensures ops[i].Alloc? ==>
      var a := Run(free, ops)[i].returned;
      && (a == 0 <==> HeldAt(held, free, ops, i) == managed)
      && (a != 0 ==> a in managed && a !in HeldAt(held, free, ops, i))
  {
    PartitionAt(free, held, managed, ops, i);
    RunSteps(free, ops, i);
    AllocationOutcome(FreeAt(free, ops, i), HeldAt(held, free, ops, i), managed);
  }

  lemma AllocationOutcome(free: seq<uint32>, held: set<uint32>, managed: set<uint32>)
    requires Partition(free, held, managed)
    ensures var a := Apply(free, Alloc).returned;
            && (a == 0 <==> held == managed)
            && (a != 0 ==> a in managed && a !in held)
  {
    if free == [] {
      assert held == managed;
    } else {
      assert free[0] in managed && free[0] !in held;
    }
  }

  // ---------- Initialisation ----------

  /** Frames above the sections the bootloader mapped for the kernel, except the one that
      holds the boot page table. */
  ghost function Managed(mappedSections: uint32): set<uint32> {
    set slot: nat | mappedSections <= slot < FRAME_COUNT && AddressOf(slot) != BOOT_PAGE_TABLE_BASE :: AddressOf(slot)
  }

  /** In plain addresses: the megabytes of physical memory behind the mapped ones, without the
      one at 0x90000000. */
  lemma ManagedExactly(mappedSections: uint32, a: uint32)
    ensures a in Managed(mappedSections) <==>
            && a % 0x10_0000 == 0 && a != 0x9000_0000
            && 0x8000_0000 + mappedSections * 0x10_0000 <= a < 0xA000_0000
  {
    if a % 0x10_0000 == 0 && 0x8000_0000 + mappedSections * 0x10_0000 <= a < 0xA000_0000 && a != 0x9000_0000 {
      assert AddressOf((a - 0x8000_0000) / 0x10_0000) == a;
    }
  }

  /** The order in which initialisation leaves the slots from `mappedSections` up to `end`. */
  function InitialSlots(mappedSections: uint32, end: nat): (slots: seq<nat>)
    requires end <= FRAME_COUNT
    ensures forall i :: 0 <= i < |slots| ==> mappedSections <= slots[i] < end
    decreases end, mappedSections
  {
    if end <= mappedSections then []
    else if AddressOf(end - 1) == BOOT_PAGE_TABLE_BASE then InitialSlots(mappedSections, end - 1)
    else [end - 1] + InitialSlots(mappedSections, end - 1)
  }

  lemma InitialStep(mappedSections: uint32, i: nat)
    requires mappedSections <= i < FRAME_COUNT
    ensures InitialSlots(mappedSections, i + 1)
         == (if AddressOf(i) == BOOT_PAGE_TABLE_BASE then [] else [i]) + InitialSlots(mappedSections, i)
    ensures i !in InitialSlots(mappedSections, i)
  {}

  function Addresses(slots: seq<nat>): (addrs: seq<uint32>)
    requires forall i :: 0 <= i < |slots| ==> slots[i] < FRAME_COUNT
  {
    seq(|slots|, i requires 0 <= i < |slots| => AddressOf(slots[i]))
  }

  lemma {:induction false} InitialSlotsExact(mappedSections: uint32, end: nat)
    requires end <= FRAME_COUNT
    ensures var slots := InitialSlots(mappedSections, end);
            && Distinct(slots)
            && forall k: nat :: k in slots <==> (mappedSections <= k < end && AddressOf(k) != BOOT_PAGE_TABLE_BASE)
    decreases end
  {
    if end > mappedSections {
      InitialSlotsExact(mappedSections, end - 1);
    }
  }

  lemma AddressesValid(slots: seq<nat>)
    requires Distinct(slots) && forall i :: 0 <= i < |slots| ==> slots[i] < FRAME_COUNT
    ensures ValidFreeList(Addresses(slots))
  {}

  lemma InitiallyFree(mappedSections: uint32, a: uint32)
    ensures a in Managed(mappedSections) <==> a in Addresses(InitialSlots(mappedSections, FRAME_COUNT))
  {
    var slots := InitialSlots(mappedSections, FRAME_COUNT);
    var free := Addresses(slots);
    InitialSlotsExact(mappedSections, FRAME_COUNT);
    if a in Managed(mappedSections) {
      var k: nat :| mappedSections <= k < FRAME_COUNT && AddressOf(k) != BOOT_PAGE_TABLE_BASE && a == AddressOf(k);
      assert k in slots;
      var i :| 0 <= i < |slots| && slots[i] == k;
      assert free[i] == a;
    }
    if a in free {
      var i :| 0 <= i < |free| && free[i] == a;
      assert slots[i] in slots;
    }
  }

  /** Right after initialisation, with nothing handed out, the free list is exactly the
      managed frames. */
  lemma InitialPartition(mappedSections: uint32)
    ensures Partition(Addresses(InitialSlots(mappedSections, FRAME_COUNT)), {}, Managed(mappedSections))
  {
    InitialSlotsExact(mappedSections, FRAME_COUNT);
    AddressesValid(InitialSlots(mappedSections, FRAME_COUNT));
    forall a: uint32 {
      InitiallyFree(mappedSections, a);
    }
  }

  /** From boot on, disciplined clients never receive a kernel section or the page table. */
  lemma NeverHandsOutReserved(mappedSections: uint32, ops: seq<Op>, i: nat)
    requires i < |ops| && ops[i].Alloc?
    requires Disciplined({}, Addresses(InitialSlots(mappedSections, FRAME_COUNT)), ops)
    ensures var a := Run(Addresses(InitialSlots(mappedSections, FRAME_COUNT)), ops)[i].returned;
            a != 0 ==> && 0x8000_0000 + mappedSections * 0x10_0000 <= a < 0xA000_0000
                       && a % 0x10_0000 == 0 && a != 0x9000_0000
  {
    InitialPartition(mappedSections);
    DisciplinedRun(Addresses(InitialSlots(mappedSections, FRAME_COUNT)), {}, Managed(mappedSections), ops, i);
  }

  // ---------- Implementation ----------

  datatype Frame = Frame(addr: uint32, next: Option<nat>)

  /** What `free_frame` prints. */
  datatype FreeMessage = Unaligned | OutOfRange | AlreadyFree | Freed

  class Allocator {
    const frames: array<Frame>
    var frameList: Option<nat>
    ghost var slots: seq<nat>  // the list, head first

    ghost function Pointer(k: nat): Option<nat>
      requires k <= |slots|
      reads this
    {
      if k < |slots| then Some(slots[k]) else None
    }

    ghost predicate Valid()
      reads this, frames
    {
      && frames.Length == FRAME_COUNT
      && Distinct(slots)
      && frameList == Pointer(0)
      && forall k :: 0 <= k < |slots| ==>
           && slots[k] < FRAME_COUNT
           && frames[slots[k]] == Frame(AddressOf(slots[k]), Pointer(k + 1))
    }

    ghost function FreeList(): (free: seq<uint32>)
      requires Valid()
      reads this, frames
    {
      Addresses(slots)
    }

    constructor ()
      ensures Valid() && FreeList() == [] && fresh(frames)
    {
      frames := new Frame[FRAME_COUNT](_ => Frame(0, None));
      frameList, slots := None, [];
    }

    method PushSlot(slot: nat)
      requires Valid() && slot < FRAME_COUNT && slot !in slots
      modifies this, frames
      ensures Valid() && slots == [slot] + old(slots)
    {
      frames[slot] := Frame(AddressOf(slot), frameList);
      frameList := Some(slot);
      slots := [slot] + slots;
    }

    /** One round of the loop below: the boot page table's frame is passed over. */
    method AddSlot(i: nat)
      requires Valid() && i < FRAME_COUNT && i !in slots
      modifies this, frames
      ensures Valid() && slots == if AddressOf(i) == BOOT_PAGE_TABLE_BASE then old(slots) else [i] + old(slots)
    {
      var paddr := PHYS_BASE + i * SECTION_SIZE;
      if paddr != BOOT_PAGE_TABLE_BASE {
        PushSlot(i);
      }
    }

    /** `init_frame_allocator`, on the empty list the kernel starts with. */
    method Init(mappedSections: uint32)
      requires Valid() && FreeList() == []
      modifies this, frames
      ensures Valid() && FreeList() == Addresses(InitialSlots(mappedSections, FRAME_COUNT))
    {
      var i: nat := mappedSections;
      while i < FRAME_COUNT
        invariant mappedSections <= i && (i <= FRAME_COUNT || i == mappedSections)
        invariant Valid()
        invariant i <= FRAME_COUNT ==> slots == InitialSlots(mappedSections, i)
        invariant i > FRAME_COUNT ==> slots == []
      {
        InitialStep(mappedSections, i);
        AddSlot(i);
        i := i + 1;
      }
    }

    /** `alloc_frame`. */
    method AllocFrame() returns (addr: uint32)
      requires Valid()
      modifies this
      ensures Valid()
      ensures Apply(old(FreeList()), Alloc) == Step(FreeList(), addr)
    {
      if frameList.Some? {
        var frame := frames[frameList.value];
        frameList := frame.next;
        slots := slots[1..];
        return frame.addr;
      }
      return 0;
    }

    /** The scan for a double free: it ends, and finds `addr` exactly if it is on the list. */
    method OnFreeList(addr: uint32) returns (found: bool)
      requires Valid()
      ensures found <==> addr in FreeList()
    {
      var current := frameList;
      ghost var k := 0;
      while current.Some?
        invariant 0 <= k <= |slots| && current == Pointer(k)
        invariant forall j :: 0 <= j < k ==> AddressOf(slots[j]) != addr
        decreases |slots| - k
      {
        if frames[current.value].addr == addr {
          assert FreeList()[k] == addr;
          return true;
        }
        current := frames[current.value].next;
        k := k + 1;
      }
      return false;
    }

    /** `free_frame`. */
    method FreeFrame(addr: uint32) returns (message: FreeMessage)
      requires Valid()
      modifies this, frames
      ensures Valid()
      ensures FreeList() == Apply(old(FreeList()), Free(addr)).free
      ensures message == if addr % SECTION_SIZE != 0 then Unaligned
                         else if !IsFrame(addr) then OutOfRange
                         else if addr in old(FreeList()) then AlreadyFree
                         else Freed
    {
      if addr % SECTION_SIZE != 0 {
        return Unaligned;
      }
      if addr < PHYS_BASE || addr >= PHYS_BASE + PHYS_SIZE {
        return OutOfRange;
      }
      var found := OnFreeList(addr);
      if found {
        return AlreadyFree;
      }
      var slot := SlotOf(addr);
      forall k | 0 <= k < |slots|
        ensures slots[k] != slot
      {
        assert FreeList()[k] == AddressOf(slots[k]);
      }
      PushSlot(slot);
      return Freed;
    }
  }
}
