/** Whole runs of malloc_heap, free and refresh_freespace on both heaps
    (kernel/memory/memory.c:12-126, 208-224, 249-254; kernel/memory/memory.h:5-13). */
module HeapRuns {
  import opened Spans
  import opened Heap
  import opened RefreshExact

  const KERNEL_HEAP: nat := 0x18_0000_0000
  const KERNEL_STACK: nat := 0x20_0000_0000
  const USERSPACE_HEAP: nat := 0x10_0000
  const USERSPACE_STACK: nat := 0x10_0000_0000
  const SLOTS: nat := 0x200

  /** Both heaps, with the byte ranges each has lost so far. */
  datatype Heaps = Heaps(kernel: HeapState, kernelLost: seq<Span>, user: HeapState, userLost: seq<Span>)

  datatype Op = MallocOp(size: nat, heap: nat) | FreeOp(addr: nat) | RefreshOp

  function Start(): Heaps {
    Heaps(Initial(KERNEL_HEAP, KERNEL_STACK, SLOTS), [], Initial(USERSPACE_HEAP, USERSPACE_STACK, SLOTS), [])
  }

  function OnKernel(hs: Heaps, r: Outcome): Heaps {
    hs.(kernel := r.state, kernelLost := hs.kernelLost + r.lost)
  }

  function OnUser(hs: Heaps, r: Outcome): Heaps {
    hs.(user := r.state, userLost := hs.userLost + r.lost)
  }

  /** One call; malloc_heap ignores unknown heaps and free ignores addresses outside both. */
  function Apply(hs: Heaps, op: Op): Heaps {
    match op
    case MallocOp(size, heap) =>
      if heap == 0 then OnKernel(hs, Malloc(hs.kernel, size))
      else if heap == 1 then OnUser(hs, Malloc(hs.user, size))
      else hs
    case FreeOp(addr) =>
      if KERNEL_HEAP <= addr < KERNEL_STACK then OnKernel(hs, Free(hs.kernel, addr))
      else if USERSPACE_HEAP <= addr < USERSPACE_STACK then OnUser(hs, Free(hs.user, addr))
      else hs
    case RefreshOp => hs.(kernel := Refreshed(hs.kernel), user := Refreshed(hs.user))
  }

  function Run(ops: seq<Op>): Heaps {
    if ops == [] then Start() else Apply(Run(ops[..|ops| - 1]), ops[|ops| - 1])
  }

  /** Each refresh_freespace call of the run finds safe free tables. A run of malloc and free calls
      alone is always fair. */
  predicate Fair(ops: seq<Op>) {
    forall i :: 0 <= i < |ops| && ops[i].RefreshOp? ==> SafeHeaps(Run(ops[..i]))
  }

  predicate SafeHeaps(hs: Heaps) {
    Safe(hs.kernel.free) && Safe(hs.user.free)
  }

  ghost predicate BothInv(hs: Heaps) {
    && Inv(KERNEL_HEAP, KERNEL_STACK, hs.kernel, hs.kernelLost)
    && Inv(USERSPACE_HEAP, USERSPACE_STACK, hs.user, hs.userLost)
  }

  /** A call keeps both invariants if and only if it is not a refresh of an unsafe table. */
  lemma ApplyKeepsInv(hs: Heaps, op: Op)
    requires BothInv(hs)
    ensures BothInv(Apply(hs, op)) <==> (op.RefreshOp? ==> SafeHeaps(hs))
  {
    hide Inv, Malloc, Free, Safe, Refreshed;
    match op
    case MallocOp(size, heap) =>
      MallocKeepsInv(KERNEL_HEAP, KERNEL_STACK, hs.kernel, hs.kernelLost, size);
      MallocKeepsInv(USERSPACE_HEAP, USERSPACE_STACK, hs.user, hs.userLost, size);
    case FreeOp(addr) =>
      if KERNEL_HEAP <= addr < KERNEL_STACK {
        FreeKeepsInv(KERNEL_HEAP, KERNEL_STACK, hs.kernel, hs.kernelLost, addr);
      } else if USERSPACE_HEAP <= addr < USERSPACE_STACK {
        FreeKeepsInv(USERSPACE_HEAP, USERSPACE_STACK, hs.user, hs.userLost, addr);
      }
    case RefreshOp =>
      RefreshKeepsInvIff(KERNEL_HEAP, KERNEL_STACK, hs.kernel, hs.kernelLost);
      RefreshKeepsInvIff(USERSPACE_HEAP, USERSPACE_STACK, hs.user, hs.userLost);
  }

  /** After every fair run, each byte of each heap has exactly one owner and the sizes add up. */
  lemma {:induction false} RunKeepsInv(ops: seq<Op>)
    requires Fair(ops)
    ensures BothInv(Run(ops))
  {
    hide Inv, Initial, Apply, SafeHeaps;
    if ops == [] {
      InitialInv(KERNEL_HEAP, KERNEL_STACK, SLOTS);
      InitialInv(USERSPACE_HEAP, USERSPACE_STACK, SLOTS);
    } else {
      var init := ops[..|ops| - 1];
      assert forall i :: 0 <= i < |init| ==> init[i] == ops[i] && init[..i] == ops[..i];
      RunKeepsInv(init);
      ApplyKeepsInv(Run(init), ops[|ops| - 1]);
    }
  }

  /** Without refresh calls every run is fair. */
  lemma MallocAndFreeAreFair(ops: seq<Op>)
    requires forall i :: 0 <= i < |ops| ==> !ops[i].RefreshOp?
    ensures Fair(ops) && BothInv(Run(ops))
  {
    hide Inv, Run;
    RunKeepsInv(ops);
  }

  /** After every run, freeing the address of a live kernel block clears the slot it is in, changes
      no other slot, and leaves the other heap alone. */
  lemma FreeReachesKernelBlock(ops: seq<Op>, slot: nat)
    requires Fair(ops)
    requires slot < |Run(ops).kernel.blocks| && Run(ops).kernel.blocks[slot].size > 0
    ensures
      var hs := Run(ops);
      var hs' := Apply(hs, FreeOp(hs.kernel.blocks[slot].addr));
      && hs'.kernel.blocks == hs.kernel.blocks[slot := Span(0, 0)]
      && hs'.user == hs.user && hs'.userLost == hs.userLost
  {
    var hs := Run(ops);
    RunKeepsInv(ops);
    FreePicksTheBlock(KERNEL_HEAP, KERNEL_STACK, hs.kernel, hs.kernelLost, slot);
  }

  lemma FreeReachesUserBlock(ops: seq<Op>, slot: nat)
    requires Fair(ops)
    requires slot < |Run(ops).user.blocks| && Run(ops).user.blocks[slot].size > 0
    ensures
      var hs := Run(ops);
      var hs' := Apply(hs, FreeOp(hs.user.blocks[slot].addr));
      && hs'.user.blocks == hs.user.blocks[slot := Span(0, 0)]
      && hs'.kernel == hs.kernel && hs'.kernelLost == hs.kernelLost
  {
    var hs := Run(ops);
    RunKeepsInv(ops);
    FreePicksTheBlock(USERSPACE_HEAP, USERSPACE_STACK, hs.user, hs.userLost, slot);
  }

  /** The first block of the kernel heap starts at the heap's base. init_paging has mapped the freemap
      and the frame bitmap to exactly these pages, so the block lies on them. */
  lemma FirstKernelBlock(size: nat)
    requires 0 < size <= KERNEL_STACK - KERNEL_HEAP
    ensures Malloc(Run([]).kernel, size).addr == 0x18_0000_0000
    ensures Apply(Run([]), MallocOp(size, 0)).kernel.blocks[0] == Span(0x18_0000_0000, size)
    ensures Apply(Run([]), MallocOp(size, 0)).user == Run([]).user
  {
    var h := Start().kernel;
    assert FirstFit(h.free, size, 0) == 0 && FirstEmpty(h.blocks, 0) == 0;
  }

  /** The first block of the userspace heap starts at 1 MB; a request for any other heap does nothing. */
  lemma FirstUserBlock(size: nat, heap: nat)
    requires 0 < size <= USERSPACE_STACK - USERSPACE_HEAP
    ensures Apply(Run([]), MallocOp(size, 1)).user.blocks[0] == Span(0x10_0000, size)
    ensures Apply(Run([]), MallocOp(size, 1)).kernel == Run([]).kernel
    ensures heap >= 2 ==> Apply(Run([]), MallocOp(size, heap)) == Run([])
  {
    var h := Start().user;
    assert FirstFit(h.free, size, 0) == 0 && FirstEmpty(h.blocks, 0) == 0;
  }

  lemma TwoKernelBlocks(a: nat, b: nat)
    requires 0 < a && 0 < b && a + b <= KERNEL_STACK - KERNEL_HEAP
    ensures Run([MallocOp(a, 0), MallocOp(b, 0)]).kernel.blocks ==
            seq(SLOTS, _ => Span(0, 0))[0 := Span(KERNEL_HEAP, a)][1 := Span(KERNEL_HEAP + a, b)]
  {
    hide Malloc, Initial;
    var ops := [MallocOp(a, 0), MallocOp(b, 0)];
    assert ops[..1] == [ops[0]] && ops[..1][..0] == [];
    assert Run(ops[..1]) == OnKernel(Start(), Malloc(Start().kernel, a));
    TwoBlocks(KERNEL_HEAP, KERNEL_STACK, SLOTS, a, b);
  }

  predicate Full(table: seq<Span>) {
    forall i :: 0 <= i < |table| ==> table[i].size > 0
  }

  /** A call that loses bytes of a heap is a malloc on that heap with a full block table or a free with
      a full free table. */
  lemma BytesLostOnlyWhenFull(ops: seq<Op>, op: Op)
    requires Fair(ops)
    ensures
      var hs := Run(ops);
      && (Apply(hs, op).kernelLost != hs.kernelLost ==>
            (op.MallocOp? && op.heap == 0 && Full(hs.kernel.blocks)) || (op.FreeOp? && Full(hs.kernel.free)))
      && (Apply(hs, op).userLost != hs.userLost ==>
            (op.MallocOp? && op.heap == 1 && Full(hs.user.blocks)) || (op.FreeOp? && Full(hs.user.free)))
  {
    var hs := Run(ops);
    RunKeepsInv(ops);
    hide Run, Inv, Malloc, Free;
    assert hs.kernelLost + [] == hs.kernelLost && hs.userLost + [] == hs.userLost;
    match op
    case MallocOp(size, heap) =>
      MallocKeepsInv(KERNEL_HEAP, KERNEL_STACK, hs.kernel, hs.kernelLost, size);
      MallocKeepsInv(USERSPACE_HEAP, USERSPACE_STACK, hs.user, hs.userLost, size);
    case FreeOp(addr) =>
      if Free(hs.kernel, addr).lost != [] {
        FreeLosesOnlyWhenFull(hs.kernel, addr);
      }
      if Free(hs.user, addr).lost != [] {
        FreeLosesOnlyWhenFull(hs.user, addr);
      }
    case RefreshOp =>
  }
}
