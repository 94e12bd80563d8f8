/** Runs that mix the kernel heap with every other memory operation. */
module HeapRuns {
  import opened Wrappers
  import opened PageTables
  import opened AddressSpaces
  import opened SpaceEdits
  import opened SpaceSteps
  import opened SpaceLifetime
  import opened KernelSpace
  import opened MemoryRuns
  import opened Heap

  /** The frame a caller gives away with an operation. */
  function Given(op: Op): set<nat> {
    match op
    case FreePage(f) => {f}
    case MapUserPage(_, _, phys, _) => {phys / PAGE}
    case _ => {}
  }

  /** The operation does not name the kernel page at this path. */
  predicate SparesPath(op: Op, q: Path) {
    match op
    case MapKernelPage(virt, _, _) => q != PathOf(virt)
    case UnmapKernelPage(virt) => q != PathOf(virt)
    case _ => true
  }

  /** What every operation leaves alone: kernel tables stay, kernel pages it does not name stay, frames it is not
      given stay with their holders. */
  lemma StepKernel(m: Machine, reserved: set<nat>, op: Op)
    requires Inv(m, reserved) && Enabled(m, op)
    ensures var m' := Step(m, op);
            && Inv(m', reserved) && KernelKept(m, m') && m.held - Given(op) <= m'.held
            && forall q | |q| == 4 && SparesPath(op, q) :: EntryAt(m', Kernel, q) == EntryAt(m, Kernel, q)
  {
    hide Inv, EntryAt, PathOf, MapUser, UnmapUser, Create, MapPage, UnmapPage, Clear;
    StepInv(m, reserved, op);
    var m' := Step(m, op);
    match op
    case AllocPage => if LowestFree(m.used) < |m.used| { TakeInv(m, reserved, LowestFree(m.used)); }
    case FreePage(f) =>
      HeldRange(m, reserved, f);
      GiveBackInv(m, reserved, f);
      assert m' == GiveBack(m, f);
    case CreateSpace(id) => CreateCorrect(m, reserved, id);
    case MapUserPage(id, virt, phys, flags) => MapUserCorrect(m, reserved, id, virt, phys, flags);
    case UnmapUserPage(id, virt) => UnmapUserCorrect(m, reserved, id, virt);
    case SyncKernel(id) => SyncCorrect(m, reserved, id);
    case Activate(id) =>
      SyncCorrect(m, reserved, id);
      SameKernel(Sync(m, id).0, m');
    case ActivateKernel => SameKernel(m, m');
    case DestroySpace(id) =>
      DestroyCorrect(m, reserved, id);
      DestroySize(m, id);
    case MapKernelPage(virt, phys, flags) =>
      MapPageCorrect(m, reserved, virt, phys, flags);
      SizeKept(m, virt, phys, flags);
    case UnmapKernelPage(virt) => UnmapPageCorrect(m, reserved, virt);
  }

  lemma SameKernel(m: Machine, m': Machine)
    requires m' == m.(active := m'.active)
    ensures forall q | q != [] :: EntryAt(m', Kernel, q) == EntryAt(m, Kernel, q)
  {
  }

  lemma DestroySize(m: Machine, id: nat)
    ensures |Destroy(m, id).0.used| == |m.used|
  {
  }

  datatype Action = OnMemory(op: Op) | OnHeap(request: HeapOp)

  /** Callers keep off the heap: they give away none of its frames and name none of its pages. */
  ghost predicate Permitted(h: State, a: Action) {
    match a
    case OnMemory(op) =>
      && Enabled(h.m, op) && Given(op) !! Frames(h.m, h.mapped)
      && forall v | v in h.mapped :: SparesPath(op, PathOf(v * PAGE))
    case OnHeap(request) => Allowed(h, request)
  }

  ghost function Act(h: State, a: Action): State
    requires Permitted(h, a)
  {
    match a
    case OnMemory(op) => h.(m := Step(h.m, op))
    case OnHeap(request) => Apply(h, request)
  }

  /** No operation of a caller that keeps off the heap moves a heap page. */
  lemma StepKeepsHeap(h: State, reserved: set<nat>, op: Op)
    requires HeapInv(h, reserved) && Permitted(h, OnMemory(op))
    ensures HeapInv(h.(m := Step(h.m, op)), reserved)
    ensures forall v | v in h.mapped :: FrameOf(Step(h.m, op), v) == FrameOf(h.m, v)
  {
    hide Inv, EntryAt, PathOf, Enabled, Step, InHeap, HeapClear, Given, SparesPath;
    var m, m' := h.m, Step(h.m, op);
    StepKernel(m, reserved, op);
    ClearStays(m, m');
    forall v | v in h.mapped
      ensures EntryAt(m', Kernel, PathOf(v * PAGE)) == EntryAt(m, Kernel, PathOf(v * PAGE)) && FrameOf(m, v).value in m'.held
    {
      assert FrameOf(m, v).value in Frames(m, h.mapped);
    }
    BackedStays(m, m', h.mapped);
    var h' := h.(m := m');
    forall b, v: nat | b in h'.blocks && InBlock(h', b, v) ensures v in h'.mapped { assert InBlock(h, b, v); }
  }

  ghost predicate AllPermitted(h: State, actions: seq<Action>)
    decreases |actions|
  {
    actions == [] || (Permitted(h, actions[0]) && AllPermitted(Act(h, actions[0]), actions[1..]))
  }

  ghost function ActAll(h: State, actions: seq<Action>): State
    requires AllPermitted(h, actions)
    decreases |actions|
  {
    if actions == [] then h else ActAll(Act(h, actions[0]), actions[1..])
  }

  /** Over every interleaving of heap requests with operations on pages, kernel mappings and address spaces, the
      invariants of both hold. */
  lemma {:induction false} MixedRunInv(h: State, reserved: set<nat>, actions: seq<Action>)
    requires HeapInv(h, reserved) && AllPermitted(h, actions)
    ensures HeapInv(ActAll(h, actions), reserved)
    decreases |actions|
  {
    hide HeapInv, Permitted, Act;
    if actions != [] {
      ActInv(h, reserved, actions[0]);
      MixedRunInv(Act(h, actions[0]), reserved, actions[1..]);
    }
  }

  lemma ActInv(h: State, reserved: set<nat>, a: Action)
    requires HeapInv(h, reserved) && Permitted(h, a)
    ensures HeapInv(Act(h, a), reserved)
  {
    hide HeapInv, Kmalloc, Kfree, Step, Given, SparesPath, Frames;
    match a {
      case OnMemory(op) => StepKeepsHeap(h, reserved, op);
      case OnHeap(request) => ApplyInv(h, reserved, request);
    }
  }

  /** After any such run, a frame behind a heap page belongs to no address space and to no other heap page, and is
      not free. */
  lemma HeapApart(h: State, reserved: set<nat>, actions: seq<Action>, v: nat)
    requires HeapInv(h, reserved) && AllPermitted(h, actions) && v in ActAll(h, actions).mapped
    ensures var e := ActAll(h, actions);
            && FrameOf(e.m, v).Some? && FrameOf(e.m, v).value < |e.m.used| && e.m.used[FrameOf(e.m, v).value]
            && (forall w | w in e.mapped && w != v :: FrameOf(e.m, w) != FrameOf(e.m, v))
            && (forall o, p | Owns(o, p) :: Where(e.m, o, p) != FrameOf(e.m, v))
  {
    hide FrameOf, Where, ActAll, AllPermitted, HeapClear, SmallLeaves;
    MixedRunInv(h, reserved, actions);
  }

  /** The empty heap over a machine whose heap range no large page blocks. */
  lemma EmptyHeap(m: Machine, reserved: set<nat>)
    requires Inv(m, reserved) && |m.used| <= FRAME_MASK && HeapClear(m)
    ensures HeapInv(State(m, HEAP_START, map[], {}), reserved)
  {
    hide Inv, HeapClear;
  }
}
