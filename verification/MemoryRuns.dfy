/** Whole runs of memory operations on any number of address spaces. */
module MemoryRuns {
  import opened Wrappers
  import opened PageTables
  import opened AddressSpaces
  import opened SpaceEdits
  import opened SpaceSteps
  import opened SpaceLifetime
  import opened KernelSpace

  datatype Op =
    | AllocPage
    | FreePage(frame: nat)
    | CreateSpace(id: nat)
    | MapUserPage(id: nat, virt: nat, phys: nat, flags: Flags)
    | UnmapUserPage(id: nat, virt: nat)
    | SyncKernel(id: nat)
    | Activate(id: nat)
    | ActivateKernel
    | DestroySpace(id: nat)
    | MapKernelPage(virt: nat, phys: nat, flags: Flags)
    | UnmapKernelPage(virt: nat)

  /** What a caller must respect: it frees and maps only frames it holds, creates into
      an unused structure, and maps no kernel page across a large page. */
  ghost predicate Enabled(m: Machine, op: Op) {
    match op
    case FreePage(f) => f in m.held
    case CreateSpace(id) => id !in m.spaces
    case MapUserPage(_, _, phys, _) => phys / PAGE in m.held
    case MapKernelPage(virt, _, _) => Clear(m.mem, m.kernel, PathOf(virt)[..3])
    case UnmapKernelPage(virt) => Clear(m.mem, m.kernel, PathOf(virt)[..3])
    case _ => true
  }

  ghost function Step(m: Machine, op: Op): Machine
    requires Enabled(m, op)
  {
    match op
    case AllocPage => if LowestFree(m.used) < |m.used| then Take(m, LowestFree(m.used)) else m
    case FreePage(f) => m.(used := FreeBit(m.used, f), held := m.held - {f})
    case CreateSpace(id) => Create(m, id).0
    case MapUserPage(id, virt, phys, flags) => MapUser(m, id, virt, phys, flags).0
    case UnmapUserPage(id, virt) => UnmapUser(m, id, virt).0
    case SyncKernel(id) => Sync(m, id).0
    case Activate(id) => if Sync(m, id).1 then Sync(m, id).0.(active := m.spaces[id].root) else m
    case ActivateKernel => m.(active := m.kernel)
    case DestroySpace(id) => Destroy(m, id).0
    case MapKernelPage(virt, phys, flags) => MapPage(m, virt, phys, flags).0
    case UnmapKernelPage(virt) => UnmapPage(m, virt).0
  }

  ghost predicate Runnable(m: Machine, ops: seq<Op>)
    decreases |ops|
  {
    ops == [] || (Enabled(m, ops[0]) && Runnable(Step(m, ops[0]), ops[1..]))
  }

  ghost function Run(m: Machine, ops: seq<Op>): Machine
    requires Runnable(m, ops)
    decreases |ops|
  {
    if ops == [] then m else Run(Step(m, ops[0]), ops[1..])
  }

  lemma StepInv(m: Machine, reserved: set<nat>, op: Op)
    requires Inv(m, reserved) && Enabled(m, op)
    ensures Inv(Step(m, op), reserved)
  {
    hide Distinct, NodesUsed, Conserved, UserRights;
    match op
    case AllocPage => if LowestFree(m.used) < |m.used| { TakeInv(m, reserved, LowestFree(m.used)); }
    case FreePage(f) => GiveBackInv(m, reserved, f);
    case CreateSpace(id) => CreateCorrect(m, reserved, id);
    case MapUserPage(id, virt, phys, flags) => MapUserCorrect(m, reserved, id, virt, phys, flags);
    case UnmapUserPage(id, virt) => UnmapUserCorrect(m, reserved, id, virt);
    case SyncKernel(id) => SyncCorrect(m, reserved, id);
    case Activate(id) =>
      SyncCorrect(m, reserved, id);
      if Sync(m, id).1 { ActiveInv(Sync(m, id).0, reserved, m.spaces[id].root); }
    case ActivateKernel => ActiveInv(m, reserved, m.kernel);
    case DestroySpace(id) => DestroyCorrect(m, reserved, id);
    case MapKernelPage(virt, phys, flags) => MapPageCorrect(m, reserved, virt, phys, flags);
    case UnmapKernelPage(virt) => UnmapPageCorrect(m, reserved, virt);
  }

  /** Over every run the books balance: see Conserved and Distinct. */
  lemma {:induction false} RunInv(m: Machine, reserved: set<nat>, ops: seq<Op>)
    requires Inv(m, reserved) && Runnable(m, ops)
    ensures Inv(Run(m, ops), reserved)
    decreases |ops|
  {
    hide Inv;
    if ops != [] {
      StepInv(m, reserved, ops[0]);
      RunInv(Step(m, ops[0]), reserved, ops[1..]);
    }
  }

  /** After any run, a frame of a live space is owned by that space alone, at one place
      in its tree, and by no caller. */
  lemma SpacesDisjoint(m: Machine, reserved: set<nat>, ops: seq<Op>, a: nat, b: nat, f: nat)
    requires Inv(m, reserved) && Runnable(m, ops)
    requires a in Run(m, ops).spaces && b in Run(m, ops).spaces
    requires f in Owned(Run(m, ops), a)
    ensures var e := Run(m, ops);
            && 0 < f < |e.used| && e.used[f] && f !in e.held && f !in reserved
            && (f in Owned(e, b) ==> a == b)
            && exists p :: Where(e, User(a), p) == Some(f) && forall q :: Where(e, User(a), q) == Some(f) ==> q == p
  {
    RunInv(m, reserved, ops);
    var e := Run(m, ops);
    OwnedIsNodes(e, a, f);
    OwnedIsNodes(e, b, f);
    var p :| Where(e, User(a), p) == Some(f);
    assert Owns(User(a), p);
    if f in Owned(e, b) {
      var q :| Where(e, User(b), q) == Some(f);
      assert Owns(User(b), q);
    }
  }

  /** Nothing leaks: once every space is destroyed and every caller has given its frames
      back, a page is still used only if it was reserved or is a kernel table. */
  lemma NothingLeaks(m: Machine, reserved: set<nat>, ops: seq<Op>, f: nat)
    requires Inv(m, reserved) && Runnable(m, ops) && f < |Run(m, ops).used|
    requires Run(m, ops).spaces == map[] && Run(m, ops).held == {}
    ensures Run(m, ops).used[f] <==>
            f in reserved || exists p :: |p| <= 3 && Where(Run(m, ops), Kernel, p) == Some(f)
  {
    RunInv(m, reserved, ops);
    var e := Run(m, ops);
    if IsNode(e, f) {
      var o, p :| Owns(o, p) && Where(e, o, p) == Some(f);
      assert o == Kernel;
    }
    if exists p :: |p| <= 3 && Where(e, Kernel, p) == Some(f) {
      var p :| |p| <= 3 && Where(e, Kernel, p) == Some(f);
      assert Owns(Kernel, p);
    }
  }

  /** Before the first address space: with kernel tables that are distinct used frames, the
      invariant holds, the reserved frames being the used ones that are no kernel table. */
  lemma BootInv(m: Machine)
    requires Shaped(m.mem) && 0 < |m.used| <= |m.mem| && m.spaces == map[] && m.held == {}
    requires Slots(m) && Distinct(m) && m.used[0]
    requires forall p | |p| <= 3 && Where(m, Kernel, p).Some? ::
               0 < Where(m, Kernel, p).value && InRange(m, Kernel, Where(m, Kernel, p).value)
    ensures Inv(m, set f: nat | f < |m.used| && m.used[f] && !IsNode(m, f))
  {
    forall o, p | Owns(o, p) && Where(m, o, p).Some? ensures o == Kernel && Where(m, o, p).value > 0 { }
  }
}
