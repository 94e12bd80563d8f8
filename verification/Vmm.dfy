/** The virtual memory manager as the kernel runs it: table entries written in place,
    one level after the other. Each method is proved to perform the corresponding
    step on the machine state. */
module Vmm {
  import opened Wrappers
  import opened PageTables
  import opened AddressSpaces
  import opened SpaceEdits
  import opened SpaceSteps
  import opened SpaceLifetime
  import opened KernelSpace
  import opened UserRange
  import opened Pmm

  /** The caller's structure; `base` is `slot << 39`. */
  class UserAddressSpace {
    var root: nat
    var base: nat
    var slot: nat
    var valid: bool

    constructor ()
      ensures !valid
    {
      root, base, slot, valid := 0, 0, 0, false;
    }

    method Reset()
      modifies this
      ensures root == 0 && base == 0 && slot == 0 && !valid
    {
      root, base, slot, valid := 0, 0, 0, false;
    }
  }

  type Registry = map<nat, UserAddressSpace>

  ghost function SpacesOf(all: Registry): map<nat, Space>
    reads all.Values
  {
    map id | id in all && all[id].valid :: Space(all[id].root, all[id].slot)
  }

  /** The spaces of all structures but one. */
  ghost function OthersOf(all: Registry, id: nat): map<nat, Space>
    reads set a | a in all && a != id :: all[a]
  {
    map a | a in all && a != id && all[a].valid :: Space(all[a].root, all[a].slot)
  }

  lemma SplitSpaces(all: Registry, id: nat)
    requires id in all
    ensures SpacesOf(all) - {id} == OthersOf(all, id)
    ensures SpacesOf(all) == if all[id].valid then OthersOf(all, id)[id := Space(all[id].root, all[id].slot)]
                             else OthersOf(all, id)
  {
  }

  lemma NoSpace(all: Registry, id: nat)
    requires id !in all
    ensures id !in SpacesOf(all)
  {
  }

  lemma PutBack(spaces: map<nat, Space>, id: nat, s: Space)
    ensures (spaces - {id})[id := s] == spaces[id := s]
  {
  }

  class Manager {
    const pmm: PageAllocator
    const pml4: nat
    var mem: Memory
    var cr3: nat

    constructor (pmm: PageAllocator, kernel: nat, memory: Memory)
      ensures this.pmm == pmm && pml4 == cr3 == kernel && mem == memory
    {
      this.pmm, pml4, cr3, mem := pmm, kernel, kernel, memory;
    }

    ghost predicate Valid()
      reads this, pmm, pmm.bitmap
    {
      pmm.Valid() && Shaped(mem) && pmm.totalPages <= |mem|
    }

    /** The machine state, given all address space structures and the frames callers hold. */
    ghost function View(all: Registry, held: set<nat>): Machine
      reads this, pmm, pmm.bitmap, all.Values
      requires pmm.Fits()
    {
      Machine(mem, pmm.Used(), pml4, cr3, SpacesOf(all), held)
    }

    /** Structures are separate objects and record base = slot << 39. */
    ghost predicate Registered(all: Registry)
      reads all.Values
    {
      && (forall a, b | a in all && b in all && a != b :: all[a] != all[b])
      && (forall a | a in all && all[a].valid :: all[a].base == all[a].slot * SLOT_SIZE)
    }

    /** A zeroed frame, or None. */
    method CreateTable() returns (table: Option<nat>)
      requires Valid()
      modifies this`mem, pmm`usedPages, pmm`freePages, pmm.bitmap
      ensures Valid()
      ensures var f := LowestFree(old(pmm.Used()));
              if f < pmm.totalPages
              then table == Some(f) && f > 0 && pmm.Used() == old(pmm.Used())[f := true] && mem == old(mem)[f := EmptyTable()]
              else table == None && pmm.Used() == old(pmm.Used()) && mem == old(mem)
    {
      var page := pmm.AllocPage();
      if page == 0 {
        return None;
      }
      var f := page / PAGE;
      var i := 0;
      while i < ENTRIES
        invariant i <= ENTRIES
        invariant |mem| == |old(mem)| && |mem[f]| == ENTRIES
        invariant forall j | 0 <= j < i :: mem[f][j] == EMPTY
        invariant forall g | 0 <= g < |mem| && g != f :: mem[g] == old(mem)[g]
        modifies this`mem
      {
        mem := mem[f := mem[f][i := EMPTY]];
        i := i + 1;
      }
      assert mem[f] == EmptyTable();
      assert mem == old(mem)[f := EmptyTable()];
      return Some(f);
    }

    /** One level of a creating walk. */
    method Enter(t: nat, i: nat, user: bool, fix: bool, ghost all: Registry, ghost held: set<nat>)
      returns (child: Option<nat>)
      requires Valid()
      modifies this`mem, pmm`usedPages, pmm`freePages, pmm.bitmap
      ensures Valid()
      ensures (View(all, held), child) == Descend(old(View(all, held)), t, i, user, fix)
    {
      var e := At(mem, t, i);
      if !e.present {
        var table := CreateTable();
        if table == None {
          return None;
        }
        mem := Put(mem, t, i, Entry(table.value, true, true, user, false, false));
        return table;
      }
      if fix && !e.user {
        mem := Put(mem, t, i, e.(user := true));
      }
      return Some(e.frame);
    }
  
    /** The structure at `id` of the registry, or null for no structure. */
    ghost predicate Names(all: Registry, id: nat, space: UserAddressSpace?) {
      if space == null then id !in all else id in all && all[id] == space
    }

    predicate Acceptable(space: UserAddressSpace?, virt: nat)
      reads space
    {
      space != null && space.valid && virt >= space.base && virt < USER_END &&
      virt / SLOT_SIZE % ENTRIES == space.slot
    }

    /** The last-level table for `virt`, if all levels are there. */
    method FindUserLeafTable(space: UserAddressSpace?, virt: nat,
                             ghost id: nat, ghost all: Registry, ghost held: set<nat>)
      returns (pt: Option<nat>)
      requires Valid() && Registered(all) && Names(all, id, space)
      ensures pt == UserTable(View(all, held), id, virt, false).1
    {
      if !Acceptable(space, virt) {
        return None;
      }
      var p := PathOf(virt);
      FindTable3(mem, space.root, p[0], p[1], p[2]);
      assert p[..3] == [p[0], p[1], p[2]];
      var e := At(mem, space.root, space.slot);
      if !e.present { return None; }
      var e1 := At(mem, e.frame, p[1]);
      if !e1.present || !e1.user { return None; }
      var e2 := At(mem, e1.frame, p[2]);
      if !e2.present || !e2.user { return None; }
      return Some(e2.frame);
    }

    /** The same, creating missing levels when asked to. */
    method GetUserLeafTable(space: UserAddressSpace?, virt: nat, create: bool,
                            ghost id: nat, ghost all: Registry, ghost held: set<nat>)
      returns (pt: Option<nat>)
      requires Valid() && Registered(all) && Names(all, id, space)
      modifies this`mem, pmm`usedPages, pmm`freePages, pmm.bitmap
      ensures Valid()
      ensures (View(all, held), pt) == UserTable(old(View(all, held)), id, virt, create)
      ensures !create ==> mem == old(mem) && pmm.Used() == old(pmm.Used())
    {
      if !Acceptable(space, virt) {
        return None;
      }
      var p := PathOf(virt);
      if !create {
        pt := FindUserLeafTable(space, virt, id, all, held);
        return;
      }
      ghost var start := View(all, held);
      Grow3(start, space.root, p[0], p[1], p[2], true, false);
      assert p[..3] == [p[0], p[1], p[2]];
      pt := Enter(space.root, space.slot, true, false, all, held);
      if pt == None { return; }
      pt := Enter(pt.value, p[1], true, true, all, held);
      if pt == None { return; }
      pt := Enter(pt.value, p[2], true, true, all, held);
    }

    method MapUserPage(space: UserAddressSpace?, virt: nat, phys: nat, flags: Flags,
                       ghost id: nat, ghost all: Registry, ghost held: set<nat>)
      returns (ok: bool)
      requires Valid() && Registered(all) && Names(all, id, space)
      modifies this`mem, pmm`usedPages, pmm`freePages, pmm.bitmap
      ensures Valid()
      ensures ok == MapUser(old(View(all, held)), id, virt, phys, flags).1
      ensures View(all, if ok then held - {phys / PAGE} else held) == MapUser(old(View(all, held)), id, virt, phys, flags).0
    {
      if virt % PAGE != 0 || phys % PAGE != 0 || phys >= PHYS_END || phys == 0 || !flags.user {
        return false;
      }
      var pt := GetUserLeafTable(space, virt, true, id, all, held);
      if pt == None {
        return false;
      }
      var i := PathOf(virt)[3];
      if At(mem, pt.value, i).present {
        return false;
      }
      mem := Put(mem, pt.value, i, Entry(phys / PAGE, true, flags.write, flags.user, false, flags.nx));
      return true;
    }

    /** The freed page must be one of the allocator's, as it is in every reachable state. */
    method UnmapUserPage(space: UserAddressSpace?, virt: nat,
                         ghost id: nat, ghost all: Registry, ghost held: set<nat>, ghost reserved: set<nat>)
      returns (ok: bool)
      requires Valid() && Registered(all) && Names(all, id, space)
      requires Inv(View(all, held), reserved)
      modifies this`mem, pmm`usedPages, pmm`freePages, pmm.bitmap
      ensures Valid()
      ensures (View(all, held), ok) == UnmapUser(old(View(all, held)), id, virt)
    {
      hide Inv, LowestFree, FindTable, FreeSet;
      if virt % PAGE != 0 {
        return false;
      }
      ghost var m := View(all, held);
      var pt := FindUserLeafTable(space, virt, id, all, held);
      if pt == None {
        return false;
      }
      var i := PathOf(virt)[3];
      var e := At(mem, pt.value, i);
      if !e.present {
        return false;
      }
      UnmapFrame(m, reserved, id, virt);
      mem := Put(mem, pt.value, i, EMPTY);
      pmm.FreePage(e.frame * PAGE);
      return true;
    }
  
    /** Rights of a user buffer, page by page until the last one. */
    method IsUserRange(space: UserAddressSpace?, virt: nat, length: nat, write: bool, execute: bool,
                       ghost id: nat, ghost all: Registry, ghost held: set<nat>)
      returns (ok: bool)
      requires Valid() && Registered(all) && Names(all, id, space)
      ensures ok == InUserRange(View(all, held), id, virt, length, write, execute)
    {
      if length == 0 || !Acceptable(space, virt) || length > USER_END - virt {
        return false;
      }
      hide PageAllowed, PathOf;
      ghost var m := View(all, held);
      var last := (virt + length - 1) / PAGE;
      var k := virt / PAGE;
      NotBefore(virt, virt + length - 1);
      while true
        invariant virt / PAGE <= k <= last
        invariant forall j | virt / PAGE <= j < k :: PageAllowed(m, id, j * PAGE, write, execute)
        decreases last - k
      {
        var allowed := PageOk(space, k * PAGE, write, execute, id, all, held);
        if !allowed {
          return false;
        }
        if k == last {
          return true;
        }
        k := k + 1;
      }
    }

    method PageOk(space: UserAddressSpace?, page: nat, write: bool, execute: bool,
                  ghost id: nat, ghost all: Registry, ghost held: set<nat>)
      returns (ok: bool)
      requires Valid() && Registered(all) && Names(all, id, space)
      ensures ok == PageAllowed(View(all, held), id, page, write, execute)
    {
      var pt := FindUserLeafTable(space, page, id, all, held);
      if pt == None {
        return false;
      }
      var e := At(mem, pt.value, PathOf(page)[3]);
      return e.present && e.user && (write ==> e.write) && (execute ==> !e.nx);
    }

    // ----- kernel mappings -----

    method GrowKernel(virt: nat, ghost all: Registry, ghost held: set<nat>) returns (pt: Option<nat>)
      requires Valid()
      modifies this`mem, pmm`usedPages, pmm`freePages, pmm.bitmap
      ensures Valid()
      ensures (View(all, held), pt) == Grow(old(View(all, held)), pml4, PathOf(virt)[..3], false, false)
    {
      var p := PathOf(virt);
      Grow3(View(all, held), pml4, p[0], p[1], p[2], false, false);
      assert p[..3] == [p[0], p[1], p[2]];
      pt := Enter(pml4, p[0], false, false, all, held);
      if pt == None { return; }
      pt := Enter(pt.value, p[1], false, false, all, held);
      if pt == None { return; }
      pt := Enter(pt.value, p[2], false, false, all, held);
    }

    method MapKernelPage(virt: nat, phys: nat, flags: Flags, ghost all: Registry, ghost held: set<nat>)
      returns (ok: bool)
      requires Valid()
      modifies this`mem, pmm`usedPages, pmm`freePages, pmm.bitmap
      ensures Valid()
      ensures (View(all, held), ok) == MapPage(old(View(all, held)), virt, phys, flags)
    {
      hide LowestFree, Grow, FreeSet;
      var pt := GrowKernel(virt, all, held);
      if pt == None { return false; }
      var i := PathOf(virt)[3];
      var e := Entry(phys / PAGE % FRAME_MASK, true, flags.write, flags.user, false, flags.nx);
      PutTwice(mem, pt.value, i, e);
      mem := Put(mem, pt.value, i, e);
      mem := Put(mem, pt.value, i, At(mem, pt.value, i).(nx := false));
      return true;
    }

    method UnmapKernelPage(virt: nat, ghost all: Registry, ghost held: set<nat>) returns (ok: bool)
      requires Valid()
      modifies this`mem
      ensures Valid()
      ensures (View(all, held), ok) == UnmapPage(old(View(all, held)), virt)
    {
      var p := PathOf(virt);
      WalkPresent3(mem, pml4, p[0], p[1], p[2]);
      assert p[..3] == [p[0], p[1], p[2]];
      var e := At(mem, pml4, p[0]);
      if !e.present { return false; }
      var e1 := At(mem, e.frame, p[1]);
      if !e1.present { return false; }
      var e2 := At(mem, e1.frame, p[2]);
      if !e2.present { return false; }
      if !At(mem, e2.frame, p[3]).present { return false; }
      mem := Put(mem, e2.frame, p[3], EMPTY);
      return true;
    }

    method TranslateKernel(virt: nat, ghost all: Registry, ghost held: set<nat>) returns (phys: nat)
      requires Valid()
      ensures phys == Translate(View(all, held), virt)
    {
      var p := PathOf(virt);
      var page := virt / PAGE;
      Resolve4(mem, pml4, p[0], p[1], p[2], p[3], page);
      assert p == [p[0], p[1], p[2], p[3]];
      var e := At(mem, pml4, p[0]);
      if !e.present { return 0; }
      var e1 := At(mem, e.frame, p[1]);
      if !e1.present { return 0; }
      if e1.large {
        return (e1.frame - e1.frame % PAGES_1G + page % PAGES_1G) * PAGE;
      }
      var e2 := At(mem, e1.frame, p[2]);
      if !e2.present { return 0; }
      if e2.large {
        return (e2.frame - e2.frame % PAGES_2M + page % PAGES_2M) * PAGE;
      }
      var e3 := At(mem, e2.frame, p[3]);
      if !e3.present { return 0; }
      return e3.frame * PAGE;
    }

    // ----- life of an address space -----

    method CreateUserAddressSpace(space: UserAddressSpace?, ghost id: nat, ghost all: Registry, ghost held: set<nat>)
      returns (ok: bool)
      requires Valid() && Registered(all) && Names(all, id, space)
      requires pml4 < |mem| && (pml4 < pmm.totalPages ==> pmm.Used()[pml4])
      modifies this`mem, pmm`usedPages, pmm`freePages, pmm.bitmap, space
      ensures Valid() && Registered(all)
      ensures (View(all, held), ok) == if space == null then (old(View(all, held)), false)
                                       else Create(old(View(all, held)), id)
    {
      if space == null {
        return false;
      }
      ok := CreateIn(space, id, all, held);
    }

    method CreateIn(space: UserAddressSpace, ghost id: nat, ghost all: Registry, ghost held: set<nat>)
      returns (ok: bool)
      requires Valid() && Registered(all) && Names(all, id, space)
      requires pml4 < |mem| && (pml4 < pmm.totalPages ==> pmm.Used()[pml4])
      modifies this`mem, pmm`usedPages, pmm`freePages, pmm.bitmap, space
      ensures Valid() && Registered(all)
      ensures (View(all, held), ok) == Create(old(View(all, held)), id)
    {
      hide FreeSlot, LowestFree, UserRoot, Shaped, FreeSet, SpacesOf, OthersOf, PageAllocator.TestBit, PageAllocator.Used;
      ghost var m := View(all, held);
      ghost var others := OthersOf(all, id);
      SplitSpaces(all, id);
      space.Reset();
      SplitSpaces(all, id);
      var root, slot := PickRoot();
      assert OthersOf(all, id) == others;
      if root == None {
        return false;
      }
      space.root, space.base, space.slot, space.valid := root.value, slot * SLOT_SIZE, slot, true;
      SplitSpaces(all, id);
      assert OthersOf(all, id) == others;
      PutBack(m.spaces, id, Space(root.value, slot));
      assert SpacesOf(all) == m.spaces[id := Space(root.value, slot)];
      return true;
    }

    /** A filled root and a free slot; the root is given back when no slot is free. */
    method PickRoot() returns (root: Option<nat>, slot: nat)
      requires Valid() && pml4 < |mem| && (pml4 < pmm.totalPages ==> pmm.Used()[pml4])
      modifies this`mem, pmm`usedPages, pmm`freePages, pmm.bitmap
      ensures Valid()
      ensures slot == FreeSlot(old(mem), pml4, 1)
      ensures var f := LowestFree(old(pmm.Used()));
              if f == pmm.totalPages then root == None && pmm.Used() == old(pmm.Used()) && mem == old(mem)
              else mem == old(mem)[f := UserRoot(old(mem), pml4)] &&
                   if slot == 256 then root == None && pmm.Used() == old(pmm.Used())
                   else root == Some(f) && pmm.Used() == old(pmm.Used())[f := true]
    {
      hide FreeSlot, LowestFree, UserRoot;
      root := NewRoot();
      slot := FindSlot();
      if root == None {
        return;
      }
      SlotKept(old(mem), root.value, UserRoot(old(mem), pml4), pml4, 1);
      if slot == 256 {
        pmm.FreePage(root.value * PAGE);
        assert pmm.Used() == old(pmm.Used());
        root := None;
      }
    }

    method NewRoot() returns (root: Option<nat>)
      requires Valid() && pml4 < |mem| && (pml4 < pmm.totalPages ==> pmm.Used()[pml4])
      modifies this`mem, pmm`usedPages, pmm`freePages, pmm.bitmap
      ensures Valid()
      ensures var f := LowestFree(old(pmm.Used()));
              if f < pmm.totalPages
              then root == Some(f) && f > 0 && f != pml4 && pmm.Used() == old(pmm.Used())[f := true] &&
                   mem == old(mem)[f := UserRoot(old(mem), pml4)]
              else root == None && pmm.Used() == old(pmm.Used()) && mem == old(mem)
    {
      hide LowestFree, UserRoot;
      var page := pmm.AllocPage();
      if page == 0 {
        return None;
      }
      FillRoot(page / PAGE);
      return Some(page / PAGE);
    }

    method FindSlot() returns (slot: nat)
      ensures slot == FreeSlot(mem, pml4, 1)
    {
      slot := 1;
      while slot < 256 && At(mem, pml4, slot).present
        invariant 1 <= slot <= 256
        invariant FreeSlot(mem, pml4, slot) == FreeSlot(mem, pml4, 1)
      {
        slot := slot + 1;
      }
    }

    method SyncKernelMappings(space: UserAddressSpace?, ghost id: nat, ghost all: Registry, ghost held: set<nat>)
      returns (ok: bool)
      requires Valid() && Registered(all) && Names(all, id, space) && pml4 < |mem|
      requires space != null && space.valid ==> space.root < |mem| && space.root != pml4
      modifies this`mem
      ensures Valid()
      ensures (View(all, held), ok) == Sync(old(View(all, held)), id)
    {
      if space == null || !space.valid || space.root == 0 {
        return false;
      }
      var root := space.root;
      ghost var m := View(all, held);
      var i := 256;
      while i < ENTRIES
        invariant 256 <= i <= ENTRIES
        invariant |mem| == |m.mem| && |mem[root]| == ENTRIES
        invariant forall j: nat | j < i :: mem[root][j] == SyncRoot(m, root)[j]
        invariant forall j: nat | i <= j < ENTRIES :: mem[root][j] == m.mem[root][j]
        invariant forall g | 0 <= g < |mem| && g != root :: mem[g] == m.mem[g]
      {
        mem := mem[root := mem[root][i := At(mem, pml4, i).(user := false)]];
        i := i + 1;
      }
      assert mem[root] == SyncRoot(m, root);
      assert mem == m.mem[root := SyncRoot(m, root)];
      return true;
    }

    method ActivateAddressSpace(space: UserAddressSpace?, ghost id: nat, ghost all: Registry, ghost held: set<nat>)
      returns (ok: bool)
      requires Valid() && Registered(all) && Names(all, id, space) && pml4 < |mem|
      requires space != null && space.valid ==> space.root < |mem| && space.root != pml4
      modifies this`mem, this`cr3
      ensures Valid()
      ensures ok == Sync(old(View(all, held)), id).1
      ensures View(all, held) == if ok then Sync(old(View(all, held)), id).0.(active := space.root) else old(View(all, held))
    {
      if space == null || !space.valid || space.root == 0 {
        return false;
      }
      ok := SyncKernelMappings(space, id, all, held);
      if ok { cr3 := space.root; }
    }

    /** Frees the pages of a last-level table. */
    method FreePages(pt: nat)
      requires Valid() && pt < |mem| && Tame(mem, pt, 1) && Freeable(Reach(mem, pt, 1), pmm.totalPages)
      modifies pmm`usedPages, pmm`freePages, pmm.bitmap
      ensures Valid() && pmm.Used() == Without(old(pmm.Used()), Behind(mem, pt, 1, ENTRIES))
    {
      hide Tame, Reach, ReachEntry, Behind, Without, LowestFree;
      var i := 0;
      WithoutNone(pmm.Used(), mem, pt, 1);
      while i < ENTRIES
        invariant i <= ENTRIES
        invariant Valid() && pmm.Used() == Without(old(pmm.Used()), Behind(mem, pt, 1, i))
      {
        var e := At(mem, pt, i);
        BehindStep(mem, pt, 1, i, pmm.totalPages);
        if e.present {
          ReachZero(mem, e.frame);
          WithoutFree(old(pmm.Used()), Behind(mem, pt, 1, i), e.frame);
          pmm.FreePage(e.frame * PAGE);
        }
        i := i + 1;
      }
    }

    /** Frees every last-level table of a directory, after its pages. */
    method FreeDirectory(pd: nat)
      requires Valid() && pd < |mem| && Tame(mem, pd, 2) && Freeable(Reach(mem, pd, 2), pmm.totalPages)
      modifies pmm`usedPages, pmm`freePages, pmm.bitmap
      ensures Valid() && pmm.Used() == Without(old(pmm.Used()), Behind(mem, pd, 2, ENTRIES))
    {
      hide Tame, Reach, ReachEntry, Behind, Without, LowestFree;
      var i := 0;
      WithoutNone(pmm.Used(), mem, pd, 2);
      while i < ENTRIES
        invariant i <= ENTRIES
        invariant Valid() && pmm.Used() == Without(old(pmm.Used()), Behind(mem, pd, 2, i))
      {
        var e := At(mem, pd, i);
        BehindStep(mem, pd, 2, i, pmm.totalPages);
        if e.present {
          ghost var done := Behind(mem, pd, 2, i);
          FreePages(e.frame);
          WithoutMore(old(pmm.Used()), done, mem, e.frame, 1);
          pmm.FreePage(e.frame * PAGE);
        }
        i := i + 1;
      }
    }

    /** Frees every directory of a directory pointer table, after what it holds. */
    method FreeDirectoryPointers(pdpt: nat)
      requires Valid() && pdpt < |mem| && Tame(mem, pdpt, 3) && Freeable(Reach(mem, pdpt, 3), pmm.totalPages)
      modifies pmm`usedPages, pmm`freePages, pmm.bitmap
      ensures Valid() && pmm.Used() == Without(old(pmm.Used()), Behind(mem, pdpt, 3, ENTRIES))
    {
      hide Tame, Reach, ReachEntry, Behind, Without, LowestFree;
      var i := 0;
      WithoutNone(pmm.Used(), mem, pdpt, 3);
      while i < ENTRIES
        invariant i <= ENTRIES
        invariant Valid() && pmm.Used() == Without(old(pmm.Used()), Behind(mem, pdpt, 3, i))
      {
        var e := At(mem, pdpt, i);
        BehindStep(mem, pdpt, 3, i, pmm.totalPages);
        if e.present {
          ghost var done := Behind(mem, pdpt, 3, i);
          FreeDirectory(e.frame);
          WithoutMore(old(pmm.Used()), done, mem, e.frame, 2);
          pmm.FreePage(e.frame * PAGE);
        }
        i := i + 1;
      }
    }

    method FreeSpace(root: nat, slot: nat, ghost m: Machine, ghost id: nat, ghost reserved: set<nat>)
      requires Valid() && Inv(m, reserved) && mem == m.mem && pmm.Used() == m.used
      requires id in m.spaces && m.spaces[id] == Space(root, slot)
      modifies pmm`usedPages, pmm`freePages, pmm.bitmap
      ensures Valid() && pmm.Used() == Without(m.used, Owned(m, id))
    {
      hide Inv, Tame, Reach, ReachEntry, Behind, LowestFree, FreeSet, Without;
      DestroyFrames(m, reserved, id);
      var e := At(mem, root, slot);
      WithoutEmpty(m.used);
      if e.present {
        FreeDirectoryPointers(e.frame);
        WithoutMore(m.used, {}, mem, e.frame, 3);
        pmm.FreePage(e.frame * PAGE);
        WithoutFree(m.used, {} + Reach(mem, e.frame, 3), root);
      } else {
        WithoutFree(m.used, {}, root);
      }
      pmm.FreePage(root * PAGE);
    }

    /** Gives back every page, every table and the root of a space that is not active. */
    method DestroyUserAddressSpace(space: UserAddressSpace?, ghost id: nat, ghost all: Registry, ghost held: set<nat>,
                                   ghost reserved: set<nat>)
      returns (ok: bool)
      requires Valid() && Registered(all) && Names(all, id, space)
      requires Inv(View(all, held), reserved)
      modifies pmm`usedPages, pmm`freePages, pmm.bitmap, space
      ensures Valid() && Registered(all)
      ensures (View(all, held), ok) == Destroy(old(View(all, held)), id)
    {
      hide Inv, FreeSet, SpacesOf, OthersOf, Without, Owned, PageAllocator.TestBit, PageAllocator.Used;
      ghost var m := View(all, held);
      if space == null {
        NoSpace(all, id);
        return false;
      }
      ghost var others := OthersOf(all, id);
      SplitSpaces(all, id);
      if !space.valid || space.root == 0 || cr3 == space.root {
        return false;
      }
      FreeSpace(space.root, space.slot, m, id, reserved);
      space.Reset();
      SplitSpaces(all, id);
      assert OthersOf(all, id) == others;
      return true;
    }

    /** Kernel half copied without USER bits, user half zero. */
    method FillRoot(root: nat)
      requires Shaped(mem) && root < |mem| && pml4 < |mem| && root != pml4
      modifies this`mem
      ensures mem == old(mem)[root := UserRoot(old(mem), pml4)]
    {
      var i := 0;
      while i < ENTRIES
        invariant i <= ENTRIES
        invariant |mem| == |old(mem)| && |mem[root]| == ENTRIES
        invariant forall j: nat | j < i :: mem[root][j] == UserRoot(old(mem), pml4)[j]
        invariant forall j: nat | i <= j < ENTRIES :: mem[root][j] == old(mem)[root][j]
        invariant forall g | 0 <= g < |mem| && g != root :: mem[g] == old(mem)[g]
      {
        mem := mem[root := mem[root][i := if i >= 256 then At(mem, pml4, i).(user := false) else EMPTY]];
        i := i + 1;
      }
      assert mem[root] == UserRoot(old(mem), pml4);
      assert mem == old(mem)[root := UserRoot(old(mem), pml4)];
    }
  }

  lemma UnmapFrame(m: Machine, reserved: set<nat>, id: nat, virt: nat)
    requires Inv(m, reserved) && UnmapUser(m, id, virt).1
    ensures var pt := UserTable(m, id, virt, false).1;
            pt.Some? && 0 < At(m.mem, pt.value, PathOf(virt)[3]).frame < |m.used|
  {
    hide Inv;
    UnmapUserCorrect(m, reserved, id, virt);
    UserPathInTree(m, id, virt);
    UserTableFinds(m, reserved, id, virt);
  }

  lemma Grow3(m: Machine, t: nat, a: nat, b: nat, c: nat, user: bool, fix: bool)
    ensures Grow(m, t, [a, b, c], user, fix) ==
            var (m1, t1) := Descend(m, t, a, user, fix);
            if t1.None? then (m1, None)
            else
              var (m2, t2) := Descend(m1, t1.value, b, user, user);
              if t2.None? then (m2, None)
              else Descend(m2, t2.value, c, user, user)
  {
    hide Descend;
    assert [a, b, c][1..] == [b, c] && [b, c][1..] == [c] && [c][1..] == [];
    var (m1, t1) := Descend(m, t, a, user, fix);
    if t1.Some? {
      var (m2, t2) := Descend(m1, t1.value, b, user, user);
      if t2.Some? {
        var (m3, t3) := Descend(m2, t2.value, c, user, user);
        if t3.Some? {
          assert Grow(m3, t3.value, [], user, user) == (m3, t3);
        }
        assert Grow(m2, t2.value, [c], user, user) == (m3, t3);
      }
      assert Grow(m1, t1.value, [b, c], user, user) ==
             if t2.None? then (m2, None) else Grow(m2, t2.value, [c], user, user);
    }
  }

  lemma FindTable3(mem: Memory, t: nat, a: nat, b: nat, c: nat)
    ensures FindTable(mem, t, [a, b, c], false) ==
            var e := At(mem, t, a);
            var e1 := At(mem, e.frame, b);
            var e2 := At(mem, e1.frame, c);
            if !e.present || !e1.present || !e1.user || !e2.present || !e2.user then None else Some(e2.frame)
  {
    assert [a, b, c][1..] == [b, c] && [b, c][1..] == [c] && [c][1..] == [];
    var e1 := At(mem, At(mem, t, a).frame, b);
    var e2 := At(mem, e1.frame, c);
    assert FindTable(mem, e2.frame, [], true) == Some(e2.frame);
    assert FindTable(mem, e1.frame, [c], true) == if !e2.present || !e2.user then None else Some(e2.frame);
  }

  lemma PutTwice(mem: Memory, t: nat, i: nat, e: Entry)
    ensures var once := Put(mem, t, i, e);
            Put(once, t, i, At(once, t, i).(nx := false)) == Put(mem, t, i, e.(nx := false))
  {
    if t < |mem| && i < |mem[t]| {
      var once := Put(mem, t, i, e);
      assert once[t][i := e.(nx := false)] == mem[t][i := e.(nx := false)];
    }
  }

  lemma {:induction false} SlotKept(mem: Memory, f: nat, table: Table, kernel: nat, i: nat)
    requires f < |mem| && f != kernel && i <= 256
    ensures FreeSlot(mem[f := table], kernel, i) == FreeSlot(mem, kernel, i)
    decreases 256 - i
  {
    assert At(mem[f := table], kernel, i) == At(mem, kernel, i);
    if i < 256 { SlotKept(mem, f, table, kernel, i + 1); }
  }

  lemma WalkPresent3(mem: Memory, t: nat, a: nat, b: nat, c: nat)
    ensures WalkPresent(mem, t, [a, b, c]) ==
            var e := At(mem, t, a);
            var e1 := At(mem, e.frame, b);
            var e2 := At(mem, e1.frame, c);
            if !e.present || !e1.present || !e2.present then None else Some(e2.frame)
  {
    assert [a, b, c][1..] == [b, c] && [b, c][1..] == [c] && [c][1..] == [];
    var e1 := At(mem, At(mem, t, a).frame, b);
    var e2 := At(mem, e1.frame, c);
    assert WalkPresent(mem, e2.frame, []) == Some(e2.frame);
    assert WalkPresent(mem, e1.frame, [c]) == if !e2.present then None else Some(e2.frame);
  }

  lemma Resolve4(mem: Memory, t: nat, a: nat, b: nat, c: nat, d: nat, page: nat)
    ensures Resolve(mem, t, [a, b, c, d], page) ==
            var e := At(mem, t, a);
            var e1 := At(mem, e.frame, b);
            var e2 := At(mem, e1.frame, c);
            var e3 := At(mem, e2.frame, d);
            if !e.present || !e1.present then None
            else if e1.large then Some(e1.frame - e1.frame % PAGES_1G + page % PAGES_1G)
            else if !e2.present then None
            else if e2.large then Some(e2.frame - e2.frame % PAGES_2M + page % PAGES_2M)
            else if !e3.present then None
            else Some(e3.frame)
  {
    assert [a, b, c, d][1..] == [b, c, d] && [b, c, d][1..] == [c, d] && [c, d][1..] == [d] && [d][1..] == [];
    var e1 := At(mem, At(mem, t, a).frame, b);
    var e2 := At(mem, e1.frame, c);
    var e3 := At(mem, e2.frame, d);
    assert Resolve(mem, e3.frame, [], page) == Some(e3.frame);
    assert Resolve(mem, e2.frame, [d], page) == if !e3.present then None else Some(e3.frame);
    assert Resolve(mem, e1.frame, [c, d], page) ==
           if !e2.present then None
           else if e2.large then Some(e2.frame - e2.frame % PAGES_2M + page % PAGES_2M)
           else Resolve(mem, e2.frame, [d], page);
  }

  lemma NotBefore(a: nat, b: nat)
    requires a <= b
    ensures a / PAGE <= b / PAGE
  {
  }

  // ----- what the destroying loops free -----

  /** Frames reachable through the first `n` entries of a table. */
  ghost function Behind(mem: Memory, t: nat, depth: nat, n: nat): set<nat>
    requires depth > 0
  {
    set i, f | 0 <= i < n && f in ReachEntry(mem, t, i, depth) :: f
  }

  ghost predicate Freeable(frames: set<nat>, total: nat) {
    forall f | f in frames :: 0 < f < total
  }

  /** No present entry down to `depth` levels is a large page. */
  ghost predicate Tame(mem: Memory, t: nat, depth: nat)
    decreases depth
  {
    depth == 0 ||
    forall i: nat | i < ENTRIES && At(mem, t, i).present ::
      !At(mem, t, i).large && Tame(mem, At(mem, t, i).frame, depth - 1)
  }

  /** One more entry: its child and everything behind it joins the set. */
  lemma BehindStep(mem: Memory, t: nat, depth: nat, i: nat, total: nat)
    requires depth > 0 && i < ENTRIES && Tame(mem, t, depth) && Freeable(Reach(mem, t, depth), total)
    ensures var e := At(mem, t, i);
            if e.present
            then && Tame(mem, e.frame, depth - 1) && Freeable(Reach(mem, e.frame, depth - 1), total)
                 && 0 < e.frame < total
                 && Behind(mem, t, depth, i + 1) == Behind(mem, t, depth, i) + Reach(mem, e.frame, depth - 1)
            else Behind(mem, t, depth, i + 1) == Behind(mem, t, depth, i)
  {
    assert Behind(mem, t, depth, i + 1) == Behind(mem, t, depth, i) + ReachEntry(mem, t, i, depth);
    var e := At(mem, t, i);
    if e.present {
      var below := Reach(mem, e.frame, depth - 1);
      forall f | f in below ensures 0 < f < total {
        assert f in ReachEntry(mem, t, i, depth);
        assert f in Reach(mem, t, depth);
      }
      assert e.frame in Reach(mem, e.frame, depth - 1);
    }
  }

  lemma ReachZero(mem: Memory, t: nat)
    ensures Reach(mem, t, 0) == {t}
  {
  }

  lemma WithoutNone(used: seq<bool>, mem: Memory, t: nat, depth: nat)
    requires depth > 0
    ensures Without(used, Behind(mem, t, depth, 0)) == used
  {
    assert Behind(mem, t, depth, 0) == {};
  }

  lemma WithoutFree(used: seq<bool>, frames: set<nat>, f: nat)
    requires 0 < f < |used|
    ensures FreeBit(Without(used, frames), f) == Without(used, frames + {f})
  {
  }

  /** Freeing what lies behind a table and then the table itself. */
  lemma WithoutMore(used: seq<bool>, done: set<nat>, mem: Memory, t: nat, depth: nat)
    requires depth > 0 && 0 < t < |used|
    ensures FreeBit(Without(Without(used, done), Behind(mem, t, depth, ENTRIES)), t) ==
            Without(used, done + Reach(mem, t, depth))
  {
    var b := Behind(mem, t, depth, ENTRIES);
    assert Reach(mem, t, depth) == {t} + b;
    assert Without(Without(used, done), b) == Without(used, done + b);
    WithoutFree(used, done + b, t);
    assert done + b + {t} == done + Reach(mem, t, depth);
  }

  /** Below the slot entry of a space no entry is large and every frame is the allocator's. */
  lemma {:induction false} UserTame(m: Machine, reserved: set<nat>, id: nat, p: Path, depth: nat)
    requires Inv(m, reserved) && |p| + depth == 4 && p != [] && Where(m, User(id), p).Some?
    ensures Tame(m.mem, Where(m, User(id), p).value, depth)
    decreases depth
  {
    hide Inv;
    var t := Where(m, User(id), p).value;
    if depth > 0 {
      forall i: nat | i < ENTRIES && At(m.mem, t, i).present
        ensures !At(m.mem, t, i).large && Tame(m.mem, At(m.mem, t, i).frame, depth - 1)
      {
        assert InTree(m, User(id), p + [i]);
        UserEntryAt(m, reserved, id, p, i);
        WhereSnoc(m, User(id), p, i);
        UserTame(m, reserved, id, p + [i], depth - 1);
      }
    }
  }

  lemma DestroyFrames(m: Machine, reserved: set<nat>, id: nat)
    requires Inv(m, reserved) && id in m.spaces
    ensures var s := m.spaces[id];
            var e := At(m.mem, s.root, s.slot);
            && 0 < s.root < |m.used|
            && (e.present ==> 0 < e.frame < |m.used| && Tame(m.mem, e.frame, 3) &&
                              Freeable(Reach(m.mem, e.frame, 3), |m.used|) &&
                              Owned(m, id) == {} + Reach(m.mem, e.frame, 3) + {s.root})
            && (!e.present ==> Owned(m, id) == {} + {s.root})
  {
    var s := m.spaces[id];
    var o := User(id);
    var e := At(m.mem, s.root, s.slot);
    assert Where(m, o, []) == Some(s.root);
    NodeInRange(m, reserved, o, []);
    OwnedUsed(m, id);
    assert [] + [s.slot] == [s.slot] && InTree(m, o, [s.slot]);
    UserEntryAt(m, reserved, id, [], s.slot);
    WhereSnoc(m, o, [], s.slot);
    if e.present {
      NodeInRange(m, reserved, o, [s.slot]);
      UserTame(m, reserved, id, [s.slot], 3);
      assert Owned(m, id) == {s.root} + Reach(m.mem, e.frame, 3);
      forall f | f in Reach(m.mem, e.frame, 3) ensures 0 < f < |m.used| { assert f in Owned(m, id); }
    }
  }
}
