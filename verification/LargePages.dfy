/** map_page and unmap_page on a way that a large page blocks: their walk takes the data page for a table, so they
    write into data and leave every translation as it was. */
module LargePages {
  import opened Wrappers
  import opened PageTables
  import opened AddressSpaces
  import opened SpaceEdits
  import opened OutsideEdits
  import opened SpaceSteps
  import opened KernelSpace
  import opened MemoryRuns

  /** Behind a large entry (`passed`), nothing the walk takes for a table is a table of any tree. */
  ghost predicate Aside(m: Machine, t: nat, path: Path, passed: bool)
    decreases |path|
  {
    path == [] ||
    (var e := At(m.mem, t, path[0]);
     e.present ==> ((passed || e.large) ==> !IsNode(m, e.frame)) && Aside(m, e.frame, path[1..], passed || e.large))
  }

  lemma {:induction false} ClearIsAside(m: Machine, t: nat, path: Path)
    requires Clear(m.mem, t, path)
    ensures Aside(m, t, path, false)
    decreases |path|
  {
    if path != [] && At(m.mem, t, path[0]).present {
      ClearIsAside(m, At(m.mem, t, path[0]).frame, path[1..]);
    }
  }

  // ----- the walk through data -----

  lemma SameTablesTranslates(m: Machine, m': Machine, v: nat)
    requires Slots(m) && m'.kernel == m.kernel && SameNodes(m, m') && SameEntries(m, m')
    ensures SameTranslation(m, m', v)
  {
    var p := PathOf(v);
    assert p[..0] == [] && p[0..] == p;
    assert Where(m, Kernel, []) == Some(m.kernel);
    ResolveSame(m, m', p, 0, v / PAGE);
  }

  lemma DescendAside(m: Machine, reserved: set<nat>, t: nat, i: nat)
    requires Inv(m, reserved) && !IsNode(m, t)
    requires At(m.mem, t, i).present ==> !IsNode(m, At(m.mem, t, i).frame)
    ensures var (m', c) := Descend(m, t, i, false, false);
            && SameTables(m, m')
            && (c.Some? ==> !IsNode(m, c.value))
            && (c.None? ==> m' == m && Exhausted(m.used))
  {
    hide IsNode, Distinct, NodesUsed, Conserved, UserRights;
    var f := LowestFree(m.used);
    if !At(m.mem, t, i).present && f < |m.used| {
      FreeAside(m, reserved, f);
    }
  }

  // ----- the way to the first large entry -----

  /** The walk meets its first large entry behind the table at p[..j]; what follows starts from its frame. */
  lemma {:induction false} FirstLarge(m: Machine, p: Path, k: nat, page: nat) returns (j: nat)
    requires |p| == 4 && Indices(p) && k <= 3 && Slots(m) && Where(m, Kernel, p[..k]).Some?
    requires !Clear(m.mem, Where(m, Kernel, p[..k]).value, p[k..3])
    ensures k <= j < 3 && j >= 1 && Where(m, Kernel, p[..j]).Some?
    ensures var t := Where(m, Kernel, p[..k]).value;
            var e := At(m.mem, Where(m, Kernel, p[..j]).value, p[j]);
            && e.present && e.large
            && Grow(m, t, p[k..3], false, false) == Grow(m, e.frame, p[j + 1..3], false, false)
            && WalkPresent(m.mem, t, p[k..3]) == WalkPresent(m.mem, e.frame, p[j + 1..3])
            && (Aside(m, t, p[k..3], false) ==> !IsNode(m, e.frame) && Aside(m, e.frame, p[j + 1..3], true))
            && Resolve(m.mem, t, p[k..], page).Some?
    decreases 3 - k
  {
    hide IsNode, PathOf;
    var t := Where(m, Kernel, p[..k]).value;
    var path := p[k..3];
    assert k < 3 && path[0] == p[k] && path[1..] == p[k + 1..3];
    assert p[k..][0] == p[k] && p[k..][1..] == p[k + 1..];
    ReadIsEntry(m, p, k);
    var e := At(m.mem, t, p[k]);
    assert p[..0] == [];
    if e.large {
      j := k;
    } else {
      j := FirstLarge(m, p, k + 1, page);
    }
  }

  /** The rest of the walk, through data. */
  lemma GrowAside(m: Machine, reserved: set<nat>, t: nat, path: Path)
    requires Inv(m, reserved) && |path| <= 1 && !IsNode(m, t) && Aside(m, t, path, true)
    ensures var (m', c) := Grow(m, t, path, false, false);
            && SameTables(m, m')
            && (c.Some? ==> !IsNode(m, c.value))
            && (c.None? ==> m' == m && Exhausted(m.used))
  {
    hide IsNode, Distinct, NodesUsed, Conserved, UserRights;
    if path != [] {
      DescendAside(m, reserved, t, path[0]);
      var (m1, c) := Descend(m, t, path[0], false, false);
      assert path[1..] == [];
      if c.Some? { assert Grow(m1, c.value, [], false, false) == (m1, c); }
    }
  }

  lemma WalkAside(m: Machine, t: nat, path: Path)
    requires |path| <= 1 && !IsNode(m, t) && Aside(m, t, path, true)
    ensures WalkPresent(m.mem, t, path).Some? ==> !IsNode(m, WalkPresent(m.mem, t, path).value)
  {
    hide IsNode;
    if path != [] {
      assert path[1..] == [];
      var e := At(m.mem, t, path[0]);
      assert WalkPresent(m.mem, e.frame, []) == Some(e.frame);
    }
  }

  // ----- the exact theorems -----

  /** map_page on a blocked way: whether or not it reports success, every page translates as before; frames it takes
      belong to no tree. */
  lemma MapPageBlocked(m: Machine, reserved: set<nat>, virt: nat, phys: nat, flags: Flags)
    requires Inv(m, reserved) && Aside(m, m.kernel, PathOf(virt)[..3], false) && !Clear(m.mem, m.kernel, PathOf(virt)[..3])
    ensures var (m', ok) := MapPage(m, virt, phys, flags);
            && SameTables(m, m') && Inv(m', reserved + Taken(m, m'))
            && SameNodes(m, m') && SameEntries(m, m')
            && (forall v: nat :: SameTranslation(m, m', v))
            && Resolve(m.mem, m.kernel, PathOf(virt), virt / PAGE).Some?
            && (!ok ==> m' == m && Exhausted(m.used))
  {
    hide IsNode, PathOf, Inv, Aside, Resolve, Exhausted;
    var p := PathOf(virt);
    assert p[..0] == [] && p[0..3] == p[..3] && p[0..] == p;
    assert Where(m, Kernel, []) == Some(m.kernel);
    InvSlots(m, reserved);
    var j := FirstLarge(m, p, 0, virt / PAGE);
    var e := At(m.mem, Where(m, Kernel, p[..j]).value, p[j]);
    GrowAside(m, reserved, e.frame, p[j + 1..3]);
    var (m1, c) := Grow(m, m.kernel, p[..3], false, false);
    var (m', ok) := MapPage(m, virt, phys, flags);
    if c.Some? {
      SameTablesThen(m, m1, c.value, p[3], KernelLeaf(phys, flags));
    }
    SameTablesInv(m, m', reserved);
    forall v: nat ensures SameTranslation(m, m', v) { SameTablesTranslates(m, m', v); }
  }

  lemma InvSlots(m: Machine, reserved: set<nat>)
    requires Inv(m, reserved)
    ensures Slots(m) && Shaped(m.mem)
  {
  }

  /** After a success the page translates to the new frame if and only if no large page blocked the way or it had
      that frame before. */
  lemma MapPageExact(m: Machine, reserved: set<nat>, virt: nat, phys: nat, flags: Flags)
    requires Inv(m, reserved) && Aside(m, m.kernel, PathOf(virt)[..3], false)
    ensures var (m', ok) := MapPage(m, virt, phys, flags);
            var wanted := Some(phys / PAGE % FRAME_MASK);
            var way := Clear(m.mem, m.kernel, PathOf(virt)[..3]);
            && (ok ==> (Resolve(m'.mem, m.kernel, PathOf(virt), virt / PAGE) == wanted <==>
                          way || Resolve(m.mem, m.kernel, PathOf(virt), virt / PAGE) == wanted))
            && (forall v: nat | PathOf(v) != PathOf(virt) || !way || !ok :: SameTranslation(m, m', v))
            && (!ok ==> Exhausted(m'.used))
            && (if way then Inv(m', reserved) else Inv(m', reserved + Taken(m, m')))
  {
    hide Inv, Resolve, Exhausted, PathOf, Aside, Clear, MapPage, EntryAt;
    if Clear(m.mem, m.kernel, PathOf(virt)[..3]) {
      MapPageCorrect(m, reserved, virt, phys, flags);
    } else {
      MapPageBlocked(m, reserved, virt, phys, flags);
      assert SameTranslation(m, MapPage(m, virt, phys, flags).0, virt);
    }
  }

  lemma UnmapPageBlocked(m: Machine, reserved: set<nat>, virt: nat)
    requires Inv(m, reserved) && Aside(m, m.kernel, PathOf(virt)[..3], false) && !Clear(m.mem, m.kernel, PathOf(virt)[..3])
    ensures var (m', ok) := UnmapPage(m, virt);
            && SameTables(m, m') && m' == m.(mem := m'.mem) && Inv(m', reserved)
            && (forall v: nat :: SameTranslation(m, m', v))
            && Resolve(m.mem, m.kernel, PathOf(virt), virt / PAGE).Some?
  {
    hide IsNode, PathOf, Inv, Aside, Resolve;
    var p := PathOf(virt);
    assert p[..0] == [] && p[0..3] == p[..3] && p[0..] == p;
    assert Where(m, Kernel, []) == Some(m.kernel);
    InvSlots(m, reserved);
    var j := FirstLarge(m, p, 0, virt / PAGE);
    var e := At(m.mem, Where(m, Kernel, p[..j]).value, p[j]);
    WalkAside(m, e.frame, p[j + 1..3]);
    var c := WalkPresent(m.mem, m.kernel, p[..3]);
    if c.Some? { PutAside(m, c.value, p[3], EMPTY); }
    var m' := UnmapPage(m, virt).0;
    SameTablesInv(m, m', reserved);
    assert reserved + Taken(m, m') == reserved;
    forall v: nat ensures SameTranslation(m, m', v) { SameTablesTranslates(m, m', v); }
  }

  /** On a clear way a page without a last-level entry has no translation. */
  lemma {:induction false} ClearUnmapped(m: Machine, p: Path, k: nat, page: nat)
    requires |p| == 4 && Indices(p) && k <= 3 && Where(m, Kernel, p[..k]).Some? && EntryAt(m, Kernel, p) == None
    requires Clear(m.mem, Where(m, Kernel, p[..k]).value, p[k..3])
    ensures Resolve(m.mem, Where(m, Kernel, p[..k]).value, p[k..], page) == None
    decreases 3 - k
  {
    ReadIsEntry(m, p, k);
    assert p[k..][0] == p[k] && p[k..][1..] == p[k + 1..];
    if k == 3 {
      assert p[..4] == p;
    } else {
      assert p[k..3][0] == p[k] && p[k..3][1..] == p[k + 1..3];
      if At(m.mem, Where(m, Kernel, p[..k]).value, p[k]).present { ClearUnmapped(m, p, k + 1, page); }
    }
  }

  /** Afterwards the page has no translation if and only if no large page blocked the way. */
  lemma UnmapPageExact(m: Machine, reserved: set<nat>, virt: nat)
    requires Inv(m, reserved) && Aside(m, m.kernel, PathOf(virt)[..3], false)
    ensures var (m', ok) := UnmapPage(m, virt);
            var way := Clear(m.mem, m.kernel, PathOf(virt)[..3]);
            && (Resolve(m'.mem, m.kernel, PathOf(virt), virt / PAGE) == None <==> way)
            && (forall v: nat | PathOf(v) != PathOf(virt) || !way :: SameTranslation(m, m', v))
            && Inv(m', reserved)
  {
    hide Inv, Resolve, PathOf, Aside, Clear, UnmapPage, EntryAt;
    if Clear(m.mem, m.kernel, PathOf(virt)[..3]) {
      UnmapPageCorrect(m, reserved, virt);
      var p := PathOf(virt);
      assert p[..0] == [] && p[0..3] == p[..3] && p[0..] == p;
      assert Where(m, Kernel, []) == Some(m.kernel);
      if !UnmapPage(m, virt).1 { ClearUnmapped(m, p, 0, virt / PAGE); }
    } else {
      UnmapPageBlocked(m, reserved, virt);
      assert SameTranslation(m, UnmapPage(m, virt).0, virt);
    }
  }

  // ----- one machine -----

  const ROOT := 256                                 // the root's index of the addresses below
  const SMALL: nat := 0x8000_0000_0000              // 2 MiB page at PD entry 0
  const HUGE: nat := 0x8000_4000_0000               // 1 GiB page at PDPT entry 1

  function Link(f: nat): Entry {
    Entry(f, true, true, false, false, false)
  }

  /** Frame 1 is the root, 2 the PDPT, 3 the PD, 4 a data page of zeros, 5 free. */
  const BLOCKED := Machine(
    [EmptyTable(), EmptyTable()[ROOT := Link(2)],
     EmptyTable()[0 := Link(3)][1 := Link(4).(large := true)],
     EmptyTable()[0 := Link(4).(large := true)], EmptyTable(), EmptyTable()],
    [true, true, true, true, true, false], 1, 1, map[], {})

  lemma BlockedNodes(p: Path)
    requires Where(BLOCKED, Kernel, p).Some?
    ensures (p == [] && Where(BLOCKED, Kernel, p).value == 1) || (p == [ROOT] && Where(BLOCKED, Kernel, p).value == 2) ||
            (p == [ROOT, 0] && Where(BLOCKED, Kernel, p).value == 3)
    decreases |p|
  {
    if p != [] {
      WhereParent(BLOCKED, Kernel, p);
      BlockedNodes(p[..|p| - 1]);
      assert p == p[..|p| - 1] + [p[|p| - 1]];
    }
  }

  /** Its nodes are exactly the three tables. */
  lemma BlockedTables(f: nat)
    ensures IsNode(BLOCKED, f) <==> 1 <= f <= 3
    ensures Distinct(BLOCKED)
  {
    var m := BLOCKED;
    assert Where(m, Kernel, []) == Some(1);
    WhereSnoc(m, Kernel, [], ROOT);
    WhereSnoc(m, Kernel, [ROOT], 0);
    assert [] + [ROOT] == [ROOT] && [ROOT] + [0] == [ROOT, 0];
    assert Where(m, Kernel, [ROOT]) == Some(2) && Where(m, Kernel, [ROOT, 0]) == Some(3);
    assert Owns(Kernel, []) && Owns(Kernel, [ROOT]) && Owns(Kernel, [ROOT, 0]);
    forall o, p | Owns(o, p) && Where(m, o, p).Some?
      ensures o == Kernel && Where(m, o, p).value == |p| + 1 <= 3 && p == [ROOT, 0][..|p|]
    {
      assert InTree(m, o, p) && o == Kernel;
      BlockedNodes(p);
      assert [ROOT, 0][..0] == [] && [ROOT, 0][..1] == [ROOT] && [ROOT, 0][..2] == [ROOT, 0];
    }
  }

  lemma BlockedShape()
    ensures var m := BLOCKED;
            Shaped(m.mem) && |m.used| == 6 && |m.mem| == 6 && m.kernel == 1 && Slots(m) && m.spaces == map[] && m.held == {}
    ensures var m := BLOCKED; m.used == [true, true, true, true, true, false]
  {
  }

  lemma BlockedReserved(m: Machine)
    requires m.used == [true, true, true, true, true, false] && forall f: nat :: IsNode(m, f) <==> 1 <= f <= 3
    ensures (set f: nat | f < |m.used| && m.used[f] && !IsNode(m, f)) == {0, 4}
  {
    hide IsNode;
  }

  lemma BlockedRange(m: Machine, p: Path)
    requires m.used == [true, true, true, true, true, false] && |m.mem| == 6
    requires Owns(Kernel, p) && Where(m, Kernel, p).Some? && forall f: nat :: IsNode(m, f) <==> 1 <= f <= 3
    ensures 0 < Where(m, Kernel, p).value && InRange(m, Kernel, Where(m, Kernel, p).value)
  {
    assert IsNode(m, Where(m, Kernel, p).value);
  }

  lemma BlockedInv()
    ensures Inv(BLOCKED, {0, 4}) && !IsNode(BLOCKED, 4)
  {
    hide IsNode, Distinct, Where, Inv, Slots, Shaped, InRange;
    var m := BLOCKED;
    BlockedShape();
    forall f: nat ensures IsNode(m, f) <==> 1 <= f <= 3 { BlockedTables(f); }
    BlockedTables(0);
    forall p | |p| <= 3 && Where(m, Kernel, p).Some?
      ensures 0 < Where(m, Kernel, p).value && InRange(m, Kernel, Where(m, Kernel, p).value)
    {
      BlockedRange(m, p);
    }
    BootInv(m);
    BlockedReserved(m);
  }

  lemma BlockedPaths()
    ensures PathOf(SMALL) == [ROOT, 0, 0, 0] && PathOf(HUGE) == [ROOT, 1, 0, 0]
    ensures SMALL / PAGE % PAGES_2M == 0 && HUGE / PAGE % PAGES_1G == 0
  {
  }

  /** A 2 MiB page at work: map_page reports success for frame 9, writes into the data page, and the address still
      translates to frame 0. */
  lemma BlockedBySmall(flags: Flags)
    ensures Aside(BLOCKED, 1, PathOf(SMALL)[..3], false) && !Clear(BLOCKED.mem, 1, PathOf(SMALL)[..3])
    ensures var (m', ok) := MapPage(BLOCKED, SMALL, 9 * PAGE, flags);
            && ok && m'.mem == Put(BLOCKED.mem, 4, 0, KernelLeaf(9 * PAGE, flags))
            && Resolve(BLOCKED.mem, 1, PathOf(SMALL), SMALL / PAGE) == Some(0)
            && Resolve(m'.mem, 1, PathOf(SMALL), SMALL / PAGE) == Some(0)
  {
    hide PathOf, IsNode, Inv;
    var m, p := BLOCKED, PathOf(SMALL);
    BlockedPaths();
    BlockedInv();
    InvSlots(m, {0, 4});
    assert p[..3] == [ROOT, 0, 0] && [ROOT, 0, 0][1..] == [0, 0] && [0, 0][1..] == [0] && [0][1..] == [];
    assert !Clear(m.mem, 3, [0]) && !Clear(m.mem, 2, [0, 0]);
    assert Aside(m, 3, [0], false) && Aside(m, 2, [0, 0], false);
    assert Grow(m, 4, [], false, false) == (m, Some(4));
    assert Grow(m, 3, [0], false, false) == (m, Some(4));
    assert Grow(m, 2, [0, 0], false, false) == (m, Some(4));
    var m' := MapPage(m, SMALL, 9 * PAGE, flags).0;
    ResolveLarge(m.mem, p, 1, 2, 3, Link(4).(large := true), SMALL / PAGE);
    ResolveLarge(m'.mem, p, 1, 2, 3, Link(4).(large := true), SMALL / PAGE);
  }

  lemma HugeGrow()
    ensures var m := BLOCKED;
            Grow(m, 1, [ROOT, 1, 0], false, false) ==
            (m.(used := m.used[5 := true], mem := Put(m.mem[5 := EmptyTable()], 4, 0, Link(5))), Some(5))
  {
    var m := BLOCKED;
    assert [ROOT, 1, 0][1..] == [1, 0] && [1, 0][1..] == [0] && [0][1..] == [];
    var (m1, c) := Descend(m, 4, 0, false, false);
    assert LowestFree(m.used) == 5;
    assert Grow(m1, 5, [], false, false) == (m1, Some(5));
    assert Grow(m, 4, [0], false, false) == (m1, Some(5));
    assert Grow(m, 2, [1, 0], false, false) == (m1, Some(5));
  }

  /** A 1 GiB page at work: map_page takes frame 5 for a table that nothing will find again, links it in the data page,
      reports success, and the address still translates to frame 0. */
  lemma BlockedByHuge(flags: Flags)
    ensures Aside(BLOCKED, 1, PathOf(HUGE)[..3], false) && !Clear(BLOCKED.mem, 1, PathOf(HUGE)[..3])
    ensures var (m', ok) := MapPage(BLOCKED, HUGE, 9 * PAGE, flags);
            && ok && Taken(BLOCKED, m') == {5} && !IsNode(m', 5) && At(m'.mem, 4, 0) == Link(5)
            && Resolve(BLOCKED.mem, 1, PathOf(HUGE), HUGE / PAGE) == Some(0)
            && Resolve(m'.mem, 1, PathOf(HUGE), HUGE / PAGE) == Some(0)
  {
    hide PathOf, IsNode, Inv;
    var m, p := BLOCKED, PathOf(HUGE);
    BlockedPaths();
    BlockedInv();
    assert p[..3] == [ROOT, 1, 0] && [ROOT, 1, 0][1..] == [1, 0] && [1, 0][1..] == [0] && [0][1..] == [];
    assert !Clear(m.mem, 2, [1, 0]);
    assert Aside(m, 4, [0], true) && Aside(m, 2, [1, 0], false);
    MapPageBlocked(m, {0, 4}, HUGE, 9 * PAGE, flags);
    HugeGrow();
    hide Grow, SameNodes, SameEntries, SameTables, Clear, Aside;
    var m' := MapPage(m, HUGE, 9 * PAGE, flags).0;
    assert SameTranslation(m, m', HUGE);
    assert p[1..][0] == 1;
    assert Resolve(m.mem, 2, p[1..], HUGE / PAGE) == Some(0);
    BlockedTables(5);
    Carry(m, m');
  }
}
