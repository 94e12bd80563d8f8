/** The check of user buffers against the page tables, and the access rights the
    hardware would grant. */
module UserRange {
  import opened Wrappers
  import opened PageTables
  import opened AddressSpaces
  import opened SpaceEdits
  import opened SpaceSteps
  import opened KernelSpace

  datatype Rights = Rights(write: bool, user: bool, nx: bool)

  /** Access rights as the processor combines them over all levels: WRITE and USER
      must be set at every level, NX at any level forbids execution. */
  function Effective(mem: Memory, t: nat, path: Path): Option<Rights>
    decreases |path|
  {
    if path == [] then Some(Rights(true, true, false))
    else
      var e := At(mem, t, path[0]);
      if !e.present then None
      else
        var below := if e.large && 2 <= |path| <= 3 then Some(Rights(true, true, false))
                     else Effective(mem, e.frame, path[1..]);
        if below.None? then None
        else Some(Rights(e.write && below.value.write, e.user && below.value.user, e.nx || below.value.nx))
  }

  /** A user-mode access at `address` goes through in this space's own slot. */
  predicate Allowed(m: Machine, id: nat, address: nat, write: bool, execute: bool)
    requires id in m.spaces
  {
    address / SLOT_SIZE == m.spaces[id].slot &&
    var r := Effective(m.mem, m.spaces[id].root, PathOf(address));
    r.Some? && r.value.user && (write ==> r.value.write) && (execute ==> !r.value.nx)
  }

  /** The test is_user_range makes for one page: last-level entry only. */
  predicate PageAllowed(m: Machine, id: nat, page: nat, write: bool, execute: bool) {
    var pt := UserTable(m, id, page, false).1;
    pt.Some? &&
    var e := At(m.mem, pt.value, PathOf(page)[3]);
    e.present && e.user && (write ==> e.write) && (execute ==> !e.nx)
  }

  predicate RangeStart(m: Machine, id: nat, virt: nat, length: nat) {
    length != 0 && UserAddress(m, id, virt) && length <= USER_END - virt
  }

  /** is_user_range: the start is acceptable and every touched page passes. */
  predicate InUserRange(m: Machine, id: nat, virt: nat, length: nat, write: bool, execute: bool) {
    RangeStart(m, id, virt, length) &&
    forall k | virt / PAGE <= k <= (virt + length - 1) / PAGE :: PageAllowed(m, id, k * PAGE, write, execute)
  }

  /** Every upper level of a user tree carries WRITE and USER and not NX, so the
      combined rights are those of the last level. */
  lemma {:induction false} EffectiveIsLeaf(m: Machine, reserved: set<nat>, id: nat, p: Path, path: Path)
    requires Inv(m, reserved) && |p| + |path| == 4 && path != [] && Where(m, User(id), p).Some?
    requires InTree(m, User(id), p + path)
    ensures var e := EntryAt(m, User(id), p + path);
            Effective(m.mem, Where(m, User(id), p).value, path) ==
            if e.Some? then Some(Rights(e.value.write, e.value.user, e.value.nx)) else None
    decreases |path|
  {
    hide Inv;
    var o := User(id);
    var r := p + [path[0]];
    assert r + path[1..] == p + path;
    assert forall k | 0 <= k < |r| :: r[k] == (p + path)[k];
    UserEntryAt(m, reserved, id, p, path[0]);
    WhereSnoc(m, o, p, path[0]);
    var e := At(m.mem, Where(m, o, p).value, path[0]);
    if |path| == 1 {
      assert p + path == r && r[..|r| - 1] == p;
      assert Effective(m.mem, e.frame, path[1..]) == Some(Rights(true, true, false));
    } else if e.present {
      EffectiveIsLeaf(m, reserved, id, r, path[1..]);
    } else {
      NoEntryBelow(m, o, r, p + path);
    }
  }

  /** For an address of the space, the page test is the hardware's verdict. */
  lemma PageAllowedIsAllowed(m: Machine, reserved: set<nat>, id: nat, address: nat, write: bool, execute: bool)
    requires Inv(m, reserved) && id in m.spaces && address < USER_END
    ensures PageAllowed(m, id, address / PAGE * PAGE, write, execute) <==> Allowed(m, id, address, write, execute)
  {
    hide Inv, PathOf;
    var page := address / PAGE * PAGE;
    SamePath(address);
    assert page / SLOT_SIZE == address / SLOT_SIZE;
    assert address / SLOT_SIZE < 256;
    assert UserAddress(m, id, page) <==> address / SLOT_SIZE == m.spaces[id].slot;
    if UserAddress(m, id, page) {
      UserPathInTree(m, id, page);
      UserTableFinds(m, reserved, id, page);
      assert Where(m, User(id), []) == Some(m.spaces[id].root);
      var p := PathOf(page);
      assert [] + p == p && p[..|p| - 1] == p[..3];
      EffectiveIsLeaf(m, reserved, id, [], p);
    }
  }

  lemma SamePath(address: nat)
    ensures PathOf(address / PAGE * PAGE) == PathOf(address)
  {
    var x := address / PAGE;
    assert x * PAGE / PAGE == x;
    assert x * PAGE / 0x20_0000 == x / 512 == address / 0x20_0000;
    assert x * PAGE / 0x4000_0000 == x / 0x4_0000 == address / 0x4000_0000;
    assert x * PAGE / SLOT_SIZE == x / 0x800_0000 == address / SLOT_SIZE;
  }

  /** is_user_range holds exactly when the range is not empty, ends below 2^47, and
      the hardware would grant the access at every single byte of it. */
  lemma UserRangeIsHardware(m: Machine, reserved: set<nat>, id: nat, virt: nat, length: nat, write: bool, execute: bool)
    requires Inv(m, reserved)
    ensures InUserRange(m, id, virt, length, write, execute) <==>
            id in m.spaces && length > 0 && virt + length <= USER_END &&
            forall a | virt <= a < virt + length :: Allowed(m, id, a, write, execute)
  {
    if id in m.spaces && length > 0 && virt + length <= USER_END {
      forall a: nat | virt <= a < virt + length
        ensures PageAllowed(m, id, a / PAGE * PAGE, write, execute) <==> Allowed(m, id, a, write, execute)
      {
        PageAllowedIsAllowed(m, reserved, id, a, write, execute);
      }
      if InUserRange(m, id, virt, length, write, execute) {
        forall a: nat | virt <= a < virt + length ensures Allowed(m, id, a, write, execute) {
          assert virt / PAGE <= a / PAGE <= (virt + length - 1) / PAGE;
        }
      }
      if forall a | virt <= a < virt + length :: Allowed(m, id, a, write, execute) {
        assert Allowed(m, id, virt, write, execute);
        assert virt / SLOT_SIZE == m.spaces[id].slot;
        SlotBounds(virt, m.spaces[id].slot);
        forall k | virt / PAGE <= k <= (virt + length - 1) / PAGE
          ensures PageAllowed(m, id, k * PAGE, write, execute)
        {
          var a: nat := if k * PAGE < virt then virt else k * PAGE;
          assert a / PAGE == k && virt <= a < virt + length;
          assert Allowed(m, id, a, write, execute);
        }
      }
    }
  }

  lemma SlotBounds(virt: nat, slot: nat)
    requires virt / SLOT_SIZE == slot < ENTRIES
    ensures slot * SLOT_SIZE <= virt && virt / SLOT_SIZE % ENTRIES == slot
  {
  }

  // ----- what mapping and unmapping grant -----

  /** A user-mode access goes through exactly as the page's own entry says. */
  lemma AllowedIsEntry(m: Machine, reserved: set<nat>, id: nat, a: nat, write: bool, execute: bool)
    requires Inv(m, reserved) && id in m.spaces && a < USER_END
    ensures Allowed(m, id, a, write, execute) <==>
            a / SLOT_SIZE == m.spaces[id].slot && EntryAt(m, User(id), PathOf(a)).Some? &&
            var e := EntryAt(m, User(id), PathOf(a)).value;
            e.user && (write ==> e.write) && (execute ==> !e.nx)
  {
    hide Inv;
    if a / SLOT_SIZE == m.spaces[id].slot {
      InvSlot(m, reserved, id);
      SlotBounds(a, m.spaces[id].slot);
      UserPathInTree(m, id, a);
      assert Where(m, User(id), []) == Some(m.spaces[id].root);
      assert [] + PathOf(a) == PathOf(a);
      EffectiveIsLeaf(m, reserved, id, [], PathOf(a));
    }
  }

  lemma InvSlot(m: Machine, reserved: set<nat>, id: nat)
    requires Inv(m, reserved) && id in m.spaces
    ensures 1 <= m.spaces[id].slot < 256
  {
  }

  /** Two addresses below 2^47 in the same page have the same path, and no others do. */
  lemma PathIsUserPage(a: nat, b: nat)
    requires a < USER_END && b < USER_END
    ensures PathOf(a) == PathOf(b) <==> a / PAGE == b / PAGE
  {
    PathIsPage(a, b);
    assert a / PAGE < 0x10_0000_0000 && b / PAGE < 0x10_0000_0000;
  }

  /** map_user_page: afterwards every byte of the page may be read, written if the flags say so, and executed unless
      they forbid it, and lies in the given frame; no access to any other byte of any space changes. */
  lemma MapUserGrants(m: Machine, reserved: set<nat>, id: nat, virt: nat, phys: nat, flags: Flags)
    requires Inv(m, reserved) && phys / PAGE in m.held && MapUser(m, id, virt, phys, flags).1
    ensures var m' := MapUser(m, id, virt, phys, flags).0;
            && m'.spaces == m.spaces && id in m.spaces
            && (forall a: nat | a < USER_END && a / PAGE == virt / PAGE :: Where(m', User(id), PathOf(a)) == Some(phys / PAGE))
            && (forall a: nat, write, execute | a < USER_END && a / PAGE == virt / PAGE ::
                  Allowed(m', id, a, write, execute) <==> (write ==> flags.write) && (execute ==> !flags.nx))
            && (forall b: nat, a: nat, write, execute |
                  b in m.spaces && a < USER_END && !(b == id && a / PAGE == virt / PAGE) ::
                  Allowed(m', b, a, write, execute) == Allowed(m, b, a, write, execute))
  {
    hide Inv, PathOf, Allowed, EntryAt, MapUser, Where, Exhausted;
    MapUserCorrect(m, reserved, id, virt, phys, flags);
    var m' := MapUser(m, id, virt, phys, flags).0;
    forall a: nat | a < USER_END && a / PAGE == virt / PAGE ensures Where(m', User(id), PathOf(a)) == Some(phys / PAGE) {
      PathIsUserPage(a, virt);
      EntryFrame(m', id, PathOf(a));
    }
    forall a: nat, write, execute | a < USER_END && a / PAGE == virt / PAGE
      ensures Allowed(m', id, a, write, execute) <==> (write ==> flags.write) && (execute ==> !flags.nx)
    {
      PathIsUserPage(a, virt);
      AllowedIsEntry(m', reserved, id, a, write, execute);
      UserSlot(m, reserved, id, virt, a);
    }
    forall b: nat, a: nat, write, execute | b in m.spaces && a < USER_END && !(b == id && a / PAGE == virt / PAGE)
      ensures Allowed(m', b, a, write, execute) == Allowed(m, b, a, write, execute)
    {
      PathIsUserPage(a, virt);
      AllowedIsEntry(m, reserved, b, a, write, execute);
      AllowedIsEntry(m', reserved, b, a, write, execute);
    }
  }

  lemma UserSlot(m: Machine, reserved: set<nat>, id: nat, virt: nat, a: nat)
    requires Inv(m, reserved) && UserAddress(m, id, virt) && a / PAGE == virt / PAGE
    ensures a / SLOT_SIZE == m.spaces[id].slot
  {
    InvSlot(m, reserved, id);
    assert a / SLOT_SIZE == a / PAGE / 0x800_0000 && virt / SLOT_SIZE == virt / PAGE / 0x800_0000;
  }

  lemma EntryFrame(m: Machine, id: nat, p: Path)
    requires p != [] && EntryAt(m, User(id), p).Some? && !EntryAt(m, User(id), p).value.large
    ensures Where(m, User(id), p) == Some(EntryAt(m, User(id), p).value.frame)
  {
    var q, i := p[..|p| - 1], p[|p| - 1];
    assert p == q + [i];
    WhereSnoc(m, User(id), q, i);
  }

  /** unmap_user_page: afterwards no access to the page goes through, and every other one as before. */
  lemma UnmapUserRevokes(m: Machine, reserved: set<nat>, id: nat, virt: nat)
    requires Inv(m, reserved) && UnmapUser(m, id, virt).1
    ensures var m' := UnmapUser(m, id, virt).0;
            && m'.spaces == m.spaces
            && forall b: nat, a: nat, write, execute | b in m.spaces && a < USER_END ::
                 Allowed(m', b, a, write, execute) <==>
                 Allowed(m, b, a, write, execute) && !(b == id && a / PAGE == virt / PAGE)
  {
    hide Inv, PathOf, Allowed, EntryAt, UnmapUser;
    UnmapUserCorrect(m, reserved, id, virt);
    var m' := UnmapUser(m, id, virt).0;
    forall b: nat, a: nat, write, execute | b in m.spaces && a < USER_END
      ensures Allowed(m', b, a, write, execute) <==>
              Allowed(m, b, a, write, execute) && !(b == id && a / PAGE == virt / PAGE)
    {
      PathIsUserPage(a, virt);
      AllowedIsEntry(m, reserved, b, a, write, execute);
      AllowedIsEntry(m', reserved, b, a, write, execute);
    }
  }
}
