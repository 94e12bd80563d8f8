/** The operations on address spaces as functions of the machine state, the
    invariant each keeps, and what each changes. */
module SpaceSteps {
  import opened Wrappers
  import opened PageTables
  import opened AddressSpaces
  import opened SpaceEdits

  const PAGE: nat := 4096
  const SLOT_SIZE: nat := 0x80_0000_0000            // 1 << 39
  const USER_END: nat := 0x8000_0000_0000           // 1 << 47
  const PHYS_END: nat := 0x10_0000_0000_0000        // 1 << 52
  const FRAME_MASK: nat := 0x100_0000_0000          // 1 << 40 frames

  /** The flag bits a caller may pass (PRESENT is always set). */
  datatype Flags = Flags(write: bool, user: bool, nx: bool)

  function PathOf(virt: nat): (p: Path)
    ensures |p| == 4 && Indices(p)
  {
    [virt / SLOT_SIZE % ENTRIES, virt / 0x4000_0000 % ENTRIES, virt / 0x20_0000 % ENTRIES, virt / PAGE % ENTRIES]
  }

  // ----- walking down and creating missing tables -----

  /** One level: the child behind entry `i` of table `t`, created when missing.
      `fix` sets the USER bit of an entry that lacks it. */
  function Descend(m: Machine, t: nat, i: nat, user: bool, fix: bool): (Machine, Option<nat>) {
    var e := At(m.mem, t, i);
    if !e.present then
      var f := LowestFree(m.used);
      if f >= |m.used| || f >= |m.mem| then (m, None)
      else (m.(used := m.used[f := true],
               mem := Put(m.mem[f := EmptyTable()], t, i, Entry(f, true, true, user, false, false))), Some(f))
    else if fix && !e.user then (m.(mem := Put(m.mem, t, i, e.(user := true))), Some(e.frame))
    else (m, Some(e.frame))
  }

  function Grow(m: Machine, t: nat, path: Path, user: bool, fix: bool): (Machine, Option<nat>)
    decreases |path|
  {
    if path == [] then (m, Some(t))
    else
      var (m1, c) := Descend(m, t, path[0], user, fix);
      if c.None? then (m1, None) else Grow(m1, c.value, path[1..], user, user)
  }

  /** `m'` is `m` plus empty tables on the way to (o, r); no page moved. */
  ghost predicate Grown(m: Machine, m': Machine, o: Owner, r: Path) {
    && m'.spaces == m.spaces && m'.kernel == m.kernel && m'.active == m.active && m'.held == m.held
    && |m'.used| == |m.used| && |m'.mem| == |m.mem|
    && (forall f | 0 <= f < |m.used| && m.used[f] :: m'.used[f])
    && (forall b, q :: Where(m', b, q) == Where(m, b, q) ||
                       (b == o && Extends(q, r) && |q| <= 3 && Where(m, b, q) == None))
    && (forall b, q | |q| == 4 :: EntryAt(m', b, q) == EntryAt(m, b, q))
    && (forall b, q | 0 < |q| <= 3 :: NewOrSame(EntryAt(m, b, q), EntryAt(m', b, q)))
  }

  /** An entry that is there as before, or a new link to a table that restricts nothing but user access. */
  predicate NewOrSame(before: Option<Entry>, after: Option<Entry>) {
    after == before || (before.None? && after.Some? && Links(after.value) && after.value.write && !after.value.nx)
  }

  /** No present entry on the way is a large page. */
  predicate Clear(mem: Memory, t: nat, path: Path)
    decreases |path|
  {
    path == [] ||
    (var e := At(mem, t, path[0]);
     e.present ==> !e.large && Clear(mem, e.frame, path[1..]))
  }

  /** Taking the lowest clear frame, zeroing it and linking it under a free entry. */
  lemma NewTableInv(m: Machine, reserved: set<nat>, o: Owner, p: Path, i: nat, f: nat)
    requires Inv(m, reserved) && |p| <= 2 && Where(m, o, p).Some? && InTree(m, o, p + [i])
    requires !At(m.mem, Where(m, o, p).value, i).present && f == LowestFree(m.used) < |m.used|
    ensures var link := Entry(f, true, true, o.User?, false, false);
            var m' := m.(used := m.used[f := true],
                         mem := Put(m.mem[f := EmptyTable()], Where(m, o, p).value, i, link));
            && Inv(m', reserved)
            && OnlyAt(m, m', o, p + [i])
            && Where(m, o, p + [i]) == None
            && Where(m', o, p + [i]) == Some(f)
            && EntryAt(m, o, p + [i]) == None && EntryAt(m', o, p + [i]) == Some(link)
            && f != Where(m, o, p).value
  {
    hide Distinct, NodesUsed, Conserved, UserRights;
    assert (p + [i])[..|p + [i]| - 1] == p;
    var link := Entry(f, true, true, o.User?, false, false);
    var m1 := Take(m, f);
    TakeInv(m, reserved, f);
    FillInv(m1, reserved, f, EmptyTable());
    var m2 := m1.(mem := m1.mem[f := EmptyTable()]);
    assert Where(m1, o, p) == Where(m, o, p);
    assert Where(m2, o, p) == Where(m, o, p);
    HeldApart(m1, reserved, o, p, f);
    LinkInv(m2, reserved, o, p, i, link);
    var m3 := Write(m2, o, p, i, link).(held := m2.held - {f});
    assert m3.held == m.held;
    assert OnlyAt(m2, m3, o, p + [i]);
    OnlyAtChain(m, m1, m2, m3, o, p + [i]);
  }

  lemma OnlyAtChain(m: Machine, m1: Machine, m2: Machine, m3: Machine, o: Owner, r: Path)
    requires SameNodes(m, m1) && SameNodes(m1, m2) && SameEntries(m, m1) && SameEntries(m1, m2)
    requires OnlyAt(m2, m3, o, r)
    ensures OnlyAt(m, m3, o, r) && Where(m, o, r) == Where(m2, o, r)
  {
    forall b, q | !(b == o && q == r) ensures Where(m3, b, q) == Where(m, b, q) {
      assert Where(m1, b, q) == Where(m, b, q);
      assert Where(m2, b, q) == Where(m1, b, q);
    }
    forall b, q | q != [] && !(b == o && q == r) ensures EntryAt(m3, b, q) == EntryAt(m, b, q) {
      assert EntryAt(m1, b, q) == EntryAt(m, b, q);
      assert EntryAt(m2, b, q) == EntryAt(m1, b, q);
    }
    assert Where(m1, o, r) == Where(m, o, r);
  }

  lemma DescendInv(m: Machine, reserved: set<nat>, o: Owner, p: Path, i: nat, fix: bool)
    requires Inv(m, reserved) && |p| <= 2 && Where(m, o, p).Some? && InTree(m, o, p + [i])
    requires o.Kernel? ==> !fix
    requires o.Kernel? && At(m.mem, Where(m, o, p).value, i).present ==> !At(m.mem, Where(m, o, p).value, i).large
    ensures var (m', c) := Descend(m, Where(m, o, p).value, i, o.User?, fix);
            && Inv(m', reserved)
            && Grown(m, m', o, p + [i])
            && (c.Some? ==> Where(m', o, p + [i]) == c)
            && (c.None? <==> !At(m.mem, Where(m, o, p).value, i).present && Exhausted(m.used))
            && (c.None? ==> m' == m)
            && (c.Some? && m' != m ==> c.value != Where(m, o, p).value)
  {
    hide Distinct, NodesUsed, Conserved;
    var t := Where(m, o, p).value;
    var e := At(m.mem, t, i);
    WhereSnoc(m, o, p, i);
    if o.User? { assert UserEntry(e, |p|); }
    var f := LowestFree(m.used);
    if !e.present && f < |m.used| {
      NewTableInv(m, reserved, o, p, i, f);
      OnlyAtGrown(m, Descend(m, t, i, o.User?, fix).0, o, p + [i]);
    } else {
      GrownRefl(m, o, p + [i]);
    }
  }

  lemma GrownRefl(m: Machine, o: Owner, r: Path)
    ensures Grown(m, m, o, r)
  {
  }

  lemma OnlyAtGrown(m: Machine, m': Machine, o: Owner, r: Path)
    requires OnlyAt(m, m', o, r) && 0 < |r| <= 3 && Where(m, o, r) == None
    requires EntryAt(m, o, r) == None && NewOrSame(None, EntryAt(m', o, r))
    requires m'.spaces == m.spaces && m'.kernel == m.kernel && m'.active == m.active && m'.held == m.held
    requires |m'.used| == |m.used| && |m'.mem| == |m.mem|
    requires forall f | 0 <= f < |m.used| && m.used[f] :: m'.used[f]
    ensures Grown(m, m', o, r)
  {
    assert Extends(r, r);
  }

  lemma GrownTrans(m: Machine, m1: Machine, m2: Machine, o: Owner, r1: Path, r2: Path)
    requires Grown(m, m1, o, r1) && Grown(m1, m2, o, r2) && Extends(r1, r2)
    ensures Grown(m, m2, o, r2)
  {
    forall b, q
      ensures Where(m2, b, q) == Where(m, b, q) ||
              (b == o && Extends(q, r2) && |q| <= 3 && Where(m, b, q) == None)
    {
      assert Where(m1, b, q) == Where(m, b, q) || (b == o && Extends(q, r1) && |q| <= 3 && Where(m, b, q) == None);
      if Extends(q, r1) { assert r2[..|q|] == r1[..|q|]; }
    }
    forall b, q | |q| == 4 ensures EntryAt(m2, b, q) == EntryAt(m, b, q) {
      assert EntryAt(m1, b, q) == EntryAt(m, b, q);
    }
    forall b, q | 0 < |q| <= 3 ensures NewOrSame(EntryAt(m, b, q), EntryAt(m2, b, q)) {
      assert NewOrSame(EntryAt(m, b, q), EntryAt(m1, b, q));
    }
  }

  /** Growing the tree towards (o, p + path) keeps the invariant even when the
      allocator runs dry half way: what was added so far is part of the tree. */
  lemma {:induction false} GrowInv(m: Machine, reserved: set<nat>, o: Owner, p: Path, path: Path, fix: bool)
    requires Inv(m, reserved) && |p| + |path| <= 3 && Where(m, o, p).Some? && InTree(m, o, p + path)
    requires o.Kernel? ==> !fix && Clear(m.mem, Where(m, o, p).value, path)
    ensures var (m', c) := Grow(m, Where(m, o, p).value, path, o.User?, fix);
            && Inv(m', reserved)
            && Grown(m, m', o, p + path)
            && (c.Some? ==> Where(m', o, p + path) == c)
            && (c.None? ==> Exhausted(m'.used))
    decreases |path|
  {
    hide Inv, Exhausted;
    var t := Where(m, o, p).value;
    if path == [] {
      assert p + path == p;
      GrownRefl(m, o, p);
    } else {
      var i := path[0];
      var r := p + [i];
      assert r + path[1..] == p + path;
      assert forall k | 0 <= k < |r| :: r[k] == (p + path)[k];
      DescendInv(m, reserved, o, p, i, fix);
      var (m1, c) := Descend(m, t, i, o.User?, fix);
      assert Extends(r, p + path);
      if c.Some? {
        if o.Kernel? { ClearCarries(m, m1, p, path); }
        GrowInv(m1, reserved, o, r, path[1..], o.User?);
        GrownTrans(m, m1, Grow(m1, c.value, path[1..], o.User?, o.User?).0, o, r, p + path);
      } else {
        GrownRefl(m, o, p + path);
      }
    }
  }

  /** After one kernel level the rest of the way is still free of large pages. */
  lemma ClearCarries(m: Machine, m1: Machine, p: Path, path: Path)
    requires path != [] && Where(m, Kernel, p).Some? && Clear(m.mem, Where(m, Kernel, p).value, path)
    requires m1 == Descend(m, Where(m, Kernel, p).value, path[0], false, false).0
    requires Descend(m, Where(m, Kernel, p).value, path[0], false, false).1.Some?
    requires !At(m.mem, Where(m, Kernel, p).value, path[0]).present ==> Where(m, Kernel, p).value != LowestFree(m.used)
    ensures Clear(m1.mem, Descend(m, Where(m, Kernel, p).value, path[0], false, false).1.value, path[1..])
  {
    var t := Where(m, Kernel, p).value;
    if !At(m.mem, t, path[0]).present && path[1..] != [] {
      var f := LowestFree(m.used);
      assert At(m1.mem, f, path[1..][0]) == EMPTY;
    }
  }

  // ----- user mappings -----

  /** The address test every user operation starts with. */
  predicate UserAddress(m: Machine, id: nat, virt: nat) {
    && id in m.spaces
    && m.spaces[id].slot * SLOT_SIZE <= virt < USER_END
    && virt / SLOT_SIZE % ENTRIES == m.spaces[id].slot
  }

  /** The last-level table for a path of three indices, without creating any. */
  function FindTable(mem: Memory, t: nat, path: Path, checkUser: bool): Option<nat>
    decreases |path|
  {
    if path == [] then Some(t)
    else
      var e := At(mem, t, path[0]);
      if !e.present || (checkUser && !e.user) then None else FindTable(mem, e.frame, path[1..], true)
  }

  function UserTable(m: Machine, id: nat, virt: nat, create: bool): (Machine, Option<nat>) {
    if !UserAddress(m, id, virt) then (m, None)
    else if create then Grow(m, m.spaces[id].root, PathOf(virt)[..3], true, false)
    else (m, FindTable(m.mem, m.spaces[id].root, PathOf(virt)[..3], false))
  }

  function UserLeaf(phys: nat, flags: Flags): Entry {
    Entry(phys / PAGE, true, flags.write, flags.user, false, flags.nx)
  }

  predicate Mappable(virt: nat, phys: nat, flags: Flags) {
    virt % PAGE == 0 && phys % PAGE == 0 && 0 < phys < PHYS_END && flags.user
  }

  /** map_user_page: on success the caller's frame belongs to the space. */
  function MapUser(m: Machine, id: nat, virt: nat, phys: nat, flags: Flags): (Machine, bool) {
    if !Mappable(virt, phys, flags) then (m, false)
    else
      var (m1, pt) := UserTable(m, id, virt, true);
      if pt.None? || At(m1.mem, pt.value, PathOf(virt)[3]).present then (m1, false)
      else (m1.(mem := Put(m1.mem, pt.value, PathOf(virt)[3], UserLeaf(phys, flags)),
                held := m1.held - {phys / PAGE}), true)
  }

  /** free_page on the bitmap: page 0 is never freed. */
  function FreeBit(used: seq<bool>, f: nat): seq<bool> {
    if f == 0 || f >= |used| then used else used[f := false]
  }

  function UnmapUser(m: Machine, id: nat, virt: nat): (Machine, bool) {
    if virt % PAGE != 0 then (m, false)
    else
      var pt := UserTable(m, id, virt, false).1;
      if pt.None? || !At(m.mem, pt.value, PathOf(virt)[3]).present then (m, false)
      else (m.(mem := Put(m.mem, pt.value, PathOf(virt)[3], EMPTY),
               used := FreeBit(m.used, At(m.mem, pt.value, PathOf(virt)[3]).frame)), true)
  }

  lemma UserPathInTree(m: Machine, id: nat, virt: nat)
    requires UserAddress(m, id, virt)
    ensures InTree(m, User(id), PathOf(virt)) && InTree(m, User(id), PathOf(virt)[..3])
    ensures PathOf(virt) == PathOf(virt)[..3] + [PathOf(virt)[3]]
  {
  }

  /** In a user tree the read-only walk finds exactly the node at that path. */
  lemma {:induction false} FindIsWhere(m: Machine, reserved: set<nat>, id: nat, p: Path, path: Path, checkUser: bool)
    requires Inv(m, reserved) && |p| + |path| <= 3 && Where(m, User(id), p).Some? && InTree(m, User(id), p + path)
    ensures FindTable(m.mem, Where(m, User(id), p).value, path, checkUser) == Where(m, User(id), p + path)
    decreases |path|
  {
    hide Inv, Locate;
    if path == [] {
      assert p + path == p;
    } else {
      var r := p + [path[0]];
      assert r + path[1..] == p + path;
      assert forall k | 0 <= k < |r| :: r[k] == (p + path)[k];
      assert InTree(m, User(id), r);
      UserEntryAt(m, reserved, id, p, path[0]);
      WhereSnoc(m, User(id), p, path[0]);
      if Where(m, User(id), r).Some? {
        FindIsWhere(m, reserved, id, r, path[1..], true);
      } else if Where(m, User(id), p + path).Some? {
        assert Extends(r, p + path);
        WhereSomePrefix(m, User(id), r, p + path);
      }
    }
  }

  lemma UserTableFinds(m: Machine, reserved: set<nat>, id: nat, virt: nat)
    requires Inv(m, reserved) && UserAddress(m, id, virt)
    ensures UserTable(m, id, virt, false).1 == Where(m, User(id), PathOf(virt)[..3])
  {
    UserPathInTree(m, id, virt);
    assert [] + PathOf(virt)[..3] == PathOf(virt)[..3];
    assert Where(m, User(id), []) == Some(m.spaces[id].root);
    FindIsWhere(m, reserved, id, [], PathOf(virt)[..3], false);
  }

  /** Pages of every tree, the kernel's included, as last-level entries. */
  ghost predicate SamePages(m: Machine, m': Machine) {
    forall b, q | |q| == 4 :: EntryAt(m', b, q) == EntryAt(m, b, q)
  }

  ghost predicate SamePagesBut(m: Machine, m': Machine, o: Owner, r: Path) {
    forall b, q | |q| == 4 && !(b == o && q == r) :: EntryAt(m', b, q) == EntryAt(m, b, q)
  }

  /** The kernel tree at most gained tables. */
  ghost predicate KernelKept(m: Machine, m': Machine) {
    && m'.kernel == m.kernel && |m'.used| == |m.used|
    && forall q | 0 < |q| <= 3 :: NewOrSame(EntryAt(m, Kernel, q), EntryAt(m', Kernel, q))
  }

  /** map_user_page keeps the invariant whether it succeeds, finds the page taken,
      or runs out of memory half way; it adds exactly one page or none. */
  lemma MapUserCorrect(m: Machine, reserved: set<nat>, id: nat, virt: nat, phys: nat, flags: Flags)
    requires Inv(m, reserved) && phys / PAGE in m.held
    ensures var (m', ok) := MapUser(m, id, virt, phys, flags);
            && Inv(m', reserved)
            && m'.spaces == m.spaces && KernelKept(m, m') && m'.active == m.active
            && (!ok ==> m'.held == m.held && SamePages(m, m'))
            && (!ok && Mappable(virt, phys, flags) && UserAddress(m, id, virt) && EntryAt(m, User(id), PathOf(virt)) == None ==>
                  Exhausted(m'.used))
            && (ok ==> Mappable(virt, phys, flags) && UserAddress(m, id, virt) && m'.held == m.held - {phys / PAGE} &&
                       EntryAt(m, User(id), PathOf(virt)) == None &&
                       EntryAt(m', User(id), PathOf(virt)) == Some(UserLeaf(phys, flags)) &&
                       SamePagesBut(m, m', User(id), PathOf(virt)))
  {
    hide Inv, Exhausted;
    if Mappable(virt, phys, flags) && UserAddress(m, id, virt) {
      var o := User(id);
      UserPathInTree(m, id, virt);
      var p := PathOf(virt)[..3];
      assert [] + p == p;
      assert Where(m, o, []) == Some(m.spaces[id].root);
      GrowInv(m, reserved, o, [], p, false);
      var (m1, pt) := UserTable(m, id, virt, true);
      if pt.Some? {
        var i := PathOf(virt)[3];
        assert InTree(m1, o, p + [i]);
        assert EntryAt(m1, o, p + [i]) == EntryAt(m, o, p + [i]);
        if !At(m1.mem, pt.value, i).present {
          LinkInv(m1, reserved, o, p, i, UserLeaf(phys, flags));
        }
      }
    }
  }

  /** unmap_user_page removes exactly one page and frees exactly its frame. */
  lemma UnmapUserCorrect(m: Machine, reserved: set<nat>, id: nat, virt: nat)
    requires Inv(m, reserved)
    ensures var (m', ok) := UnmapUser(m, id, virt);
            && Inv(m', reserved)
            && m'.spaces == m.spaces && KernelKept(m, m') && m'.active == m.active && m'.held == m.held
            && (ok <==> virt % PAGE == 0 && UserAddress(m, id, virt) && EntryAt(m, User(id), PathOf(virt)).Some?)
            && (!ok ==> m' == m)
            && (ok ==> var f := EntryAt(m, User(id), PathOf(virt)).value.frame;
                       0 < f < |m.used| && m.used[f] && m'.used == m.used[f := false] &&
                       EntryAt(m', User(id), PathOf(virt)) == None &&
                       SamePagesBut(m, m', User(id), PathOf(virt)))
  {
    hide Inv;
    if virt % PAGE == 0 && UserAddress(m, id, virt) {
      var o := User(id);
      UserPathInTree(m, id, virt);
      UserTableFinds(m, reserved, id, virt);
      var p := PathOf(virt)[..3];
      var i := PathOf(virt)[3];
      var pt := Where(m, o, p);
      if pt.Some? && At(m.mem, pt.value, i).present {
        UnmapAt(m, reserved, id, p, i);
      }
    }
  }

  lemma UnmapAt(m: Machine, reserved: set<nat>, id: nat, p: Path, i: nat)
    requires Inv(m, reserved) && |p| == 3 && Where(m, User(id), p).Some? && InTree(m, User(id), p + [i])
    requires At(m.mem, Where(m, User(id), p).value, i).present
    ensures var t := Where(m, User(id), p).value;
            var f := At(m.mem, t, i).frame;
            && 0 < f < |m.used| && m.used[f]
            && var m' := m.(mem := Put(m.mem, t, i, EMPTY), used := m.used[f := false]);
               Inv(m', reserved) && EntryAt(m', User(id), p + [i]) == None && KernelKept(m, m') &&
               SamePagesBut(m, m', User(id), p + [i])
  {
    var o := User(id);
    var f := At(m.mem, Where(m, o, p).value, i).frame;
    UnlinkInv(m, reserved, id, p, i);
    assert Owns(o, p + [i]);
    var m1 := Write(m, o, p, i, EMPTY).(held := m.held + {f});
    GiveBackInv(m1, reserved, f);
    var m2 := GiveBack(m1, f);
    assert m2.held == m.held;
    forall b, q | q != [] && !(b == o && q == p + [i]) ensures EntryAt(m2, b, q) == EntryAt(m, b, q) {
      assert EntryAt(m2, b, q) == EntryAt(m1, b, q);
    }
    assert EntryAt(m2, o, p + [i]) == EntryAt(m1, o, p + [i]);
  }
}
