/** Creating, synchronising and destroying address spaces, and what whole runs
    of memory operations preserve. */
module SpaceLifetime {
  import opened Wrappers
  import opened PageTables
  import opened AddressSpaces
  import opened SpaceEdits
  import opened OutsideEdits
  import opened SpaceSteps

  // ----- creation -----

  /** The kernel half of a new top-level table; the user half is empty. */
  function UserRoot(mem: Memory, kernel: nat): (t: Table)
    ensures |t| == ENTRIES
  {
    seq(ENTRIES, i requires 0 <= i => if i >= 256 then At(mem, kernel, i).(user := false) else EMPTY)
  }

  /** The lowest free slot from `i` up to 255, or 256. */
  function FreeSlot(mem: Memory, kernel: nat, i: nat): (s: nat)
    requires i <= 256
    ensures i <= s <= 256
    ensures s < 256 ==> !At(mem, kernel, s).present
    ensures forall j: nat | i <= j < s :: At(mem, kernel, j).present
    decreases 256 - i
  {
    if i == 256 || !At(mem, kernel, i).present then i else FreeSlot(mem, kernel, i + 1)
  }

  function Create(m: Machine, id: nat): (Machine, bool) {
    var f := LowestFree(m.used);
    var cleared := m.(spaces := m.spaces - {id});
    if f >= |m.used| || f >= |m.mem| then (cleared, false)
    else
      var filled := cleared.(mem := m.mem[f := UserRoot(m.mem, m.kernel)]);
      var slot := FreeSlot(m.mem, m.kernel, 1);
      if slot == 256 then (filled, false)
      else (filled.(used := m.used[f := true], spaces := m.spaces[id := Space(f, slot)]), true)
  }

  /** A fresh space is one new root and nothing else. */
  lemma CreateCorrect(m: Machine, reserved: set<nat>, id: nat)
    requires Inv(m, reserved) && id !in m.spaces
    ensures var (m', ok) := Create(m, id);
            && Inv(m', reserved)
            && KernelKept(m, m') && m'.active == m.active && m'.held == m.held
            && SamePages(m, m')
            && (forall b, q | b != User(id) :: Where(m', b, q) == Where(m, b, q))
            && (!ok ==> m'.spaces == m.spaces && m'.used == m.used)
            && (!ok ==> Exhausted(m.used) || forall j: nat | 1 <= j < 256 :: At(m.mem, m.kernel, j).present)
            && (ok ==> m'.spaces == m.spaces[id := m'.spaces[id]] && !m.used[m'.spaces[id].root] &&
                       m'.used == m.used[m'.spaces[id].root := true] && SharesKernelHalf(m', id) &&
                       !At(m.mem, m.kernel, m'.spaces[id].slot).present &&
                       (forall j: nat | 1 <= j < m'.spaces[id].slot :: At(m.mem, m.kernel, j).present) &&
                       (forall q :: q != [] ==> Where(m', User(id), q) == None))
  {
    hide Distinct, NodesUsed, Conserved, UserRights;
    var f := LowestFree(m.used);
    if f < |m.used| {
      var m1 := Take(m, f);
      TakeInv(m, reserved, f);
      var table := UserRoot(m.mem, m.kernel);
      FillInv(m1, reserved, f, table);
      var m2 := m1.(mem := m1.mem[f := table]);
      var slot := FreeSlot(m.mem, m.kernel, 1);
      SameTrans(m, m1, m2);
      assert m.spaces - {id} == m.spaces;
      if slot == 256 {
        GiveBackInv(m2, reserved, f);
        assert GiveBack(m2, f).used == m.used && GiveBack(m2, f).held == m.held;
        SameTrans(m, m2, GiveBack(m2, f));
      } else {
        AddSpaceInv(m2, reserved, id, Space(f, slot));
        var m3 := m2.(spaces := m.spaces[id := Space(f, slot)], held := m2.held - {f});
        assert m3.held == m.held;
        assert m3 == Create(m, id).0;
        assert m3.spaces == m.spaces[id := m3.spaces[id]];
        forall b, q | b != User(id) ensures Where(m3, b, q) == Where(m, b, q) {
          assert Where(m2, b, q) == Where(m, b, q);
        }
        forall b, q | q != [] ensures EntryAt(m3, b, q) == EntryAt(m, b, q) {
          assert EntryAt(m2, b, q) == EntryAt(m, b, q);
        }
      }
    } else {
      assert m.spaces - {id} == m.spaces;
    }
  }

  lemma SameTrans(m: Machine, m1: Machine, m2: Machine)
    requires SameNodes(m, m1) && SameNodes(m1, m2) && SameEntries(m, m1) && SameEntries(m1, m2)
    ensures SameNodes(m, m2) && SameEntries(m, m2)
  {
    forall b, q ensures Where(m2, b, q) == Where(m, b, q) { assert Where(m1, b, q) == Where(m, b, q); }
    forall b, q | q != [] ensures EntryAt(m2, b, q) == EntryAt(m, b, q) {
      assert EntryAt(m1, b, q) == EntryAt(m, b, q);
    }
  }

  /** Turning a held frame with an empty user half into the root of a space. */
  lemma AddSpaceInv(m: Machine, reserved: set<nat>, id: nat, s: Space)
    requires Inv(m, reserved) && id !in m.spaces && s.root in m.held && 1 <= s.slot < 256
    requires !At(m.mem, s.root, s.slot).present
    ensures var m' := m.(spaces := m.spaces[id := s], held := m.held - {s.root});
            && Inv(m', reserved)
            && (forall b, q | b != User(id) :: Where(m', b, q) == Where(m, b, q))
            && (forall q :: Where(m', User(id), q) == if q == [] then Some(s.root) else None)
            && (forall b, q | q != [] :: EntryAt(m', b, q) == EntryAt(m, b, q))
  {
    var m' := m.(spaces := m.spaces[id := s], held := m.held - {s.root});
    assert forall b, q | b != User(id) :: InTree(m', b, q) == InTree(m, b, q);
    forall q ensures Where(m', User(id), q) == if q == [] then Some(s.root) else None { }
    NodesPlus(m, m', User(id), [], s.root);
    ConservedPlus(m, m', reserved, s.root);
    forall b, q | q != [] ensures EntryAt(m', b, q) == EntryAt(m, b, q) {
      if b == User(id) && |q| == 1 { assert q[..0] == []; }
    }
    forall id', p, i | InTree(m', User(id'), p + [i]) && Where(m', User(id'), p).Some?
      ensures UserEntry(At(m'.mem, Where(m', User(id'), p).value, i), |p|)
    {
      if id' == id {
        assert (p + [i])[0] == i;
      } else {
        assert InTree(m, User(id'), p + [i]);
      }
    }
  }

  // ----- the kernel half -----

  function SyncRoot(m: Machine, root: nat): (t: Table)
    ensures |t| == ENTRIES
  {
    seq(ENTRIES, i requires 0 <= i =>
      if i >= 256 then At(m.mem, m.kernel, i).(user := false) else At(m.mem, root, i))
  }

  /** sync_kernel_mappings: copy the kernel half into the space's top table. */
  function Sync(m: Machine, id: nat): (Machine, bool) {
    if id !in m.spaces || m.spaces[id].root == 0 || m.spaces[id].root >= |m.mem| then (m, false)
    else (m.(mem := m.mem[m.spaces[id].root := SyncRoot(m, m.spaces[id].root)]), true)
  }

  /** The kernel half of a root is the kernel's own, minus the USER bits. */
  ghost predicate SharesKernelHalf(m: Machine, id: nat)
    requires id in m.spaces
  {
    forall i: nat | 256 <= i < ENTRIES :: At(m.mem, m.spaces[id].root, i) == At(m.mem, m.kernel, i).(user := false)
  }

  /** Synchronising moves no node and no page of anyone, and makes the halves agree. */
  lemma SyncCorrect(m: Machine, reserved: set<nat>, id: nat)
    requires Inv(m, reserved)
    ensures var (m', ok) := Sync(m, id);
            && Inv(m', reserved)
            && m' == m.(mem := m'.mem)
            && (ok <==> id in m.spaces)
            && SameNodes(m, m') && SameEntries(m, m')
            && (ok ==> SharesKernelHalf(m', id))
  {
    if id in m.spaces {
      var root := m.spaces[id].root;
      var o := User(id);
      assert Where(m, o, []) == Some(root) && Where(m, Kernel, []) == Some(m.kernel) && Owns(o, []);
      NodeInRange(m, reserved, o, []);
      var table := SyncRoot(m, root);
      var m' := m.(mem := m.mem[root := table]);
      forall b, q ensures Where(m', b, q) == Where(m, b, q) { SyncNode(m, reserved, id, b, q); }
      forall b, q | q != [] ensures EntryAt(m', b, q) == EntryAt(m, b, q) { SyncEntry(m, reserved, id, b, q); }
      assert m.kernel != root;
      SyncInv(m, m', reserved, id);
    }
  }

  lemma SyncNode(m: Machine, reserved: set<nat>, id: nat, b: Owner, q: Path)
    requires Inv(m, reserved) && id in m.spaces && m.spaces[id].root < |m.mem|
    ensures Where(m.(mem := m.mem[m.spaces[id].root := SyncRoot(m, m.spaces[id].root)]), b, q) == Where(m, b, q)
  {
    var root := m.spaces[id].root;
    var table := SyncRoot(m, root);
    assert Where(m, User(id), []) == Some(root);
    if InTree(m, b, q) {
      forall i | 0 <= i < |table| && Reads(m.mem, RootOf(m, b), q, root, i) ensures table[i] == m.mem[root][i] {
        ReadsOwn(m, User(id), [], i, b, q);
        assert q[..1] == [i];
        assert q[0] == i;
      }
      RewriteFrame(m.mem, RootOf(m, b), q, root, table);
    }
  }

  lemma SyncEntry(m: Machine, reserved: set<nat>, id: nat, b: Owner, q: Path)
    requires Inv(m, reserved) && id in m.spaces && m.spaces[id].root < |m.mem| && q != []
    ensures EntryAt(m.(mem := m.mem[m.spaces[id].root := SyncRoot(m, m.spaces[id].root)]), b, q) == EntryAt(m, b, q)
  {
    var root := m.spaces[id].root;
    var s := q[..|q| - 1];
    assert Where(m, User(id), []) == Some(root);
    SyncNode(m, reserved, id, b, s);
    if InTree(m, b, q) && Where(m, b, s) == Some(root) {
      assert Owns(b, s) && Owns(User(id), []);
      assert b == User(id) && s == [];
      assert q[|q| - 1] == q[0];
    }
  }

  lemma SyncInv(m: Machine, m': Machine, reserved: set<nat>, id: nat)
    requires Inv(m, reserved) && id in m.spaces && m.spaces[id].root < |m.mem| && m.kernel != m.spaces[id].root
    requires m' == m.(mem := m.mem[m.spaces[id].root := SyncRoot(m, m.spaces[id].root)])
    requires SameNodes(m, m') && SameEntries(m, m')
    ensures Inv(m', reserved)
  {
    Carry(m, m');
    forall o, p | Owns(o, p) && Where(m', o, p).Some?
      ensures InRange(m', o, Where(m', o, p).value) && Where(m', o, p).value !in m'.held
    {
      assert Where(m, o, p) == Where(m', o, p);
    }
    forall id', p, i | InTree(m', User(id'), p + [i]) && Where(m', User(id'), p).Some?
      ensures UserEntry(At(m'.mem, Where(m', User(id'), p).value, i), |p|)
    {
      assert InTree(m, User(id'), p + [i]);
      var q := p + [i];
      assert q[..|q| - 1] == p && q[|q| - 1] == i;
      assert EntryAt(m', User(id'), q) == EntryAt(m, User(id'), q);
      assert UserEntry(At(m.mem, Where(m, User(id'), p).value, i), |p|);
    }
    assert forall i :: At(m'.mem, m.kernel, i) == At(m.mem, m.kernel, i);
  }

  // ----- destruction -----

  /** The frames a space owns, level by level: its root, its tables, its pages. */
  ghost function Owned(m: Machine, id: nat): set<nat>
    requires id in m.spaces
  {
    {m.spaces[id].root} + ReachEntry(m.mem, m.spaces[id].root, m.spaces[id].slot, 4)
  }

  /** That set is exactly the frames of the space's nodes. */
  lemma OwnedIsNodes(m: Machine, id: nat, f: nat)
    requires id in m.spaces && m.spaces[id].slot < ENTRIES
    ensures f in Owned(m, id) <==> exists p :: Where(m, User(id), p) == Some(f)
  {
    var s := m.spaces[id];
    if f == s.root {
      assert Where(m, User(id), []) == Some(f);
    }
    var e := At(m.mem, s.root, s.slot);
    if Links(e) {
      ReachIsLocated(m.mem, e.frame, 3, f);
      if f in Reach(m.mem, e.frame, 3) {
        var p: Path :| |p| <= 3 && Indices(p) && Locate(m.mem, e.frame, p) == Some(f);
        var q := [s.slot] + p;
        assert q[1..] == p;
        assert Where(m, User(id), q) == Some(f);
      }
    }
    if exists p :: Where(m, User(id), p) == Some(f) {
      var p :| Where(m, User(id), p) == Some(f);
      if p != [] {
        assert |p[1..]| <= 3 && Indices(p[1..]) && Locate(m.mem, e.frame, p[1..]) == Some(f);
      }
    }
  }

  ghost function Without(used: seq<bool>, frames: set<nat>): seq<bool> {
    seq(|used|, f requires 0 <= f < |used| => used[f] && f !in frames)
  }

  lemma WithoutEmpty(used: seq<bool>)
    ensures Without(used, {}) == used
  {
  }

  ghost function Destroy(m: Machine, id: nat): (Machine, bool) {
    if id !in m.spaces || m.spaces[id].root == 0 || m.active == m.spaces[id].root then (m, false)
    else (m.(used := Without(m.used, Owned(m, id)),
             spaces := m.spaces - {id}), true)
  }

  /** destroy_user_address_space frees exactly what the space owned: those bits were
      set, they are clear now, and no bit of anyone else changed. */
  lemma DestroyCorrect(m: Machine, reserved: set<nat>, id: nat)
    requires Inv(m, reserved)
    ensures var (m', ok) := Destroy(m, id);
            && Inv(m', reserved)
            && m'.kernel == m.kernel && m'.active == m.active && m'.held == m.held && m'.mem == m.mem
            && (ok <==> id in m.spaces && m.active != m.spaces[id].root)
            && (!ok ==> m' == m)
            && (ok ==> m'.spaces == m.spaces - {id} &&
                       (forall b, q | b != User(id) :: Where(m', b, q) == Where(m, b, q)) &&
                       (forall b, q | q != [] && b != User(id) :: EntryAt(m', b, q) == EntryAt(m, b, q)) &&
                       (forall f :: f in Owned(m, id) ==> 0 < f < |m.used| && m.used[f] && !m'.used[f]) &&
                       (forall f | 0 <= f < |m.used| && f !in Owned(m, id) :: m'.used[f] == m.used[f]))
  {
    if id in m.spaces {
      assert Where(m, User(id), []) == Some(m.spaces[id].root);
      assert Owns(User(id), []);
      if m.active != m.spaces[id].root {
        DropInv(m, reserved, id);
      }
    }
  }

  lemma DropInv(m: Machine, reserved: set<nat>, id: nat)
    requires Inv(m, reserved) && Destroy(m, id).1
    ensures var m' := Destroy(m, id).0;
            && Inv(m', reserved)
            && (forall b, q | b != User(id) :: Where(m', b, q) == Where(m, b, q))
            && (forall b, q | q != [] && b != User(id) :: EntryAt(m', b, q) == EntryAt(m, b, q))
            && (forall f :: f in Owned(m, id) ==> 0 < f < |m.used| && m.used[f] && !m'.used[f])
  {
    var m' := Destroy(m, id).0;
    assert forall b, q | b != User(id) :: InTree(m', b, q) == InTree(m, b, q);
    OwnedUsed(m, id);
    DropNodes(m, m', id);
    assert Distinct(m') by {
      forall o, p, b, q | Owns(o, p) && Owns(b, q) && Where(m', o, p).Some? && Where(m', o, p) == Where(m', b, q)
        ensures o == b && p == q
      {
        assert Where(m, o, p) == Where(m, b, q);
      }
    }
    assert UserRights(m') by {
      forall id', p, i | InTree(m', User(id'), p + [i]) && Where(m', User(id'), p).Some?
        ensures UserEntry(At(m'.mem, Where(m', User(id'), p).value, i), |p|)
      {
        assert InTree(m, User(id'), p + [i]);
      }
    }
  }

  lemma OwnedUsed(m: Machine, id: nat)
    requires NodesUsed(m) && id in m.spaces && m.spaces[id].slot < ENTRIES
    ensures forall f :: f in Owned(m, id) ==> 0 < f < |m.used| && m.used[f] && IsNode(m, f)
  {
    forall f | f in Owned(m, id) ensures 0 < f < |m.used| && m.used[f] && IsNode(m, f) {
      OwnedIsNodes(m, id, f);
      var p :| Where(m, User(id), p) == Some(f);
      assert Owns(User(id), p);
    }
  }

  lemma DropNodes(m: Machine, m': Machine, id: nat)
    requires Distinct(m) && NodesUsed(m) && id in m.spaces && m.spaces[id].slot < ENTRIES
    requires m' == m.(spaces := m.spaces - {id}, used := m'.used)
    requires |m'.used| == |m.used|
    requires forall f | 0 <= f < |m.used| :: m'.used[f] == (m.used[f] && f !in Owned(m, id))
    ensures NodesUsed(m')
    ensures forall f: nat :: IsNode(m', f) <==> IsNode(m, f) && f !in Owned(m, id)
  {
    assert forall b, q | b != User(id) :: InTree(m', b, q) == InTree(m, b, q);
    forall o, p | Owns(o, p) && Where(m', o, p).Some?
      ensures InRange(m', o, Where(m', o, p).value) && Where(m', o, p).value !in m'.held
    {
      OthersStay(m, id, o, p);
    }
    forall f: nat ensures IsNode(m', f) <==> IsNode(m, f) && f !in Owned(m, id) {
      if IsNode(m', f) {
        var o, p :| Owns(o, p) && Where(m', o, p) == Some(f);
        OthersStay(m, id, o, p);
        assert Where(m, o, p) == Some(f);
      }
      if IsNode(m, f) && f !in Owned(m, id) {
        var o, p :| Owns(o, p) && Where(m, o, p) == Some(f);
        OwnedIsNodes(m, id, f);
        assert o != User(id);
        assert Where(m', o, p) == Some(f);
      }
    }
  }

  /** A node of another owner is not among the frames a space owns. */
  lemma OthersStay(m: Machine, id: nat, o: Owner, p: Path)
    requires Distinct(m) && id in m.spaces && m.spaces[id].slot < ENTRIES
    requires o != User(id) && Owns(o, p) && Where(m, o, p).Some?
    ensures Where(m, o, p).value !in Owned(m, id)
  {
    var f := Where(m, o, p).value;
    OwnedIsNodes(m, id, f);
    forall q ensures Where(m, User(id), q) != Some(f) {
      assert Owns(User(id), q);
    }
  }

  /** Creating over a live space strands all its frames: nobody owns them any more, yet they stay used. */
  lemma CreateOver(m: Machine, reserved: set<nat>, id: nat)
    requires Inv(m, reserved) && id in m.spaces
    ensures var m' := Create(m, id).0;
            Inv(m', reserved + Owned(m, id)) && !Inv(m', reserved)
  {
    hide Inv, UserRoot, LowestFree, FreeSlot, Owned;
    StrandInv(m, reserved, id);
    var m0 := m.(spaces := m.spaces - {id});
    CreateCorrect(m0, reserved + Owned(m, id), id);
    var s := Space(LowestFree(m.used), FreeSlot(m.mem, m.kernel, 1));
    assert m0.spaces - {id} == m0.spaces && m0.spaces[id := s] == m.spaces[id := s];
    assert Create(m0, id).0 == Create(m, id).0;
    StrandedBreaks(m, Create(m, id).0, reserved, id);
  }

  /** Forgetting a space leaves its frames to nobody. */
  lemma StrandInv(m: Machine, reserved: set<nat>, id: nat)
    requires Inv(m, reserved) && id in m.spaces
    ensures Inv(m.(spaces := m.spaces - {id}), reserved + Owned(m, id))
  {
    hide Inv, Owned, IsNode, Destroy;
    var root := m.spaces[id].root;
    var ma := m.(active := root + 1);
    ActiveInv(m, reserved, root + 1);
    DestroyCorrect(ma, reserved, id);
    SameOwned(m, ma, id);
    var d := Destroy(ma, id).0;
    var m0 := ma.(spaces := m.spaces - {id});
    SizesOf(d, ma, reserved, id);
    SameTablesInv(d, m0, reserved);
    assert Taken(d, m0) == Owned(m, id);
    ActiveInv(m0, reserved + Owned(m, id), m.active);
  }

  lemma SizesOf(d: Machine, m: Machine, reserved: set<nat>, id: nat)
    requires Inv(m, reserved) && Destroy(m, id) == (d, true)
    ensures |d.used| == |m.used| && SameTables(d, m.(spaces := m.spaces - {id}))
  {
  }

  lemma SameOwned(m: Machine, m': Machine, id: nat)
    requires id in m.spaces && m' == m.(active := m'.active)
    ensures Owned(m', id) == Owned(m, id)
  {
  }

  lemma StrandedBreaks(m: Machine, m': Machine, reserved: set<nat>, id: nat)
    requires Inv(m, reserved) && id in m.spaces && Inv(m', reserved + Owned(m, id))
    ensures !Inv(m', reserved)
  {
    var root := m.spaces[id].root;
    assert Where(m, User(id), []) == Some(root) && Owns(User(id), []) && IsNode(m, root);
    assert root in Owned(m, id);
  }

  lemma ActiveInv(m: Machine, reserved: set<nat>, root: nat)
    requires Inv(m, reserved)
    ensures Inv(m.(active := root), reserved)
  {
    var m' := m.(active := root);
    assert SameNodes(m, m');
    Carry(m, m');
    assert UserRights(m');
  }

  /** The books stay balanced exactly when the structure is unused. */
  lemma CreateExact(m: Machine, reserved: set<nat>, id: nat)
    requires Inv(m, reserved)
    ensures Inv(Create(m, id).0, reserved) <==> id !in m.spaces
  {
    hide Inv, Create;
    if id in m.spaces { CreateOver(m, reserved, id); } else { CreateCorrect(m, reserved, id); }
  }
}
