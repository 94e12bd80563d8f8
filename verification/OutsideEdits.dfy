/** Edits of memory outside every tree: they move no node and change no entry of one. */
module OutsideEdits {
  import opened Wrappers
  import opened PageTables
  import opened AddressSpaces
  import opened SpaceEdits

  /** `m'` differs from `m` only in frames that are no node, and in frames newly marked used. */
  ghost predicate SameTables(m: Machine, m': Machine) {
    && m' == m.(mem := m'.mem, used := m'.used) && |m'.mem| == |m.mem| && |m'.used| == |m.used| && Shaped(m'.mem)
    && (forall f: nat | f < |m.mem| && IsNode(m, f) :: m'.mem[f] == m.mem[f])
    && (forall f | 0 <= f < |m.used| && m.used[f] :: m'.used[f])
  }

  ghost function Taken(m: Machine, m': Machine): set<nat> {
    set f: nat | f < |m.used| && f < |m'.used| && m'.used[f] && !m.used[f]
  }

  lemma {:induction false} SameTablesWhere(m: Machine, m': Machine, b: Owner, q: Path)
    requires SameTables(m, m')
    ensures Where(m', b, q) == Where(m, b, q)
    decreases |q|
  {
    hide IsNode;
    if InTree(m, b, q) && q != [] {
      var s, i := q[..|q| - 1], q[|q| - 1];
      assert q == s + [i];
      SameTablesWhere(m, m', b, s);
      WhereSnoc(m, b, s, i);
      WhereSnoc(m', b, s, i);
      SameTablesAt(m, m', b, s, i);
    }
  }

  lemma SameTablesAt(m: Machine, m': Machine, b: Owner, s: Path, i: nat)
    requires SameTables(m, m') && |s| <= 3
    ensures Where(m, b, s).Some? ==> At(m'.mem, Where(m, b, s).value, i) == At(m.mem, Where(m, b, s).value, i)
  {
    if Where(m, b, s).Some? {
      assert Owns(b, s) && IsNode(m, Where(m, b, s).value);
    }
  }

  lemma SameTablesEntries(m: Machine, m': Machine)
    requires SameTables(m, m')
    ensures SameNodes(m, m') && SameEntries(m, m')
  {
    assert forall b, q :: InTree(m', b, q) == InTree(m, b, q);
    hide SameTables, IsNode;
    forall b, q ensures Where(m', b, q) == Where(m, b, q) { SameTablesWhere(m, m', b, q); }
    forall b, q | q != [] ensures EntryAt(m', b, q) == EntryAt(m, b, q) {
      if InTree(m, b, q) {
        var s := q[..|q| - 1];
        SameTablesWhere(m, m', b, s);
        SameTablesAt(m, m', b, s, q[|q| - 1]);
      }
    }
  }

  /** Such an edit keeps the invariant, the frames it took standing apart like reserved ones. */
  lemma SameTablesInv(m: Machine, m': Machine, reserved: set<nat>)
    requires Inv(m, reserved) && SameTables(m, m')
    ensures Inv(m', reserved + Taken(m, m')) && SameNodes(m, m') && SameEntries(m, m')
  {
    SameTablesEntries(m, m');
    Carry(m, m');
    SameTablesRights(m, m');
    SameTablesUsed(m, m', reserved);
    forall i | 0 <= i < ENTRIES ensures !At(m'.mem, m'.kernel, i).large {
      SameTablesAt(m, m', Kernel, [], i);
    }
  }

  lemma SameTablesRights(m: Machine, m': Machine)
    requires UserRights(m) && SameTables(m, m') && SameNodes(m, m')
    ensures UserRights(m')
  {
    assert forall b, q :: InTree(m', b, q) == InTree(m, b, q);
    hide IsNode, SameTables;
    forall id, p, i | InTree(m', User(id), p + [i]) && Where(m', User(id), p).Some?
      ensures UserEntry(At(m'.mem, Where(m', User(id), p).value, i), |p|)
    {
      assert Where(m', User(id), p) == Where(m, User(id), p);
      assert InTree(m, User(id), p + [i]);
      assert |p + [i]| <= 4;
      SameTablesAt(m, m', User(id), p, i);
    }
  }

  lemma SameTablesUsed(m: Machine, m': Machine, reserved: set<nat>)
    requires Inv(m, reserved) && SameTables(m, m') && SameNodes(m, m')
    requires forall g: nat :: IsNode(m', g) <==> IsNode(m, g)
    ensures NodesUsed(m') && HeldUsed(m') && Conserved(m', reserved + Taken(m, m'))
  {
    hide IsNode;
    forall o, p | Owns(o, p) && Where(m', o, p).Some?
      ensures InRange(m', o, Where(m', o, p).value) && Where(m', o, p).value !in m'.held
    {
      assert Where(m, o, p) == Where(m', o, p);
    }
  }

  /** Writing an entry of a frame that is no node. */
  lemma PutAside(m: Machine, t: nat, i: nat, e: Entry)
    requires Shaped(m.mem) && !IsNode(m, t)
    ensures SameTables(m, m.(mem := Put(m.mem, t, i, e)))
  {
  }

  /** A free frame is no node. */
  lemma FreeAside(m: Machine, reserved: set<nat>, f: nat)
    requires Inv(m, reserved) && f < |m.used| && !m.used[f]
    ensures !IsNode(m, f)
  {
  }

  lemma SameTablesThen(m: Machine, m1: Machine, t: nat, i: nat, e: Entry)
    requires SameTables(m, m1) && !IsNode(m, t)
    ensures SameTables(m, m1.(mem := Put(m1.mem, t, i, e)))
  {
  }
}
