/** The elementary edits of the machine state and what each does to the nodes
    of every tree: take a frame, clear a frame, link a frame, unlink a frame. */
module SpaceEdits {
  import opened Wrappers
  import opened PageTables
  import opened AddressSpaces

  /** Index of the lowest clear bit, or the number of pages when all are used. */
  function LowestFree(used: seq<bool>): (f: nat)
    ensures f <= |used|
    ensures f < |used| ==> !used[f]
    ensures forall g | 0 <= g < f :: used[g]
  {
    if used == [] || !used[0] then 0 else
      assert forall g | 1 <= g < |used| :: used[g] == used[1..][g - 1];
      1 + LowestFree(used[1..])
  }

  /** No frame is left. */
  predicate Exhausted(used: seq<bool>) {
    forall f | 0 <= f < |used| :: used[f]
  }

  function Take(m: Machine, f: nat): Machine
    requires f < |m.used|
  {
    m.(used := m.used[f := true], held := m.held + {f})
  }

  function GiveBack(m: Machine, f: nat): Machine
    requires f < |m.used|
  {
    m.(used := m.used[f := false], held := m.held - {f})
  }

  /** Every node of `m'` is where it was in `m`. */
  ghost predicate SameNodes(m: Machine, m': Machine) {
    forall b, q :: Where(m', b, q) == Where(m, b, q)
  }

  /** The same present entries stand at the end of every path. */
  ghost predicate SameEntries(m: Machine, m': Machine) {
    forall b, q | q != [] :: EntryAt(m', b, q) == EntryAt(m, b, q)
  }

  lemma Carry(m: Machine, m': Machine)
    requires SameNodes(m, m') && Distinct(m)
    ensures Distinct(m')
    ensures forall g: nat :: IsNode(m', g) <==> IsNode(m, g)
  {
    forall g: nat ensures IsNode(m', g) <==> IsNode(m, g) {
      if IsNode(m, g) {
        var o, p :| Owns(o, p) && Where(m, o, p) == Some(g);
        assert Where(m', o, p) == Some(g);
      }
      if IsNode(m', g) {
        var o, p :| Owns(o, p) && Where(m', o, p) == Some(g);
        assert Where(m, o, p) == Some(g);
      }
    }
    forall o, p, b, q | Owns(o, p) && Owns(b, q) && Where(m', o, p).Some? && Where(m', o, p) == Where(m', b, q)
      ensures o == b && p == q
    {
      assert Where(m, o, p) == Where(m, b, q);
    }
  }

  /** Taking a clear frame, or giving back a held one, moves no node. */
  lemma TakeInv(m: Machine, reserved: set<nat>, f: nat)
    requires Inv(m, reserved) && f < |m.used| && !m.used[f]
    ensures Inv(Take(m, f), reserved) && SameNodes(m, Take(m, f)) && SameEntries(m, Take(m, f))
  {
    BitInv(m, Take(m, f), reserved, f);
  }

  lemma GiveBackInv(m: Machine, reserved: set<nat>, f: nat)
    requires Inv(m, reserved) && f in m.held
    ensures f < |m.used|
    ensures Inv(GiveBack(m, f), reserved) && SameNodes(m, GiveBack(m, f)) && SameEntries(m, GiveBack(m, f))
  {
    BitInv(m, GiveBack(m, f), reserved, f);
  }

  lemma BitInv(m: Machine, m': Machine, reserved: set<nat>, f: nat)
    requires Inv(m, reserved) && f < |m.used| && f !in reserved && !IsNode(m, f)
    requires m' == (if m.used[f] then GiveBack(m, f) else Take(m, f))
    ensures Inv(m', reserved) && SameNodes(m, m') && SameEntries(m, m')
  {
    assert SameNodes(m, m');
    Carry(m, m');
    forall o, p | Owns(o, p) && Where(m', o, p).Some?
      ensures InRange(m', o, Where(m', o, p).value) && Where(m', o, p).value !in m'.held
    {
      assert Where(m, o, p) == Where(m', o, p);
      assert IsNode(m, Where(m, o, p).value);
    }
    assert UserRights(m');
  }

  /** A table on a path is a node, so it is not the non-node `f`. */
  lemma TablesApart(m: Machine, o: Owner, p: Path, f: nat)
    requires !IsNode(m, f) && Owns(o, p)
    ensures Where(m, o, p) != Some(f)
  {
  }

  lemma HeldApart(m: Machine, reserved: set<nat>, o: Owner, p: Path, f: nat)
    requires Inv(m, reserved) && f in m.held && Owns(o, p)
    ensures Where(m, o, p) != Some(f)
  {
  }

  lemma UserEntryAt(m: Machine, reserved: set<nat>, id: nat, p: Path, i: nat)
    requires Inv(m, reserved) && InTree(m, User(id), p + [i]) && Where(m, User(id), p).Some?
    ensures UserEntry(At(m.mem, Where(m, User(id), p).value, i), |p|)
  {
  }

  lemma NodeInRange(m: Machine, reserved: set<nat>, o: Owner, p: Path)
    requires Inv(m, reserved) && Owns(o, p) && Where(m, o, p).Some?
    ensures InRange(m, o, Where(m, o, p).value) && Where(m, o, p).value !in m.held
  {
  }

  lemma FillRights(m: Machine, f: nat, table: Table)
    requires UserRights(m) && !IsNode(m, f) && f < |m.mem| && |table| == ENTRIES
    requires forall b, q :: Where(m.(mem := m.mem[f := table]), b, q) == Where(m, b, q)
    ensures UserRights(m.(mem := m.mem[f := table]))
  {
    hide IsNode;
    var m' := m.(mem := m.mem[f := table]);
    forall id, p, i | InTree(m', User(id), p + [i]) && Where(m', User(id), p).Some?
      ensures UserEntry(At(m'.mem, Where(m', User(id), p).value, i), |p|)
    {
      assert InTree(m, User(id), p + [i]);
      TablesApart(m, User(id), p, f);
      assert UserEntry(At(m.mem, Where(m, User(id), p).value, i), |p|);
    }
  }

  /** Overwriting the contents of a held frame. */
  lemma FillInv(m: Machine, reserved: set<nat>, f: nat, table: Table)
    requires Inv(m, reserved) && f in m.held && |table| == ENTRIES
    ensures f < |m.mem|
    ensures var m' := m.(mem := m.mem[f := table]);
            Inv(m', reserved) && SameNodes(m, m') && SameEntries(m, m')
  {
    var m' := m.(mem := m.mem[f := table]);
    forall b, q ensures Where(m', b, q) == Where(m, b, q) { WhereFresh(m, f, table, b, q); }
    Carry(m, m');
    forall b, q | q != [] ensures EntryAt(m', b, q) == EntryAt(m, b, q) {
      if InTree(m, b, q) { TablesApart(m, b, q[..|q| - 1], f); }
    }
    forall o, p | Owns(o, p) && Where(m', o, p).Some?
      ensures InRange(m', o, Where(m', o, p).value) && Where(m', o, p).value !in m'.held
    {
      assert Where(m, o, p) == Where(m', o, p);
    }
    FillRights(m, f, table);
    TablesApart(m, Kernel, [], f);
    assert forall i :: At(m'.mem, m.kernel, i) == At(m.mem, m.kernel, i);
  }

  // ----- writing one entry -----

  /** `m` after entry `i` of the table that is node (o, p) became `e`. */
  function Write(m: Machine, o: Owner, p: Path, i: nat, e: Entry): Machine
    requires Where(m, o, p).Some?
  {
    m.(mem := Put(m.mem, Where(m, o, p).value, i, e))
  }

  /** Nothing but node (o, r) and entry (o, r) differ. */
  ghost predicate OnlyAt(m: Machine, m': Machine, o: Owner, r: Path) {
    && (forall b, q | !(b == o && q == r) :: Where(m', b, q) == Where(m, b, q))
    && (forall b, q | q != [] && !(b == o && q == r) :: EntryAt(m', b, q) == EntryAt(m, b, q))
  }

  /** The entry may be overwritten by `e`: nothing lies behind it, before or after. */
  ghost predicate Writable(m: Machine, o: Owner, p: Path, i: nat, e: Entry) {
    && Shaped(m.mem) && Distinct(m) && NodesUsed(m) && |p| <= 3 && Where(m, o, p).Some?
    && InTree(m, o, p + [i])
    && (|p| < 3 ==> !Links(At(m.mem, Where(m, o, p).value, i)))
    && (|p| < 3 && Links(e) ==>
          e.frame != Where(m, o, p).value && forall j :: !At(m.mem, e.frame, j).present)
  }

  /** When nothing lies behind the entry, before or after, only its own node moves. */
  lemma WriteOnlyAt(m: Machine, o: Owner, p: Path, i: nat, e: Entry)
    requires Writable(m, o, p, i, e)
    ensures var m' := Write(m, o, p, i, e);
            && OnlyAt(m, m', o, p + [i])
            && EntryAt(m', o, p + [i]) == (if e.present then Some(e) else None)
            && Where(m', o, p + [i]) == (if Links(e) then Some(e.frame) else None)
            && Where(m', o, p) == Where(m, o, p)
  {
    var m' := Write(m, o, p, i, e);
    var r := p + [i];
    forall b, q | !(b == o && q == r) ensures Where(m', b, q) == Where(m, b, q) {
      WriteNode(m, o, p, i, e, b, q);
    }
    forall b, q | q != [] && !(b == o && q == r) ensures EntryAt(m', b, q) == EntryAt(m, b, q) {
      WriteEntry(m, o, p, i, e, b, q);
    }
    WriteNode(m, o, p, i, e, o, p);
    WhereSnoc(m', o, p, i);
    assert r[..|r| - 1] == p;
  }

  lemma WriteNode(m: Machine, o: Owner, p: Path, i: nat, e: Entry, b: Owner, q: Path)
    requires Writable(m, o, p, i, e) && !(b == o && q == p + [i])
    ensures Where(Write(m, o, p, i, e), b, q) == Where(m, b, q)
  {
    if b == o && Extends(p + [i], q) {
      NothingBehind(m, o, p, i, e, q);
    } else {
      WherePut(m, o, p, i, e, b, q);
    }
  }

  lemma WriteEntry(m: Machine, o: Owner, p: Path, i: nat, e: Entry, b: Owner, q: Path)
    requires Writable(m, o, p, i, e) && q != [] && !(b == o && q == p + [i])
    ensures EntryAt(Write(m, o, p, i, e), b, q) == EntryAt(m, b, q)
  {
    var m' := Write(m, o, p, i, e);
    var s := q[..|q| - 1];
    var j := q[|q| - 1];
    assert q == s + [j];
    if InTree(m, b, q) {
      if b == o && s == p + [i] {
        WhereSnoc(m, o, p, i);
        WhereSnoc(m', o, p, i);
        WriteNode(m, o, p, i, e, o, p);
        if Links(e) { assert At(m'.mem, e.frame, j) == At(m.mem, e.frame, j); }
      } else {
        WriteNode(m, o, p, i, e, b, s);
        if Where(m, b, s) == Where(m, o, p) { assert b == o && s == p; }
      }
    }
  }

  lemma NothingBehind(m: Machine, o: Owner, p: Path, i: nat, e: Entry, q: Path)
    requires Writable(m, o, p, i, e) && Extends(p + [i], q) && q != p + [i]
    ensures Where(m, o, q) == None && Where(Write(m, o, p, i, e), o, q) == None
  {
    var r := p + [i];
    var m' := Write(m, o, p, i, e);
    if InTree(m, o, q) {
      var rest := q[|r|..];
      assert q == r + rest && rest != [];
      var root := RootOf(m, o);
      LocateConcat(m.mem, root, r, rest);
      LocateConcat(m'.mem, root, r, rest);
      WherePut(m, o, p, i, e, o, p);
      WhereSnoc(m, o, p, i);
      WhereSnoc(m', o, p, i);
      if Links(e) {
        assert At(m'.mem, e.frame, rest[0]) == At(m.mem, e.frame, rest[0]);
      }
    }
  }

  // ----- ownership moves between `held` and the trees -----

  /** Linking a held frame under a free entry makes it a node and nothing else. */
  lemma LinkInv(m: Machine, reserved: set<nat>, o: Owner, p: Path, i: nat, e: Entry)
    requires Inv(m, reserved) && |p| <= 3 && Where(m, o, p).Some? && InTree(m, o, p + [i])
    requires Owns(o, p + [i])
    requires !At(m.mem, Where(m, o, p).value, i).present
    requires Links(e) && e.frame in m.held && (o.User? ==> UserEntry(e, |p|))
    requires |p| < 3 ==> forall j :: !At(m.mem, e.frame, j).present
    ensures var m' := Write(m, o, p, i, e).(held := m.held - {e.frame});
            && Inv(m', reserved)
            && OnlyAt(m, m', o, p + [i])
            && Where(m, o, p + [i]) == None
            && Where(m', o, p + [i]) == Some(e.frame)
            && EntryAt(m', o, p + [i]) == Some(e)
  {
    hide UserRights;
    var t := Where(m, o, p).value;
    var r := p + [i];
    var w := Write(m, o, p, i, e);
    var m' := w.(held := m.held - {e.frame});
    TablesApart(m, o, p, e.frame);
    WriteOnlyAt(m, o, p, i, e);
    WhereSnoc(m, o, p, i);
    assert forall b, q :: Where(m', b, q) == Where(w, b, q);
    assert forall b, q | q != [] :: EntryAt(m', b, q) == EntryAt(w, b, q);
    assert OnlyAt(m, m', o, r);
    NodesPlus(m, m', o, r, e.frame);
    LinkRights(m, m', o, p, i, e);
    KernelTop(m, o, p, i, e);
    ConservedPlus(m, m', reserved, e.frame);
  }

  lemma LinkRights(m: Machine, m': Machine, o: Owner, p: Path, i: nat, e: Entry)
    requires Distinct(m) && NodesUsed(m) && UserRights(m) && Owns(o, p) && Where(m, o, p).Some?
    requires m'.mem == Write(m, o, p, i, e).mem && m'.spaces == m.spaces
    requires o.User? ==> UserEntry(e, |p|)
    requires |p| <= 3 && Where(m', o, p + [i]) == (if Links(e) then Some(e.frame) else None)
    requires |p| < 3 && Links(e) ==>
               e.frame != Where(m, o, p).value && forall j :: !At(m.mem, e.frame, j).present
    requires forall b, q | !(b == o && q == p + [i]) :: Where(m', b, q) == Where(m, b, q)
    ensures UserRights(m')
  {
    var t := Where(m, o, p).value;
    forall id, q, j | InTree(m', User(id), q + [j]) && Where(m', User(id), q).Some?
      ensures UserEntry(At(m'.mem, Where(m', User(id), q).value, j), |q|)
    {
      if User(id) == o && q == p + [i] {
        assert At(m'.mem, e.frame, j) == At(m.mem, e.frame, j);
      } else {
        var u := Where(m, User(id), q).value;
        assert InTree(m, User(id), q + [j]);
        assert UserEntry(At(m.mem, u, j), |q|);
        if u == t && j == i {
          assert User(id) == o && q == p;
        } else {
          assert At(m'.mem, u, j) == At(m.mem, u, j);
        }
      }
    }
  }

  /** A frame that moves from `held` to the nodes keeps the books balanced. */
  lemma ConservedPlus(m: Machine, m': Machine, reserved: set<nat>, f: nat)
    requires Conserved(m, reserved) && f in m.held && HeldUsed(m)
    requires m'.used == m.used && m'.held == m.held - {f}
    requires forall g: nat :: IsNode(m', g) <==> (IsNode(m, g) || g == f)
    ensures Conserved(m', reserved)
  {
  }

  /** A frame that moves from the nodes to `held` keeps the books balanced. */
  lemma ConservedMinus(m: Machine, m': Machine, reserved: set<nat>, f: nat)
    requires Conserved(m, reserved) && IsNode(m, f) && !IsNode(m', f)
    requires m'.used == m.used && m'.held == m.held + {f}
    requires forall g: nat :: IsNode(m, g) <==> (IsNode(m', g) || g == f)
    ensures Conserved(m', reserved)
  {
  }

  /** One node more: every other node fact carries over. */
  lemma NodesPlus(m: Machine, m': Machine, o: Owner, r: Path, f: nat)
    requires Distinct(m) && NodesUsed(m) && f in m.held && HeldUsed(m) && |m.used| <= |m.mem|
    requires Owns(o, r) && Where(m, o, r) == None && Where(m', o, r) == Some(f)
    requires forall b, q | !(b == o && q == r) :: Where(m', b, q) == Where(m, b, q)
    requires m'.used == m.used && |m'.mem| == |m.mem| && m'.held == m.held - {f}
    ensures Distinct(m') && NodesUsed(m')
    ensures forall g: nat :: IsNode(m', g) <==> (IsNode(m, g) || g == f)
  {
    forall g: nat ensures IsNode(m', g) <==> (IsNode(m, g) || g == f) {
      if IsNode(m, g) {
        var b, q :| Owns(b, q) && Where(m, b, q) == Some(g);
        assert Where(m', b, q) == Some(g);
      }
      if IsNode(m', g) && g != f {
        var b, q :| Owns(b, q) && Where(m', b, q) == Some(g);
        assert Where(m, b, q) == Some(g);
      }
      if g == f {
        assert Where(m', o, r) == Some(f);
      }
    }
    forall b, q | Owns(b, q) && Where(m', b, q).Some?
      ensures InRange(m', b, Where(m', b, q).value) && Where(m', b, q).value !in m'.held
    {
      if !(b == o && q == r) { assert Where(m, b, q).Some?; }
    }
  }

  /** No entry written this way sets the large bit in the kernel's top table. */
  lemma KernelTop(m: Machine, o: Owner, p: Path, i: nat, e: Entry)
    requires Slots(m) && Where(m, o, p).Some? && !e.large
    ensures Slots(Write(m, o, p, i, e))
  {
    var m' := Write(m, o, p, i, e);
    forall j: nat | j < ENTRIES ensures !At(m'.mem, m.kernel, j).large {
      assert At(m'.mem, m.kernel, j) == At(m.mem, m.kernel, j) || At(m'.mem, m.kernel, j) == e;
    }
  }

  /** Rewriting a last-level entry of the kernel tree: no owned node moves. */
  lemma KernelLeafInv(m: Machine, reserved: set<nat>, p: Path, i: nat, e: Entry)
    requires Inv(m, reserved) && |p| == 3 && Where(m, Kernel, p).Some? && InTree(m, Kernel, p + [i])
    requires !e.large
    ensures var m' := Write(m, Kernel, p, i, e);
            && Inv(m', reserved)
            && OnlyAt(m, m', Kernel, p + [i])
            && EntryAt(m', Kernel, p + [i]) == (if e.present then Some(e) else None)
  {
    hide Distinct, NodesUsed, Conserved, UserRights, IsNode;
    var m' := Write(m, Kernel, p, i, e);
    assert Writable(m, Kernel, p, i, e);
    WriteOnlyAt(m, Kernel, p, i, e);
    LeafNodes(m, m', reserved, p + [i]);
    LeafRights(m, p, i, e);
    KernelTop(m, Kernel, p, i, e);
  }

  /** A change at a place that no tree owns moves no owned node. */
  lemma LeafNodes(m: Machine, m': Machine, reserved: set<nat>, r: Path)
    requires OnlyAt(m, m', Kernel, r) && !Owns(Kernel, r) && m' == m.(mem := m'.mem) && |m'.mem| == |m.mem|
    requires Distinct(m) && NodesUsed(m) && Conserved(m, reserved)
    ensures Distinct(m') && NodesUsed(m') && Conserved(m', reserved)
  {
    forall b, q | Owns(b, q) ensures Where(m', b, q) == Where(m, b, q) {}
    forall g: nat ensures IsNode(m', g) <==> IsNode(m, g) {
      if IsNode(m, g) {
        var b, q :| Owns(b, q) && Where(m, b, q) == Some(g);
        assert Where(m', b, q) == Some(g);
      }
      if IsNode(m', g) {
        var b, q :| Owns(b, q) && Where(m', b, q) == Some(g);
        assert Where(m, b, q) == Some(g);
      }
    }
  }

  lemma LeafRights(m: Machine, p: Path, i: nat, e: Entry)
    requires Writable(m, Kernel, p, i, e) && Distinct(m) && UserRights(m) && |p| == 3 && Where(m, Kernel, p).Some?
    requires OnlyAt(m, Write(m, Kernel, p, i, e), Kernel, p + [i])
    ensures UserRights(Write(m, Kernel, p, i, e))
  {
    var t := Where(m, Kernel, p).value;
    var m' := Write(m, Kernel, p, i, e);
    forall id, q, j | InTree(m', User(id), q + [j]) && Where(m', User(id), q).Some?
      ensures UserEntry(At(m'.mem, Where(m', User(id), q).value, j), |q|)
    {
      assert Where(m', User(id), q) == Where(m, User(id), q);
      assert InTree(m, User(id), q + [j]);
      assert Where(m, User(id), q).value != t;
    }
  }

  /** Clearing a present last-level entry of a user tree turns its page into a held frame. */
  lemma UnlinkInv(m: Machine, reserved: set<nat>, id: nat, p: Path, i: nat)
    requires Inv(m, reserved) && |p| == 3 && Where(m, User(id), p).Some? && InTree(m, User(id), p + [i])
    requires At(m.mem, Where(m, User(id), p).value, i).present
    ensures var f := At(m.mem, Where(m, User(id), p).value, i).frame;
            var m' := Write(m, User(id), p, i, EMPTY).(held := m.held + {f});
            && Where(m, User(id), p + [i]) == Some(f)
            && Inv(m', reserved)
            && OnlyAt(m, m', User(id), p + [i])
            && EntryAt(m', User(id), p + [i]) == None
            && Where(m', User(id), p + [i]) == None
  {
    hide Distinct, NodesUsed, Conserved, UserRights, IsNode;
    UserEntryAt(m, reserved, id, p, i);
    var o := User(id);
    var t := Where(m, o, p).value;
    var f := At(m.mem, t, i).frame;
    var r := p + [i];
    var w := Write(m, o, p, i, EMPTY);
    var m' := w.(held := m.held + {f});
    WhereSnoc(m, o, p, i);
    WriteOnlyAt(m, o, p, i, EMPTY);
    assert forall b, q :: Where(m', b, q) == Where(w, b, q);
    assert forall b, q | q != [] :: EntryAt(m', b, q) == EntryAt(w, b, q);
    NodeInRange(m, reserved, o, r);
    NodesMinus(m, m', o, r, f);
    ConservedMinus(m, m', reserved, f);
    LinkRights(m, m', o, p, i, EMPTY);
    KernelTop(m, o, p, i, EMPTY);
  }

  /** One node less: every other node fact carries over. */
  lemma NodesMinus(m: Machine, m': Machine, o: Owner, r: Path, f: nat)
    requires Distinct(m) && NodesUsed(m)
    requires Owns(o, r) && Where(m, o, r) == Some(f) && Where(m', o, r) == None
    requires forall b, q | !(b == o && q == r) :: Where(m', b, q) == Where(m, b, q)
    requires m'.used == m.used && |m'.mem| == |m.mem| && m'.held == m.held + {f}
    ensures Distinct(m') && NodesUsed(m') && IsNode(m, f) && !IsNode(m', f)
    ensures forall g: nat :: IsNode(m, g) <==> (IsNode(m', g) || g == f)
  {
    forall b, q | Owns(b, q) && Where(m', b, q).Some?
      ensures InRange(m', b, Where(m', b, q).value) && Where(m', b, q).value !in m'.held
    {
      assert Where(m, b, q) == Where(m', b, q) && Where(m, b, q) != Some(f);
    }
    forall g: nat ensures IsNode(m, g) <==> (IsNode(m', g) || g == f) {
      if IsNode(m, g) && g != f {
        var b, q :| Owns(b, q) && Where(m, b, q) == Some(g);
        assert Where(m', b, q) == Some(g);
      }
      if IsNode(m', g) {
        var b, q :| Owns(b, q) && Where(m', b, q) == Some(g);
        assert Where(m, b, q) == Some(g);
      }
      if g == f { assert Where(m, o, r) == Some(f); }
    }
  }
}
