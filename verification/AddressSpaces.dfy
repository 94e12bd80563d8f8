/** The memory manager's state as a value: physical memory, the page bitmap,
    the kernel tree, and any number of user address spaces that own their
    tables and their pages. */
module AddressSpaces {
  import opened Wrappers
  import opened PageTables

  datatype Space = Space(root: nat, slot: nat)

  /** Whose tree a node belongs to. */
  datatype Owner = Kernel | User(id: nat)

  /** `held` is the set of frames callers have taken from the allocator and not
      handed to an address space or given back. */
  datatype Machine = Machine(
    mem: Memory,
    used: seq<bool>,
    kernel: nat,
    active: nat,
    spaces: map<nat, Space>,
    held: set<nat>)

  predicate Live(m: Machine, o: Owner) {
    o.User? ==> o.id in m.spaces
  }

  function RootOf(m: Machine, o: Owner): nat
    requires Live(m, o)
  {
    if o.Kernel? then m.kernel else m.spaces[o.id].root
  }

  /** The kernel tree spans all 512 slots, a user tree only its own one. */
  predicate InTree(m: Machine, o: Owner, p: Path) {
    Live(m, o) && |p| <= 4 && Indices(p) &&
    (o.User? && p != [] ==> p[0] == m.spaces[o.id].slot)
  }

  function Where(m: Machine, o: Owner, p: Path): Option<nat> {
    if InTree(m, o, p) then Locate(m.mem, RootOf(m, o), p) else None
  }

  /** The present entry that `p` ends with. */
  function EntryAt(m: Machine, o: Owner, p: Path): Option<Entry>
    requires p != []
  {
    var q := p[..|p| - 1];
    if InTree(m, o, p) && Where(m, o, q).Some? && At(m.mem, Where(m, o, q).value, p[|p| - 1]).present
    then Some(At(m.mem, Where(m, o, q).value, p[|p| - 1])) else None
  }

  /** A user space owns its tables and its pages; the kernel tree owns its tables
      (its leaves may point anywhere, also at frames of others). */
  predicate Owns(o: Owner, p: Path) {
    o.User? || |p| <= 3
  }

  ghost predicate IsNode(m: Machine, f: nat) {
    exists o, p :: Owns(o, p) && Where(m, o, p) == Some(f)
  }

  ghost predicate Distinct(m: Machine) {
    forall o, p, b, q ::
      Owns(o, p) && Owns(b, q) && Where(m, o, p).Some? && Where(m, o, p) == Where(m, b, q) ==> o == b && p == q
  }

  predicate InRange(m: Machine, o: Owner, f: nat) {
    f < |m.mem| && (f < |m.used| ==> m.used[f]) && (o.User? ==> 0 < f < |m.used|)
  }

  ghost predicate NodesUsed(m: Machine) {
    forall o, p :: Owns(o, p) && Where(m, o, p).Some? ==>
      InRange(m, o, Where(m, o, p).value) && Where(m, o, p).value !in m.held
  }

  ghost predicate HeldUsed(m: Machine) {
    forall f | f in m.held :: 0 < f < |m.used| && m.used[f]
  }

  /** Every used frame is reserved, held by a caller, or a node of exactly the trees. */
  ghost predicate Conserved(m: Machine, reserved: set<nat>) {
    && 0 in reserved
    && (forall f | 0 <= f < |m.used| :: m.used[f] <==> (f in reserved || f in m.held || IsNode(m, f)))
    && (forall f | f in reserved :: f < |m.used| && f !in m.held && !IsNode(m, f))
  }

  /** What an entry of a user tree may look like: `k` links lead to its table. */
  predicate UserEntry(e: Entry, k: nat) {
    e.present ==> !e.large && e.user && (k < 3 ==> e.write && !e.nx)
  }

  ghost predicate UserRights(m: Machine) {
    forall id, p, i ::
      InTree(m, User(id), p + [i]) && Where(m, User(id), p).Some? ==>
      UserEntry(At(m.mem, Where(m, User(id), p).value, i), |p|)
  }

  ghost predicate Slots(m: Machine) {
    && (forall id | id in m.spaces :: 1 <= m.spaces[id].slot < 256)
    && (forall i | 0 <= i < ENTRIES :: !At(m.mem, m.kernel, i).large)
  }

  ghost predicate Inv(m: Machine, reserved: set<nat>) {
    && Shaped(m.mem)
    && 0 < |m.used| <= |m.mem|
    && Slots(m)
    && Distinct(m)
    && NodesUsed(m)
    && HeldUsed(m)
    && Conserved(m, reserved)
    && UserRights(m)
  }

  // ----- how an edit of memory moves nodes -----

  predicate Extends(p: Path, q: Path) {
    |p| <= |q| && q[..|p|] == p
  }

  /** Only a path through that very node consults an entry of a node's table. */
  lemma ReadsOwn(m: Machine, o: Owner, p: Path, i: nat, b: Owner, q: Path)
    requires Distinct(m) && |p| <= 3 && Where(m, o, p).Some? && InTree(m, b, q)
    requires Reads(m.mem, RootOf(m, b), q, Where(m, o, p).value, i)
    ensures b == o && Extends(p + [i], q)
  {
    var t := Where(m, o, p).value;
    var k := ReadsPrefix(m.mem, RootOf(m, b), q, t, i);
    assert Where(m, b, q[..k]) == Some(t);
    assert b == o && q[..k] == p;
    assert q[..k + 1] == p + [i];
  }

  /** Writing one entry of a table moves only what lies behind that entry. */
  lemma WherePut(m: Machine, o: Owner, p: Path, i: nat, e: Entry, b: Owner, q: Path)
    requires Distinct(m) && |p| <= 3 && Where(m, o, p).Some?
    requires !(b == o && Extends(p + [i], q))
    ensures Where(m.(mem := Put(m.mem, Where(m, o, p).value, i, e)), b, q) == Where(m, b, q)
  {
    var t := Where(m, o, p).value;
    if InTree(m, b, q) {
      if Reads(m.mem, RootOf(m, b), q, t, i) {
        ReadsOwn(m, o, p, i, b, q);
      } else {
        PutFrame(m.mem, RootOf(m, b), q, t, i, e);
      }
    }
  }

  lemma VisitsNode(m: Machine, f: nat, b: Owner, q: Path)
    requires InTree(m, b, q) && Visits(m.mem, RootOf(m, b), q, f)
    ensures IsNode(m, f)
  {
    var k := VisitsPrefix(m.mem, RootOf(m, b), q, f);
    assert Where(m, b, q[..k]) == Some(f);
  }

  /** Overwriting a frame that is no node moves nothing. */
  lemma WhereFresh(m: Machine, f: nat, table: Table, b: Owner, q: Path)
    requires f < |m.mem| && !IsNode(m, f)
    ensures Where(m.(mem := m.mem[f := table]), b, q) == Where(m, b, q)
  {
    if InTree(m, b, q) {
      if Visits(m.mem, RootOf(m, b), q, f) {
        VisitsNode(m, f, b, q);
      } else {
        TableFrame(m.mem, RootOf(m, b), q, f, table);
      }
    }
  }

  lemma WhereSnoc(m: Machine, o: Owner, p: Path, i: nat)
    requires InTree(m, o, p + [i])
    ensures InTree(m, o, p)
    ensures Where(m, o, p + [i]) ==
            if Where(m, o, p).Some? && Links(At(m.mem, Where(m, o, p).value, i))
            then Some(At(m.mem, Where(m, o, p).value, i).frame) else None
  {
    assert forall k | 0 <= k < |p| :: (p + [i])[k] == p[k];
    LocateSnoc(m.mem, RootOf(m, o), p, i);
  }

  /** A located node has a located parent. */
  lemma WhereParent(m: Machine, o: Owner, p: Path)
    requires p != [] && Where(m, o, p).Some?
    ensures Where(m, o, p[..|p| - 1]).Some?
    ensures Links(At(m.mem, Where(m, o, p[..|p| - 1]).value, p[|p| - 1]))
    ensures Where(m, o, p) == Some(At(m.mem, Where(m, o, p[..|p| - 1]).value, p[|p| - 1]).frame)
  {
    var q := p[..|p| - 1];
    assert q + [p[|p| - 1]] == p;
    WhereSnoc(m, o, q, p[|p| - 1]);
  }

  lemma WhereSomePrefix(m: Machine, o: Owner, p: Path, q: Path)
    requires Extends(p, q) && Where(m, o, q).Some?
    ensures Where(m, o, p).Some?
    decreases |q|
  {
    if |q| == |p| {
      assert q == p;
    } else {
      WhereParent(m, o, q);
      assert q[..|q| - 1][..|p|] == p;
      WhereSomePrefix(m, o, p, q[..|q| - 1]);
    }
  }

  lemma NoEntryBelow(m: Machine, o: Owner, r: Path, q: Path)
    requires Where(m, o, r).None? && |r| < |q| && Extends(r, q)
    ensures EntryAt(m, o, q) == None
  {
    var s := q[..|q| - 1];
    if Where(m, o, s).Some? {
      assert s[..|r|] == r;
      WhereSomePrefix(m, o, r, s);
    }
  }
}
