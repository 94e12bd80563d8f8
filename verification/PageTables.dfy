/** Four-level page tables as values: physical memory is a sequence of frames
    of 512 entries, a node of a tree is named by the path of indices that leads
    to it from the root. */
module PageTables {
  import opened Wrappers

  const ENTRIES: nat := 512

  /** A 64-bit table entry. `large` is bit 7 (a 1 GiB or 2 MiB page). */
  datatype Entry = Entry(frame: nat, present: bool, write: bool, user: bool, large: bool, nx: bool)

  const EMPTY := Entry(0, false, false, false, false, false)

  type Table = seq<Entry>
  type Memory = seq<Table>
  type Path = seq<nat>

  function EmptyTable(): (t: Table)
    ensures |t| == ENTRIES && forall i | 0 <= i < ENTRIES :: t[i] == EMPTY
  {
    seq(ENTRIES, i => EMPTY)
  }

  /** Every frame holds 512 entries. */
  ghost predicate Shaped(mem: Memory) {
    forall f | 0 <= f < |mem| :: |mem[f]| == ENTRIES
  }

  /** Entry `i` of the table in frame `t`; anything outside memory reads as empty. */
  function At(mem: Memory, t: nat, i: nat): Entry {
    if t < |mem| && i < |mem[t]| then mem[t][i] else EMPTY
  }

  function Put(mem: Memory, t: nat, i: nat, e: Entry): Memory {
    if t < |mem| && i < |mem[t]| then mem[t := mem[t][i := e]] else mem
  }

  /** An entry the hardware follows to a table or, at the last level, to a page. */
  predicate Links(e: Entry) {
    e.present && !e.large
  }

  /** The frame reached from table `t` along `path`. */
  function Locate(mem: Memory, t: nat, path: Path): Option<nat>
    decreases |path|
  {
    if path == [] then Some(t)
    else
      var e := At(mem, t, path[0]);
      if Links(e) then Locate(mem, e.frame, path[1..]) else None
  }

  /** Following `path` from `t` consults entry `i` of table `u`. */
  predicate Reads(mem: Memory, t: nat, path: Path, u: nat, i: nat)
    decreases |path|
  {
    path != [] &&
    ((t == u && path[0] == i) ||
     (Links(At(mem, t, path[0])) && Reads(mem, At(mem, t, path[0]).frame, path[1..], u, i)))
  }

  /** Following `path` from `t` consults some entry of table `u`. */
  predicate Visits(mem: Memory, t: nat, path: Path, u: nat)
    decreases |path|
  {
    path != [] &&
    (t == u ||
     (Links(At(mem, t, path[0])) && Visits(mem, At(mem, t, path[0]).frame, path[1..], u)))
  }

  lemma {:induction false} LocateConcat(mem: Memory, t: nat, p: Path, q: Path)
    ensures Locate(mem, t, p + q) ==
            if Locate(mem, t, p).Some? then Locate(mem, Locate(mem, t, p).value, q) else None
    decreases |p|
  {
    if p == [] {
      assert p + q == q;
    } else {
      assert (p + q)[1..] == p[1..] + q;
      var e := At(mem, t, p[0]);
      if Links(e) {
        LocateConcat(mem, e.frame, p[1..], q);
      }
    }
  }

  lemma {:induction false} LocateSnoc(mem: Memory, t: nat, p: Path, i: nat)
    ensures Locate(mem, t, p + [i]) ==
            if Locate(mem, t, p).Some? && Links(At(mem, Locate(mem, t, p).value, i))
            then Some(At(mem, Locate(mem, t, p).value, i).frame) else None
  {
    LocateConcat(mem, t, p, [i]);
    if Locate(mem, t, p).Some? {
      var u := Locate(mem, t, p).value;
      var e := At(mem, u, i);
      assert [i][1..] == [];
      if Links(e) {
        assert Locate(mem, u, [i]) == Locate(mem, e.frame, []);
      }
    }
  }

  /** A read of (u, i) is a proper prefix that is located at u and continues with i. */
  lemma {:induction false} ReadsPrefix(mem: Memory, t: nat, path: Path, u: nat, i: nat) returns (k: nat)
    requires Reads(mem, t, path, u, i)
    ensures k < |path| && path[k] == i && Locate(mem, t, path[..k]) == Some(u)
    decreases |path|
  {
    if t == u && path[0] == i {
      k := 0;
      assert path[..0] == [];
    } else {
      var e := At(mem, t, path[0]);
      var j := ReadsPrefix(mem, e.frame, path[1..], u, i);
      k := j + 1;
      assert path[..k][1..] == path[1..][..j];
    }
  }

  lemma {:induction false} VisitsPrefix(mem: Memory, t: nat, path: Path, u: nat) returns (k: nat)
    requires Visits(mem, t, path, u)
    ensures k < |path| && Locate(mem, t, path[..k]) == Some(u)
    decreases |path|
  {
    if t == u {
      k := 0;
      assert path[..0] == [];
    } else {
      var e := At(mem, t, path[0]);
      var j := VisitsPrefix(mem, e.frame, path[1..], u);
      k := j + 1;
      assert path[..k][1..] == path[1..][..j];
    }
  }

  /** Writing an entry a path does not consult leaves what it reaches alone. */
  lemma {:induction false} PutFrame(mem: Memory, t: nat, path: Path, u: nat, i: nat, e: Entry)
    requires !Reads(mem, t, path, u, i)
    ensures Locate(Put(mem, u, i, e), t, path) == Locate(mem, t, path)
    ensures !Reads(Put(mem, u, i, e), t, path, u, i)
    decreases |path|
  {
    if path != [] {
      assert At(Put(mem, u, i, e), t, path[0]) == At(mem, t, path[0]);
      var c := At(mem, t, path[0]);
      if Links(c) {
        PutFrame(mem, c.frame, path[1..], u, i, e);
      }
    }
  }

  /** Replacing a whole table that a path does not visit leaves what it reaches alone. */
  lemma {:induction false} TableFrame(mem: Memory, t: nat, path: Path, u: nat, table: Table)
    requires u < |mem| && !Visits(mem, t, path, u)
    ensures Locate(mem[u := table], t, path) == Locate(mem, t, path)
    ensures !Visits(mem[u := table], t, path, u)
    decreases |path|
  {
    if path != [] {
      assert At(mem[u := table], t, path[0]) == At(mem, t, path[0]);
      var c := At(mem, t, path[0]);
      if Links(c) {
        TableFrame(mem, c.frame, path[1..], u, table);
      }
    }
  }

  /** Rewriting a table in entries a path does not consult leaves what it reaches alone. */
  lemma {:induction false} RewriteFrame(mem: Memory, t: nat, path: Path, u: nat, table: Table)
    requires u < |mem| && |table| == |mem[u]|
    requires forall i | 0 <= i < |table| && Reads(mem, t, path, u, i) :: table[i] == mem[u][i]
    ensures Locate(mem[u := table], t, path) == Locate(mem, t, path)
    decreases |path|
  {
    if path != [] {
      if t == u && path[0] < |table| { assert Reads(mem, t, path, u, path[0]); }
      assert At(mem[u := table], t, path[0]) == At(mem, t, path[0]);
      var c := At(mem, t, path[0]);
      if Links(c) {
        RewriteFrame(mem, c.frame, path[1..], u, table);
      }
    }
  }

  /** What is reachable in at most `depth` links, computed level by level. */
  ghost function Reach(mem: Memory, t: nat, depth: nat): set<nat>
    decreases depth, 1
  {
    if depth == 0 then {t}
    else {t} + set i, f | 0 <= i < ENTRIES && f in ReachEntry(mem, t, i, depth) :: f
  }

  /** What is reachable in at most `depth` links, the first of them entry `i`. */
  ghost function ReachEntry(mem: Memory, t: nat, i: nat, depth: nat): set<nat>
    requires depth > 0
    decreases depth, 0
  {
    var e := At(mem, t, i);
    if Links(e) then Reach(mem, e.frame, depth - 1) else {}
  }

  predicate Indices(path: Path) {
    forall k | 0 <= k < |path| :: path[k] < ENTRIES
  }

  /** The level-by-level frame set is the set of frames some path locates. */
  lemma {:induction false} ReachIsLocated(mem: Memory, t: nat, depth: nat, f: nat)
    ensures f in Reach(mem, t, depth) <==>
            exists p: Path :: |p| <= depth && Indices(p) && Locate(mem, t, p) == Some(f)
  {
    if f in Reach(mem, t, depth) {
      var p := PathTo(mem, t, depth, f);
    }
    if exists p: Path :: |p| <= depth && Indices(p) && Locate(mem, t, p) == Some(f) {
      var p: Path :| |p| <= depth && Indices(p) && Locate(mem, t, p) == Some(f);
      LocatedIsReached(mem, t, depth, p);
    }
  }

  lemma {:induction false} PathTo(mem: Memory, t: nat, depth: nat, f: nat) returns (p: Path)
    requires f in Reach(mem, t, depth)
    ensures |p| <= depth && Indices(p) && Locate(mem, t, p) == Some(f)
    decreases depth
  {
    if f == t {
      p := [];
    } else {
      var i :| 0 <= i < ENTRIES && f in ReachEntry(mem, t, i, depth);
      var q := PathTo(mem, At(mem, t, i).frame, depth - 1, f);
      p := [i] + q;
      assert p[1..] == q;
    }
  }

  lemma {:induction false} LocatedIsReached(mem: Memory, t: nat, depth: nat, p: Path)
    requires |p| <= depth && Indices(p) && Locate(mem, t, p).Some?
    ensures Locate(mem, t, p).value in Reach(mem, t, depth)
    decreases |p|
  {
    if p != [] {
      var e := At(mem, t, p[0]);
      LocatedIsReached(mem, e.frame, depth - 1, p[1..]);
      assert Locate(mem, t, p).value in ReachEntry(mem, t, p[0], depth);
    }
  }
}
