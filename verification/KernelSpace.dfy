/** The kernel's own mappings: map_page, unmap_page and translate, including the
    large pages that translate honours, and the kernel half of user spaces. */
module KernelSpace {
  import opened Wrappers
  import opened PageTables
  import opened AddressSpaces
  import opened SpaceEdits
  import opened SpaceSteps

  const PAGES_1G: nat := 0x4_0000                   // 4 KiB pages in a 1 GiB page
  const PAGES_2M: nat := 0x200                      // 4 KiB pages in a 2 MiB page

  /** The frame a page resolves to from table `t`: a 1 GiB entry stands with three
      indices left, a 2 MiB entry with two. */
  function Resolve(mem: Memory, t: nat, path: Path, page: nat): Option<nat>
    decreases |path|
  {
    if path == [] then Some(t)
    else
      var e := At(mem, t, path[0]);
      if !e.present then None
      else if |path| == 3 && e.large then Some(e.frame - e.frame % PAGES_1G + page % PAGES_1G)
      else if |path| == 2 && e.large then Some(e.frame - e.frame % PAGES_2M + page % PAGES_2M)
      else Resolve(mem, e.frame, path[1..], page)
  }

  /** translate: the page's physical address, 0 when it has none. */
  function Translate(m: Machine, virt: nat): nat {
    var f := Resolve(m.mem, m.kernel, PathOf(virt), virt / PAGE);
    if f.Some? then f.value * PAGE else 0
  }

  /** The NX bit of a kernel mapping is always cleared. */
  function KernelLeaf(phys: nat, flags: Flags): Entry {
    Entry(phys / PAGE % FRAME_MASK, true, flags.write, flags.user, false, false)
  }

  function MapPage(m: Machine, virt: nat, phys: nat, flags: Flags): (Machine, bool) {
    var (m1, pt) := Grow(m, m.kernel, PathOf(virt)[..3], false, false);
    if pt.None? then (m1, false)
    else (m1.(mem := Put(m1.mem, pt.value, PathOf(virt)[3], KernelLeaf(phys, flags))), true)
  }

  function UnmapPage(m: Machine, virt: nat): (Machine, bool) {
    var pt := WalkPresent(m.mem, m.kernel, PathOf(virt)[..3]);
    if pt.None? || !At(m.mem, pt.value, PathOf(virt)[3]).present then (m, false)
    else (m.(mem := Put(m.mem, pt.value, PathOf(virt)[3], EMPTY)), true)
  }

  /** The walk of unmap_page looks at the PRESENT bit only. */
  function WalkPresent(mem: Memory, t: nat, path: Path): Option<nat>
    decreases |path|
  {
    if path == [] then Some(t)
    else
      var e := At(mem, t, path[0]);
      if !e.present then None else WalkPresent(mem, e.frame, path[1..])
  }

  ghost predicate SameTranslation(m: Machine, m': Machine, virt: nat) {
    Resolve(m'.mem, m'.kernel, PathOf(virt), virt / PAGE) == Resolve(m.mem, m.kernel, PathOf(virt), virt / PAGE)
  }

  /** Two addresses share all four indices exactly when they lie in the same page
      of the 48-bit space. */
  lemma PathIsPage(v: nat, w: nat)
    ensures PathOf(v) == PathOf(w) <==> v / PAGE % 0x10_0000_0000 == w / PAGE % 0x10_0000_0000
  {
    PathDigits(v);
    PathDigits(w);
    if PathOf(v) == PathOf(w) {
      assert PathOf(v)[0] == PathOf(w)[0] && PathOf(v)[1] == PathOf(w)[1];
      assert PathOf(v)[2] == PathOf(w)[2] && PathOf(v)[3] == PathOf(w)[3];
    }
  }

  lemma PathDigits(v: nat)
    ensures var p := PathOf(v);
            v / PAGE % 0x10_0000_0000 == ((p[0] * ENTRIES + p[1]) * ENTRIES + p[2]) * ENTRIES + p[3]
  {
    var x := v / PAGE;
    assert v / 0x20_0000 == x / 512;
    assert v / 0x4000_0000 == x / 0x4_0000;
    assert v / SLOT_SIZE == x / 0x800_0000;
    LowDigit(x, 0x800_0000);
    LowDigit(x / 512, 0x4_0000);
    LowDigit(x / 512 / 512, 512);
    assert x / 512 / 512 == x / 0x4_0000;
    assert x / 512 / 512 / 512 == x / 0x800_0000;
  }

  lemma LowDigit(x: nat, n: nat)
    requires n > 0
    ensures x % (n * 512) == x / 512 % n * 512 + x % 512
  {
    var q := x / 512 / n;
    assert x == x / 512 * 512 + x % 512;
    assert x / 512 == q * n + x / 512 % n;
    assert x == q * (n * 512) + (x / 512 % n * 512 + x % 512);
    assert x / 512 % n <= n - 1;
    assert x / 512 % n * 512 + x % 512 < n * 512;
    QuotientIs(x, n * 512, q, x / 512 % n * 512 + x % 512);
  }

  /** The entry read at step `k` of a path, as seen from the node there. */
  lemma ReadIsEntry(m: Machine, p: Path, k: nat)
    requires k < |p| <= 4 && Indices(p) && Where(m, Kernel, p[..k]).Some?
    ensures EntryAt(m, Kernel, p[..k + 1]) ==
            var e := At(m.mem, Where(m, Kernel, p[..k]).value, p[k]); if e.present then Some(e) else None
    ensures k + 1 <= |p| && InTree(m, Kernel, p[..k + 1])
    ensures var e := At(m.mem, Where(m, Kernel, p[..k]).value, p[k]);
            Where(m, Kernel, p[..k + 1]) == if Links(e) then Some(e.frame) else None
  {
    var q := p[..k + 1];
    assert q[..|q| - 1] == p[..k] && q[|q| - 1] == p[k];
    assert q == p[..k] + [p[k]];
    WhereSnoc(m, Kernel, p[..k], p[k]);
  }

  /** If every entry on the way is the same, so is the translation. */
  lemma {:induction false} ResolveSame(m: Machine, m': Machine, p: Path, k: nat, page: nat)
    requires k <= |p| == 4 && Indices(p) && Slots(m)
    requires Where(m, Kernel, p[..k]).Some? && Where(m', Kernel, p[..k]) == Where(m, Kernel, p[..k])
    requires m'.kernel == m.kernel
    requires forall j | k < j <= 4 :: EntryAt(m', Kernel, p[..j]) == EntryAt(m, Kernel, p[..j])
    ensures var t := Where(m, Kernel, p[..k]).value;
            Resolve(m'.mem, t, p[k..], page) == Resolve(m.mem, t, p[k..], page)
    decreases 4 - k
  {
    if k < 4 {
      ReadIsEntry(m, p, k);
      ReadIsEntry(m', p, k);
      assert p[k..][1..] == p[k + 1..] && p[k..][0] == p[k];
      if k == 0 { assert p[..0] == []; }
      if Where(m, Kernel, p[..k + 1]).Some? {
        ResolveSame(m, m', p, k + 1, page);
      }
    }
  }

  /** Past an entry that was missing before the tree grew there is nothing to find. */
  lemma {:induction false} ResolveNew(m: Machine, m': Machine, r: Path, p: Path, k: nat, page: nat)
    requires Grown(m, m', Kernel, r) && k <= 3 && |p| == 4 && Indices(p) && Slots(m')
    requires Where(m, Kernel, p[..k]).None? && Where(m', Kernel, p[..k]).Some?
    requires forall j | k < j <= 3 && EntryAt(m', Kernel, p[..j]).Some? :: !EntryAt(m', Kernel, p[..j]).value.large
    ensures Resolve(m'.mem, Where(m', Kernel, p[..k]).value, p[k..], page) == None
    decreases 4 - k
  {
    ReadIsEntry(m', p, k);
    assert p[k..][1..] == p[k + 1..] && p[k..][0] == p[k];
    var e := At(m'.mem, Where(m', Kernel, p[..k]).value, p[k]);
    if k == 3 {
      assert p[..4] == p && p[..|p| - 1] == p[..3];
      assert EntryAt(m', Kernel, p) == EntryAt(m, Kernel, p) == None;
    } else if e.present {
      assert Extends(p[..k], p[..k + 1]) by { assert p[..k + 1][..k] == p[..k]; }
      if Where(m, Kernel, p[..k + 1]).Some? {
        WhereSomePrefix(m, Kernel, p[..k], p[..k + 1]);
      } else {
        ResolveNew(m, m', r, p, k + 1, page);
      }
    }
  }

  /** Growing the kernel tree changes no translation. */
  lemma {:induction false} ResolveGrown(m: Machine, m': Machine, r: Path, p: Path, k: nat, page: nat)
    requires Grown(m, m', Kernel, r) && k <= |p| == 4 && Indices(p) && Slots(m) && Slots(m')
    requires Where(m, Kernel, p[..k]).Some?
    ensures Where(m', Kernel, p[..k]) == Where(m, Kernel, p[..k])
    ensures var t := Where(m, Kernel, p[..k]).value;
            Resolve(m'.mem, t, p[k..], page) == Resolve(m.mem, t, p[k..], page)
    decreases 4 - k
  {
    assert Where(m', Kernel, p[..k]) == Where(m, Kernel, p[..k]);
    if k < 4 {
      ReadIsEntry(m, p, k);
      ReadIsEntry(m', p, k);
      assert p[k..][1..] == p[k + 1..] && p[k..][0] == p[k];
      if k == 0 { assert p[..0] == []; }
      if k == 3 {
        assert p[..4] == p;
      } else {
        assert NewOrSame(EntryAt(m, Kernel, p[..k + 1]), EntryAt(m', Kernel, p[..k + 1]));
      }
      if Where(m, Kernel, p[..k + 1]).Some? {
        ResolveGrown(m, m', r, p, k + 1, page);
      } else if Where(m', Kernel, p[..k + 1]).Some? {
        BelowNone(m, p, k + 1);
        assert forall j | k + 1 < j <= 3 :: NewOrSame(EntryAt(m, Kernel, p[..j]), EntryAt(m', Kernel, p[..j]));
        ResolveNew(m, m', r, p, k + 1, page);
      }
    }
  }

  /** Below a node that is not there no entry is there. */
  lemma BelowNone(m: Machine, p: Path, k: nat)
    requires k <= |p| == 4 && Where(m, Kernel, p[..k]).None?
    ensures forall j | k < j <= 4 :: EntryAt(m, Kernel, p[..j]) == None
  {
    forall j | k < j <= 4 ensures EntryAt(m, Kernel, p[..j]) == None {
      assert p[..j][..k] == p[..k];
      NoEntryBelow(m, Kernel, p[..k], p[..j]);
    }
  }

  /** map_page on a way free of large pages: on success the page translates to the
      new frame and every other page as before, on failure nothing changes. */
  lemma MapPageCorrect(m: Machine, reserved: set<nat>, virt: nat, phys: nat, flags: Flags)
    requires Inv(m, reserved) && Clear(m.mem, m.kernel, PathOf(virt)[..3])
    ensures var (m', ok) := MapPage(m, virt, phys, flags);
            && Inv(m', reserved)
            && m'.spaces == m.spaces && m'.kernel == m.kernel && m'.active == m.active && m'.held == m.held
            && (!ok ==> Exhausted(m'.used) && forall v: nat :: SameTranslation(m, m', v))
            && (ok ==> forall v: nat ::
                  if PathOf(v) == PathOf(virt)
                  then Resolve(m'.mem, m.kernel, PathOf(v), v / PAGE) == Some(phys / PAGE % FRAME_MASK)
                  else SameTranslation(m, m', v))
            && (ok ==> SamePagesBut(m, m', Kernel, PathOf(virt)) &&
                       EntryAt(m', Kernel, PathOf(virt)) == Some(KernelLeaf(phys, flags)))
            && (ok ==> var e := EntryAt(m', Kernel, PathOf(virt)).value;
                       e.frame == phys / PAGE % FRAME_MASK && e.write == flags.write && e.user == flags.user && !e.nx && !e.large)
            && (!ok ==> SamePages(m, m'))
            && (forall q | 0 < |q| <= 3 :: NewOrSame(EntryAt(m, Kernel, q), EntryAt(m', Kernel, q)))
  {
    hide Distinct, NodesUsed, Conserved, UserRights;
    var p := PathOf(virt)[..3];
    var i := PathOf(virt)[3];
    assert PathOf(virt) == p + [i] && [] + p == p;
    assert Where(m, Kernel, []) == Some(m.kernel);
    GrowInv(m, reserved, Kernel, [], p, false);
    var (m1, pt) := Grow(m, m.kernel, p, false, false);
    forall v: nat ensures SameTranslation(m, m1, v) { GrownTranslates(m, m1, p, v); }
    if pt.Some? {
      var e := KernelLeaf(phys, flags);
      KernelLeafInv(m1, reserved, p, i, e);
      var m2 := Write(m1, Kernel, p, i, e);
      forall v: nat ensures
        if PathOf(v) == p + [i] then Resolve(m2.mem, m.kernel, PathOf(v), v / PAGE) == Some(e.frame)
        else SameTranslation(m, m2, v)
      {
        if PathOf(v) == p + [i] {
          LeafTranslates(m2, p + [i], 0, v / PAGE);
          assert PathOf(v)[..0] == [] && PathOf(v)[0..] == PathOf(v);
        } else {
          assert SameTranslation(m, m1, v);
          OnlyLeafTranslates(m1, m2, p + [i], v);
        }
      }
    }
  }

  lemma GrownTranslates(m: Machine, m': Machine, r: Path, v: nat)
    requires Grown(m, m', Kernel, r) && Slots(m) && Slots(m')
    ensures SameTranslation(m, m', v)
  {
    assert PathOf(v)[..0] == [] && PathOf(v)[0..] == PathOf(v);
    assert Where(m, Kernel, []) == Some(m.kernel);
    ResolveGrown(m, m', r, PathOf(v), 0, v / PAGE);
  }

  /** Changing one last-level kernel entry changes only that page's translation. */
  lemma OnlyLeafTranslates(m: Machine, m': Machine, r: Path, v: nat)
    requires OnlyAt(m, m', Kernel, r) && |r| == 4 && Slots(m) && m'.kernel == m.kernel && PathOf(v) != r
    ensures SameTranslation(m, m', v)
  {
    var p := PathOf(v);
    assert p[..0] == [] && p[0..] == p && p[..4] == p;
    assert Where(m, Kernel, []) == Some(m.kernel);
    ResolveSame(m, m', p, 0, v / PAGE);
  }

  /** A page with a present last-level entry translates to that entry's frame. */
  lemma {:induction false} LeafTranslates(m: Machine, p: Path, k: nat, page: nat)
    requires k <= |p| == 4 && Indices(p) && EntryAt(m, Kernel, p).Some? && !EntryAt(m, Kernel, p).value.large
    ensures Where(m, Kernel, p[..k]).Some?
    ensures Resolve(m.mem, Where(m, Kernel, p[..k]).value, p[k..], page) == Some(EntryAt(m, Kernel, p).value.frame)
    decreases 4 - k
  {
    if k == 4 {
      assert p[..4] == p && p[..|p| - 1] + [p[3]] == p;
      WhereSnoc(m, Kernel, p[..3], p[3]);
    } else {
      LeafTranslates(m, p, k + 1, page);
      assert p[..k + 1][..k] == p[..k];
      WhereSomePrefix(m, Kernel, p[..k], p[..k + 1]);
      ReadIsEntry(m, p, k);
      assert p[k..][1..] == p[k + 1..] && p[k..][0] == p[k];
    }
  }

  /** On a clear way the PRESENT-only walk finds the node. */
  lemma {:induction false} WalkIsWhere(m: Machine, p: Path, path: Path)
    requires |p| + |path| <= 3 && Where(m, Kernel, p).Some? && Indices(p + path)
    requires Clear(m.mem, Where(m, Kernel, p).value, path)
    ensures WalkPresent(m.mem, Where(m, Kernel, p).value, path) == Where(m, Kernel, p + path)
    decreases |path|
  {
    if path == [] {
      assert p + path == p;
    } else {
      var r := p + [path[0]];
      assert r + path[1..] == p + path;
      assert forall k | 0 <= k < |r| :: r[k] == (p + path)[k];
      WhereSnoc(m, Kernel, p, path[0]);
      if Where(m, Kernel, r).Some? {
        WalkIsWhere(m, r, path[1..]);
      } else if Where(m, Kernel, p + path).Some? {
        assert Extends(r, p + path);
        WhereSomePrefix(m, Kernel, r, p + path);
      }
    }
  }

  /** unmap_page removes exactly the one translation, and reports whether there was one. */
  lemma UnmapPageCorrect(m: Machine, reserved: set<nat>, virt: nat)
    requires Inv(m, reserved) && Clear(m.mem, m.kernel, PathOf(virt)[..3])
    ensures var (m', ok) := UnmapPage(m, virt);
            && Inv(m', reserved)
            && m' == m.(mem := m'.mem)
            && (ok <==> EntryAt(m, Kernel, PathOf(virt)).Some?)
            && (!ok ==> m' == m)
            && (forall v: nat :: if PathOf(v) == PathOf(virt)
                                 then ok ==> Resolve(m'.mem, m.kernel, PathOf(v), v / PAGE) == None
                                 else SameTranslation(m, m', v))
            && SamePagesBut(m, m', Kernel, PathOf(virt))
            && EntryAt(m', Kernel, PathOf(virt)) == None
            && (forall q | 0 < |q| <= 3 :: EntryAt(m', Kernel, q) == EntryAt(m, Kernel, q))
  {
    hide Distinct, NodesUsed, Conserved, UserRights;
    var p := PathOf(virt)[..3];
    var i := PathOf(virt)[3];
    assert PathOf(virt) == p + [i] && [] + p == p;
    assert Where(m, Kernel, []) == Some(m.kernel);
    WalkIsWhere(m, [], p);
    var pt := Where(m, Kernel, p);
    if pt.Some? && At(m.mem, pt.value, i).present {
      KernelLeafInv(m, reserved, p, i, EMPTY);
      var m' := Write(m, Kernel, p, i, EMPTY);
      forall v: nat ensures
        if PathOf(v) == p + [i] then Resolve(m'.mem, m.kernel, PathOf(v), v / PAGE) == None
        else SameTranslation(m, m', v)
      {
        if PathOf(v) == p + [i] {
          assert p[..0] == [] && p[0..] == p;
          MissingTranslates(m', p + [i], 0, v / PAGE);
          assert (p + [i])[..0] == [] && (p + [i])[0..] == p + [i];
        } else {
          OnlyLeafTranslates(m, m', p + [i], v);
        }
      }
    }
  }

  /** A page whose last-level table is there but whose entry is not has no translation. */
  lemma {:induction false} MissingTranslates(m: Machine, p: Path, k: nat, page: nat)
    requires k <= 3 && |p| == 4 && Indices(p) && Where(m, Kernel, p[..3]).Some? && EntryAt(m, Kernel, p) == None
    ensures Where(m, Kernel, p[..k]).Some?
    ensures Resolve(m.mem, Where(m, Kernel, p[..k]).value, p[k..], page) == None
    decreases 3 - k
  {
    assert p[..3][..k] == p[..k];
    WhereSomePrefix(m, Kernel, p[..k], p[..3]);
    ReadIsEntry(m, p, k);
    assert p[k..][1..] == p[k + 1..] && p[k..][0] == p[k];
    if k == 3 {
      assert p[..4] == p;
    } else {
      MissingTranslates(m, p, k + 1, page);
    }
  }

  /** A way is clear exactly when none of the entries on it is large. */
  lemma {:induction false} ClearIsEntries(m: Machine, p: Path, k: nat)
    requires k <= |p| <= 3 && Indices(p) && Where(m, Kernel, p[..k]).Some?
    ensures Clear(m.mem, Where(m, Kernel, p[..k]).value, p[k..]) <==>
            forall j | k < j <= |p| && EntryAt(m, Kernel, p[..j]).Some? :: !EntryAt(m, Kernel, p[..j]).value.large
    decreases |p| - k
  {
    if k < |p| {
      ReadIsEntry(m, p, k);
      assert p[k..][1..] == p[k + 1..] && p[k..][0] == p[k];
      var e := At(m.mem, Where(m, Kernel, p[..k]).value, p[k]);
      if Links(e) {
        ClearIsEntries(m, p, k + 1);
      } else if !e.present {
        forall j | k + 1 < j <= |p| ensures EntryAt(m, Kernel, p[..j]) == None {
          assert p[..j][..k + 1] == p[..k + 1];
          NoEntryBelow(m, Kernel, p[..k + 1], p[..j]);
        }
      } else {
        assert EntryAt(m, Kernel, p[..k + 1]) == Some(e);
      }
    }
  }

  /** map_page ignores the large-page bit that translate honours: with a 2 MiB page on the way it reports success,
      writes into the data page, and leaves the old translation. */
  lemma MapOverLargePage(m: Machine, virt: nat, phys: nat, flags: Flags)
    requires Shaped(m.mem) && Distinct(m) && Slots(m) && Where(m, Kernel, PathOf(virt)[..2]).Some?
    requires var e := At(m.mem, Where(m, Kernel, PathOf(virt)[..2]).value, PathOf(virt)[2]);
             e.present && e.large && !IsNode(m, e.frame)
    ensures var e := At(m.mem, Where(m, Kernel, PathOf(virt)[..2]).value, PathOf(virt)[2]);
            var was := e.frame - e.frame % PAGES_2M + virt / PAGE % PAGES_2M;
            var (m', ok) := MapPage(m, virt, phys, flags);
            && ok
            && m'.mem == Put(m.mem, e.frame, PathOf(virt)[3], KernelLeaf(phys, flags))
            && Resolve(m.mem, m.kernel, PathOf(virt), virt / PAGE) == Some(was)
            && Resolve(m'.mem, m.kernel, PathOf(virt), virt / PAGE) == Some(was)
  {
    hide PathOf, Distinct, IsNode, Shaped;
    var p := PathOf(virt);
    var page := virt / PAGE;
    assert p[..2][..1] == p[..1] && p[..2][..0] == [] && p[..0] == [] && p[..1][..0] == [];
    assert Where(m, Kernel, []) == Some(m.kernel);
    WhereSomePrefix(m, Kernel, p[..1], p[..2]);
    ReadIsEntry(m, p, 0);
    ReadIsEntry(m, p, 1);
    var pdpt := Where(m, Kernel, p[..1]).value;
    var pd := Where(m, Kernel, p[..2]).value;
    var e := At(m.mem, pd, p[2]);
    WalkThrough(m, p[0], p[1], p[2], m.kernel, pdpt, pd, e);
    assert p[..3] == [p[0], p[1], p[2]];
    ResolveLarge(m.mem, p, m.kernel, pdpt, pd, e, page);
    var m' := MapPage(m, virt, phys, flags).0;
    NodesApart(m, p, e.frame);
    ResolveLarge(m'.mem, p, m.kernel, pdpt, pd, e, page);
  }

  lemma NodesApart(m: Machine, p: Path, f: nat)
    requires !IsNode(m, f) && |p| == 4 && Where(m, Kernel, p[..1]).Some? && Where(m, Kernel, p[..2]).Some?
    ensures m.kernel != f && Where(m, Kernel, p[..1]).value != f && Where(m, Kernel, p[..2]).value != f
  {
    assert Where(m, Kernel, []) == Some(m.kernel);
    assert Owns(Kernel, []) && Owns(Kernel, p[..1]) && Owns(Kernel, p[..2]);
  }

  lemma WalkThrough(m: Machine, a: nat, b: nat, c: nat, root: nat, pdpt: nat, pd: nat, e: Entry)
    requires At(m.mem, root, a).present && At(m.mem, root, a).frame == pdpt
    requires At(m.mem, pdpt, b).present && At(m.mem, pdpt, b).frame == pd
    requires At(m.mem, pd, c) == e && e.present
    ensures Grow(m, root, [a, b, c], false, false) == (m, Some(e.frame))
  {
    assert [a, b, c][1..] == [b, c] && [b, c][1..] == [c] && [c][1..] == [];
    assert Grow(m, e.frame, [], false, false) == (m, Some(e.frame));
    assert Grow(m, pd, [c], false, false) == (m, Some(e.frame));
    assert Grow(m, pdpt, [b, c], false, false) == (m, Some(e.frame));
  }

  lemma ResolveLarge(mem: Memory, p: Path, root: nat, pdpt: nat, pd: nat, e: Entry, page: nat)
    requires |p| == 4
    requires At(mem, root, p[0]).present && At(mem, root, p[0]).frame == pdpt
    requires Links(At(mem, pdpt, p[1])) && At(mem, pdpt, p[1]).frame == pd
    requires At(mem, pd, p[2]) == e && e.present && e.large
    ensures Resolve(mem, root, p, page) == Some(e.frame - e.frame % PAGES_2M + page % PAGES_2M)
  {
    assert p[1..][0] == p[1] && p[1..][1..] == p[2..] && p[2..][0] == p[2];
    assert Resolve(mem, pd, p[2..], page) == Some(e.frame - e.frame % PAGES_2M + page % PAGES_2M);
    assert Resolve(mem, pdpt, p[1..], page) == Resolve(mem, pd, p[2..], page);
  }

  /** f is the frame of page number `page` in the aligned block of n frames around `base`. */
  predicate InFrames(f: nat, base: nat, n: nat, page: nat)
    requires n > 0
  {
    f / n == base / n && f % n == page % n
  }

  /** Inside a 1 GiB page the offset is kept. */
  lemma HugeTranslates(m: Machine, v: nat)
    requires Slots(m) && Where(m, Kernel, PathOf(v)[..1]).Some?
    requires var e := At(m.mem, Where(m, Kernel, PathOf(v)[..1]).value, PathOf(v)[1]); e.present && e.large
    ensures var e := At(m.mem, Where(m, Kernel, PathOf(v)[..1]).value, PathOf(v)[1]);
            var f := Resolve(m.mem, m.kernel, PathOf(v), v / PAGE);
            f.Some? && InFrames(f.value, e.frame, PAGES_1G, v / PAGE)
  {
    hide PathOf;
    var p, page := PathOf(v), v / PAGE;
    assert p[..0] == [] && Where(m, Kernel, []) == Some(m.kernel);
    ReadIsEntry(m, p, 0);
    assert p[1..][0] == p[1];
    var e := At(m.mem, Where(m, Kernel, p[..1]).value, p[1]);
    QuotientIs(e.frame - e.frame % PAGES_1G + page % PAGES_1G, PAGES_1G, e.frame / PAGES_1G, page % PAGES_1G);
  }

  /** Inside a 2 MiB page the offset is kept. */
  lemma LargeTranslates(m: Machine, v: nat)
    requires Slots(m) && Where(m, Kernel, PathOf(v)[..2]).Some?
    requires var e := At(m.mem, Where(m, Kernel, PathOf(v)[..2]).value, PathOf(v)[2]); e.present && e.large
    ensures var e := At(m.mem, Where(m, Kernel, PathOf(v)[..2]).value, PathOf(v)[2]);
            var f := Resolve(m.mem, m.kernel, PathOf(v), v / PAGE);
            f.Some? && InFrames(f.value, e.frame, PAGES_2M, v / PAGE)
  {
    hide PathOf, Resolve;
    var p, page := PathOf(v), v / PAGE;
    assert p[..0] == [] && Where(m, Kernel, []) == Some(m.kernel) && p[..2][..1] == p[..1];
    WhereSomePrefix(m, Kernel, p[..1], p[..2]);
    ReadIsEntry(m, p, 0);
    ReadIsEntry(m, p, 1);
    var e := At(m.mem, Where(m, Kernel, p[..2]).value, p[2]);
    ResolveLarge(m.mem, p, m.kernel, Where(m, Kernel, p[..1]).value, Where(m, Kernel, p[..2]).value, e, page);
    QuotientIs(e.frame - e.frame % PAGES_2M + page % PAGES_2M, PAGES_2M, e.frame / PAGES_2M, page % PAGES_2M);
  }

  /** While the kernel halves agree, an address of the kernel half means the same in
      the user space as in the kernel. */
  lemma KernelHalfShared(mem: Memory, kernel: nat, root: nat, virt: nat)
    requires PathOf(virt)[0] >= 256
    requires forall i: nat | 256 <= i < ENTRIES :: At(mem, root, i) == At(mem, kernel, i).(user := false)
    ensures Resolve(mem, root, PathOf(virt), virt / PAGE) == Resolve(mem, kernel, PathOf(virt), virt / PAGE)
  {
    hide PathOf;
  }
}
