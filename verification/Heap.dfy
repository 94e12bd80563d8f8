/** The kernel heap: a virtual address that only grows, one or more mapped pages per
    block, and a header that records how many. */
module Heap {
  import opened Wrappers
  import opened PageTables
  import opened AddressSpaces
  import opened SpaceEdits
  import opened SpaceSteps
  import opened SpaceLifetime
  import opened KernelSpace
  import opened Pmm
  import opened Vmm

  const HEAP_START: nat := 0xFFFF_9000_0000_0000
  const HEADER: nat := 16
  const WRITABLE := Flags(true, false, false)

  /** `blocks` maps the start of each live block to the page count in its header;
      `mapped` is the set of pages the heap has mapped and not unmapped, which also
      holds pages of requests that failed half way. */
  datatype State = State(m: Machine, current: nat, blocks: map<nat, nat>, mapped: set<nat>)

  /** Pages of a request, in 64-bit arithmetic. */
  function PagesFor(size: nat): nat {
    Wrap(Wrap(size + HEADER) + PAGE - 1) / PAGE
  }

  /** The pages hold header and payload exactly when the two additions do not wrap. A size whose sum wraps to no pages
      at all is a success with an empty block, which the next request overwrites; the source then writes the header
      to a page that is not mapped. */
  lemma PagesSuffice(size: nat)
    requires size < WORD64
    ensures PagesFor(size) * PAGE >= size + HEADER <==> size + HEADER + PAGE - 1 < WORD64
    ensures (PagesFor(size) - 1) * PAGE < size + HEADER
  {
  }

  /** The frame behind page number `v`. */
  function FrameOf(m: Machine, v: nat): Option<nat> {
    var e := EntryAt(m, Kernel, PathOf(v * PAGE));
    if e.Some? then Some(e.value.frame) else None
  }

  predicate InHeap(v: nat) {
    HEAP_START / PAGE <= v < WORD64 / PAGE
  }

  /** No large page lies on the way to any heap page. */
  ghost predicate HeapClear(m: Machine) {
    forall v: nat | InHeap(v) :: Clear(m.mem, m.kernel, PathOf(v * PAGE)[..3])
  }

  /** Heap pages in `pages` are mapped to frames the heap holds, each to its own. */
  ghost predicate Backed(m: Machine, pages: set<nat>) {
    && (forall v | v in pages :: InHeap(v) && FrameOf(m, v).Some? && FrameOf(m, v).value in m.held)
    && (forall v, w | v in pages && w in pages && v != w :: FrameOf(m, v) != FrameOf(m, w))
  }

  /** Heap pages are small ones, writable by the kernel alone. */
  ghost predicate SmallLeaves(m: Machine, pages: set<nat>) {
    forall v | v in pages ::
      EntryAt(m, Kernel, PathOf(v * PAGE)).Some? &&
      var e := EntryAt(m, Kernel, PathOf(v * PAGE)).value;
      !e.large && e.write && !e.user && !e.nx
  }

  ghost predicate MapInv(m: Machine, reserved: set<nat>, pages: set<nat>) {
    Inv(m, reserved) && |m.used| <= FRAME_MASK &&
    HeapClear(m) && Backed(m, pages) && SmallLeaves(m, pages)
  }

  predicate InBlock(h: State, b: nat, v: nat)
    requires b in h.blocks
  {
    b <= v * PAGE < b + h.blocks[b] * PAGE
  }

  ghost predicate HeapInv(h: State, reserved: set<nat>) {
    && MapInv(h.m, reserved, h.mapped)
    && h.current % PAGE == 0 && HEAP_START <= h.current <= WORD64
    && (forall v | v in h.mapped :: v * PAGE < h.current)
    && (forall b | b in h.blocks :: b % PAGE == 0 && HEAP_START <= b && b + h.blocks[b] * PAGE <= h.current)
    && (forall b, v: nat | b in h.blocks && InBlock(h, b, v) :: v in h.mapped)
    && (forall b, c | b in h.blocks && c in h.blocks && b != c ::
          b + h.blocks[b] * PAGE <= c || c + h.blocks[c] * PAGE <= b)
  }

  // ----- the two operations -----

  /** Take a frame and map it at the heap's end. */
  function AddPage(h: State): (State, bool) {
    var f := LowestFree(h.m.used);
    if f >= |h.m.used| then (h, false)
    else
      var (m2, ok) := MapPage(Take(h.m, f), h.current, f * PAGE, WRITABLE);
      if !ok then (h.(m := m2), false)
      else (h.(m := m2, current := h.current + PAGE, mapped := h.mapped + {h.current / PAGE}), true)
  }

  /** Map `n` more pages; stops at the first failure. */
  function MapMore(h: State, n: nat): (State, bool)
    decreases n
  {
    if n == 0 then (h, true)
    else
      var (h1, ok) := AddPage(h);
      if !ok then (h1, false) else MapMore(h1, n - 1)
  }

  /** kmalloc: 0 is the null pointer. */
  function Kmalloc(h: State, size: nat): (State, nat) {
    if size == 0 then (h, 0)
    else
      var (h', ok) := MapMore(h, PagesFor(size));
      if !ok then (h', 0)
      else (h'.(blocks := h'.blocks[h.current := PagesFor(size)]), h.current + HEADER)
  }

  /** Unmap and free `n` pages from page number `v` on. */
  function UnmapFrom(h: State, v: nat, n: nat): State
    decreases n
  {
    if n == 0 then h
    else
      var phys := Translate(h.m, v * PAGE);
      if phys == 0 then UnmapFrom(h, v + 1, n - 1)
      else
        var m1 := UnmapPage(h.m, v * PAGE).0;
        UnmapFrom(h.(m := m1.(used := FreeBit(m1.used, phys / PAGE), held := m1.held - {phys / PAGE}),
                     mapped := h.mapped - {v}), v + 1, n - 1)
  }

  function Kfree(h: State, ptr: nat): State {
    if ptr < HEADER || ptr - HEADER !in h.blocks then h
    else
      var b := ptr - HEADER;
      UnmapFrom(h, b / PAGE, h.blocks[b]).(blocks := h.blocks - {b})
  }

  // ----- heap pages have different paths -----

  lemma HeapPaths(v: nat, w: nat)
    requires InHeap(v) && InHeap(w) && v != w
    ensures PathOf(v * PAGE) != PathOf(w * PAGE)
  {
    PathIsPage(v * PAGE, w * PAGE);
    assert v * PAGE / PAGE == v && w * PAGE / PAGE == w;
    var d := 0x10_0000_0000;
    assert HEAP_START / PAGE / d == 0xFFFF;
    assert v / d == 0xFFFF && w / d == 0xFFFF;
  }

  // ----- one page more, one page less -----

  lemma ClearStays(m: Machine, m': Machine)
    requires HeapClear(m) && m'.kernel == m.kernel
    requires forall q | 0 < |q| <= 3 :: NewOrSame(EntryAt(m, Kernel, q), EntryAt(m', Kernel, q))
    ensures HeapClear(m')
  {
    forall v: nat | InHeap(v) ensures Clear(m'.mem, m'.kernel, PathOf(v * PAGE)[..3]) {
      var p := PathOf(v * PAGE)[..3];
      assert p[..0] == [] && p[0..] == p;
      assert Where(m, Kernel, []) == Some(m.kernel) && Where(m', Kernel, []) == Some(m.kernel);
      ClearIsEntries(m, p, 0);
      ClearIsEntries(m', p, 0);
      assert forall j | 0 < j <= 3 :: NewOrSame(EntryAt(m, Kernel, p[..j]), EntryAt(m', Kernel, p[..j]));
    }
  }

  /** Pages whose entries did not change stay backed. */
  lemma BackedStays(m: Machine, m': Machine, pages: set<nat>)
    requires Backed(m, pages) && SmallLeaves(m, pages)
    requires forall v | v in pages ::
               EntryAt(m', Kernel, PathOf(v * PAGE)) == EntryAt(m, Kernel, PathOf(v * PAGE)) &&
               FrameOf(m, v).value in m'.held
    ensures Backed(m', pages) && SmallLeaves(m', pages)
  {
    forall v | v in pages ensures FrameOf(m', v) == FrameOf(m, v) { }
  }

  /** Taking a frame and mapping it, in terms of kernel entries. */
  lemma TakeAndMap(m: Machine, reserved: set<nat>, v: nat, f: nat)
    requires Inv(m, reserved) && HeapClear(m) && InHeap(v) && f == LowestFree(m.used) < |m.used|
    ensures var (m', ok) := MapPage(Take(m, f), v * PAGE, f * PAGE, WRITABLE);
            && Inv(m', reserved) && m'.kernel == m.kernel && m'.held == m.held + {f}
            && |m'.used| == |m.used|
            && (forall q | 0 < |q| <= 3 :: NewOrSame(EntryAt(m, Kernel, q), EntryAt(m', Kernel, q)))
            && (forall q | |q| == 4 && q != PathOf(v * PAGE) :: EntryAt(m', Kernel, q) == EntryAt(m, Kernel, q))
            && (ok ==> EntryAt(m', Kernel, PathOf(v * PAGE)) == Some(KernelLeaf(f * PAGE, WRITABLE)))
            && (!ok ==> Exhausted(m'.used))
  {
    hide Inv, PathOf, LowestFree, EntryAt, Resolve, SameTranslation, Grow, Exhausted;
    var m1 := Take(m, f);
    TakeInv(m, reserved, f);
    ClearTaken(m, m1);
    MapPageCorrect(m1, reserved, v * PAGE, f * PAGE, WRITABLE);
    SizeKept(m1, v * PAGE, f * PAGE, WRITABLE);
    var m' := MapPage(m1, v * PAGE, f * PAGE, WRITABLE).0;
    forall q | 0 < |q| <= 3 ensures NewOrSame(EntryAt(m, Kernel, q), EntryAt(m', Kernel, q)) {
      assert EntryAt(m1, Kernel, q) == EntryAt(m, Kernel, q);
    }
    forall q | |q| == 4 && q != PathOf(v * PAGE) ensures EntryAt(m', Kernel, q) == EntryAt(m, Kernel, q) {
      assert EntryAt(m1, Kernel, q) == EntryAt(m, Kernel, q);
    }
  }

  /** One turn of kmalloc's loop. */
  lemma MapOne(m: Machine, reserved: set<nat>, pages: set<nat>, v: nat)
    requires MapInv(m, reserved, pages) && InHeap(v) && v !in pages && LowestFree(m.used) < |m.used|
    ensures var f := LowestFree(m.used);
            var (m', ok) := MapPage(Take(m, f), v * PAGE, f * PAGE, WRITABLE);
            && MapInv(m', reserved, if ok then pages + {v} else pages)
            && (forall w | w in pages :: FrameOf(m', w) == FrameOf(m, w))
            && (ok ==> FrameOf(m', v) == Some(f))
            && (!ok ==> Exhausted(m'.used))
            && |m'.used| == |m.used|
  {
    hide Inv, PathOf, LowestFree, EntryAt, MapPage, InHeap, HeapClear, Exhausted;
    var f := LowestFree(m.used);
    NewFrame(m, reserved, pages, f);
    TakeAndMap(m, reserved, v, f);
    var (m', ok) := MapPage(Take(m, f), v * PAGE, f * PAGE, WRITABLE);
    ClearStays(m, m');
    forall w | w in pages ensures EntryAt(m', Kernel, PathOf(w * PAGE)) == EntryAt(m, Kernel, PathOf(w * PAGE)) {
      HeapPaths(v, w);
    }
    BackedStays(m, m', pages);
    assert f * PAGE / PAGE % FRAME_MASK == f;
  }

  lemma NewFrame(m: Machine, reserved: set<nat>, pages: set<nat>, f: nat)
    requires MapInv(m, reserved, pages) && f < |m.used| && !m.used[f]
    ensures forall w | w in pages :: FrameOf(m, w) != Some(f)
  {
  }

  lemma ClearTaken(m: Machine, m1: Machine)
    requires HeapClear(m) && m1.mem == m.mem && m1.kernel == m.kernel
    ensures HeapClear(m1)
  {
  }

  lemma SizeKept(m: Machine, virt: nat, phys: nat, flags: Flags)
    ensures |MapPage(m, virt, phys, flags).0.used| == |m.used|
  {
    GrowSize(m, m.kernel, PathOf(virt)[..3], false, false);
  }

  lemma {:induction false} GrowSize(m: Machine, t: nat, path: Path, user: bool, fix: bool)
    ensures |Grow(m, t, path, user, fix).0.used| == |m.used|
    decreases |path|
  {
    if path != [] {
      var (m1, c) := Descend(m, t, path[0], user, fix);
      if c.Some? { GrowSize(m1, c.value, path[1..], user, user); }
    }
  }

  /** One turn of kfree's loop on a page the heap has mapped. */
  lemma UnmapOne(m: Machine, reserved: set<nat>, pages: set<nat>, v: nat)
    requires MapInv(m, reserved, pages) && v in pages
    ensures FrameOf(m, v).Some? && 0 < FrameOf(m, v).value < |m.used| && m.used[FrameOf(m, v).value]
    ensures Translate(m, v * PAGE) == FrameOf(m, v).value * PAGE
    ensures var f := FrameOf(m, v).value;
            var m1 := UnmapPage(m, v * PAGE).0;
            var m' := m1.(used := FreeBit(m1.used, f), held := m1.held - {f});
            && MapInv(m', reserved, pages - {v})
            && m'.used == m.used[f := false]
            && FrameOf(m', v) == None
            && (forall w | w in pages && w != v :: FrameOf(m', w) == FrameOf(m, w))
  {
    hide Inv, PathOf, EntryAt, InHeap, HeapClear, UnmapPage, Resolve, SameTranslation;
    var f := FrameOf(m, v).value;
    HeldRange(m, reserved, f);
    HeapTranslates(m, pages, v);
    ClearAt(m, v);
    UnmapPageCorrect(m, reserved, v * PAGE);
    var m1 := UnmapPage(m, v * PAGE).0;
    GiveBackInv(m1, reserved, f);
    var m' := GiveBack(m1, f);
    forall q | q != [] ensures EntryAt(m', Kernel, q) == EntryAt(m1, Kernel, q) { }
    ClearStays(m, m');
    forall w | w in pages - {v} ensures EntryAt(m', Kernel, PathOf(w * PAGE)) == EntryAt(m, Kernel, PathOf(w * PAGE)) {
      HeapPaths(v, w);
    }
    BackedStays(m, m', pages - {v});
  }

  lemma HeldRange(m: Machine, reserved: set<nat>, f: nat)
    requires Inv(m, reserved) && f in m.held
    ensures 0 < f < |m.used| && m.used[f]
  {
  }

  lemma ClearAt(m: Machine, v: nat)
    requires HeapClear(m) && InHeap(v)
    ensures Clear(m.mem, m.kernel, PathOf(v * PAGE)[..3])
  {
  }

  lemma HeapTranslates(m: Machine, pages: set<nat>, v: nat)
    requires SmallLeaves(m, pages) && v in pages
    ensures FrameOf(m, v).Some? && Translate(m, v * PAGE) == FrameOf(m, v).value * PAGE
  {
    hide PathOf, EntryAt;
    var p := PathOf(v * PAGE);
    assert p[..0] == [] && p[0..] == p && v * PAGE / PAGE == v;
    assert Where(m, Kernel, []) == Some(m.kernel);
    LeafTranslates(m, p, 0, v);
  }

  // ----- blocks -----

  /** One more page keeps the invariant, also when it fails. */
  lemma AddPageInv(h: State, reserved: set<nat>)
    requires HeapInv(h, reserved) && h.current + PAGE <= WORD64
    ensures var (h1, ok) := AddPage(h);
            && HeapInv(h1, reserved) && h1.blocks == h.blocks
            && (forall w | w in h.mapped :: FrameOf(h1.m, w) == FrameOf(h.m, w))
            && (ok ==> h1.current == h.current + PAGE && h1.mapped == h.mapped + {h.current / PAGE})
            && (!ok ==> h1.current == h.current && h1.mapped == h.mapped && Exhausted(h1.m.used))
  {
    hide MapInv, MapPage, LowestFree, FrameOf;
    if LowestFree(h.m.used) < |h.m.used| {
      var v := h.current / PAGE;
      assert v * PAGE == h.current && v !in h.mapped;
      MapOne(h.m, reserved, h.mapped, v);
      var h1 := AddPage(h).0;
      forall b, w: nat | b in h1.blocks && InBlock(h1, b, w) ensures w in h1.mapped { assert InBlock(h, b, w); }
    }
  }

  /** The loop of kmalloc keeps the invariant whether or not it gets all its pages. */
  lemma {:induction false} MapMoreInv(h: State, reserved: set<nat>, n: nat)
    requires HeapInv(h, reserved) && h.current % PAGE == 0 && h.current + n * PAGE <= WORD64
    ensures var (h', ok) := MapMore(h, n);
            && HeapInv(h', reserved) && h'.blocks == h.blocks
            && h.current <= h'.current <= h.current + n * PAGE
            && h.mapped <= h'.mapped
            && (forall w | w in h.mapped :: FrameOf(h'.m, w) == FrameOf(h.m, w))
            && (ok ==> h'.current == h.current + n * PAGE &&
                       h'.mapped == h.mapped + Span(h.current / PAGE, h.current / PAGE + n))
            && (!ok ==> Exhausted(h'.m.used))
    decreases n
  {
    hide HeapInv, AddPage, FrameOf, Exhausted;
    var v := h.current / PAGE;
    if n == 0 {
      assert Span(v, v) == {};
    } else {
      AddPageInv(h, reserved);
      var (h1, ok) := AddPage(h);
      if ok {
        MapMoreInv(h1, reserved, n - 1);
        assert h1.current / PAGE == v + 1;
        assert Span(v, v + n) == {v} + Span(v + 1, v + n);
      }
    }
  }

  /** kmalloc: a new block lies above every other one, all its pages are backed by their own
      frames, and nothing that was mapped before moves. A failed request changes no block. */
  lemma KmallocCorrect(h: State, reserved: set<nat>, size: nat)
    requires HeapInv(h, reserved) && h.current + PagesFor(size) * PAGE <= WORD64
    ensures var (h', ptr) := Kmalloc(h, size);
            && HeapInv(h', reserved)
            && (forall w | w in h.mapped :: w in h'.mapped && FrameOf(h'.m, w) == FrameOf(h.m, w))
            && (ptr == 0 ==> h'.blocks == h.blocks && (size == 0 || Exhausted(h'.m.used)))
            && (ptr != 0 ==> ptr == h.current + HEADER && h'.blocks == h.blocks[h.current := PagesFor(size)] &&
                             h'.mapped == h.mapped + Span(h.current / PAGE, h.current / PAGE + PagesFor(size)))
  {
    hide MapInv, FrameOf, PagesFor, Exhausted;
    if size != 0 {
      var n := PagesFor(size);
      MapMoreInv(h, reserved, n);
      var (h1, ok) := MapMore(h, n);
      if ok {
        var h' := h1.(blocks := h1.blocks[h.current := n]);
        forall b, v: nat | b in h'.blocks && InBlock(h', b, v) ensures v in h'.mapped {
          if b == h.current { assert v in Span(h.current / PAGE, h.current / PAGE + n); } else { assert InBlock(h1, b, v); }
        }
      }
    }
  }

  /** The frames behind a run of pages. */
  ghost function Frames(m: Machine, pages: set<nat>): set<nat> {
    set v | v in pages && FrameOf(m, v).Some? :: FrameOf(m, v).value
  }

  /** One page of a dying block, with the block already out of the table. */
  lemma UnmapOneState(h: State, reserved: set<nat>, v: nat)
    requires HeapInv(h, reserved) && v in h.mapped && forall b | b in h.blocks :: !InBlock(h, b, v)
    ensures FrameOf(h.m, v).Some? && 0 < FrameOf(h.m, v).value < |h.m.used|
    ensures var f := FrameOf(h.m, v).value;
            var m1 := UnmapPage(h.m, v * PAGE).0;
            var h1 := h.(m := m1.(used := FreeBit(m1.used, f), held := m1.held - {f}), mapped := h.mapped - {v});
            && Translate(h.m, v * PAGE) == f * PAGE != 0
            && HeapInv(h1, reserved)
            && h1.m.used == h.m.used[f := false]
            && FrameOf(h1.m, v) == None
            && (forall w | w in h.mapped && w != v :: FrameOf(h1.m, w) == FrameOf(h.m, w))
  {
    hide MapInv, FrameOf, UnmapPage, Translate;
    UnmapOne(h.m, reserved, h.mapped, v);
  }

  /** The loop of kfree frees exactly the frames behind the pages it walks. */
  lemma {:induction false} UnmapFromInv(h: State, reserved: set<nat>, v: nat, n: nat)
    requires Freeing(h, reserved, v, n)
    ensures var h' := UnmapFrom(h, v, n);
            && HeapInv(h', reserved) && h'.blocks == h.blocks && h'.current == h.current
            && h'.mapped == h.mapped - Span(v, v + n)
            && (forall w | w in h'.mapped :: FrameOf(h'.m, w) == FrameOf(h.m, w))
            && h'.m.used == Without(h.m.used, Frames(h.m, Span(v, v + n)))
    decreases n
  {
    hide HeapInv, FrameOf, UnmapPage, Translate, Without, Frames;
    if n == 0 {
      assert Span(v, v) == {};
      FramesNone(h.m);
      WithoutEmpty(h.m.used);
    } else {
      assert v in Span(v, v + n) && Span(v, v + n) == {v} + Span(v + 1, v + n);
      UnmapOneState(h, reserved, v);
      var f := FrameOf(h.m, v).value;
      var m1 := UnmapPage(h.m, v * PAGE).0;
      var h1 := h.(m := m1.(used := FreeBit(m1.used, f), held := m1.held - {f}), mapped := h.mapped - {v});
      assert f * PAGE / PAGE == f;
      assert v !in Span(v + 1, v + n);
      forall b, w: nat | b in h1.blocks && v + 1 <= w < v + n ensures !InBlock(h1, b, w) {
        assert !InBlock(h, b, w);
      }
      UnmapFromInv(h1, reserved, v + 1, n - 1);
      FramesPlus(h.m, h1.m, v, Span(v + 1, v + n));
      WithoutPlus(h.m.used, f, Frames(h1.m, Span(v + 1, v + n)));
    }
  }

  lemma FramesNone(m: Machine)
    ensures Frames(m, {}) == {}
  {
  }

  lemma FramesPlus(m: Machine, m1: Machine, v: nat, rest: set<nat>)
    requires FrameOf(m, v).Some? && forall w | w in rest :: FrameOf(m1, w) == FrameOf(m, w)
    ensures Frames(m, {v} + rest) == {FrameOf(m, v).value} + Frames(m1, rest)
  {
    hide FrameOf;
  }

  lemma WithoutPlus(used: seq<bool>, f: nat, frames: set<nat>)
    requires f < |used|
    ensures Without(used[f := false], frames) == Without(used, {f} + frames)
  {
  }

  /** kfree: exactly the block's frames become free, its pages are unmapped, and every
      other mapped page keeps its frame. */
  lemma KfreeCorrect(h: State, reserved: set<nat>, b: nat)
    requires HeapInv(h, reserved) && b in h.blocks
    ensures var h' := Kfree(h, b + HEADER);
            var pages := Span(b / PAGE, b / PAGE + h.blocks[b]);
            && HeapInv(h', reserved)
            && h'.blocks == h.blocks - {b} && h'.current == h.current && h'.mapped == h.mapped - pages
            && pages <= h.mapped
            && (forall w | w in h'.mapped :: FrameOf(h'.m, w) == FrameOf(h.m, w))
            && h'.m.used == Without(h.m.used, Frames(h.m, pages))
  {
    hide HeapInv, FrameOf, Frames, Without, UnmapFrom;
    var v, n := b / PAGE, h.blocks[b];
    var h0 := h.(blocks := h.blocks - {b});
    FreeingStart(h, reserved, b);
    UnmapFromInv(h0, reserved, v, n);
    UnmapBlocks(h, h0.blocks, v, n);
  }

  /** The page loop does not look at the block table. */
  lemma {:induction false} UnmapBlocks(h: State, blocks: map<nat, nat>, v: nat, n: nat)
    ensures UnmapFrom(h.(blocks := blocks), v, n) == UnmapFrom(h, v, n).(blocks := blocks)
    decreases n
  {
    hide Translate, UnmapPage;
    if n > 0 {
      var phys := Translate(h.m, v * PAGE);
      var m1 := UnmapPage(h.m, v * PAGE).0;
      if phys == 0 {
        UnmapBlocks(h, blocks, v + 1, n - 1);
      } else {
        UnmapBlocks(h.(m := m1.(used := FreeBit(m1.used, phys / PAGE), held := m1.held - {phys / PAGE}),
                       mapped := h.mapped - {v}), blocks, v + 1, n - 1);
      }
    }
  }

  // ----- runs -----

  datatype HeapOp = Alloc(size: nat) | Release(ptr: nat)

  /** The virtual range is not used up; a freed pointer is null or a live one. */
  predicate Allowed(h: State, op: HeapOp) {
    match op
    case Alloc(size) => h.current + PagesFor(size) * PAGE <= WORD64
    case Release(ptr) => ptr == 0 || (ptr >= HEADER && ptr - HEADER in h.blocks)
  }

  function Apply(h: State, op: HeapOp): State {
    match op
    case Alloc(size) => Kmalloc(h, size).0
    case Release(ptr) => Kfree(h, ptr)
  }

  predicate AllAllowed(h: State, ops: seq<HeapOp>)
    decreases |ops|
  {
    ops == [] || (Allowed(h, ops[0]) && AllAllowed(Apply(h, ops[0]), ops[1..]))
  }

  function ApplyAll(h: State, ops: seq<HeapOp>): State
    decreases |ops|
  {
    if ops == [] then h else ApplyAll(Apply(h, ops[0]), ops[1..])
  }

  /** Over every run of kmalloc and kfree, failures included, the invariant holds. */
  lemma {:induction false} HeapRunInv(h: State, reserved: set<nat>, ops: seq<HeapOp>)
    requires HeapInv(h, reserved) && AllAllowed(h, ops)
    ensures HeapInv(ApplyAll(h, ops), reserved)
    decreases |ops|
  {
    hide HeapInv, Apply;
    if ops != [] {
      ApplyInv(h, reserved, ops[0]);
      HeapRunInv(Apply(h, ops[0]), reserved, ops[1..]);
    }
  }

  lemma ApplyInv(h: State, reserved: set<nat>, op: HeapOp)
    requires HeapInv(h, reserved) && Allowed(h, op)
    ensures HeapInv(Apply(h, op), reserved)
  {
    hide HeapInv, Kmalloc, Kfree;
    match op {
      case Alloc(size) => KmallocCorrect(h, reserved, size);
      case Release(ptr) => if ptr == 0 { FreeNull(h); } else { KfreeCorrect(h, reserved, ptr - HEADER); }
    }
  }

  lemma FreeNull(h: State)
    ensures Kfree(h, 0) == h
  {
  }

  /** After any run, two live blocks share no page and no frame. */
  lemma BlocksDisjoint(h: State, reserved: set<nat>, ops: seq<HeapOp>, b: nat, c: nat, v: nat, w: nat)
    requires HeapInv(h, reserved) && AllAllowed(h, ops)
    requires b in ApplyAll(h, ops).blocks && c in ApplyAll(h, ops).blocks && b != c
    requires InBlock(ApplyAll(h, ops), b, v) && InBlock(ApplyAll(h, ops), c, w)
    ensures var e := ApplyAll(h, ops);
            && v != w && FrameOf(e.m, v).Some? && FrameOf(e.m, w).Some?
            && FrameOf(e.m, v) != FrameOf(e.m, w) && FrameOf(e.m, v).value in e.m.held
  {
    hide Inv, FrameOf;
    HeapRunInv(h, reserved, ops);
  }

  // ----- the heap as the kernel runs it -----

  class KernelHeap {
    const vmm: Manager
    var current: nat
    var headers: map<nat, nat>
    ghost var mapped: set<nat>

    constructor (vmm: Manager)
      ensures this.vmm == vmm && current == HEAP_START && headers == map[] && mapped == {}
    {
      this.vmm, current, headers, mapped := vmm, HEAP_START, map[], {};
    }

    ghost function View(all: Registry, held: set<nat>): State
      reads this, vmm, vmm.pmm, vmm.pmm.bitmap, all.Values
      requires vmm.pmm.Fits()
    {
      State(vmm.View(all, held), current, headers, mapped)
    }

    method GrowByPage(ghost all: Registry, ghost held: set<nat>) returns (ok: bool, ghost heldAfter: set<nat>)
      requires vmm.Valid()
      modifies this`current, this`mapped, vmm`mem, vmm.pmm`usedPages, vmm.pmm`freePages, vmm.pmm.bitmap
      ensures vmm.Valid()
      ensures (View(all, heldAfter), ok) == AddPage(old(View(all, held)))
    {
      hide MapPage, LowestFree, FreeSet;
      heldAfter := held;
      var phys := vmm.pmm.AllocPage();
      if phys == 0 {
        return false, held;
      }
      heldAfter := held + {phys / PAGE};
      assert vmm.View(all, heldAfter) == Take(old(vmm.View(all, held)), phys / PAGE);
      ok := vmm.MapKernelPage(current, phys, WRITABLE, all, heldAfter);
      if ok {
        mapped := mapped + {current / PAGE};
        current := current + PAGE;
      }
    }

    method KernelAlloc(size: nat, ghost all: Registry, ghost held: set<nat>)
      returns (ptr: nat, ghost heldAfter: set<nat>)
      requires vmm.Valid()
      modifies this, vmm`mem, vmm.pmm`usedPages, vmm.pmm`freePages, vmm.pmm.bitmap
      ensures vmm.Valid()
      ensures (View(all, heldAfter), ptr) == Kmalloc(old(View(all, held)), size)
    {
      hide AddPage, PagesFor, FreeSet, PageAllocator.Used, Manager.View;
      heldAfter := held;
      if size == 0 {
        return 0, held;
      }
      ghost var h := View(all, held);
      var pages := Wrap(Wrap(size + HEADER) + PAGE - 1) / PAGE;
      PagesForIs(size);
      var start := current;
      var i := 0;
      while i < pages
        invariant i <= pages && vmm.Valid() && headers == h.blocks
        invariant MapMore(View(all, heldAfter), pages - i) == MapMore(h, pages)
      {
        var ok;
        ok, heldAfter := GrowByPage(all, heldAfter);
        if !ok {
          return 0, heldAfter;
        }
        i := i + 1;
      }
      headers := headers[start := pages];
      return start + HEADER, heldAfter;
    }

    method ReleasePage(virt: nat, ghost v: nat, ghost all: Registry, ghost held: set<nat>)
      returns (ghost heldAfter: set<nat>)
      requires vmm.Valid() && virt == v * PAGE && Translate(vmm.View(all, held), virt) < vmm.pmm.totalPages * PAGE
      modifies this`mapped, vmm`mem, vmm.pmm`usedPages, vmm.pmm`freePages, vmm.pmm.bitmap
      ensures vmm.Valid()
      ensures View(all, heldAfter) == UnmapFrom(old(View(all, held)), v, 1)
    {
      hide Translate, UnmapPage, FreeSet;
      heldAfter := held;
      ghost var h := View(all, held);
      UnmapFromOne(h, v);
      var phys := vmm.TranslateKernel(virt, all, held);
      TranslateAligned(vmm.View(all, held), virt);
      if phys != 0 {
        var _ := vmm.UnmapKernelPage(virt, all, held);
        vmm.pmm.FreePage(phys);
        heldAfter := held - {phys / PAGE};
        mapped := mapped - {v};
      }
    }

    /** The pointer is null or one a kmalloc returned. */
    method KernelFree(ptr: nat, ghost all: Registry, ghost held: set<nat>, ghost reserved: set<nat>)
      returns (ghost heldAfter: set<nat>)
      requires vmm.Valid() && HeapInv(View(all, held), reserved)
      requires ptr == 0 || (ptr >= HEADER && ptr - HEADER in headers)
      modifies this, vmm`mem, vmm.pmm`usedPages, vmm.pmm`freePages, vmm.pmm.bitmap
      ensures vmm.Valid()
      ensures View(all, heldAfter) == Kfree(old(View(all, held)), ptr)
    {
      hide HeapInv, Freeing, UnmapFrom, Translate, FreeSet, PageAllocator.Used;
      heldAfter := held;
      if ptr == 0 {
        return held;
      }
      var start: nat := ptr - HEADER;
      ghost var h := View(all, held);
      FreeingStart(h, reserved, start);
      var pages := headers[start];
      ghost var v := start / PAGE;
      UnmapBlocks(h, h.blocks - {start}, v, pages);
      headers := headers - {start};
      ghost var h0 := View(all, held);
      var i := 0;
      while i < pages
        invariant i <= pages && vmm.Valid()
        invariant Freeing(View(all, heldAfter), reserved, v + i, pages - i)
        invariant UnmapFrom(View(all, heldAfter), v + i, pages - i) == UnmapFrom(h0, v, pages)
      {
        FreeingStep(View(all, heldAfter), reserved, v + i, pages - i);
        heldAfter := ReleasePage(start + i * PAGE, v + i, all, heldAfter);
        i := i + 1;
      }
      UnmapNothing(View(all, heldAfter), v + i);
    }
  }

  lemma UnmapNothing(h: State, v: nat)
    ensures UnmapFrom(h, v, 0) == h
  {
  }

  /** What the free loop needs at each turn, and what it hands to the next. */
  ghost predicate Freeing(h: State, reserved: set<nat>, v: nat, n: nat) {
    HeapInv(h, reserved) && Span(v, v + n) <= h.mapped &&
    forall b, w: nat | b in h.blocks && v <= w < v + n :: !InBlock(h, b, w)
  }

  lemma FreeingStep(h: State, reserved: set<nat>, v: nat, n: nat)
    requires Freeing(h, reserved, v, n) && n > 0
    ensures Translate(h.m, v * PAGE) < |h.m.used| * PAGE
    ensures UnmapFrom(h, v, n) == UnmapFrom(UnmapFrom(h, v, 1), v + 1, n - 1)
    ensures Freeing(UnmapFrom(h, v, 1), reserved, v + 1, n - 1)
  {
    hide HeapInv, FrameOf, UnmapPage, Translate;
    assert v in Span(v, v + n) && Span(v, v + n) == {v} + Span(v + 1, v + n) && v !in Span(v + 1, v + n);
    UnmapOneState(h, reserved, v);
    UnmapFromOne(h, v);
    var f := FrameOf(h.m, v).value;
    assert f * PAGE / PAGE == f;
    var h1 := UnmapFrom(h, v, 1);
    forall b, w: nat | b in h1.blocks && v + 1 <= w < v + n ensures !InBlock(h1, b, w) {
      assert !InBlock(h, b, w);
    }
  }

  lemma FreeingStart(h: State, reserved: set<nat>, b: nat)
    requires HeapInv(h, reserved) && b in h.blocks
    ensures Freeing(h.(blocks := h.blocks - {b}), reserved, b / PAGE, h.blocks[b])
    ensures b / PAGE * PAGE == b
  {
    hide MapInv;
    var v, n := b / PAGE, h.blocks[b];
    var h0 := h.(blocks := h.blocks - {b});
    forall w | w in Span(v, v + n) ensures w in h.mapped { assert InBlock(h, b, w); }
    forall c, w: nat | c in h0.blocks && InBlock(h0, c, w) ensures w in h0.mapped { assert InBlock(h, c, w); }
  }

  lemma UnmapFromOne(h: State, v: nat)
    ensures UnmapFrom(h, v, 1) ==
            var phys := Translate(h.m, v * PAGE);
            if phys == 0 then h
            else
              var m1 := UnmapPage(h.m, v * PAGE).0;
              h.(m := m1.(used := FreeBit(m1.used, phys / PAGE), held := m1.held - {phys / PAGE}), mapped := h.mapped - {v})
  {
    hide Translate, UnmapPage;
  }

  lemma TranslateAligned(m: Machine, virt: nat)
    ensures Translate(m, virt) % PAGE == 0
  {
  }

  lemma PagesForIs(size: nat)
    ensures PagesFor(size) == Wrap(Wrap(size + HEADER) + PAGE - 1) / PAGE
  {
  }
}
