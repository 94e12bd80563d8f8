/** The physical page allocator: a byte array used as a bitmap, set bit = used page. */
module Pmm {
  import opened Wrappers
  import opened SpaceEdits
  import opened SpaceSteps
  import opened Bytes

  const WORD64: nat := 0x1_0000_0000_0000_0000
  const LOW_PAGES: nat := 256                       // the first MiB

  /** A 64-bit counter wraps around. */
  type Word64 = x: nat | x < WORD64

  function Wrap(x: int): Word64 {
    x % WORD64
  }

  lemma WrapStep(x: int)
    ensures Wrap(Wrap(x) - 1) == Wrap(x - 1) && Wrap(Wrap(x) + 1) == Wrap(x + 1)
  {
  }

  /** An entry of the boot loader's memory map. */
  datatype Region = Region(base: nat, length: nat, usable: bool)

  // ----- the memory map -----

  function AlignUp(value: nat): nat {
    (value + PAGE - 1) / PAGE * PAGE
  }

  /** Page `p` lies wholly inside usable region `r`. */
  predicate Covers(r: Region, p: nat) {
    r.usable && r.base <= p * PAGE && p * PAGE + PAGE <= r.base + r.length
  }

  /** The end of the highest usable region. */
  function Highest(regions: seq<Region>): nat {
    if regions == [] then 0
    else
      var h := Highest(regions[..|regions| - 1]);
      var r := regions[|regions| - 1];
      if r.usable && r.base + r.length > h then r.base + r.length else h
  }

  ghost function PagesOf(r: Region, total: nat): set<nat> {
    set p: nat | p < total && Covers(r, p)
  }

  ghost predicate Covered(regions: seq<Region>, p: nat) {
    exists i :: 0 <= i < |regions| && Covers(regions[i], p)
  }

  ghost function Union(regions: seq<Region>, total: nat): set<nat> {
    set p: nat | p < total && Covered(regions, p)
  }

  /** Pages counted with multiplicity, once per region that covers them. */
  ghost function PageSum(regions: seq<Region>, total: nat): nat {
    if regions == [] then 0 else PageSum(regions[..|regions| - 1], total) + |PagesOf(regions[|regions| - 1], total)|
  }

  /** No page lies in two usable regions. */
  ghost predicate Apart(regions: seq<Region>, total: nat) {
    forall i, j, p: nat | 0 <= i < j < |regions| && p < total :: !(Covers(regions[i], p) && Covers(regions[j], p))
  }

  lemma {:induction false} UnionStep(regions: seq<Region>, total: nat)
    requires regions != []
    ensures Union(regions, total) == Union(regions[..|regions| - 1], total) + PagesOf(regions[|regions| - 1], total)
  {
    var front := regions[..|regions| - 1];
    forall p: nat | p < total
      ensures p in Union(regions, total) <==> p in Union(front, total) || p in PagesOf(regions[|regions| - 1], total)
    {
      if p in Union(front, total) {
        var i :| 0 <= i < |front| && Covers(front[i], p);
        assert Covers(regions[i], p);
      }
      if p in Union(regions, total) {
        var i :| 0 <= i < |regions| && Covers(regions[i], p);
        if i < |front| { assert Covers(front[i], p); }
      }
      if p in PagesOf(regions[|regions| - 1], total) { assert Covers(regions[|regions| - 1], p); }
    }
  }

  lemma ApartStep(regions: seq<Region>, total: nat)
    requires regions != []
    ensures var front, last := regions[..|regions| - 1], regions[|regions| - 1];
            Apart(regions, total) <==> Apart(front, total) && Union(front, total) !! PagesOf(last, total)
  {
    var front, last := regions[..|regions| - 1], regions[|regions| - 1];
    if Apart(regions, total) {
      forall i, j, p: nat | 0 <= i < j < |front| && p < total ensures !(Covers(front[i], p) && Covers(front[j], p)) {
        assert !(Covers(regions[i], p) && Covers(regions[j], p));
      }
      forall p | p in Union(front, total) ensures p !in PagesOf(last, total) {
        var i :| 0 <= i < |front| && Covers(front[i], p);
        assert !(Covers(regions[i], p) && Covers(regions[|regions| - 1], p));
      }
    }
    if Apart(front, total) && Union(front, total) !! PagesOf(last, total) {
      forall i, j, p: nat | 0 <= i < j < |regions| && p < total
        ensures !(Covers(regions[i], p) && Covers(regions[j], p))
      {
        if j < |front| {
          assert !(Covers(front[i], p) && Covers(front[j], p));
        } else if Covers(front[i], p) {
          assert p in Union(front, total) && p !in PagesOf(last, total);
        }
      }
    }
  }

  lemma Cardinals(a: set<nat>, b: set<nat>)
    ensures |a + b| <= |a| + |b|
    ensures |a + b| == |a| + |b| <==> a !! b
  {
    assert |a + b| == |a| + |b| - |a * b|;
    assert forall x :: x in a && x in b ==> x in a * b;
    if a !! b { assert a * b == {}; }
  }

  /** The sum counts each page once exactly when no two usable regions share a page. */
  lemma {:induction false} SumIsUnion(regions: seq<Region>, total: nat)
    ensures PageSum(regions, total) >= |Union(regions, total)|
    ensures PageSum(regions, total) == |Union(regions, total)| <==> Apart(regions, total)
  {
    hide Union, PagesOf, Apart;
    if regions == [] {
      NoRegions(total);
    } else {
      SumIsUnion(regions[..|regions| - 1], total);
      UnionStep(regions, total);
      ApartStep(regions, total);
      Cardinals(Union(regions[..|regions| - 1], total), PagesOf(regions[|regions| - 1], total));
    }
  }

  lemma NoRegions(total: nat)
    ensures Union([], total) == {} && Apart([], total)
  {
  }

  // ----- counting clear bits -----

  ghost function FreeSet(used: seq<bool>): set<nat> {
    set p: nat | p < |used| && !used[p]
  }

  lemma FreeSetUpdate(used: seq<bool>, f: nat, b: bool)
    requires f < |used|
    ensures |FreeSet(used[f := b])| ==
            |FreeSet(used)| + (if used[f] && !b then 1 else if !used[f] && b then -1 else 0)
  {
    var next := used[f := b];
    assert forall p: nat | p < |used| && p != f :: next[p] == used[p];
    if used[f] && !b {
      assert FreeSet(next) == FreeSet(used) + {f};
    } else if !used[f] && b {
      assert FreeSet(used) == FreeSet(next) + {f};
    } else {
      assert next == used;
    }
  }

  // ----- intervals of pages -----

  predicate Between(a: nat, p: nat, b: nat) {
    a <= p < b
  }

  ghost function Span(a: nat, b: nat): set<nat> {
    set p: nat | p < b && Between(a, p, b)
  }

  lemma {:induction false} SpanSize(a: nat, b: nat)
    requires a <= b
    ensures |Span(a, b)| == b - a
    decreases b - a
  {
    if a < b {
      SpanSize(a, b - 1);
      assert Span(a, b) == Span(a, b - 1) + {b - 1};
    } else {
      assert Span(a, b) == {};
    }
  }

  /** The pages of a usable region are those from its aligned start to its end. */
  lemma PagesAreSpan(r: Region, total: nat)
    requires r.usable && (r.base + r.length) / PAGE <= total
    ensures var first, last := AlignUp(r.base) / PAGE, (r.base + r.length) / PAGE;
            && (forall p: nat :: Covers(r, p) <==> first <= p < last)
            && PagesOf(r, total) == Span(first, last)
            && |PagesOf(r, total)| == if first <= last then last - first else 0
  {
    var first, last := AlignUp(r.base) / PAGE, (r.base + r.length) / PAGE;
    forall p: nat ensures Covers(r, p) <==> first <= p < last { }
    if first <= last { SpanSize(first, last); } else { assert Span(first, last) == {}; }
  }

  /** Low pages that a usable region covers: they are counted free, then locked. */
  ghost function LowCovered(regions: seq<Region>, total: nat, n: nat): set<nat> {
    set p: nat | p < total && p < n && Covered(regions, p)
  }

  class PageAllocator {
    const bitmap: array<bv8>
    var totalPages: nat
    var usedPages: Word64
    var freePages: nat

    predicate Fits()
      reads this`totalPages
    {
      bitmap.Length == 0x10_0000 && totalPages <= bitmap.Length * 8
    }

    predicate TestBit(p: nat)
      reads bitmap
      requires p < bitmap.Length * 8
    {
      HasBit(bitmap[p / 8], p % 8)
    }

    /** The used flag of every page. */
    ghost function Used(): (u: seq<bool>)
      reads this`totalPages, bitmap
      requires Fits()
      ensures |u| == totalPages && forall p: nat | p < totalPages :: u[p] == TestBit(p)
    {
      var n := totalPages;
      seq(n, p requires 0 <= p < n && n <= bitmap.Length * 8 reads bitmap => TestBit(p))
    }

    /** Page 0 is never handed out, and the free counter counts the clear bits. */
    ghost predicate Valid()
      reads this, bitmap
    {
      Fits() && totalPages > 0 && TestBit(0) && freePages == |FreeSet(Used())|
    }

    constructor ()
      ensures fresh(bitmap) && bitmap.Length == 0x10_0000 && totalPages == 0
    {
      bitmap := new bv8[0x10_0000](_ => 0);
      totalPages, usedPages, freePages := 0, 0, 0;
    }

    method SetBit(p: nat)
      requires p < bitmap.Length * 8
      modifies bitmap
      ensures forall q: nat | q < bitmap.Length * 8 :: TestBit(q) == (q == p || old(TestBit(q)))
    {
      ghost var was := bitmap[p / 8];
      bitmap[p / 8] := bitmap[p / 8] | Power(p % 8);
      forall q: nat | q < bitmap.Length * 8 ensures TestBit(q) == (q == p || old(TestBit(q))) {
        SetBits(was, p % 8, q % 8);
      }
    }

    method ClearBit(p: nat)
      requires p < bitmap.Length * 8
      modifies bitmap
      ensures forall q: nat | q < bitmap.Length * 8 :: TestBit(q) == (q != p && old(TestBit(q)))
    {
      ghost var was := bitmap[p / 8];
      bitmap[p / 8] := bitmap[p / 8] & !Power(p % 8);
      forall q: nat | q < bitmap.Length * 8 ensures TestBit(q) == (q != p && old(TestBit(q))) {
        SetBits(was, p % 8, q % 8);
      }
    }

    /** The lowest clear page becomes used; address 0 means none was left. */
    method AllocPage() returns (address: nat)
      requires Valid()
      modifies this`usedPages, this`freePages, bitmap
      ensures Valid()
      ensures var f := LowestFree(old(Used()));
              if f < totalPages then address == f * PAGE && f > 0 && Used() == old(Used())[f := true]
              else address == 0 && Used() == old(Used())
    {
      var i := 0;
      while i < totalPages
        invariant i <= totalPages
        invariant forall p: nat | p < i :: TestBit(p)
      {
        if !TestBit(i) {
          ghost var before := Used();
          LowestIs(before, i);
          FreeSetUpdate(before, i, true);
          SetBit(i);
          usedPages := Wrap(usedPages + 1);
          freePages := freePages - 1;
          assert Used() == before[i := true];
          return i * PAGE;
        }
        i := i + 1;
      }
      LowestIs(Used(), i);
      return 0;
    }

    /** Clears the page's bit. The source checks neither the bound nor that an address
        below one page is 0. */
    method FreePage(address: nat)
      requires Valid() && address / PAGE < totalPages && (address == 0 || address >= PAGE)
      modifies this`usedPages, this`freePages, bitmap
      ensures Valid()
      ensures Used() == FreeBit(old(Used()), address / PAGE)
    {
      if address == 0 {
        return;
      }
      var page := address / PAGE;
      ghost var before := Used();
      if TestBit(page) {
        FreeSetUpdate(before, page, false);
        ClearBit(page);
        usedPages := Wrap(usedPages - 1);
        freePages := freePages + 1;
      }
      assert Used() == before[page := false];
    }

    method MarkAllUsed(bytes: nat)
      requires bytes <= bitmap.Length
      modifies bitmap
      ensures forall p: nat | p < bytes * 8 :: TestBit(p)
    {
      var i := 0;
      while i < bytes
        invariant i <= bytes
        invariant forall j | 0 <= j < i :: bitmap[j] == 0xFF
      {
        bitmap[i] := 0xFF;
        i := i + 1;
      }
      forall p: nat | p < bytes * 8 ensures TestBit(p) { AllOnes(p % 8); }
    }

    method ReserveLow()
      requires bitmap.Length * 8 >= LOW_PAGES
      modifies bitmap
      ensures forall q: nat | q < bitmap.Length * 8 :: TestBit(q) == (q < LOW_PAGES || old(TestBit(q)))
    {
      var i := 0;
      while i < LOW_PAGES
        invariant i <= LOW_PAGES
        invariant forall q: nat | q < bitmap.Length * 8 :: TestBit(q) == (q < i || old(TestBit(q)))
      {
        SetBit(i);
        i := i + 1;
      }
    }

    /** Clears the bits of one usable region, from page `first` up to page `last`. */
    method MarkRegion(r: Region)
      requires Fits() && r.usable && (r.base + r.length) / PAGE <= totalPages
      modifies this`usedPages, this`freePages, bitmap
      ensures forall q: nat | q < bitmap.Length * 8 :: TestBit(q) == (old(TestBit(q)) && !Covers(r, q))
      ensures freePages == old(freePages) + |PagesOf(r, totalPages)|
      ensures usedPages == Wrap(old(usedPages) - |PagesOf(r, totalPages)|)
    {
      PagesAreSpan(r, totalPages);
      ghost var first := AlignUp(r.base) / PAGE;
      var start := AlignUp(r.base);
      var end := r.base + r.length;
      var address := start;
      while address + PAGE <= end
        invariant address % PAGE == 0 && start <= address
        invariant address == start || address <= end
        invariant forall q: nat | q < bitmap.Length * 8 ::
                    TestBit(q) == (old(TestBit(q)) && !(first <= q < address / PAGE))
        invariant freePages == old(freePages) + (address / PAGE - first)
        invariant usedPages == Wrap(old(usedPages) - (address / PAGE - first))
        decreases end - address
      {
        var page := address / PAGE;
        ClearBit(page);
        WrapStep(old(usedPages) - (page - first));
        usedPages := Wrap(usedPages - 1);
        freePages := freePages + 1;
        address := address + PAGE;
        assert address / PAGE == page + 1;
      }
    }

    method MarkUsable(regions: seq<Region>)
      requires Fits() && totalPages == Highest(regions) / PAGE && bitmap.Length * 8 >= LOW_PAGES
      requires forall p: nat | p < totalPages || p < LOW_PAGES :: TestBit(p)
      requires usedPages == totalPages && freePages == 0
      modifies this`usedPages, this`freePages, bitmap
      ensures forall p: nat | p < totalPages :: TestBit(p) <==> !Covered(regions, p)
      ensures forall p: nat | totalPages <= p < LOW_PAGES :: TestBit(p)
      ensures freePages == PageSum(regions, totalPages)
      ensures usedPages == Wrap(totalPages - freePages)
    {
      hide Covered, Covers, PagesOf;
      NoneCovered();
      var i := 0;
      while i < |regions|
        invariant i <= |regions|
        invariant forall p: nat | p < totalPages :: TestBit(p) <==> !Covered(regions[..i], p)
        invariant forall p: nat | totalPages <= p < LOW_PAGES :: TestBit(p)
        invariant freePages == PageSum(regions[..i], totalPages)
        invariant usedPages == Wrap(totalPages - freePages)
      {
        ghost var front := regions[..i + 1];
        assert front[..i] == regions[..i] && front[i] == regions[i];
        HighestBounds(regions, i);
        if regions[i].usable {
          PagesAreSpan(regions[i], totalPages);
          WrapTwice(totalPages - freePages, |PagesOf(regions[i], totalPages)|);
          MarkRegion(regions[i]);
        } else {
          NotUsable(regions[i], totalPages);
        }
        CoveredStep(regions, i);
        i := i + 1;
      }
      assert regions[..i] == regions;
    }

    method LockLow(regions: seq<Region>)
      requires Fits() && bitmap.Length * 8 >= LOW_PAGES
      requires forall p: nat | p < totalPages :: TestBit(p) <==> !Covered(regions, p)
      requires forall p: nat | totalPages <= p < LOW_PAGES :: TestBit(p)
      requires freePages == PageSum(regions, totalPages) && usedPages == Wrap(totalPages - freePages)
      modifies this`usedPages, this`freePages, bitmap
      ensures forall p: nat | p < totalPages :: !TestBit(p) <==> p >= LOW_PAGES && Covered(regions, p)
      ensures freePages == PageSum(regions, totalPages) - |LowCovered(regions, totalPages, LOW_PAGES)|
      ensures usedPages == Wrap(totalPages - PageSum(regions, totalPages)
                                - |LowCovered(regions, totalPages, LOW_PAGES)|)
    {
      hide PageSum, LowCovered, Covered;
      var page := 0;
      NoLow(regions, totalPages);
      while page < LOW_PAGES
        invariant page <= LOW_PAGES
        invariant forall p: nat | p < totalPages :: !TestBit(p) <==> p >= page && Covered(regions, p)
        invariant forall p: nat | totalPages <= p < LOW_PAGES :: TestBit(p)
        invariant freePages == PageSum(regions, totalPages) - |LowCovered(regions, totalPages, page)|
        invariant usedPages == Wrap(totalPages - PageSum(regions, totalPages)
                                    - |LowCovered(regions, totalPages, page)|)
      {
        LowStep(regions, totalPages, page);
        if !TestBit(page) {
          SetBit(page);
          WrapStep(totalPages - PageSum(regions, totalPages) - |LowCovered(regions, totalPages, page)|);
          usedPages := Wrap(usedPages - 1);
          freePages := freePages - 1;
        }
        page := page + 1;
      }
    }

    /** Builds the bitmap from the boot loader's map. The free counter is right exactly
        when no page lies in two usable regions; the used counter loses each locked low
        page twice. */
    method Init(regions: seq<Region>) returns (ok: bool)
      requires bitmap.Length == 0x10_0000
      requires forall i | 0 <= i < |regions| :: regions[i].base + regions[i].length + PAGE <= WORD64
      modifies this, bitmap
      ensures totalPages == Highest(regions) / PAGE
      ensures ok <==> totalPages <= bitmap.Length * 8
      ensures ok ==> Fits() && forall p: nat | p < totalPages :: !Used()[p] <==> p >= LOW_PAGES && Covered(regions, p)
      ensures ok ==> (freePages == |FreeSet(Used())| <==> Apart(regions, totalPages))
      ensures ok && totalPages > 0 && Apart(regions, totalPages) ==> Valid()
      ensures ok ==> usedPages == Wrap(totalPages - PageSum(regions, totalPages)
                                       - |LowCovered(regions, totalPages, LOW_PAGES)|)
    {
      hide PageSum, LowCovered, Covered, Apart, FreeSet;
      var highest := 0;
      var i := 0;
      while i < |regions|
        invariant i <= |regions| && highest == Highest(regions[..i])
      {
        assert regions[..i + 1][..i] == regions[..i];
        if regions[i].usable {
          var end := regions[i].base + regions[i].length;
          if end > highest { highest := end; }
        }
        i := i + 1;
      }
      assert regions[..i] == regions;
      totalPages := highest / PAGE;
      var bitmapSize := (totalPages + 7) / 8;
      if bitmapSize > bitmap.Length {
        return false;
      }
      MarkAllUsed(bitmapSize);
      usedPages, freePages := totalPages, 0;
      ReserveLow();
      MarkUsable(regions);
      LockLow(regions);
      CountFree(Used(), regions);
      return true;
    }
  }

  lemma LowestIs(used: seq<bool>, i: nat)
    requires i <= |used| && (forall p: nat | p < i :: used[p]) && (i < |used| ==> !used[i])
    ensures LowestFree(used) == i
  {
  }

  lemma AllOnes(k: nat)
    requires k < 8
    ensures HasBit(0xFF, k)
  {
  }

  /** Every usable region ends below the highest address. */
  lemma {:induction false} HighestBounds(regions: seq<Region>, i: nat)
    requires i < |regions|
    ensures regions[i].usable ==> regions[i].base + regions[i].length <= Highest(regions)
  {
    if i < |regions| - 1 { HighestBounds(regions[..|regions| - 1], i); }
  }

  lemma CoveredStep(regions: seq<Region>, i: nat)
    requires i < |regions|
    ensures forall p: nat :: Covered(regions[..i + 1], p) <==> Covered(regions[..i], p) || Covers(regions[i], p)
  {
    forall p: nat ensures Covered(regions[..i + 1], p) <==> Covered(regions[..i], p) || Covers(regions[i], p) {
      var a, b := regions[..i], regions[..i + 1];
      if Covered(a, p) {
        var k :| 0 <= k < |a| && Covers(a[k], p);
        assert Covers(b[k], p);
      }
      if Covers(regions[i], p) { assert Covers(b[i], p); }
      if Covered(b, p) {
        var k :| 0 <= k < |b| && Covers(b[k], p);
        if k < i { assert Covers(a[k], p); }
      }
    }
  }

  lemma LowStep(regions: seq<Region>, total: nat, page: nat)
    ensures |LowCovered(regions, total, page + 1)| ==
            |LowCovered(regions, total, page)| + (if page < total && Covered(regions, page) then 1 else 0)
    ensures |LowCovered(regions, total, page + 1)| <= PageSum(regions, total)
  {
    var a, b := LowCovered(regions, total, page), LowCovered(regions, total, page + 1);
    if page < total && Covered(regions, page) {
      assert b == a + {page};
    } else {
      assert b == a;
    }
    SumIsUnion(regions, total);
    SubsetSize(b, Union(regions, total));
  }

  /** The clear bits are the covered pages above the first MiB, so the free counter,
      which summed region by region, is right exactly when no page was summed twice. */
  lemma CountFree(used: seq<bool>, regions: seq<Region>)
    requires forall p: nat | p < |used| :: !used[p] <==> p >= LOW_PAGES && Covered(regions, p)
    ensures var low := |LowCovered(regions, |used|, LOW_PAGES)|;
            PageSum(regions, |used|) - low == |FreeSet(used)| <==> Apart(regions, |used|)
  {
    var low := LowCovered(regions, |used|, LOW_PAGES);
    SumIsUnion(regions, |used|);
    assert Union(regions, |used|) == low + FreeSet(used);
    assert low !! FreeSet(used);
    Cardinals(low, FreeSet(used));
  }

  lemma NoLow(regions: seq<Region>, total: nat)
    ensures LowCovered(regions, total, 0) == {}
  {
  }

  lemma NoneCovered()
    ensures forall p: nat :: !Covered([], p)
  {
  }

  lemma NotUsable(r: Region, total: nat)
    requires !r.usable
    ensures PagesOf(r, total) == {} && forall p: nat :: !Covers(r, p)
  {
  }

  lemma WrapTwice(x: int, k: nat)
    ensures Wrap(Wrap(x) - k) == Wrap(x - k)
  {
  }
}
