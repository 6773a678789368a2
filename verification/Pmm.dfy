/** The physical frame allocator: a bitmap with one bit per 4 KB frame (1 = in use) and a
    running count of the free frames. Frames are named by number (address / 4096). */
module Pmm {

  const BITMAP_BYTES := 32768
  const FRAMES := 262144
  const RESERVED_FRAMES := 256  // the first megabyte

  // ----- one byte of the bitmap

  predicate Used(b: bv8, k: nat)
    requires k < 8
  {
    b & (1 << k) != 0
  }

  function SetBit(b: bv8, k: nat): bv8
    requires k < 8
  {
    b | (1 << k)
  }

  function ClearBit(b: bv8, k: nat): bv8
    requires k < 8
  {
    b & !(1 << k)
  }

  lemma SetBitOthers(b: bv8, k: nat, j: nat)
    requires k < 8 && j < 8
    ensures Used(SetBit(b, k), j) <==> j == k || Used(b, j)
  {
    if k == 0 {} else if k == 1 {} else if k == 2 {} else if k == 3 {}
    else if k == 4 {} else if k == 5 {} else if k == 6 {} else {}
  }

  lemma ClearBitOthers(b: bv8, k: nat, j: nat)
    requires k < 8 && j < 8
    ensures Used(ClearBit(b, k), j) <==> j != k && Used(b, j)
  {
  }

  lemma FullByte(b: bv8, k: nat)
    requires k < 8
    ensures b == 0xFF ==> Used(b, k)
  {
  }

  // ----- the bitmap as a set of free frames

  ghost function FreeBelow(s: seq<bv8>, n: nat): set<nat>
    requires n <= 8 * |s|
  {
    if n == 0 then {}
    else FreeBelow(s, n - 1) + if Used(s[(n - 1) / 8], (n - 1) % 8) then {} else {n - 1}
  }

  ghost function FreeIn(s: seq<bv8>): set<nat>
  {
    FreeBelow(s, 8 * |s|)
  }

  lemma {:induction false} InFreeBelow(s: seq<bv8>, n: nat, f: nat)
    requires n <= 8 * |s|
    ensures f in FreeBelow(s, n) <==> f < n && !Used(s[f / 8], f % 8)
  {
    if n > 0 {
      InFreeBelow(s, n - 1, f);
    }
  }

  lemma InFreeIn(s: seq<bv8>, f: nat)
    ensures f in FreeIn(s) <==> f < 8 * |s| && !Used(s[f / 8], f % 8)
  {
    InFreeBelow(s, 8 * |s|, f);
  }

  lemma SetBitRemoves(s: seq<bv8>, f: nat)
    requires f < 8 * |s|
    ensures FreeIn(s[f / 8 := SetBit(s[f / 8], f % 8)]) == FreeIn(s) - {f}
  {
    var t := s[f / 8 := SetBit(s[f / 8], f % 8)];
    forall g: nat
      ensures g in FreeIn(t) <==> g in FreeIn(s) && g != f
    {
      InFreeIn(s, g);
      InFreeIn(t, g);
      SetBitOthers(s[f / 8], f % 8, g % 8);
    }
  }

  lemma ClearBitAdds(s: seq<bv8>, f: nat)
    requires f < 8 * |s|
    ensures FreeIn(s[f / 8 := ClearBit(s[f / 8], f % 8)]) == FreeIn(s) + {f}
  {
    var t := s[f / 8 := ClearBit(s[f / 8], f % 8)];
    forall g: nat
      ensures g in FreeIn(t) <==> g in FreeIn(s) || g == f
    {
      InFreeIn(s, g);
      InFreeIn(t, g);
      ClearBitOthers(s[f / 8], f % 8, g % 8);
    }
  }

  lemma NothingFreeInFullBytes(s: seq<bv8>)
    requires forall i :: 0 <= i < |s| ==> s[i] == 0xFF
    ensures FreeIn(s) == {}
  {
    forall f: nat
      ensures f !in FreeIn(s)
    {
      InFreeIn(s, f);
      if f < 8 * |s| {
        FullByte(s[f / 8], f % 8);
      }
    }
  }

  // ----- the boot memory map

  const AVAILABLE := 1
  const U32 := 0x1_0000_0000
  const U64 := 0x1_0000_0000_0000_0000
  const TRACKED_BYTES := 0x4000_0000

  /** One entry of the Multiboot2 memory map. */
  datatype Region = Region(base: nat, length: nat, kind: nat)

  /** The frames pmm_init releases for one entry: it walks 4 KB steps from the base, which it
      first truncates to 32 bits, up to the end of the region or of the bitmap. */
  ghost function Released(r: Region): set<nat>
  {
    var base := r.base % U32;
    if r.kind != AVAILABLE then {}
    else set f: nat | f < FRAMES && base / 4096 <= f && 4096 * f + base % 4096 < EndOf(r)
  }

  /** The frames that lie wholly inside the region, as far as the bitmap reaches. */
  ghost function Described(r: Region): set<nat>
  {
    if r.kind != AVAILABLE then {}
    else set f: nat | f < FRAMES && r.base <= 4096 * f && 4096 * f + 4096 <= r.base + r.length
  }

  /** The walk starts beyond the bitmap; or it starts below it because the base was truncated, but the end
      wrapped and stops it at once; or the end wrapped and there is no whole frame; or the region begins
      and ends on page boundaries, unless it is empty or ends beyond the bitmap. */
  predicate ReleasedRightly(r: Region)
  {
    var end := r.base + r.length;
    if r.kind != AVAILABLE || r.base % U32 >= TRACKED_BYTES then true
    else if r.base >= U32 then end % U64 <= r.base % U32
    else if end >= U64 then r.base > TRACKED_BYTES - 4096
    else r.length == 0 || (r.base % 4096 == 0 && (end % 4096 == 0 || end >= TRACKED_BYTES))
  }

  /** Exactly then the walk releases the frames that are wholly available, and no other. */
  lemma ReleasedIsDescribed(r: Region)
    requires r.base < U64 && r.length < U64
    ensures Released(r) == Described(r) <==> ReleasedRightly(r)
  {
    if r.kind == AVAILABLE && r.base % U32 < TRACKED_BYTES {
      if r.base >= U32 {
        FarRegion(r);
      } else if r.base + r.length >= U64 {
        WrappedRegion(r);
      } else {
        NearRegion(r);
      }
    } else {
      BeyondBitmap(r);
    }
  }

  lemma BeyondBitmap(r: Region)
    requires r.kind != AVAILABLE || r.base % U32 >= TRACKED_BYTES
    ensures Released(r) == {} && Described(r) == {}
  {
    if r.kind == AVAILABLE {
      assert r.base >= TRACKED_BYTES;
    }
  }

  lemma FarRegion(r: Region)
    requires r.kind == AVAILABLE && r.base >= U32 && r.base % U32 < TRACKED_BYTES
    ensures Described(r) == {}
    ensures Released(r) == {} <==> EndOf(r) <= r.base % U32
  {
    FirstReleased(r);
  }

  /** If anything is released, the frame the truncated base lies in is. */
  lemma FirstReleased(r: Region)
    requires r.kind == AVAILABLE && r.base % U32 < TRACKED_BYTES
    ensures r.base % U32 / 4096 in Released(r) <==> r.base % U32 < EndOf(r)
    ensures Released(r) == {} <==> EndOf(r) <= r.base % U32
  {
    var base := r.base % U32;
    assert 4096 * (base / 4096) + base % 4096 == base;
  }

  lemma WrappedRegion(r: Region)
    requires r.kind == AVAILABLE && r.base < TRACKED_BYTES && r.length < U64 <= r.base + r.length
    ensures Released(r) == {} && (Described(r) == {} <==> r.base > TRACKED_BYTES - 4096)
  {
    FirstReleased(r);
    var f := (r.base + 4095) / 4096;
    if r.base <= TRACKED_BYTES - 4096 {
      assert f in Described(r);
    }
  }

  lemma NearRegion(r: Region)
    requires r.kind == AVAILABLE && r.base < TRACKED_BYTES && r.base + r.length < U64
    ensures Released(r) == Described(r) <==> ReleasedRightly(r)
  {
    hide Released, Described;
    if r.length == 0 {
      EmptyRegion(r);
    } else if r.base % 4096 != 0 {
      UnalignedBase(r);
    } else if (r.base + r.length) % 4096 != 0 && r.base + r.length < TRACKED_BYTES {
      UnalignedEnd(r);
    } else {
      WholePages(r);
    }
  }

  lemma EmptyRegion(r: Region)
    requires r.kind == AVAILABLE && r.base < TRACKED_BYTES && r.length == 0
    ensures Released(r) == Described(r)
  {
    FirstReleased(r);
    assert Described(r) == {};
  }

  lemma UnalignedBase(r: Region)
    requires r.kind == AVAILABLE && r.base < TRACKED_BYTES && 0 < r.length && r.base + r.length < U64
    requires r.base % 4096 != 0
    ensures Released(r) != Described(r)
  {
    FirstReleased(r);
    assert r.base / 4096 !in Described(r);
  }

  lemma UnalignedEnd(r: Region)
    requires r.kind == AVAILABLE && 0 < r.length && r.base % 4096 == 0
    requires (r.base + r.length) % 4096 != 0 && r.base + r.length < TRACKED_BYTES
    ensures Released(r) != Described(r)
  {
    var last := (r.base + r.length) / 4096;
    assert last in Released(r) && last !in Described(r);
  }

  lemma WholePages(r: Region)
    requires r.kind == AVAILABLE && r.base < TRACKED_BYTES && r.base + r.length < U64 && r.base % 4096 == 0
    requires (r.base + r.length) % 4096 == 0 || r.base + r.length >= TRACKED_BYTES
    ensures Released(r) == Described(r)
  {
    var end, first := r.base + r.length, r.base / 4096;
    assert EndOf(r) == end && r.base % U32 == r.base == 4096 * first;
    forall f: nat | f < FRAMES ensures f in Released(r) <==> f in Described(r) {
      WholePage(f, end);
    }
  }

  lemma WholePage(f: nat, end: nat)
    requires f < FRAMES && (end % 4096 == 0 || end >= TRACKED_BYTES)
    ensures 4096 * f < end <==> 4096 * f + 4096 <= end
  {
  }

  /** A page at 4 GB makes the walk release frame 0. */
  lemma RegionAtFourGigabytes()
    ensures 0 in Released(Region(U32, 4096, AVAILABLE)) && Described(Region(U32, 4096, AVAILABLE)) == {}
  {
    FarRegion(Region(U32, 4096, AVAILABLE));
    FirstReleased(Region(U32, 4096, AVAILABLE));
  }

  ghost function ReleasedByAll(rs: seq<Region>): set<nat>
  {
    if rs == [] then {} else ReleasedByAll(rs[..|rs| - 1]) + Released(rs[|rs| - 1])
  }

  ghost function StepsOfAll(rs: seq<Region>): nat
  {
    if rs == [] then 0 else StepsOfAll(rs[..|rs| - 1]) + |Released(rs[|rs| - 1])|
  }

  ghost predicate PageDisjoint(rs: seq<Region>)
  {
    forall i, j :: 0 <= i < j < |rs| ==> Released(rs[i]) !! Released(rs[j])
  }

  lemma {:induction false} InReleasedByAll(rs: seq<Region>, f: nat)
    ensures f in ReleasedByAll(rs) <==> exists i :: 0 <= i < |rs| && f in Released(rs[i])
  {
    if rs != [] {
      var init := rs[..|rs| - 1];
      InReleasedByAll(init, f);
      assert forall i :: 0 <= i < |init| ==> init[i] == rs[i];
    }
  }

  lemma UnionSize<T>(a: set<T>, b: set<T>)
    ensures |a + b| <= |a| + |b|
    ensures |a + b| == |a| + |b| <==> a !! b
  {
    var c := b - a;
    assert a + b == a + c && b == c + a * b;
    assert |a + c| == |a| + |c| && |b| == |c| + |a * b|;
  }

  /** The walk counts each frame once per region that names it, so its count is the number of
      released frames exactly when no two regions share a page. */
  lemma {:induction false} CountExactIffDisjoint(rs: seq<Region>)
    ensures StepsOfAll(rs) >= |ReleasedByAll(rs)|
    ensures StepsOfAll(rs) == |ReleasedByAll(rs)| <==> PageDisjoint(rs)
  {
    if rs != [] {
      var init, last := rs[..|rs| - 1], rs[|rs| - 1];
      CountExactIffDisjoint(init);
      UnionSize(ReleasedByAll(init), Released(last));
      if PageDisjoint(rs) {
        assert PageDisjoint(init);
        forall f | f in ReleasedByAll(init) ensures f !in Released(last) {
          InReleasedByAll(init, f);
        }
      }
      if PageDisjoint(init) && ReleasedByAll(init) !! Released(last) {
        forall i, j | 0 <= i < j < |rs| ensures Released(rs[i]) !! Released(rs[j]) {
          if j < |rs| - 1 {
            assert init[i] == rs[i] && init[j] == rs[j];
          } else {
            forall f | f in Released(rs[i]) ensures f !in Released(last) {
              assert init[i] == rs[i];
              InReleasedByAll(init, f);
            }
          }
        }
      }
    }
  }

  /** A memory map that lists the same page twice makes the counter too large. */
  lemma PageListedTwice()
    ensures var r := Region(0x10_0000, 4096, AVAILABLE); StepsOfAll([r, r]) > |ReleasedByAll([r, r])|
  {
    var r := Region(0x10_0000, 4096, AVAILABLE);
    FirstReleased(r);
    assert !PageDisjoint([r, r]) by {
      assert [r, r][0] == [r, r][1] && 256 in Released(r);
    }
    CountExactIffDisjoint([r, r]);
  }

  predicate Within(lo: nat, f: nat, hi: nat)
  {
    lo <= f < hi
  }

  /** The frames lo, lo + 1, ..., hi - 1. */
  ghost function Span(lo: nat, hi: nat): set<nat>
  {
    set f: nat | f < hi && Within(lo, f, hi)
  }

  lemma NoSpan(lo: nat)
    ensures Span(lo, lo) == {}
  {
  }

  lemma SpanGrows(lo: nat, hi: nat)
    requires lo <= hi
    ensures Span(lo, hi + 1) == Span(lo, hi) + {hi}
  {
    assert Within(lo, hi, hi + 1);
    forall f | f in Span(lo, hi + 1) ensures f in Span(lo, hi) + {hi} {
      assert f == hi || Within(lo, f, hi);
    }
    forall f | f in Span(lo, hi) ensures f in Span(lo, hi + 1) {
      assert Within(lo, f, hi + 1);
    }
  }

  ghost function KernelFrames(kStart: nat, kEnd: nat): set<nat>
  {
    Span(kStart / 4096, (kEnd + 4095) / 4096)
  }

  ghost function FirstMegabyte(): set<nat>
  {
    Span(0, RESERVED_FRAMES)
  }

  /** Reserved are the frames below 0x10_0000 and those that any part of the kernel image lies in. */
  lemma ReservedFrames(kStart: nat, kEnd: nat, f: nat)
    ensures f in FirstMegabyte() <==> 4096 * f < 0x10_0000
    ensures f in KernelFrames(kStart, kEnd) <==> kStart < 4096 * f + 4096 && 4096 * f < kEnd
  {
  }

  ghost function ReleasedBelow(r: Region, n: nat): set<nat>
  {
    set f | f in Released(r) && f < n
  }

  function EndOf(r: Region): nat
  {
    (r.base + r.length) % U64
  }

  /** The walk over region r is at address addr, in frame f. */
  ghost predicate Reaches(r: Region, f: nat, addr: nat)
  {
    r.kind == AVAILABLE && addr == 4096 * f + r.base % U32 % 4096 && r.base % U32 / 4096 <= f
  }

  lemma ReleasedNone(r: Region, addr: nat)
    requires r.kind == AVAILABLE && addr == r.base % U32
    ensures ReleasedBelow(r, addr / 4096) == {} && Reaches(r, addr / 4096, addr)
  {
  }

  /** One step of the walk over a region. */
  lemma ReleasedGrows(r: Region, f: nat, addr: nat)
    requires Reaches(r, f, addr) && addr < EndOf(r) && addr < TRACKED_BYTES
    ensures ReleasedBelow(r, f + 1) == ReleasedBelow(r, f) + {f}
    ensures |ReleasedBelow(r, f + 1)| == |ReleasedBelow(r, f)| + 1
    ensures addr / 4096 == f && f < FRAMES && Reaches(r, f + 1, addr + 4096)
  {
  }

  lemma ReleasedDone(r: Region, f: nat, addr: nat)
    requires Reaches(r, f, addr) && (EndOf(r) <= addr || TRACKED_BYTES <= addr)
    ensures ReleasedBelow(r, f) == Released(r)
  {
  }

  ghost predicate NoneBelow(s: set<nat>, n: nat)
  {
    forall f :: f in s ==> n <= f
  }

  /** What has been taken lies below what is left. */
  ghost predicate LowestFirst(was: set<nat>, left: set<nat>)
  {
    left <= was && forall f, g :: f in was && f !in left && g in left ==> f < g
  }

  lemma LowestTaken(s: set<nat>, f: nat)
    requires NoneBelow(s, f)
    ensures LowestFirst(s, s - {f})
  {
  }

  lemma LowestTwice(was: set<nat>, s: set<nat>, left: set<nat>)
    requires LowestFirst(was, s) && LowestFirst(s, left)
    ensures LowestFirst(was, left)
  {
  }

  lemma LowestNone(s: set<nat>)
    ensures LowestFirst(s, s)
  {
  }

  lemma FullByteHasNoFree(s: seq<bv8>, i: nat)
    requires i < |s| && s[i] == 0xFF && NoneBelow(FreeIn(s), 8 * i)
    ensures NoneBelow(FreeIn(s), 8 * i + 8)
  {
    forall f | f in FreeIn(s) ensures 8 * i + 8 <= f {
      InFreeIn(s, f);
      FullByte(s[f / 8], f % 8);
    }
  }

  lemma ReleasedFramesTracked(rs: seq<Region>)
    ensures forall f :: f in ReleasedByAll(rs) - FirstMegabyte() ==> RESERVED_FRAMES <= f < FRAMES
  {
    forall f | f in ReleasedByAll(rs) - FirstMegabyte() ensures RESERVED_FRAMES <= f < FRAMES {
      InReleasedByAll(rs, f);
      assert !Within(0, f, RESERVED_FRAMES);
    }
  }

  lemma MinusGrows(a: set<nat>, s: set<nat>, f: nat)
    ensures a - s - {f} == a - (s + {f})
  {
  }

  // ----- the allocator

  class FrameAllocator {
    const bitmap: array<bv8>
    var freeCount: nat

    ghost var free: set<nat>

    /** The bitmap says of every frame whether it is in `free`. */
    ghost predicate Coherent()
      reads this, bitmap
    {
      bitmap.Length == BITMAP_BYTES && free == FreeIn(bitmap[..])
    }

    ghost predicate Valid()
      reads this, bitmap
    {
      && Coherent()
      && freeCount == |free|
      && (forall f :: f in free ==> RESERVED_FRAMES <= f < FRAMES)
    }

    /** The bitmap in .bss: all zero until pmm_init runs. */
    constructor ()
      ensures fresh(bitmap) && Coherent() && freeCount == 0
    {
      bitmap := new bv8[BITMAP_BYTES](_ => 0);
      freeCount := 0;
      new;
      free := FreeIn(bitmap[..]);
    }

    method SetFrame(f: nat)
      requires Coherent() && f < FRAMES
      modifies this`free, bitmap
      ensures Coherent() && free == old(free) - {f}
    {
      SetBitRemoves(bitmap[..], f);
      bitmap[f / 8] := SetBit(bitmap[f / 8], f % 8);
      assert bitmap[..] == old(bitmap[..])[f / 8 := bitmap[f / 8]];
      free := free - {f};
    }

    method ClearFrame(f: nat)
      requires Coherent() && f < FRAMES
      modifies this`free, bitmap
      ensures Coherent() && free == old(free) + {f}
    {
      ClearBitAdds(bitmap[..], f);
      bitmap[f / 8] := ClearBit(bitmap[f / 8], f % 8);
      assert bitmap[..] == old(bitmap[..])[f / 8 := bitmap[f / 8]];
      free := free + {f};
    }

    /** The lowest clear bit of byte i, or 8. */
    method FirstClear(i: nat) returns (bit: nat)
      requires Valid() && i < BITMAP_BYTES && NoneBelow(free, 8 * i)
      ensures bit <= 8 && NoneBelow(free, 8 * i + bit)
      ensures bit < 8 ==> 8 * i + bit in free
    {
      hide FreeIn;
      bit := 0;
      while bit < 8
        invariant 0 <= bit <= 8 && NoneBelow(free, 8 * i + bit)
      {
        InFreeIn(bitmap[..], 8 * i + bit);
        if !Used(bitmap[i], bit) {
          return;
        }
        bit := bit + 1;
      }
    }

    /** Hands out the lowest free frame; 0 only when no frame is free. */
    method AllocFrame() returns (frame: nat)
      requires Valid()
      modifies this, bitmap
      ensures Valid()
      ensures frame == 0 <==> old(free) == {}
      ensures frame == 0 ==> free == old(free)
      ensures frame != 0 ==>
        && frame in old(free) && 256 <= frame < 262144 && NoneBelow(old(free), frame)
        && free == old(free) - {frame}
      ensures LowestFirst(old(free), free)
    {
      hide FreeIn, LowestFirst;
      frame := 0;
      if freeCount == 0 {
        LowestNone(free);
        return;
      }
      ghost var some :| some in free;
      var i := 0;
      while i < BITMAP_BYTES
        invariant 0 <= i <= BITMAP_BYTES
        invariant Valid() && free == old(free)
        invariant NoneBelow(free, 8 * i)
      {
        if bitmap[i] != 0xFF {
          var bit := FirstClear(i);
          if bit < 8 {
            frame := 8 * i + bit;
            LowestTaken(free, frame);
            SetFrame(frame);
            freeCount := freeCount - 1;
            return;
          }
        } else {
          FullByteHasNoFree(bitmap[..], i);
        }
        i := i + 1;
      }
      assert false;
    }

    /** Gives back a frame. The source does not ask whether it is in use: the counter stays right, and the
        first megabyte reserved, exactly when it is a frame in use above it. */
    method FreeFrame(frame: nat)
      requires (Valid() || Coherent()) && frame < FRAMES
      modifies this, bitmap
      ensures Coherent() && free == old(free) + {frame} && freeCount == old(freeCount) + 1
      ensures old(Valid()) ==> (Valid() <==> frame !in old(free) && RESERVED_FRAMES <= frame)
    {
      ghost var was := free;
      ClearFrame(frame);
      freeCount := freeCount + 1;
      if frame in was {
        assert was + {frame} == was;
      }
      assert frame in free;
    }

    /** Marks one frame in use and keeps the counter in step with the bitmap. */
    method Reserve(f: nat)
      requires Coherent() && f < FRAMES && freeCount >= |free|
      modifies this, bitmap
      ensures Coherent() && free == old(free) - {f}
      ensures freeCount - |free| == old(freeCount - |free|)
    {
      InFreeIn(bitmap[..], f);
      if !Used(bitmap[f / 8], f % 8) {
        SetFrame(f);
        if freeCount > 0 {
          freeCount := freeCount - 1;
        }
      } else {
        assert free - {f} == free;
      }
    }

    method ReleaseRegion(r: Region)
      requires Coherent()
      modifies this, bitmap
      ensures Coherent() && free == old(free) + Released(r)
      ensures freeCount == old(freeCount) + |Released(r)|
    {
      hide ReleasedBelow, Reaches, EndOf, FreeIn;
      if r.kind == AVAILABLE {
        var end: nat, addr: nat := EndOf(r), r.base % U32;
        ghost var f: nat := addr / 4096;
        ReleasedNone(r, addr);
        while addr < end && addr < TRACKED_BYTES
          invariant Reaches(r, f, addr) && Coherent() && free == old(free) + ReleasedBelow(r, f)
          invariant freeCount == old(freeCount) + |ReleasedBelow(r, f)|
        {
          ReleasedGrows(r, f, addr);
          ClearFrame(addr / 4096);
          assert free == old(free) + ReleasedBelow(r, f + 1);
          freeCount := freeCount + 1;
          addr := addr + 4096;
          f := f + 1;
        }
        ReleasedDone(r, f, addr);
      }
    }

    /** pmm_init: everything used, then the available regions free, then the first megabyte and
        the kernel image used again. */
    method Init(regions: seq<Region>, kStart: nat, kEnd: nat)
      requires bitmap.Length == BITMAP_BYTES && freeCount == 0
      requires kStart <= kEnd <= TRACKED_BYTES
      modifies this, bitmap
      ensures free == ReleasedByAll(regions) - FirstMegabyte() - KernelFrames(kStart, kEnd)
      ensures Valid() <==> PageDisjoint(regions)
    {
      MarkAllUsed();
      ReleaseRegions(regions);
      CountExactIffDisjoint(regions);
      ReleasedFramesTracked(regions);
      ReserveRange(0, RESERVED_FRAMES);
      ReserveRange(kStart / 4096, (kEnd + 4095) / 4096);
    }

    method MarkAllUsed()
      requires bitmap.Length == BITMAP_BYTES
      modifies this`free, bitmap
      ensures Coherent() && free == {}
    {
      var i := 0;
      while i < BITMAP_BYTES
        invariant 0 <= i <= BITMAP_BYTES
        invariant forall k :: 0 <= k < i ==> bitmap[k] == 0xFF
      {
        bitmap[i] := 0xFF;
        i := i + 1;
      }
      NothingFreeInFullBytes(bitmap[..]);
      free := {};
    }

    method ReleaseRegions(regions: seq<Region>)
      requires Coherent() && freeCount == 0 && free == {}
      modifies this, bitmap
      ensures Coherent() && free == ReleasedByAll(regions) && freeCount == StepsOfAll(regions)
    {
      var n := 0;
      while n < |regions|
        invariant 0 <= n <= |regions|
        invariant Coherent() && free == ReleasedByAll(regions[..n])
        invariant freeCount == StepsOfAll(regions[..n])
      {
        assert regions[..n + 1][..n] == regions[..n];
        ReleaseRegion(regions[n]);
        n := n + 1;
      }
      assert regions[..n] == regions;
    }

    /** The two reservation loops of pmm_init: every frame from lo up to hi. */
    method ReserveRange(lo: nat, hi: nat)
      requires Coherent() && lo <= hi <= FRAMES && freeCount >= |free|
      modifies this, bitmap
      ensures Coherent() && free == old(free) - Span(lo, hi)
      ensures freeCount - |free| == old(freeCount - |free|)
    {
      hide FreeIn, Span;
      var f := lo;
      ghost var start, drift := free, freeCount - |free|;
      NoSpan(lo);
      while f < hi
        invariant lo <= f <= hi
        invariant Coherent() && free == start - Span(lo, f)
        invariant freeCount - |free| == drift
      {
        ghost var sofar := Span(lo, f);
        SpanGrows(lo, f);
        MinusGrows(start, sofar, f);
        Reserve(f);
        f := f + 1;
      }
    }
  }

}
