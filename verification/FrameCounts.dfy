/** How many frames an address space takes: its root, PDPT and directory, one for every user page, and
    one for every 2 MB row that holds a user page. */
module FrameCounts {
  import opened Words
  import opened PageTables
  import opened UserSpaces
  import Pmm

  const PAGES := 262144

  /** The pages below 1 GB that are mapped for the user; page p is slot p % 512 of row p / 512. */
  ghost function Pages(m: Memory, r: nat): set<nat>
  {
    set p: nat | p < PAGES && UserEntry(m, DirOf(m, r), p / 512, p % 512).Some?
  }

  ghost function Rows(pages: set<nat>): set<nat>
  {
    set p | p in pages :: p / 512
  }

  ghost function FramesFor(pages: set<nat>): nat
  {
    3 + |pages| + |Rows(pages)|
  }

  lemma {:induction false} ImageSize(a: set<nat>, f: nat -> nat, image: set<nat>)
    requires image == set x | x in a :: f(x)
    requires forall x, y :: x in a && y in a && f(x) == f(y) ==> x == y
    ensures |image| == |a|
    decreases a
  {
    if a != {} {
      var x :| x in a;
      var b := a - {x};
      ImageSize(b, f, set y | y in b :: f(y));
      assert image == (set y | y in b :: f(y)) + {f(x)};
    }
  }

  lemma SubsetSize<T>(a: set<T>, b: set<T>)
    requires a <= b
    ensures |a| <= |b|
  {
    assert b == a + (b - a);
  }

  /** More pages take more frames: one more for a page, two for a page in a new row. */
  lemma MorePages(p: set<nat>, q: set<nat>, page: nat)
    requires p <= q && page in q && page !in p
    ensures FramesFor(p) < FramesFor(q)
    ensures page / 512 !in Rows(p) ==> FramesFor(p) + 1 < FramesFor(q)
  {
    SubsetSize(p + {page}, q);
    assert Rows(p) <= Rows(q) && page / 512 in Rows(q);
    SubsetSize(Rows(p), Rows(q));
    if page / 512 !in Rows(p) {
      SubsetSize(Rows(p) + {page / 512}, Rows(q));
    }
  }

  /** Every table of the space that is its own has a page. */
  ghost predicate NoIdleTable(m: Memory, r: nat)
  {
    forall c: Index :: IsTable(DirEntry(m, DirOf(m, r), c)) && DirEntry(m, DirOf(m, r), c).flags.user ==>
      HasPage(m, r, c)
  }

  ghost function PageFrame(m: Memory, r: nat, p: nat): nat
  {
    match UserEntry(m, DirOf(m, r), p / 512 % 512, p % 512)
    case None => 0
    case Some(w) => w.frame
  }

  ghost function RowFrame(m: Memory, r: nat, i: nat): nat
  {
    DirEntry(m, DirOf(m, r), i % 512).frame
  }

  ghost function PageFrames(m: Memory, r: nat): set<nat>
  {
    set p | p in Pages(m, r) :: PageFrame(m, r, p)
  }

  ghost function RowFrames(m: Memory, r: nat): set<nat>
  {
    set i | i in Rows(Pages(m, r)) :: RowFrame(m, r, i)
  }

  lemma PageRole(m: Memory, r: nat, role: map<nat, Role>, kernel: set<nat>, p: nat)
    requires Space(m, r, role, kernel) && p in Pages(m, r)
    ensures PageFrame(m, r, p) in Owned(role, kernel) && role[PageFrame(m, r, p)] == Leaf(0, 0, p / 512, p % 512)
  {
    hide UserEntry, Skeleton, InUse;
  }

  lemma PageFramesRole(m: Memory, r: nat, role: map<nat, Role>, kernel: set<nat>)
    requires Space(m, r, role, kernel)
    ensures forall f :: f in PageFrames(m, r) ==> f in Owned(role, kernel) && role[f].Leaf?
    ensures |PageFrames(m, r)| == |Pages(m, r)|
  {
    hide Space, UserEntry, Pages, Owned;
    forall p | p in Pages(m, r)
      ensures PageFrame(m, r, p) in Owned(role, kernel) && PageFrame(m, r, p) in role
        && role[PageFrame(m, r, p)] == Leaf(0, 0, p / 512 % 512, p % 512)
      ensures p < PAGES
    {
      PageRole(m, r, role, kernel, p);
      PageNumber(m, r, p);
      OwnedHasRole(role, kernel, PageFrame(m, r, p));
    }
    forall p, q | p in Pages(m, r) && q in Pages(m, r) && PageFrame(m, r, p) == PageFrame(m, r, q) ensures p == q {
      assert p / 512 % 512 == q / 512 % 512 && p % 512 == q % 512;
    }
    ImageSize(Pages(m, r), p => PageFrame(m, r, p), PageFrames(m, r));
  }

  lemma PageNumber(m: Memory, r: nat, p: nat)
    requires p in Pages(m, r)
    ensures p < PAGES && p / 512 % 512 == p / 512
  {
  }

  lemma OwnedHasRole(role: map<nat, Role>, kernel: set<nat>, f: nat)
    requires f in Owned(role, kernel)
    ensures f in role
  {
  }

  lemma RowFramesRole(m: Memory, r: nat, role: map<nat, Role>, kernel: set<nat>)
    requires Space(m, r, role, kernel)
    ensures forall f :: f in RowFrames(m, r) ==> f in Owned(role, kernel) && role[f].Table?
    ensures |RowFrames(m, r)| == |Rows(Pages(m, r))|
  {
    SkeletonPath(m, r, role, kernel);
    forall i | i in Rows(Pages(m, r))
      ensures i < 512 && RowFrame(m, r, i) in role && role[RowFrame(m, r, i)] == Table(0, 0, i)
        && RowFrame(m, r, i) !in kernel
    {
      var p :| p in Pages(m, r) && p / 512 == i;
    }
    ImageSize(Rows(Pages(m, r)), i => RowFrame(m, r, i), RowFrames(m, r));
  }

  /** A space without idle tables owns exactly the frames its pages call for. */
  lemma OwnedCount(m: Memory, r: nat, role: map<nat, Role>, kernel: set<nat>)
    requires Space(m, r, role, kernel) && NoIdleTable(m, r)
    ensures |Owned(role, kernel)| == FramesFor(Pages(m, r))
  {
    hide Space, NoIdleTable, Owned, PageFrames, RowFrames, Pages, Rows, PdptOf, DirOf;
    TopRoles(m, r, role, kernel);
    PageFramesRole(m, r, role, kernel);
    RowFramesRole(m, r, role, kernel);
    forall f | f in Owned(role, kernel)
      ensures f in {r, PdptOf(m, r), DirOf(m, r)} || f in PageFrames(m, r) || f in RowFrames(m, r)
    {
      OwnedFrame(m, r, role, kernel, f);
    }
    ThreeParts(Owned(role, kernel), {r, PdptOf(m, r), DirOf(m, r)}, PageFrames(m, r), RowFrames(m, r));
  }

  lemma ThreeParts(all: set<nat>, a: set<nat>, b: set<nat>, c: set<nat>)
    requires forall f :: f in all <==> f in a || f in b || f in c
    requires forall f :: !(f in a && f in b) && !(f in a && f in c) && !(f in b && f in c)
    ensures |all| == |a| + |b| + |c|
  {
    assert all == a + b + c && a !! b && a + b !! c;
  }

  lemma TopRoles(m: Memory, r: nat, role: map<nat, Role>, kernel: set<nat>)
    requires Space(m, r, role, kernel)
    ensures r in Owned(role, kernel) && PdptOf(m, r) in Owned(role, kernel) && DirOf(m, r) in Owned(role, kernel)
    ensures role[r] == Root && role[PdptOf(m, r)] == Pdpt(0) && role[DirOf(m, r)] == Dir(0, 0)
  {
    SkeletonPath(m, r, role, kernel);
  }

  lemma OwnedFrame(m: Memory, r: nat, role: map<nat, Role>, kernel: set<nat>, f: nat)
    requires Space(m, r, role, kernel) && NoIdleTable(m, r) && f in Owned(role, kernel)
    ensures f in {r, PdptOf(m, r), DirOf(m, r)} || f in PageFrames(m, r) || f in RowFrames(m, r)
  {
    hide Skeleton, UserEntry, Pages;
    match role[f] {
      case Leaf(_, _, c, d) =>
        PageOfSlot(m, r, c, d);
        assert PageFrame(m, r, 512 * c + d) == f;
      case Table(_, _, c) =>
        var d: Index :| UserEntry(m, DirOf(m, r), c, d).Some?;
        PageOfSlot(m, r, c, d);
        assert RowFrame(m, r, c) == f;
      case _ =>
    }
  }

  lemma PageOfSlot(m: Memory, r: nat, c: Index, d: Index)
    requires UserEntry(m, DirOf(m, r), c, d).Some?
    ensures 512 * c + d in Pages(m, r) && c in Rows(Pages(m, r))
    ensures (512 * c + d) / 512 == c && (512 * c + d) % 512 == d
  {
    hide UserEntry;
  }

  lemma InheritsNoIdle(m: Memory, r: nat, m0: Memory, kernelDir: nat)
    requires InheritsOnly(m, r, m0, kernelDir)
    ensures NoIdleTable(m, r)
  {
  }

  /** A space that is being filled has taken exactly the frames its pages call for. */
  lemma GrowingCount(m0: Memory, m: Memory, r: nat, spaces0: map<nat, map<nat, Role>>,
                     spaces: map<nat, map<nat, Role>>, kernel: set<nat>, free0: set<nat>, free: set<nat>,
                     kernelDir: nat)
    requires Growing(m0, m, r, spaces0, spaces, kernel, free0, free, kernelDir)
    ensures |free0| == |free| + FramesFor(Pages(m, r))
  {
    hide Space, InheritsOnly, NoIdleTable, FramesFor, Pages;
    InheritsNoIdle(m, r, m0, kernelDir);
    OwnedCount(m, r, spaces[r], kernel);
    assert free0 == free + (free0 - free);
  }
}
