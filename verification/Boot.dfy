/** The page tables boot.asm leaves behind: where the memory model starts. */
module Boot {
  import opened Words
  import opened PageTables
  import opened UserSpaces
  import opened Vmm
  import opened Rights

  const HUGE_USER := Flags(true, true, true, 0, true, 0)    // 0x87
  const HUGE_KERNEL := Flags(true, true, false, 0, true, 0)  // 0x83
  const HIGH := 0xC_0000                                      // first frame of the last gigabyte

  /** PML4[0] leads to the PDPT, whose slots 0 and 3 lead to two directories full of 2 MB pages. */
  ghost predicate Built(m: Memory, pml4: nat, pdpt: nat, pd: nat, high: nat)
  {
    && pml4 < |m| && pdpt < |m| && pd < |m| && high < |m| && |m| <= U52
    && pml4 != pdpt && pml4 != pd && pml4 != high && pdpt != pd && pdpt != high && pd != high
    && (forall i: Index :: m[pml4][i] == if i == 0 then Word(pdpt, TABLE_FLAGS) else ZERO)
    && (forall i: Index :: m[pdpt][i] == if i == 0 then Word(pd, TABLE_FLAGS) else if i == 3
      then Word(high, TABLE_FLAGS) else ZERO)
    && (forall i: Index :: m[pd][i] == Word(512 * i, HUGE_USER))
    && (forall i: Index :: m[high][i] == Word(HIGH + 512 * i, HUGE_KERNEL))
  }

  ghost function BootRole(pml4: nat, pdpt: nat, pd: nat, high: nat): map<nat, Role>
  {
    map[pml4 := Root, pdpt := Pdpt(0), pd := Dir(0, 0), high := Dir(0, 3)]
  }

  /** These tables and no process make a state the machine may start in, whatever else the kernel owns
      and however the free frames are filled. */
  lemma BootOk(m: Memory, pml4: nat, pdpt: nat, pd: nat, high: nat, kernel: set<nat>, free: set<nat>)
    requires Built(m, pml4, pdpt, pd, high) && {pml4, pdpt, pd, high} <= kernel && kernel !! free
    ensures KernelTables(m, pml4, BootRole(pml4, pdpt, pd, high), kernel, pdpt, pd)
    ensures Isolated(m, map[], kernel, free)
    ensures forall i: Index :: !IsTable(DirEntry(m, pd, i))
  {
    var role := BootRole(pml4, pdpt, pd, high);
    assert forall i: Index :: !Descends(role[pd], m[pd][i]) && !Descends(role[high], m[high][i]);
    assert Tree(m, pml4, role);
  }

  /** Below 1 GB and in the last gigabyte below 4 GB every address translates to itself, every other
      one to nothing. */
  lemma BootIdentity(m: Memory, pml4: nat, pdpt: nat, pd: nat, high: nat, v: nat)
    requires Built(m, pml4, pdpt, pd, high) && v < 0x1_0000_0000_0000
    ensures Physical(m, pml4, v) == if v < 0x4000_0000 || 0xC000_0000 <= v < 0x1_0000_0000 then v else 0
  {
    var a: nat, b: nat, c: nat := Pml4Idx(v), PdptIdx(v), PdIdx(v);
    Indices(v);
    assert a != 0 ==> m[pml4][a] == ZERO;
    assert b != 0 && b != 3 ==> m[pdpt][b] == ZERO;
    assert m[pd][c] == Word(512 * c, HUGE_USER);
    assert m[high][c] == Word(HIGH + 512 * c, HUGE_KERNEL);
  }

  /** And ring 3 could use all of the first gigabyte, and nothing else: the boot tables are no user's. */
  lemma BootRights(m: Memory, pml4: nat, pdpt: nat, pd: nat, high: nat, v: nat, write: bool)
    requires Built(m, pml4, pdpt, pd, high) && v < 0x1_0000_0000_0000
    ensures UserMay(m, pml4, v, write) <==> v < 0x4000_0000
  {
    var a: Index, b: Index, c: Index := v / 0x80_0000_0000 % 512, v / 0x4000_0000 % 512, v / 0x20_0000 % 512;
    assert v < 0x4000_0000 <==> a == 0 && b == 0;
    assert m[pml4][a] == if a == 0 then Word(pdpt, TABLE_FLAGS) else ZERO;
    assert m[pd][c] == Word(512 * c, HUGE_USER) && m[high][c] == Word(HIGH + 512 * c, HUGE_KERNEL);
  }

  lemma Indices(v: nat)
    requires v < 0x1_0000_0000_0000
    ensures v == 0x80_0000_0000 * Pml4Idx(v) + 0x4000_0000 * PdptIdx(v) + 4096 * (512 * PdIdx(v) + PtIdx(v)) + v % 4096
  {
    GigaOffset(v);
    assert v / 0x4000_0000 == 512 * Pml4Idx(v) + PdptIdx(v);
  }
}
