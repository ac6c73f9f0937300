/** setup_page_tables of bootloader/uefi/paging.c: four loops over one set of tables.  On success
    every 64-bit address translates as one fixed plan says; no loop undoes an earlier one. */
module PagingSetup {
  import opened Bits
  import opened Values
  import opened PageWalk
  import opened Paging
  import opened PagingPool

  const TWO48 := 0x1_0000_0000_0000
  const ONE_GB := 0x4000_0000
  const FOUR_GB := 0x1_0000_0000
  const KERNEL_BASE := 0xFFFF_FFFF_8000_0000
  const DIRECT_BASE := 0xFFFF_8000_0000_0000
  const KERNEL_LOW := 0xFFFF_8000_0000        // the 48 bits of each base that the processor uses
  const DIRECT_LOW := 0x8000_0000_0000

  /** How far each of the four regions reaches. */
  datatype Layout = Layout(idLen: nat, kernelStart: nat, kernelLen: nat, fb: nat, fbLen: nat, directLen: nat)

  ghost predicate LayoutOk(l: Layout) {
    && l.idLen <= ONE_GB && l.idLen % PAGE == 0
    && l.kernelStart % PAGE == 0 && l.kernelLen % PAGE == 0 && l.kernelLen <= 0x8000_0000
    && l.kernelStart + l.kernelLen <= TWO48
    && l.fb % PAGE == 0 && l.fbLen % PAGE == 0 && l.fb + l.fbLen <= DIRECT_LOW
    && l.directLen % LARGE == 0 && l.directLen <= FOUR_GB
  }

  /** Every planned page is the supervisor's to write and to execute. */
  const SUPERVISOR := Rights(true, false, true)

  /** The translation of v under a layout. */
  function Planned(l: Layout, v: nat): Mapping {
    var a := v % TWO48;
    if DIRECT_LOW <= a < DIRECT_LOW + l.directLen then Mapped(a - DIRECT_LOW, 0x83, LARGE, SUPERVISOR)
    else if l.fb <= a < l.fb + l.fbLen then Mapped(a, 0x13, PAGE, SUPERVISOR)
    else if KERNEL_LOW <= a < KERNEL_LOW + l.kernelLen then
      Mapped(l.kernelStart + (a - KERNEL_LOW), 0x3, PAGE, SUPERVISOR)
    else if a < l.idLen then Mapped(a, 0x3, PAGE, SUPERVISOR)
    else Unmapped
  }

  // ---------------------------------------------------------------- pages as intervals

  lemma InPage(w: nat, v: nat)
    requires v % PAGE == 0
    ensures PageNo(w) == PageNo(v) <==> v % TWO48 <= w % TWO48 < v % TWO48 + PAGE
    ensures PageNo(w) == PageNo(v) ==> w % TWO48 == v % TWO48 + w % PAGE
  {
    ModSplit(w, 0x1000, 0x10_0000_0000);
    ModSplit(v, 0x1000, 0x10_0000_0000);
  }

  lemma InLarge(w: nat, v: nat)
    requires v % LARGE == 0
    ensures LargeNo(w) == LargeNo(v) <==> v % TWO48 <= w % TWO48 < v % TWO48 + LARGE
    ensures LargeNo(w) == LargeNo(v) ==> w % TWO48 == v % TWO48 + w % LARGE
  {
    ModSplit(w, 0x20_0000, 0x800_0000);
    ModSplit(v, 0x20_0000, 0x800_0000);
  }

  lemma AlignedAddr(p: nat)
    requires p < TWO48
    ensures p % PAGE == 0 ==> Addr(p) == p
    ensures p % LARGE == 0 ==> Addr2M(p) == p
  {
  }

  // ---------------------------------------------------------------- one iteration of each loop

  /** One mapping turns one plan into the next. */
  ghost predicate Takes4K(l: Layout, virt: nat, phys: nat, flags: nat, next: Layout) {
    forall w: nat :: With4K(Planned(l, w), virt, phys, flags, w) == Planned(next, w)
  }

  ghost predicate Takes2M(l: Layout, virt: nat, phys: nat, flags: nat, next: Layout) {
    forall w: nat :: With2M(Planned(l, w), virt, phys, flags, w) == Planned(next, w)
  }

  lemma IdentityStep(l: Layout, w: nat)
    requires LayoutOk(l) && l.idLen < ONE_GB && l.kernelLen == 0 && l.fbLen == 0 && l.directLen == 0
    ensures With4K(Planned(l, w), l.idLen, l.idLen, 0x3, w) == Planned(l.(idLen := l.idLen + PAGE), w)
  {
    InPage(w, l.idLen);
    AlignedAddr(l.idLen);
  }

  lemma IdentitySteps(l: Layout)
    requires LayoutOk(l) && l.idLen < ONE_GB && l.kernelLen == 0 && l.fbLen == 0 && l.directLen == 0
    ensures Takes4K(l, l.idLen, l.idLen, 0x3, l.(idLen := l.idLen + PAGE))
  {
    forall w: nat
      ensures With4K(Planned(l, w), l.idLen, l.idLen, 0x3, w)
         == Planned(l.(idLen := l.idLen + PAGE), w)
    {
      IdentityStep(l, w);
    }
  }

  lemma KernelStep(l: Layout, w: nat)
    requires LayoutOk(l) && l.kernelLen < 0x8000_0000 && l.kernelStart + l.kernelLen < TWO48
    requires l.fbLen == 0 && l.directLen == 0
    ensures With4K(Planned(l, w), KERNEL_BASE + l.kernelLen, l.kernelStart + l.kernelLen, 0x3, w)
         == Planned(l.(kernelLen := l.kernelLen + PAGE), w)
  {
    var v := KERNEL_BASE + l.kernelLen;
    QuotRem(v, TWO48, 0xFFFF, KERNEL_LOW + l.kernelLen);
    AlignedSum(KERNEL_BASE, l.kernelLen, PAGE);
    AlignedSum(l.kernelStart, l.kernelLen, PAGE);
    InPage(w, v);
    AlignedAddr(l.kernelStart + l.kernelLen);
  }

  lemma KernelSteps(l: Layout)
    requires LayoutOk(l) && l.kernelLen < 0x8000_0000 && l.kernelStart + l.kernelLen < TWO48
    requires l.fbLen == 0 && l.directLen == 0
    ensures Takes4K(l, KERNEL_BASE + l.kernelLen, l.kernelStart + l.kernelLen, 0x3, l.(kernelLen := l.kernelLen + PAGE))
  {
    forall w: nat
      ensures With4K(Planned(l, w), KERNEL_BASE + l.kernelLen, l.kernelStart + l.kernelLen, 0x3, w)
         == Planned(l.(kernelLen := l.kernelLen + PAGE), w)
    {
      KernelStep(l, w);
    }
  }

  lemma FramebufferStep(l: Layout, w: nat)
    requires LayoutOk(l) && l.fb + l.fbLen < DIRECT_LOW && l.directLen == 0
    ensures With4K(Planned(l, w), l.fb + l.fbLen, l.fb + l.fbLen, 0x13, w) == Planned(l.(fbLen := l.fbLen + PAGE), w)
  {
    var v := l.fb + l.fbLen;
    assert v % TWO48 == v;
    InPage(w, v);
    AlignedAddr(v);
  }

  lemma FramebufferSteps(l: Layout)
    requires LayoutOk(l) && l.fb + l.fbLen < DIRECT_LOW && l.directLen == 0
    ensures Takes4K(l, l.fb + l.fbLen, l.fb + l.fbLen, 0x13, l.(fbLen := l.fbLen + PAGE))
  {
    forall w: nat
      ensures With4K(Planned(l, w), l.fb + l.fbLen, l.fb + l.fbLen, 0x13, w)
         == Planned(l.(fbLen := l.fbLen + PAGE), w)
    {
      FramebufferStep(l, w);
    }
  }

  lemma DirectStep(l: Layout, w: nat)
    requires LayoutOk(l) && l.directLen < FOUR_GB
    ensures With2M(Planned(l, w), DIRECT_BASE + l.directLen, l.directLen, 0x3, w)
         == Planned(l.(directLen := l.directLen + LARGE), w)
  {
    var v := DIRECT_BASE + l.directLen;
    assert v % TWO48 == DIRECT_LOW + l.directLen;
    InLarge(w, v);
    AlignedAddr(l.directLen);
    assert Or(0x3, PAGE_HUGE) == 0x83 by { Powers(); OrDisjoint(1, 3, 7); }
  }

  lemma DirectSteps(l: Layout)
    requires LayoutOk(l) && l.directLen < FOUR_GB
    ensures Takes2M(l, DIRECT_BASE + l.directLen, l.directLen, 0x3, l.(directLen := l.directLen + LARGE))
  {
    forall w: nat
      ensures With2M(Planned(l, w), DIRECT_BASE + l.directLen, l.directLen, 0x3, w)
         == Planned(l.(directLen := l.directLen + LARGE), w)
    {
      DirectStep(l, w);
    }
  }

  /** While the direct map is empty no address has a 2 MB page in its way. */
  lemma NoLargeYet(l: Layout, v: nat)
    requires l.directLen == 0
    ensures !(Planned(l, v).Mapped? && Planned(l, v).size == LARGE)
  {
  }

  lemma NextFits(offset: nat, len: nat, step: nat)
    requires step > 0 && offset % step == 0 && len % step == 0 && offset < len
    ensures offset + step <= len && (offset + step) % step == 0
  {
    var i, n := offset / step, len / step;
    assert offset == step * i && len == step * n;
    if n <= i {
      MulMono(step, n, i);
      assert false;
    }
    MulMono(step, i + 1, n);
    assert step * (i + 1) == step * i + step;
    DivUnique(offset + step, step, i + 1, 0);
  }

  // ---------------------------------------------------------------- the loops

  ghost predicate Follows(pt: PageTables, pml4: nat, l: Layout)
    reads pt
  {
    pt.Valid(pml4) && forall v: nat :: Walk(pt.tables, pml4, v) == Planned(l, v)
  }

  lemma FlagBits()
    ensures Or(PAGE_PRESENT, PAGE_WRITE) == 0x3
    ensures Or(Or(PAGE_PRESENT, PAGE_WRITE), PAGE_NOCACHE) == 0x13
  {
    Powers();
    OrDisjoint(1, 1, 1);
    OrDisjoint(1, 3, 4);
  }

  /** The tables of `ways` were linked in turn, starting from stock s0. */
  ghost predicate Built(pt: PageTables, s0: Stock, ways: seq<Path>)
    reads pt
  {
    Same((pt.Stocked(), true), GrabAll(s0, ways))
  }

  lemma NextWay4K(ways: seq<Path>, base: nat, len: nat)
    ensures Same(ways + Ways4K(base, len) + Way4K(base + len), ways + Ways4K(base, len + PAGE))
  {
    assert ways + Ways4K(base, len) + Way4K(base + len) == ways + (Ways4K(base, len) + Way4K(base + len));
  }

  lemma NextWay2M(ways: seq<Path>, base: nat, len: nat)
    ensures Same(ways + Ways2M(base, len) + Way2M(base + len), ways + Ways2M(base, len + LARGE))
  {
    assert ways + Ways2M(base, len) + Way2M(base + len) == ways + (Ways2M(base, len) + Way2M(base + len));
  }

  lemma NoWay(ways: seq<Path>, base: nat)
    ensures Same(ways + Ways4K(base, 0), ways) && Same(ways + Ways2M(base, 0), ways)
  {
    assert ways + [] == ways;
  }

  /** What one turn of a loop of 4 KB pages needs besides its step of the plan. */
  lemma Turn4K(s0: Stock, ways: seq<Path>, base: nat, offset: nat, len: nat)
    requires offset < len && offset % PAGE == 0 && len % PAGE == 0
    ensures offset + PAGE <= len && (offset + PAGE) % PAGE == 0
    ensures Same(ways + Ways4K(base, offset) + Way4K(base + offset), ways + Ways4K(base, offset + PAGE))
    ensures !GrabAll(s0, ways + Ways4K(base, offset + PAGE)).1 ==> !GrabAll(s0, ways + Ways4K(base, len)).1
  {
    NextFits(offset, len, PAGE);
    NextWay4K(ways, base, offset);
    if !GrabAll(s0, ways + Ways4K(base, offset + PAGE)).1 {
      Fails4K(s0, ways, base, offset + PAGE, len);
    }
  }

  lemma Turn2M(s0: Stock, ways: seq<Path>, addr: nat)
    requires addr < FOUR_GB && addr % LARGE == 0
    ensures addr + LARGE <= FOUR_GB && (addr + LARGE) % LARGE == 0
    ensures Same(ways + Ways2M(DIRECT_BASE, addr) + Way2M(DIRECT_BASE + addr), ways + Ways2M(DIRECT_BASE, addr + LARGE))
    ensures !GrabAll(s0, ways + Ways2M(DIRECT_BASE, addr + LARGE)).1 ==>
              !GrabAll(s0, ways + Ways2M(DIRECT_BASE, FOUR_GB)).1
  {
    NextFits(addr, FOUR_GB, LARGE);
    NextWay2M(ways, DIRECT_BASE, addr);
    if !GrabAll(s0, ways + Ways2M(DIRECT_BASE, addr + LARGE)).1 {
      Fails2M(s0, ways, DIRECT_BASE, addr + LARGE, FOUR_GB);
    }
  }

  /** One 4 KB mapping takes the tables from one plan to the next. */
  method Extend4K(pt: PageTables, pml4: nat, virt: nat, phys: nat, flags: nat, ghost l: Layout, ghost next: Layout,
                  ghost s0: Stock, ghost ways: seq<Path>)
    returns (ok: bool)
    requires Follows(pt, pml4, l) && flags < PAGE && l.directLen == 0
    requires Built(pt, s0, ways) && Takes4K(l, virt, phys, flags, next)
    modifies pt
    ensures ok ==> Follows(pt, pml4, next) && Built(pt, s0, ways + Way4K(virt))
    ensures ok == GrabAll(s0, ways + Way4K(virt)).1
  {
    NoLargeYet(l, virt);
    GrabAllConcat(s0, ways, Way4K(virt));
    ok := pt.MapPage4K(pml4, virt, phys, flags);
  }

  /** A table that was never linked can be left out of the stock. */
  lemma NotLinked(s0: Stock, ways: seq<Path>, p: Path)
    requires GrabAll(s0, ways).1 && p !in s0.linked && p !in ways
    ensures var t := GrabAll(s0, ways).0; Same(t.(linked := t.linked - {p}), t)
  {
    PoolSuffices(s0, ways);
    var t := GrabAll(s0, ways).0;
    assert t.linked - {p} == t.linked;
  }

  method Extend2M(pt: PageTables, pml4: nat, virt: nat, phys: nat, flags: nat, ghost l: Layout, ghost next: Layout,
                  ghost s0: Stock, ghost ways: seq<Path>)
    returns (ok: bool)
    requires Follows(pt, pml4, l) && flags < PAGE && Built(pt, s0, ways)
    requires PtOf(virt) !in s0.linked && PtOf(virt) !in ways
    requires Takes2M(l, virt, phys, flags, next)
    modifies pt
    ensures ok ==> Follows(pt, pml4, next) && Built(pt, s0, ways + Way2M(virt))
    ensures ok == GrabAll(s0, ways + Way2M(virt)).1
  {
    GrabAllConcat(s0, ways, Way2M(virt));
    ok := pt.MapPage2M(pml4, virt, phys, flags);
    if ok {
      NotLinked(s0, ways + Way2M(virt), PtOf(virt));
    }
  }

  /** A directory entry of the direct map has no table under it. */
  lemma DirectClearAt(s0: Stock, ways: seq<Path>, addr: nat)
    requires DirectClear(s0, ways) && addr < FOUR_GB
    ensures PtOf(DIRECT_BASE + addr) !in s0.linked && PtOf(DIRECT_BASE + addr) !in ways + Ways2M(DIRECT_BASE, addr)
  {
    NoPtIn2M(DIRECT_BASE, addr, DIRECT_BASE + addr);
  }

  /** The step of the plan that a turn of each loop takes. */
  lemma KernelPlan(l: Layout, offset: nat, len: nat, virt: nat, phys: nat)
    requires LayoutOk(l.(kernelLen := len)) && offset < len && offset % PAGE == 0 && l.fbLen == 0 && l.directLen == 0
    requires virt == KERNEL_BASE + offset && phys == l.kernelStart + offset
    ensures Takes4K(l.(kernelLen := offset), virt, phys, 0x3, l.(kernelLen := offset + PAGE))
    ensures offset + PAGE <= len && (offset + PAGE) % PAGE == 0
  {
    NextFits(offset, len, PAGE);
    KernelSteps(l.(kernelLen := offset));
  }

  lemma FramebufferPlan(l: Layout, offset: nat, len: nat)
    requires LayoutOk(l.(fbLen := len)) && offset < len && offset % PAGE == 0 && l.directLen == 0
    ensures Takes4K(l.(fbLen := offset), l.fb + offset, l.fb + offset, 0x13, l.(fbLen := offset + PAGE))
  {
    NextFits(offset, len, PAGE);
    FramebufferSteps(l.(fbLen := offset));
  }

  /** One turn of the identity loop. */
  method IdentityTurn(pt: PageTables, pml4: nat, addr: nat, flags: nat, ghost l: Layout, ghost s0: Stock,
                      ghost ways: seq<Path>)
    returns (ok: bool)
    requires addr < ONE_GB && addr % PAGE == 0 && flags == 0x3 && LayoutOk(l)
    requires l.kernelLen == 0 && l.fbLen == 0 && l.directLen == 0
    requires Follows(pt, pml4, l.(idLen := addr)) && Built(pt, s0, ways + Ways4K(0, addr))
    modifies pt
    ensures ok ==> Follows(pt, pml4, l.(idLen := addr + PAGE)) && Built(pt, s0, ways + Ways4K(0, addr + PAGE))
    ensures !ok ==> !GrabAll(s0, ways + Ways4K(0, ONE_GB)).1
    ensures addr + PAGE <= ONE_GB && (addr + PAGE) % PAGE == 0
  {
    Turn4K(s0, ways, 0, addr, ONE_GB);
    IdentitySteps(l.(idLen := addr));
    ok := Extend4K(pt, pml4, addr, addr, flags, l.(idLen := addr), l.(idLen := addr + PAGE), s0,
                   ways + Ways4K(0, addr));
  }

  method MapIdentity(pt: PageTables, pml4: nat, ghost l: Layout, ghost s0: Stock, ghost ways: seq<Path>)
    returns (ok: bool)
    requires Follows(pt, pml4, l) && LayoutOk(l) && Built(pt, s0, ways)
    requires l.idLen == 0 && l.kernelLen == 0 && l.fbLen == 0 && l.directLen == 0
    modifies pt
    ensures ok ==> Follows(pt, pml4, l.(idLen := ONE_GB)) && Built(pt, s0, ways + Ways4K(0, ONE_GB))
    ensures ok == GrabAll(s0, ways + Ways4K(0, ONE_GB)).1
  {
    FlagBits();
    var flags := Or(PAGE_PRESENT, PAGE_WRITE);
    var addr := 0;
    NoWay(ways, 0);
    while addr < 0x4000_0000
      invariant addr % PAGE == 0 && addr <= ONE_GB
      invariant Follows(pt, pml4, l.(idLen := addr)) && Built(pt, s0, ways + Ways4K(0, addr))
    {
      ok := IdentityTurn(pt, pml4, addr, flags, l, s0, ways);
      if !ok {
        return;
      }
      addr := addr + 0x1000;
    }
    ok := true;
  }

  /** One turn of the kernel loop over len bytes. */
  method KernelTurn(pt: PageTables, pml4: nat, start: nat, offset: nat, flags: nat, ghost len: nat, ghost l: Layout,
                    ghost s0: Stock, ghost ways: seq<Path>)
    returns (ok: bool)
    requires offset < len && offset % PAGE == 0 && flags == 0x3 && l.kernelStart == start
    requires LayoutOk(l.(kernelLen := len)) && l.fbLen == 0 && l.directLen == 0
    requires Follows(pt, pml4, l.(kernelLen := offset)) && Built(pt, s0, ways + Ways4K(KERNEL_BASE, offset))
    modifies pt
    ensures ok ==> Follows(pt, pml4, l.(kernelLen := offset + PAGE))
    ensures ok ==> Built(pt, s0, ways + Ways4K(KERNEL_BASE, offset + PAGE))
    ensures !ok ==> !GrabAll(s0, ways + Ways4K(KERNEL_BASE, len)).1
    ensures offset + PAGE <= len && (offset + PAGE) % PAGE == 0
  {
    var virt := KERNEL_BASE + offset;
    var phys := start + offset;
    Turn4K(s0, ways, KERNEL_BASE, offset, len);
    KernelPlan(l, offset, len, virt, phys);
    ok := Extend4K(pt, pml4, virt, phys, flags, l.(kernelLen := offset), l.(kernelLen := offset + PAGE), s0,
                   ways + Ways4K(KERNEL_BASE, offset));
  }

  method MapKernel(pt: PageTables, pml4: nat, start: nat, end: nat, ghost l: Layout, ghost s0: Stock,
                   ghost ways: seq<Path>)
    returns (ok: bool)
    requires Follows(pt, pml4, l) && l.kernelStart == start && start <= end && Built(pt, s0, ways)
    requires LayoutOk(l.(kernelLen := end - start))
    requires l.kernelLen == 0 && l.fbLen == 0 && l.directLen == 0
    modifies pt
    ensures ok ==> Follows(pt, pml4, l.(kernelLen := end - start))
                   && Built(pt, s0, ways + Ways4K(KERNEL_BASE, end - start))
    ensures ok == GrabAll(s0, ways + Ways4K(KERNEL_BASE, end - start)).1
  {
    FlagBits();
    var flags := Or(PAGE_PRESENT, PAGE_WRITE);
    var len: nat := end - start;
    var offset: nat := 0;
    NoWay(ways, KERNEL_BASE);
    while offset < len
      invariant offset % PAGE == 0 && offset <= len
      invariant Follows(pt, pml4, l.(kernelLen := offset)) && Built(pt, s0, ways + Ways4K(KERNEL_BASE, offset))
    {
      ok := KernelTurn(pt, pml4, start, offset, flags, len, l, s0, ways);
      if !ok {
        return;
      }
      offset := offset + 0x1000;
    }
    ok := true;
  }

  /** One turn of the frame buffer loop over size bytes. */
  method FramebufferTurn(pt: PageTables, pml4: nat, fb: nat, offset: nat, flags: nat, ghost size: nat, ghost l: Layout,
                         ghost s0: Stock, ghost ways: seq<Path>)
    returns (ok: bool)
    requires offset < size && offset % PAGE == 0 && flags == 0x13 && l.fb == fb
    requires LayoutOk(l.(fbLen := size)) && l.directLen == 0
    requires Follows(pt, pml4, l.(fbLen := offset)) && Built(pt, s0, ways + Ways4K(fb, offset))
    modifies pt
    ensures ok ==> Follows(pt, pml4, l.(fbLen := offset + PAGE)) && Built(pt, s0, ways + Ways4K(fb, offset + PAGE))
    ensures !ok ==> !GrabAll(s0, ways + Ways4K(fb, size)).1
    ensures offset + PAGE <= size && (offset + PAGE) % PAGE == 0
  {
    Turn4K(s0, ways, fb, offset, size);
    FramebufferPlan(l, offset, size);
    ok := Extend4K(pt, pml4, fb + offset, fb + offset, flags, l.(fbLen := offset), l.(fbLen := offset + PAGE), s0,
                   ways + Ways4K(fb, offset));
  }

  method MapFramebuffer(pt: PageTables, pml4: nat, fb: nat, size: nat, ghost l: Layout, ghost s0: Stock,
                        ghost ways: seq<Path>)
    returns (ok: bool)
    requires Follows(pt, pml4, l) && l.fb == fb && LayoutOk(l.(fbLen := size)) && Built(pt, s0, ways)
    requires l.fbLen == 0 && l.directLen == 0
    modifies pt
    ensures ok ==> Follows(pt, pml4, l.(fbLen := size)) && Built(pt, s0, ways + Ways4K(fb, size))
    ensures ok == GrabAll(s0, ways + Ways4K(fb, size)).1
  {
    FlagBits();
    var flags := Or(Or(PAGE_PRESENT, PAGE_WRITE), PAGE_NOCACHE);
    var offset := 0;
    NoWay(ways, fb);
    while offset < size
      invariant offset % PAGE == 0 && offset <= size
      invariant Follows(pt, pml4, l.(fbLen := offset)) && Built(pt, s0, ways + Ways4K(fb, offset))
    {
      ok := FramebufferTurn(pt, pml4, fb, offset, flags, size, l, s0, ways);
      if !ok {
        return;
      }
      offset := offset + 0x1000;
    }
    ok := true;
  }

  /** No table of `ways` lies under a directory entry of the direct map. */
  ghost predicate DirectClear(s0: Stock, ways: seq<Path>) {
    forall w: nat :: DIRECT_BASE <= w < DIRECT_BASE + FOUR_GB ==> PtOf(w) !in s0.linked && PtOf(w) !in ways
  }

  method MapDirect(pt: PageTables, pml4: nat, ghost l: Layout, ghost s0: Stock, ghost ways: seq<Path>)
    returns (ok: bool)
    requires Follows(pt, pml4, l) && LayoutOk(l) && l.directLen == 0 && Built(pt, s0, ways) && DirectClear(s0, ways)
    modifies pt
    ensures ok ==> Follows(pt, pml4, l.(directLen := FOUR_GB)) && Built(pt, s0, ways + Ways2M(DIRECT_BASE, FOUR_GB))
    ensures ok == GrabAll(s0, ways + Ways2M(DIRECT_BASE, FOUR_GB)).1
  {
    FlagBits();
    var flags := Or(PAGE_PRESENT, PAGE_WRITE);
    var addr := 0;
    NoWay(ways, DIRECT_BASE);
    while addr < 0x1_0000_0000
      invariant addr % LARGE == 0 && addr <= FOUR_GB
      invariant Follows(pt, pml4, l.(directLen := addr)) && Built(pt, s0, ways + Ways2M(DIRECT_BASE, addr))
    {
      var virt := DIRECT_BASE + addr;
      ghost var now := l.(directLen := addr);
      ghost var next := now.(directLen := addr + LARGE);
      Turn2M(s0, ways, addr);
      DirectSteps(now);
      DirectClearAt(s0, ways, addr);
      ok := Extend2M(pt, pml4, virt, addr, flags, now, next, s0, ways + Ways2M(DIRECT_BASE, addr));
      if !ok {
        return;
      }
      addr := addr + 0x20_0000;
    }
    ok := true;
  }

  // ---------------------------------------------------------------- the tables of the whole plan

  /** The tables on the way to every page of the first three regions, and of all four. */
  function Ways3(l: Layout): seq<Path> {
    Ways4K(0, l.idLen) + Ways4K(KERNEL_BASE, l.kernelLen) + Ways4K(l.fb, l.fbLen)
  }

  function AllWays(l: Layout): seq<Path> {
    Ways3(l) + Ways2M(DIRECT_BASE, l.directLen)
  }

  /** How many tables the plan needs, the root included. */
  function Needed(l: Layout): nat {
    |{Root} + Elems(AllWays(l))|
  }

  /** A pool of one page for the root and one for each 2 MB, 1 GB and 512 GB that a 4 KB region
      touches, and five for the direct map, is enough. */
  lemma NeededAtMost(l: Layout)
    requires LayoutOk(l) && l.directLen == FOUR_GB
    ensures Needed(l) <= 6 + Tables4K(0, l.idLen) + Tables4K(KERNEL_BASE, l.kernelLen) + Tables4K(l.fb, l.fbLen)
  {
    Count4K(0, l.idLen);
    Count4K(KERNEL_BASE, l.kernelLen);
    Count4K(l.fb, l.fbLen);
    Count2M(DIRECT_BASE, l.directLen);
    SizeConcat(Ways4K(0, l.idLen), Ways4K(KERNEL_BASE, l.kernelLen));
    SizeConcat(Ways4K(0, l.idLen) + Ways4K(KERNEL_BASE, l.kernelLen), Ways4K(l.fb, l.fbLen));
    SizeConcat(Ways3(l), Ways2M(DIRECT_BASE, l.directLen));
    assert Tables2M(DIRECT_BASE, FOUR_GB) == 5;
    WithSize(Elems(AllWays(l)), Root);
    assert {Root} + Elems(AllWays(l)) == Elems(AllWays(l)) + {Root};
  }

  lemma SizeConcat(a: seq<Path>, b: seq<Path>)
    ensures |Elems(a + b)| <= |Elems(a)| + |Elems(b)|
  {
    ElemsConcat(a, b);
    UnionSize(Elems(a), Elems(b));
  }

  lemma UnionSize(a: set<Path>, b: set<Path>)
    ensures |a + b| == |a| + Missing(a, b) && Missing(a, b) <= |b|
  {
    assert a + b == a + (b - a);
    assert b == (b - a) + (b * a);
  }

  /** The 4 KB regions stay clear of the direct map. */
  lemma ClearOfDirect(l: Layout, left: nat)
    requires LayoutOk(l)
    ensures DirectClear(Stock({Root}, left), Ways3(l))
  {
    forall w: nat | DIRECT_BASE <= w < DIRECT_BASE + FOUR_GB
      ensures PtOf(w) !in Ways3(l)
    {
      RegionsApart(l, w);
      NoPtOf(0, l.idLen, w);
      NoPtOf(KERNEL_BASE, l.kernelLen, w);
      NoPtOf(l.fb, l.fbLen, w);
    }
  }

  lemma RegionsApart(l: Layout, w: nat)
    requires LayoutOk(l) && DIRECT_BASE <= w < DIRECT_BASE + FOUR_GB
    ensures Apart(0, l.idLen, w) && Apart(KERNEL_BASE, l.kernelLen, w) && Apart(l.fb, l.fbLen, w)
  {
    assert 0x400_0000 <= LargeNo(w) < 0x400_0800;
    forall v: nat | KERNEL_BASE <= v < KERNEL_BASE + l.kernelLen
      ensures LargeNo(v) >= 0x7FF_FC00
    {
    }
  }

  // ---------------------------------------------------------------- set-up as a whole

  /** x & ~0xFFF */
  function AlignDown(x: nat): nat {
    And(x, 0xFFFF_FFFF_FFFF_F000)
  }

  lemma AlignDownIs(x: nat)
    requires x < 0x1_0000_0000_0000_0000
    ensures AlignDown(x) == x - x % PAGE
  {
    MaskLow12(x);
    assert x / 0x1000 < 0x10_0000_0000_0000;
  }

  lemma MaskLow12(x: nat)
    ensures AlignDown(x) == x / 0x1000 % 0x10_0000_0000_0000 * 0x1000
  {
    Powers();
    AndField(x, 12, 52, 0xF_FFFF_FFFF_FFFF);
  }

  /** x rounded up to a page. */
  function RoundUp(x: nat): nat {
    (x + 0xFFF) / PAGE * PAGE
  }

  /** The layout set-up aims at. */
  function FinalLayout(kernelStart: nat, kernelEnd: nat, fb: nat, fbSize: nat): Layout
    requires kernelStart <= kernelEnd
  {
    var start := kernelStart - kernelStart % PAGE;
    Layout(ONE_GB, start, RoundUp(kernelEnd) - start,
           fb - fb % PAGE, if fb == 0 then 0 else RoundUp(fbSize), FOUR_GB)
  }

  /** The C expressions for the bounds are those of the final layout. */
  lemma FinalBounds(kernelStart: nat, kernelEnd: nat, fb: nat, fbSize: nat)
    requires kernelStart <= kernelEnd && LayoutOk(FinalLayout(kernelStart, kernelEnd, fb, fbSize))
    requires fb < DIRECT_LOW && fbSize < DIRECT_LOW
    ensures var l := FinalLayout(kernelStart, kernelEnd, fb, fbSize);
            && AlignDown(kernelStart) == l.kernelStart
            && AlignDown(kernelEnd + 0xFFF) == l.kernelStart + l.kernelLen
            && AlignDown(fb) == l.fb
            && (if fb == 0 then l.fbLen == 0 else AlignDown(fbSize + 0xFFF) == l.fbLen)
  {
    AlignDownIs(kernelStart);
    AlignDownIs(kernelEnd + 0xFFF);
    AlignDownIs(fb);
    AlignDownIs(fbSize + 0xFFF);
  }

  method NewRoot(pt: PageTables, ghost l: Layout) returns (ok: bool, pml4: nat)
    requires pt.tables == map[] && PoolOk(pt.free, pt.tables)
    requires l.idLen == 0 && l.kernelLen == 0 && l.fbLen == 0 && l.directLen == 0
    modifies pt
    ensures ok <==> old(pt.free) != []
    ensures ok ==> Follows(pt, pml4, l) && Same(pt.Stocked(), Stock({Root}, old(|pt.free|) - 1))
  {
    ok, pml4 := pt.AllocPageTable();
    if ok {
      EmptyTree(pt, pml4, l);
      pt.node := map[Root := pml4];
      assert pt.node.Keys == {Root};
    }
  }

  /** On success every address translates as the final layout plans, and it succeeds exactly when
      the firmware has a page for every table of the plan.  The kernel image is at most 2 GB, the
      frame buffer lies in the lower half. */
  method SetupPageTables(pt: PageTables, kernelStart: nat, kernelEnd: nat, fb: nat, fbSize: nat)
    returns (ok: bool, pml4: nat)
    requires pt.tables == map[] && PoolOk(pt.free, pt.tables)
    requires kernelStart <= kernelEnd && LayoutOk(FinalLayout(kernelStart, kernelEnd, fb, fbSize))
    requires fb < DIRECT_LOW && fbSize < DIRECT_LOW
    modifies pt
    ensures ok ==> Follows(pt, pml4, FinalLayout(kernelStart, kernelEnd, fb, fbSize))
    ensures ok ==> forall v: nat :: var m := Walk(pt.tables, pml4, v); m.Mapped? ==> m.rights.write && !m.rights.user
    ensures ok <==> Needed(FinalLayout(kernelStart, kernelEnd, fb, fbSize)) <= old(|pt.free|)
  {
    FinalBounds(kernelStart, kernelEnd, fb, fbSize);
    ghost var final := FinalLayout(kernelStart, kernelEnd, fb, fbSize);
    ok, pml4 := BuildTables(pt, AlignDown(kernelStart), AlignDown(kernelEnd + 0xFFF), fb != 0,
                            AlignDown(fb), AlignDown(fbSize + 0xFFF), final);
  }

  /** The root, then the four regions. */
  method BuildTables(pt: PageTables, start: nat, end: nat, hasFb: bool, fb: nat, fbLen: nat, ghost final: Layout)
    returns (ok: bool, pml4: nat)
    requires pt.tables == map[] && PoolOk(pt.free, pt.tables)
    requires LayoutOk(final) && final.idLen == ONE_GB && final.directLen == FOUR_GB
    requires start == final.kernelStart && end == start + final.kernelLen
    requires fb == final.fb && (if hasFb then fbLen == final.fbLen else final.fbLen == 0)
    modifies pt
    ensures ok ==> Follows(pt, pml4, final)
    ensures ok <==> Needed(final) <= old(|pt.free|)
  {
    ghost var pool := |pt.free|;
    UnionSize({Root}, Elems(AllWays(final)));
    ok, pml4 := NewRoot(pt, final.(idLen := 0, kernelLen := 0, fbLen := 0, directLen := 0));
    if !ok {
      return;
    }
    PoolSuffices(Stock({Root}, pool - 1), AllWays(final));
    ok := MapRegions(pt, pml4, start, end, hasFb, fb, fbLen, final, Stock({Root}, pool - 1));
  }

  /** The body of set-up once the bounds are aligned and the root is there. */
  method MapRegions(pt: PageTables, pml4: nat, start: nat, end: nat, hasFb: bool, fb: nat, fbLen: nat,
                    ghost final: Layout, ghost s0: Stock)
    returns (ok: bool)
    requires Follows(pt, pml4, final.(idLen := 0, kernelLen := 0, fbLen := 0, directLen := 0))
    requires Same(pt.Stocked(), s0) && s0.linked == {Root}
    requires LayoutOk(final) && final.idLen == ONE_GB && final.directLen == FOUR_GB
    requires start == final.kernelStart && end == start + final.kernelLen
    requires fb == final.fb && (if hasFb then fbLen == final.fbLen else final.fbLen == 0)
    modifies pt
    ensures ok ==> Follows(pt, pml4, final)
    ensures ok == GrabAll(s0, AllWays(final)).1
  {
    ghost var l1 := final.(kernelLen := 0, fbLen := 0, directLen := 0);
    ghost var l2, l3 := final.(fbLen := 0, directLen := 0), final.(directLen := 0);
    ghost var id, kernel := Ways4K(0, ONE_GB), Ways4K(KERNEL_BASE, final.kernelLen);
    ghost var screen, direct := Ways4K(final.fb, final.fbLen), Ways2M(DIRECT_BASE, FOUR_GB);
    FourRegions(s0, id, kernel, screen, direct);
    PartsOk(final);
    ok := MapIdentity(pt, pml4, l1.(idLen := 0), s0, []);
    if !ok {
      return;
    }
    assert l1.(idLen := ONE_GB) == l1 && l1.(kernelLen := end - start) == l2;
    ok := MapKernel(pt, pml4, start, end, l1, s0, id);
    if !ok {
      return;
    }
    if hasFb {
      assert l2.(fbLen := fbLen) == l3;
      ok := MapFramebuffer(pt, pml4, fb, fbLen, l2, s0, id + kernel);
      if !ok {
        return;
      }
    } else {
      assert l2 == l3;
      NoWay(id + kernel, final.fb);
    }
    ClearOfDirect(final, s0.left);
    ok := MapDirect(pt, pml4, l3, s0, id + kernel + screen);
  }

  /** The plan stays within its limits while only some of its regions are there. */
  lemma PartsOk(l: Layout)
    requires LayoutOk(l)
    ensures LayoutOk(l.(idLen := 0, kernelLen := 0, fbLen := 0, directLen := 0))
    ensures LayoutOk(l.(kernelLen := 0, fbLen := 0, directLen := 0))
    ensures LayoutOk(l.(fbLen := 0, directLen := 0))
    ensures LayoutOk(l.(directLen := 0))
  {
  }

  /** A region that fails fails the whole. */
  lemma FourRegions(s0: Stock, a: seq<Path>, b: seq<Path>, c: seq<Path>, d: seq<Path>)
    ensures Same([] + a, a)
    ensures !GrabAll(s0, a).1 || !GrabAll(s0, a + b).1 || !GrabAll(s0, a + b + c).1 ==> !GrabAll(s0, a + b + c + d).1
  {
    assert [] + a == a;
    GrabAllConcat(s0, a, b);
    GrabAllConcat(s0, a + b, c);
    GrabAllConcat(s0, a + b + c, d);
  }

  lemma EmptyTree(pt: PageTables, pml4: nat, l: Layout)
    requires pt.tables == map[pml4 := EmptyTable()] && TableOk(pt.tables, pml4)
    requires l.idLen == 0 && l.kernelLen == 0 && l.fbLen == 0 && l.directLen == 0
    ensures IsTree(pt.tables, pml4, map[Root := pml4])
    ensures forall v: nat :: Walk(pt.tables, pml4, v) == Planned(l, v)
  {
  }

  /** What the plan gives its users: the four windows the kernel relies on. */
  lemma PlanWindows(kernelStart: nat, kernelEnd: nat, fb: nat, fbSize: nat, a: nat)
    requires kernelStart <= kernelEnd && LayoutOk(FinalLayout(kernelStart, kernelEnd, fb, fbSize))
    ensures var l := FinalLayout(kernelStart, kernelEnd, fb, fbSize);
            && (a < ONE_GB ==> Planned(l, a).Mapped? && Planned(l, a).phys == a)
            && (kernelStart <= a < kernelEnd ==>
                  Planned(l, KERNEL_BASE + (a - l.kernelStart)) == Mapped(a, 0x3, PAGE, SUPERVISOR))
            && (a < FOUR_GB ==> Planned(l, DIRECT_BASE + a) == Mapped(a, 0x83, LARGE, SUPERVISOR))
            && (l.fb <= a < l.fb + l.fbLen ==> Planned(l, a) == Mapped(a, 0x13, PAGE, SUPERVISOR))
  {
    var l := FinalLayout(kernelStart, kernelEnd, fb, fbSize);
    LowWindows(l, a);
    if kernelStart <= a < kernelEnd {
      assert a - l.kernelStart < l.kernelLen;
      HighWindows(l, a - l.kernelStart);
    }
    HighWindows(l, a);
  }

  lemma LowWindows(l: Layout, a: nat)
    requires LayoutOk(l) && l.idLen == ONE_GB
    ensures a < ONE_GB ==> Planned(l, a).Mapped? && Planned(l, a).phys == a
    ensures l.fb <= a < l.fb + l.fbLen ==> Planned(l, a) == Mapped(a, 0x13, PAGE, SUPERVISOR)
  {
    if a < DIRECT_LOW {
      ModSmall(a, TWO48);
    }
  }

  lemma HighWindows(l: Layout, o: nat)
    requires LayoutOk(l) && l.directLen == FOUR_GB
    ensures o < l.kernelLen ==> Planned(l, KERNEL_BASE + o) == Mapped(l.kernelStart + o, 0x3, PAGE, SUPERVISOR)
    ensures o < FOUR_GB ==> Planned(l, DIRECT_BASE + o) == Mapped(o, 0x83, LARGE, SUPERVISOR)
  {
    if o < l.kernelLen {
      QuotRem(KERNEL_BASE + o, TWO48, 0xFFFF, KERNEL_LOW + o);
    }
    if o < FOUR_GB {
      QuotRem(DIRECT_BASE + o, TWO48, 0xFFFF, DIRECT_LOW + o);
    }
  }

  /** The base is rounded down and the size rounded up separately, so the end of an unaligned
      frame buffer can stay outside: the whole buffer gets its uncached mapping exactly when the
      offset of its base still fits in the slack of the rounded size. */
  lemma FramebufferCovered(kernelStart: nat, kernelEnd: nat, fb: nat, fbSize: nat)
    requires kernelStart <= kernelEnd && LayoutOk(FinalLayout(kernelStart, kernelEnd, fb, fbSize))
    requires fb > 0 && fbSize > 0 && fb + fbSize <= DIRECT_LOW
    ensures (forall a :: fb <= a < fb + fbSize ==>
               Planned(FinalLayout(kernelStart, kernelEnd, fb, fbSize), a) == Mapped(a, 0x13, PAGE, SUPERVISOR))
            <==> fb % PAGE + fbSize <= RoundUp(fbSize)
  {
    var l := FinalLayout(kernelStart, kernelEnd, fb, fbSize);
    var last := fb + fbSize - 1;
    assert last % TWO48 == last;
    if fb % PAGE + fbSize <= RoundUp(fbSize) {
      forall a | fb <= a < fb + fbSize
        ensures Planned(l, a) == Mapped(a, 0x13, PAGE, SUPERVISOR)
      {
        assert a % TWO48 == a;
      }
    } else {
      assert Planned(l, last) != Mapped(last, 0x13, PAGE, SUPERVISOR);
    }
  }

  /** A one-page frame buffer that starts in the middle of a page is cut short. */
  lemma FramebufferCutExample()
    ensures Planned(FinalLayout(0, 0, 0x8000_0800, 0x1000), 0x8000_1000) == Unmapped
  {
  }
}
