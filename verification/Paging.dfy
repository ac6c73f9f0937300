/** bootloader/uefi/paging.c: page tables built in place by on-demand allocation.  Each mapping
    call refines an update of the translation map; set-up as a whole produces one fixed map. */
module Paging {
  import opened Bits
  import opened Values
  import opened PageWalk

  const PAGE_PRESENT := 0x1
  const PAGE_WRITE := 0x2
  const PAGE_NOCACHE := 0x10
  const PAGE_HUGE := 0x80
  const ADDR_MASK := 0xFFFF_FFFF_F000
  const LARGE_MASK := 0xFFFF_FFE0_0000

  /** A page the firmware hands out: its address and whatever it held before. */
  datatype FreePage = FreePage(addr: nat, content: seq<nat>)

  /** Answers of AllocatePages, in order; the firmware fails when they run out.  Pages are fresh,
      aligned and below 2^48. */
  ghost predicate PoolOk(free: seq<FreePage>, ts: Tables) {
    && (forall k :: 0 <= k < |free| ==>
          free[k].addr !in ts && |free[k].content| == ENTRIES
          && free[k].addr % PAGE == 0 && free[k].addr < 0x1_0000_0000_0000)
    && (forall j, k :: 0 <= j < k < |free| ==> free[j].addr != free[k].addr)
  }

  // ---------------------------------------------------------------- C expressions

  lemma IndexBits(v: nat)
    ensures And(Shr(v, 39), 0x1FF) == Idx4(v) && And(Shr(v, 30), 0x1FF) == Idx3(v)
    ensures And(Shr(v, 21), 0x1FF) == Idx2(v) && And(Shr(v, 12), 0x1FF) == Idx1(v)
  {
    Powers();
    AndMask(Shr(v, 39), 9);
    AndMask(Shr(v, 30), 9);
    AndMask(Shr(v, 21), 9);
    AndMask(Shr(v, 12), 9);
  }

  lemma EntryBits(e: nat)
    ensures And(e, PAGE_PRESENT) == e % 2
    ensures And(e, ADDR_MASK) == Addr(e) && And(e, LARGE_MASK) == Addr2M(e)
  {
    Powers();
    AndMask(e, 1);
    AndField(e, 12, 36, 0xF_FFFF_FFFF);
    AndField(e, 21, 27, 0x7FF_FFFF);
  }

  /** OR of a multiple of the page size and low bits. */
  lemma Or12(hi: nat, lo: nat)
    requires lo < 0x1000
    ensures Or(hi * 0x1000, lo) == hi * 0x1000 + lo
  {
    Powers();
    OrDisjoint(hi, lo, 12);
  }

  lemma OrFlags(hi: nat, a: nat, b: nat)
    requires a < 0x1000 && b < 0x1000
    ensures Or(a, b) < 0x1000 && Or(hi * 0x1000 + a, b) == hi * 0x1000 + Or(a, b)
  {
    Powers();
    OrSplit(hi, a, b, 12);
  }

  /** The fields of an entry made of frame k and low bits f. */
  lemma EntryFields(k: nat, f: nat, e: nat)
    requires k < 0x10_0000_0000 && f < PAGE && e == k * 0x1000 + f
    ensures Addr(e) == k * 0x1000 && e % PAGE == f
    ensures Present(e) <==> Present(f)
    ensures Huge(e) <==> Huge(f)
  {
    DivUnique(e, 0x1000, k, f);
    DivUnique(e, 128, k * 32 + f / 128, f % 128);
    DivUnique(e, 2, k * 0x800 + f / 2, f % 2);
    DivUnique(k * 32 + f / 128, 2, k * 16 + f / 128 / 2, f / 128 % 2);
  }

  /** The rights of such an entry are those of its low bits. */
  lemma EntryAllows(k: nat, f: nat, e: nat)
    requires k < 0x10_0000_0000 && f < PAGE && e == k * 0x1000 + f
    ensures Allows(e) == Rights(Writable(f), UserBit(f), true)
  {
    DivUnique(e, 2, k * 0x800 + f / 2, f % 2);
    DivUnique(k * 0x800 + f / 2, 2, k * 0x400 + f / 2 / 2, f / 2 % 2);
    DivUnique(e, 4, k * 0x400 + f / 4, f % 4);
    DivUnique(k * 0x400 + f / 4, 2, k * 0x200 + f / 4 / 2, f / 4 % 2);
    DivUnique(e, 0x8000_0000_0000_0000, 0, e);
  }

  /** A link to table t: its address with PRESENT and WRITE. */
  lemma LinkBits(t: nat)
    requires t % PAGE == 0 && t < 0x1_0000_0000_0000
    ensures Or(Or(t, PAGE_PRESENT), PAGE_WRITE) == t + 3
    ensures Present(t + 3) && !Huge(t + 3) && Addr(t + 3) == t && Allows(t + 3) == LINK
  {
    var k := t / 0x1000;
    FrameOf(t, k);
    LinkValue(k);
    LinkFields(k, t + 3);
  }

  lemma FrameOf(t: nat, k: nat)
    requires t % PAGE == 0 && t < 0x1_0000_0000_0000 && k == t / 0x1000
    ensures t == k * 0x1000 && k < 0x10_0000_0000
  {
  }

  lemma LinkFields(k: nat, e: nat)
    requires k < 0x10_0000_0000 && e == k * 0x1000 + 3
    ensures Present(e) && !Huge(e) && Addr(e) == k * 0x1000 && Allows(e) == LINK
  {
    EntryFields(k, 3, e);
    EntryAllows(k, 3, e);
  }

  lemma LinkValue(k: nat)
    ensures Or(Or(k * 0x1000, PAGE_PRESENT), PAGE_WRITE) == k * 0x1000 + 3
  {
    Or12(k, 1);
    OrFlags(k, 1, 2);
    assert Or(1, 2) == 3 by { Powers(); OrDisjoint(1, 1, 1); }
  }

  /** A 4 KB leaf: the frame and the flags do not disturb each other. */
  lemma PteBits(phys: nat, flags: nat)
    requires flags < PAGE
    ensures var e := Or(And(phys, ADDR_MASK), flags);
            && Addr(e) == Addr(phys) && e % PAGE == flags && (Present(e) <==> Present(flags))
            && Meet(LINK, Allows(e)) == Granted(flags)
  {
    PteValue(phys, flags);
    var k, e := phys / 0x1000 % 0x10_0000_0000, Or(And(phys, ADDR_MASK), flags);
    EntryFields(k, flags, e);
    EntryAllows(k, flags, e);
  }

  lemma PteValue(phys: nat, flags: nat)
    requires flags < PAGE
    ensures Or(And(phys, ADDR_MASK), flags) == phys / 0x1000 % 0x10_0000_0000 * 0x1000 + flags
  {
    EntryBits(phys);
    Or12(phys / 0x1000 % 0x10_0000_0000, flags);
  }

  /** A 2 MB leaf. */
  lemma PdeBits(phys: nat, flags: nat)
    requires flags < PAGE
    ensures Or(flags, PAGE_HUGE) < PAGE
    ensures var e := Or(Or(And(phys, LARGE_MASK), flags), PAGE_HUGE);
            && Huge(e) && Addr2M(e) == Addr2M(phys)
            && e % PAGE == Or(flags, PAGE_HUGE) && (Present(e) <==> Present(flags))
            && Meet(LINK, Allows(e)) == Granted(flags)
  {
    PdeValue(phys, flags);
    HugeBit(flags);
    PdeFields(phys / 0x20_0000 % 0x800_0000, Or(flags, PAGE_HUGE));
    PdeAllows(phys / 0x20_0000 % 0x800_0000, Or(flags, PAGE_HUGE));
  }

  lemma PdeValue(phys: nat, flags: nat)
    requires flags < PAGE
    ensures Or(flags, PAGE_HUGE) < PAGE
    ensures Or(Or(And(phys, LARGE_MASK), flags), PAGE_HUGE) == Addr2M(phys) + Or(flags, PAGE_HUGE)
  {
    EntryBits(phys);
    PdeOr(phys / 0x20_0000 % 0x800_0000, flags);
  }

  lemma PdeOr(k: nat, flags: nat)
    requires flags < PAGE
    ensures Or(flags, PAGE_HUGE) < PAGE
    ensures Or(Or(k * 0x20_0000, flags), PAGE_HUGE) == k * 0x20_0000 + Or(flags, PAGE_HUGE)
  {
    assert k * 0x20_0000 == (k * 512) * 0x1000;
    Or12(k * 512, flags);
    OrFlags(k * 512, flags, PAGE_HUGE);
  }

  lemma PdeFields(k: nat, f: nat)
    requires k < 0x800_0000 && f < PAGE
    ensures Addr2M(k * 0x20_0000 + f) == k * 0x20_0000 && (k * 0x20_0000 + f) % PAGE == f
    ensures Present(k * 0x20_0000 + f) <==> Present(f)
    ensures Huge(k * 0x20_0000 + f) <==> Huge(f)
  {
    EntryFields(k * 512, f, k * 0x20_0000 + f);
    DivUnique(k * 0x20_0000 + f, 0x20_0000, k, f);
  }

  lemma PdeAllows(k: nat, f: nat)
    requires k < 0x800_0000 && f < PAGE
    ensures Allows(k * 0x20_0000 + f) == Rights(Writable(f), UserBit(f), true)
  {
    EntryAllows(k * 512, f, k * 0x20_0000 + f);
  }

  lemma HugeBit(flags: nat)
    ensures Huge(Or(flags, PAGE_HUGE)) && Or(flags, PAGE_HUGE) % 2 == flags % 2
    ensures Writable(Or(flags, PAGE_HUGE)) <==> Writable(flags)
  {
    var hi, lo := flags / 128, flags % 128;
    var o := Or(hi, 1);
    assert o % 2 == 1;
    assert Or(flags, 128) == o * 128 + lo by {
      Powers();
      OrShifted(hi, 1, lo, 7);
    }
    DivUnique(o * 128 + lo, 128, o, lo);
    DivUnique(o * 128 + lo, 2, o * 64 + lo / 2, lo % 2);
    DivUnique(flags, 2, hi * 64 + lo / 2, lo % 2);
    DivUnique(o * 64 + lo / 2, 2, o * 32 + lo / 2 / 2, lo / 2 % 2);
    DivUnique(hi * 64 + lo / 2, 2, hi * 32 + lo / 2 / 2, lo / 2 % 2);
  }

  /** OR above a common low part. */
  lemma {:induction false} OrShifted(a: nat, b: nat, lo: nat, n: nat)
    requires lo < Pow2(n)
    ensures Or(a * Pow2(n) + lo, b * Pow2(n)) == Or(a, b) * Pow2(n) + lo
  {
    if n > 0 {
      OrShifted(a, b, lo / 2, n - 1);
      var p := Pow2(n - 1);
      MulDouble(a, p);
      MulDouble(b, p);
      MulDouble(Or(a, b), p);
    }
  }

  // ---------------------------------------------------------------- mapping one page

  /** The rights a mapping with these flags gets: as writable as it asks for, never for user mode,
      because the links on the way are not. */
  function Granted(flags: nat): Rights { Rights(Writable(flags), false, true) }

  /** The translation of w after page v -> phys is added to a map that sent w to `before`. */
  function With4K(before: Mapping, v: nat, phys: nat, flags: nat, w: nat): Mapping {
    if PageNo(w) != PageNo(v) then before
    else if Present(flags) then Mapped(Addr(phys) + w % 0x1000, flags, PAGE, Granted(flags))
    else Unmapped
  }

  function With2M(before: Mapping, v: nat, phys: nat, flags: nat, w: nat): Mapping {
    if LargeNo(w) != LargeNo(v) then before
    else if Present(flags) then
      Mapped(Addr2M(phys) + w % 0x20_0000, Or(flags, PAGE_HUGE), LARGE, Granted(flags))
    else Unmapped
  }

  lemma Set4K(ts: Tables, root: nat, node: map<Path, nat>, v: nat, phys: nat, flags: nat)
    requires IsTree(ts, root, node) && PtOf(v) in node && flags < PAGE
    ensures var ts' := Write(ts, node[PtOf(v)], Idx1(v), Or(And(phys, ADDR_MASK), flags));
            IsTree(ts', root, node)
            && forall w: nat :: Walk(ts', root, w) == With4K(Walk(ts, root, w), v, phys, flags, w)
  {
    PteBits(phys, flags);
    SetPte(ts, root, node, v, Or(And(phys, ADDR_MASK), flags));
  }

  lemma Set2M(ts: Tables, root: nat, node: map<Path, nat>, v: nat, phys: nat, flags: nat)
    requires IsTree(ts, root, node) && PdOf(v) in node && flags < PAGE
    ensures var ts' := Write(ts, node[PdOf(v)], Idx2(v), Or(Or(And(phys, LARGE_MASK), flags), PAGE_HUGE));
            IsTree(ts', root, node - {PtOf(v)})
            && forall w: nat :: Walk(ts', root, w) == With2M(Walk(ts, root, w), v, phys, flags, w)
  {
    PdeBits(phys, flags);
    SetPde(ts, root, node, v, Or(Or(And(phys, LARGE_MASK), flags), PAGE_HUGE));
  }

  /** A directory slot on the way to an address that is not inside a 2 MB page. */
  lemma SlotNotLarge(ts: Tables, root: nat, node: map<Path, nat>, v: nat)
    requires IsTree(ts, root, node) && PdOf(v) in node
    requires !(Walk(ts, root, v).Mapped? && Walk(ts, root, v).size == LARGE)
    ensures TableOk(ts, node[PdOf(v)])
    ensures var e := ts[node[PdOf(v)]][Idx2(v)]; !(Present(e) && Huge(e))
  {
    WalkIsView(ts, root, node, v);
  }

  // ---------------------------------------------------------------- the tables a mapping needs

  /** The tables below the root on the way to a 2 MB page, and to a 4 KB page, of v. */
  function Way2M(v: nat): seq<Path> { [Pdp(Idx4(v)), PdOf(v)] }
  function Way4K(v: nat): seq<Path> { [Pdp(Idx4(v)), PdOf(v), PtOf(v)] }

  /** The tables that are linked and the number of pages the firmware still has. */
  datatype Stock = Stock(linked: set<Path>, left: nat)

  /** Follow a link or take a page for it. */
  function Grab(s: Stock, p: Path): (Stock, bool) {
    if p in s.linked then (s, true)
    else if s.left == 0 then (s, false)
    else (Stock(s.linked + {p}, s.left - 1), true)
  }

  function GrabAll(s: Stock, ps: seq<Path>): (Stock, bool)
    decreases |ps|
  {
    if ps == [] then (s, true)
    else
      var (t, ok) := Grab(s, ps[0]);
      if ok then GrabAll(t, ps[1..]) else (t, false)
  }

  lemma GrabOne(s: Stock, p: Path)
    ensures Same(GrabAll(s, [p]), Grab(s, p))
  {
    assert [p][1..] == [];
  }

  lemma {:induction false} GrabAllConcat(s: Stock, a: seq<Path>, b: seq<Path>)
    ensures var (t, ok) := GrabAll(s, a);
            Same(GrabAll(s, a + b), if ok then GrabAll(t, b) else (t, false))
    decreases |a|
  {
    if a == [] {
      assert a + b == b;
    } else {
      var (t, ok) := Grab(s, a[0]);
      assert (a + b)[1..] == a[1..] + b;
      if ok {
        GrabAllConcat(t, a[1..], b);
      }
    }
  }

  lemma GrabTwo(s: Stock, v: nat)
    ensures var (t, ok) := Grab(s, Pdp(Idx4(v)));
            Same(GrabAll(s, Way2M(v)), if ok then Grab(t, PdOf(v)) else (t, false))
  {
    GrabAllConcat(s, [Pdp(Idx4(v))], [PdOf(v)]);
    assert [Pdp(Idx4(v))] + [PdOf(v)] == Way2M(v);
    GrabOne(s, Pdp(Idx4(v)));
    GrabOne(Grab(s, Pdp(Idx4(v))).0, PdOf(v));
  }

  lemma GrabThree(s: Stock, v: nat)
    ensures var (t, ok) := GrabAll(s, Way2M(v));
            Same(GrabAll(s, Way4K(v)), if ok then Grab(t, PtOf(v)) else (t, false))
  {
    GrabAllConcat(s, Way2M(v), [PtOf(v)]);
    assert Way2M(v) + [PtOf(v)] == Way4K(v);
    GrabOne(GrabAll(s, Way2M(v)).0, PtOf(v));
  }

  function Elems(ps: seq<Path>): set<Path> { set p | p in ps }

  /** How many tables of `need` are not linked. */
  function Missing(linked: set<Path>, need: set<Path>): nat { |need - linked| }

  lemma MissingNext(linked: set<Path>, p: Path, rest: set<Path>)
    ensures p in linked ==> Missing(linked, {p} + rest) == Missing(linked, rest)
    ensures p !in linked ==> Missing(linked, {p} + rest) == 1 + Missing(linked + {p}, rest)
  {
    if p in linked {
      assert ({p} + rest) - linked == rest - linked;
    } else {
      assert ({p} + rest) - linked == {p} + (rest - (linked + {p}));
    }
  }

  lemma ElemsNext(ps: seq<Path>, linked: set<Path>)
    requires ps != []
    ensures Elems(ps) == {ps[0]} + Elems(ps[1..])
    ensures ps[0] in linked ==> Same(linked + Elems(ps), linked + Elems(ps[1..]))
    ensures Same(linked + Elems(ps), (linked + {ps[0]}) + Elems(ps[1..]))
  {
    assert linked + Elems(ps) == (linked + {ps[0]}) + Elems(ps[1..]);
    if ps[0] in linked {
      assert linked + {ps[0]} == linked;
    }
  }

  /** Every table on the way gets linked exactly when there is a page for each one missing. */
  lemma {:induction false} PoolSuffices(s: Stock, ps: seq<Path>)
    ensures var (t, ok) := GrabAll(s, ps); var missing := Missing(s.linked, Elems(ps));
            && (ok <==> missing <= s.left)
            && (ok ==> Same(t.linked, s.linked + Elems(ps)) && t.left == s.left - missing)
    decreases |ps|
  {
    if ps == [] {
      assert Elems(ps) - s.linked == {} && s.linked + Elems(ps) == s.linked;
    } else {
      MissingNext(s.linked, ps[0], Elems(ps[1..]));
      ElemsNext(ps, s.linked);
      var (t, ok) := Grab(s, ps[0]);
      if ok {
        PoolSuffices(t, ps[1..]);
      }
    }
  }

  lemma {:induction false} AtMost(ps: seq<Path>)
    ensures |Elems(ps)| <= |ps|
  {
    if ps == [] {
      assert Elems(ps) == {};
    } else {
      AtMost(ps[1..]);
      ElemsNext(ps, {});
    }
  }

  /** Three free pages are enough for any 4 KB mapping and two for any 2 MB mapping. */
  lemma FewSuffice(s: Stock, v: nat)
    ensures s.left >= 3 ==> GrabAll(s, Way4K(v)).1
    ensures s.left >= 2 ==> GrabAll(s, Way2M(v)).1
  {
    MissingAtMost(s.linked, Way4K(v));
    MissingAtMost(s.linked, Way2M(v));
    PoolSuffices(s, Way4K(v));
    PoolSuffices(s, Way2M(v));
  }

  lemma MissingAtMost(linked: set<Path>, ps: seq<Path>)
    ensures Missing(linked, Elems(ps)) <= |ps|
  {
    AtMost(ps);
    assert Elems(ps) == (Elems(ps) - linked) + (Elems(ps) * linked);
  }

  class PageTables {
    var tables: Tables
    var free: seq<FreePage>
    ghost var node: map<Path, nat>  // the tree spelled out by the entries

    ghost predicate Valid(pml4: nat)
      reads this
    {
      IsTree(tables, pml4, node) && PoolOk(free, tables)
    }

    constructor (pool: seq<FreePage>)
      requires PoolOk(pool, map[])
      ensures tables == map[] && free == pool
    {
      tables, free, node := map[], pool, map[];
    }

    method AllocPageTable() returns (ok: bool, t: nat)
      requires PoolOk(free, tables)
      modifies this`tables, this`free
      ensures PoolOk(free, tables)
      ensures ok <==> old(free) != []
      ensures |free| == if ok then old(|free|) - 1 else 0
      ensures !ok ==> tables == old(tables)
      ensures ok ==> t !in old(tables) && tables == old(tables)[t := EmptyTable()] && TableOk(tables, t)
    {
      if free == [] {
        return false, 0;
      }
      t := free[0].addr;
      tables := tables[t := free[0].content];
      free := free[1..];
      for i := 0 to 512
        invariant free == old(free)[1..] && tables.Keys == old(tables).Keys + {t}
        invariant forall u :: u in old(tables) ==> tables[u] == old(tables)[u]
        invariant |tables[t]| == ENTRIES && forall j :: 0 <= j < i ==> tables[t][j] == 0
      {
        tables := Write(tables, t, i, 0);
      }
      assert tables[t] == EmptyTable();
      assert tables == old(tables)[t := EmptyTable()];
      ok := true;
    }

    ghost function Stocked(): Stock
      reads this
    {
      Stock(node.Keys, |free|)
    }

    /** Allocate an empty table and link it in the vacant slot idx. */
    method LinkNew(table: nat, idx: nat, ghost pml4: nat, ghost p: Path) returns (ok: bool, next: nat)
      requires Valid(pml4) && p in node && node[p] == table && !p.Pt? && idx < ENTRIES
      requires !Present(tables[table][idx])
      modifies this
      ensures Valid(pml4)
      ensures ok <==> old(free) != []
      ensures ok ==> node == old(node)[Child(p, idx) := next] && Child(p, idx) !in old(node)
      ensures |free| == if ok then old(|free|) - 1 else 0
      ensures !ok ==> node == old(node)
      ensures forall v: nat :: Walk(tables, pml4, v) == old(Walk(tables, pml4, v))
    {
      assert SlotOk(tables, node, p, idx);
      ghost var ts := tables;
      ok, next := AllocPageTable();
      if !ok {
        return;
      }
      Unlinked(ts, pml4, node, next, EmptyTable());
      UnlinkedWalks(ts, pml4, node, next, EmptyTable());
      LinkBits(next);
      LinkEmpty(tables, pml4, node, p, idx, next, next + 3);
      tables := Write(tables, table, idx, Or(Or(next, PAGE_PRESENT), PAGE_WRITE));
      node := node[Child(p, idx) := next];
    }

    /** Follow the link in slot idx, allocating and linking an empty table when there is none. */
    method NextTable(table: nat, idx: nat, ghost pml4: nat, ghost p: Path) returns (ok: bool, next: nat)
      requires Valid(pml4) && p in node && node[p] == table && !p.Pt? && idx < ENTRIES
      requires !(p.Pd? && Present(tables[table][idx]) && Huge(tables[table][idx]))
      modifies this
      ensures Valid(pml4)
      ensures ok ==> Child(p, idx) in node && node[Child(p, idx)] == next
      ensures Same((Stocked(), ok), Grab(old(Stocked()), Child(p, idx)))
      ensures forall v: nat :: Walk(tables, pml4, v) == old(Walk(tables, pml4, v))
    {
      EntryBits(tables[table][idx]);
      assert SlotOk(tables, node, p, idx);
      if And(tables[table][idx], PAGE_PRESENT) == 0 {
        ok, next := LinkNew(table, idx, pml4, p);
        assert ok ==> node.Keys == old(node.Keys) + {Child(p, idx)};
      } else {
        ok, next := true, And(tables[table][idx], ADDR_MASK);
      }
    }

    /** The page directory of virt: the first two levels of both mapping functions. */
    method DirectoryFor(pml4: nat, virt: nat) returns (ok: bool, pd: nat)
      requires Valid(pml4)
      modifies this
      ensures Valid(pml4)
      ensures ok ==> PdOf(virt) in node && node[PdOf(virt)] == pd
      ensures Same((Stocked(), ok), GrabAll(old(Stocked()), Way2M(virt)))
      ensures forall w: nat :: Walk(tables, pml4, w) == old(Walk(tables, pml4, w))
    {
      IndexBits(virt);
      var pml4Idx := And(Shr(virt, 39), 0x1FF);
      var pdpIdx := And(Shr(virt, 30), 0x1FF);
      GrabTwo(Stocked(), virt);
      var pdp;
      ok, pdp := NextTable(pml4, pml4Idx, pml4, Root);
      if !ok {
        return false, 0;
      }
      ok, pd := NextTable(pdp, pdpIdx, pml4, Pdp(pml4Idx));
    }

    /** The page table of virt: the three levels of map_page. */
    method TableFor(pml4: nat, virt: nat) returns (ok: bool, pt: nat)
      requires Valid(pml4)
      requires !(Walk(tables, pml4, virt).Mapped? && Walk(tables, pml4, virt).size == LARGE)
      modifies this
      ensures Valid(pml4)
      ensures ok ==> PtOf(virt) in node && node[PtOf(virt)] == pt
      ensures Same((Stocked(), ok), GrabAll(old(Stocked()), Way4K(virt)))
      ensures forall w: nat :: Walk(tables, pml4, w) == old(Walk(tables, pml4, w))
    {
      IndexBits(virt);
      var pdIdx := And(Shr(virt, 21), 0x1FF);
      GrabThree(Stocked(), virt);
      var pd;
      ok, pd := DirectoryFor(pml4, virt);
      if !ok {
        return false, 0;
      }
      SlotNotLarge(tables, pml4, node, virt);
      ok, pt := NextTable(pd, pdIdx, pml4, PdOf(virt));
    }

    /** The page entry itself, in the page table of virt. */
    method StorePage(pml4: nat, pt: nat, virt: nat, phys: nat, flags: nat)
      requires Valid(pml4) && flags < PAGE && PtOf(virt) in node && node[PtOf(virt)] == pt
      modifies this`tables
      ensures Valid(pml4)
      ensures forall w: nat :: Walk(tables, pml4, w) == With4K(old(Walk(tables, pml4, w)), virt, phys, flags, w)
    {
      IndexBits(virt);
      var ptIdx := And(Shr(virt, 12), 0x1FF);
      Set4K(tables, pml4, node, virt, phys, flags);
      tables := Write(tables, pt, ptIdx, Or(And(phys, ADDR_MASK), flags));
    }

    method MapPage4K(pml4: nat, virt: nat, phys: nat, flags: nat) returns (ok: bool)
      requires Valid(pml4) && flags < PAGE
      requires !(Walk(tables, pml4, virt).Mapped? && Walk(tables, pml4, virt).size == LARGE)
      modifies this
      ensures Valid(pml4)
      ensures Same((Stocked(), ok), GrabAll(old(Stocked()), Way4K(virt)))
      ensures ok ==> forall w: nat :: Walk(tables, pml4, w) == With4K(old(Walk(tables, pml4, w)), virt, phys, flags, w)
      ensures !ok ==> forall w: nat :: Walk(tables, pml4, w) == old(Walk(tables, pml4, w))
    {
      var pt;
      ok, pt := TableFor(pml4, virt);
      if ok {
        StorePage(pml4, pt, virt, phys, flags);
      }
    }

    /** The large entry itself, in the directory of virt. */
    method StoreLarge(pml4: nat, pd: nat, virt: nat, phys: nat, flags: nat)
      requires Valid(pml4) && flags < PAGE && PdOf(virt) in node && node[PdOf(virt)] == pd
      modifies this`tables, this`node
      ensures Valid(pml4) && node == old(node) - {PtOf(virt)}
      ensures forall w: nat :: Walk(tables, pml4, w) == With2M(old(Walk(tables, pml4, w)), virt, phys, flags, w)
    {
      IndexBits(virt);
      var pdIdx := And(Shr(virt, 21), 0x1FF);
      Set2M(tables, pml4, node, virt, phys, flags);
      tables := Write(tables, pd, pdIdx, Or(Or(And(phys, LARGE_MASK), flags), PAGE_HUGE));
      node := node - {PtOf(virt)};
    }

    method MapPage2M(pml4: nat, virt: nat, phys: nat, flags: nat) returns (ok: bool)
      requires Valid(pml4) && flags < PAGE
      modifies this
      ensures Valid(pml4)
      ensures var (t, done) := GrabAll(old(Stocked()), Way2M(virt));
              ok == done && (ok ==> Same(Stocked(), t.(linked := t.linked - {PtOf(virt)})))
      ensures ok ==> forall w: nat :: Walk(tables, pml4, w) == With2M(old(Walk(tables, pml4, w)), virt, phys, flags, w)
      ensures !ok ==> forall w: nat :: Walk(tables, pml4, w) == old(Walk(tables, pml4, w))
    {
      var pd;
      ok, pd := DirectoryFor(pml4, virt);
      if !ok {
        return;
      }
      ghost var linked := node.Keys;
      StoreLarge(pml4, pd, virt, phys, flags);
      assert node.Keys == linked - {PtOf(virt)};
    }
  }
}
