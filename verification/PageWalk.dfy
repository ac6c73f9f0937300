/** 4-level page tables as physical memory: the hardware walk of section 4.5 of the Intel SDM,
    Volume 3A, the invariant that the tables form an unshared tree, and what a single table
    write does to every translation at once. */
module PageWalk {
  import opened Bits

  const PAGE := 0x1000
  const LARGE := 0x20_0000
  const ENTRIES := 512

  /** Physical address of a table -> its 512 entries. */
  type Tables = map<nat, seq<nat>>

  /** What section 4.6 of the SDM lets a program do with a page: write it, reach it in user mode,
      execute it. */
  datatype Rights = Rights(write: bool, user: bool, exec: bool)

  /** The result of translating one address: where it goes, the leaf's low 12 bits, the page size and
      the rights that all levels of the walk grant together. */
  datatype Mapping = Unmapped | Mapped(phys: nat, flags: nat, size: nat, rights: Rights)

  // the index of v at each level
  function Idx4(v: nat): nat { v / 0x80_0000_0000 % 512 }
  function Idx3(v: nat): nat { v / 0x4000_0000 % 512 }
  function Idx2(v: nat): nat { v / 0x20_0000 % 512 }
  function Idx1(v: nat): nat { v / 0x1000 % 512 }

  // fields of an entry
  predicate Present(e: nat) { e % 2 == 1 }
  predicate Huge(e: nat) { e / 128 % 2 == 1 }
  predicate Writable(e: nat) { e / 2 % 2 == 1 }
  predicate UserBit(e: nat) { e / 4 % 2 == 1 }
  predicate NoExecute(e: nat) { e / 0x8000_0000_0000_0000 % 2 == 1 }
  function Addr(e: nat): nat { e / 0x1000 % 0x10_0000_0000 * 0x1000 }
  function Addr2M(e: nat): nat { e / 0x20_0000 % 0x800_0000 * 0x20_0000 }
  function Addr1G(e: nat): nat { e / 0x4000_0000 % 0x4_0000 * 0x4000_0000 }

  /** The rights one entry leaves, and those two entries leave together. */
  function Allows(e: nat): Rights { Rights(Writable(e), UserBit(e), !NoExecute(e)) }
  function Meet(r: Rights, s: Rights): Rights { Rights(r.write && s.write, r.user && s.user, r.exec && s.exec) }

  /** What a link to a lower table leaves: writing and execution by the supervisor. */
  const LINK := Rights(true, false, true)

  function Entry(ts: Tables, t: nat, i: nat): nat {
    if t in ts && i < |ts[t]| then ts[t][i] else 0
  }

  /** What the processor does with v. */
  function Walk(ts: Tables, root: nat, v: nat): Mapping {
    var e4 := Entry(ts, root, Idx4(v));
    if !Present(e4) then Unmapped
    else
      var e3 := Entry(ts, Addr(e4), Idx3(v));
      var r3 := Meet(Allows(e4), Allows(e3));
      if !Present(e3) then Unmapped
      else if Huge(e3) then Mapped(Addr1G(e3) + v % 0x4000_0000, e3 % 0x1000, 0x4000_0000, r3)
      else
        var e2 := Entry(ts, Addr(e3), Idx2(v));
        var r2 := Meet(r3, Allows(e2));
        if !Present(e2) then Unmapped
        else if Huge(e2) then Mapped(Addr2M(e2) + v % 0x20_0000, e2 % 0x1000, LARGE, r2)
        else
          var e1 := Entry(ts, Addr(e2), Idx1(v));
          if !Present(e1) then Unmapped
          else Mapped(Addr(e1) + v % 0x1000, e1 % 0x1000, PAGE, Meet(r2, Allows(e1)))
  }

  // ---------------------------------------------------------------- the tree

  /** The position of a table: the indices that lead to it from the root. */
  datatype Path = Root | Pdp(i4: nat) | Pd(i4: nat, i3: nat) | Pt(i4: nat, i3: nat, i2: nat)

  function Child(p: Path, i: nat): Path
    requires !p.Pt?
  {
    match p
    case Root => Pdp(i)
    case Pdp(a) => Pd(a, i)
    case Pd(a, b) => Pt(a, b, i)
  }

  function Parent(p: Path): Path {
    match p
    case Root => Root
    case Pdp(_) => Root
    case Pd(a, _) => Pdp(a)
    case Pt(a, b, _) => Pd(a, b)
  }

  /** The entry links to a lower table: present, and not a 2 MB page. */
  predicate Links(p: Path, e: nat) {
    Present(e) && !(p.Pd? && Huge(e))
  }

  ghost predicate TableOk(ts: Tables, t: nat) {
    t in ts && |ts[t]| == ENTRIES && t % PAGE == 0 && t < 0x1_0000_0000_0000
  }

  /** Slot i of the table at p agrees with the tree. */
  ghost predicate SlotOk(ts: Tables, node: map<Path, nat>, p: Path, i: nat)
    requires !p.Pt? && p in node && TableOk(ts, node[p]) && i < ENTRIES
  {
    var e := ts[node[p]][i];
    && (Links(p, e) <==> Child(p, i) in node)
    && (Links(p, e) ==> node[Child(p, i)] == Addr(e) && Allows(e) == LINK)
    && (!p.Pd? && Present(e) ==> !Huge(e))
  }

  /** `node` places every linked table: one position per table (no sharing), parents included,
      and each slot of each table links exactly to the child `node` names. */
  ghost predicate IsTree(ts: Tables, root: nat, node: map<Path, nat>) {
    && Root in node && node[Root] == root
    && (forall p :: p in node ==> TableOk(ts, node[p]) && Parent(p) in node)
    && (forall p, q :: p in node && q in node && node[p] == node[q] ==> p == q)
    && (forall p, i :: p in node && !p.Pt? && 0 <= i < ENTRIES ==> SlotOk(ts, node, p, i))
  }

  function PdOf(v: nat): Path { Pd(Idx4(v), Idx3(v)) }
  function PtOf(v: nat): Path { Pt(Idx4(v), Idx3(v), Idx2(v)) }

  /** The walk read off the tree: only the directory and the table of v matter. */
  ghost function View(ts: Tables, node: map<Path, nat>, v: nat): Mapping {
    if PdOf(v) !in node then Unmapped
    else
      var e2 := Entry(ts, node[PdOf(v)], Idx2(v));
      if Present(e2) && Huge(e2) then LargeLeaf(e2, v)
      else if PtOf(v) !in node then Unmapped
      else
        var e1 := Entry(ts, node[PtOf(v)], Idx1(v));
        if !Present(e1) then Unmapped else PageLeaf(e1, v)
  }

  /** The translation of v by a leaf entry reached over links. */
  function LargeLeaf(e: nat, v: nat): Mapping {
    Mapped(Addr2M(e) + v % 0x20_0000, e % 0x1000, LARGE, Meet(LINK, Allows(e)))
  }

  function PageLeaf(e: nat, v: nat): Mapping {
    Mapped(Addr(e) + v % 0x1000, e % 0x1000, PAGE, Meet(LINK, Allows(e)))
  }

  lemma WalkIsView(ts: Tables, root: nat, node: map<Path, nat>, v: nat)
    requires IsTree(ts, root, node)
    ensures Walk(ts, root, v) == View(ts, node, v)
  {
    var i4, i3, i2 := Idx4(v), Idx3(v), Idx2(v);
    assert Parent(PdOf(v)) == Pdp(i4) && Parent(PtOf(v)) == PdOf(v);
    assert SlotOk(ts, node, Root, i4);
    assert Child(Root, i4) == Pdp(i4);
    if Pdp(i4) in node {
      assert SlotOk(ts, node, Pdp(i4), i3);
      assert Child(Pdp(i4), i3) == PdOf(v);
      if PdOf(v) in node {
        assert SlotOk(ts, node, PdOf(v), i2);
        assert Child(PdOf(v), i2) == PtOf(v);
      }
    }
  }

  /** Two slots of the tree that link to the same table are the same slot. */
  lemma NoSharing(ts: Tables, root: nat, node: map<Path, nat>, p: Path, i: nat, q: Path, j: nat)
    requires IsTree(ts, root, node) && p in node && q in node && !p.Pt? && !q.Pt? && i < ENTRIES && j < ENTRIES
    requires Links(p, ts[node[p]][i]) && Links(q, ts[node[q]][j])
    requires Addr(ts[node[p]][i]) == Addr(ts[node[q]][j])
    ensures p == q && i == j
  {
    assert SlotOk(ts, node, p, i) && SlotOk(ts, node, q, j);
    assert Child(p, i) == Child(q, j);
  }

  // ---------------------------------------------------------------- table writes

  /** The entry stored at slot i of table t. */
  function Write(ts: Tables, t: nat, i: nat, e: nat): Tables
    requires t in ts && i < |ts[t]|
  {
    var content: seq<nat> := ts[t][i := e];
    ts[t := content]
  }

  function EmptyTable(): seq<nat> {
    seq(ENTRIES, _ => 0)
  }

  /** Allocating memory for a table that nothing links to yet changes nothing. */
  lemma Unlinked(ts: Tables, root: nat, node: map<Path, nat>, t: nat, content: seq<nat>)
    requires IsTree(ts, root, node) && t !in ts
    ensures IsTree(ts[t := content], root, node)
  {
    var ts' := ts[t := content];
    forall p, i | p in node && !p.Pt? && 0 <= i < ENTRIES
      ensures SlotOk(ts', node, p, i)
    {
      assert SlotOk(ts, node, p, i);
    }
  }

  lemma UnlinkedWalks(ts: Tables, root: nat, node: map<Path, nat>, t: nat, content: seq<nat>)
    requires IsTree(ts, root, node) && t !in ts
    ensures forall v: nat :: Walk(ts[t := content], root, v) == Walk(ts, root, v)
  {
    Unlinked(ts, root, node, t, content);
    forall v: nat
      ensures Walk(ts[t := content], root, v) == Walk(ts, root, v)
    {
      WalkIsView(ts, root, node, v);
      WalkIsView(ts[t := content], root, node, v);
      assert PdOf(v) in node ==> TableOk(ts, node[PdOf(v)]);
      assert PtOf(v) in node ==> TableOk(ts, node[PtOf(v)]);
    }
  }

  /** Linking an empty table into a vacant slot: still a tree, and no translation changes. */
  lemma LinkEmpty(ts: Tables, root: nat, node: map<Path, nat>, p: Path, i: nat, t: nat, e: nat)
    requires IsTree(ts, root, node) && p in node && !p.Pt? && i < ENTRIES
    requires !Present(ts[node[p]][i])
    requires TableOk(ts, t) && ts[t] == EmptyTable() && (forall q :: q in node ==> node[q] != t)
    requires Present(e) && !Huge(e) && Addr(e) == t && Allows(e) == LINK
    ensures IsTree(Write(ts, node[p], i, e), root, node[Child(p, i) := t])
    ensures forall v: nat :: Walk(Write(ts, node[p], i, e), root, v) == Walk(ts, root, v)
  {
    var ts', node' := Write(ts, node[p], i, e), node[Child(p, i) := t];
    assert SlotOk(ts, node, p, i);
    LinkEmptyTree(ts, root, node, p, i, t, e);
    forall v: nat
      ensures Walk(ts', root, v) == Walk(ts, root, v)
    {
      WalkIsView(ts, root, node, v);
      WalkIsView(ts', root, node', v);
      LinkEmptyView(ts, root, node, p, i, t, e, v);
    }
  }

  lemma LinkEmptyView(ts: Tables, root: nat, node: map<Path, nat>, p: Path, i: nat, t: nat, e: nat, v: nat)
    requires IsTree(ts, root, node) && p in node && !p.Pt? && i < ENTRIES
    requires !Present(ts[node[p]][i]) && Child(p, i) !in node
    requires TableOk(ts, t) && ts[t] == EmptyTable() && (forall q :: q in node ==> node[q] != t)
    requires Present(e) && !Huge(e)
    ensures View(Write(ts, node[p], i, e), node[Child(p, i) := t], v) == View(ts, node, v)
  {
    assert Parent(PtOf(v)) == PdOf(v);
    if PdOf(v) in node {
      assert TableOk(ts, node[PdOf(v)]);
    }
    if PtOf(v) in node {
      assert TableOk(ts, node[PtOf(v)]);
    }
  }

  lemma LinkEmptyTree(ts: Tables, root: nat, node: map<Path, nat>, p: Path, i: nat, t: nat, e: nat)
    requires IsTree(ts, root, node) && p in node && !p.Pt? && i < ENTRIES
    requires !Present(ts[node[p]][i]) && Child(p, i) !in node
    requires TableOk(ts, t) && ts[t] == EmptyTable() && (forall q :: q in node ==> node[q] != t)
    requires Present(e) && !Huge(e) && Addr(e) == t && Allows(e) == LINK
    ensures IsTree(Write(ts, node[p], i, e), root, node[Child(p, i) := t])
  {
    var ts', node' := Write(ts, node[p], i, e), node[Child(p, i) := t];
    assert Parent(Child(p, i)) == p;
    forall q, j | q in node' && !q.Pt? && 0 <= j < ENTRIES
      ensures SlotOk(ts', node', q, j)
    {
      if q == Child(p, i) {
        assert Parent(Child(q, j)) == q;
      } else {
        assert SlotOk(ts, node, q, j);
        if q != p || j != i {
          assert Child(q, j) != Child(p, i);
        }
      }
    }
  }

  /** The translation of w once the page of v has leaf entry e. */
  function AfterPte(ts: Tables, root: nat, v: nat, e: nat, w: nat): Mapping {
    if PageNo(w) != PageNo(v) then Walk(ts, root, w)
    else if Present(e) then PageLeaf(e, w)
    else Unmapped
  }

  /** The translation of w once the 2 MB region of v has directory entry e. */
  function AfterPde(ts: Tables, root: nat, v: nat, e: nat, w: nat): Mapping {
    if LargeNo(w) != LargeNo(v) then Walk(ts, root, w)
    else if Present(e) then LargeLeaf(e, w)
    else Unmapped
  }

  /** A write to slot i of the 4 KB table of v: still a tree; exactly one page changes. */
  lemma SetPte(ts: Tables, root: nat, node: map<Path, nat>, v: nat, e: nat)
    requires IsTree(ts, root, node) && PtOf(v) in node
    ensures IsTree(Write(ts, node[PtOf(v)], Idx1(v), e), root, node)
    ensures forall w: nat :: Walk(Write(ts, node[PtOf(v)], Idx1(v), e), root, w) == AfterPte(ts, root, v, e, w)
  {
    var ts' := Write(ts, node[PtOf(v)], Idx1(v), e);
    forall q, j | q in node && !q.Pt? && 0 <= j < ENTRIES
      ensures SlotOk(ts', node, q, j)
    {
      assert SlotOk(ts, node, q, j);
    }
    assert IsTree(ts', root, node);
    forall w: nat
      ensures Walk(ts', root, w) == AfterPte(ts, root, v, e, w)
    {
      WalkIsView(ts, root, node, w);
      WalkIsView(ts', root, node, w);
      SamePage(v, w);
      if PtOf(w) == PtOf(v) {
        assert Parent(PtOf(v)) == PdOf(v);
        assert SlotOk(ts, node, PdOf(v), Idx2(v));
        assert Child(PdOf(v), Idx2(v)) == PtOf(v);
      }
    }
  }

  /** A 2 MB entry written to the directory of v: a 4 KB table it replaces leaves the tree, and
      exactly one 2 MB region changes. */
  lemma SetPde(ts: Tables, root: nat, node: map<Path, nat>, v: nat, e: nat)
    requires IsTree(ts, root, node) && PdOf(v) in node && Huge(e)
    ensures IsTree(Write(ts, node[PdOf(v)], Idx2(v), e), root, node - {PtOf(v)})
    ensures forall w: nat :: Walk(Write(ts, node[PdOf(v)], Idx2(v), e), root, w) == AfterPde(ts, root, v, e, w)
  {
    var ts', node' := Write(ts, node[PdOf(v)], Idx2(v), e), node - {PtOf(v)};
    SetPdeTree(ts, root, node, v, e);
    forall w: nat
      ensures Walk(ts', root, w) == AfterPde(ts, root, v, e, w)
    {
      WalkIsView(ts, root, node, w);
      WalkIsView(ts', root, node', w);
      SameLarge(v, w);
    }
  }

  lemma SetPdeTree(ts: Tables, root: nat, node: map<Path, nat>, v: nat, e: nat)
    requires IsTree(ts, root, node) && PdOf(v) in node && Huge(e)
    ensures IsTree(Write(ts, node[PdOf(v)], Idx2(v), e), root, node - {PtOf(v)})
  {
    var ts', node' := Write(ts, node[PdOf(v)], Idx2(v), e), node - {PtOf(v)};
    forall q, j | q in node' && !q.Pt? && 0 <= j < ENTRIES
      ensures SlotOk(ts', node', q, j)
    {
      assert SlotOk(ts, node, q, j);
      if q == PdOf(v) && j == Idx2(v) {
        assert Child(q, j) == PtOf(v);
      } else {
        assert Child(q, j) != PtOf(v);
      }
    }
  }

  // ---------------------------------------------------------------- pages and indices

  /** The page number the processor uses: the 36 bits above the page offset. */
  function PageNo(v: nat): nat { v / 0x1000 % 0x10_0000_0000 }
  function LargeNo(v: nat): nat { v / 0x20_0000 % 0x800_0000 }

  lemma LargeNoDigits(v: nat)
    ensures LargeNo(v) == Idx4(v) * 0x4_0000 + Idx3(v) * 0x200 + Idx2(v)
  {
    ModSplit(v / 0x20_0000, 512, 0x4_0000);
    DivDiv(v, 0x20_0000, 512);
    ModSplit(v / 0x4000_0000, 512, 512);
    DivDiv(v, 0x4000_0000, 512);
  }

  lemma PageNoDigits(v: nat)
    ensures PageNo(v) == LargeNo(v) * 512 + Idx1(v)
  {
    ModSplit(v / 0x1000, 512, 0x800_0000);
    DivDiv(v, 0x1000, 512);
  }

  lemma SameLarge(v: nat, w: nat)
    ensures LargeNo(v) == LargeNo(w) <==> PtOf(v) == PtOf(w)
  {
    LargeNoDigits(v);
    LargeNoDigits(w);
    DigitsOf(Idx4(v), Idx3(v), Idx2(v), LargeNo(v));
    DigitsOf(Idx4(w), Idx3(w), Idx2(w), LargeNo(w));
  }

  lemma DigitsOf(a: nat, b: nat, c: nat, n: nat)
    requires b < 512 && c < 512 && n == a * 0x4_0000 + b * 0x200 + c
    ensures n % 512 == c && n / 512 % 512 == b && n / 512 / 512 == a
  {
    DivUnique(n, 512, a * 512 + b, c);
    DivUnique(n / 512, 512, a, b);
  }

  lemma SamePage(v: nat, w: nat)
    ensures PageNo(v) == PageNo(w) <==> PtOf(v) == PtOf(w) && Idx1(v) == Idx1(w)
  {
    PageNoDigits(v);
    PageNoDigits(w);
    SameLarge(v, w);
  }
}
