/** How many pages the firmware must have for a whole region of pages, bootloader/uefi/paging.c:
    the tables on the way to every page of the region, each counted once. */
module PagingPool {
  import opened Bits
  import opened PageWalk
  import opened Paging

  /** The tables on the way to each 4 KB page of a region, in the order of the loops. */
  function Ways4K(base: nat, len: nat): seq<Path> {
    if len < PAGE then [] else Ways4K(base, len - PAGE) + Way4K(base + (len - PAGE))
  }

  function Ways2M(base: nat, len: nat): seq<Path> {
    if len < LARGE then [] else Ways2M(base, len - LARGE) + Way2M(base + (len - LARGE))
  }

  // ---------------------------------------------------------------- a failure is final

  lemma FailsLater(s: Stock, ws: seq<Path>, more: seq<Path>)
    requires !GrabAll(s, ws).1
    ensures !GrabAll(s, ws + more).1
  {
    GrabAllConcat(s, ws, more);
  }

  lemma {:induction false} Fails4K(s: Stock, ws: seq<Path>, base: nat, a: nat, b: nat)
    requires a <= b && a % PAGE == 0 && b % PAGE == 0 && !GrabAll(s, ws + Ways4K(base, a)).1
    ensures !GrabAll(s, ws + Ways4K(base, b)).1
    decreases b
  {
    if a < b {
      assert b >= PAGE && a <= b - PAGE && (b - PAGE) % PAGE == 0;
      Fails4K(s, ws, base, a, b - PAGE);
      FailsLater(s, ws + Ways4K(base, b - PAGE), Way4K(base + (b - PAGE)));
      assert ws + Ways4K(base, b) == ws + Ways4K(base, b - PAGE) + Way4K(base + (b - PAGE));
    }
  }

  lemma {:induction false} Fails2M(s: Stock, ws: seq<Path>, base: nat, a: nat, b: nat)
    requires a <= b && a % LARGE == 0 && b % LARGE == 0 && !GrabAll(s, ws + Ways2M(base, a)).1
    ensures !GrabAll(s, ws + Ways2M(base, b)).1
    decreases b
  {
    if a < b {
      assert b >= LARGE && a <= b - LARGE && (b - LARGE) % LARGE == 0;
      Fails2M(s, ws, base, a, b - LARGE);
      FailsLater(s, ws + Ways2M(base, b - LARGE), Way2M(base + (b - LARGE)));
      assert ws + Ways2M(base, b) == ws + Ways2M(base, b - LARGE) + Way2M(base + (b - LARGE));
    }
  }

  // ---------------------------------------------------------------- tables a region does not need

  /** No page of the region lies in the 2 MB region of w. */
  ghost predicate Apart(base: nat, len: nat, w: nat) {
    forall v: nat :: base <= v < base + len ==> LargeNo(v) != LargeNo(w)
  }

  lemma {:induction false} NoPtOf(base: nat, len: nat, w: nat)
    requires Apart(base, len, w)
    ensures PtOf(w) !in Ways4K(base, len)
  {
    if len >= PAGE {
      NoPtOf(base, len - PAGE, w);
      SameLarge(base + (len - PAGE), w);
    }
  }

  lemma {:induction false} NoPtIn2M(base: nat, len: nat, w: nat)
    ensures PtOf(w) !in Ways2M(base, len)
  {
    if len >= LARGE {
      NoPtIn2M(base, len - LARGE, w);
    }
  }

  // ---------------------------------------------------------------- how many there are

  lemma DivMono(a: nat, b: nat, u: nat)
    requires a <= b && u > 0
    ensures a / u <= b / u
  {
    if b / u < a / u {
      MulStrict(u, b / u, a / u);
      assert false;
    }
  }

  /** How many aligned units of size u a region touches. */
  function Span(base: nat, len: nat, u: nat): nat
    requires u > 0
  {
    if len == 0 then 0
    else
      DivMono(base, base + len - 1, u);
      (base + len - 1) / u - base / u + 1
  }

  /** Whether the page at base + len starts a unit of size u that the pages before do not touch. */
  function Starts(base: nat, len: nat, g: nat, u: nat): nat
    requires u > 0 && g > 0
  {
    if len < g || (base + len - g) / u != (base + len) / u then 1 else 0
  }

  /** One page of size g further, a region touches one more unit if the page starts one. */
  lemma SpanNext(base: nat, len: nat, g: nat, k: nat)
    requires g > 0 && k > 0 && base % g == 0 && len % g == 0
    ensures g * k > 0 && Span(base, len, g * k) + Starts(base, len, g, g * k) <= Span(base, len + g, g * k)
  {
    if len > 0 {
      AlignedSum(base, len, g);
      LastOfPage((base + len) / g, g, k);
      AlignedAtLeast(len, g);
    }
    MulMono(g, 1, k);
    SpanStep(base, len, g, g * k);
  }

  lemma SpanStep(base: nat, len: nat, g: nat, u: nat)
    requires g > 0 && u > 0
    requires len > 0 ==> len >= g && (base + len - 1) / u == (base + len - g) / u
    ensures Span(base, len, u) + Starts(base, len, g, u) <= Span(base, len + g, u)
  {
    DivMono(base + len, base + len + g - 1, u);
    if len > 0 {
      DivMono(base + len - g, base + len, u);
    }
  }

  lemma AlignedAtLeast(len: nat, g: nat)
    requires len > 0 && g > 0 && len % g == 0
    ensures len >= g
  {
    ModSmall(len, if len < g then g else len + 1);
  }

  /** The last address of a page lies in the unit of its first. */
  lemma LastOfPage(q: nat, g: nat, k: nat)
    requires q > 0 && g > 0 && k > 0
    ensures g * k > 0 && g * q >= g && (g * q - 1) / (g * k) == (g * q - g) / (g * k)
  {
    MulMono(g, 1, q);
    QuotRem(g * q - 1, g, q - 1, g - 1);
    QuotRem(g * q - g, g, q - 1, 0);
    DivDiv(g * q - 1, g, k);
    DivDiv(g * q - g, g, k);
  }

  lemma AlignedSum(a: nat, b: nat, g: nat)
    requires g > 0 && a % g == 0 && b % g == 0
    ensures a + b == g * ((a + b) / g) && (a + b) % g == 0
  {
    assert a + b == g * (a / g + b / g) + 0;
    DivUnique(a + b, g, a / g + b / g, 0);
  }

  /** The tables of a region: one for each 2 MB, 1 GB and 512 GB it touches. */
  function Tables4K(base: nat, len: nat): nat {
    Span(base, len, 0x20_0000) + Span(base, len, 0x4000_0000) + Span(base, len, 0x80_0000_0000)
  }

  function Tables2M(base: nat, len: nat): nat {
    Span(base, len, 0x4000_0000) + Span(base, len, 0x80_0000_0000)
  }

  /** Addresses in one unit share the tables down to that unit. */
  lemma SameUnit(v: nat, w: nat)
    ensures v / 0x80_0000_0000 == w / 0x80_0000_0000 ==> Pdp(Idx4(v)) == Pdp(Idx4(w))
    ensures v / 0x4000_0000 == w / 0x4000_0000 ==> PdOf(v) == PdOf(w)
    ensures v / 0x20_0000 == w / 0x20_0000 ==> PtOf(v) == PtOf(w)
  {
    DivDiv(v, 0x4000_0000, 512);
    DivDiv(w, 0x4000_0000, 512);
    DivDiv(v, 0x20_0000, 512);
    DivDiv(w, 0x20_0000, 512);
  }

  function New(ps: set<Path>, p: Path): nat { if p in ps then 0 else 1 }

  lemma WithSize(ps: set<Path>, p: Path)
    ensures |ps + {p}| == |ps| + New(ps, p)
  {
    if p in ps {
      assert ps + {p} == ps;
    }
  }

  lemma ElemsConcat(a: seq<Path>, b: seq<Path>)
    ensures Elems(a + b) == Elems(a) + Elems(b)
  {
  }

  lemma With2MSize(a: seq<Path>, v: nat)
    ensures |Elems(a + Way2M(v))| <= |Elems(a)| + New(Elems(a), Pdp(Idx4(v))) + New(Elems(a), PdOf(v))
  {
    ElemsConcat(a, Way2M(v));
    WithSize(Elems(a), Pdp(Idx4(v)));
    WithSize(Elems(a) + {Pdp(Idx4(v))}, PdOf(v));
    assert Elems(a) + Elems(Way2M(v)) == Elems(a) + {Pdp(Idx4(v))} + {PdOf(v)};
  }

  lemma With4KSize(a: seq<Path>, v: nat)
    ensures |Elems(a + Way4K(v))|
         <= |Elems(a)| + New(Elems(a), Pdp(Idx4(v))) + New(Elems(a), PdOf(v)) + New(Elems(a), PtOf(v))
  {
    With2MSize(a, v);
    ElemsConcat(a, Way2M(v));
    WithSize(Elems(a + Way2M(v)), PtOf(v));
    assert a + Way4K(v) == a + Way2M(v) + [PtOf(v)];
    ElemsConcat(a + Way2M(v), [PtOf(v)]);
    assert Elems([PtOf(v)]) == {PtOf(v)};
  }

  /** A region needs no more tables than units it touches. */
  lemma {:induction false} Count4K(base: nat, len: nat)
    requires base % PAGE == 0 && len % PAGE == 0
    ensures |Elems(Ways4K(base, len))| <= Tables4K(base, len)
  {
    if len >= PAGE {
      var n := len - PAGE;
      assert n % PAGE == 0;
      Count4K(base, n);
      With4KSize(Ways4K(base, n), base + n);
      Last4K(base, n);
      SpanNext(base, n, PAGE, 0x200);
      SpanNext(base, n, PAGE, 0x4_0000);
      SpanNext(base, n, PAGE, 0x800_0000);
    }
  }

  lemma Last4K(base: nat, n: nat)
    ensures var e := Elems(Ways4K(base, n)); var v := base + n;
            && New(e, PtOf(v)) <= Starts(base, n, PAGE, 0x20_0000)
            && New(e, PdOf(v)) <= Starts(base, n, PAGE, 0x4000_0000)
            && New(e, Pdp(Idx4(v))) <= Starts(base, n, PAGE, 0x80_0000_0000)
  {
    if n >= PAGE {
      var w := base + (n - PAGE);
      SameUnit(w, base + n);
      var way := Way4K(w);
      assert Ways4K(base, n) == Ways4K(base, n - PAGE) + way;
      assert way[0] == Pdp(Idx4(w)) && way[1] == PdOf(w) && way[2] == PtOf(w);
      ElemsConcat(Ways4K(base, n - PAGE), way);
    }
  }

  lemma {:induction false} Count2M(base: nat, len: nat)
    requires base % LARGE == 0 && len % LARGE == 0
    ensures |Elems(Ways2M(base, len))| <= Tables2M(base, len)
  {
    if len >= LARGE {
      var n := len - LARGE;
      assert n % LARGE == 0;
      Count2M(base, n);
      With2MSize(Ways2M(base, n), base + n);
      Last2M(base, n);
      SpanNext(base, n, LARGE, 0x200);
      SpanNext(base, n, LARGE, 0x4_0000);
    }
  }

  lemma Last2M(base: nat, n: nat)
    ensures var e := Elems(Ways2M(base, n)); var v := base + n;
            && New(e, PdOf(v)) <= Starts(base, n, LARGE, 0x4000_0000)
            && New(e, Pdp(Idx4(v))) <= Starts(base, n, LARGE, 0x80_0000_0000)
  {
    if n >= LARGE {
      var w := base + (n - LARGE);
      SameUnit(w, base + n);
      var way := Way2M(w);
      assert Ways2M(base, n) == Ways2M(base, n - LARGE) + way;
      assert way[0] == Pdp(Idx4(w)) && way[1] == PdOf(w);
      ElemsConcat(Ways2M(base, n - LARGE), way);
    }
  }
}
