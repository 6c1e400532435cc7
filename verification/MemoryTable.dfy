/**
  The block table of the Unicorn engine as a value, and what it denotes: a partial
  map from 64-bit addresses to cells.  Every operation of `Engine` is proved against
  the functions of this module.
 */
module MemoryTable {
  import opened Common

  const TOP: int := 0x1_0000_0000_0000_0000

  const PROT_WRITE: int := 2
  const PROT_EXEC: int := 4
  const PROT_ALL: int := 7

  // ---- 64-bit arithmetic -------------------------------------------------

  // Sums and differences of two 64-bit values, reduced modulo 2^64.

  function Add64(a: int, b: int): int { if a + b < TOP then a + b else a + b - TOP }

  function Sub64(a: int, b: int): int { if a >= b then a - b else a - b + TOP }

  function Min(a: int, b: int): int { if a <= b then a else b }

  predicate CanWrite(perms: int) { perms / PROT_WRITE % 2 == 1 }

  predicate CanExec(perms: int) { perms / PROT_EXEC % 2 == 1 }

  /** A multiple of the page size, by repeated subtraction; `AlignedIsMod` ties it to the
      remainder, and `MaskIsRemainder` the remainder to the mask of the source. */
  ghost predicate Aligned(x: int, page: int)
    requires page > 0
    decreases if x < 0 then page - x else x
  {
    if x < 0 then Aligned(x + page, page)
    else if x < page then x == 0
    else Aligned(x - page, page)
  }

  lemma {:induction false} AlignedIsMod(x: int, page: int)
    requires page > 0
    ensures Aligned(x, page) <==> x % page == 0
    decreases if x < 0 then page - x else x
  {
    if x < 0 {
      AlignedIsMod(x + page, page);
      ShiftMod(x, page);
    } else if x >= page {
      AlignedIsMod(x - page, page);
      ShiftMod(x - page, page);
    }
  }

  lemma ShiftMod(x: int, page: int)
    requires page > 0
    ensures (x + page) % page == x % page
  {
    var q, r := x / page, x % page;
    assert x == q * page + r;
    assert x + page == (q + 1) * page + r;
    DivMod(page, q + 1, r);
  }

  /** The bitwise conjunction of two words. */
  function And(a: nat, b: nat): (r: nat) {
    if a == 0 || b == 0 then 0 else 2 * And(a / 2, b / 2) + a % 2 * (b % 2)
  }

  predicate PowerOfTwo(p: int) { p == 1 || (p > 1 && p % 2 == 0 && PowerOfTwo(p / 2)) }

  lemma DoubleRemainder(x: nat, half: int)
    requires half > 0
    ensures x % (2 * half) == 2 * (x / 2 % half) + x % 2
  {
    var y := x / 2;
    var q, r := y / half, y % half;
    assert y == q * half + r;
    assert x == q * (2 * half) + (2 * r + x % 2);
    DivMod(2 * half, q, 2 * r + x % 2);
  }

  /** Masking with a page size less one keeps the remainder. */
  lemma {:induction false} MaskIsRemainder(x: nat, page: int)
    requires PowerOfTwo(page)
    ensures And(x, page - 1) == x % page
    decreases page
  {
    if page > 1 {
      var half := page / 2;
      MaskIsRemainder(x / 2, half);
      AndOdd(x, half - 1, page - 1);
      DoubleRemainder(x, half);
    }
  }

  /** What the engine keeps of its page size: the mask gives the remainder. */
  ghost predicate Masks(mask: nat, page: int)
    requires page > 0
  {
    forall x: nat {:trigger And(x, mask)} :: And(x, mask) == x % page
  }

  lemma AndOdd(x: nat, half: nat, mask: nat)
    requires mask == 2 * half + 1
    ensures And(x, mask) == 2 * And(x / 2, half) + x % 2
  {
  }

  /** What the permission tests mean: bit 1 is for writing and bit 2 for execution. */
  lemma PermissionBits(p: int)
    requires 0 <= p <= 7
    ensures CanWrite(p) <==> And(p, 2) != 0
    ensures CanExec(p) <==> And(p, 4) != 0
  {
    AndHalves(p, 2);
    AndHalves(p / 2, 1);
    AndHalves(p, 4);
    AndHalves(p / 2, 2);
    AndHalves(p / 4, 1);
  }

  lemma AndHalves(a: nat, b: nat)
    ensures And(a, b) == 2 * And(a / 2, b / 2) + a % 2 * (b % 2)
  {
  }

  // ---- Blocks ------------------------------------------------------------

  datatype Cell = Cell(byte: Byte, perms: int)

  /** A mapped block.  `Limit` is where it really ends; `End` is the 64-bit field the
      source keeps, which is 0 for a block that reaches the top of the address space. */
  datatype Region = Region(addr: int, size: int, perms: int, readonly: bool, data: seq<Byte>) {
    function Limit(): int { addr + size }

    function End(): int { Add64(addr, size) }

    predicate Covers(a: int) { addr <= a < addr + size }

    /** Non-empty, non-wrapping, with one byte of data per address. */
    predicate Shaped() {
      0 <= addr && 0 < size < TOP && addr + size <= TOP && |data| == size
    }

    /** Page-aligned, with a write-protect flag that agrees with the permissions. */
    ghost predicate Kept(page: int)
      requires page > 0
    {
      && Aligned(addr, page) && Aligned(size, page)
      && 0 <= perms <= PROT_ALL
      && readonly == !CanWrite(perms)
    }

    function CellAt(a: int): Cell {
      Cell(if 0 <= a - addr < |data| then data[a - addr] else 0, perms)
    }
  }

  predicate Apart(r: Region, s: Region) { r.Limit() <= s.addr || s.Limit() <= r.addr }

  /** Non-empty, non-wrapping and pairwise disjoint blocks. */
  ghost predicate Shape(bs: seq<Region>) {
    && (forall i {:trigger bs[i].Shaped()} :: 0 <= i < |bs| ==> bs[i].Shaped())
    && (forall i, j {:trigger Apart(bs[i], bs[j])} ::
          0 <= i < |bs| && 0 <= j < |bs| && i != j ==> Apart(bs[i], bs[j]))
  }

  ghost predicate AllKept(bs: seq<Region>, page: int)
    requires page > 0
  {
    forall i {:trigger bs[i].Kept(page)} :: 0 <= i < |bs| ==> bs[i].Kept(page)
  }

  /** What every call keeps: blocks are non-empty, page-aligned, non-wrapping and disjoint. */
  ghost predicate Valid(bs: seq<Region>, page: int) {
    page > 0 && Shape(bs) && AllKept(bs, page)
  }

  // ---- The plain scan and the memory it denotes ----------------------------

  /** Index of the first block that covers `a`, or -1. */
  function Scan(bs: seq<Region>, a: int): (r: int)
    ensures -1 <= r < |bs|
    ensures r >= 0 ==> bs[r].Covers(a) && forall j :: 0 <= j < r ==> !bs[j].Covers(a)
    ensures r < 0 ==> forall j :: 0 <= j < |bs| ==> !bs[j].Covers(a)
  {
    if bs == [] then -1
    else if bs[0].Covers(a) then 0
    else
      var r := Scan(bs[1..], a);
      if r < 0 then -1 else r + 1
  }

  type Memory = map<int, Cell>

  ghost predicate Hit(bs: seq<Region>, i: int, a: int) { 0 <= i < |bs| && bs[i].Covers(a) }

  /** Some block that covers `a`, or -1. */
  ghost function Owner(bs: seq<Region>, a: int): (r: int)
    ensures r == -1 || Hit(bs, r, a)
    ensures forall i :: Hit(bs, i, a) ==> r >= 0
  {
    if exists i :: Hit(bs, i, a) then
      var i :| Hit(bs, i, a);
      i
    else -1
  }

  /** `m` holds exactly the cells of the blocks of `bs`. */
  ghost predicate Denotes(bs: seq<Region>, m: Memory) {
    forall a {:trigger Owner(bs, a)} ::
      && (a in m <==> 0 <= a < TOP && Owner(bs, a) >= 0)
      && (a in m ==> m[a] == bs[Owner(bs, a)].CellAt(a))
  }

  /** The memory a table denotes. */
  ghost function View(bs: seq<Region>): (m: Memory) {
    assert Denotes(bs, map a | 0 <= a < TOP && Owner(bs, a) >= 0 :: bs[Owner(bs, a)].CellAt(a));
    var m :| Denotes(bs, m);
    m
  }

  /** Disjoint blocks: whichever block covers an address determines its cell, and the plain
      scan finds that block. */
  lemma CoveringBlockIsUnique(bs: seq<Region>, i: int, a: int)
    requires Shape(bs) && Hit(bs, i, a)
    ensures Owner(bs, a) == i
    ensures a in View(bs) && View(bs)[a] == bs[i].CellAt(a)
  {
    var j := Owner(bs, a);
    assert bs[i].Shaped();
    assert j == i || Apart(bs[i], bs[j]);
  }

  lemma ScanFindsOwner(bs: seq<Region>, a: int)
    requires Shape(bs)
    ensures Scan(bs, a) == Owner(bs, a)
    ensures 0 <= a < TOP ==> (Scan(bs, a) >= 0 <==> a in View(bs))
  {
    var i, j := Scan(bs, a), Owner(bs, a);
    if i >= 0 { CoveringBlockIsUnique(bs, i, a); }
  }

  /** A table denotes the memory `m` once every block agrees with `m` and nothing else is in it. */
  lemma ViewIs(bs: seq<Region>, m: Memory)
    requires Shape(bs)
    requires forall i, a :: Hit(bs, i, a) ==> a in m && m[a] == bs[i].CellAt(a)
    requires forall a :: a in m ==> Owner(bs, a) >= 0
    ensures View(bs) == m
  {
    forall a
      ensures a in m <==> a in View(bs)
      ensures a in m ==> m[a] == View(bs)[a]
    {
      var i := Owner(bs, a);
      assert i >= 0 ==> Hit(bs, i, a) && bs[i].Shaped();
    }
  }

  // ---- One-line changes of the abstract memory -----------------------------

  ghost predicate Mapped(m: Memory, lo: int, hi: int) {
    forall a :: lo <= a < hi ==> a in m
  }

  ghost predicate Unmapped(m: Memory, lo: int, hi: int) {
    forall a :: lo <= a < hi ==> a !in m
  }

  ghost function Without(m: Memory, lo: int, hi: int): (r: Memory) {
    map a | a in m && !(lo <= a < hi) :: m[a]
  }

  ghost function WithPerms(m: Memory, lo: int, hi: int, perms: int): (r: Memory) {
    map a | a in m :: if lo <= a < hi then Cell(m[a].byte, perms) else m[a]
  }

  /** Bytes i..j of a buffer that belongs at `lo`. */
  ghost function WithPart(m: Memory, lo: int, bytes: seq<Byte>, i: int, j: int): (r: Memory)
    requires 0 <= i <= j <= |bytes|
  {
    map a | a in m :: if lo + i <= a < lo + j then Cell(bytes[a - lo], m[a].perms) else m[a]
  }

  lemma WithPermsTwice(m: Memory, lo: int, mid: int, hi: int, perms: int)
    requires lo <= mid <= hi
    ensures WithPerms(WithPerms(m, lo, mid, perms), mid, hi, perms) == WithPerms(m, lo, hi, perms)
  {
  }

  lemma WithoutTwice(m: Memory, lo: int, mid: int, hi: int)
    requires lo <= mid <= hi
    ensures Without(Without(m, lo, mid), mid, hi) == Without(m, lo, hi)
  {
  }

  // The same for a range of 64-bit addresses, which goes on at 0 when it passes 2^64.

  /** The `k`-th address of a range is `Add64(address, k)`; this says that `a` is one of them. */
  predicate InRange(address: int, size: int, a: int) { 0 <= Sub64(a, address) < size }

  ghost predicate RangeMapped(m: Memory, address: int, size: int) {
    forall k {:trigger Add64(address, k)} :: 0 <= k < size ==> Add64(address, k) in m
  }

  ghost function WithoutRange(m: Memory, address: int, size: int): (r: Memory) {
    map a | a in m && !InRange(address, size, a) :: m[a]
  }

  ghost function RangePerms(m: Memory, address: int, size: int, perms: int): (r: Memory) {
    map a | a in m :: if InRange(address, size, a) then Cell(m[a].byte, perms) else m[a]
  }

  ghost function WithBytes(m: Memory, address: int, bytes: seq<Byte>): (r: Memory) {
    map a | a in m :: if InRange(address, |bytes|, a) then Cell(bytes[Sub64(a, address)], m[a].perms) else m[a]
  }

  /** How much of a range lies below 2^64. */
  function Head(address: int, size: int): int { Min(size, TOP - address) }

  predicate InWord(address: int, size: int) { 0 <= address < TOP && 0 <= size < TOP }

  /** Only 64-bit addresses are mapped. */
  ghost predicate Bounded(m: Memory) { forall a :: a in m ==> 0 <= a < TOP }

  lemma ViewBounded(bs: seq<Region>)
    ensures Bounded(View(bs))
  {
    forall a | a in View(bs) ensures 0 <= a < TOP { var i := Owner(bs, a); }
  }

  /** A range is two stretches: one below 2^64 and the rest from 0 on. */
  lemma RangeIsStretches(m: Memory, address: int, size: int)
    requires InWord(address, size)
    ensures var h := Head(address, size);
      RangeMapped(m, address, size) <==> Mapped(m, address, address + h) && Mapped(m, 0, size - h)
  {
    var h := Head(address, size);
    if RangeMapped(m, address, size) {
      forall a | address <= a < address + h ensures a in m { assert Add64(address, a - address) == a; }
      forall a | 0 <= a < size - h ensures a in m { assert Add64(address, a + h) == a; }
    }
  }

  lemma WithoutStretches(m: Memory, address: int, size: int)
    requires InWord(address, size) && Bounded(m)
    ensures var h := Head(address, size);
      WithoutRange(m, address, size) == Without(Without(m, address, address + h), 0, size - h)
  {
  }

  lemma PermsStretches(m: Memory, address: int, size: int, perms: int)
    requires InWord(address, size) && Bounded(m)
    ensures var h := Head(address, size);
      RangePerms(m, address, size, perms) == WithPerms(WithPerms(m, address, address + h, perms), 0, size - h, perms)
  {
  }

  lemma BytesStretches(m: Memory, address: int, bytes: seq<Byte>)
    requires InWord(address, |bytes|) && Bounded(m)
    ensures var h := Head(address, |bytes|);
      WithBytes(m, address, bytes)
      == WithPart(WithPart(m, address, bytes, 0, h), address - TOP, bytes, h, |bytes|)
  {
  }

  /** The memory `m` with the cells of block `r` on top. */
  ghost function WithBlock(m: Memory, r: Region): (n: Memory) {
    m + Cells(r, r.addr, r.Limit())
  }

  ghost function Cells(r: Region, lo: int, hi: int): (n: Memory) {
    map a | lo <= a < hi :: r.CellAt(a)
  }

  // ---- The three-case overlap test ------------------------------------------

  /** The three comparisons of the source, on 64-bit values: `last` is the last address of
      the range and `End() - 1` the last address of the block, computed modulo 2^64. */
  predicate OverlapCases(r: Region, begin: int, last: int) {
    var rlast := Sub64(r.End(), 1);
    || (begin >= r.addr && begin <= rlast)
    || (last >= r.addr && last <= rlast)
    || (begin < r.addr && last > rlast)
  }

  lemma OverlapIsIntersection(r: Region, begin: int, size: int)
    requires r.Shaped()
    requires 0 <= begin && 0 < size < TOP && begin + size <= TOP
    ensures OverlapCases(r, begin, begin + size - 1) <==>
            exists a :: begin <= a < begin + size && r.Covers(a)
  {
    EndWraps(r);
    if OverlapCases(r, begin, begin + size - 1) {
      var a := if begin >= r.addr then begin else r.addr;
      assert begin <= a < begin + size && r.Covers(a);
    }
  }

  lemma EndWraps(r: Region)
    requires r.Shaped()
    ensures Sub64(r.End(), 1) == r.Limit() - 1
    ensures r.End() == if r.Limit() == TOP then 0 else r.Limit()
    ensures forall a :: r.Covers(a) ==> Sub64(r.End(), a) == r.Limit() - a
  {
  }

  // ---- Table changes and their meaning --------------------------------------

  lemma RemoveAtShape(bs: seq<Region>, i: int)
    requires Shape(bs) && 0 <= i < |bs|
    ensures Shape(RemoveAt(bs, i))
    ensures forall k, a :: Hit(RemoveAt(bs, i), k, a) ==>
              Hit(bs, if k < i then k else k + 1, a) && !bs[i].Covers(a)
    ensures forall j, a :: Hit(bs, j, a) && j != i ==> Hit(RemoveAt(bs, i), if j < i then j else j - 1, a)
  {
    var t := RemoveAt(bs, i);
    assert forall k :: 0 <= k < |t| ==> t[k] == if k < i then bs[k] else bs[k + 1];
    forall k, a | Hit(t, k, a)
      ensures Hit(bs, if k < i then k else k + 1, a) && !bs[i].Covers(a)
    {
      assert Apart(bs[if k < i then k else k + 1], bs[i]);
    }
  }

  lemma RemoveAtView(bs: seq<Region>, i: int)
    requires Shape(bs) && 0 <= i < |bs|
    ensures Shape(RemoveAt(bs, i))
    ensures View(RemoveAt(bs, i)) == Without(View(bs), bs[i].addr, bs[i].Limit())
  {
    var t := RemoveAt(bs, i);
    RemoveAtShape(bs, i);
    var m := Without(View(bs), bs[i].addr, bs[i].Limit());
    forall k, a | Hit(t, k, a)
      ensures a in m && m[a] == t[k].CellAt(a)
    {
      KeptCell(bs, i, k, a);
    }
    forall a | a in m
      ensures Owner(t, a) >= 0
    {
      KeptOwner(bs, i, a);
    }
    ViewIs(t, m);
  }

  /** An address that stays is still found. */
  lemma KeptOwner(bs: seq<Region>, i: int, a: int)
    requires Shape(bs) && 0 <= i < |bs| && a in Without(View(bs), bs[i].addr, bs[i].Limit())
    ensures Owner(RemoveAt(bs, i), a) >= 0
  {
    RemoveAtShape(bs, i);
    var j := Owner(bs, a);
    assert Hit(RemoveAt(bs, i), if j < i then j else j - 1, a);
  }

  /** A block that stays keeps its cells. */
  lemma KeptCell(bs: seq<Region>, i: int, k: int, a: int)
    requires Shape(bs) && 0 <= i < |bs| && Hit(RemoveAt(bs, i), k, a)
    ensures var m := Without(View(bs), bs[i].addr, bs[i].Limit()); a in m && m[a] == RemoveAt(bs, i)[k].CellAt(a)
  {
    RemoveAtShape(bs, i);
    var j := if k < i then k else k + 1;
    assert RemoveAt(bs, i)[k] == bs[j];
    CoveringBlockIsUnique(bs, j, a);
  }

  /** Adding a block to a table that maps nothing in its range. */
  lemma AppendView(bs: seq<Region>, r: Region)
    requires Shape(bs) && r.Shaped()
    requires Unmapped(View(bs), r.addr, r.Limit())
    ensures Shape(bs + [r])
    ensures View(bs + [r]) == WithBlock(View(bs), r)
  {
    var t := bs + [r];
    forall i | 0 <= i < |bs|
      ensures Apart(bs[i], r)
    {
      var a := if bs[i].addr <= r.addr then r.addr else bs[i].addr;
      assert bs[i].Shaped();
      if bs[i].Covers(a) { CoveringBlockIsUnique(bs, i, a); }
    }
    assert Shape(t);
    var m := WithBlock(View(bs), r);
    forall k, a | Hit(t, k, a)
      ensures a in m && m[a] == t[k].CellAt(a)
    {
      if k < |bs| {
        CoveringBlockIsUnique(bs, k, a);
        assert Apart(bs[k], r);
      }
    }
    forall a | a in m
      ensures Owner(t, a) >= 0
    {
      if r.Covers(a) {
        assert Hit(t, |bs|, a);
      } else {
        assert Hit(t, Owner(bs, a), a);
      }
    }
    ViewIs(t, m);
  }

  /** A newly mapped block: zero-filled, write-protected when its permissions say so. */
  function Fresh(addr: int, size: int, perms: int): (r: Region)
    requires size >= 0
    ensures |r.data| == size
    ensures forall a :: r.CellAt(a) == Cell(0, perms)
  {
    Region(addr, size, perms, !CanWrite(perms), seq(size, k => 0))
  }

  // Writing bytes

  /** `p` is block `r` after bytes i..j of a buffer that belongs at `lo` were copied in. */
  ghost predicate PokedRegion(r: Region, p: Region, lo: int, bytes: seq<Byte>, i: int, j: int)
    requires 0 <= i <= j <= |bytes|
  {
    && p == r.(data := p.data)
    && |p.data| == |r.data|
    && forall k :: 0 <= k < |p.data| ==>
         p.data[k] == if lo + i <= r.addr + k < lo + j then bytes[r.addr + k - lo] else r.data[k]
  }

  ghost predicate Poked(bs: seq<Region>, t: seq<Region>, lo: int, bytes: seq<Byte>, i: int, j: int)
    requires 0 <= i <= j <= |bytes|
  {
    |t| == |bs| && forall n :: 0 <= n < |t| ==> PokedRegion(bs[n], t[n], lo, bytes, i, j)
  }

  lemma PokedNext(bs: seq<Region>, t: seq<Region>, u: seq<Region>, lo: int, bytes: seq<Byte>, h: int, i: int, j: int)
    requires 0 <= h <= i <= j <= |bytes|
    requires Poked(bs, t, lo, bytes, h, i) && Poked(t, u, lo, bytes, i, j)
    ensures Poked(bs, u, lo, bytes, h, j)
  {
    forall n | 0 <= n < |u|
      ensures PokedRegion(bs[n], u[n], lo, bytes, h, j)
    {
      assert PokedRegion(bs[n], t[n], lo, bytes, h, i) && PokedRegion(t[n], u[n], lo, bytes, i, j);
    }
  }

  /** The block after a copy that stays inside it. */
  function Copy(r: Region, lo: int, bytes: seq<Byte>, i: int, j: int): (p: Region)
    requires r.Shaped() && 0 <= i <= j <= |bytes|
    requires r.addr <= lo + i && lo + j <= r.Limit()
    ensures PokedRegion(r, p, lo, bytes, i, j)
  {
    r.(data := r.data[..lo + i - r.addr] + bytes[i..j] + r.data[lo + j - r.addr..])
  }

  /** A write that stays inside block `n` touches no other block. */
  lemma PokedInside(bs: seq<Region>, n: int, p: Region, lo: int, bytes: seq<Byte>, i: int, j: int)
    requires Shape(bs) && 0 <= n < |bs| && 0 <= i <= j <= |bytes|
    requires bs[n].addr <= lo + i && lo + j <= bs[n].Limit()
    requires PokedRegion(bs[n], p, lo, bytes, i, j)
    ensures Poked(bs, bs[n := p], lo, bytes, i, j)
  {
    forall k | 0 <= k < |bs| && k != n
      ensures PokedRegion(bs[k], bs[k], lo, bytes, i, j)
    {
      assert Apart(bs[n], bs[k]) && bs[k].Shaped();
    }
  }

  lemma PokedShape(bs: seq<Region>, t: seq<Region>, lo: int, bytes: seq<Byte>, i: int, j: int)
    requires Shape(bs) && 0 <= i <= j <= |bytes| && Poked(bs, t, lo, bytes, i, j)
    ensures Shape(t)
    ensures forall n, a :: Hit(t, n, a) <==> Hit(bs, n, a)
  {
    forall n | 0 <= n < |bs|
      ensures t[n].addr == bs[n].addr && t[n].size == bs[n].size && t[n].Shaped()
    {
      assert bs[n].Shaped() && PokedRegion(bs[n], t[n], lo, bytes, i, j);
    }
    forall n, k | 0 <= n < |bs| && 0 <= k < |bs| && n != k
      ensures Apart(t[n], t[k])
    {
      assert Apart(bs[n], bs[k]);
    }
  }

  lemma PokedHit(bs: seq<Region>, p: Region, lo: int, bytes: seq<Byte>, i: int, j: int, n: int, a: int)
    requires 0 <= i <= j <= |bytes|
    requires Shape(bs) && Hit(bs, n, a) && PokedRegion(bs[n], p, lo, bytes, i, j)
    ensures var m := WithPart(View(bs), lo, bytes, i, j);
            a in m && m[a] == p.CellAt(a)
  {
    CoveringBlockIsUnique(bs, n, a);
    assert bs[n].Shaped();
    assert p.data[a - p.addr] == if lo + i <= a < lo + j then bytes[a - lo] else bs[n].data[a - p.addr];
  }

  lemma PokedView(bs: seq<Region>, t: seq<Region>, lo: int, bytes: seq<Byte>, i: int, j: int)
    requires 0 <= i <= j <= |bytes| && Shape(bs) && Poked(bs, t, lo, bytes, i, j)
    ensures Shape(t)
    ensures View(t) == WithPart(View(bs), lo, bytes, i, j)
  {
    PokedShape(bs, t, lo, bytes, i, j);
    var m := WithPart(View(bs), lo, bytes, i, j);
    forall n, a | Hit(t, n, a)
      ensures a in m && m[a] == t[n].CellAt(a)
    {
      PokedHit(bs, t[n], lo, bytes, i, j, n, a);
    }
    forall a | a in m
      ensures Owner(t, a) >= 0
    {
      assert Hit(t, Owner(bs, a), a);
    }
    ViewIs(t, m);
  }

  /** A write maps and unmaps nothing, and keeps alignment and protection. */
  lemma PokedKept(bs: seq<Region>, page: int, t: seq<Region>, lo: int, bytes: seq<Byte>, i: int, j: int)
    requires Valid(bs, page) && 0 <= i <= j <= |bytes| && Poked(bs, t, lo, bytes, i, j)
    ensures Valid(t, page)
    ensures View(t).Keys == View(bs).Keys && TopStart(t) == TopStart(bs)
  {
    PokedShape(bs, t, lo, bytes, i, j);
    forall n | 0 <= n < |bs| ensures t[n].addr == bs[n].addr && t[n].size == bs[n].size {
      assert PokedRegion(bs[n], t[n], lo, bytes, i, j);
    }
    SameShapeTop(bs, t);
    forall n | 0 <= n < |bs|
      ensures t[n].Kept(page)
    {
      assert bs[n].Kept(page) && PokedRegion(bs[n], t[n], lo, bytes, i, j);
    }
    forall a
      ensures a in View(t) <==> a in View(bs)
    {
      assert Owner(bs, a) >= 0 ==> Hit(t, Owner(bs, a), a);
      assert Owner(t, a) >= 0 ==> Hit(bs, Owner(t, a), a);
    }
  }

  lemma PokedAt(bs: seq<Region>, page: int, n: int, p: Region, lo: int, bytes: seq<Byte>, i: int, j: int)
    requires Valid(bs, page) && 0 <= n < |bs| && 0 <= i <= j <= |bytes|
    requires bs[n].addr <= lo + i && lo + j <= bs[n].Limit()
    requires PokedRegion(bs[n], p, lo, bytes, i, j)
    ensures Poked(bs, bs[n := p], lo, bytes, i, j)
    ensures Valid(bs[n := p], page)
    ensures View(bs[n := p]).Keys == View(bs).Keys && TopStart(bs[n := p]) == TopStart(bs)
  {
    PokedInside(bs, n, p, lo, bytes, i, j);
    PokedKept(bs, page, bs[n := p], lo, bytes, i, j);
  }

  // Write protection

  /** The source couples the write-protect flag with the write permission bit. */
  function SetReadonly(r: Region, ro: bool): (s: Region) {
    if r.readonly == ro then r
    else if ro then r.(readonly := true, perms := if CanWrite(r.perms) then r.perms - PROT_WRITE else r.perms)
    else r.(readonly := false, perms := if CanWrite(r.perms) then r.perms else r.perms + PROT_WRITE)
  }

  /** One copy into a block: lifts the protection, copies, protects again.  Nothing but the
      data is different afterwards. */
  method CopyThrough(r: Region, lo: int, bytes: seq<Byte>, i: int, j: int) returns (p: Region)
    requires r.Shaped() && 0 <= i <= j <= |bytes|
    requires r.addr <= lo + i && lo + j <= r.Limit()
    requires r.readonly == !CanWrite(r.perms)
    ensures PokedRegion(r, p, lo, bytes, i, j)
  {
    p := r;
    if !CanWrite(r.perms) {
      p := SetReadonly(p, false);
    }
    // the block is writable here, so the copy goes through
    assert !p.readonly;
    p := Copy(p, lo, bytes, i, j);
    if !CanWrite(r.perms) {
      p := SetReadonly(p, true);
    }
  }

  function SetPerms(r: Region, perms: int): (s: Region) {
    r.(perms := perms, readonly := !CanWrite(perms))
  }

  /** Storing the permissions and then adjusting the write protection leaves the two in step. */
  lemma PermsThenReadonly(r: Region, perms: int)
    ensures SetReadonly(r.(perms := perms), !CanWrite(perms)) == SetPerms(r, perms)
  {
  }

  /** Only the permissions of block `i` change; every block stays where it is. */
  lemma SetPermsShape(bs: seq<Region>, i: int, perms: int)
    requires Shape(bs) && 0 <= i < |bs|
    ensures Shape(bs[i := SetPerms(bs[i], perms)])
    ensures forall k, a :: Hit(bs[i := SetPerms(bs[i], perms)], k, a) <==> Hit(bs, k, a)
  {
    var t := bs[i := SetPerms(bs[i], perms)];
    forall k | 0 <= k < |bs|
      ensures t[k].Shaped()
    {
      assert bs[k].Shaped();
    }
    forall k, j | 0 <= k < |bs| && 0 <= j < |bs| && k != j
      ensures Apart(t[k], t[j])
    {
      assert Apart(bs[k], bs[j]);
    }
  }

  lemma SetPermsHit(bs: seq<Region>, i: int, perms: int, k: int, a: int)
    requires Shape(bs) && 0 <= i < |bs| && Hit(bs, k, a)
    ensures var m := WithPerms(View(bs), bs[i].addr, bs[i].Limit(), perms);
            a in m && m[a] == bs[i := SetPerms(bs[i], perms)][k].CellAt(a)
  {
    CoveringBlockIsUnique(bs, k, a);
    assert k == i || Apart(bs[k], bs[i]);
  }

  lemma SetPermsKept(bs: seq<Region>, page: int, i: int, perms: int)
    requires Valid(bs, page) && 0 <= i < |bs| && 0 <= perms <= PROT_ALL
    ensures Valid(bs[i := SetPerms(bs[i], perms)], page)
    ensures TopStart(bs[i := SetPerms(bs[i], perms)]) == TopStart(bs)
  {
    var t := bs[i := SetPerms(bs[i], perms)];
    SetPermsShape(bs, i, perms);
    SameShapeTop(bs, t);
    forall k | 0 <= k < |bs|
      ensures t[k].Kept(page)
    {
      assert bs[k].Kept(page);
    }
  }

  lemma SetPermsView(bs: seq<Region>, i: int, perms: int)
    requires Shape(bs) && 0 <= i < |bs|
    ensures Shape(bs[i := SetPerms(bs[i], perms)])
    ensures View(bs[i := SetPerms(bs[i], perms)])
         == WithPerms(View(bs), bs[i].addr, bs[i].Limit(), perms)
  {
    var t := bs[i := SetPerms(bs[i], perms)];
    SetPermsShape(bs, i, perms);
    var m := WithPerms(View(bs), bs[i].addr, bs[i].Limit(), perms);
    forall k, a | Hit(t, k, a)
      ensures a in m && m[a] == t[k].CellAt(a)
    {
      SetPermsHit(bs, i, perms, k, a);
    }
    forall a | a in m
      ensures Owner(t, a) >= 0
    {
      assert Hit(t, Owner(bs, a), a);
    }
    ViewIs(t, m);
  }

  // Splitting a block

  function Piece(r: Region, lo: int, hi: int): (p: seq<Region>)
    requires r.addr <= lo <= hi <= r.addr + |r.data|
  {
    if lo == hi then [] else [Region(lo, hi - lo, r.perms, !CanWrite(r.perms), r.data[lo - r.addr..hi - r.addr])]
  }

  /** The table after block `i` has been cut at `lo` and `hi`; the middle piece is dropped
      when the split serves an unmap. */
  function SplitTable(bs: seq<Region>, i: int, lo: int, hi: int, doDelete: bool): (t: seq<Region>)
    requires 0 <= i < |bs| && |bs[i].data| == bs[i].size
    requires bs[i].addr <= lo <= hi <= bs[i].Limit()
  {
    var r := bs[i];
    var left := RemoveAt(bs, i) + Piece(r, r.addr, lo);
    var middle := if doDelete then left else left + Piece(r, lo, hi);
    middle + Piece(r, hi, r.Limit())
  }

  lemma PieceCells(r: Region, lo: int, hi: int)
    requires r.Shaped() && r.addr <= lo < hi <= r.Limit()
    ensures Piece(r, lo, hi)[0].Shaped()
    ensures Cells(Piece(r, lo, hi)[0], lo, hi) == Cells(r, lo, hi)
  {
    var p := Piece(r, lo, hi)[0];
    forall a | lo <= a < hi
      ensures p.CellAt(a) == r.CellAt(a)
    {
      assert p.data[a - lo] == r.data[a - r.addr];
    }
  }

  /** Adding back a piece of `r` to a table with a hole there. */
  lemma AppendPiece(bs: seq<Region>, r: Region, lo: int, hi: int)
    requires Shape(bs) && r.Shaped()
    requires r.addr <= lo <= hi <= r.Limit()
    requires Unmapped(View(bs), lo, hi)
    ensures Shape(bs + Piece(r, lo, hi))
    ensures View(bs + Piece(r, lo, hi)) == View(bs) + Cells(r, lo, hi)
  {
    if lo < hi {
      var p := Piece(r, lo, hi)[0];
      PieceCells(r, lo, hi);
      AppendView(bs, p);
    } else {
      assert bs + Piece(r, lo, hi) == bs;
    }
  }

  /** Refilling a hole of `r` from the left, and from the right. */
  lemma Refill(m: Memory, r: Region, lo: int, mid: int, hi: int)
    requires r.addr <= lo <= mid <= hi <= r.Limit()
    requires forall a :: r.Covers(a) ==> a in m && m[a] == r.CellAt(a)
    ensures Without(m, lo, hi) + Cells(r, lo, mid) == Without(m, mid, hi)
    ensures Without(m, lo, hi) + Cells(r, mid, hi) == Without(m, lo, mid)
  {
  }

  /** The first half of a split: block `i` shrunk to what lies below `lo`. */
  lemma CutAbove(bs: seq<Region>, i: int, lo: int)
    requires Shape(bs) && 0 <= i < |bs|
    requires bs[i].addr <= lo <= bs[i].Limit() && |bs[i].data| == bs[i].size
    ensures var t := RemoveAt(bs, i) + Piece(bs[i], bs[i].addr, lo);
            Shape(t) && View(t) == Without(View(bs), lo, bs[i].Limit())
  {
    assert bs[i].Shaped();
    BlockCells(bs, i);
    RemoveAtView(bs, i);
    AppendPiece(RemoveAt(bs, i), bs[i], bs[i].addr, lo);
    Refill(View(bs), bs[i], bs[i].addr, lo, bs[i].Limit());
  }

  lemma BlockCells(bs: seq<Region>, i: int)
    requires Shape(bs) && 0 <= i < |bs|
    ensures forall a :: bs[i].Covers(a) ==> a in View(bs) && View(bs)[a] == bs[i].CellAt(a)
  {
    forall a | bs[i].Covers(a)
      ensures a in View(bs) && View(bs)[a] == bs[i].CellAt(a)
    {
      CoveringBlockIsUnique(bs, i, a);
    }
  }

  /** Splitting changes the memory by nothing more than the removal asked for. */
  lemma SplitView(bs: seq<Region>, i: int, lo: int, hi: int, doDelete: bool)
    requires Shape(bs) && 0 <= i < |bs|
    requires bs[i].addr <= lo < hi <= bs[i].Limit() && |bs[i].data| == bs[i].size
    ensures Shape(SplitTable(bs, i, lo, hi, doDelete))
    ensures View(SplitTable(bs, i, lo, hi, doDelete))
         == if doDelete then Without(View(bs), lo, hi) else View(bs)
  {
    var r, m := bs[i], View(bs);
    BlockCells(bs, i);
    CutAbove(bs, i, lo);
    var b1 := RemoveAt(bs, i) + Piece(r, r.addr, lo);
    Refill(m, r, lo, hi, r.Limit());
    if doDelete {
      AppendPiece(b1, r, hi, r.Limit());
    } else {
      AppendPiece(b1, r, lo, hi);
      AppendPiece(b1 + Piece(r, lo, hi), r, hi, r.Limit());
      Refill(m, r, hi, r.Limit(), r.Limit());
      assert Without(m, r.Limit(), r.Limit()) == m;
    }
  }

  /** What a split achieves, without saying how the table is laid out. */
  ghost predicate SplitDone(bs: seq<Region>, t: seq<Region>, lo: int, hi: int, doDelete: bool) {
    && View(t) == (if doDelete then Without(View(bs), lo, hi) else View(bs))
    && TopStart(t) == TopStart(bs)
    && (!doDelete ==> IsBlock(t, lo, hi - lo))
  }

  /** The range is exactly one block. */
  ghost predicate IsBlock(bs: seq<Region>, address: int, size: int) {
    var i := Owner(bs, address);
    i >= 0 && bs[i].addr == address && bs[i].size == size
  }

  lemma SplitTableDone(bs: seq<Region>, i: int, lo: int, hi: int, doDelete: bool)
    requires Shape(bs) && 0 <= i < |bs| && bs[i].Shaped() && bs[i].Limit() < TOP
    requires bs[i].addr <= lo < hi <= bs[i].Limit()
    ensures SplitDone(bs, SplitTable(bs, i, lo, hi, doDelete), lo, hi, doDelete)
  {
    SplitView(bs, i, lo, hi, doDelete);
    SplitTop(bs, i, lo, hi, doDelete);
    SplitIsolates(bs, i, lo, hi);
  }

  /** After a split that keeps the middle, the block found at `lo` is exactly [lo, hi). */
  lemma SplitIsolates(bs: seq<Region>, i: int, lo: int, hi: int)
    requires Shape(bs) && 0 <= i < |bs| && |bs[i].data| == bs[i].size
    requires bs[i].addr <= lo < hi <= bs[i].Limit()
    ensures var t := SplitTable(bs, i, lo, hi, false);
            var j := Owner(t, lo);
            j >= 0 && t[j].addr == lo && t[j].Limit() == hi && t[j].perms == bs[i].perms
  {
    var r := bs[i];
    var t := SplitTable(bs, i, lo, hi, false);
    SplitView(bs, i, lo, hi, false);
    var k := |RemoveAt(bs, i) + Piece(r, r.addr, lo)|;
    assert t[k] == Piece(r, lo, hi)[0];
    CoveringBlockIsUnique(t, k, lo);
  }

  // ---- Alignment ---------------------------------------------------------------

  lemma {:induction false} AlignedSum(page: int, lo: int, n: int)
    requires page > 0 && Aligned(lo, page) && Aligned(n, page)
    ensures Aligned(lo + n, page)
    ensures Aligned(lo - n, page)
  {
    AlignedIsMod(lo, page);
    AlignedIsMod(n, page);
    AlignedIsMod(lo + n, page);
    AlignedIsMod(lo - n, page);
    SumMod(page, lo, n);
  }

  lemma SumMod(page: int, lo: int, n: int)
    requires page > 0 && lo % page == 0 && n % page == 0
    ensures (lo + n) % page == 0 && (lo - n) % page == 0
  {
    var p, q := lo / page, n / page;
    assert lo == p * page && n == q * page;
    assert lo + n == (p + q) * page && lo - n == (p - q) * page;
    DivMod(page, p + q, 0);
    DivMod(page, p - q, 0);
  }

  // ---- The block at the top of the address space -----------------------------

  /** Start of the block that ends at 2^64, or 2^64 when there is none. */
  ghost function TopStart(bs: seq<Region>): (t: int) {
    var i := Owner(bs, TOP - 1);
    if i >= 0 then bs[i].addr else TOP
  }

  /** The range would cut the block that ends at 2^64. */
  ghost predicate CutsTop(bs: seq<Region>, lo: int, hi: int) {
    TopStart(bs) < hi && (TopStart(bs) < lo || hi < TOP)
  }

  lemma TopStartIs(bs: seq<Region>, i: int)
    requires Shape(bs) && 0 <= i < |bs|
    ensures bs[i].Limit() == TOP ==> TopStart(bs) == bs[i].addr
    ensures bs[i].Limit() < TOP ==> bs[i].Limit() <= TopStart(bs)
  {
    assert bs[i].Shaped();
    var j := Owner(bs, TOP - 1);
    if bs[i].Limit() == TOP {
      CoveringBlockIsUnique(bs, i, TOP - 1);
    } else if j >= 0 {
      assert Apart(bs[i], bs[j]) && bs[j].Shaped();
    }
  }

  /** The block that covers `a` is the top block exactly when `a` is not below the top. */
  lemma TopCovers(bs: seq<Region>, i: int, a: int)
    requires Shape(bs) && Hit(bs, i, a)
    ensures bs[i].Limit() == TOP <==> TopStart(bs) <= a
    ensures bs[i].Limit() == TOP ==> TopStart(bs) == bs[i].addr
    ensures bs[i].Limit() < TOP ==> bs[i].Limit() <= TopStart(bs)
  {
    assert bs[i].Shaped();
    TopStartIs(bs, i);
  }

  lemma RemoveAtTop(bs: seq<Region>, i: int)
    requires Shape(bs) && 0 <= i < |bs| && bs[i].Limit() < TOP
    ensures TopStart(RemoveAt(bs, i)) == TopStart(bs)
  {
    var t := RemoveAt(bs, i);
    RemoveAtView(bs, i);
    var j := Owner(bs, TOP - 1);
    if j >= 0 {
      var k := if j < i then j else j - 1;
      assert t[k] == bs[j];
      CoveringBlockIsUnique(t, k, TOP - 1);
    } else {
      var k := Owner(t, TOP - 1);
      assert k < 0 || Hit(bs, if k < i then k else k + 1, TOP - 1);
    }
  }

  lemma SplitTop(bs: seq<Region>, i: int, lo: int, hi: int, doDelete: bool)
    requires Shape(bs) && 0 <= i < |bs| && bs[i].Limit() < TOP && |bs[i].data| == bs[i].size
    requires bs[i].addr <= lo < hi <= bs[i].Limit()
    ensures TopStart(SplitTable(bs, i, lo, hi, doDelete)) == TopStart(bs)
  {
    var t := SplitTable(bs, i, lo, hi, doDelete);
    SplitView(bs, i, lo, hi, doDelete);
    RemoveAtTop(bs, i);
    var b0 := RemoveAt(bs, i);
    assert forall k :: 0 <= k < |b0| ==> t[k] == b0[k];
    assert forall k :: |b0| <= k < |t| ==> t[k].Limit() <= bs[i].Limit();
    var j := Owner(t, TOP - 1);
    assert j >= 0 ==> Hit(b0, j, TOP - 1);
    var k := Owner(b0, TOP - 1);
    if k >= 0 {
      CoveringBlockIsUnique(t, k, TOP - 1);
    }
  }

  lemma LastAddress(bs: seq<Region>)
    requires Shape(bs)
    ensures TopStart(bs) == TOP <==> TOP - 1 !in View(bs)
  {
    var i := Owner(bs, TOP - 1);
    if i >= 0 {
      assert bs[i].Shaped();
      CoveringBlockIsUnique(bs, i, TOP - 1);
    }
  }

  lemma AppendTop(bs: seq<Region>, r: Region)
    requires Shape(bs + [r])
    ensures TopStart(bs + [r]) == if r.Limit() == TOP then r.addr else TopStart(bs)
  {
    var t := bs + [r];
    assert t[|bs|].Shaped();
    if r.Limit() == TOP {
      CoveringBlockIsUnique(t, |bs|, TOP - 1);
    } else {
      var i, j := Owner(bs, TOP - 1), Owner(t, TOP - 1);
      if i >= 0 { CoveringBlockIsUnique(t, i, TOP - 1); }
      assert j >= 0 ==> Hit(bs, j, TOP - 1);
    }
  }

  lemma SameShapeTop(bs: seq<Region>, t: seq<Region>)
    requires Shape(bs) && Shape(t) && |t| == |bs|
    requires forall i :: 0 <= i < |bs| ==> t[i].addr == bs[i].addr && t[i].size == bs[i].size
    ensures TopStart(t) == TopStart(bs)
  {
    var i, j := Owner(bs, TOP - 1), Owner(t, TOP - 1);
    if i >= 0 { CoveringBlockIsUnique(t, i, TOP - 1); }
    assert j >= 0 ==> Hit(bs, j, TOP - 1);
  }
}
