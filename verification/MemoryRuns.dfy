/**
  Whole sessions of memory calls, and the limits of the engine at the top of the address
  space.  A session of any calls gives the replies and the memory of an interpreter that
  knows nothing of blocks, tables or splitting, except where the block that ends at 2^64 begins.
 */
module MemoryRuns {
  import opened Common
  import opened MemoryTable
  import opened MemoryEngine

  datatype Call =
    | Map(address: int, size: int, perms: int)
    | Unmap(address: int, size: int)
    | Protect(address: int, size: int, perms: int)
    | Write(address: int, bytes: seq<Byte>)
    | Read(address: int, size: int)

  datatype Reply = Reply(err: UcErr, bytes: seq<Byte>)

  /** Arguments that fit 64 bits. */
  predicate Fits(c: Call) {
    match c
    case Map(address, size, perms) => InWord(address, size) && perms >= 0
    case Unmap(address, size) => InWord(address, size)
    case Protect(address, size, perms) => InWord(address, size) && perms >= 0
    case Write(address, bytes) => InWord(address, |bytes|)
    case Read(address, size) => InWord(address, size)
  }

  predicate AllFit(calls: seq<Call>) { forall i :: 0 <= i < |calls| ==> Fits(calls[i]) }

  // ---- The interpreter: one line per call -------------------------------------

  /** The memory, and the start of the block that ends at 2^64, or 2^64 when there is none. */
  datatype Space = Space(mem: Memory, top: int)

  ghost function RangeOutcome(s: Space, page: int, address: int, size: int, badPerms: bool): UcErr
    requires page > 0
  {
    if size == 0 then Ok
    else if badPerms || !Aligned(address, page) || !Aligned(size, page) then Arg
    else if !RangeMapped(s.mem, address, size) || s.top < address then NoMem
    else Ok
  }

  ghost function ReplyTo(s: Space, page: int, c: Call): Reply
    requires page > 0 && Fits(c)
  {
    match c
    case Map(address, size, perms) => Reply(MapOutcome(s.mem, page, address, size, perms), [])
    case Unmap(address, size) => Reply(RangeOutcome(s, page, address, size, false), [])
    case Protect(address, size, perms) => Reply(RangeOutcome(s, page, address, size, perms > PROT_ALL), [])
    case Write(address, bytes) =>
      Reply(if RangeMapped(s.mem, address, |bytes|) then Ok else WriteUnmapped, [])
    case Read(address, size) =>
      if RangeMapped(s.mem, address, size) then Reply(Ok, BytesOf(s.mem, address, size)) else Reply(ReadUnmapped, [])
  }

  /** A range that ends inside the top block grows to the end of it. */
  ghost function Grown(s: Space, address: int, size: int): int {
    if s.top < address + size < TOP then TOP - address else size
  }

  ghost function After(s: Space, page: int, c: Call): Space
    requires page > 0 && Fits(c)
  {
    if ReplyTo(s, page, c).err != Ok then s
    else
      match c
      case Map(address, size, perms) =>
        Space(WithBlock(s.mem, Fresh(address, size, perms)), if address + size == TOP then address else s.top)
      case Unmap(address, size) =>
        var m := WithoutRange(s.mem, address, Grown(s, address, size));
        if size == 0 then s else Space(m, if TOP - 1 in m then s.top else TOP)
      case Protect(address, size, perms) =>
        if size == 0 then s else s.(mem := RangePerms(s.mem, address, Grown(s, address, size), perms))
      case Write(address, bytes) => s.(mem := WithBytes(s.mem, address, bytes))
      case Read(address, size) => s
  }

  ghost function RunSpace(s: Space, page: int, calls: seq<Call>): Space
    requires page > 0 && AllFit(calls)
  {
    if calls == [] then s else
      var front := calls[..|calls| - 1];
      After(RunSpace(s, page, front), page, calls[|calls| - 1])
  }

  ghost function RunReplies(s: Space, page: int, calls: seq<Call>): seq<Reply>
    requires page > 0 && AllFit(calls)
  {
    if calls == [] then [] else
      var front := calls[..|calls| - 1];
      RunReplies(s, page, front) + [ReplyTo(RunSpace(s, page, front), page, calls[|calls| - 1])]
  }

  // ---- The engine refines the interpreter ----------------------------------------

  ghost function SpaceOf(bs: seq<Region>): Space { Space(View(bs), TopStart(bs)) }

  /** What a successful unmap leaves is what the interpreter says. */
  lemma UnmapInSpace(bs: seq<Region>, t: seq<Region>, page: int, address: int, size: int)
    requires Shape(t) && InWord(address, size) && size > 0 && page > 0
    requires UnmapOutcome(bs, page, address, size) == Ok && View(t) == AfterUnmap(bs, address, size)
    requires TOP - 1 in View(t) ==> TopStart(t) == TopStart(bs)
    ensures SpaceOf(t) == After(SpaceOf(bs), page, Unmap(address, size))
  {
    LastAddress(t);
    ViewBounded(bs);
    var n := Grown(SpaceOf(bs), address, size);
    if address + size <= TOP {
      assert WithoutRange(View(bs), address, n) == Without(View(bs), address, address + n);
    }
  }

  lemma ProtectInSpace(bs: seq<Region>, t: seq<Region>, page: int, address: int, size: int, perms: int)
    requires InWord(address, size) && size > 0 && page > 0 && 0 <= perms
    requires ProtectOutcome(bs, page, address, size, perms) == Ok && View(t) == AfterProtect(bs, address, size, perms)
    requires TopStart(t) == TopStart(bs)
    ensures SpaceOf(t) == After(SpaceOf(bs), page, Protect(address, size, perms))
  {
    ViewBounded(bs);
    var n := Grown(SpaceOf(bs), address, size);
    if address + size <= TOP {
      assert RangePerms(View(bs), address, n, perms) == WithPerms(View(bs), address, address + n, perms);
    }
  }

  method Execute(e: Engine, c: Call) returns (reply: Reply)
    requires e.Valid() && Fits(c)
    modifies e
    ensures e.Valid()
    ensures reply == ReplyTo(SpaceOf(old(e.blocks)), e.pageSize, c)
    ensures SpaceOf(e.blocks) == After(SpaceOf(old(e.blocks)), e.pageSize, c)
  {
    ghost var table := e.blocks;
    match c {
      case Map(address, size, perms) =>
        var err := e.MemMap(address, size, perms);
        reply := Reply(err, []);
      case Unmap(address, size) =>
        var err := e.MemUnmap(address, size);
        reply := Reply(err, []);
        if err == Ok && size > 0 { UnmapInSpace(table, e.blocks, e.pageSize, address, size); }
      case Protect(address, size, perms) =>
        var err := e.MemProtect(address, size, perms);
        reply := Reply(err, []);
        if err == Ok && size > 0 { ProtectInSpace(table, e.blocks, e.pageSize, address, size, perms); }
      case Write(address, bytes) =>
        var err := e.MemWrite(address, bytes);
        reply := Reply(err, []);
      case Read(address, size) =>
        var err, bytes := e.MemRead(address, size);
        reply := Reply(err, bytes);
    }
  }

  /** Every session of any calls: same replies and same final memory as the interpreter. */
  method Run(e: Engine, calls: seq<Call>) returns (replies: seq<Reply>)
    requires e.Valid() && AllFit(calls)
    modifies e
    ensures e.Valid()
    ensures replies == RunReplies(SpaceOf(old(e.blocks)), e.pageSize, calls)
    ensures SpaceOf(e.blocks) == RunSpace(SpaceOf(old(e.blocks)), e.pageSize, calls)
  {
    replies := [];
    ghost var start := SpaceOf(e.blocks);
    assert calls[..0] == [];
    for n := 0 to |calls|
      invariant e.Valid() && AllFit(calls[..n])
      invariant replies == RunReplies(start, e.pageSize, calls[..n])
      invariant SpaceOf(e.blocks) == RunSpace(start, e.pageSize, calls[..n])
    {
      var reply := Execute(e, calls[n]);
      assert calls[..n + 1][..n] == calls[..n] && AllFit(calls[..n + 1]);
      replies := replies + [reply];
    }
    assert calls[..|calls|] == calls;
  }

  // ---- What the interpreter promises -----------------------------------------------

  predicate MapsBelowTop(calls: seq<Call>) {
    forall i :: 0 <= i < |calls| && calls[i].Map? ==> calls[i].address + calls[i].size != TOP
  }

  /** A session that maps nothing up to 2^64 never has a top block. */
  lemma {:induction false} TopStaysFree(s: Space, page: int, calls: seq<Call>)
    requires page > 0 && AllFit(calls) && MapsBelowTop(calls) && s.top == TOP && TOP - 1 !in s.mem
    ensures var t := RunSpace(s, page, calls); t.top == TOP && TOP - 1 !in t.mem
    decreases |calls|
  {
    if calls != [] {
      TopStaysFree(s, page, calls[..|calls| - 1]);
    }
  }

  /** After any such session an unmap and a protect of mapped pages succeed and change exactly
      the range. */
  lemma NoTop(s: Space, page: int, calls: seq<Call>, address: int, size: int, perms: int)
    requires page > 0 && AllFit(calls) && MapsBelowTop(calls) && s.top == TOP && TOP - 1 !in s.mem
    requires InWord(address, size) && size > 0 && Aligned(address, page) && Aligned(size, page)
    requires RangeMapped(RunSpace(s, page, calls).mem, address, size) && 0 <= perms <= PROT_ALL
    ensures var t := RunSpace(s, page, calls);
      && ReplyTo(t, page, Unmap(address, size)).err == Ok
      && After(t, page, Unmap(address, size)).mem == WithoutRange(t.mem, address, size)
      && ReplyTo(t, page, Protect(address, size, perms)).err == Ok
      && After(t, page, Protect(address, size, perms)).mem == RangePerms(t.mem, address, size, perms)
  {
    TopStaysFree(s, page, calls);
  }

  // What the replies and the changes of the interpreter are, in plain arithmetic.

  /** The `k`-th address of a range: it goes on at 0 behind 2^64. */
  function Nth(address: int, k: int): int { (address + k) % 0x1_0000_0000_0000_0000 }

  lemma RangeIsNth(address: int, size: int, a: int)
    requires InWord(address, size) && 0 <= a < TOP
    ensures forall k :: 0 <= k < size ==> Add64(address, k) == Nth(address, k)
    ensures InRange(address, size, a) <==> exists k :: 0 <= k < size && a == Nth(address, k)
  {
    if InRange(address, size, a) { assert a == Nth(address, Sub64(a, address)); }
  }

  lemma MapExactlyWhen(s: Space, page: int, address: int, size: int, perms: int)
    requires page > 0 && InWord(address, size) && perms >= 0
    ensures var err := ReplyTo(s, page, Map(address, size, perms)).err;
      var good := size > 0 && address + size <= 0x1_0000_0000_0000_0000
        && address % page == 0 && size % page == 0 && perms <= 7;
      && (err == Arg <==> !good)
      && (err == MapError <==> good && exists a :: address <= a < address + size && a in s.mem)
      && (err == Ok <==> good && forall a :: address <= a < address + size ==> a !in s.mem)
  {
    AlignedIsMod(address, page);
    AlignedIsMod(size, page);
  }

  /** Without a top block; `UnmapExactlyWhen` and `ProtectExactlyWhen` say what one changes. */
  lemma UnmapProtectExactlyWhen(s: Space, page: int, address: int, size: int, perms: int)
    requires page > 0 && InWord(address, size) && perms >= 0 && s.top == TOP
    ensures var err := ReplyTo(s, page, Unmap(address, size)).err;
      var prot := ReplyTo(s, page, Protect(address, size, perms)).err;
      var whole := address % page == 0 && size % page == 0;
      && (err == Arg <==> size > 0 && !whole)
      && (err == NoMem <==> size > 0 && whole && exists k :: 0 <= k < size && Nth(address, k) !in s.mem)
      && (err == Ok <==> size == 0 || (whole && forall k :: 0 <= k < size ==> Nth(address, k) in s.mem))
      && prot == if size > 0 && perms > 7 then Arg else err
  {
    AlignedIsMod(address, page);
    AlignedIsMod(size, page);
    RangeIsNth(address, size, 0);
    if size > 0 && !RangeMapped(s.mem, address, size) {
      var k :| 0 <= k < size && Add64(address, k) !in s.mem;
      assert Nth(address, k) !in s.mem;
    }
  }

  /** New pages read as zeros with the permissions asked for, and nothing else changes. */
  lemma MapThenRead(s: Space, page: int, address: int, size: int, perms: int, lo: int, n: int)
    requires page > 0 && InWord(address, size) && perms >= 0 && address <= lo && 0 <= n && lo + n <= address + size
    requires ReplyTo(s, page, Map(address, size, perms)).err == Ok && n < TOP && lo < TOP
    ensures var t := After(s, page, Map(address, size, perms));
      && ReplyTo(t, page, Read(lo, n)) == Reply(Ok, seq(n, k => 0))
      && (forall a :: address <= a < address + size ==> a in t.mem && t.mem[a].perms == perms)
      && (forall a :: !(address <= a < address + size) ==>
        (a in t.mem <==> a in s.mem) && (a in s.mem ==> t.mem[a] == s.mem[a]))
  {
    var t := After(s, page, Map(address, size, perms));
    assert forall k :: 0 <= k < n ==> Add64(lo, k) == lo + k;
    assert BytesOf(t.mem, lo, n) == seq(n, k => 0);
  }

  /** Unmapped pages are gone, and nothing else changes. */
  lemma UnmapRemoves(s: Space, page: int, address: int, size: int, a: int)
    requires page > 0 && InWord(address, size) && s.top == TOP && 0 <= a < TOP
    requires ReplyTo(s, page, Unmap(address, size)).err == Ok
    ensures var t := After(s, page, Unmap(address, size));
      && (a in t.mem <==> a in s.mem && forall k :: 0 <= k < size ==> a != Nth(address, k))
      && (a in t.mem ==> t.mem[a] == s.mem[a])
  {
    RangeIsNth(address, size, a);
  }

  /** Protected pages have the permissions asked for and their bytes, and nothing else changes. */
  lemma ProtectSets(s: Space, page: int, address: int, size: int, perms: int, a: int)
    requires page > 0 && InWord(address, size) && perms >= 0 && s.top == TOP && 0 <= a < TOP && a in s.mem
    requires ReplyTo(s, page, Protect(address, size, perms)).err == Ok
    ensures var t := After(s, page, Protect(address, size, perms));
      && a in t.mem && t.mem[a].byte == s.mem[a].byte
      && t.mem[a].perms == if exists k :: 0 <= k < size && a == Nth(address, k) then perms else s.mem[a].perms
  {
    RangeIsNth(address, size, a);
  }

  /** Writing and reading back, over any number of adjacent blocks and around 2^64. */
  lemma WriteThenRead(s: Space, page: int, address: int, bytes: seq<Byte>)
    requires page > 0 && InWord(address, |bytes|) && RangeMapped(s.mem, address, |bytes|)
    ensures var t := After(s, page, Write(address, bytes));
      && ReplyTo(t, page, Read(address, |bytes|)) == Reply(Ok, bytes)
      && t.mem.Keys == s.mem.Keys && t.top == s.top
      && (forall a :: a in s.mem ==> t.mem[a].perms == s.mem[a].perms)
      && (forall a :: a in s.mem && !InRange(address, |bytes|, a) ==> t.mem[a] == s.mem[a])
  {
    var n := WithBytes(s.mem, address, bytes);
    forall k | 0 <= k < |bytes| ensures Add64(address, k) in n && n[Add64(address, k)].byte == bytes[k] {
      assert Sub64(Add64(address, k), address) == k;
    }
    assert BytesOf(n, address, |bytes|) == bytes;
  }

  /** Reads give the same before and after a protect. */
  lemma ProtectKeepsBytes(s: Space, page: int, address: int, size: int, perms: int, lo: int, n: int)
    requires page > 0 && InWord(address, size) && InWord(lo, n) && 0 <= perms <= PROT_ALL
    ensures ReplyTo(After(s, page, Protect(address, size, perms)), page, Read(lo, n)) == ReplyTo(s, page, Read(lo, n))
  {
    var t := After(s, page, Protect(address, size, perms));
    assert t.mem.Keys == s.mem.Keys && forall a :: a in s.mem ==> t.mem[a].byte == s.mem[a].byte;
    if RangeMapped(s.mem, lo, n) {
      assert BytesOf(t.mem, lo, n) == BytesOf(s.mem, lo, n);
    }
  }

  /** Of two protects of the same range the last one decides. */
  lemma LastProtectDecides(s: Space, page: int, address: int, size: int, p: int, q: int)
    requires page > 0 && InWord(address, size) && 0 <= p <= PROT_ALL && 0 <= q <= PROT_ALL
    ensures var once := After(s, page, Protect(address, size, p));
      After(once, page, Protect(address, size, q)) == After(s, page, Protect(address, size, q))
  {
    if ReplyTo(s, page, Protect(address, size, p)).err == Ok && size > 0 {
      var n := Grown(s, address, size);
      assert RangePerms(RangePerms(s.mem, address, n, p), address, n, q) == RangePerms(s.mem, address, n, q);
    }
  }

  // ---- The top of the address space ---------------------------------------------------

  /** The range starts inside the block that ends at 2^64, or ends inside it. */
  ghost predicate CutsRange(bs: seq<Region>, address: int, size: int) {
    TopStart(bs) < address || TopStart(bs) < address + size < TOP
  }

  /** An unmap of mapped pages removes exactly the range if and only if it does not cut the
      block that ends at 2^64. */
  lemma UnmapExactlyWhen(bs: seq<Region>, page: int, address: int, size: int)
    requires Requested(bs, Request(page, address, size))
    ensures (&& UnmapOutcome(bs, page, address, size) == Ok
             && AfterUnmap(bs, address, size) == WithoutRange(View(bs), address, size))
            <==> !CutsRange(bs, address, size)
  {
    var m, hi := View(bs), address + size;
    ViewBounded(bs);
    if hi <= TOP {
      assert WithoutRange(m, address, size) == Without(m, address, hi);
      if TopStart(bs) < hi < TOP && TopStart(bs) >= address {
        TopBlockMapped(bs);
        assert hi in Without(m, address, hi) && hi !in Without(m, address, TOP);
      }
    }
  }

  lemma TopBlockMapped(bs: seq<Region>)
    requires Shape(bs)
    ensures forall a :: TopStart(bs) <= a < TOP ==>
      a in View(bs) && View(bs)[a].perms == View(bs)[TOP - 1].perms
  {
    var i := Owner(bs, TOP - 1);
    if i >= 0 {
      assert bs[i].Shaped();
      BlockCells(bs, i);
    }
  }

  /** A protect changes exactly the range if and only if it does not cut the top block, or it
      ends inside it and the top block already has the permissions asked for. */
  lemma ProtectExactlyWhen(bs: seq<Region>, page: int, address: int, size: int, perms: int)
    requires Requested(bs, Request(page, address, size)) && 0 <= perms <= PROT_ALL
    ensures (&& ProtectOutcome(bs, page, address, size, perms) == Ok
             && AfterProtect(bs, address, size, perms) == RangePerms(View(bs), address, size, perms))
            <==> !CutsRange(bs, address, size)
                 || (address <= TopStart(bs) && View(bs)[TOP - 1].perms == perms)
  {
    var m, hi := View(bs), address + size;
    ViewBounded(bs);
    if hi <= TOP {
      assert RangePerms(m, address, size, perms) == WithPerms(m, address, hi, perms);
      if TopStart(bs) < hi < TOP && address <= TopStart(bs) {
        TopBlockMapped(bs);
        if m[TOP - 1].perms == perms {
          assert WithPerms(m, address, TOP, perms) == WithPerms(m, address, hi, perms);
        } else {
          assert WithPerms(m, address, TOP, perms)[hi].perms == perms;
          assert WithPerms(m, address, hi, perms)[hi].perms == m[hi].perms;
        }
      }
    }
  }

  /** Two pages mapped at the very top. */
  ghost function TopPages(): seq<Region> { [Fresh(TOP - 0x2000, 0x2000, PROT_ALL)] }

  lemma TopPagesAre()
    ensures MemoryTable.Valid(TopPages(), 0x1000) && TopStart(TopPages()) == TOP - 0x2000
    ensures forall a :: a in View(TopPages()) <==> TOP - 0x2000 <= a < TOP
    ensures forall a :: a in View(TopPages()) ==> View(TopPages())[a].perms == PROT_ALL
    ensures Aligned(TOP - 0x2000, 0x1000) && Aligned(0x1000, 0x1000)
  {
    var bs := TopPages();
    var r := bs[0];
    AlignedIsMod(TOP - 0x2000, 0x1000);
    AlignedIsMod(0x2000, 0x1000);
    AlignedIsMod(0x1000, 0x1000);
    assert r.Shaped() && r.Kept(0x1000);
    BlockCells(bs, 0);
    TopStartIs(bs, 0);
    forall a | a in View(bs) ensures TOP - 0x2000 <= a < TOP { assert Owner(bs, a) == 0; }
    forall a | TOP - 0x2000 <= a < TOP ensures a in View(bs) { assert r.Covers(a); }
  }

  /** Unmapping the first of them takes both. */
  lemma TopCounterexample()
    ensures MemoryTable.Valid(TopPages(), 0x1000) && TOP - 0x1000 in View(TopPages())
    ensures UnmapOutcome(TopPages(), 0x1000, TOP - 0x2000, 0x1000) == Ok
    ensures AfterUnmap(TopPages(), TOP - 0x2000, 0x1000) == map[]
  {
    TopPagesAre();
    RangeIsStretches(View(TopPages()), TOP - 0x2000, 0x1000);
  }

  /** Taking write and execute permission from the first of them takes it from both. */
  lemma TopProtectCounterexample()
    ensures MemoryTable.Valid(TopPages(), 0x1000) && TOP - 0x1000 in View(TopPages())
    ensures ProtectOutcome(TopPages(), 0x1000, TOP - 0x2000, 0x1000, 1) == Ok
    ensures var m := AfterProtect(TopPages(), TOP - 0x2000, 0x1000, 1);
      TOP - 0x1000 in m && m[TOP - 0x1000].perms == 1 && View(TopPages())[TOP - 0x1000].perms == PROT_ALL
  {
    TopPagesAre();
    RangeIsStretches(View(TopPages()), TOP - 0x2000, 0x1000);
  }
}
