/**
  The memory interface of the Unicorn engine: map, unmap, protect, read and write over a
  table of blocks with a cached lookup, and `SplitRegion`, which recurses with `MemUnmap`.

  Every call is specified as a change of `Mem()`, the partial map from addresses to
  (byte, permissions) cells that the block table denotes.
 */
module MemoryEngine {
  import opened Common
  import opened MemoryTable

  datatype UcErr = Ok | NoMem | Arg | MapError | ReadUnmapped | WriteUnmapped

  const MEM_BLOCK_INCR: int := 32

  class Engine {
    const pageSize: int
    const pageAlign: nat
    var blocks: seq<Region>
    var capacity: int
    var cacheIndex: nat
    var quitRequest: bool

    ghost predicate Valid()
      reads this
    {
      && MemoryTable.Valid(blocks, pageSize) && Masks(pageAlign, pageSize)
      && RoundUp(|blocks|) <= capacity
    }

    ghost function Mem(): Memory
      reads this
    {
      View(blocks)
    }

    constructor (page: int)
      requires PowerOfTwo(page)
      ensures Valid() && Mem() == map[] && pageSize == page && !quitRequest
      ensures |blocks| == 0
    {
      forall x: nat ensures And(x, page - 1) == x % page { MaskIsRemainder(x, page); }
      pageSize, pageAlign := page, page - 1;
      blocks, capacity, cacheIndex, quitRequest := [], 0, 0, false;
      ViewIs([], map[]);
    }

    /** The two mask tests that open every call on a range of pages. */
    method CheckAligned(address: int, size: int) returns (aligned: bool)
      requires InWord(address, size) && pageSize > 0 && Masks(pageAlign, pageSize)
      ensures aligned <==> Aligned(address, pageSize) && Aligned(size, pageSize)
    {
      AlignedIsMod(address, pageSize);
      AlignedIsMod(size, pageSize);
      aligned := And(address, pageAlign) == 0 && And(size, pageAlign) == 0;
    }

    // ---- Lookup ---------------------------------------------------------------

    /** The cached lookup agrees with the plain scan whatever the cache index holds. */
    method MemoryMapping(address: int) returns (i: int)
      requires Valid() && 0 <= address < TOP
      modifies this`cacheIndex
      ensures i == Scan(blocks, address) == Owner(blocks, address)
      ensures i >= 0 <==> address in Mem()
    {
      ScanFindsOwner(blocks, address);
      if |blocks| == 0 {
        return -1;
      }
      i := cacheIndex;
      if i < |blocks| && address >= blocks[i].addr && address < blocks[i].End() {
        EndWraps(blocks[i]);
        CoveringBlockIsUnique(blocks, i, address);
        return;
      }
      i := 0;
      while i < |blocks|
        invariant 0 <= i <= |blocks|
        invariant forall j :: 0 <= j < i ==> !blocks[j].Covers(address)
      {
        EndWraps(blocks[i]);
        if address >= blocks[i].addr && address <= Sub64(blocks[i].End(), 1) {
          cacheIndex := i;
          CoveringBlockIsUnique(blocks, i, address);
          return;
        }
        i := i + 1;
      }
      i := -1;
    }

    /** True exactly when every address of the range is mapped. */
    method CheckMemArea(address: int, size: int) returns (ok: bool)
      requires Valid() && InWord(address, size)
      modifies this`cacheIndex
      ensures ok <==> RangeMapped(Mem(), address, size)
    {
      var count, a := 0, address;
      while count < size
        invariant 0 <= count <= size && a == Add64(address, count)
        invariant RangeMapped(Mem(), address, count)
      {
        var i := MemoryMapping(a);
        if i < 0 {
          return false;
        }
        EndWraps(blocks[i]);
        BlockCells(blocks, i);
        var len := Min(size - count, Sub64(blocks[i].End(), a));
        StretchMapped(Mem(), address, count, len);
        count := count + len;
        a := Add64(a, len);
      }
      return count == size;
    }

    // ---- Reading and writing ----------------------------------------------------

    method MemRead(address: int, size: int) returns (err: UcErr, bytes: seq<Byte>)
      requires Valid() && InWord(address, size)
      modifies this`cacheIndex
      ensures err == (if RangeMapped(Mem(), address, size) then Ok else ReadUnmapped)
      ensures err == Ok ==> bytes == BytesOf(Mem(), address, size)
      ensures err != Ok ==> bytes == []
    {
      bytes := [];
      var mapped := CheckMemArea(address, size);
      if !mapped {
        return ReadUnmapped, [];
      }
      var count, a := 0, address;
      while count < size
        invariant count <= size && HasRead(Mem(), address, count, bytes) && a == Add64(address, count)
      {
        var chunk := ReadChunk(address, size, count, a, bytes);
        bytes := bytes + chunk;
        count := count + |chunk|;
        a := Add64(a, |chunk|);
      }
      err := Ok;
    }

    /** One round of the read loop: the bytes of the block at `a`. */
    method ReadChunk(address: int, size: int, count: int, a: int, ghost bytes: seq<Byte>) returns (chunk: seq<Byte>)
      requires Valid() && InWord(address, size) && 0 <= count < size && a == Add64(address, count) && a in Mem()
      requires HasRead(Mem(), address, count, bytes)
      modifies this`cacheIndex
      ensures 0 < |chunk| <= size - count && HasRead(Mem(), address, count + |chunk|, bytes + chunk)
      ensures Add64(a, |chunk|) == Add64(address, count + |chunk|)
    {
      var i := MemoryMapping(a);
      EndWraps(blocks[i]);
      var len := Min(size - count, Sub64(blocks[i].End(), a));
      var off := a - blocks[i].addr;
      ReadNext(blocks, i, address, count, len, bytes);
      chunk := blocks[i].data[off..off + len];
    }

    /** Writes through write protection and puts every protection back. */
    method MemWrite(address: int, bytes: seq<Byte>) returns (err: UcErr)
      requires Valid() && InWord(address, |bytes|)
      modifies this`blocks, this`cacheIndex
      ensures Valid() && TopStart(blocks) == old(TopStart(blocks))
      ensures err == (if RangeMapped(old(Mem()), address, |bytes|) then Ok else WriteUnmapped)
      ensures err == Ok ==> Mem() == WithBytes(old(Mem()), address, bytes)
      ensures err == Ok && InSpace(address, |bytes|) ==> Poked(old(blocks), blocks, address, bytes, 0, |bytes|)
      ensures err != Ok ==> blocks == old(blocks)
    {
      var size := |bytes|;
      var mapped := CheckMemArea(address, size);
      if !mapped {
        return WriteUnmapped;
      }
      var count, a := 0, address;
      ghost var mid := blocks;
      while count < size
        invariant 0 <= count <= size && a == Add64(address, count)
        invariant Valid() && Mem().Keys == old(Mem()).Keys && TopStart(blocks) == old(TopStart(blocks))
        invariant Writing(old(blocks), mid, blocks, address, bytes, count)
      {
        ghost var table := blocks;
        var len := WriteChunk(address, bytes, count, a);
        mid := WritingNext(old(blocks), mid, table, blocks, address, bytes, count, len);
        count := count + len;
        a := Add64(a, len);
      }
      WritingEnds(old(blocks), mid, blocks, address, bytes);
      err := Ok;
    }

    /** One round of the write loop: fills the block at `a`, lifting its protection for the
        write and putting it back. */
    method WriteChunk(address: int, bytes: seq<Byte>, count: int, a: int) returns (len: int)
      requires Valid() && InWord(address, |bytes|)
      requires 0 <= count < |bytes| && a == Add64(address, count) && a in Mem()
      modifies this`blocks, this`cacheIndex
      ensures Valid() && 0 < len <= |bytes| - count && a + len <= TOP
      ensures Poked(old(blocks), blocks, a - count, bytes, count, count + len)
      ensures Mem().Keys == old(Mem()).Keys && TopStart(blocks) == old(TopStart(blocks))
    {
      var n := MemoryMapping(a);
      EndWraps(blocks[n]);
      len := Min(|bytes| - count, Sub64(blocks[n].End(), a));
      WriteBlock(n, a - count, bytes, count, count + len);
    }

    method WriteBlock(n: int, lo: int, bytes: seq<Byte>, i: int, j: int)
      requires Valid() && 0 <= n < |blocks| && 0 <= i <= j <= |bytes|
      requires blocks[n].addr <= lo + i && lo + j <= blocks[n].Limit()
      modifies this`blocks
      ensures Valid()
      ensures Poked(old(blocks), blocks, lo, bytes, i, j)
      ensures Mem().Keys == old(Mem()).Keys && TopStart(blocks) == old(TopStart(blocks))
    {
      assert blocks[n].Shaped() && blocks[n].Kept(pageSize);
      var mr := CopyThrough(blocks[n], lo, bytes, i, j);
      PokedAt(blocks, pageSize, n, mr, lo, bytes, i, j);
      blocks := blocks[n := mr];
    }

    // ---- Mapping ------------------------------------------------------------------

    method MemoryOverlap(begin: int, size: int) returns (hit: bool)
      requires Valid() && InSpace(begin, size) && size > 0
      ensures hit <==> !Unmapped(Mem(), begin, begin + size)
    {
      var last := Add64(begin, size - 1);
      var i := 0;
      while i < |blocks|
        invariant 0 <= i <= |blocks|
        invariant forall j, a :: 0 <= j < i && begin <= a < begin + size ==> !blocks[j].Covers(a)
      {
        OverlapIsIntersection(blocks[i], begin, size);
        if OverlapCases(blocks[i], begin, last) {
          BlockCells(blocks, i);
          return true;
        }
        i := i + 1;
      }
      forall a | begin <= a < begin + size
        ensures a !in Mem()
      {
        assert Owner(blocks, a) < 0;
      }
      return false;
    }

    /** A successful map adds exactly the zero-filled range; a failed one changes nothing. */
    method MemMap(address: int, size: int, perms: int) returns (err: UcErr)
      requires Valid() && 0 <= address < TOP && 0 <= size < TOP && perms >= 0
      modifies this`blocks, this`capacity
      ensures Valid()
      ensures err == MapOutcome(old(Mem()), pageSize, address, size, perms)
      ensures err == Ok ==> blocks == old(blocks) + [Fresh(address, size, perms)]
      ensures err == Ok ==> Mem() == WithBlock(old(Mem()), Fresh(address, size, perms))
      ensures err == Ok ==> TopStart(blocks) == if address + size == TOP then address else old(TopStart(blocks))
      ensures err != Ok ==> blocks == old(blocks)
    {
      if size == 0 {
        return Arg;
      }
      if Add64(address, size - 1) < address {
        return Arg;
      }
      var aligned := CheckAligned(address, size);
      if !aligned {
        return Arg;
      }
      if perms > PROT_ALL {
        return Arg;
      }
      var hit := MemoryOverlap(address, size);
      if hit {
        return MapError;
      }
      TableHasRoom(|blocks|, capacity);
      if |blocks| % MEM_BLOCK_INCR == 0 {
        capacity := |blocks| + MEM_BLOCK_INCR;
      }
      // the new entry is stored inside the allocated table
      assert |blocks| < capacity;
      FreshMapped(blocks, pageSize, address, size, perms);
      blocks := blocks + [Fresh(address, size, perms)];
      err := Ok;
    }

    /** Contract of the emulator's own unmap: drops one entry of the table. */
    method MemoryUnmap(i: int)
      requires Valid() && 0 <= i < |blocks|
      modifies this`blocks
      ensures Valid()
      ensures blocks == RemoveAt(old(blocks), i)
    {
      RemoveAtView(blocks, i);
      TableHasRoom(|blocks|, capacity);
      forall k | 0 <= k < |RemoveAt(blocks, i)|
        ensures RemoveAt(blocks, i)[k].Kept(pageSize)
      {
        assert RemoveAt(blocks, i)[k] == blocks[if k < i then k else k + 1];
      }
      blocks := RemoveAt(blocks, i);
    }

    // ---- Splitting, unmapping and protecting ------------------------------------------

    /** Cuts block `i` at the ends of [address, address + size).  Fails, or does nothing, when
        the block reaches the top of the address space and its recorded end is 0. */
    method SplitRegion(i: int, address: int, size: int, doDelete: bool) returns (ok: bool)
      requires Valid() && 0 <= i < |blocks|
      requires 0 < size && blocks[i].Covers(address) && address + size <= blocks[i].Limit()
      requires Aligned(address, pageSize) && Aligned(size, pageSize)
      modifies this`blocks, this`capacity, this`cacheIndex
      ensures Valid()
      ensures old(blocks[i]).Limit() < TOP ==> ok && SplitDone(old(blocks), blocks, address, address + size,
        doDelete && !IsBlock(old(blocks), address, size))
      ensures IsBlock(old(blocks), address, size) ==> blocks == old(blocks)
      ensures old(blocks[i]).Limit() == TOP ==> blocks == old(blocks) && (ok <==> address == old(blocks[i]).addr)
      decreases if address == blocks[i].addr && address + size == blocks[i].Limit() then 0 else 2, 0
    {
      var mr := blocks[i];
      assert mr.Shaped() && mr.Kept(pageSize);
      EndWraps(mr);
      CoveringBlockIsUnique(blocks, i, address);
      AlignedSum(pageSize, address, size);
      var chunkEnd := Add64(address, size);
      if address <= mr.addr && chunkEnd >= mr.End() {
        return true;
      }
      if address >= mr.End() || chunkEnd <= mr.addr {
        return false;
      }
      ghost var table := blocks;
      var backup := CopyRegion(i);
      CoveringBlockIsUnique(blocks, i, mr.addr);
      var err := MemUnmap(mr.addr, mr.size);
      if err != Ok {
        return false;
      }
      Rebuild(table, i, mr, backup, address, chunkEnd, doDelete);
      return true;
    }

    method CopyRegion(i: int) returns (backup: seq<Byte>)
      requires Valid() && 0 <= i < |blocks|
      modifies this`cacheIndex
      ensures backup == blocks[i].data
    {
      var mr := blocks[i];
      assert mr.Shaped();
      BlockCells(blocks, i);
      var err;
      err, backup := MemRead(mr.addr, mr.size);
      forall k | 0 <= k < mr.size ensures backup[k] == mr.data[k] {
        assert Add64(mr.addr, k) == mr.addr + k && Mem()[mr.addr + k] == mr.CellAt(mr.addr + k);
      }
    }

    /** Maps the pieces of `mr` again after it has been unmapped. */
    method Rebuild(ghost table: seq<Region>, ghost i: int, mr: Region, backup: seq<Byte>,
                   address: int, chunkEnd: int, doDelete: bool)
      requires Valid() && MemoryTable.Valid(table, pageSize)
      requires 0 <= i < |table| && mr == table[i] && mr.Shaped() && backup == mr.data
      requires blocks == RemoveAt(table, i)
      requires mr.addr <= address < chunkEnd <= mr.Limit() < TOP
      requires Aligned(address, pageSize) && Aligned(chunkEnd, pageSize)
      modifies this`blocks, this`capacity, this`cacheIndex
      ensures Valid()
      ensures SplitDone(table, blocks, address, chunkEnd, doDelete)
    {
      assert mr.Kept(pageSize);
      RemoveAtView(table, i);
      AlignedSum(pageSize, mr.addr, mr.size);
      RestorePiece(mr, backup, mr.addr, address);
      RestoreMiddle(table, i, mr, backup, address, chunkEnd, doDelete);
      MiddleHole(table, i, address, chunkEnd, doDelete);
      RestorePiece(mr, backup, chunkEnd, mr.Limit());
      assert blocks == SplitTable(table, i, address, chunkEnd, doDelete);
      SplitTableDone(table, i, address, chunkEnd, doDelete);
    }

    /** The middle piece, unless the split serves an unmap. */
    method RestoreMiddle(ghost table: seq<Region>, ghost i: int, mr: Region, backup: seq<Byte>,
                         address: int, chunkEnd: int, doDelete: bool)
      requires Valid() && Shape(table) && 0 <= i < |table| && mr == table[i] && backup == mr.data
      requires mr.Shaped() && mr.Kept(pageSize) && mr.addr <= address < chunkEnd <= mr.Limit()
      requires Aligned(address, pageSize) && Aligned(chunkEnd, pageSize)
      requires blocks == RemoveAt(table, i) + Piece(mr, mr.addr, address)
      modifies this`blocks, this`capacity, this`cacheIndex
      ensures Valid() && blocks == if doDelete then old(blocks) else old(blocks) + Piece(mr, address, chunkEnd)
    {
      CutAbove(table, i, address);
      if !doDelete {
        RestorePiece(mr, backup, address, chunkEnd);
      }
    }

    method RestorePiece(mr: Region, backup: seq<Byte>, lo: int, hi: int)
      requires Valid() && mr.Shaped() && mr.Kept(pageSize) && backup == mr.data
      requires mr.addr <= lo <= hi <= mr.Limit() && Aligned(lo, pageSize) && Aligned(hi, pageSize)
      requires Unmapped(Mem(), lo, hi)
      modifies this`blocks, this`capacity, this`cacheIndex
      ensures Valid()
      ensures blocks == old(blocks) + Piece(mr, lo, hi)
    {
      PieceIs(mr, lo, hi);
      if hi > lo {
        AlignedSum(pageSize, hi, lo);
        Restore(lo, backup[lo - mr.addr..hi - mr.addr], mr.perms);
      } else {
        assert blocks + [] == blocks;
      }
    }

    /** Maps a range again and copies saved bytes back: one block is appended. */
    method Restore(address: int, bytes: seq<Byte>, perms: int)
      requires Valid() && InSpace(address, |bytes|) && 0 < |bytes| < TOP
      requires Aligned(address, pageSize) && Aligned(|bytes|, pageSize) && 0 <= perms <= PROT_ALL
      requires Unmapped(Mem(), address, address + |bytes|)
      modifies this`blocks, this`capacity, this`cacheIndex
      ensures Valid()
      ensures blocks == old(blocks) + [Region(address, |bytes|, perms, !CanWrite(perms), bytes)]
    {
      var err := MemMap(address, |bytes|, perms);
      RangeIsStretches(Mem(), address, |bytes|);
      ghost var table, added := blocks, Fresh(address, |bytes|, perms);
      err := MemWrite(address, bytes);
      PokedLast(old(blocks), added, blocks, address, bytes);
    }

    method MemUnmap(address: int, size: int) returns (err: UcErr)
      requires Valid() && InWord(address, size)
      modifies this`blocks, this`capacity, this`cacheIndex
      ensures Valid()
      ensures err == UnmapOutcome(old(blocks), pageSize, address, size)
      ensures err == Ok && size > 0 ==> Mem() == AfterUnmap(old(blocks), address, size)
      ensures TOP - 1 in Mem() ==> TopStart(blocks) == old(TopStart(blocks))
      ensures err != Ok || size == 0 ==> blocks == old(blocks)
      ensures IsBlock(old(blocks), address, size) ==> err == Ok && blocks == Dropped(old(blocks), address)
      decreases if IsBlock(blocks, address, size) then 1 else 3, 1
    {
      if IsBlock(blocks, address, size) { BlockFacts(blocks, pageSize, address, size); }
      if size == 0 {
        return Ok;
      }
      var aligned := CheckAligned(address, size);
      if !aligned {
        return Arg;
      }
      var mapped := CheckMemArea(address, size);
      if !mapped {
        return NoMem;
      }
      err := UnmapRange(address, size);
    }

    /** The loop of an unmap, once the range is known to be mapped. */
    method UnmapRange(address: int, size: int) returns (err: UcErr)
      requires Valid() && InWord(address, size) && size > 0
      requires Aligned(address, pageSize) && Aligned(size, pageSize)
      requires RangeMapped(Mem(), address, size)
      modifies this`blocks, this`capacity, this`cacheIndex
      ensures Valid()
      ensures err == (if Blocked(old(blocks), address) then NoMem else Ok)
      ensures err == Ok ==> Mem() == AfterUnmap(old(blocks), address, size)
      ensures err == Ok && TOP - 1 in Mem() ==> TopStart(blocks) == old(TopStart(blocks))
      ensures err != Ok ==> blocks == old(blocks)
      ensures IsBlock(old(blocks), address, size) ==> err == Ok && blocks == Dropped(old(blocks), address)
      decreases if IsBlock(blocks, address, size) then 1 else 3, 0
    {
      var count, a := 0, address;
      var q := Request(pageSize, address, size);
      ghost var s := UnmapStarts(blocks, q);
      if IsBlock(blocks, address, size) { BlockFacts(blocks, pageSize, address, size); }
      while count < size
        invariant Valid() && 0 <= count <= size
        invariant Unmapping(old(blocks), blocks, q, s, count, a)
      {
        var ok;
        UnmappingRest(old(blocks), blocks, q, s, count, a);
        ok, count, a, s := UnmapRound(old(blocks), q, s, count, a);
        if !ok {
          return NoMem;
        }
      }
      UnmappingEnds(old(blocks), blocks, q, s, a);
      return Ok;
    }

    /** One round, in terms of the whole range. */
    method UnmapRound(ghost bs: seq<Region>, q: Request, ghost s: Stretch, count: int, a: int)
        returns (ok: bool, n: int, b: int, ghost next: Stretch)
      requires Valid() && q.page == pageSize && Requested(bs, q) && 0 <= count < q.size
      requires Unmapping(bs, blocks, q, s, count, a)
      modifies this`blocks, this`capacity, this`cacheIndex
      ensures Valid()
      ensures !ok ==> blocks == bs && Blocked(bs, q.address)
      ensures ok ==> count < n <= q.size && Unmapping(bs, blocks, q, next, n, b)
      decreases if IsBlock(blocks, a, Head(a, q.size - count)) then 0 else 2, 2
    {
      UnmappingRest(bs, blocks, q, s, count, a);
      ghost var table := blocks;
      var len;
      ok, len := UnmapStep(a, q.size - count);
      n, b, next := count + len, Add64(a, len), s;
      if ok {
        next := UnmappingNext(bs, table, blocks, q, s, count, a, len, n, b);
      }
    }

    /** One round of the unmap loop. */
    method UnmapStep(a: int, rest: int) returns (ok: bool, len: int)
      requires Valid() && InWord(a, rest) && rest > 0 && a in Mem()
      requires Aligned(a, pageSize) && Aligned(rest, pageSize)
      modifies this`blocks, this`capacity, this`cacheIndex
      ensures Valid()
      ensures StepDone(old(blocks), blocks, pageSize, a, Head(a, rest), ok, len)
      decreases if IsBlock(blocks, a, Head(a, rest)) then 0 else 2, 1
    {
      var i := MemoryMapping(a);
      var mr := blocks[i];
      assert mr.Shaped() && mr.Kept(pageSize);
      EndWraps(mr);
      len := Min(rest, Sub64(mr.End(), a));
      ChunkAligned(blocks, pageSize, i, a, rest);
      ghost var table, n := blocks, i;
      TopCovers(blocks, i, a);
      ok := SplitRegion(i, a, len, true);
      if ok {
        SplitThenDrop(table, blocks, pageSize, n, a, Head(a, rest), len);
        DropBlock(a);
      }
    }

    /** Unmaps the block still found at `a`: none is when the split already dropped it. */
    method DropBlock(a: int)
      requires Valid() && 0 <= a < TOP
      modifies this`blocks, this`cacheIndex
      ensures Valid()
      ensures blocks == Dropped(old(blocks), a)
    {
      var i := MemoryMapping(a);
      if i >= 0 {
        MemoryUnmap(i);
      }
    }

    // ---- Protecting ---------------------------------------------------------------

    method MemProtect(address: int, size: int, perms: int) returns (err: UcErr)
      requires Valid() && InWord(address, size) && perms >= 0
      modifies this`blocks, this`capacity, this`cacheIndex, this`quitRequest
      ensures Valid() && TopStart(blocks) == old(TopStart(blocks))
      ensures err == ProtectOutcome(old(blocks), pageSize, address, size, perms)
      ensures err == Ok && size > 0 ==> Mem() == AfterProtect(old(blocks), address, size, perms)
      ensures err != Ok || size == 0 ==> blocks == old(blocks)
      ensures quitRequest == (old(quitRequest) || (err == Ok && LosesBit(old(Mem()), address, size, perms)))
    {
      if size == 0 {
        return Ok;
      }
      var aligned := CheckAligned(address, size);
      if !aligned {
        return Arg;
      }
      if perms > PROT_ALL {
        return Arg;
      }
      var mapped := CheckMemArea(address, size);
      if !mapped {
        return NoMem;
      }
      LosesBitIs(blocks, pageSize, address, size, perms);
      var removeExec;
      err, removeExec := ProtectRange(address, size, perms);
      if removeExec {
        quitRequest := true;
      }
    }

    /** The loop of a protect, once the range is known to be mapped. */
    method ProtectRange(address: int, size: int, perms: int) returns (err: UcErr, removeExec: bool)
      requires Valid() && InWord(address, size) && size > 0 && 0 <= perms <= PROT_ALL
      requires Aligned(address, pageSize) && Aligned(size, pageSize)
      requires RangeMapped(Mem(), address, size)
      modifies this`blocks, this`capacity, this`cacheIndex
      ensures Valid() && TopStart(blocks) == old(TopStart(blocks))
      ensures err == (if Blocked(old(blocks), address) then NoMem else Ok)
      ensures err == Ok ==> Mem() == AfterProtect(old(blocks), address, size, perms)
      ensures err == Ok ==> removeExec == LosesExec(old(Mem()), address, size, perms)
      ensures err != Ok ==> blocks == old(blocks) && !removeExec
    {
      removeExec := false;
      var count, a := 0, address;
      var q := Request(pageSize, address, size);
      ghost var s := ProtectStarts(blocks, q, perms);
      while count < size
        invariant Valid() && 0 <= count <= size
        invariant ProtectingSoFar(old(blocks), blocks, q, perms, s, Progress(count, a, removeExec))
      {
        var ok;
        ok, count, a, removeExec, s := ProtectRound(old(blocks), q, perms, s, count, a, removeExec);
        if !ok {
          return NoMem, false;
        }
      }
      ProtectingEnds(old(blocks), blocks, q, perms, s, Progress(count, a, removeExec));
      err := Ok;
    }

    method ProtectRound(ghost bs: seq<Region>, q: Request, perms: int, ghost s: Stretch, count: int, a: int,
                        lostBefore: bool)
        returns (ok: bool, n: int, b: int, lost: bool, ghost next: Stretch)
      requires Valid() && q.page == pageSize && Requested(bs, q) && 0 <= count < q.size && 0 <= perms <= PROT_ALL
      requires ProtectingSoFar(bs, blocks, q, perms, s, Progress(count, a, lostBefore))
      modifies this`blocks, this`capacity, this`cacheIndex
      ensures Valid()
      ensures !ok ==> blocks == bs && Blocked(bs, q.address)
      ensures ok ==> count < n <= q.size && ProtectingSoFar(bs, blocks, q, perms, next, Progress(n, b, lost))
    {
      ProtectingRest(bs, blocks, q, perms, s, count, a);
      ghost var table := blocks;
      var len, now;
      ok, len, now := ProtectStep(a, q.size - count, perms);
      n, b, lost, next := count + len, Add64(a, len), lostBefore || now, s;
      if ok {
        next := ProtectRoundDone(bs, table, blocks, q, perms, s, Progress(count, a, lostBefore), len, now,
                                 Progress(n, b, lost));
      }
    }

    /** One round of the protect loop. */
    method ProtectStep(a: int, rest: int, perms: int) returns (ok: bool, len: int, lost: bool)
      requires Valid() && InWord(a, rest) && rest > 0 && a in Mem() && 0 <= perms <= PROT_ALL
      requires Aligned(a, pageSize) && Aligned(rest, pageSize)
      modifies this`blocks, this`capacity, this`cacheIndex
      ensures Valid()
      ensures ProtectStepDone(old(blocks), blocks, pageSize, a, Head(a, rest), perms, ok, len)
      ensures ok ==> lost == Loses(old(Mem()), a, a + len, perms)
    {
      lost := false;
      var i := MemoryMapping(a);
      var mr := blocks[i];
      assert mr.Shaped() && mr.Kept(pageSize);
      EndWraps(mr);
      len := Min(rest, Sub64(mr.End(), a));
      ChunkAligned(blocks, pageSize, i, a, rest);
      ghost var table, n := blocks, i;
      TopCovers(blocks, i, a);
      ok := SplitRegion(i, a, len, false);
      if ok {
        ghost var middle := blocks;
        LosesBlock(table, n, a, len, perms);
        assert View(middle)[a] == View(table)[a];
        lost := SetBlockPerms(a, perms);
        SplitThenProtect(table, middle, blocks, pageSize, n, a, Head(a, rest), len, perms);
      }
    }

    /** Changes the permissions of the block found at `a`. */
    method SetBlockPerms(a: int, perms: int) returns (lost: bool)
      requires Valid() && 0 <= a < TOP && a in Mem() && 0 <= perms <= PROT_ALL
      modifies this`blocks, this`cacheIndex
      ensures Valid() && TopStart(blocks) == TopStart(old(blocks))
      ensures var r := old(blocks)[Owner(old(blocks), a)];
              Mem() == WithPerms(old(Mem()), r.addr, r.Limit(), perms)
      ensures lost <==> CanExec(old(Mem())[a].perms) && !CanExec(perms)
    {
      var i := MemoryMapping(a);
      CoveringBlockIsUnique(blocks, i, a);
      lost := CanExec(blocks[i].perms) && !CanExec(perms);
      PermsThenReadonly(blocks[i], perms);
      SetPermsKept(blocks, pageSize, i, perms);
      SetPermsView(blocks, i, perms);
      blocks := blocks[i := SetReadonly(blocks[i].(perms := perms), !CanWrite(perms))];
    }
  }

  /** A range of addresses to work on, and the page size. */
  datatype Request = Request(page: int, address: int, size: int)

  /** Some address of a stretch is executable and would not be any more. */
  ghost predicate Loses(m: Memory, lo: int, hi: int, perms: int) {
    exists a :: lo <= a < hi && a in m && CanExec(m[a].perms) && !CanExec(perms)
  }

  /** All of a block has the same permissions. */
  lemma LosesBlock(bs: seq<Region>, i: int, a: int, len: int, perms: int)
    requires Shape(bs) && Hit(bs, i, a) && 0 < len && a + len <= bs[i].Limit()
    ensures a in View(bs) && View(bs)[a].perms == bs[i].perms
    ensures Loses(View(bs), a, a + len, perms) <==> CanExec(bs[i].perms) && !CanExec(perms)
  {
    BlockCells(bs, i);
    assert View(bs)[a] == bs[i].CellAt(a);
  }

  ghost predicate LosesAt(m: Memory, a: int, perms: int) { a in m && CanExec(m[a].perms) && !CanExec(perms) }

  /** The same for a range that may pass 2^64. */
  ghost predicate LosesExec(m: Memory, address: int, size: int, perms: int) {
    exists k :: 0 <= k < size && LosesAt(m, Add64(address, k), perms)
  }

  /** In terms of the permission word: some address of the range has bit 2 set and loses it. */
  ghost predicate LosesBit(m: Memory, address: int, size: int, perms: nat) {
    And(perms, 4) == 0 &&
    exists k {:trigger Add64(address, k)} :: 0 <= k < size && Add64(address, k) in m
      && HasBit(m[Add64(address, k)].perms, 4)
  }

  ghost predicate HasBit(perms: int, bit: nat) { perms >= 0 && And(perms, bit) != 0 }

  lemma LosesBitIs(bs: seq<Region>, page: int, address: int, size: int, perms: int)
    requires MemoryTable.Valid(bs, page) && 0 <= perms <= PROT_ALL
    ensures LosesBit(View(bs), address, size, perms) <==> LosesExec(View(bs), address, size, perms)
  {
    PermissionBits(perms);
    forall k | 0 <= k < size && Add64(address, k) in View(bs)
      ensures HasBit(View(bs)[Add64(address, k)].perms, 4) <==> CanExec(View(bs)[Add64(address, k)].perms)
    {
      var i := Owner(bs, Add64(address, k));
      assert bs[i].Kept(page);
      PermissionBits(bs[i].perms);
    }
    if LosesExec(View(bs), address, size, perms) {
      var k :| 0 <= k < size && LosesAt(View(bs), Add64(address, k), perms);
      assert HasBit(View(bs)[Add64(address, k)].perms, 4);
    }
    if LosesBit(View(bs), address, size, perms) {
      var k :| 0 <= k < size && Add64(address, k) in View(bs) && HasBit(View(bs)[Add64(address, k)].perms, 4);
      assert LosesAt(View(bs), Add64(address, k), perms);
    }
  }

  lemma LosesExecNext(m: Memory, mid: Memory, address: int, count: int, len: int, perms: int)
    requires InWord(address, count + len) && 0 <= count && 0 < len && Add64(address, count) + len <= TOP
    requires forall k :: count <= k < count + len ==>
      (LosesAt(mid, Add64(address, k), perms) <==> LosesAt(m, Add64(address, k), perms))
    ensures var a := Add64(address, count);
      LosesExec(m, address, count + len, perms) <==>
        LosesExec(m, address, count, perms) || Loses(mid, a, a + len, perms)
  {
    var a := Add64(address, count);
    if Loses(mid, a, a + len, perms) {
      var x :| a <= x < a + len && x in mid && CanExec(mid[x].perms) && !CanExec(perms);
      assert Add64(address, count + (x - a)) == x;
      assert LosesAt(mid, Add64(address, count + (x - a)), perms);
    }
    forall k | count <= k < count + len && LosesAt(m, Add64(address, k), perms)
      ensures Loses(mid, a, a + len, perms)
    {
      assert Add64(address, k) == a + (k - count);
    }
  }

  ghost function ProtectOutcome(bs: seq<Region>, page: int, address: int, size: int, perms: int): UcErr
    requires page > 0
  {
    if size > 0 && perms > PROT_ALL then Arg
    else UnmapOutcome(bs, page, address, size)
  }

  /** One round of the protect loop, in the same three cases as for unmap. */
  ghost predicate ProtectStepDone(bs: seq<Region>, t: seq<Region>, page: int, a: int, rest: int, perms: int,
                                  ok: bool, len: int)
    requires page > 0
  {
    && 0 < len <= rest && Aligned(a + len, page) && TopStart(t) == TopStart(bs)
    && (TopStart(bs) < a ==> !ok && t == bs)
    && (TopStart(bs) == a ==> ok && len == rest)
    && (TopStart(bs) > a ==> ok && a + len <= TopStart(bs))
    && (ok ==> View(t) == WithPerms(View(bs), a, ChunkTop(bs, a, len), perms))
  }

  /** How far the round at `a` reaches: to the top of the address space from the top block. */
  ghost function ChunkTop(bs: seq<Region>, a: int, len: int): int {
    if a == TopStart(bs) then TOP else a + len
  }

  /** Between two rounds of the protect loop, `count` bytes of the range are done. */
  ghost predicate ProtectLoop(bs: seq<Region>, t: seq<Region>, q: Request, perms: int, count: int, a: int, upto: int)
    requires q.page > 0
  {
    var top, cut := TopStart(bs), CutsTop(bs, q.address, q.address + q.size);
    && 0 <= count <= q.size && TopStart(t) == top
    && (count < q.size ==> a == q.address + count && Aligned(a, q.page) && (q.address <= top ==> a <= top))
    && (count == 0 ==> t == bs)
    && (count > 0 && cut ==> q.address <= top)
    && upto == (if count == q.size && cut then TOP else q.address + count)
    && View(t) == WithPerms(View(bs), q.address, upto, perms)
  }

  lemma ProtectLoopRest(bs: seq<Region>, t: seq<Region>, q: Request, perms: int, count: int, a: int, upto: int)
    requires q.page > 0 && ProtectLoop(bs, t, q, perms, count, a, upto) && count < q.size
    requires Aligned(q.address, q.page) && Aligned(q.size, q.page) && Mapped(View(bs), q.address, q.address + q.size)
    ensures a in View(t) && Aligned(q.size - count, q.page)
    ensures View(t) == WithPerms(View(bs), q.address, a, perms)
    ensures TopStart(t) < a ==> count == 0 && CutsTop(bs, q.address, q.address + q.size)
  {
    AlignedSum(q.page, q.address, q.size);
    AlignedSum(q.page, q.address + q.size, a);
  }

  lemma ProtectLoopNext(bs: seq<Region>, t: seq<Region>, u: seq<Region>, q: Request, perms: int, count: int, a: int,
                        upto: int, len: int)
    requires q.page > 0 && InSpace(q.address, q.size) && count < q.size
    requires ProtectLoop(bs, t, q, perms, count, a, upto)
    requires ProtectStepDone(t, u, q.page, a, q.size - count, perms, true, len)
    ensures ProtectLoop(bs, u, q, perms, count + len, Add64(a, len), ChunkTop(bs, a, len))
  {
    WithPermsTwice(View(bs), q.address, a, ChunkTop(bs, a, len), perms);
  }

  lemma ProtectStepIsDone(bs: seq<Region>, u: seq<Region>, t: seq<Region>, page: int, i: int,
                          a: int, rest: int, len: int, perms: int)
    requires MemoryTable.Valid(bs, page) && Hit(bs, i, a) && bs[i].Limit() < TOP
    requires Shape(u) && rest > 0 && len == Min(rest, bs[i].Limit() - a) && Aligned(a + len, page)
    requires SplitDone(bs, u, a, a + len, false) && TopStart(t) == TopStart(u)
    requires var r := u[Owner(u, a)]; View(t) == WithPerms(View(u), r.addr, r.Limit(), perms)
    ensures ProtectStepDone(bs, t, page, a, rest, perms, true, len)
  {
    assert bs[i].Shaped();
    TopCovers(bs, i, a);
  }

  /** The same for every block: the top block is not split, and changes as a whole. */
  lemma SplitThenProtect(bs: seq<Region>, u: seq<Region>, t: seq<Region>, page: int, i: int,
                         a: int, rest: int, len: int, perms: int)
    requires MemoryTable.Valid(bs, page) && Hit(bs, i, a) && Shape(u) && a in View(u)
    requires 0 < rest <= TOP - a && len == Min(rest, bs[i].Limit() - a) && Aligned(a + len, page)
    requires bs[i].Limit() < TOP ==> SplitDone(bs, u, a, a + len, false)
    requires bs[i].Limit() == TOP ==> u == bs && a == bs[i].addr
    requires TopStart(t) == TopStart(u)
    requires var r := u[Owner(u, a)]; View(t) == WithPerms(View(u), r.addr, r.Limit(), perms)
    ensures ProtectStepDone(bs, t, page, a, rest, perms, true, len)
  {
    assert bs[i].Shaped();
    if bs[i].Limit() < TOP {
      ProtectStepIsDone(bs, u, t, page, i, a, rest, len, perms);
    } else {
      CoveringBlockIsUnique(bs, i, a);
      TopCovers(bs, i, a);
    }
  }

  /** One round of the unmap loop: fails inside the top block, removes all of the top block
      from its first page, and otherwise removes exactly the chunk. */
  ghost predicate StepDone(bs: seq<Region>, t: seq<Region>, page: int, a: int, rest: int, ok: bool, len: int)
    requires page > 0
  {
    && 0 < len <= rest && Aligned(a + len, page)
    && (TopStart(bs) < a ==> !ok && t == bs)
    && (TopStart(bs) == a ==> ok && len == rest)
    && (TopStart(bs) > a ==> ok && a + len <= TopStart(bs) == TopStart(t))
    && (ok ==> View(t) == Without(View(bs), a, ChunkTop(bs, a, len)))
    && (IsBlock(bs, a, rest) ==> ok && len == rest && t == Dropped(bs, a))
  }

  /** Between two rounds of the unmap loop, `count` bytes of the range are gone. */
  ghost predicate UnmapLoop(bs: seq<Region>, t: seq<Region>, q: Request, count: int, a: int, upto: int)
    requires q.page > 0
  {
    var top, cut := TopStart(bs), CutsTop(bs, q.address, q.address + q.size);
    && 0 <= count <= q.size
    && (count < q.size ==>
          a == q.address + count && Aligned(a, q.page) && TopStart(t) == top && (q.address <= top ==> a <= top))
    && (count == 0 ==> t == bs)
    && (count > 0 && cut ==> q.address <= top)
    && upto == (if count == q.size && cut then TOP else q.address + count)
    && View(t) == Without(View(bs), q.address, upto)
    && (TOP - 1 in View(t) ==> TopStart(t) == top)
    && (IsBlock(bs, q.address, q.size) && count > 0 ==> count == q.size && t == Dropped(bs, q.address))
  }

  lemma UnmapLoopRest(bs: seq<Region>, t: seq<Region>, q: Request, count: int, a: int, upto: int)
    requires q.page > 0 && UnmapLoop(bs, t, q, count, a, upto) && count < q.size
    requires Aligned(q.address, q.page) && Aligned(q.size, q.page) && Mapped(View(bs), q.address, q.address + q.size)
    ensures a in View(t) && Aligned(q.size - count, q.page)
    ensures TopStart(t) < a ==> count == 0 && CutsTop(bs, q.address, q.address + q.size)
  {
    AlignedSum(q.page, q.address, q.size);
    AlignedSum(q.page, q.address + q.size, a);
  }

  lemma UnmapLoopNext(bs: seq<Region>, t: seq<Region>, u: seq<Region>, q: Request, count: int, a: int, upto: int,
                      len: int)
    requires q.page > 0 && InSpace(q.address, q.size) && count < q.size
    requires UnmapLoop(bs, t, q, count, a, upto)
    requires StepDone(t, u, q.page, a, q.size - count, true, len)
    ensures UnmapLoop(bs, u, q, count + len, Add64(a, len), ChunkTop(bs, a, len))
  {
    WithoutTwice(View(bs), q.address, a, ChunkTop(bs, a, len));
  }

  /** The chunk was split off and removed: `u` is the table between the two. */
  lemma StepIsDone(bs: seq<Region>, u: seq<Region>, page: int, i: int, a: int, rest: int, len: int)
    requires MemoryTable.Valid(bs, page) && Hit(bs, i, a) && bs[i].Limit() < TOP
    requires Shape(u) && rest > 0 && len == Min(rest, bs[i].Limit() - a) && Aligned(a + len, page)
    requires SplitDone(bs, u, a, a + len, !IsBlock(bs, a, len))
    requires IsBlock(bs, a, len) ==> u == bs
    ensures StepDone(bs, Dropped(u, a), page, a, rest, true, len)
  {
    assert bs[i].Shaped();
    TopCovers(bs, i, a);
    CoveringBlockIsUnique(bs, i, a);
    if IsBlock(bs, a, len) {
      RemoveAtView(bs, i);
      RemoveAtTop(bs, i);
    } else {
      assert a !in View(u);
      assert Owner(u, a) < 0;
    }
  }

  /** The same for every block: the top block is not split, and goes as a whole. */
  lemma SplitThenDrop(bs: seq<Region>, u: seq<Region>, page: int, i: int, a: int, rest: int, len: int)
    requires MemoryTable.Valid(bs, page) && Hit(bs, i, a) && Shape(u)
    requires 0 < rest <= TOP - a && len == Min(rest, bs[i].Limit() - a) && Aligned(a + len, page)
    requires bs[i].Limit() < TOP ==> SplitDone(bs, u, a, a + len, !IsBlock(bs, a, len))
    requires IsBlock(bs, a, len) ==> u == bs
    requires bs[i].Limit() == TOP ==> u == bs && a == bs[i].addr
    ensures StepDone(bs, Dropped(u, a), page, a, rest, true, len)
  {
    assert bs[i].Shaped();
    if bs[i].Limit() < TOP {
      StepIsDone(bs, u, page, i, a, rest, len);
    } else {
      CoveringBlockIsUnique(bs, i, a);
      TopCovers(bs, i, a);
      RemoveAtView(bs, i);
    }
  }

  ghost function Dropped(bs: seq<Region>, a: int): seq<Region> {
    if Owner(bs, a) >= 0 then RemoveAt(bs, Owner(bs, a)) else bs
  }

  /** The range starts inside the block that ends at 2^64, which cannot be split. */
  ghost predicate Blocked(bs: seq<Region>, address: int) { TopStart(bs) < address }

  /** Where an unmap stops: at the top of the address space when it meets the top block and
      was asked to stop inside it. */
  ghost function RemovedTo(bs: seq<Region>, lo: int, hi: int): int {
    if CutsTop(bs, lo, hi) then TOP else hi
  }

  ghost function AfterUnmap(bs: seq<Region>, address: int, size: int): Memory {
    if address + size <= TOP then Without(View(bs), address, RemovedTo(bs, address, address + size))
    else WithoutRange(View(bs), address, size)
  }

  ghost function AfterProtect(bs: seq<Region>, address: int, size: int, perms: int): Memory {
    if address + size <= TOP then WithPerms(View(bs), address, RemovedTo(bs, address, address + size), perms)
    else RangePerms(View(bs), address, size, perms)
  }

  // ---- Ranges that pass 2^64 ----------------------------------------------------------

  /** A loop over a range works on one stretch of it after the other.  This one began with the
      table `base` after `done` bytes; it has `size` bytes from `lo` on, done up to `upto`. */
  datatype Stretch = Stretch(base: seq<Region>, lo: int, size: int, done: int, upto: int)

  ghost predicate FirstStretch(bs: seq<Region>, q: Request, s: Stretch) {
    s.base == bs && s.lo == q.address && s.done == 0 && s.size == Head(q.address, q.size)
  }

  ghost predicate SecondStretch(bs: seq<Region>, q: Request, s: Stretch) {
    var h := Head(q.address, q.size);
    h < q.size && s.lo == 0 && s.done == h && s.size == q.size - h && !Blocked(bs, q.address) && Shape(s.base)
  }

  lemma LastAligned(bs: seq<Region>, page: int)
    requires MemoryTable.Valid(bs, page) && TOP - 1 in View(bs)
    ensures Aligned(TOP, page)
  {
    var i := Owner(bs, TOP - 1);
    assert bs[i].Shaped() && bs[i].Kept(page);
    AlignedSum(page, bs[i].addr, bs[i].size);
  }

  /** What an unmap and a protect have checked before they start: whole pages, all mapped. */
  ghost predicate Requested(bs: seq<Region>, q: Request) {
    && MemoryTable.Valid(bs, q.page) && InWord(q.address, q.size) && q.size > 0
    && Aligned(q.address, q.page) && Aligned(q.size, q.page) && RangeMapped(View(bs), q.address, q.size)
  }

  /** Both stretches are whole pages, and mapped. */
  lemma StretchesAligned(bs: seq<Region>, q: Request)
    requires MemoryTable.Valid(bs, q.page) && InWord(q.address, q.size) && q.size > 0
      && RangeMapped(View(bs), q.address, q.size)
    requires Aligned(q.address, q.page) && Aligned(q.size, q.page)
    ensures var h := Head(q.address, q.size);
      && Aligned(h, q.page) && Aligned(q.size - h, q.page)
      && Mapped(View(bs), q.address, q.address + h) && Mapped(View(bs), 0, q.size - h)
  {
    var h := Head(q.address, q.size);
    RangeIsStretches(View(bs), q.address, q.size);
    if h < q.size {
      assert TOP - 1 in View(bs);
      LastAligned(bs, q.page);
      AlignedSum(q.page, TOP, q.address);
      AlignedSum(q.page, q.size, h);
    }
  }

  /** The chunk at `a` is mapped: so is the range up to its end. */
  lemma StretchMapped(m: Memory, address: int, count: int, len: int)
    requires InWord(address, count + len) && 0 <= count && 0 <= len && Add64(address, count) + len <= TOP
    requires RangeMapped(m, address, count) && Mapped(m, Add64(address, count), Add64(address, count) + len)
    ensures RangeMapped(m, address, count + len)
  {
    forall k | count <= k < count + len ensures Add64(address, k) in m {
      assert Add64(address, k) == Add64(address, count) + (k - count);
    }
  }

  // Reading

  ghost predicate HasRead(m: Memory, address: int, count: int, bytes: seq<Byte>) {
    |bytes| == count && forall k :: 0 <= k < count ==> Add64(address, k) in m && bytes[k] == m[Add64(address, k)].byte
  }

  lemma ReadNext(bs: seq<Region>, i: int, address: int, count: int, len: int, bytes: seq<Byte>)
    requires Shape(bs) && Hit(bs, i, Add64(address, count)) && InWord(address, count + len) && 0 <= count && 0 < len
    requires Add64(address, count) + len <= bs[i].Limit() && |bs[i].data| == bs[i].size
    requires HasRead(View(bs), address, count, bytes)
    ensures var off := Add64(address, count) - bs[i].addr;
      HasRead(View(bs), address, count + len, bytes + bs[i].data[off..off + len])
  {
    assert bs[i].Shaped();
    BlockCells(bs, i);
    var a := Add64(address, count);
    var off := a - bs[i].addr;
    var next := bytes + bs[i].data[off..off + len];
    forall k | count <= k < count + len
      ensures Add64(address, k) in View(bs) && next[k] == View(bs)[Add64(address, k)].byte
    {
      assert Add64(address, k) == a + (k - count);
      assert View(bs)[a + (k - count)] == bs[i].CellAt(a + (k - count));
    }
  }

  // Unmapping

  ghost predicate Unmapping(bs: seq<Region>, t: seq<Region>, q: Request, s: Stretch, count: int, a: int)
    requires q.page > 0
  {
    && (FirstStretch(bs, q, s)
        || (SecondStretch(bs, q, s) && View(s.base) == Without(View(bs), q.address, TOP)))
    && UnmapLoop(s.base, t, Request(q.page, s.lo, s.size), count - s.done, a, s.upto)
    && (count < q.size ==> count - s.done < s.size)
  }

  lemma UnmapStarts(bs: seq<Region>, q: Request) returns (s: Stretch)
    requires q.page > 0 && InWord(q.address, q.size) && q.size > 0 && Aligned(q.address, q.page)
    ensures Unmapping(bs, bs, q, s, 0, q.address)
  {
    s := Stretch(bs, q.address, Head(q.address, q.size), 0, q.address);
    assert View(bs) == Without(View(bs), q.address, q.address);
  }

  lemma SecondUncut(bs: seq<Region>, q: Request, s: Stretch)
    requires InWord(q.address, q.size) && SecondStretch(bs, q, s) && View(s.base) == Without(View(bs), q.address, TOP)
    ensures TopStart(s.base) == TOP && !CutsTop(s.base, 0, s.size) && TOP - 1 !in View(s.base)
  {
    LastAddress(s.base);
  }

  lemma UnmappingRest(bs: seq<Region>, t: seq<Region>, q: Request, s: Stretch, count: int, a: int)
    requires Requested(bs, q) && 0 <= count < q.size
    requires Unmapping(bs, t, q, s, count, a)
    ensures InWord(a, q.size - count) && a in View(t) && Aligned(a, q.page) && Aligned(q.size - count, q.page)
    ensures Head(a, q.size - count) == s.size - (count - s.done)
    ensures TopStart(t) < a ==> t == bs && Blocked(bs, q.address)
    ensures Blocked(bs, q.address) ==> TopStart(t) < a
    ensures IsBlock(bs, q.address, q.size) ==> t == bs && a == q.address && Head(a, q.size - count) == q.size
  {
    StretchesAligned(bs, q);
    UnmapLoopRest(s.base, t, Request(q.page, s.lo, s.size), count - s.done, a, s.upto);
    if SecondStretch(bs, q, s) && !FirstStretch(bs, q, s) {
      SecondUncut(bs, q, s);
    }
    RestAligned(q, s.lo, count, count - s.done, a);
    if IsBlock(bs, q.address, q.size) { assert bs[Owner(bs, q.address)].Shaped(); }
  }

  lemma RestAligned(q: Request, lo: int, count: int, n: int, a: int)
    requires q.page > 0 && Aligned(q.size, q.page) && Aligned(a, q.page) && a == lo + n
    requires (lo == q.address && n == count && Aligned(q.address, q.page)) || (lo == 0 && Aligned(count - n, q.page))
    ensures Aligned(q.size - count, q.page)
  {
    if lo == q.address && n == count {
      AlignedSum(q.page, a, q.address);
    } else {
      AlignedSum(q.page, a, count - n);
    }
    AlignedSum(q.page, q.size, count);
  }

  lemma UnmappingNext(bs: seq<Region>, t: seq<Region>, u: seq<Region>, q: Request, s: Stretch, count: int, a: int,
                      len: int, n: int, b: int) returns (next: Stretch)
    requires q.page > 0 && InWord(q.address, q.size) && 0 <= count < q.size && Shape(u) && n == count + len
      && b == Add64(a, len)
    requires Unmapping(bs, t, q, s, count, a)
    requires StepDone(t, u, q.page, a, s.size - (count - s.done), true, len)
    ensures Unmapping(bs, u, q, next, n, b) && count < n <= q.size
  {
    UnmapLoopNext(s.base, t, u, Request(q.page, s.lo, s.size), count - s.done, a, s.upto, len);
    next := s.(upto := ChunkTop(s.base, a, len));
    if n < q.size && n - s.done == s.size {
      next := UnmapGoesOn(bs, u, q, next, n, b);
    }
  }

  /** The first stretch is done, up to 2^64: the second begins at 0. */
  lemma UnmapGoesOn(bs: seq<Region>, u: seq<Region>, q: Request, s: Stretch, n: int, b: int)
      returns (next: Stretch)
    requires q.page > 0 && InWord(q.address, q.size) && 0 < n < q.size && Shape(u) && b == 0
    requires FirstStretch(bs, q, s) || SecondStretch(bs, q, s)
    requires n - s.done == s.size && UnmapLoop(s.base, u, Request(q.page, s.lo, s.size), s.size, b, s.upto)
    ensures Unmapping(bs, u, q, next, n, b)
  {
    next := Stretch(u, b, q.size - n, n, b);
    assert View(u) == Without(View(u), b, b);
  }

  lemma UnmappingEnds(bs: seq<Region>, t: seq<Region>, q: Request, s: Stretch, a: int)
    requires q.page > 0 && InWord(q.address, q.size) && q.size > 0 && Shape(bs)
    requires Unmapping(bs, t, q, s, q.size, a)
    ensures View(t) == AfterUnmap(bs, q.address, q.size) && !Blocked(bs, q.address)
    ensures TOP - 1 in View(t) ==> TopStart(t) == TopStart(bs)
    ensures IsBlock(bs, q.address, q.size) ==> t == Dropped(bs, q.address)
  {
    ViewBounded(bs);
    WithoutStretches(View(bs), q.address, q.size);
    if SecondStretch(bs, q, s) && !FirstStretch(bs, q, s) {
      SecondUncut(bs, q, s);
    }
    if IsBlock(bs, q.address, q.size) { assert bs[Owner(bs, q.address)].Shaped(); }
  }

  // Protecting

  ghost predicate Protecting(bs: seq<Region>, t: seq<Region>, q: Request, perms: int, s: Stretch, count: int, a: int)
    requires q.page > 0
  {
    && (FirstStretch(bs, q, s)
        || (SecondStretch(bs, q, s) && TopStart(s.base) == TopStart(bs)
            && View(s.base) == WithPerms(View(bs), q.address, TOP, perms)))
    && ProtectLoop(s.base, t, Request(q.page, s.lo, s.size), perms, count - s.done, a, s.upto)
    && (count < q.size ==> count - s.done < s.size)
  }

  /** How far a protect has come: `count` bytes are done, `a` is next. */
  datatype Progress = Progress(count: int, a: int, lost: bool)

  /** And `lost` says whether some address done so far has lost its permission to be executed. */
  ghost predicate ProtectingSoFar(bs: seq<Region>, t: seq<Region>, q: Request, perms: int, s: Stretch, g: Progress)
    requires q.page > 0
  {
    Protecting(bs, t, q, perms, s, g.count, g.a) && (g.lost <==> LosesExec(View(bs), q.address, g.count, perms))
  }

  lemma ProtectStarts(bs: seq<Region>, q: Request, perms: int) returns (s: Stretch)
    requires q.page > 0 && InWord(q.address, q.size) && q.size > 0 && Aligned(q.address, q.page)
    ensures ProtectingSoFar(bs, bs, q, perms, s, Progress(0, q.address, false))
  {
    s := Stretch(bs, q.address, Head(q.address, q.size), 0, q.address);
    assert View(bs) == WithPerms(View(bs), q.address, q.address, perms);
  }

  lemma ProtectingRest(bs: seq<Region>, t: seq<Region>, q: Request, perms: int, s: Stretch, count: int, a: int)
    requires Requested(bs, q) && 0 <= count < q.size
    requires Protecting(bs, t, q, perms, s, count, a)
    ensures InWord(a, q.size - count) && a in View(t) && Aligned(a, q.page) && Aligned(q.size - count, q.page)
    ensures Head(a, q.size - count) == s.size - (count - s.done) && a == Add64(q.address, count)
    ensures TopStart(t) < a ==> t == bs && Blocked(bs, q.address)
    ensures Blocked(bs, q.address) ==> TopStart(t) < a
    ensures TopStart(t) == TopStart(bs)
    ensures forall k :: count <= k < q.size ==>
      (LosesAt(View(t), Add64(q.address, k), perms) <==> LosesAt(View(bs), Add64(q.address, k), perms))
  {
    StretchesAligned(bs, q);
    ProtectLoopRest(s.base, t, Request(q.page, s.lo, s.size), perms, count - s.done, a, s.upto);
    RestAligned(q, s.lo, count, count - s.done, a);
  }

  lemma ProtectingNext(bs: seq<Region>, t: seq<Region>, u: seq<Region>, q: Request, perms: int, s: Stretch,
                       count: int, a: int, len: int, n: int, b: int) returns (next: Stretch)
    requires q.page > 0 && InWord(q.address, q.size) && 0 <= count < q.size && Shape(u) && n == count + len
      && b == Add64(a, len)
    requires Protecting(bs, t, q, perms, s, count, a)
    requires ProtectStepDone(t, u, q.page, a, s.size - (count - s.done), perms, true, len)
    ensures Protecting(bs, u, q, perms, next, n, b) && count < n <= q.size
  {
    ProtectLoopNext(s.base, t, u, Request(q.page, s.lo, s.size), perms, count - s.done, a, s.upto, len);
    next := s.(upto := ChunkTop(s.base, a, len));
    if n < q.size && n - s.done == s.size {
      next := ProtectGoesOn(bs, u, q, perms, next, n, b);
    }
  }

  lemma ProtectGoesOn(bs: seq<Region>, u: seq<Region>, q: Request, perms: int, s: Stretch, n: int, b: int)
      returns (next: Stretch)
    requires q.page > 0 && InWord(q.address, q.size) && 0 < n < q.size && Shape(u) && b == 0
    requires FirstStretch(bs, q, s) || SecondStretch(bs, q, s)
    requires n - s.done == s.size && ProtectLoop(s.base, u, Request(q.page, s.lo, s.size), perms, s.size, b, s.upto)
    ensures Protecting(bs, u, q, perms, next, n, b)
  {
    next := Stretch(u, b, q.size - n, n, b);
    assert View(u) == WithPerms(View(u), b, b, perms);
  }

  lemma ProtectRoundDone(bs: seq<Region>, t: seq<Region>, u: seq<Region>, q: Request, perms: int,
                         s: Stretch, g: Progress, len: int, now: bool, h: Progress)
      returns (next: Stretch)
    requires Requested(bs, q) && 0 <= g.count < q.size && Shape(u)
    requires ProtectingSoFar(bs, t, q, perms, s, g)
    requires ProtectStepDone(t, u, q.page, g.a, s.size - (g.count - s.done), perms, true, len)
    requires now == Loses(View(t), g.a, g.a + len, perms)
    requires h == Progress(g.count + len, Add64(g.a, len), g.lost || now)
    ensures ProtectingSoFar(bs, u, q, perms, next, h) && g.count < h.count <= q.size
  {
    LostSoFar(bs, t, u, q, perms, s, g, len, now, h);
    next := ProtectingNext(bs, t, u, q, perms, s, g.count, g.a, len, h.count, h.a);
  }

  lemma LostSoFar(bs: seq<Region>, t: seq<Region>, u: seq<Region>, q: Request, perms: int,
                  s: Stretch, g: Progress, len: int, now: bool, h: Progress)
    requires Requested(bs, q) && 0 <= g.count < q.size
    requires ProtectingSoFar(bs, t, q, perms, s, g)
    requires ProtectStepDone(t, u, q.page, g.a, s.size - (g.count - s.done), perms, true, len)
    requires now == Loses(View(t), g.a, g.a + len, perms)
    requires h.count == g.count + len && h.lost == (g.lost || now)
    ensures h.lost <==> LosesExec(View(bs), q.address, h.count, perms)
  {
    ProtectingRest(bs, t, q, perms, s, g.count, g.a);
    LosesExecNext(View(bs), View(t), q.address, g.count, len, perms);
  }

  lemma ProtectingEnds(bs: seq<Region>, t: seq<Region>, q: Request, perms: int, s: Stretch, g: Progress)
    requires q.page > 0 && InWord(q.address, q.size) && q.size > 0 && Shape(bs)
    requires ProtectingSoFar(bs, t, q, perms, s, g) && g.count == q.size
    ensures g.lost <==> LosesExec(View(bs), q.address, q.size, perms)
    ensures View(t) == AfterProtect(bs, q.address, q.size, perms)
    ensures !Blocked(bs, q.address) && TopStart(t) == TopStart(bs)
  {
    ViewBounded(bs);
    PermsStretches(View(bs), q.address, q.size, perms);
  }

  // Writing

  /** After `count` bytes: up to 2^64 from `bs`, then on from `mid`. */
  ghost predicate Writing(bs: seq<Region>, mid: seq<Region>, t: seq<Region>, address: int, bytes: seq<Byte>,
                          count: int) {
    var h := Head(address, |bytes|);
    0 <= h <= |bytes| && 0 <= count <= |bytes|
    && if count <= h then mid == t && Poked(bs, t, address, bytes, 0, count)
       else Poked(bs, mid, address, bytes, 0, h) && Poked(mid, t, address - TOP, bytes, h, count)
  }

  lemma WritingNext(bs: seq<Region>, mid: seq<Region>, t: seq<Region>, u: seq<Region>, address: int, bytes: seq<Byte>,
                    count: int, len: int) returns (next: seq<Region>)
    requires InWord(address, |bytes|) && 0 <= count && 0 < len && count + len <= |bytes|
    requires Writing(bs, mid, t, address, bytes, count)
    requires var a := Add64(address, count); a + len <= TOP && Poked(t, u, a - count, bytes, count, count + len)
    ensures Writing(bs, next, u, address, bytes, count + len)
  {
    var h := Head(address, |bytes|);
    if count < h {
      PokedNext(bs, t, u, address, bytes, 0, count, count + len);
      next := u;
    } else {
      next := mid;
      if count > h { PokedNext(mid, t, u, address - TOP, bytes, h, count, count + len); }
    }
  }

  lemma WritingEnds(bs: seq<Region>, mid: seq<Region>, t: seq<Region>, address: int, bytes: seq<Byte>)
    requires Shape(bs) && InWord(address, |bytes|) && Writing(bs, mid, t, address, bytes, |bytes|)
    ensures View(t) == WithBytes(View(bs), address, bytes)
    ensures InSpace(address, |bytes|) ==> Poked(bs, t, address, bytes, 0, |bytes|)
  {
    var h := Head(address, |bytes|);
    ViewBounded(bs);
    BytesStretches(View(bs), address, bytes);
    PokedView(bs, mid, address, bytes, 0, h);
    if h < |bytes| {
      PokedView(mid, t, address - TOP, bytes, h, |bytes|);
    } else {
      assert WithPart(View(t), address - TOP, bytes, h, h) == View(t);
    }
  }

  lemma BlockFacts(bs: seq<Region>, page: int, address: int, size: int)
    requires MemoryTable.Valid(bs, page) && IsBlock(bs, address, size)
    ensures size > 0 && Aligned(address, page) && Aligned(size, page)
    ensures RangeMapped(View(bs), address, size) && !CutsTop(bs, address, address + size)
    ensures address + size <= TOP && !Blocked(bs, address)
  {
    var i := Owner(bs, address);
    assert bs[i].Shaped() && bs[i].Kept(page);
    BlockCells(bs, i);
    TopStartIs(bs, i);
    RangeIsStretches(View(bs), address, size);
  }

  /** The chunk of the block at `a` that a request for `rest` bytes takes ends on a page. */
  lemma ChunkAligned(bs: seq<Region>, page: int, i: int, a: int, rest: int)
    requires MemoryTable.Valid(bs, page) && Hit(bs, i, a)
    requires Aligned(a, page) && Aligned(rest, page)
    ensures var len := Min(rest, bs[i].Limit() - a);
            Aligned(len, page) && Aligned(a + len, page)
  {
    assert bs[i].Kept(page);
    AlignedSum(page, bs[i].addr, bs[i].size);
    AlignedSum(page, bs[i].Limit(), a);
    AlignedSum(page, a, rest);
  }

  lemma TableHasRoom(count: int, capacity: int)
    requires 0 <= count && RoundUp(count) <= capacity
    ensures count % MEM_BLOCK_INCR != 0 ==> RoundUp(count + 1) <= capacity
    ensures count % MEM_BLOCK_INCR == 0 ==> RoundUp(count + 1) == count + MEM_BLOCK_INCR
    ensures count % MEM_BLOCK_INCR != 0 ==> count < capacity
    ensures count > 0 ==> RoundUp(count - 1) <= capacity
  {
  }

  lemma FreshMapped(bs: seq<Region>, page: int, address: int, size: int, perms: int)
    requires MemoryTable.Valid(bs, page) && InSpace(address, size)
    requires MapOutcome(View(bs), page, address, size, perms) == Ok && perms >= 0
    ensures var t := bs + [Fresh(address, size, perms)];
            MemoryTable.Valid(t, page) && View(t) == WithBlock(View(bs), Fresh(address, size, perms))
            && TopStart(t) == if address + size == TOP then address else TopStart(bs)
  {
    var r := Fresh(address, size, perms);
    assert r.Shaped() && r.Kept(page);
    AppendView(bs, r);
    AppendTop(bs, r);
  }

  predicate InSpace(address: int, size: int) {
    0 <= address < TOP && 0 <= size < TOP && address + size <= TOP
  }

  function RoundUp(count: int): int { (count + MEM_BLOCK_INCR - 1) / MEM_BLOCK_INCR * MEM_BLOCK_INCR }

  ghost function BytesOf(m: Memory, address: int, size: int): seq<Byte>
    requires RangeMapped(m, address, size) && size >= 0
  {
    seq(size, k requires 0 <= k < size => m[Add64(address, k)].byte)
  }

  ghost function MapOutcome(m: Memory, page: int, address: int, size: int, perms: int): UcErr
    requires page > 0
  {
    if size == 0 || address + size > TOP || !Aligned(address, page) || !Aligned(size, page) || perms > PROT_ALL then Arg
    else if !Unmapped(m, address, address + size) then MapError
    else Ok
  }

  ghost function UnmapOutcome(bs: seq<Region>, page: int, address: int, size: int): UcErr
    requires page > 0
  {
    if size == 0 then Ok
    else if !Aligned(address, page) || !Aligned(size, page) then Arg
    else if !RangeMapped(View(bs), address, size) then NoMem
    else if Blocked(bs, address) then NoMem
    else Ok
  }

  /** A write that fills the last block replaces its data and nothing else. */
  lemma PokedLast(bs: seq<Region>, r: Region, t: seq<Region>, lo: int, bytes: seq<Byte>)
    requires Shape(bs + [r]) && r.addr == lo && r.size == |bytes|
    requires Poked(bs + [r], t, lo, bytes, 0, |bytes|)
    ensures t == bs + [r.(data := bytes)]
  {
    var u := bs + [r];
    forall n | 0 <= n < |bs|
      ensures t[n] == bs[n]
    {
      assert Apart(u[n], u[|bs|]) && u[n].Shaped() && PokedRegion(u[n], t[n], lo, bytes, 0, |bytes|);
      assert t[n].data == bs[n].data;
    }
    assert u[|bs|].Shaped() && PokedRegion(r, t[|bs|], lo, bytes, 0, |bytes|);
    assert t[|bs|].data == bytes;
  }

  lemma PieceIs(r: Region, lo: int, hi: int)
    requires r.Shaped() && r.addr <= lo <= hi <= r.Limit()
    ensures lo == hi ==> Piece(r, lo, hi) == []
    ensures lo < hi ==> var data := r.data[lo - r.addr..hi - r.addr];
      |data| == hi - lo && Piece(r, lo, hi) == [Region(lo, |data|, r.perms, !CanWrite(r.perms), data)]
  {
  }

  lemma MiddleHole(bs: seq<Region>, i: int, lo: int, hi: int, doDelete: bool)
    requires Shape(bs) && 0 <= i < |bs| && |bs[i].data| == bs[i].size
    requires bs[i].addr <= lo < hi <= bs[i].Limit()
    ensures var r := bs[i];
            var left := RemoveAt(bs, i) + Piece(r, r.addr, lo);
            var middle := if doDelete then left else left + Piece(r, lo, hi);
            Shape(middle) && Unmapped(View(middle), hi, r.Limit())
  {
    CutAbove(bs, i, lo);
    var r := bs[i];
    assert r.Shaped();
    if !doDelete {
      AppendPiece(RemoveAt(bs, i) + Piece(r, r.addr, lo), r, lo, hi);
    }
  }
}
