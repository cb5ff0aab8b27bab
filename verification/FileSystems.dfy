/** The kernel's file system code over the buffer cache. */
module FileSystems {
  import opened Bytes
  import opened Layout
  import opened Ide
  import opened Bio
  import opened FsState
  import opened FsInodes
  import opened Wrappers

  const NOBLOCK: u32 := 0xFFFF_FFFF     // balloc and bmap return -1 as an unsigned

  class FileSystem {
    const cache: BufferCache
    var sb: Superblock
    var icache: seq<Inode>
    ghost var ino: seq<Dinode>         // every inode as its users see it
    ghost var owner: Owner
    ghost var refs: multiset<nat>      // one inode number for each reference held
    ghost var entry: map<nat, nat>     // the cache entry of each referenced inode

    /** The whole invariant, with the inodes of dirty ahead of their disk records. */
    ghost predicate Sound(dirty: set<nat>)
      reads this, cache, cache.ide
    {
      Base() && Agree(D(), sb, ino, owner, icache, refs, entry, dirty)
    }

    ghost function Inum(ip: nat): nat
      reads this`icache
    {
      if ip < |icache| then icache[ip].inum else 0
    }

    ghost function Ino(i: nat): Dinode
      reads this`ino
    {
      if i < |ino| then ino[i] else FreshDinode(0)
    }

    ghost function Rec(ip: nat): Dinode
      reads this`icache
    {
      if ip < |icache| then icache[ip].rec else FreshDinode(0)
    }

    /** ip is a reference someone holds. */
    ghost predicate Ref(ip: nat)
      reads this`icache, this`ino
    {
      ip < |icache| && icache[ip].ref > 0 && icache[ip].inum < |ino|
    }

    /** ... and ilock has filled it in. */
    ghost predicate Locked(ip: nat)
      reads this`icache, this`ino
    {
      Ref(ip) && icache[ip].valid && icache[ip].rec == ino[icache[ip].inum]
    }

    ghost function D(): Blocks
      reads cache.ide
    {
      if |cache.ide.disk| > ROOTDEV then cache.ide.disk[ROOTDEV] else []
    }

    /** The cache is sound, no buffer awaits its bwrite, and sb is what block 1 says. */
    ghost predicate Base()
      reads this`sb, cache, cache.ide
    {
      && cache.Valid() && cache.pending == {}
      && Laid(D(), sb) && GetSuper(D()[1]) == sb
    }

    /** n more buffers can be held. */
    ghost predicate Room(n: nat)
      reads cache
    {
      |cache.held| + n <= NBUF
    }

    /** iinit, with the inode cache zeroed, on a disk whose blocks satisfy the invariants. */
    constructor Iinit(cache: BufferCache, ghost layout: Superblock, ghost ino: seq<Dinode>, ghost owner: Owner)
      requires cache.Valid() && cache.pending == {} && |cache.held| < NBUF
      requires Agree(cache.ide.disk[ROOTDEV], layout, ino, owner, EmptyIcache(), multiset{}, map[], {})
      requires GetSuper(cache.ide.disk[ROOTDEV][1]) == layout
      modifies cache, cache.ide
      ensures Sound({}) && this.cache == cache && sb == layout && refs == multiset{}
      ensures D() == old(cache.ide.disk)[ROOTDEV] && this.ino == ino && this.owner == owner
      ensures cache.held == old(cache.held)
    {
      hide BufferCache.Valid, Agree, GetSuper, EmptyIcache;
      this.cache := cache;
      this.ino, this.owner, refs, entry := ino, owner, multiset{}, map[];
      icache := EmptyIcache();
      sb := Superblock(0, 0, 0, 0, 0, 0, 0);
      new;
      cache.ValidDisk();
      AgreeFacts(D(), layout, ino, owner, icache, refs, entry, {});
      var bp := cache.Bread(ROOTDEV, 1);
      sb := GetSuper(cache.Data(bp));
      cache.Brelse(bp);
    }

    lemma DiskIsGood()
      requires Base()
      ensures GoodDisk(cache.ide.disk) && D() == cache.ide.disk[ROOTDEV] && |D()| == FSSIZE
      ensures |cache.ide.buf| == NBUF
    {
    }

    /** bp holds block bno and carries its bytes. */
    ghost predicate Has(bp: nat, bno: nat)
      reads cache, cache.ide
    {
      && bp < NBUF && bp < |cache.ide.buf| && cache.Holds(bp, ROOTDEV, bno) && bno < |D()| && cache.Data(bp) == D()[bno]
    }

    lemma BaseIsLaid()
      requires Base()
      ensures Laid(D(), sb) && |D()| == sb.size
    {
    }

    lemma HasData(bp: nat, bno: nat)
      requires Has(bp, bno)
      ensures bp < |cache.ide.buf| && bno < |D()| && cache.Data(bp) == D()[bno]
    {
    }

    /** A block of the disk, read and held. */
    method Read(bno: nat) returns (bp: nat)
      requires Base() && Room(1) && bno < sb.size
      modifies cache, cache.ide
      ensures Base() && D() == old(D()) && cache.held == old(cache.held) + multiset{bp} && Has(bp, bno)
      ensures bp < NBUF == |cache.ide.buf| && cache.held[bp] > 0 && bno < |D()| && cache.Data(bp) == D()[bno]
      ensures forall c: nat, n: nat :: old(Has(c, n)) ==> Has(c, n)
    {
      hide BufferCache.Valid;
      DiskIsGood();
      bp := cache.Bread(ROOTDEV, bno);
      DiskIsGood();
    }

    /** The holder of bp sets its data to d, writes the block through and lets go of the buffer. */
    method WriteBack(bp: nat, ghost bno: nat, d: Block)
      requires Base() && Has(bp, bno) && 1 < bno < sb.size
      modifies cache, cache.ide
      ensures Base() && D() == old(D())[bno := d] && cache.held == old(cache.held) - multiset{bp}
      ensures forall c: nat, n: nat :: n != bno && old(Has(c, n)) ==> Has(c, n)
    {
      hide BufferCache.Valid;
      DiskIsGood();
      cache.Store(bp, d);
      cache.Bwrite(bp);
      cache.Brelse(bp);
    }

    /** Lets go of a buffer. */
    method Release(bp: nat, ghost bno: nat)
      requires Base() && Has(bp, bno)
      modifies cache
      ensures Base() && D() == old(D()) && cache.held == old(cache.held) - multiset{bp}
      ensures forall c: nat, n: nat :: n != bno && old(Has(c, n)) ==> Has(c, n)
    {
      hide BufferCache.Valid;
      cache.Brelse(bp);
    }

    method Readsb()
      requires Base() && Room(1)
      modifies this`sb, cache, cache.ide
      ensures Base() && sb == old(sb) && D() == old(D()) && cache.held == old(cache.held)
      ensures forall c: nat, n: nat :: n != 1 && old(Has(c, n)) ==> Has(c, n)
    {
      hide BufferCache.Valid;
      var bp := Read(1);
      sb := GetSuper(cache.Data(bp));
      Release(bp, 1);
    }

    method Bzero(bno: nat)
      requires Base() && Room(1) && 1 < bno < sb.size
      modifies cache, cache.ide
      ensures Base() && cache.held == old(cache.held)
      ensures D() == old(D())[bno := Zeros(BSIZE)]
      ensures forall c: nat, n: nat :: n != bno && old(Has(c, n)) ==> Has(c, n)
    {
      hide BufferCache.Valid;
      var bp := Read(bno);
      WriteBack(bp, bno, Zeros(BSIZE));
    }

    /** The inner loop of balloc: the first clear bit of a bitmap block below limit, or limit. */
    method FirstClear(bits: Block, limit: nat) returns (bi: nat)
      requires limit <= BPB
      ensures bi <= limit && (bi < limit ==> !MapBit(bits, bi))
      ensures forall x: nat :: x < bi ==> MapBit(bits, x)
    {
      bi := 0;
      while bi < limit && MapBit(bits, bi)
        invariant bi <= limit
        invariant forall x: nat :: x < bi ==> MapBit(bits, x)
      {
        bi := bi + 1;
      }
    }

    /** A clear bit found, in the bitmap block held in bp, is set and its block zeroed. */
    method Take(bp: nat, b: nat, bi: nat)
      requires Base() && Room(0) && cache.held[bp] > 0 && b % BPB == 0 && bi < BPB
      requires sb.DataStart() <= b + bi < sb.size && Has(bp, BitBlock(sb, b)) && !Bit(D(), sb, b + bi)
      modifies cache, cache.ide
      ensures Base() && cache.held == old(cache.held) - multiset{bp}
      ensures D() == Allocated(old(D()), sb, b + bi)
      ensures forall c: nat, n: nat :: n >= sb.DataStart() && n != b + bi && old(Has(c, n)) ==> Has(c, n)
    {
      hide FileSystem.Base, FileSystem.D, FileSystem.Has, MapBit, SetMapBit, Bit, Allocated, BitBlock, Laid;
      BaseIsLaid();
      WhereThingsAre(D(), sb);
      HasData(bp, BitBlock(sb, b));
      AllocatedWrites(D(), sb, b + bi);
      BitsOfBlock(D(), sb, b, b / BPB);
      WriteBack(bp, BitBlock(sb, b), SetMapBit(cache.Data(bp), bi, true));
      Bzero(b + bi);
    }

    /** First fit over the bitmap. */
    method Balloc() returns (r: u32)
      requires Base() && Room(1)
      requires forall x: nat :: x < sb.DataStart() ==> Bit(D(), sb, x)
      modifies cache, cache.ide
      ensures Base() && cache.held == old(cache.held)
      ensures r == NOBLOCK ==> D() == old(D()) && forall x: nat :: x < sb.size ==> Bit(D(), sb, x)
      ensures r != NOBLOCK ==>
                r < sb.size && !Bit(old(D()), sb, r) && (forall x: nat :: x < r ==> Bit(old(D()), sb, x))
                && D() == Allocated(old(D()), sb, r)
      ensures forall c: nat, n: nat :: n >= sb.DataStart() && n != r && old(Has(c, n)) ==> Has(c, n)
    {
      hide FileSystem.Base, FileSystem.D, FileSystem.Has, MapBit, SetMapBit, Bit, Allocated, BitBlock, Laid;
      BaseIsLaid();
      WhereThingsAre(D(), sb);
      var b: nat := 0;
      ghost var k := 0;
      while b < sb.size
        invariant b == BPB * k
        invariant Base() && cache.held == old(cache.held) && D() == old(D())
        invariant forall x: nat :: x < b && x < sb.size ==> Bit(D(), sb, x)
        invariant forall c: nat, n: nat :: n >= sb.DataStart() && old(Has(c, n)) ==> Has(c, n)
      {
        var bp := Read(BitBlock(sb, b));
        BitsOfBlock(D(), sb, b, k);
        var bi := FirstClear(cache.Data(bp), if b + BPB <= sb.size then BPB else sb.size - b);
        if bi < BPB && b + bi < sb.size {
          assert !Bit(D(), sb, b + bi);
          Take(bp, b, bi);
          return b + bi;
        }
        Release(bp, BitBlock(sb, b));
        b := b + BPB;
        k := k + 1;
      }
      return NOBLOCK;
    }

    /** The "freeing free block" complaint is never reached: b must be in use. */
    method Bfree(b: nat)
      requires Base() && Room(1) && sb.DataStart() <= b < sb.size && Bit(D(), sb, b)
      modifies this`sb, cache, cache.ide
      ensures Base() && sb == old(sb) && cache.held == old(cache.held)
      ensures D() == WithBit(old(D()), sb, b, false)
      ensures forall c: nat, n: nat :: n >= sb.DataStart() && old(Has(c, n)) ==> Has(c, n)
    {
      hide BufferCache.Valid, MapBit, SetMapBit, GetSuper, BufferCache.Holds;
      WhereThingsAre(D(), sb);
      Readsb();
      var bp := Read(BitBlock(sb, b));
      var bi := b % BPB;
      assert MapBit(cache.Data(bp), bi);
      WriteBack(bp, BitBlock(sb, b), SetMapBit(cache.Data(bp), bi, false));
    }

    /** Only the record of ip has changed, to d. */
    ghost predicate WithRec(icache0: seq<Inode>, ino0: seq<Dinode>, ip: nat, d: Dinode)
      reads this`icache, this`ino
    {
      && ip < |icache0| && icache == icache0[ip := icache0[ip].(rec := d)]
      && icache0[ip].inum < |ino0| && ino == ino0[icache0[ip].inum := d]
    }

    // ---------- bmap ----------

    /** The block in slot k of the record; an empty slot is given a new block first. */
    method RecordSlot(ip: nat, k: nat) returns (addr: u32)
      requires Ref(ip) && Sound({Inum(ip)}) && Locked(ip) && Room(1) && k <= INDIRECT
      requires Rec(ip).addrs[k] == 0 ==> FreeSet(D(), sb) != {}
      modifies this`icache, this`ino, this`owner, cache, cache.ide
      ensures cache.held == old(cache.held) && Sound({Inum(ip)}) && Inum(ip) == old(Inum(ip)) && Locked(ip)
      ensures addr != 0 && addr == Rec(ip).addrs[k]
      ensures old(Rec(ip)).addrs[k] != 0 ==>
                D() == old(D()) && ino == old(ino) && icache == old(icache) && owner == old(owner)
      ensures old(Rec(ip)).addrs[k] == 0 ==>
                && addr < sb.size && !Bit(old(D()), sb, addr) && D() == Allocated(old(D()), sb, addr)
                && WithRec(old(icache), old(ino), ip, GiveRecord(old(Rec(ip)), k, addr))
                && owner == old(owner)[addr as nat := (Inum(ip), k)]
    {
      hide BufferCache.Valid, Agree, Bit, Allocated, BufferCache.Holds;
      ghost var i := icache[ip].inum;
      AgreeFacts(D(), sb, ino, owner, icache, refs, entry, {i});
      addr := icache[ip].rec.addrs[k];
      if addr == 0 {
        ghost var x :| x in FreeSet(D(), sb);
        addr := Balloc();
        AgreeAfterRecordGiven(old(D()), sb, ino, owner, icache, refs, entry, ip, k, addr);
        icache := icache[ip := icache[ip].(rec := GiveRecord(icache[ip].rec, k, addr))];
        ino := ino[i := icache[ip].rec];
        owner := owner[addr as nat := (i, k)];
      }
    }

    /** The disk block of block bn of a file with nb blocks: looked up below nb, allocated at nb. */
    method Bmap(ip: nat, bn: nat, ghost nb: nat) returns (addr: u32)
      requires Ref(ip) && Sound({Inum(ip)}) && Locked(ip) && Room(2)
      requires NoHoles(D(), Ino(Inum(ip)), nb) && bn <= nb && bn < MAXFILE
      requires bn == nb ==> |FreeSet(D(), sb)| >= BlocksTaken(bn)
      modifies this`icache, this`ino, this`owner, cache, cache.ide
      ensures cache.held == old(cache.held) && Sound({Inum(ip)}) && Inum(ip) == old(Inum(ip)) && Locked(ip)
      ensures bn < nb ==> D() == old(D()) && ino == old(ino) && icache == old(icache) && owner == old(owner)
      ensures bn == nb ==>
                && Grew(old(D()), old(ino), D(), ino, Inum(ip), nb)
                && |FreeSet(D(), sb)| == |old(FreeSet(D(), sb))| - BlocksTaken(bn)
                && WithRec(old(icache), old(ino), ip, Rec(ip))
      ensures sb.DataStart() <= addr < sb.size && addr == Addr(D(), Ino(Inum(ip)), bn)
    {
      hide BufferCache.Valid, Agree, Bit, Allocated, BufferCache.Holds, Grew, Addr, Slot, FreeSet, NoHoles;
      ghost var i := Inum(ip);
      AgreeFacts(D(), sb, ino, owner, icache, refs, entry, {i});
      AddrIs(D(), ino[i], nb, bn);
      if bn < NDIRECT {
        ghost var start, recs := D(), ino;
        if bn == nb {
          FreeSetSome(D(), sb);
        }
        addr := RecordSlot(ip, bn);
        if bn == nb {
          DirectGrew(start, sb, recs, old(owner), old(icache), refs, entry, i, nb, addr);
          GrewAddr(start, recs, D(), ino, i, nb);
          AddrIs(D(), ino[i], nb + 1, bn);
        }
        AgreeSlot(D(), sb, ino, owner, icache, refs, entry, {i}, i, bn);
      } else {
        addr := BmapIndirect(ip, bn, nb);
      }
    }

    /** The block in entry j of the indirect block; an empty entry is given a new one, and written back, first. */
    method EntrySlot(ip: nat, ind: u32, j: nat) returns (addr: u32)
      requires Ref(ip) && Sound({Inum(ip)}) && Locked(ip) && Room(2) && j < NINDIRECT
      requires ind != 0 && ind == Rec(ip).addrs[INDIRECT]
      requires Slot(D(), Rec(ip), INDIRECT + 1 + j) == 0 ==> FreeSet(D(), sb) != {}
      modifies this`owner, cache, cache.ide
      ensures cache.held == old(cache.held) && Sound({Inum(ip)}) && addr == Slot(D(), Rec(ip), INDIRECT + 1 + j)
      ensures old(Slot(D(), Rec(ip), INDIRECT + 1 + j)) != 0 ==> D() == old(D()) && owner == old(owner)
      ensures old(Slot(D(), Rec(ip), INDIRECT + 1 + j)) == 0 ==>
                && 0 < addr < sb.size && !Bit(old(D()), sb, addr) && D() == GiveEntry(old(D()), sb, addr, ind, j)
                && owner == old(owner)[addr as nat := (Inum(ip), INDIRECT + 1 + j)]
    {
      hide FileSystem.Base, FileSystem.D, FileSystem.Has, Laid, Agree, Bit, Allocated, FreeSet, Slot;
      ghost var i := Inum(ip);
      AgreeFacts(D(), sb, ino, owner, icache, refs, entry, {i});
      AgreeSlot(D(), sb, ino, owner, icache, refs, entry, {i}, i, INDIRECT);
      SlotInBlock(D(), ino[i], j);
      var bp := Read(ind);
      addr := Word(cache.Data(bp), j);
      if addr == 0 {
        FreeSetHas(D(), sb);
        addr := Balloc();
        AgreeAfterEntryGiven(old(D()), sb, ino, owner, icache, refs, entry, i, j, addr);
        HasData(bp, ind);
        WriteBack(bp, ind, PutWord(cache.Data(bp), j, addr));
        owner := owner[addr as nat := (i, INDIRECT + 1 + j)];
        assert D() == GiveEntry(old(D()), sb, addr, ind, j);
      } else {
        Release(bp, ind);
      }
    }

    method BmapIndirect(ip: nat, bn: nat, ghost nb: nat) returns (addr: u32)
      requires Ref(ip) && Sound({Inum(ip)}) && Locked(ip) && Room(2)
      requires NoHoles(D(), Ino(Inum(ip)), nb) && NDIRECT <= bn <= nb && bn < MAXFILE
      requires bn == nb ==> |FreeSet(D(), sb)| >= BlocksTaken(bn)
      modifies this`icache, this`ino, this`owner, cache, cache.ide
      ensures cache.held == old(cache.held) && Sound({Inum(ip)}) && Inum(ip) == old(Inum(ip)) && Locked(ip)
      ensures bn < nb ==> D() == old(D()) && ino == old(ino) && icache == old(icache) && owner == old(owner)
      ensures bn == nb ==>
                && Grew(old(D()), old(ino), D(), ino, Inum(ip), nb)
                && |FreeSet(D(), sb)| == |old(FreeSet(D(), sb))| - BlocksTaken(bn)
                && WithRec(old(icache), old(ino), ip, Rec(ip))
      ensures sb.DataStart() <= addr < sb.size && addr == Addr(D(), Ino(Inum(ip)), bn)
    {
      hide FileSystem.Base, FileSystem.D, Laid, Agree, Bit, Allocated, GiveEntry, Grew, Addr, Slot, FreeSet, NoHoles;
      ghost var i := Inum(ip);
      ghost var start, recs := D(), ino;
      AgreeFacts(D(), sb, ino, owner, icache, refs, entry, {i});
      AddrIs(D(), ino[i], nb, bn);
      if bn == nb {
        FreeSetSome(D(), sb);
      }
      var ind := RecordSlot(ip, INDIRECT);
      ghost var mid, midOwner := D(), owner;
      if bn == nb {
        SlotAtEnd(start, sb, recs, old(owner), old(icache), refs, entry, ip, bn, ind);
        FreeSetSome(D(), sb);
      }
      addr := EntrySlot(ip, ind, bn - NDIRECT);
      AgreeSlot(D(), sb, ino, owner, icache, refs, entry, {i}, i, bn + 1);
      if bn == nb {
        if bn == NDIRECT {
          ThirteenthGrew(start, sb, recs, old(owner), old(icache), refs, entry, ip, ind, addr);
        } else {
          EntryGrew(start, sb, recs, old(owner), old(icache), refs, entry, i, nb, addr);
        }
        GrewAddr(start, recs, D(), ino, i, nb);
        AddrIs(D(), ino[i], nb + 1, bn);
      }
    }

    // ---------- reading and writing bytes ----------

    /** One turn of writei's loop, for a file that so far reaches len bytes: the block at off is
        found or given, read, overwritten from there with the chunk, and written through. */
    method CopyIn(ip: nat, off: nat, chunk: seq<byte>, ghost len: nat)
      requires Ref(ip) && Sound({Inum(ip)}) && Locked(ip) && Room(2)
      requires off <= len && |chunk| > 0 && off % BSIZE + |chunk| <= BSIZE && off + |chunk| <= MAXFILE * BSIZE
      requires NoHoles(D(), Ino(Inum(ip)), BlocksFor(len))
      requires |FreeSet(D(), sb)| >= Cost(BlocksFor(len), BlocksFor(Max(len, off + |chunk|)))
      modifies this`icache, this`ino, this`owner, cache, cache.ide
      ensures cache.held == old(cache.held) && Sound({Inum(ip)}) && Inum(ip) == old(Inum(ip)) && Locked(ip)
      ensures NoHoles(D(), Ino(Inum(ip)), BlocksFor(Max(len, off + |chunk|)))
      ensures OthersKept(old(D()), old(ino), D(), ino, Inum(ip)) && WithRec(old(icache), old(ino), ip, Rec(ip))
      ensures Rec(ip) == old(Rec(ip)).(addrs := Rec(ip).addrs)
      ensures FileBytes(D(), Ino(Inum(ip)), Max(len, off + |chunk|)) ==
                Splice(old(FileBytes(D(), Ino(Inum(ip)), len)), off, chunk)
      ensures |FreeSet(D(), sb)| == |old(FreeSet(D(), sb))| - Cost(BlocksFor(len), BlocksFor(Max(len, off + |chunk|)))
      ensures BlocksFor(len) == BlocksFor(Max(len, off + |chunk|)) ==>
                ino == old(ino) && Dino(D(), sb, Inum(ip)) == old(Dino(D(), sb, Inum(ip)))
    {
      hide FileSystem.Base, FileSystem.D, Laid, Agree, Bit, Grew, Addr, Slot, FreeSet, NoHoles, FileBytes, Dino,
           OthersKept, Splice, FileSystem.Has, BlocksFor, Max, Cost;
      ghost var i, bn, nb := Inum(ip), off / BSIZE, BlocksFor(len);
      ghost var nb' := Max(nb, bn + 1);
      BlocksForChunk(len, off, |chunk|);
      CostOfChunk(nb, bn);
      var a := Bmap(ip, off / BSIZE, nb);
      if bn == nb {
        GrewBytes(old(D()), old(ino), D(), ino, i, nb, len);
      } else {
        OthersKeptRefl(D(), ino, i);
      }
      ghost var mid, midIno := D(), ino;
      AgreeFacts(mid, sb, ino, owner, icache, refs, entry, {i});
      var bp := Read(a);
      AgreeAfterChunk(D(), sb, ino, owner, icache, refs, entry, i, nb', len, off, chunk);
      WriteBack(bp, a, Splice(cache.Data(bp), off % BSIZE, chunk));
      OthersKeptTrans(old(D()), old(ino), mid, midIno, D(), ino, i);
    }

    method Iupdate(ip: nat)
      requires Ref(ip) && Sound({Inum(ip)}) && Locked(ip) && Dense(D(), Ino(Inum(ip))) && Room(1)
      modifies cache, cache.ide
      ensures cache.held == old(cache.held) && Sound({})
      ensures OthersKept(old(D()), ino, D(), ino, |ino|) && FreeSet(D(), sb) == old(FreeSet(D(), sb))
    {
      hide FileSystem.Base, FileSystem.D, Laid, Agree, FreeSet, OthersKept, FileSystem.Has, PutDinode, Dense;
      ghost var i := Inum(ip);
      AgreeFacts(D(), sb, ino, owner, icache, refs, entry, {i});
      AgreeAfterUpdate(D(), sb, ino, owner, icache, refs, entry, i);
      var bno := InodeBlock(sb, icache[ip].inum);
      var bp := Read(bno);
      WriteBack(bp, bno, PutDinode(cache.Data(bp), icache[ip].inum % IPB, icache[ip].rec));
    }

    /** Device numbers and link count are set and the record is written back. */
    method Describe(ip: nat, major: u16, minor: u16, nlink: u16)
      requires Ref(ip) && Sound({}) && Locked(ip) && Room(1)
      modifies this`icache, this`ino, cache, cache.ide
      ensures cache.held == old(cache.held) && Sound({}) && Inum(ip) == old(Inum(ip)) && Locked(ip)
      ensures WithRec(old(icache), old(ino), ip, old(Rec(ip)).(major := major, minor := minor, nlink := nlink))
      ensures Inum(ip) < |old(Files())|
              && Files() == old(Files())[Inum(ip) := old(Files())[Inum(ip)].(major := major, minor := minor,
                  nlink := nlink)]
      ensures FreeSet(D(), sb) == old(FreeSet(D(), sb))
    {
      hide FileSystem.Base, FileSystem.D, Agree, Laid, FreeSet, OthersKept, FileBytes, BlocksFor, Dense, Cached;
      ghost var i := Inum(ip);
      ghost var start, recs := D(), ino;
      var d := icache[ip].rec.(major := major, minor := minor, nlink := nlink);
      AgreeFacts(start, sb, ino, owner, icache, refs, entry, {});
      AgreeClean(start, sb, ino, owner, icache, refs, entry, i);
      AgreeWithFields(start, sb, ino, owner, icache, refs, entry, ip, d);
      DenseByFields(start, ino[i], d);
      OthersKeptRefl(start, ino, i);
      OthersKeptWithRecord(start, ino, start, ino, i, d);
      BytesByAddrs(start, ino[i], d, d.size);
      icache := icache[ip := icache[ip].(rec := d)];
      ino := ino[i := d];
      Iupdate(ip);
      AllKeptAfter(start, recs, start, ino, D(), i);
      FilesAfter(start, recs, D(), ino, i, FileBytes(start, recs[i], d.size));
    }

    /** Every inode as a file. */
    ghost function Files(): (f: seq<File>)
      reads this`ino, cache.ide
      ensures |f| == |ino|
    {
      FilesOf(D(), ino)
    }

    /** writei accepts the range. */
    static predicate Writable(size: nat, off: nat, n: nat) {
      off <= size && off + n < 0x1_0000_0000 && off + n <= MAXFILE * BSIZE
    }

    /** The content of the file becomes its old content with the bytes at off replaced by src,
        growing where src runs past the end; no other file changes. */
    method Writei(ip: nat, src: seq<byte>, off: u32) returns (r: int)
      requires Ref(ip) && Sound({}) && Locked(ip) && Room(2) && Rec(ip).typ !in {0, T_DEV} && |src| < 0x1_0000_0000
      requires Writable(Rec(ip).size, off, |src|) ==>
                 |FreeSet(D(), sb)| >= Cost(BlocksFor(Rec(ip).size), BlocksFor(Max(Rec(ip).size, off + |src|)))
      modifies this`icache, this`ino, this`owner, cache, cache.ide
      ensures cache.held == old(cache.held) && Sound({}) && Inum(ip) == old(Inum(ip)) && Locked(ip)
      ensures r == if Writable(old(Rec(ip)).size, off, |src|) then |src| else -1
      ensures r == -1 ==> D() == old(D()) && ino == old(ino) && icache == old(icache)
      ensures r >= 0 ==> off <= |old(Files())[Inum(ip)].bytes|
      ensures r >= 0 ==>
                var f := old(Files())[Inum(ip)];
                Files() == old(Files())[Inum(ip) := f.(bytes := Splice(f.bytes, off, src))]
      ensures r >= 0 ==>
                |FreeSet(D(), sb)| == |old(FreeSet(D(), sb))| -
                  Cost(BlocksFor(old(Rec(ip)).size), BlocksFor(Max(old(Rec(ip)).size, off + |src|)))
      ensures r >= 0 ==> WithRec(old(icache), old(ino), ip, Rec(ip))
    {
      hide FileSystem.Base, FileSystem.D, Laid, Agree, FreeSet, NoHoles, FileBytes, Dino, OthersKept, Splice,
           Dense, BlocksFor, Cost;
      var size: u32 := icache[ip].rec.size;
      if off > size || (off + |src|) % 0x1_0000_0000 < off {
        return -1;
      }
      if (off + |src|) % 0x1_0000_0000 > MAXFILE * BSIZE {
        return -1;
      }
      ghost var i := Inum(ip);
      ghost var start, recs := D(), ino;
      AgreeFacts(D(), sb, ino, owner, icache, refs, entry, {});
      AgreeClean(D(), sb, ino, owner, icache, refs, entry, i);
      DenseIs(D(), ino[i]);
      WriteLoop(ip, src, off, size);
      var end := off + |src|;
      if |src| > 0 && end > size {
        ghost var grown, grownIno := D(), ino;
        var d := icache[ip].rec.(size := end);
        AgreeWithFields(D(), sb, ino, owner, icache, refs, entry, ip, d);
        DenseWithSize(D(), ino[i], end);
        icache := icache[ip := icache[ip].(rec := d)];
        ino := ino[i := d];
        OthersKeptWithRecord(start, recs, grown, grownIno, i, d);
        BytesByAddrs(grown, grownIno[i], d, end);
        Iupdate(ip);
        AllKeptAfter(start, recs, grown, ino, D(), i);
      } else {
        DenseIs(D(), ino[i]);
        AgreeClean(D(), sb, ino, owner, icache, refs, entry, i);
      }
      FilesAfter(start, recs, D(), ino, i, Splice(FileBytes(start, recs[i], size), off, src));
      return |src|;
    }

    /** The bytes of the file from off, cut at its end; reading changes nothing. */
    method Readi(ip: nat, off: u32, count: u32) returns (r: int, dst: seq<byte>)
      requires Ref(ip) && Sound({}) && Locked(ip) && Room(2) && Rec(ip).typ != T_DEV
      modifies this`icache, this`ino, this`owner, cache, cache.ide
      ensures cache.held == old(cache.held) && Sound({}) && D() == old(D()) && ino == old(ino) && icache == old(icache)
      ensures owner == old(owner)
      ensures r == if off > Rec(ip).size || off + count >= 0x1_0000_0000 then -1
                   else if off + count > Rec(ip).size then Rec(ip).size - off else count
      ensures r >= 0 ==> off + r <= |Files()[Inum(ip)].bytes| && dst == Files()[Inum(ip)].bytes[off..off + r]
      ensures r < 0 ==> dst == []
    {
      hide FileSystem.Base, FileSystem.D, FileSystem.Has, Laid, Agree, FreeSet, NoHoles, FileBytes, Dense, Addr,
           BlocksFor;
      ghost var i := Inum(ip);
      AgreeFacts(D(), sb, ino, owner, icache, refs, entry, {});
      var size: u32 := icache[ip].rec.size;
      dst := [];
      if off > size || (off + count) % 0x1_0000_0000 < off {
        return -1, [];
      }
      var n: nat := if (off + count) % 0x1_0000_0000 > size then size - off else count;
      ghost var nb := BlocksFor(size);
      AgreeClean(D(), sb, ino, owner, icache, refs, entry, i);
      DenseIs(D(), ino[i]);
      NoHolesBound(D(), ino[i], nb);
      dst := ReadLoop(ip, off, n, size);
      AgreeClean(D(), sb, ino, owner, icache, refs, entry, i);
      return n, dst;
    }

    // ---------- references ----------

    /** The in-use entry of inode inum, or the first free one, or NINODE. */
    method FindEntry(dev: nat, inum: nat) returns (e: nat)
      requires |icache| == NINODE
      ensures e <= NINODE
      ensures e < NINODE && icache[e].ref > 0 ==> icache[e].dev == dev && icache[e].inum == inum
      ensures e == NINODE || icache[e].ref == 0 ==>
                forall f: nat :: f < NINODE && icache[f].ref > 0 ==> icache[f].dev != dev || icache[f].inum != inum
      ensures e == NINODE ==> forall f: nat :: f < NINODE ==> icache[f].ref > 0
    {
      e := NINODE;
      var k := 0;
      while k < NINODE
        invariant 0 <= k <= NINODE && e <= NINODE
        invariant forall f: nat :: f < k && icache[f].ref > 0 ==> icache[f].dev != dev || icache[f].inum != inum
        invariant e < NINODE ==> icache[e].ref == 0
        invariant e == NINODE ==> forall f: nat :: f < k ==> icache[f].ref > 0
      {
        if icache[k].ref > 0 && icache[k].dev == dev && icache[k].inum == inum {
          return k;
        }
        if e == NINODE && icache[k].ref == 0 {
          e := k;
        }
        k := k + 1;
      }
    }

    method Iget(dev: nat, inum: nat) returns (ip: nat)
      requires Sound({}) && dev == ROOTDEV && inum < |ino| && |refs| < NINODE
      modifies this`icache, this`refs, this`entry
      ensures Sound({}) && refs == old(refs) + multiset{inum}
      ensures Ref(ip) && Inum(ip) == inum && icache[ip].dev == dev
      ensures Steady(old(icache), icache) && NoneLost(old(icache), icache)
      ensures |icache| == old(|icache|) && icache[ip].ref == old(icache[ip].ref) + 1
      ensures inum !in old(refs) ==> !icache[ip].valid && icache[ip].ref == 1
    {
      hide FileSystem.Base, FileSystem.D, Agree, Steady, Laid, Bit;
      AgreeFacts(D(), sb, ino, owner, icache, refs, entry, {});
      AgreeEntries(D(), sb, ino, owner, icache, refs, entry, {});
      ip := FindEntry(dev, inum);
      if icache[ip].ref > 0 {
        AgreeAfterHit(D(), sb, ino, owner, icache, refs, entry, ip);
        icache := icache[ip := icache[ip].(ref := icache[ip].ref + 1)];
        refs := refs + multiset{inum};
      } else {
        AgreeAfterMiss(D(), sb, ino, owner, icache, refs, entry, ip, inum);
        icache := icache[ip := Inode(dev, inum, 1, false, icache[ip].rec)];
        entry := entry[inum := ip];
        refs := refs + multiset{inum};
      }
    }

    method Idup(ip: nat)
      requires Sound({}) && Ref(ip)
      modifies this`icache, this`refs
      ensures Sound({}) && refs == old(refs) + multiset{Inum(ip)} && Ref(ip) && Inum(ip) == old(Inum(ip))
      ensures icache == old(icache)[ip := old(icache[ip]).(ref := old(icache[ip].ref) + 1)]
    {
      hide FileSystem.Base, FileSystem.D, Agree, Cached, Laid;
      ghost var before, r0 := icache, refs;
      AgreeFacts(D(), sb, ino, owner, icache, refs, entry, {});
      AgreeParts(D(), sb, ino, owner, icache, refs, entry, {});
      CachedAfterHit(icache, ino, refs, entry, ip);
      icache := icache[ip := icache[ip].(ref := icache[ip].ref + 1)];
      refs := refs + multiset{icache[ip].inum};
      AgreeWithCache(D(), sb, ino, owner, before, r0, entry, {}, icache, refs, entry);
    }

    /** Fills in the entry; the "no type" complaint is never reached, as the inode is in use. */
    method Ilock(ip: nat)
      requires Sound({}) && Ref(ip) && Room(1) && Ino(Inum(ip)).typ != 0
      modifies this`icache, cache, cache.ide
      ensures Sound({}) && cache.held == old(cache.held) && D() == old(D())
      ensures Inum(ip) == old(Inum(ip)) && Locked(ip)
      ensures icache == old(icache)[ip := old(icache[ip]).(valid := true, rec := Ino(Inum(ip)))]
    {
      hide FileSystem.Base, FileSystem.D, FileSystem.Has, Agree, Cached, Laid;
      ghost var before := icache;
      AgreeFacts(D(), sb, ino, owner, icache, refs, entry, {});
      AgreeParts(D(), sb, ino, owner, icache, refs, entry, {});
      CachedAfterLoad(icache, ino, refs, entry, ip);
      if !icache[ip].valid {
        WhereThingsAre(D(), sb);
        var bno := InodeBlock(sb, icache[ip].inum);
        var bp := Read(bno);
        var d := GetDinode(cache.Data(bp), icache[ip].inum % IPB);
        Release(bp, bno);
        icache := icache[ip := icache[ip].(valid := true, rec := d)];
        AgreeWithCache(D(), sb, ino, owner, before, refs, entry, {}, icache, refs, entry);
      }
    }

    // ---------- a new inode ----------

    /** The lowest free inode above 0, set to typ and otherwise zero, with one reference. */
    method Ialloc(typ: u16) returns (r: Option<nat>)
      requires Sound({}) && |refs| < NINODE && Room(1) && typ != 0
      requires forall i :: i in refs ==> Ino(i).typ != 0
      modifies this`icache, this`ino, this`refs, this`entry, cache, cache.ide
      ensures cache.held == old(cache.held) && Sound({})
      ensures r.None? ==> D() == old(D()) && ino == old(ino) && refs == old(refs) && icache == old(icache)
      ensures r.None? ==> forall j: nat :: 1 <= j < |ino| ==> ino[j].typ != 0
      ensures r.Some? ==>
                && Ref(r.value) && !icache[r.value].valid && icache[r.value].ref == 1 && 1 <= Inum(r.value) < |old(ino)|
                && old(ino)[Inum(r.value)].typ == 0
                && (forall j: nat :: 1 <= j < Inum(r.value) ==> old(ino)[j].typ != 0)
                && ino == old(ino)[Inum(r.value) := FreshDinode(typ)]
                && Files() == old(Files())[Inum(r.value) := File(typ, 0, 0, 0, [])]
                && FreeSet(D(), sb) == old(FreeSet(D(), sb))
                && refs == old(refs) + multiset{Inum(r.value)}
                && Steady(old(icache), icache) && NoneLost(old(icache), icache)
    {
      hide FileSystem.Base, FileSystem.D, FileSystem.Has, Agree, Laid, FreeSet, FilesOf, GetDinode, PutDinode, Steady,
           NoneLost, FreshDinode;
      AgreeFacts(D(), sb, ino, owner, icache, refs, entry, {});
      var inum: nat := 1;
      while inum < sb.ninodes
        invariant 1 <= inum <= sb.ninodes && Sound({}) && cache.held == old(cache.held) && D() == old(D())
        invariant ino == old(ino) && icache == old(icache) && refs == old(refs) && entry == old(entry)
        invariant forall j: nat :: 1 <= j < inum ==> ino[j].typ != 0
      {
        r := ClaimIfFree(inum, typ);
        if r.Some? {
          return;
        }
        inum := inum + 1;
      }
      return None;
    }

    /** One turn of ialloc's loop: the record is read, and claimed if it is free. */
    method ClaimIfFree(inum: nat, typ: u16) returns (r: Option<nat>)
      requires Sound({}) && |refs| < NINODE && Room(1) && typ != 0 && 1 <= inum < |ino|
      requires forall i :: i in refs ==> Ino(i).typ != 0
      modifies this`icache, this`ino, this`refs, this`entry, cache, cache.ide
      ensures cache.held == old(cache.held) && Sound({}) && (r.Some? <==> old(ino)[inum].typ == 0)
      ensures r.None? ==> D() == old(D()) && ino == old(ino) && refs == old(refs)
      ensures r.None? ==> icache == old(icache) && entry == old(entry)
      ensures r.Some? ==>
                && Ref(r.value) && Inum(r.value) == inum && !icache[r.value].valid && icache[r.value].ref == 1
                && ino == old(ino)[inum := FreshDinode(typ)] && refs == old(refs) + multiset{inum}
                && inum < |old(Files())| && Files() == old(Files())[inum := File(typ, 0, 0, 0, [])]
                && FreeSet(D(), sb) == old(FreeSet(D(), sb))
                && Steady(old(icache), icache) && NoneLost(old(icache), icache)
    {
      hide FileSystem.Base, FileSystem.D, FileSystem.Has, Agree, Laid, FreeSet, FilesOf, GetDinode, PutDinode, Steady,
           NoneLost, FreshDinode;
      AgreeFacts(D(), sb, ino, owner, icache, refs, entry, {});
      AgreeDino(D(), sb, ino, owner, icache, refs, entry, inum);
      var bno := InodeBlock(sb, inum);
      var bp := Read(bno);
      if GetDinode(cache.Data(bp), inum % IPB).typ == 0 {
        var ip := Claim(bp, bno, inum, typ);
        return Some(ip);
      }
      Release(bp, bno);
      return None;
    }

    /** The free record just found becomes one of the type asked for, all else zero, and gets its first reference. */
    method Claim(bp: nat, bno: nat, inum: nat, typ: u16) returns (ip: nat)
      requires Sound({}) && |refs| < NINODE && typ != 0 && Has(bp, bno)
      requires 1 <= inum < |ino| && ino[inum].typ == 0 && inum !in refs && bno == InodeBlock(sb, inum)
      modifies this`icache, this`ino, this`refs, this`entry, cache, cache.ide
      ensures cache.held == old(cache.held) - multiset{bp} && Sound({}) && refs == old(refs) + multiset{inum}
      ensures Ref(ip) && Inum(ip) == inum && !icache[ip].valid && icache[ip].ref == 1
      ensures ino == old(ino)[inum := FreshDinode(typ)] && inum < |old(Files())|
      ensures Files() == old(Files())[inum := File(typ, 0, 0, 0, [])] && FreeSet(D(), sb) == old(FreeSet(D(), sb))
      ensures Steady(old(icache), icache) && NoneLost(old(icache), icache)
    {
      hide FileSystem.Base, FileSystem.D, FileSystem.Has, Agree, Laid, FreeSet, FilesOf, PutDinode, Steady, GetDinode;
      AgreeFacts(D(), sb, ino, owner, icache, refs, entry, {});
      AgreeAfterIalloc(D(), sb, ino, owner, icache, refs, entry, inum, typ);
      HasData(bp, bno);
      WriteBack(bp, bno, PutDinode(cache.Data(bp), inum % IPB, FreshDinode(typ)));
      ino := ino[inum := FreshDinode(typ)];
      ip := Iget(ROOTDEV, inum);
    }

    lemma FileFields(i: nat)
      requires i < |ino|
      ensures Files()[i].typ == ino[i].typ && Files()[i].nlink == ino[i].nlink
    {
    }

    /** A locked inode is its file. */
    lemma LockedFile(ip: nat)
      requires Sound({}) && Locked(ip)
      ensures Inum(ip) < |Files()| && Rec(ip) == Ino(Inum(ip))
      ensures Files()[Inum(ip)] == FileOf(D(), Rec(ip))
      ensures Rec(ip).size <= MAXFILE * BSIZE
    {
      hide BufferCache.Valid, FileBytes;
      AgreeClean(D(), sb, ino, owner, icache, refs, entry, Inum(ip));
    }

    // ---------- truncation ----------

    /** The first loop of itrunc: free the direct blocks. */
    method FreeDirect(ip: nat, ghost nb: nat)
      requires Ref(ip) && Sound({Inum(ip)}) && Locked(ip) && Room(1) && NoHoles(D(), Ino(Inum(ip)), nb)
      modifies this`sb, this`icache, this`ino, this`owner, cache, cache.ide
      ensures sb == old(sb) && cache.held == old(cache.held) && Sound({Inum(ip)}) && Inum(ip) == old(Inum(ip))
                && Locked(ip)
      ensures OthersKept(old(D()), old(ino), D(), ino, Inum(ip)) && WithRec(old(icache), old(ino), ip, Rec(ip))
      ensures Rec(ip) == old(Rec(ip)).(addrs := Rec(ip).addrs)
      ensures forall l: nat :: l < NSLOT ==>
                Slot(D(), Rec(ip), l) == if l < NDIRECT then 0 else old(Slot(D(), Rec(ip), l))
      ensures |FreeSet(D(), sb)| == |old(FreeSet(D(), sb))| + Min(NDIRECT, nb)
    {
      hide FileSystem.Base, FileSystem.D, Agree, Laid, Bit, FreeSet, NoHoles, Slot, WithBit, OthersKept;
      ghost var i := Inum(ip);
      OthersKeptRefl(D(), ino, i);
      var k := 0;
      while k < NDIRECT
        invariant 0 <= k <= NDIRECT && sb == old(sb)
        invariant cache.held == old(cache.held) && Sound({i}) && Inum(ip) == i && Locked(ip)
        invariant OthersKept(old(D()), old(ino), D(), ino, i) && WithRec(old(icache), old(ino), ip, Rec(ip))
        invariant Rec(ip) == old(Rec(ip)).(addrs := Rec(ip).addrs)
        invariant forall l: nat :: l < NSLOT ==>
                    Slot(D(), Rec(ip), l) == if l < k then 0 else old(Slot(D(), Rec(ip), l))
        invariant |FreeSet(D(), sb)| == |old(FreeSet(D(), sb))| + Min(k, nb)
      {
        SlotIsAddr(D(), icache[ip].rec, k);
        NoHolesSlots(old(D()), old(Rec(ip)), nb, k);
        ghost var before, beforeIno := D(), ino;
        if icache[ip].rec.addrs[k] != 0 {
          AgreeFacts(D(), sb, ino, owner, icache, refs, entry, {i});
          AgreeAfterRecordTaken(D(), sb, ino, owner, icache, refs, entry, ip, k);
          var a := icache[ip].rec.addrs[k];
          Bfree(a);
          icache := icache[ip := icache[ip].(rec := GiveRecord(icache[ip].rec, k, 0))];
          ino := ino[i := icache[ip].rec];
          owner := owner - {a as nat};
          OthersKeptTrans(old(D()), old(ino), before, beforeIno, D(), ino, i);
        }
        k := k + 1;
      }
    }

    /** The loop over the indirect block held in bp.  itrunc does not clear the entries it frees;
        G is the disk with them cleared, the one in which every marked block has its slot. */
    method FreeEntries(ip: nat, bp: nat, ind: u32, ghost nb: nat) returns (ghost G: Blocks)
      requires Ref(ip) && Sound({Inum(ip)}) && Locked(ip) && Room(1) && Has(bp, ind)
      requires Rec(ip).addrs[INDIRECT] == ind != 0 && NDIRECT < nb <= MAXFILE
      requires forall l: nat :: l < NSLOT ==> (Slot(D(), Rec(ip), l) != 0 <==> INDIRECT <= l <= nb)
      modifies this`sb, this`owner, cache, cache.ide
      ensures Base() && sb == old(sb) && cache.held == old(cache.held) && Has(bp, ind)
      ensures SameOutside(G, D(), {ind as nat}) && Agree(G, sb, ino, owner, icache, refs, entry, {Inum(ip)})
      ensures OthersKept(old(D()), ino, G, ino, Inum(ip))
      ensures forall l: nat :: l < NSLOT ==> (Slot(G, Rec(ip), l) != 0 <==> l == INDIRECT)
      ensures |FreeSet(G, sb)| == |old(FreeSet(D(), sb))| + nb - NDIRECT
    {
      hide FileSystem.Base, FileSystem.D, Agree, Laid, Bit, FreeSet, Slot, WithBit, OthersKept, PutWord,
           FileSystem.Has, Word;
      ghost var i := Inum(ip);
      ghost var start := D();
      AgreeFacts(start, sb, ino, owner, icache, refs, entry, {i});
      AgreeSlot(start, sb, ino, owner, icache, refs, entry, {i}, i, INDIRECT);
      HasData(bp, ind);
      ghost var left: Block := start[ind];
      assert Rec(ip) == Ino(i);
      G := start;
      OthersKeptRefl(start, ino, i);
      var j := 0;
      while j < NINDIRECT
        invariant 0 <= j <= NINDIRECT && sb == old(sb) && Base() && Has(bp, ind) && cache.held == old(cache.held)
        invariant ind < |D()| == |start| && D()[ind] == start[ind] && G == D()[ind := left]
        invariant Agree(G, sb, ino, owner, icache, refs, entry, {i})
        invariant OthersKept(start, ino, G, ino, i)
        invariant forall l: nat :: l < NSLOT ==>
                    Slot(G, Ino(i), l) == if INDIRECT < l <= INDIRECT + j then 0 else Slot(start, Ino(i), l)
        invariant |FreeSet(G, sb)| == |FreeSet(start, sb)| + Min(j, nb - NDIRECT)
      {
        HasData(bp, ind);
        SlotInBlock(start, Ino(i), j);
        var b := Word(cache.Data(bp), j);
        if b != 0 {
          ghost var before := G;
          EntryFreed(D(), left, sb, ino, owner, icache, refs, entry, i, j, b);
          Bfree(b);
          owner := owner - {b as nat};
          left := PutWord(left, j, 0);
          G := D()[ind := left];
          OthersKeptTrans(start, ino, before, ino, G, ino, i);
        }
        j := j + 1;
      }
      forall l: nat | l < NSLOT ensures Slot(G, Rec(ip), l) != 0 <==> l == INDIRECT {
        assert Slot(G, Ino(i), l) == if INDIRECT < l <= INDIRECT + j then 0 else Slot(start, Ino(i), l);
      }
    }

    /** The indirect block is read, the blocks of its entries are freed, and its buffer is let go;
        G is as for FreeEntries. */
    method FreeEntriesOf(ip: nat, ind: u32, ghost nb: nat) returns (ghost G: Blocks)
      requires Ref(ip) && Sound({Inum(ip)}) && Locked(ip) && Room(2)
      requires Rec(ip).addrs[INDIRECT] == ind != 0 && NDIRECT < nb <= MAXFILE
      requires forall l: nat :: l < NSLOT ==> (Slot(D(), Rec(ip), l) != 0 <==> INDIRECT <= l <= nb)
      modifies this`sb, this`owner, cache, cache.ide
      ensures Base() && sb == old(sb) && cache.held == old(cache.held)
      ensures SameOutside(G, D(), {ind as nat}) && Agree(G, sb, ino, owner, icache, refs, entry, {Inum(ip)})
      ensures OthersKept(old(D()), ino, G, ino, Inum(ip))
      ensures forall l: nat :: l < NSLOT ==> (Slot(G, Rec(ip), l) != 0 <==> l == INDIRECT)
      ensures |FreeSet(G, sb)| == |old(FreeSet(D(), sb))| + nb - NDIRECT
    {
      hide FileSystem.Base, FileSystem.D, Agree, Laid, Bit, FreeSet, Slot, OthersKept, FileSystem.Has, SameOutside;
      AgreeFacts(D(), sb, ino, owner, icache, refs, entry, {Inum(ip)});
      AgreeSlot(D(), sb, ino, owner, icache, refs, entry, {Inum(ip)}, Inum(ip), INDIRECT);
      var bp := Read(ind);
      G := FreeEntries(ip, bp, ind, nb);
      Release(bp, ind);
    }

    /** The second half of itrunc: free the entries of the indirect block, then the block. */
    method FreeIndirect(ip: nat, ghost nb: nat)
      requires Ref(ip) && Sound({Inum(ip)}) && Locked(ip) && Room(2) && Rec(ip).addrs[INDIRECT] != 0
                 && NDIRECT < nb <= MAXFILE
      requires forall l: nat :: l < NSLOT ==> (Slot(D(), Rec(ip), l) != 0 <==> INDIRECT <= l <= nb)
      modifies this`sb, this`icache, this`ino, this`owner, cache, cache.ide
      ensures sb == old(sb) && cache.held == old(cache.held) && Sound({Inum(ip)}) && Inum(ip) == old(Inum(ip))
                && Locked(ip)
      ensures OthersKept(old(D()), old(ino), D(), ino, Inum(ip)) && WithRec(old(icache), old(ino), ip, Rec(ip))
      ensures Rec(ip) == old(Rec(ip)).(addrs := Rec(ip).addrs)
      ensures forall l: nat :: l < NSLOT ==> Slot(D(), Rec(ip), l) == 0
      ensures |FreeSet(D(), sb)| == |old(FreeSet(D(), sb))| + nb - NDIRECT + 1
    {
      hide FileSystem.Base, FileSystem.D, Agree, Laid, Bit, FreeSet, Slot, WithBit, OthersKept, FileSystem.Has;
      ghost var i := Inum(ip);
      ghost var start := D();
      AgreeFacts(start, sb, ino, owner, icache, refs, entry, {i});
      AgreeSlot(start, sb, ino, owner, icache, refs, entry, {i}, i, INDIRECT);
      var ind := icache[ip].rec.addrs[INDIRECT];
      ghost var G := FreeEntriesOf(ip, ind, nb);
      ghost var recs, d := ino, Rec(ip);
      assert d == ino[i] == icache[ip].rec;
      assert forall l: nat :: l < NSLOT ==> (Slot(G, d, l) != 0 <==> l == INDIRECT);
      AgreeFacts(G, sb, ino, owner, icache, refs, entry, {i});
      AgreeAfterRecordTaken(G, sb, ino, owner, icache, refs, entry, ip, INDIRECT);
      FreedOnBoth(G, D(), sb, ind);
      Bfree(ind);
      ghost var H := WithBit(G, sb, ind, false);
      icache := icache[ip := icache[ip].(rec := GiveRecord(icache[ip].rec, INDIRECT, 0))];
      ino := ino[i := icache[ip].rec];
      owner := owner - {ind as nat};
      AgreeUnowned(H, D(), sb, ino, owner, icache, refs, entry, i, ind);
      OthersKeptTrans(start, recs, G, recs, H, ino, i);
      AllKeptAfter(start, recs, H, ino, D(), i);
      AllSlotsGone(G, H, D(), d, ino[i]);
    }

    /** itrunc's loops: every block of the file is freed, and no slot of the record holds one. */
    method FreeBlocks(ip: nat, ghost nb: nat)
      requires Ref(ip) && Sound({}) && Locked(ip) && Room(2) && nb == BlocksFor(Rec(ip).size)
      modifies this`sb, this`icache, this`ino, this`owner, cache, cache.ide
      ensures sb == old(sb) && cache.held == old(cache.held) && Sound({Inum(ip)}) && Inum(ip) == old(Inum(ip))
                && Locked(ip)
      ensures OthersKept(old(D()), old(ino), D(), ino, Inum(ip)) && WithRec(old(icache), old(ino), ip, Rec(ip))
      ensures Rec(ip) == old(Rec(ip)).(addrs := NO_ADDRS)
      ensures |FreeSet(D(), sb)| == |old(FreeSet(D(), sb))| + Cost(0, nb)
    {
      hide FileSystem.Base, FileSystem.D, Agree, Laid, FreeSet, Slot, OthersKept, NoHoles, FileBytes, BlocksFor,
           Dense;
      ghost var i := Inum(ip);
      ghost var start, recs := D(), ino;
      AgreeFacts(start, sb, ino, owner, icache, refs, entry, {});
      AgreeClean(start, sb, ino, owner, icache, refs, entry, i);
      DenseIs(start, ino[i]);
      NoHolesBound(start, ino[i], nb);
      FreeDirect(ip, nb);
      SlotsPastDirect(start, recs[i], D(), icache[ip].rec, nb);
      SlotIsAddr(D(), icache[ip].rec, INDIRECT);
      ghost var mid, midRecs := D(), ino;
      if icache[ip].rec.addrs[INDIRECT] != 0 {
        FreeIndirect(ip, nb);
        OthersKeptTrans(start, recs, mid, midRecs, D(), ino, i);
      }
      NoAddrs(D(), icache[ip].rec);
    }

    /** The file becomes empty and every block it used is free again. */
    method Itrunc(ip: nat)
      requires Ref(ip) && Sound({}) && Locked(ip) && Room(2)
      modifies this`sb, this`icache, this`ino, this`owner, cache, cache.ide
      ensures sb == old(sb) && cache.held == old(cache.held) && Sound({}) && Inum(ip) == old(Inum(ip)) && Locked(ip)
      ensures WithRec(old(icache), old(ino), ip, old(Rec(ip)).(size := 0, addrs := NO_ADDRS))
      ensures Inum(ip) < |old(Files())| && Files() == old(Files())[Inum(ip) := old(Files())[Inum(ip)].(bytes := [])]
      ensures |FreeSet(D(), sb)| == |old(FreeSet(D(), sb))| + Cost(0, BlocksFor(old(Rec(ip)).size))
    {
      hide FileSystem.Base, FileSystem.D, Agree, Laid, FreeSet, Slot, OthersKept, NoHoles, FileBytes, BlocksFor,
           Dense, Cost;
      ghost var i := Inum(ip);
      ghost var start, recs := D(), ino;
      AgreeFacts(start, sb, ino, owner, icache, refs, entry, {});
      FreeBlocks(ip, BlocksFor(Rec(ip).size));
      ghost var freed := D();
      var d := icache[ip].rec.(size := 0);
      AgreeWithFields(freed, sb, ino, owner, icache, refs, entry, ip, d);
      OthersKeptWithRecord(start, recs, freed, ino, i, d);
      icache := icache[ip := icache[ip].(rec := d)];
      ino := ino[i := d];
      EmptyIsDense(freed, d);
      Iupdate(ip);
      AllKeptAfter(start, recs, freed, ino, D(), i);
      FilesAfter(start, recs, D(), ino, i, []);
    }

    /** iput is about to drop the last reference to an inode no directory links to. */
    ghost predicate LastOfUnlinked(ip: nat)
      reads this`icache
    {
      ip < |icache| && icache[ip].valid && icache[ip].rec.nlink == 0 && icache[ip].ref == 1
    }

    /** What iput does then: the file is emptied, its inode freed on the disk and its entry made invalid. */
    method Reclaim(ip: nat)
      requires Ref(ip) && Sound({}) && Locked(ip) && Room(2)
      modifies this`sb, this`icache, this`ino, this`owner, cache, cache.ide
      ensures sb == old(sb) && cache.held == old(cache.held) && Sound({}) && Inum(ip) == old(Inum(ip)) && Ref(ip)
      ensures |icache| == old(|icache|) && icache[ip].ref == old(icache[ip].ref)
      ensures forall e: nat :: e < |icache| && e != ip ==> icache[e] == old(icache)[e]
      ensures Inum(ip) < |old(Files())|
              && Files() == old(Files())[Inum(ip) := old(Files())[Inum(ip)].(typ := 0, bytes := [])]
      ensures |FreeSet(D(), sb)| == |old(FreeSet(D(), sb))| + Cost(0, BlocksFor(old(Rec(ip)).size))
    {
      hide FileSystem.Base, FileSystem.D, Agree, Laid, FreeSet, OthersKept, FileBytes, BlocksFor, Dense, Cached, Cost;
      ghost var i := Inum(ip);
      Itrunc(ip);
      ghost var mid, midRecs := D(), ino;
      var d := icache[ip].rec.(typ := 0);
      AgreeFacts(mid, sb, ino, owner, icache, refs, entry, {});
      AgreeClean(mid, sb, ino, owner, icache, refs, entry, i);
      AgreeWithFields(mid, sb, ino, owner, icache, refs, entry, ip, d);
      OthersKeptRefl(mid, ino, i);
      OthersKeptWithRecord(mid, ino, mid, ino, i, d);
      EmptyIsDense(mid, d);
      icache := icache[ip := icache[ip].(rec := d)];
      ino := ino[i := d];
      Iupdate(ip);
      AllKeptAfter(mid, midRecs, mid, ino, D(), i);
      FilesAfter(mid, midRecs, D(), ino, i, []);
      AgreeUnloaded(D(), sb, ino, owner, icache, refs, entry, ip);
      icache := icache[ip := icache[ip].(valid := false)];
    }

    /** One reference fewer. */
    method DropRef(ip: nat)
      requires Sound({}) && Ref(ip)
      modifies this`icache, this`refs, this`entry
      ensures Sound({}) && refs == old(refs) - multiset{old(Inum(ip))}
      ensures icache == old(icache)[ip := old(icache[ip]).(ref := old(icache[ip].ref) - 1)]
    {
      hide FileSystem.Base, FileSystem.D, Agree, Laid, Dropped;
      AgreeFacts(D(), sb, ino, owner, icache, refs, entry, {});
      AgreeAfterDrop(D(), sb, ino, owner, icache, refs, entry, ip);
      ghost var left := Dropped(icache, entry, ip);
      refs := refs - multiset{icache[ip].inum};
      entry := left;
      icache := icache[ip := icache[ip].(ref := icache[ip].ref - 1)];
    }

    /** Drops one reference; an inode losing its last one with no links left is freed. */
    method Iput(ip: nat)
      requires Sound({}) && Ref(ip) && Room(2)
      modifies this`sb, this`icache, this`ino, this`owner, this`refs, this`entry, cache, cache.ide
      ensures sb == old(sb) && cache.held == old(cache.held) && Sound({}) && refs == old(refs) - multiset{old(Inum(ip))}
      ensures |icache| == old(|icache|) && icache[ip].ref == old(icache[ip].ref) - 1 && Inum(ip) == old(Inum(ip))
      ensures forall e: nat :: e < |icache| && e != ip ==> icache[e] == old(icache)[e]
      ensures Steady(old(icache), icache)
      ensures !old(LastOfUnlinked(ip)) ==> D() == old(D()) && ino == old(ino) && owner == old(owner)
      ensures old(LastOfUnlinked(ip)) ==>
                && old(Inum(ip)) < |old(Files())|
                && Files() == old(Files())[old(Inum(ip)) := old(Files())[old(Inum(ip))].(typ := 0, bytes := [])]
                && |FreeSet(D(), sb)| == |old(FreeSet(D(), sb))| + Cost(0, BlocksFor(old(Rec(ip)).size))
    {
      hide FileSystem.Base, FileSystem.D, FileSystem.Files, Agree, Laid, FreeSet, BlocksFor, Cost, Steady;
      ghost var start := icache;
      AgreeFacts(D(), sb, ino, owner, icache, refs, entry, {});
      AgreeLocked(D(), sb, ino, owner, icache, refs, entry, ip);
      if icache[ip].valid && icache[ip].rec.nlink == 0 {
        if icache[ip].ref == 1 {
          Reclaim(ip);
        }
      }
      DropRef(ip);
      SteadyAfterDrop(start, icache, ip);
    }

    /** One turn of readi's loop. */
    method CopyOut(ip: nat, off: nat, m: nat, ghost len: nat) returns (chunk: seq<byte>)
      requires Ref(ip) && Sound({Inum(ip)}) && Locked(ip) && Room(2)
      requires off < len && off % BSIZE + m <= BSIZE && off + m <= len && NoHoles(D(), Ino(Inum(ip)), BlocksFor(len))
      modifies this`icache, this`ino, this`owner, cache, cache.ide
      ensures cache.held == old(cache.held) && Sound({Inum(ip)}) && D() == old(D()) && ino == old(ino)
                && icache == old(icache)
      ensures owner == old(owner)
      ensures chunk == FileBytes(D(), Ino(Inum(ip)), len)[off..off + m]
    {
      hide FileSystem.Base, FileSystem.D, FileSystem.Has, Laid, Agree, FreeSet, NoHoles, FileBytes, Addr, BlocksFor;
      ghost var i, nb := Inum(ip), BlocksFor(len);
      BlockBelow(off, len);
      AgreeFacts(D(), sb, ino, owner, icache, refs, entry, {i});
      NoHolesBound(D(), ino[i], nb);
      var a := Bmap(ip, off / BSIZE, nb);
      var bp := Read(a);
      ChunkRead(D(), ino[i], nb, len, off, m);
      chunk := cache.Data(bp)[off % BSIZE..off % BSIZE + m];
      Release(bp, a);
    }

    /** The loop of readi. */
    method ReadLoop(ip: nat, off: nat, n: nat, ghost len: nat) returns (dst: seq<byte>)
      requires Ref(ip) && Sound({Inum(ip)}) && Locked(ip) && Room(2)
      requires off + n <= len && NoHoles(D(), Ino(Inum(ip)), BlocksFor(len))
      modifies this`icache, this`ino, this`owner, cache, cache.ide
      ensures cache.held == old(cache.held) && Sound({Inum(ip)}) && D() == old(D()) && ino == old(ino)
                && icache == old(icache)
      ensures owner == old(owner)
      ensures dst == FileBytes(D(), Ino(Inum(ip)), len)[off..off + n]
    {
      hide FileSystem.Base, FileSystem.D, Agree, NoHoles, FileBytes, BlocksFor;
      ghost var i := Inum(ip);
      var tot, pos := 0, off;
      dst := [];
      while tot < n
        invariant 0 <= tot <= n && pos == off + tot && off + n <= len
        invariant cache.held == old(cache.held) && Sound({i}) && D() == old(D()) && ino == old(ino)
                    && icache == old(icache)
        invariant owner == old(owner)
        invariant dst == FileBytes(D(), Ino(i), len)[off..pos]
      {
        var m := if n - tot < BSIZE - pos % BSIZE then n - tot else BSIZE - pos % BSIZE;
        var chunk := CopyOut(ip, pos, m, len);
        dst := dst + chunk;
        tot, pos := tot + m, pos + m;
      }
    }

    /** The loop of writei. */
    method WriteLoop(ip: nat, src: seq<byte>, start: u32, size: u32)
      requires Ref(ip) && Sound({Inum(ip)}) && Locked(ip) && Room(2)
      requires start <= size && start + |src| <= MAXFILE * BSIZE && NoHoles(D(), Ino(Inum(ip)), BlocksFor(size))
      requires |FreeSet(D(), sb)| >= Cost(BlocksFor(size), BlocksFor(Max(size, start + |src|)))
      modifies this`icache, this`ino, this`owner, cache, cache.ide
      ensures cache.held == old(cache.held) && Sound({Inum(ip)}) && Inum(ip) == old(Inum(ip)) && Locked(ip)
      ensures NoHoles(D(), Ino(Inum(ip)), BlocksFor(Max(size, start + |src|)))
      ensures OthersKept(old(D()), old(ino), D(), ino, Inum(ip)) && WithRec(old(icache), old(ino), ip, Rec(ip))
      ensures Rec(ip) == old(Rec(ip)).(addrs := Rec(ip).addrs)
      ensures FileBytes(D(), Ino(Inum(ip)), Max(size, start + |src|)) ==
              Splice(old(FileBytes(D(), Ino(Inum(ip)), size)), start, src)
      ensures |FreeSet(D(), sb)| == |old(FreeSet(D(), sb))| - Cost(BlocksFor(size), BlocksFor(Max(size, start + |src|)))
      ensures start + |src| <= size ==> ino == old(ino) && Dino(D(), sb, Inum(ip)) == old(Dino(D(), sb, Inum(ip)))
    {
      hide FileSystem.Base, FileSystem.D, Laid, Agree, FreeSet, NoHoles, FileBytes, Dino, OthersKept, Splice,
           BlocksFor, Cost, FileSystem.Spliced;
      var n, tot, off := |src|, 0, start;
      ghost var D0, ino0, icache0, free0 := D(), ino, icache, |FreeSet(D(), sb)|;
      NothingSpliced(ip, size, start);
      assert src[..0] == [];
      while tot < n
        invariant 0 <= tot <= n && off == start + tot && cache.held == old(cache.held)
        invariant Spliced(ip, D0, ino0, icache0, free0, size, start, src[..tot])
      {
        var m := if n - tot < BSIZE - off % BSIZE then n - tot else BSIZE - off % BSIZE;
        CostAdds(size, size, Max(size, off + m), Max(size, start + n));
        WriteTurn(ip, off, src[tot..tot + m], src[..tot], size, start, D0, ino0, icache0, free0);
        assert src[..tot] + src[tot..tot + m] == src[..tot + m];
        tot, off := tot + m, off + m;
      }
      assert src[..n] == src;
      SplicedFacts(ip, D0, ino0, icache0, free0, size, start, src);
    }

    /** src has been spliced in at start of the file of size bytes that (D0, ino0) had at ip. */
    ghost predicate Spliced(ip: nat, D0: Blocks, ino0: seq<Dinode>, icache0: seq<Inode>, free0: nat, size: nat,
          start: nat, src: seq<byte>)
      reads this, cache, cache.ide
    {
      && Ref(ip) && Sound({Inum(ip)}) && Locked(ip) && Room(2) && Inum(ip) < |ino0| && start <= size
      && NoHoles(D(), Ino(Inum(ip)), BlocksFor(Max(size, start + |src|)))
      && OthersKept(D0, ino0, D(), ino, Inum(ip)) && WithRec(icache0, ino0, ip, Rec(ip))
      && Rec(ip) == ino0[Inum(ip)].(addrs := Rec(ip).addrs)
      && FileBytes(D(), Ino(Inum(ip)), Max(size, start + |src|)) ==
          Splice(FileBytes(D0, ino0[Inum(ip)], size), start, src)
      && |FreeSet(D(), sb)| == free0 - Cost(BlocksFor(size), BlocksFor(Max(size, start + |src|)))
      && (start + |src| <= size ==> ino == ino0 && Dino(D(), sb, Inum(ip)) == Dino(D0, sb, Inum(ip)))
    }

    lemma NothingSpliced(ip: nat, size: nat, start: nat)
      requires Ref(ip) && Sound({Inum(ip)}) && Locked(ip) && Room(2) && start <= size
          && NoHoles(D(), Ino(Inum(ip)), BlocksFor(size))
      ensures Spliced(ip, D(), ino, icache, |FreeSet(D(), sb)|, size, start, [])
    {
      hide FileSystem.Sound, FreeSet, NoHoles, FileBytes, Dino, OthersKept, Splice, BlocksFor, Cost;
      SpliceNothing(FileBytes(D(), Ino(Inum(ip)), size), start);
      OthersKeptRefl(D(), ino, Inum(ip));
      CostZero(BlocksFor(size));
    }

    lemma SplicedFacts(ip: nat, D0: Blocks, ino0: seq<Dinode>, icache0: seq<Inode>, free0: nat, size: nat, start: nat,
          src: seq<byte>)
      requires Spliced(ip, D0, ino0, icache0, free0, size, start, src)
      ensures Sound({Inum(ip)}) && Locked(ip) && Inum(ip) < |ino0| && start <= size
      ensures NoHoles(D(), Ino(Inum(ip)), BlocksFor(Max(size, start + |src|)))
      ensures OthersKept(D0, ino0, D(), ino, Inum(ip)) && WithRec(icache0, ino0, ip, Rec(ip))
      ensures Rec(ip) == ino0[Inum(ip)].(addrs := Rec(ip).addrs)
      ensures FileBytes(D(), Ino(Inum(ip)), Max(size, start + |src|)) ==
                Splice(FileBytes(D0, ino0[Inum(ip)], size), start, src)
      ensures |FreeSet(D(), sb)| == free0 - Cost(BlocksFor(size), BlocksFor(Max(size, start + |src|)))
      ensures start + |src| <= size ==> ino == ino0 && Dino(D(), sb, Inum(ip)) == Dino(D0, sb, Inum(ip))
    {
      hide FileSystem.Sound, FreeSet, NoHoles, FileBytes, Dino, OthersKept, Splice, BlocksFor, Cost;
    }

    /** One turn of the loop. */
    method WriteTurn(ip: nat, off: nat, chunk: seq<byte>, ghost src: seq<byte>, ghost size: nat, ghost start: nat,
          ghost D0: Blocks, ghost ino0: seq<Dinode>, ghost icache0: seq<Inode>, ghost free0: nat)
      requires Spliced(ip, D0, ino0, icache0, free0, size, start, src) && off == start + |src|
      requires |chunk| > 0 && off % BSIZE + |chunk| <= BSIZE && off + |chunk| <= MAXFILE * BSIZE
      requires free0 >= Cost(BlocksFor(size), BlocksFor(Max(size, off + |chunk|)))
      modifies this`icache, this`ino, this`owner, cache, cache.ide
      ensures cache.held == old(cache.held) && Spliced(ip, D0, ino0, icache0, free0, size, start, src + chunk)
    {
      hide FileSystem.Base, FileSystem.D, Laid, Agree, FreeSet, NoHoles, FileBytes, Dino, OthersKept, Splice,
           BlocksFor, Cost;
      ghost var i, len, before, beforeIno := Inum(ip), Max(size, off), D(), ino;
      CostAdds(size, len, Max(size, off + |chunk|), Max(size, off + |chunk|));
      CopyIn(ip, off, chunk, len);
      OthersKeptTrans(D0, ino0, before, beforeIno, D(), ino, i);
      SpliceAppend(FileBytes(D0, ino0[i], size), start, src, chunk);
    }
  }
}
