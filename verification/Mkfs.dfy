/** The image builder: it writes a file system without the kernel's code, marking the bitmap only
    at the end. */
module Mkfs {
  import opened Bytes
  import opened Layout
  import opened FsState
  import opened FsInodes

  const NINODES: nat := 200
  const LOGSIZE: nat := 30
  const NBITMAP: nat := FSSIZE / (BSIZE * 8) + 1
  const NINODEBLOCKS: nat := NINODES / IPB + 1
  const NMETA: nat := 2 + LOGSIZE + NINODEBLOCKS + NBITMAP

  const SB: Superblock := Superblock(FSSIZE, FSSIZE - NMETA, NINODES, LOGSIZE, 2, 2 + LOGSIZE,
      2 + LOGSIZE + NINODEBLOCKS)

  // ---------- the bitmap to come ----------

  /** A bitmap block with the first used bits set. */
  function MarkBits(used: nat): Block
    requires used <= BPB
  {
    if used == 0 then Zeros(BSIZE) else SetMapBit(MarkBits(used - 1), used - 1, true)
  }

  lemma {:induction false} MarkBitsAre(used: nat, x: nat)
    requires used <= BPB && x < BPB
    ensures MapBit(MarkBits(used), x) <==> x < used
  {
    if used == 0 {
      BitOfZero(x % 8);
    } else {
      MarkBitsAre(used - 1, x);
      MapBitSetMapBit(MarkBits(used - 1), used - 1, true, x);
    }
  }

  /** The sectors with their bitmap as mkfs will write it. */
  function Marked(sectors: Blocks, used: nat): (D: Blocks)
    requires used <= BPB && |sectors| == FSSIZE
    ensures |D| == FSSIZE
  {
    sectors[SB.bmapstart := MarkBits(used)]
  }

  lemma MarkedBits(sectors: Blocks, used: nat, b: nat)
    requires used <= BPB && |sectors| == FSSIZE && b < FSSIZE
    ensures Bit(Marked(sectors, used), SB, b) <==> b < used
  {
    hide MarkBits;
    MarkBitsAre(used, b);
  }

  lemma MarkedIsLaid(sectors: Blocks, used: nat)
    requires used <= BPB && |sectors| == FSSIZE
    ensures Laid(Marked(sectors, used), SB) && SB.DataStart() == NMETA
  {
  }

  /** Handing out the next block is what the kernel's balloc would do. */
  lemma MarkedNext(sectors: Blocks, b: nat)
    requires |sectors| == FSSIZE && NMETA <= b < FSSIZE && sectors[b] == Zeros(BSIZE)
    ensures Allocated(Marked(sectors, b), SB, b) == Marked(sectors, b + 1)
  {
    hide SetMapBit;
    assert BitBlock(SB, b) == SB.bmapstart && b % BPB == b;
    assert MarkBits(b + 1) == SetMapBit(MarkBits(b), b, true);
    assert Marked(sectors, b + 1)[b] == Zeros(BSIZE);
  }

  /** Free blocks are those not handed out. */
  lemma FreeCount(sectors: Blocks, used: nat)
    requires |sectors| == FSSIZE && used <= FSSIZE
    ensures |FreeSet(Marked(sectors, used), SB)| == FSSIZE - used
  {
    hide MarkBits, Bit;
    forall b: nat | b < FSSIZE ensures Bit(Marked(sectors, used), SB, b) <==> b < used {
      MarkedBits(sectors, used, b);
    }
    assert FreeSet(Marked(sectors, used), SB) == Interval(used, FSSIZE);
  }

  function Interval(lo: nat, hi: nat): (s: set<nat>)
    requires lo <= hi
    ensures |s| == hi - lo && forall b: nat :: b in s <==> lo <= b < hi
    decreases hi - lo
  {
    if lo == hi then {} else {lo} + Interval(lo + 1, hi)
  }

  // ---------- tails ----------

  /** The last block of a file is zero past its end. */
  ghost predicate TailZero(D: Blocks, d: Dinode) {
    forall p: nat :: d.size <= p < BSIZE * BlocksFor(d.size) ==> ByteAt(D, d, p) == 0
  }

  ghost predicate Tails(D: Blocks, ino: seq<Dinode>, dirty: set<nat>) {
    forall i: nat :: i < |ino| && i !in dirty ==> TailZero(D, ino[i])
  }

  lemma SameTail(D: Blocks, E: Blocks, d: Dinode)
    requires Kept(D, E, d) && TailZero(D, d) && BlocksFor(d.size) <= MAXFILE
    ensures TailZero(E, d)
  {
    hide Slot;
    var l, r := FileBytes(E, d, MAXFILE * BSIZE), FileBytes(D, d, MAXFILE * BSIZE);
    forall p: nat | d.size <= p < BSIZE * BlocksFor(d.size) ensures ByteAt(E, d, p) == 0 {
      assert p < MAXFILE * BSIZE && l[p] == r[p];
    }
  }

  /** Files of clean inodes fit. */
  lemma CleanFits(D: Blocks, ino: seq<Dinode>, dirty: set<nat>, i: nat)
    requires Synced(D, SB, ino, dirty) && i < |ino| && i !in dirty
    ensures Dino(D, SB, i) == ino[i] && Dense(D, ino[i]) && BlocksFor(ino[i].size) <= MAXFILE
  {
    hide Dino, Slot;
  }

  lemma TailsKept(D: Blocks, ino: seq<Dinode>, E: Blocks, inoE: seq<Dinode>, i: nat, dirty: set<nat>)
    requires OthersKept(D, ino, E, inoE, i) && Tails(D, ino, dirty) && Synced(D, SB, ino, dirty)
    ensures Tails(E, inoE, dirty + {i})
  {
    hide Kept, Dense, Dino, TailZero;
    forall j: nat | j < |inoE| && j !in dirty + {i} ensures TailZero(E, inoE[j]) {
      CleanFits(D, ino, dirty, j);
      SameTail(D, E, ino[j]);
    }
  }

  /** Content and zeros up to the end of the last block. */
  ghost predicate Holds(D: Blocks, d: Dinode, content: seq<byte>) {
    FileBytes(D, d, BSIZE * BlocksFor(|content|)) == content + Zeros(BSIZE * BlocksFor(|content|) - |content|)
  }

  /** ... up to the end of block nb. */
  ghost predicate HoldsTo(D: Blocks, d: Dinode, content: seq<byte>, nb: nat) {
    |content| <= BSIZE * nb && FileBytes(D, d, BSIZE * nb) == content + Zeros(BSIZE * nb - |content|)
  }

  lemma HoldsFromTail(D: Blocks, d: Dinode)
    requires TailZero(D, d)
    ensures Holds(D, d, FileBytes(D, d, d.size))
  {
    hide ByteAt;
  }

  lemma TailFromHolds(D: Blocks, d: Dinode, content: seq<byte>)
    requires Holds(D, d, content) && d.size == |content|
    ensures TailZero(D, d) && FileBytes(D, d, d.size) == content
  {
    hide ByteAt;
    var s := FileBytes(D, d, BSIZE * BlocksFor(|content|));
    forall p: nat | p < BSIZE * BlocksFor(d.size) ensures ByteAt(D, d, p) == if p < |content| then content[p] else 0 {
      assert s[p] == ByteAt(D, d, p);
    }
  }

  /** Appending within, or just past, the blocks there are. */
  lemma HoldsAppended(D: Blocks, d: Dinode, E: Blocks, e: Dinode, content: seq<byte>, chunk: seq<byte>)
    requires 0 < |chunk| && |content| % BSIZE + |chunk| <= BSIZE
    requires FileBytes(D, d,
          BSIZE * BlocksFor(|content| + |chunk|)) == content + Zeros(BSIZE * BlocksFor(|content| + |chunk|) - |content|)
    requires FileBytes(E, e, BSIZE * BlocksFor(|content| + |chunk|)) == Splice(FileBytes(D, d,
          BSIZE * BlocksFor(|content| + |chunk|)), |content|, chunk)
    ensures Holds(E, e, content + chunk)
  {
    hide ByteAt;
  }

  /** A new zero block after full ones. */
  lemma HoldsGrown(D: Blocks, ino: seq<Dinode>, E: Blocks, inoE: seq<Dinode>, i: nat, content: seq<byte>, nb: nat)
    requires i < |ino| && Holds(D, ino[i], content) && Grew(D, ino, E, inoE, i, nb) && |content| == BSIZE * nb
    ensures i < |inoE| && HoldsTo(E, inoE[i], content, nb + 1)
  {
    hide Addr;
    var s, t := FileBytes(E, inoE[i], BSIZE * (nb + 1)), FileBytes(D, ino[i], BSIZE * BlocksFor(|content|));
    assert BlocksFor(|content|) == nb;
    forall p: nat | p < BSIZE * (nb + 1) ensures s[p] == if p < BSIZE * nb then content[p] else 0 {
      if p < BSIZE * nb {
        assert t[p] == ByteAt(D, ino[i], p) == content[p];
      } else {
        assert p / BSIZE == nb;
      }
    }
  }

  // ---------- records ----------

  /** winode: the record of inode i becomes d, which has the same blocks. */
  lemma RecordPut(D: Blocks, ino: seq<Dinode>, owner: Owner, i: nat, d: Dinode)
    requires Owned(D, SB, ino, owner) && Synced(D, SB, ino, {i}) && i < |ino| && d.addrs == ino[i].addrs
    ensures var E, inoE := WithDinode(D, SB, i, d), ino[i := d];
            && Owned(E, SB, inoE, owner) && Synced(E, SB, inoE, {i}) && Dino(E, SB, i) == d
            && OthersKept(D, ino, E, inoE, i) && Kept(D, E, d) && E[1] == D[1]
            && (Dense(E, d) <==> Dense(D, d))
            && 2 <= InodeBlock(SB, i) < SB.bmapstart
            && E == D[InodeBlock(SB, i) := PutDinode(D[InodeBlock(SB, i)], i % IPB, d)]
  {
    hide Dino, FileBytes, Slot, Kept, Dense, WithDinode, PutDinode, Bit;
    var inoE := ino[i := d];
    LaidIfOwned(D, SB, ino, owner);
    WhereThingsAre(D, SB);
    forall j: nat, l: nat | j < |ino| && l < NSLOT ensures Slot(D, inoE[j], l) == Slot(D, ino[j], l) {
      SlotByAddrs(D, ino[j], inoE[j], l);
    }
    OwnedSame(D, D, SB, ino, inoE, owner);
    InodeWritten(D, SB, inoE, owner, i, d);
    var E := WithDinode(D, SB, i, d);
    assert inoE[i] == d;
    OthersKeptRefl(D, ino, i);
    OthersKeptWithRecord(D, ino, D, ino, i, d);
    KeptByAll(D, inoE, E, i, d);
    assert inoE[i := d] == inoE;
    OthersKeptTrans(D, ino, D, inoE, E, inoE, i);
    KeptBothWays(D, E, d);
    forall j: nat | j < |inoE| && j !in {i} ensures Dino(E, SB, j) == inoE[j] && Dense(E, inoE[j]) {
      DinoWithDinode(D, SB, i, d, j);
      KeptFromOthers(D, ino, E, inoE, i, j);
      KeptDense(D, E, ino[j]);
    }
    DinoWithDinode(D, SB, i, d, i);
  }

  lemma KeptBothWays(D: Blocks, E: Blocks, d: Dinode)
    requires Kept(D, E, d)
    ensures Kept(E, D, d) && (Dense(E, d) <==> Dense(D, d))
  {
    hide Slot, FileBytes, Dense;
    if Dense(D, d) {
      KeptDense(D, E, d);
    }
    if Dense(E, d) {
      KeptDense(E, D, d);
    }
  }

  // ---------- the builder ----------

  /** A stand-in for the kernel's cache entry of inode i, to use its lemmas. */
  ghost function OneOpen(i: nat): seq<Inode> {
    EmptyIcache()[0 := Inode(ROOTDEV, i, 1, false, FreshDinode(0))]
  }

  lemma AgreeOpen(D: Blocks, ino: seq<Dinode>, owner: Owner, i: nat)
    requires Owned(D, SB, ino, owner) && Synced(D, SB, ino, {i}) && i < |ino|
    ensures Agree(D, SB, ino, owner, OneOpen(i), multiset{i}, map[i := 0], {i})
    ensures OneOpen(i)[0].inum == i && OneOpen(i)[0].ref > 0 && |OneOpen(i)| == NINODE
  {
    hide Owned, Synced;
  }

  /** Inodes from the next on are free. */
  ghost predicate Unmade(ino: seq<Dinode>, next: nat) {
    |ino| == NINODES && forall i: nat :: next <= i < NINODES ==> ino[i] == FreshDinode(0)
  }

  class Builder {
    var sectors: Blocks
    var freeinode: u32
    var freeblock: u32
    ghost var ino: seq<Dinode>      // every inode as it will be
    ghost var owner: Owner

    /** The disk as it will be once the bitmap is written. */
    ghost function Disk(): Blocks
      reads this`sectors, this`freeblock
    {
      if freeblock <= FSSIZE && |sectors| == FSSIZE then Marked(sectors, freeblock) else []
    }

    ghost predicate Sound(dirty: set<nat>)
      reads this
    {
      && |sectors| == FSSIZE && NMETA <= freeblock <= FSSIZE && 1 <= freeinode <= NINODES
      && GetSuper(sectors[1]) == SB
      && (forall b: nat :: freeblock <= b < FSSIZE ==> sectors[b] == Zeros(BSIZE))
      && Owned(Disk(), SB, ino, owner) && Synced(Disk(), SB, ino, dirty) && Tails(Disk(), ino, dirty)
      && Unmade(ino, freeinode)
    }

    /** Every inode as a file. */
    ghost function Files(): (f: seq<File>)
      reads this
      ensures |f| == |ino|
    {
      FilesOf(Disk(), ino)
    }

    // ---------- sectors and records ----------

    method Winode(i: nat, d: Dinode)
      requires |sectors| == FSSIZE && i < NINODES
      modifies this`sectors
      ensures sectors == WithDinode(old(sectors), SB, i, d)
    {
      var bn := InodeBlock(SB, i);
      sectors := sectors[bn := PutDinode(sectors[bn], i % IPB, d)];
    }

    method Rinode(i: nat) returns (d: Dinode)
      requires |sectors| == FSSIZE && i < NINODES
      ensures d == Dino(sectors, SB, i)
    {
      d := GetDinode(sectors[InodeBlock(SB, i)], i % IPB);
    }

    /** The record of inode i becomes d, which has the same blocks. */
    method PutRecord(i: nat, d: Dinode)
      requires Sound({i}) && i < |ino| && d.addrs == ino[i].addrs && Dense(Disk(), d) && TailZero(Disk(), d)
      requires freeinode <= i ==> ino[i] == d
      modifies this`sectors, this`ino
      ensures Sound({}) && ino == old(ino)[i := d] && OthersKept(old(Disk()), old(ino), Disk(), ino, i)
      ensures FileBytes(Disk(), d, d.size) == FileBytes(old(Disk()), d, d.size)
    {
      hide Owned, Synced, Dense, FileBytes, GetSuper, PutDinode, Marked, TailZero, Tails, Kept, OthersKept;
      InodesFit(Disk(), ino, owner);
      RecordPut(Disk(), ino, owner, i, d);
      MarkedElsewhere(sectors, freeblock, i, d);
      ghost var D, ino0 := Disk(), ino;
      Winode(i, d);
      ino := ino[i := d];
      TailsKept(D, ino0, Disk(), ino, i, {i});
      AllClean(D, Disk(), ino, i, d);
    }

    /** The next inode, of this type, with one link and no bytes. */
    method Inoalloc(typ: u16) returns (inum: nat)
      requires Sound({}) && freeinode < NINODES && typ != 0
      modifies this`sectors, this`freeinode, this`ino
      ensures Sound({}) && inum == old(freeinode) && freeinode == old(freeinode) + 1
      ensures inum < |old(Files())| && Files() == old(Files())[inum := File(typ, 0, 0, 1, [])]
    {
      hide Owned, Synced, Dense, FileBytes, GetSuper, PutDinode, Marked, TailZero, Tails, OthersKept, FilesOf;
      InodesFit(Disk(), ino, owner);
      inum := freeinode;
      freeinode := freeinode + 1;
      var d: Dinode := FreshDinode(typ).(nlink := 1);
      ghost var D, ino0 := Disk(), ino;
      EmptyRecord(D, d);
      SoundMore(D, ino0, inum);
      PutRecord(inum, d);
      FilesAfter(D, ino0, Disk(), ino, inum, []);
    }

    // ---------- appending ----------

    /** The next block is handed out to slot k of the record. */
    method GiveSlot(inum: nat, din: Dinode, k: nat) returns (d: Dinode)
      requires Sound({inum}) && inum < |ino| && ino[inum] == din && inum < freeinode
      requires k <= INDIRECT && din.addrs[k] == 0 && freeblock < FSSIZE
      modifies this`freeblock, this`ino, this`owner
      ensures Sound({inum}) && freeblock == old(freeblock) + 1 && d == GiveRecord(din, k, old(freeblock))
      ensures ino == old(ino)[inum := d] && owner == old(owner)[old(freeblock) as nat := (inum, k)]
      ensures Disk() == Allocated(old(Disk()), SB, old(freeblock)) && !Bit(old(Disk()), SB, old(freeblock))
    {
      hide Owned, Synced, GetSuper, Marked, Tails, OthersKept, FilesOf, Bit, Allocated;
      ghost var D, ino0, b := Disk(), ino, freeblock;
      MarkedBits(sectors, b, b);
      MarkedNext(sectors, b);
      d := din.(addrs := din.addrs[k := freeblock]);
      freeblock := freeblock + 1;
      RecordGrown(D, ino0, owner, inum, k, b);
      ino := ino[inum := d];
      owner := owner[b as nat := (inum, k)];
    }

    /** An empty entry of the indirect block is given the next block and written back. */
    method EntrySlot(inum: nat, ghost din: Dinode, ind: u32, j: nat) returns (x: u32)
      requires Sound({inum}) && inum < |ino| && ino[inum] == din && inum < freeinode
      requires j < NINDIRECT && ind != 0 && ind == din.addrs[INDIRECT]
      requires Slot(Disk(), din, INDIRECT + 1 + j) == 0 ==> freeblock < FSSIZE
      modifies this`sectors, this`freeblock, this`owner
      ensures Sound({inum}) && x == Slot(Disk(), din, INDIRECT + 1 + j)
      ensures old(Slot(Disk(), din, INDIRECT + 1 + j)) != 0 ==>
                sectors == old(sectors) && freeblock == old(freeblock) && owner == old(owner)
      ensures old(Slot(Disk(), din, INDIRECT + 1 + j)) == 0 ==>
                && x == old(freeblock) && freeblock == x + 1 && !Bit(old(Disk()), SB, x)
                && Disk() == GiveEntry(old(Disk()), SB, x, ind, j)
                && owner == old(owner)[x as nat := (inum, INDIRECT + 1 + j)]
    {
      hide Owned, Synced, GetSuper, Tails, OthersKept, FilesOf, Bit, Slot, MarkBits, Allocated, PutWord;
      SlotFacts(Disk(), ino, owner, inum, INDIRECT);
      SlotInBlock(Disk(), din, j);
      MarkedBits(sectors, freeblock, ind);
      var indirect := sectors[ind];
      x := Word(indirect, j);
      if x == 0 {
        x := AddEntry(inum, din, ind, j);
      }
    }

    method AddEntry(inum: nat, ghost din: Dinode, ind: u32, j: nat) returns (x: u32)
      requires Sound({inum}) && inum < |ino| && ino[inum] == din && inum < freeinode && freeblock < FSSIZE
      requires j < NINDIRECT && ind != 0 && ind == din.addrs[INDIRECT] && Slot(Disk(), din, INDIRECT + 1 + j) == 0
      requires NMETA <= ind < freeblock
      modifies this`sectors, this`freeblock, this`owner
      ensures Sound({inum}) && x == Slot(Disk(), din, INDIRECT + 1 + j)
      ensures x == old(freeblock) && freeblock == x + 1 && !Bit(old(Disk()), SB, x)
      ensures Disk() == GiveEntry(old(Disk()), SB, x, ind, j)
      ensures owner == old(owner)[x as nat := (inum, INDIRECT + 1 + j)]
    {
      hide Owned, Synced, GetSuper, Tails, OthersKept, FilesOf, Bit, Slot, MarkBits, Allocated, PutWord;
      ghost var b := freeblock;
      MarkedBits(sectors, b, b);
      MarkedNext(sectors, b);
      EntryGrown(Disk(), ino, owner, inum, j, b);
      x := freeblock;
      freeblock := freeblock + 1;
      sectors := sectors[ind := PutWord(sectors[ind], j, x)];
      assert Disk() == Marked(old(sectors), b + 1)[ind := PutWord(old(sectors)[ind], j, x)];
      owner := owner[x as nat := (inum, INDIRECT + 1 + j)];
    }

    /** The sector of block fbn of a file that has nb blocks, fbn the last of them or the next:
        the lookups and allocations at the top of iappend's loop. */
    method BlockFor(inum: nat, din: Dinode, fbn: nat, ghost nb: nat) returns (x: u32, d: Dinode)
      requires Sound({inum}) && inum < |ino| && ino[inum] == din && inum < freeinode
      requires NoHoles(Disk(), din, nb) && fbn <= nb && fbn < MAXFILE
      requires fbn == nb ==> freeblock + BlocksTaken(fbn) <= FSSIZE
      modifies this`sectors, this`freeblock, this`ino, this`owner
      ensures Sound({inum}) && ino == old(ino)[inum := d] && x == Addr(Disk(), d, fbn) && NMETA <= x < freeblock
      ensures fbn < nb ==> sectors == old(sectors) && freeblock == old(freeblock) && d == din
      ensures fbn == nb ==>
                Grew(old(Disk()), old(ino), Disk(), ino, inum, nb) && freeblock == old(freeblock) + BlocksTaken(fbn)
    {
      hide Owned, Synced, GetSuper, Tails, OthersKept, FilesOf, Bit, Slot, Marked, Allocated, GiveEntry, Grew,
           Addr, NoHoles;
      ghost var D, ino0, owner0 := Disk(), ino, owner;
      AgreeOpen(D, ino, owner, inum);
      AddrIs(D, din, nb, fbn);
      d := din;
      if fbn < NDIRECT {
        if din.addrs[fbn] == 0 {
          d := GiveSlot(inum, din, fbn);
          DirectGrew(D, SB, ino0, owner0, OneOpen(inum), multiset{inum}, map[inum := 0], inum, nb, d.addrs[fbn]);
          GrewAddr(D, ino0, Disk(), ino, inum, nb);
          AddrIs(Disk(), ino[inum], nb + 1, fbn);
        }
        x := d.addrs[fbn];
        SlotFacts(Disk(), ino, owner, inum, fbn);
        MarkedBits(sectors, freeblock, x);
      } else {
        x, d := IndirectFor(inum, din, fbn, nb);
      }
    }

    /** ... beyond the direct blocks. */
    method IndirectFor(inum: nat, din: Dinode, fbn: nat, ghost nb: nat) returns (x: u32, d: Dinode)
      requires Sound({inum}) && inum < |ino| && ino[inum] == din && inum < freeinode
      requires NoHoles(Disk(), din, nb) && NDIRECT <= fbn <= nb && fbn < MAXFILE
      requires fbn == nb ==> freeblock + BlocksTaken(fbn) <= FSSIZE
      modifies this`sectors, this`freeblock, this`ino, this`owner
      ensures Sound({inum}) && ino == old(ino)[inum := d] && x == Addr(Disk(), d, fbn) && NMETA <= x < freeblock
      ensures fbn < nb ==> sectors == old(sectors) && freeblock == old(freeblock) && d == din
      ensures fbn == nb ==>
                Grew(old(Disk()), old(ino), Disk(), ino, inum, nb) && freeblock == old(freeblock) + BlocksTaken(fbn)
    {
      hide Owned, Synced, GetSuper, Tails, OthersKept, FilesOf, Bit, Slot, Marked, Allocated, GiveEntry, Grew,
           Addr, NoHoles, FreeSet, Agree;
      ghost var D, ino0, owner0 := Disk(), ino, owner;
      ghost var icache, refs, entry := OneOpen(inum), multiset{inum}, map[inum := 0];
      AgreeOpen(D, ino, owner, inum);
      AddrIs(D, din, nb, fbn);
      d := din;
      if din.addrs[INDIRECT] == 0 {
        d := GiveSlot(inum, din, INDIRECT);
      }
      var ind := d.addrs[INDIRECT];
      if fbn == nb {
        FreeCount(old(sectors), old(freeblock));
        SlotAtEnd(D, SB, ino0, owner0, icache, refs, entry, 0, fbn, ind);
      }
      x := EntrySlot(inum, d, ind, fbn - NDIRECT);
      SlotFacts(Disk(), ino, owner, inum, fbn + 1);
      MarkedBits(sectors, freeblock, x);
      if fbn == nb {
        if fbn == NDIRECT {
          ThirteenthGrew(D, SB, ino0, owner0, icache, refs, entry, 0, ind, x);
        } else {
          EntryGrew(D, SB, ino0, owner0, icache, refs, entry, inum, nb, x);
        }
        GrewAddr(D, ino0, Disk(), ino, inum, nb);
        AddrIs(Disk(), ino[inum], nb + 1, fbn);
      }
    }

    /** In the middle of iappend: din, not yet written back, is inode inum, whose blocks hold
        content; (D0, ino0) is what everything else still is. */
    ghost predicate Appending(inum: nat, din: Dinode, content: seq<byte>, D0: Blocks, ino0: seq<Dinode>)
      reads this
    {
      && Sound({inum}) && inum < |ino| && ino[inum] == din && inum < freeinode
      && NoHoles(Disk(), din, BlocksFor(|content|)) && Holds(Disk(), din, content)
      && OthersKept(D0, ino0, Disk(), ino, inum) && inum < |ino0| && din == ino0[inum].(addrs := din.addrs)
    }

    /** ... with room for more bytes in the blocks there are. */
    ghost predicate Extended(inum: nat, din: Dinode, content: seq<byte>, nb: nat, D0: Blocks, ino0: seq<Dinode>)
      reads this
    {
      && Sound({inum}) && inum < |ino| && ino[inum] == din && inum < freeinode
      && NoHoles(Disk(), din, nb) && HoldsTo(Disk(), din, content, nb)
      && OthersKept(D0, ino0, Disk(), ino, inum) && inum < |ino0| && din == ino0[inum].(addrs := din.addrs)
    }

    /** The block for the next m bytes. */
    method Extend(inum: nat, din: Dinode, off: nat, m: nat, ghost content: seq<byte>, ghost D0: Blocks,
          ghost ino0: seq<Dinode>)
      returns (x: u32, d: Dinode)
      requires Appending(inum, din, content, D0, ino0) && off == |content|
      requires 0 < m && off % BSIZE + m <= BSIZE && off + m <= MAXFILE * BSIZE
      requires freeblock + Cost(BlocksFor(off), BlocksFor(off + m)) <= FSSIZE
      modifies this`sectors, this`freeblock, this`ino, this`owner
      ensures Extended(inum, d, content, BlocksFor(off + m), D0, ino0)
      ensures freeblock == old(freeblock) + Cost(BlocksFor(off), BlocksFor(off + m))
      ensures off / BSIZE < MAXFILE && x == Addr(Disk(), d, off / BSIZE) && NMETA <= x < freeblock
    {
      hide Owned, Synced, GetSuper, Tails, OthersKept, FilesOf, Grew, Addr, NoHoles, FileBytes, MarkBits,
           Splice, BlocksFor, Cost, Unmade, Holds, HoldsTo, Builder.Sound;
      ghost var nb, V0, i0 := BlocksFor(off), Disk(), ino;
      ChunkBlocks(off, m);
      x, d := BlockFor(inum, din, off / BSIZE, nb);
      if off / BSIZE == nb {
        GrewBytes(V0, i0, Disk(), ino, inum, nb, off);
        HoldsGrown(V0, i0, Disk(), ino, inum, content, nb);
      } else {
        assert ino == i0;
        OthersKeptRefl(V0, i0, inum);
        HoldsFull(V0, din, content);
      }
      OthersKeptTrans(D0, ino0, V0, i0, Disk(), ino, inum);
    }

    /** One turn of iappend's loop: some bytes, all for one block. */
    method AppendChunk(inum: nat, din: Dinode, off: nat, chunk: seq<byte>, ghost content: seq<byte>, ghost D0: Blocks,
          ghost ino0: seq<Dinode>)
      returns (d: Dinode)
      requires Appending(inum, din, content, D0, ino0) && off == |content|
      requires 0 < |chunk| && off % BSIZE + |chunk| <= BSIZE && off + |chunk| <= MAXFILE * BSIZE
      requires freeblock + Cost(BlocksFor(off), BlocksFor(off + |chunk|)) <= FSSIZE
      modifies this`sectors, this`freeblock, this`ino, this`owner
      ensures Appending(inum, d, content + chunk, D0, ino0)
      ensures freeblock == old(freeblock) + Cost(BlocksFor(off), BlocksFor(off + |chunk|))
    {
      hide Owned, Synced, GetSuper, Tails, OthersKept, FilesOf, Addr, NoHoles, FileBytes, Holds, HoldsTo,
           MarkBits, Splice, BlocksFor, Cost, Unmade;
      var x;
      x, d := Extend(inum, din, off, |chunk|, content, D0, ino0);
      ghost var V1, before := Disk(), sectors;
      ChunkPut(V1, ino, owner, inum, content, chunk);
      sectors := sectors[x := Splice(sectors[x], off % BSIZE, chunk)];
      MarkedPut(before, sectors, freeblock, x);
      OthersKeptTrans(D0, ino0, V1, ino, Disk(), ino, inum);
    }

    /** The bytes of p, after those file inum has. */
    method Iappend(inum: nat, p: seq<byte>)
      requires Sound({}) && inum < freeinode && inum < |Files()| && Files()[inum].typ != 0
      requires var size := |Files()[inum].bytes|;
               && size + |p| <= MAXFILE * BSIZE
               && freeblock + Cost(BlocksFor(size), BlocksFor(size + |p|)) <= FSSIZE
      modifies this`sectors, this`freeblock, this`ino, this`owner
      ensures Sound({}) && inum < |old(Files())|
      ensures Files() == old(Files())[inum := old(Files())[inum].(bytes := old(Files())[inum].bytes + p)]
      ensures freeblock == old(freeblock)
                + Cost(BlocksFor(old(|Files()[inum].bytes|)), BlocksFor(old(|Files()[inum].bytes|) + |p|))
    {
      hide Owned, Synced, Tails, OthersKept, Addr, NoHoles, FileBytes, Holds, BlocksFor, Cost, Builder.Sound;
      var din := BeginAppend(inum);
      ghost var D0, ino0, start, base := Disk(), ino, freeblock, Files()[inum].bytes;
      var off, k := din.size, 0;
      assert base + p[..0] == base;
      CostZero(BlocksFor(|base|));
      while k < |p|
        invariant k <= |p| && off == |base| + k && off <= MAXFILE * BSIZE
        invariant Appending(inum, din, base + p[..k], D0, ino0)
        invariant freeblock == start + Cost(BlocksFor(|base|), BlocksFor(off))
      {
        var n1 := if |p| - k < BSIZE - off % BSIZE then |p| - k else BSIZE - off % BSIZE;
        CostAdds(|base|, off, off + n1, |base| + |p|);
        din := AppendChunk(inum, din, off, p[k..k + n1], base + p[..k], D0, ino0);
        assert base + p[..k] + p[k..k + n1] == base + p[..k + n1];
        off, k := off + n1, k + n1;
      }
      assert p[..k] == p;
      EndAppend(inum, din, off, base + p, D0, ino0);
    }

    /** Reads a record. */
    method BeginAppend(inum: nat) returns (din: Dinode)
      requires Sound({}) && inum < freeinode && inum < |ino|
      ensures inum < |Files()| && Appending(inum, din, Files()[inum].bytes, Disk(), ino)
      ensures din == ino[inum] && din.size == |Files()[inum].bytes|
    {
      hide Owned, Dense, GetSuper, Marked, OthersKept, FileBytes, Unmade, TailZero, Holds, NoHoles;
      InodesFit(Disk(), ino, owner);
      MarkedElsewhere(sectors, freeblock, inum, FreshDinode(0));
      CleanFits(Disk(), ino, {}, inum);
      din := Rinode(inum);
      SoundMore(Disk(), ino, inum);
      DenseIs(Disk(), din);
      HoldsFromTail(Disk(), din);
      OthersKeptRefl(Disk(), ino, inum);
    }

    /** The new size goes into the record, which is written back. */
    method EndAppend(inum: nat, din: Dinode, off: nat, ghost content: seq<byte>, ghost D0: Blocks,
          ghost ino0: seq<Dinode>)
      requires Appending(inum, din, content, D0, ino0) && off == |content| <= MAXFILE * BSIZE && din.typ != 0
      modifies this`sectors, this`ino
      ensures Sound({}) && FilesOf(Disk(), ino) == FilesOf(D0, ino0)[inum := FilesOf(D0, ino0)[inum].(bytes := content)]
    {
      hide Owned, Synced, Tails, OthersKept, NoHoles, FileBytes, Holds, Dense, Marked, GetSuper, Unmade,
           TailZero, FilesOf;
      ghost var D, i0 := Disk(), ino;
      var d := din.(size := off);
      DenseWithSize(D, din, off);
      HoldsByAddrs(D, din, d, content);
      TailFromHolds(D, d, content);
      PutRecord(inum, d);
      OthersKeptTrans(D0, ino0, D, i0, Disk(), ino, inum);
      FilesAfter(D0, ino0, Disk(), ino, inum, content);
      FieldsOf(D0, ino0, inum);
    }

    // ---------- the ends of main ----------

    /** Zeroed sectors and the superblock. */
    constructor ()
      ensures Sound({}) && freeblock == NMETA && freeinode == 1 && ino == seq(NINODES, _ => FreshDinode(0))
    {
      sectors := seq(FSSIZE, _ => Zeros(BSIZE))[1 := PutSuper(Zeros(BSIZE), SB)];
      freeinode, freeblock := 1, NMETA;
      ino, owner := seq(NINODES, _ => FreshDinode(0)), map[];
      new;
      hide FsState.Bit, PutSuper, GetSuper, MarkBits, ByteAt, Synced, Owned;
      GetPutSuper(Zeros(BSIZE), SB);
      EmptyDisk(sectors, ino);
    }

    /** The bitmap: the first used bits of one block. */
    method Balloc(used: nat)
      requires |sectors| == FSSIZE && used <= FSSIZE
      modifies this`sectors
      ensures sectors == Marked(old(sectors), used)
    {
      var buf: Block, i := Zeros(BSIZE), 0;
      while i < used
        invariant i <= used && buf == MarkBits(i)
      {
        buf := SetMapBit(buf, i, true);
        i := i + 1;
      }
      sectors := sectors[SB.bmapstart := buf];
    }

    /** Rounds the root's size up, always by at least a byte, and writes the bitmap.  The disk
        is sound exactly if the size was not a whole number of blocks. */
    method Finish()
      requires Sound({}) && ROOTINO < freeinode && Files()[ROOTINO].typ == T_DIR
      modifies this`sectors, this`ino
      ensures |sectors| == FSSIZE && sectors == Disk() && GetSuper(sectors[1]) == SB
      ensures Owned(sectors, SB, ino, owner) && Synced(sectors, SB, ino, {ROOTINO})
      ensures ROOTINO < |ino| && Dino(sectors, SB, ROOTINO) == ino[ROOTINO]
      ensures var off := |old(Files())[ROOTINO].bytes|;
              && ino[ROOTINO].size == Rounded(off)
              && (off % BSIZE == 0 ==> HoleAt(sectors, ino[ROOTINO], off / BSIZE))
              && RootExtended(old(Files()), FilesOf(sectors, ino))
              && (Synced(sectors, SB, ino, {}) <==> off % BSIZE != 0)
              && (off % BSIZE != 0 ==> FilesOf(sectors, ino) == RoundedRoot(old(Files())))
    {
      hide Owned, Synced, FilesOf, Rounded, GetSuper, MarkBits;
      RoundRoot();
      MarkedSuper(sectors, freeblock);
      Balloc(freeblock);
      MarkedTwice(sectors, freeblock);
    }

    /** The root's record is read, its size rounded up, and the record written back. */
    method RoundRoot()
      requires Sound({}) && ROOTINO < freeinode && Files()[ROOTINO].typ == T_DIR
      modifies this`sectors, this`ino
      ensures |sectors| == FSSIZE && GetSuper(sectors[1]) == SB
      ensures Owned(Disk(), SB, ino, owner) && Synced(Disk(), SB, ino, {ROOTINO})
      ensures ROOTINO < |ino| && Dino(Disk(), SB, ROOTINO) == ino[ROOTINO]
      ensures var off := |old(Files())[ROOTINO].bytes|;
              && ino[ROOTINO].size == Rounded(off)
              && (off % BSIZE == 0 ==> HoleAt(Disk(), ino[ROOTINO], off / BSIZE))
              && RootExtended(old(Files()), FilesOf(Disk(), ino))
              && (Synced(Disk(), SB, ino, {}) <==> off % BSIZE != 0)
              && (off % BSIZE != 0 ==> FilesOf(Disk(), ino) == RoundedRoot(old(Files())))
    {
      hide Owned, Tails, FileBytes, GetSuper, Unmade, FilesOf, Synced, Marked, WithDinode, Builder.Appending;
      InodesFit(Disk(), ino, owner);
      var din := BeginAppend(ROOTINO);
      RootRecordRounded(sectors, freeblock, ino, owner);
      var d := din.(size := (din.size / BSIZE + 1) * BSIZE);
      Winode(ROOTINO, d);
      ino := ino[ROOTINO := d];
    }
  }

  lemma InodesFit(D: Blocks, ino: seq<Dinode>, owner: Owner)
    requires Owned(D, SB, ino, owner)
    ensures |ino| == NINODES && Laid(D, SB)
  {
    hide Slot, Bit;
  }

  lemma EmptyRecord(D: Blocks, d: Dinode)
    requires d.addrs == NO_ADDRS && d.size == 0
    ensures Dense(D, d) && TailZero(D, d) && FileBytes(D, d, 0) == []
  {
    hide ByteAt;
    EmptyIsDense(D, d);
  }

  /** Clean inodes may be called dirty. */
  lemma SoundMore(D: Blocks, ino: seq<Dinode>, i: nat)
    ensures Synced(D, SB, ino, {}) ==> Synced(D, SB, ino, {i})
    ensures Tails(D, ino, {}) ==> Tails(D, ino, {i})
  {
    hide Dino, Dense, TailZero;
  }

  lemma SlotFacts(D: Blocks, ino: seq<Dinode>, owner: Owner, i: nat, k: nat)
    requires Owned(D, SB, ino, owner) && i < |ino| && k < NSLOT
    ensures Slot(D, ino[i], k) == 0 || NMETA <= Slot(D, ino[i], k) < FSSIZE == |D|
    ensures Slot(D, ino[i], k) != 0 ==> Bit(D, SB, Slot(D, ino[i], k))
    ensures Slot(D, ino[i], INDIRECT) == ino[i].addrs[INDIRECT]
  {
    hide Bit;
    SlotsAreOwned(D, SB, ino, owner, i, k);
  }

  lemma RecordGrown(D: Blocks, ino: seq<Dinode>, owner: Owner, i: nat, k: nat, b: u32)
    requires Owned(D, SB, ino, owner) && Synced(D, SB, ino, {i}) && Tails(D, ino, {i}) && i < |ino|
    requires k <= INDIRECT && ino[i].addrs[k] == 0 && b < FSSIZE && !Bit(D, SB, b)
    ensures var E, inoE := Allocated(D, SB, b), ino[i := GiveRecord(ino[i], k, b)];
            && Owned(E, SB, inoE, owner[b as nat := (i, k)]) && Synced(E, SB, inoE, {i}) && Tails(E, inoE, {i})
  {
    hide Owned, Synced, Tails, OthersKept, Bit, Allocated, Slot, FileBytes, Dino;
    var E, inoE := Allocated(D, SB, b), ino[i := GiveRecord(ino[i], k, b)];
    LaidIfOwned(D, SB, ino, owner);
    RecordSlotGiven(D, SB, ino, owner, b, i, k);
    AllocatedFacts(D, SB, b);
    DinosSame(D, E, SB, {BitBlock(SB, b), b as nat});
    SyncedWhenOthersKept(D, SB, ino, E, inoE, i, {i});
    TailsKept(D, ino, E, inoE, i, {i});
    assert {i} + {i} == {i};
  }

  lemma EntryGrown(D: Blocks, ino: seq<Dinode>, owner: Owner, i: nat, j: nat, b: u32)
    requires Owned(D, SB, ino, owner) && Synced(D, SB, ino, {i}) && Tails(D, ino, {i}) && i < |ino| && j < NINDIRECT
    requires ino[i].addrs[INDIRECT] != 0 && Slot(D, ino[i], INDIRECT + 1 + j) == 0 && b < FSSIZE && !Bit(D, SB, b)
    ensures var E := GiveEntry(D, SB, b, ino[i].addrs[INDIRECT], j);
            && Owned(E, SB, ino, owner[b as nat := (i, INDIRECT + 1 + j)]) && Synced(E, SB, ino, {i})
            && Tails(E, ino, {i})
            && Slot(E, ino[i], INDIRECT + 1 + j) == b
  {
    hide Owned, Synced, Tails, OthersKept, Bit, GiveEntry, Slot, FileBytes, Dino;
    var a: nat := ino[i].addrs[INDIRECT];
    var E := GiveEntry(D, SB, b, a, j);
    LaidIfOwned(D, SB, ino, owner);
    EntryGiven(D, SB, ino, owner, b, i, j);
    WhereThingsAre(D, SB);
    DinosSame(D, E, SB, {BitBlock(SB, b), b as nat, a});
    SyncedWhenOthersKept(D, SB, ino, E, ino, i, {i});
    TailsKept(D, ino, E, ino, i, {i});
    assert {i} + {i} == {i};
  }

  lemma ChunkBlocks(off: nat, m: nat)
    requires 0 < m && off % BSIZE + m <= BSIZE && off + m <= MAXFILE * BSIZE
    ensures var fbn, nb := off / BSIZE, BlocksFor(off);
            && fbn <= nb && fbn < MAXFILE && BlocksFor(off + m) == fbn + 1 && (fbn == nb ==> off == BSIZE * nb)
            && off <= nb * BSIZE
            && Cost(nb, fbn + 1) == (if fbn == nb then BlocksTaken(fbn) else 0) && (fbn < nb ==> nb == fbn + 1)
            && off - fbn * BSIZE == off % BSIZE
  {
  }

  lemma HoldsByAddrs(D: Blocks, d: Dinode, e: Dinode, content: seq<byte>)
    requires Holds(D, d, content) && d.addrs == e.addrs
    ensures Holds(D, e, content)
  {
    hide FileBytes;
    BytesByAddrs(D, d, e, BSIZE * BlocksFor(|content|));
  }

  lemma FieldsOf(D: Blocks, ino: seq<Dinode>, i: nat)
    requires i < |ino|
    ensures var f := FilesOf(D, ino)[i];
            && f.typ == ino[i].typ && f.nlink == ino[i].nlink && f.major == ino[i].major && f.minor == ino[i].minor
  {
    hide FileBytes;
  }

  /** A size after mkfs has rounded it: always up, to the next whole block. */
  function Rounded(off: nat): nat { (off / BSIZE + 1) * BSIZE }

  /** The files with the root's bytes filled up with zeros to its rounded size. */
  function RoundedRoot(F: seq<File>): seq<File>
    requires ROOTINO < |F|
  {
    var f := F[ROOTINO];
    F[ROOTINO := f.(bytes := f.bytes + Zeros(Rounded(|f.bytes|) - |f.bytes|))]
  }

  lemma RoundedFits(D: Blocks, ino: seq<Dinode>, i: nat)
    requires Synced(D, SB, ino, {}) && i < |ino|
    ensures ino[i].size <= MAXFILE * BSIZE && ino[i].size <= Rounded(ino[i].size) < 0x1_0000_0000
    ensures Dense(D, ino[i])
  {
    hide Slot, Dino;
  }

  /** The size covers block bn, and the record has no block there, unless no record could. */
  ghost predicate HoleAt(D: Blocks, d: Dinode, bn: nat) {
    BSIZE * bn < d.size && (bn < MAXFILE ==> Addr(D, d, bn) == 0)
  }

  lemma HoleAfterRounding(D: Blocks, d: Dinode, E: Blocks, e: Dinode)
    requires Dense(D, d) && d.typ != 0 && d.size % BSIZE == 0 && e == d.(size := Rounded(d.size)) && Kept(D, E, e)
    ensures HoleAt(E, e, BlocksFor(d.size))
  {
    hide Slot, FileBytes;
    var n := BlocksFor(d.size);
    if n < MAXFILE {
      SlotByAddrs(D, d, e, DataSlot(n));
      assert Addr(D, d, n) == 0;
    }
  }

  /** Rounding up makes a hole exactly when there was nothing to round: then the size claims one
      block that was never allocated. */
  lemma RoundingMakesHole(D: Blocks, d: Dinode)
    requires Dense(D, d) && d.typ != 0
    ensures Rounded(d.size) < 0x1_0000_0000
    ensures Dense(D, d.(size := Rounded(d.size))) <==> d.size % BSIZE != 0
  {
    hide Slot;
    var n, m := BlocksFor(d.size), BlocksFor(Rounded(d.size));
    forall bn: nat | bn < MAXFILE ensures Addr(D, d.(size := Rounded(d.size)), bn) == Addr(D, d, bn) {
      SlotByAddrs(D, d, d.(size := Rounded(d.size)), DataSlot(bn));
    }
    if d.size % BSIZE == 0 {
      assert m == n + 1;
      if n < MAXFILE {
        assert Addr(D, d, n) == 0;
      }
    } else {
      assert m == n;
    }
  }

  /** Of the files only the root has changed, by bytes added after those it had. */
  ghost predicate RootExtended(F: seq<File>, G: seq<File>) {
    && |G| == |F| > ROOTINO && F[ROOTINO].bytes <= G[ROOTINO].bytes
    && G == F[ROOTINO := F[ROOTINO].(bytes := G[ROOTINO].bytes)]
  }

  lemma RootOnlyExtended(D: Blocks, ino: seq<Dinode>, E: Blocks, d: Dinode)
    requires ROOTINO < |ino| && OthersKept(D, ino, E, ino[ROOTINO := d], ROOTINO) && Kept(D, E, d)
    requires d == ino[ROOTINO].(size := d.size) && ino[ROOTINO].size <= d.size && ino[ROOTINO].size <= MAXFILE * BSIZE
    ensures RootExtended(FilesOf(D, ino), FilesOf(E, ino[ROOTINO := d]))
  {
    hide OthersKept, Slot;
    var f, off := FileBytes(E, d, d.size), ino[ROOTINO].size;
    FilesAfter(D, ino, E, ino[ROOTINO := d], ROOTINO, f);
    BytesByAddrs(D, ino[ROOTINO], d, off);
    forall p: nat | p < off ensures f[p] == FileBytes(D, ino[ROOTINO], off)[p] {
      assert FileBytes(E, d, MAXFILE * BSIZE)[p] == FileBytes(D, d, MAXFILE * BSIZE)[p];
      assert FileBytes(D, d, off)[p] == FileBytes(D, ino[ROOTINO], off)[p];
    }
  }

  lemma RootRounded(D: Blocks, ino: seq<Dinode>, E: Blocks, d: Dinode)
    requires ROOTINO < |ino| && Dense(D, ino[ROOTINO]) && ino[ROOTINO].typ != 0 && TailZero(D, ino[ROOTINO])
    requires d == ino[ROOTINO].(size := Rounded(ino[ROOTINO].size)) && Kept(D, E, d) && (Dense(E, d) <==> Dense(D, d))
    requires OthersKept(D, ino, E, ino[ROOTINO := d], ROOTINO)
    requires ino[ROOTINO].size <= d.size && ino[ROOTINO].size <= MAXFILE * BSIZE
    ensures RootExtended(FilesOf(D, ino), FilesOf(E, ino[ROOTINO := d]))
    ensures var off := ino[ROOTINO].size;
            && (Dense(E, d) <==> off % BSIZE != 0)
            && (off % BSIZE != 0 ==>
                  FilesOf(E, ino[ROOTINO := d]) == RoundedRoot(FilesOf(D, ino)))
  {
    hide Dense, OthersKept, Slot, RootExtended;
    var off := ino[ROOTINO].size;
    RoundingMakesHole(D, ino[ROOTINO]);
    RootOnlyExtended(D, ino, E, d);
    if off % BSIZE != 0 {
      TailInFile(D, ino[ROOTINO], d);
      FilesAfter(D, ino, E, ino[ROOTINO := d], ROOTINO, FileBytes(D, ino[ROOTINO], off) + Zeros(Rounded(off) - off));
    }
  }

  lemma TailInFile(D: Blocks, d: Dinode, e: Dinode)
    requires TailZero(D, d) && Rounded(d.size) < 0x1_0000_0000 && e == d.(size := Rounded(d.size))
               && d.size % BSIZE != 0
    ensures FileBytes(D, e, e.size) == FileBytes(D, d, d.size) + Zeros(e.size - d.size)
  {
    BytesByAddrs(D, d, e, e.size);
    hide ByteAt;
    assert BSIZE * BlocksFor(d.size) == e.size;
    HoldsFromTail(D, d);
  }

  lemma SyncedIff(D: Blocks, ino: seq<Dinode>, i: nat)
    requires Synced(D, SB, ino, {i}) && i < |ino| && Dino(D, SB, i) == ino[i]
    ensures Synced(D, SB, ino, {}) <==> Dense(D, ino[i])
  {
    hide Dense, Dino;
  }

  lemma RootFacts(D: Blocks, ino: seq<Dinode>)
    requires Synced(D, SB, ino, {}) && Tails(D, ino, {}) && ROOTINO < |ino|
    ensures Dense(D, ino[ROOTINO]) && TailZero(D, ino[ROOTINO])
    ensures ino[ROOTINO].size <= MAXFILE * BSIZE && ino[ROOTINO].size <= Rounded(ino[ROOTINO].size) < 0x1_0000_0000
  {
    hide Dino, Dense, TailZero;
    RoundedFits(D, ino, ROOTINO);
  }

  lemma MarkedSuper(sectors: Blocks, used: nat)
    requires |sectors| == FSSIZE && used <= FSSIZE
    ensures Marked(sectors, used)[1] == sectors[1]
  {
    hide MarkBits;
  }

  lemma RootRecordRounded(sectors: Blocks, used: nat, ino: seq<Dinode>, owner: Owner)
    requires |sectors| == FSSIZE && NMETA <= used <= FSSIZE && |ino| == NINODES
    requires Owned(Marked(sectors, used), SB, ino, owner) && Synced(Marked(sectors, used), SB, ino, {})
        && Tails(Marked(sectors, used), ino, {})
    requires FilesOf(Marked(sectors, used), ino)[ROOTINO].typ == T_DIR
    ensures Rounded(ino[ROOTINO].size) < 0x1_0000_0000
    ensures var off := ino[ROOTINO].size;
            var d := ino[ROOTINO].(size := Rounded(off));
            var D, E, inoE := Marked(sectors, used), Marked(WithDinode(sectors, SB, ROOTINO, d), used),
                ino[ROOTINO := d];
            && Owned(E, SB, inoE, owner) && Synced(E, SB, inoE, {ROOTINO}) && Dino(E, SB, ROOTINO) == d
            && (off % BSIZE == 0 ==> HoleAt(E, d, BlocksFor(off))) && RootExtended(FilesOf(D, ino), FilesOf(E, inoE))
            && (Synced(E, SB, inoE, {}) <==> off % BSIZE != 0)
            && (off % BSIZE != 0 ==> FilesOf(E, inoE) == RoundedRoot(FilesOf(D, ino)))
            && WithDinode(sectors, SB, ROOTINO, d)[1] == sectors[1]
  {
    hide Owned, Tails, OthersKept, FileBytes, Dense, TailZero, FilesOf, Synced, Marked, WithDinode, Kept,
         Rounded, Dino, HoleAt, RootExtended;
    var D := Marked(sectors, used);
    FieldsOf(D, ino, ROOTINO);
    RootFacts(D, ino);
    var d := ino[ROOTINO].(size := Rounded(ino[ROOTINO].size));
    SoundMore(D, ino, ROOTINO);
    RecordPut(D, ino, owner, ROOTINO, d);
    MarkedElsewhere(sectors, used, ROOTINO, d);
    var E := Marked(WithDinode(sectors, SB, ROOTINO, d), used);
    RootRounded(D, ino, E, d);
    if ino[ROOTINO].size % BSIZE == 0 {
      HoleAfterRounding(D, ino[ROOTINO], E, d);
    }
    SyncedIff(E, ino[ROOTINO := d], ROOTINO);
  }

  lemma MarkedTwice(sectors: Blocks, used: nat)
    requires |sectors| == FSSIZE && used <= FSSIZE && sectors[SB.bmapstart] == MarkBits(used)
    ensures Marked(sectors, used) == sectors
  {
    hide MarkBits;
  }

  lemma EmptyDisk(sectors: Blocks, ino: seq<Dinode>)
    requires |sectors| == FSSIZE && forall b: nat :: b < FSSIZE && b != 1 ==> sectors[b] == Zeros(BSIZE)
    requires ino == seq(NINODES, _ => FreshDinode(0))
    ensures Owned(Marked(sectors, NMETA), SB, ino, map[]) && Synced(Marked(sectors, NMETA), SB, ino, {})
    ensures Tails(Marked(sectors, NMETA), ino, {}) && Unmade(ino, 1)
  {
    hide Bit, MarkBits, GetDinode, Dense;
    var D := Marked(sectors, NMETA);
    MarkedIsLaid(sectors, NMETA);
    forall b: nat | b < FSSIZE ensures Bit(D, SB, b) <==> b < NMETA {
      MarkedBits(sectors, NMETA, b);
    }
    forall i: nat | i < NINODES ensures Dino(D, SB, i) == ino[i] && Dense(D, ino[i]) {
      ZeroBlockIsFree(i % IPB);
      EmptyRecord(D, FreshDinode(0));
    }
    forall i: nat, k: nat | i < NINODES && k < NSLOT ensures Slot(D, ino[i], k) == 0 {
    }
  }

  lemma HoldsFull(D: Blocks, d: Dinode, content: seq<byte>)
    requires Holds(D, d, content)
    ensures HoldsTo(D, d, content, BlocksFor(|content|))
  {
    hide FileBytes;
  }

  /** The memmove into the block, and wsect. */
  lemma ChunkPut(D: Blocks, ino: seq<Dinode>, owner: Owner, i: nat, content: seq<byte>, chunk: seq<byte>)
    requires Owned(D, SB, ino, owner) && Synced(D, SB, ino, {i}) && Tails(D, ino, {i}) && i < |ino|
    requires 0 < |chunk| && |content| % BSIZE + |chunk| <= BSIZE && |content| + |chunk| <= MAXFILE * BSIZE
    requires NoHoles(D, ino[i], BlocksFor(|content| + |chunk|))
    requires HoldsTo(D, ino[i], content, BlocksFor(|content| + |chunk|))
    ensures |content| / BSIZE < MAXFILE && NMETA <= Addr(D, ino[i], |content| / BSIZE) < |D|
    ensures var a := Addr(D, ino[i], |content| / BSIZE);
            var E := D[a := Splice(D[a], |content| % BSIZE, chunk)];
            && Owned(E, SB, ino, owner) && Synced(E, SB, ino, {i}) && Tails(E, ino, {i})
            && OthersKept(D, ino, E, ino, i)
            && NoHoles(E, ino[i], BlocksFor(|content| + |chunk|)) && Holds(E, ino[i], content + chunk)
  {
    hide Owned, Synced, Tails, OthersKept, Addr, NoHoles, FileBytes, Splice, Holds, Agree;
    var off, nb := |content|, BlocksFor(|content| + |chunk|);
    ChunkBlocks(off, |chunk|);
    AgreeOpen(D, ino, owner, i);
    AgreeAfterChunk(D, SB, ino, owner, OneOpen(i), multiset{i}, map[i := 0], i, nb, BSIZE * nb, off, chunk);
    var a := Addr(D, ino[i], off / BSIZE);
    var E := D[a := Splice(D[a], off % BSIZE, chunk)];
    AgreeParts(E, SB, ino, owner, OneOpen(i), multiset{i}, map[i := 0], {i});
    TailsKept(D, ino, E, ino, i, {i});
    assert {i} + {i} == {i};
    assert Max(BSIZE * nb, off + |chunk|) == BSIZE * nb;
    HoldsAppended(D, ino[i], E, ino[i], content, chunk);
  }

  /** Writing a data sector is writing that block of the disk to be. */
  lemma MarkedPut(before: Blocks, after: Blocks, used: nat, x: nat)
    requires |before| == FSSIZE == |after| && NMETA <= x < FSSIZE && used <= FSSIZE && after == before[x := after[x]]
    ensures Marked(after, used) == Marked(before, used)[x := after[x]] && Marked(before, used)[x] == before[x]
  {
    hide MarkBits;
  }

  /** Inode blocks are not bitmap blocks. */
  lemma MarkedElsewhere(sectors: Blocks, used: nat, i: nat, d: Dinode)
    requires |sectors| == FSSIZE && NMETA <= used <= FSSIZE && i < NINODES
    ensures Marked(WithDinode(sectors, SB, i, d), used) == WithDinode(Marked(sectors, used), SB, i, d)
    ensures Dino(sectors, SB, i) == Dino(Marked(sectors, used), SB, i)
    ensures WithDinode(sectors, SB, i, d)[1] == sectors[1]
    ensures forall b: nat :: NMETA <= b < FSSIZE ==> WithDinode(sectors, SB, i, d)[b] == sectors[b]
  {
    hide MarkBits, PutDinode;
  }

  lemma AllClean(D: Blocks, E: Blocks, ino: seq<Dinode>, i: nat, d: Dinode)
    requires Synced(E, SB, ino, {i}) && i < |ino| && ino[i] == d && Dino(E, SB, i) == d && Dense(E, d)
    requires Kept(D, E, d) && TailZero(D, d) && Tails(E, ino, {i} + {i})
    ensures Synced(E, SB, ino, {}) && Tails(E, ino, {}) && FileBytes(E, d, d.size) == FileBytes(D, d, d.size)
  {
    hide Slot, Dino;
    SameTail(D, E, d);
  }
}
