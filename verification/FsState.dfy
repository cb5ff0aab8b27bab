/** What the bytes of a disk mean: which blocks are marked in use, which slot of which inode
    points at each block, and the byte sequence each inode stands for. */
module FsState {
  import opened Bytes
  import opened Layout

  type Blocks = seq<Block>

  const NSLOT: nat := 1 + MAXFILE       // 12 direct slots, the indirect pointer, 128 entries
  const INDIRECT: nat := NDIRECT        // the slot that points at the indirect block

  // ---------- where things are ----------

  function BitBlock(sb: Superblock, b: nat): nat {
    b / BPB + sb.bmapstart
  }

  function InodeBlock(sb: Superblock, i: nat): nat {
    i / IPB + sb.inodestart
  }

  /** Boot block, superblock, inode blocks, bitmap blocks, data blocks, in that order. */
  predicate Laid(D: Blocks, sb: Superblock) {
    && |D| == sb.size <= FSSIZE
    && 2 <= sb.inodestart
    && InodeBlock(sb, sb.ninodes) < sb.bmapstart
    && BitBlock(sb, sb.size) < sb.DataStart() <= sb.size
    && ROOTINO < sb.ninodes
  }

  lemma WhereThingsAre(D: Blocks, sb: Superblock)
    requires Laid(D, sb)
    ensures forall b: nat :: b < sb.size ==> 2 <= sb.bmapstart <= BitBlock(sb, b) < sb.DataStart() <= |D|
    ensures forall i: nat :: i < sb.ninodes ==> 2 <= InodeBlock(sb, i) < sb.bmapstart
  {
  }

  // ---------- reading a disk ----------

  predicate Bit(D: Blocks, sb: Superblock, b: nat) {
    BitBlock(sb, b) < |D| && MapBit(D[BitBlock(sb, b)], b % BPB)
  }

  function Dino(D: Blocks, sb: Superblock, i: nat): Dinode {
    if InodeBlock(sb, i) < |D| then GetDinode(D[InodeBlock(sb, i)], i % IPB) else FreshDinode(0)
  }

  /** The bitmap starts at sb.bmapstart; block b has bit b % 8, from the lowest, of its byte b / 8. */
  lemma BitOnDisk(D: Blocks, sb: Superblock, b: nat)
    requires Laid(D, sb) && b < sb.size
    ensures Pow2(b % 8) > 0 && sb.bmapstart + b / 4096 < |D|
    ensures Bit(D, sb, b) <==> D[sb.bmapstart + b / 4096][b % 4096 / 8] / Pow2(b % 8) % 2 == 1
  {
    hide MapBit, Pow2;
    WhereThingsAre(D, sb);
    SameRest(b);
    MapBitDigit(D[sb.bmapstart + b / 4096], b % 4096);
  }

  lemma SameRest(b: nat)
    ensures b % 4096 % 8 == b % 8
  {
    var q, r := b / 4096, b % 4096;
    var s, t := r / 8, r % 8;
    assert b == 4096 * q + r && r == 8 * s + t;
    DivUnique(b, 8, 512 * q + s, t);
  }

  /** Inode records of 64 bytes follow each other, eight to a block, from sb.inodestart on. */
  lemma InodeOnDisk(D: Blocks, sb: Superblock, i: nat)
    requires Laid(D, sb) && i < sb.ninodes
    ensures sb.inodestart + i / 8 < |D|
    ensures var b, o, d := D[sb.inodestart + i / 8], 64 * (i % 8), Dino(D, sb, i);
            && d.typ == Le16(b, o) && d.major == Le16(b, o + 2) && d.minor == Le16(b, o + 4)
            && d.nlink == Le16(b, o + 6) && d.size == Le32(b, o + 8)
            && forall k: nat :: k < 13 ==> d.addrs[k] == Le32(b, o + 12 + 4 * k)
  {
    WhereThingsAre(D, sb);
    hide DecodeDinode;
    var b, o := D[sb.inodestart + i / 8], 64 * (i % 8);
    DinodeBytes(b[o..o + 64]);
  }

  /** The block number in slot k of an inode, 0 where there is none. */
  function Slot(D: Blocks, d: Dinode, k: nat): u32
    requires k < NSLOT
  {
    if k <= INDIRECT then d.addrs[k]
    else if d.addrs[INDIRECT] == 0 || d.addrs[INDIRECT] >= |D| then 0
    else Word(D[d.addrs[INDIRECT]], k - INDIRECT - 1)
  }

  /** The slot of a file's block bn. */
  function DataSlot(bn: nat): nat {
    if bn < NDIRECT then bn else bn + 1
  }

  function Addr(D: Blocks, d: Dinode, bn: nat): u32
    requires bn < MAXFILE
  {
    Slot(D, d, DataSlot(bn))
  }

  function ByteAt(D: Blocks, d: Dinode, p: nat): byte {
    if p / BSIZE < MAXFILE && Addr(D, d, p / BSIZE) < |D| then D[Addr(D, d, p / BSIZE)][p % BSIZE] else 0
  }

  /** The first n bytes of a file. */
  function FileBytes(D: Blocks, d: Dinode, n: nat): (s: seq<byte>)
    ensures |s| == n
    ensures forall p :: 0 <= p < n ==> s[p] == ByteAt(D, d, p)
  {
    seq(n, p requires 0 <= p < n => ByteAt(D, d, p))
  }

  /** Byte p of a file is byte p % 512 of the block named by address p / 512 of the record, for the
      first twelve blocks; after them by the words of the block the thirteenth address names. */
  lemma FileByteOnDisk(D: Blocks, d: Dinode, p: nat)
    requires p / 512 < 140
    requires var k := p / 512;
             if k < 12 then d.addrs[k] < |D|
             else 0 < d.addrs[12] < |D| && Le32(D[d.addrs[12]], 4 * (k - 12)) < |D|
    ensures var k := p / 512;
            ByteAt(D, d, p) == if k < 12 then D[d.addrs[k]][p % 512] else D[Le32(D[d.addrs[12]], 4 * (k - 12))][p % 512]
  {
    if p / 512 >= 12 {
      WordBytes(D[d.addrs[12]], p / 512 - 12);
    }
  }

  /** An inode as its users see it. */
  datatype File = File(typ: u16, major: u16, minor: u16, nlink: u16, bytes: seq<byte>)

  function FileOf(D: Blocks, d: Dinode): File {
    File(d.typ, d.major, d.minor, d.nlink, FileBytes(D, d, d.size))
  }

  /** Blocks not marked in use. */
  ghost function FreeSet(D: Blocks, sb: Superblock): set<nat> {
    set b: nat | b < sb.size && !Bit(D, sb, b)
  }

  // ---------- the invariants ----------

  type Owner = map<nat, (nat, nat)>

  /** Block ownership: owner maps each data block in use to the one (inode, slot) that points at
      it, and the bitmap marks exactly the metadata and the owned blocks. */
  ghost predicate Owned(D: Blocks, sb: Superblock, ino: seq<Dinode>, owner: Owner) {
    && Laid(D, sb) && |ino| == sb.ninodes
    && (forall i: nat, k: nat :: i < |ino| && k < NSLOT && Slot(D, ino[i], k) != 0 ==>
          Slot(D, ino[i], k) as nat in owner && owner[Slot(D, ino[i], k) as nat] == (i, k))
    && (forall b: nat :: b in owner ==>
          sb.DataStart() <= b < sb.size && owner[b].0 < |ino| && owner[b].1 < NSLOT
          && Slot(D, ino[owner[b].0], owner[b].1) == b)
    && (forall b: nat :: b < sb.size ==> (Bit(D, sb, b) <==> b < sb.DataStart() || b in owner))
  }

  /** No holes: exactly the first nb blocks of the file are there, and the indirect block
      exactly when it is needed. */
  ghost predicate NoHoles(D: Blocks, d: Dinode, nb: nat) {
    Filled(D, d, nb) && (d.addrs[INDIRECT] != 0 <==> nb > NDIRECT)
  }

  ghost predicate Filled(D: Blocks, d: Dinode, nb: nat) {
    nb <= MAXFILE && forall bn: nat :: bn < MAXFILE ==> (Addr(D, d, bn) != 0 <==> bn < nb)
  }

  /** The number of blocks that hold n bytes. */
  function BlocksFor(n: nat): nat {
    (n + BSIZE - 1) / BSIZE
  }

  /** An inode at rest: no holes up to its size, and nothing in it if it is free. */
  ghost predicate Dense(D: Blocks, d: Dinode) {
    NoHoles(D, d, BlocksFor(d.size)) && (d.typ == 0 ==> d.size == 0)
  }

  /** Reading the invariant as the statement about slots: in use means metadata or pointed at by
      exactly one slot of exactly one inode. */
  lemma OwnedMeansOneSlot(D: Blocks, sb: Superblock, ino: seq<Dinode>, owner: Owner, b: nat)
    requires Owned(D, sb, ino, owner) && sb.DataStart() <= b < sb.size
    ensures Bit(D, sb, b) <==> exists i: nat, k: nat :: i < |ino| && k < NSLOT && Slot(D, ino[i], k) == b
    ensures forall i: nat, k: nat, j: nat, l: nat ::
              i < |ino| && k < NSLOT && j < |ino| && l < NSLOT && Slot(D, ino[i], k) == b && Slot(D, ino[j], l) == b ==>
              i == j && k == l
  {
    if Bit(D, sb, b) {
      assert Slot(D, ino[owner[b].0], owner[b].1) == b;
    }
  }

  // ---------- what the writes do to the readings ----------

  /** Marks block b used or free in the bitmap. */
  function WithBit(D: Blocks, sb: Superblock, b: nat, on: bool): (E: Blocks)
    ensures |E| == |D|
  {
    if BitBlock(sb, b) >= |D| then D
    else
      var x: Block := SetMapBit(D[BitBlock(sb, b)], b % BPB, on);
      D[BitBlock(sb, b) := x]
  }

  function WithDinode(D: Blocks, sb: Superblock, i: nat, d: Dinode): (E: Blocks)
    ensures |E| == |D|
  {
    if InodeBlock(sb, i) >= |D| then D
    else D[InodeBlock(sb, i) := PutDinode(D[InodeBlock(sb, i)], i % IPB, d)]
  }

  /** balloc's effect: mark the block and zero it. */
  function Allocated(D: Blocks, sb: Superblock, b: nat): (E: Blocks)
    ensures |E| == |D|
  {
    if b >= |D| then D else WithBit(D, sb, b, true)[b := Zeros(BSIZE)]
  }

  /** The bits of one bitmap block. */
  lemma BitsOfBlock(D: Blocks, sb: Superblock, b: nat, k: nat)
    requires Laid(D, sb) && b < sb.size && b == BPB * k
    ensures forall x: nat :: b <= x < sb.size && x < b + BPB ==>
              BitBlock(sb, x) == BitBlock(sb, b) < |D| && x % BPB == x - b
              && Bit(D, sb, x) == MapBit(D[BitBlock(sb, b)], x - b)
  {
    WhereThingsAre(D, sb);
  }

  lemma AllocatedWrites(D: Blocks, sb: Superblock, b: nat)
    requires Laid(D, sb) && b < sb.size
    ensures sb.bmapstart <= BitBlock(sb, b) < |D|
    ensures Allocated(D, sb, b) == D[BitBlock(sb, b) := SetMapBit(D[BitBlock(sb, b)], b % BPB, true)][b := Zeros(BSIZE)]
  {
  }

  lemma BitWithBit(D: Blocks, sb: Superblock, b: nat, on: bool, x: nat)
    requires Laid(D, sb) && b < sb.size && x < sb.size
    ensures Laid(WithBit(D, sb, b, on), sb)
    ensures Bit(WithBit(D, sb, b, on), sb, x) == if x == b then on else Bit(D, sb, x)
  {
    WhereThingsAre(D, sb);
    if BitBlock(sb, x) == BitBlock(sb, b) {
      MapBitSetMapBit(D[BitBlock(sb, b)], b % BPB, on, x % BPB);
    }
  }

  lemma BitsOfAllocated(D: Blocks, sb: Superblock, b: nat)
    requires Laid(D, sb) && sb.DataStart() <= b < sb.size
    ensures var E := Allocated(D, sb, b);
            Laid(E, sb) && forall x: nat :: x < sb.size ==> (Bit(E, sb, x) <==> x == b || Bit(D, sb, x))
  {
    WhereThingsAre(D, sb);
    forall x: nat | x < sb.size
      ensures Bit(Allocated(D, sb, b), sb, x) <==> x == b || Bit(D, sb, x)
    {
      BitWithBit(D, sb, b, true, x);
    }
  }

  lemma BitsOfFreed(D: Blocks, sb: Superblock, b: nat)
    requires Laid(D, sb) && b < sb.size
    ensures var E := WithBit(D, sb, b, false);
            Laid(E, sb) && forall x: nat :: x < sb.size ==> (Bit(E, sb, x) <==> x != b && Bit(D, sb, x))
  {
    forall x: nat | x < sb.size
      ensures Bit(WithBit(D, sb, b, false), sb, x) <==> x != b && Bit(D, sb, x)
    {
      BitWithBit(D, sb, b, false, x);
    }
  }

  lemma DinoWithDinode(D: Blocks, sb: Superblock, i: nat, d: Dinode, j: nat)
    requires Laid(D, sb) && i < sb.ninodes && j < sb.ninodes
    ensures Laid(WithDinode(D, sb, i, d), sb)
    ensures Dino(WithDinode(D, sb, i, d), sb, j) == if j == i then d else Dino(D, sb, j)
  {
    WhereThingsAre(D, sb);
    if InodeBlock(sb, j) == InodeBlock(sb, i) {
      GetPutDinode(D[InodeBlock(sb, i)], i % IPB, d, j % IPB);
    }
  }

  /** Outside W the two disks agree. */
  ghost predicate SameOutside(D: Blocks, E: Blocks, W: set<nat>) {
    |D| == |E| && forall b: nat :: b < |D| && b !in W ==> E[b] == D[b]
  }

  lemma DinosSame(D: Blocks, E: Blocks, sb: Superblock, W: set<nat>)
    requires Laid(D, sb) && SameOutside(D, E, W)
    requires forall b: nat :: b in W ==> sb.bmapstart <= b
    ensures Laid(E, sb)
    ensures forall i: nat :: i < sb.ninodes ==> Dino(E, sb, i) == Dino(D, sb, i)
    ensures E[1] == D[1]
  {
    WhereThingsAre(D, sb);
  }

  lemma BitsSame(D: Blocks, E: Blocks, sb: Superblock, W: set<nat>)
    requires Laid(D, sb) && SameOutside(D, E, W)
    requires forall b: nat :: b in W ==> b < sb.bmapstart || sb.DataStart() <= b
    ensures Laid(E, sb)
    ensures forall b: nat :: b < sb.size ==> Bit(E, sb, b) == Bit(D, sb, b)
  {
    WhereThingsAre(D, sb);
  }

  /** Slots live in the record and in the indirect block. */
  lemma SlotsSame(D: Blocks, E: Blocks, d: Dinode)
    requires |E| == |D|
    requires 0 < d.addrs[INDIRECT] < |D| ==> E[d.addrs[INDIRECT]] == D[d.addrs[INDIRECT]]
    ensures forall k: nat :: k < NSLOT ==> Slot(E, d, k) == Slot(D, d, k)
  {
  }

  /** A file is untouched by changes outside its blocks. */
  lemma FileSame(D: Blocks, E: Blocks, d: Dinode, n: nat, W: set<nat>)
    requires SameOutside(D, E, W) && 0 !in W
    requires forall k: nat :: k < NSLOT ==> Slot(D, d, k) as nat !in W
    ensures forall k: nat :: k < NSLOT ==> Slot(E, d, k) == Slot(D, d, k)
    ensures FileBytes(E, d, n) == FileBytes(D, d, n)
  {
    assert Slot(D, d, INDIRECT) == d.addrs[INDIRECT];
    SlotsSame(D, E, d);
    forall p: nat | p < n ensures ByteAt(E, d, p) == ByteAt(D, d, p) {
    }
  }

  // ---------- giving a free block to a slot, and taking one back ----------

  /** The slots of (E, inoE) are those of (D, inoD) but for slot k of inode i, now v. */
  ghost predicate OneSlotSet(D: Blocks, inoD: seq<Dinode>, E: Blocks, inoE: seq<Dinode>, i: nat, k: nat, v: u32) {
    && |inoE| == |inoD| && i < |inoD| && k < NSLOT
    && forall j: nat, l: nat :: j < |inoD| && l < NSLOT ==>
          Slot(E, inoE[j], l) == if j == i && l == k then v else Slot(D, inoD[j], l)
  }

  lemma OwnedAfterGiving(D: Blocks, inoD: seq<Dinode>, E: Blocks, inoE: seq<Dinode>, sb: Superblock, owner: Owner,
        b: nat, i: nat, k: nat)
    requires Owned(D, sb, inoD, owner) && Laid(E, sb)
    requires 0 < b < sb.size && !Bit(D, sb, b)
    requires OneSlotSet(D, inoD, E, inoE, i, k, b) && Slot(D, inoD[i], k) == 0
    requires forall x: nat :: x < sb.size ==> (Bit(E, sb, x) <==> x == b || Bit(D, sb, x))
    ensures Owned(E, sb, inoE, owner[b := (i, k)])
  {
    hide Slot, Bit;
    var own := owner[b := (i, k)];
    forall j: nat, l: nat | j < |inoE| && l < NSLOT && Slot(E, inoE[j], l) != 0
      ensures Slot(E, inoE[j], l) as nat in own && own[Slot(E, inoE[j], l) as nat] == (j, l)
    {
    }
  }

  lemma OwnedAfterTaking(D: Blocks, inoD: seq<Dinode>, E: Blocks, inoE: seq<Dinode>, sb: Superblock, owner: Owner,
        b: nat, i: nat, k: nat)
    requires Owned(D, sb, inoD, owner) && Laid(E, sb)
    requires b in owner && owner[b] == (i, k)
    requires OneSlotSet(D, inoD, E, inoE, i, k, 0)
    requires forall x: nat :: x < sb.size ==> (Bit(E, sb, x) <==> x != b && Bit(D, sb, x))
    ensures Owned(E, sb, inoE, owner - {b})
  {
    hide Slot, Bit;
    var own := owner - {b};
    forall j: nat, l: nat | j < |inoE| && l < NSLOT && Slot(E, inoE[j], l) != 0
      ensures Slot(E, inoE[j], l) as nat in own && own[Slot(E, inoE[j], l) as nat] == (j, l)
    {
    }
  }

  lemma OwnedSame(D: Blocks, E: Blocks, sb: Superblock, ino: seq<Dinode>, inoE: seq<Dinode>, owner: Owner)
    requires Owned(D, sb, ino, owner) && Laid(E, sb) && |inoE| == |ino|
    requires forall j: nat, l: nat :: j < |ino| && l < NSLOT ==> Slot(E, inoE[j], l) == Slot(D, ino[j], l)
    requires forall x: nat :: x < sb.size ==> Bit(E, sb, x) == Bit(D, sb, x)
    ensures Owned(E, sb, inoE, owner)
  {
    hide Slot, Bit;
  }

  /** No slot points at a block that is free or holds metadata. */
  lemma SlotsAreOwned(D: Blocks, sb: Superblock, ino: seq<Dinode>, owner: Owner, i: nat, k: nat)
    requires Owned(D, sb, ino, owner) && i < |ino| && k < NSLOT
    ensures var a := Slot(D, ino[i], k) as nat;
            a == 0 || (sb.DataStart() <= a < sb.size && Bit(D, sb, a) && a in owner && owner[a] == (i, k))
  {
    hide Slot, Bit;
  }

  // ---------- what one inode's growth leaves alone ----------

  /** Inode d reads the same on both disks. */
  ghost predicate Kept(D: Blocks, E: Blocks, d: Dinode) {
    && |E| == |D|
    && (forall k: nat :: k < NSLOT ==> Slot(E, d, k) == Slot(D, d, k))
    && FileBytes(E, d, d.size) == FileBytes(D, d, d.size)
    && FileBytes(E, d, MAXFILE * BSIZE) == FileBytes(D, d, MAXFILE * BSIZE)
  }

  ghost predicate OthersKept(D: Blocks, ino: seq<Dinode>, E: Blocks, inoE: seq<Dinode>, i: nat) {
    && |inoE| == |ino| && |E| == |D|
    && forall j: nat :: j < |ino| && j != i ==> inoE[j] == ino[j] && Kept(D, E, ino[j])
  }

  lemma OthersKeptTrans(D: Blocks, ino: seq<Dinode>, E: Blocks, inoE: seq<Dinode>, F: Blocks, inoF: seq<Dinode>, i: nat)
    requires OthersKept(D, ino, E, inoE, i) && OthersKept(E, inoE, F, inoF, i)
    ensures OthersKept(D, ino, F, inoF, i)
  {
    hide Slot, FileBytes;
  }

  lemma KeptDense(D: Blocks, E: Blocks, d: Dinode)
    requires Kept(D, E, d) && Dense(D, d)
    ensures Dense(E, d)
  {
    forall bn: nat | bn < MAXFILE ensures Addr(E, d, bn) == Addr(D, d, bn) {
    }
  }

  /** Changes confined to free blocks, metadata and inode i's own blocks leave the others alone. */
  lemma OthersKeptOutside(D: Blocks, sb: Superblock, ino: seq<Dinode>, owner: Owner, E: Blocks, inoE: seq<Dinode>,
        i: nat, W: set<nat>)
    requires Owned(D, sb, ino, owner) && SameOutside(D, E, W) && 0 !in W
    requires forall b :: b in W && b in owner ==> owner[b].0 == i
    requires |inoE| == |ino| && forall j: nat :: j < |ino| && j != i ==> inoE[j] == ino[j]
    ensures OthersKept(D, ino, E, inoE, i)
  {
    hide Slot, Bit, FileBytes;
    forall j: nat | j < |ino| && j != i ensures Kept(D, E, ino[j]) {
      forall k: nat | k < NSLOT ensures Slot(D, ino[j], k) as nat !in W {
        SlotsAreOwned(D, sb, ino, owner, j, k);
      }
      FileSame(D, E, ino[j], ino[j].size, W);
      FileSame(D, E, ino[j], MAXFILE * BSIZE, W);
    }
  }

  lemma FreeSetAfterGiving(D: Blocks, E: Blocks, sb: Superblock, b: nat)
    requires Laid(D, sb) && Laid(E, sb) && b < sb.size && !Bit(D, sb, b)
    requires forall x: nat :: x < sb.size ==> (Bit(E, sb, x) <==> x == b || Bit(D, sb, x))
    ensures b in FreeSet(D, sb) && FreeSet(E, sb) == FreeSet(D, sb) - {b}
    ensures |FreeSet(E, sb)| == |FreeSet(D, sb)| - 1
  {
    hide Bit;
  }

  /** balloc into a direct slot or into the indirect pointer. */
  function GiveRecord(d: Dinode, k: nat, b: u32): Dinode
    requires k <= INDIRECT
  {
    d.(addrs := d.addrs[k := b])
  }

  lemma FreeIsData(D: Blocks, sb: Superblock, ino: seq<Dinode>, owner: Owner, b: nat)
    requires Owned(D, sb, ino, owner) && b < sb.size && !Bit(D, sb, b)
    ensures sb.DataStart() <= b && b !in owner && Laid(D, sb) && 0 < b
    ensures forall a: nat :: a in owner ==> sb.DataStart() <= a
  {
    WhereThingsAre(D, sb);
  }

  lemma AllocatedFacts(D: Blocks, sb: Superblock, b: nat)
    requires Laid(D, sb) && sb.DataStart() <= b < sb.size
    ensures var E := Allocated(D, sb, b);
            && Laid(E, sb) && SameOutside(D, E, {BitBlock(sb, b), b}) && E[b] == Zeros(BSIZE)
            && (forall x: nat :: x < sb.size ==> (Bit(E, sb, x) <==> x == b || Bit(D, sb, x)))
            && 2 <= sb.bmapstart <= BitBlock(sb, b) < sb.DataStart()
  {
    WhereThingsAre(D, sb);
    BitsOfAllocated(D, sb, b);
    hide SetMapBit, Bit;
  }

  lemma SlotsWithRecord(D: Blocks, E: Blocks, d: Dinode, k: nat, b: u32)
    requires |E| == |D| && k <= INDIRECT && 0 < b < |D|
    requires k == INDIRECT ==> d.addrs[INDIRECT] == 0 && E[b] == Zeros(BSIZE)
    requires k != INDIRECT && d.addrs[INDIRECT] != 0 ==>
               d.addrs[INDIRECT] < |D| && E[d.addrs[INDIRECT]] == D[d.addrs[INDIRECT]]
    ensures forall l: nat :: l < NSLOT ==> Slot(E, GiveRecord(d, k, b), l) == if l == k then b else Slot(D, d, l)
  {
    forall l: nat | l < NSLOT
      ensures Slot(E, GiveRecord(d, k, b), l) == if l == k then b else Slot(D, d, l)
    {
      if k == INDIRECT && l > INDIRECT {
        WordOfZeros(BSIZE, l - INDIRECT - 1);
      }
    }
  }

  lemma RecordSlotGiven(D: Blocks, sb: Superblock, ino: seq<Dinode>, owner: Owner, b: u32, i: nat, k: nat)
    requires Owned(D, sb, ino, owner) && b < sb.size && !Bit(D, sb, b)
    requires i < |ino| && k <= INDIRECT && ino[i].addrs[k] == 0
    ensures var E := Allocated(D, sb, b); var inoE := ino[i := GiveRecord(ino[i], k, b)];
            && Owned(E, sb, inoE, owner[b as nat := (i, k)])
            && OthersKept(D, ino, E, inoE, i)
            && (forall l: nat :: l < NSLOT ==> Slot(E, inoE[i], l) == if l == k then b else Slot(D, ino[i], l))
            && FreeSet(E, sb) == FreeSet(D, sb) - {b as nat} && |FreeSet(E, sb)| == |FreeSet(D, sb)| - 1
    ensures sb.DataStart() <= b
  {
    hide Allocated, WithBit, Bit, FileBytes, Slot, Owned, OthersKept;
    var E, inoE := Allocated(D, sb, b), ino[i := GiveRecord(ino[i], k, b)];
    FreeIsData(D, sb, ino, owner, b);
    IndirectSlot(D, ino[i]);
    AllocatedFacts(D, sb, b);
    var W := {BitBlock(sb, b), b as nat};
    OthersKeptOutside(D, sb, ino, owner, E, inoE, i, W);
    SlotsAreOwned(D, sb, ino, owner, i, INDIRECT);
    SlotsWithRecord(D, E, ino[i], k, b);
    OneSlotFromOthers(D, ino, E, inoE, i, k, b);
    OwnedAfterGiving(D, ino, E, inoE, sb, owner, b, i, k);
    FreeSetAfterGiving(D, E, sb, b);
  }

  lemma OneSlotFromOthers(D: Blocks, ino: seq<Dinode>, E: Blocks, inoE: seq<Dinode>, i: nat, k: nat, v: u32)
    requires OthersKept(D, ino, E, inoE, i) && i < |ino| && k < NSLOT
    requires forall l: nat :: l < NSLOT ==> Slot(E, inoE[i], l) == if l == k then v else Slot(D, ino[i], l)
    ensures OneSlotSet(D, ino, E, inoE, i, k, v)
  {
    hide Slot, FileBytes;
  }

  /** The indirect block a with entry j set to b, in the disk where b has been allocated. */
  function GiveEntry(D: Blocks, sb: Superblock, b: u32, a: nat, j: nat): Blocks
    requires j < NINDIRECT
  {
    var E := Allocated(D, sb, b);
    if a < |D| then E[a := PutWord(E[a], j, b)] else E
  }

  lemma EntrySlots(D: Blocks, E: Blocks, d: Dinode, j: nat, b: u32)
    requires |E| == |D| && 0 < d.addrs[INDIRECT] < |D| && j < NINDIRECT
    requires E[d.addrs[INDIRECT]] == PutWord(D[d.addrs[INDIRECT]], j, b)
    ensures forall l: nat :: l < NSLOT ==> Slot(E, d, l) == if l == INDIRECT + 1 + j then b else Slot(D, d, l)
  {
    forall l: nat | l < NSLOT
      ensures Slot(E, d, l) == if l == INDIRECT + 1 + j then b else Slot(D, d, l)
    {
      if l > INDIRECT {
        WordPutWord(D[d.addrs[INDIRECT]], j, b, l - INDIRECT - 1);
      }
    }
  }

  lemma EntryGiven(D: Blocks, sb: Superblock, ino: seq<Dinode>, owner: Owner, b: u32, i: nat, j: nat)
    requires Owned(D, sb, ino, owner) && b < sb.size && !Bit(D, sb, b)
    requires i < |ino| && j < NINDIRECT && ino[i].addrs[INDIRECT] != 0 && Slot(D, ino[i], INDIRECT + 1 + j) == 0
    ensures var a := ino[i].addrs[INDIRECT]; sb.DataStart() <= a < sb.size && a != b
    ensures var a := ino[i].addrs[INDIRECT]; var E := GiveEntry(D, sb, b, a, j);
            && Owned(E, sb, ino, owner[b as nat := (i, INDIRECT + 1 + j)])
            && OthersKept(D, ino, E, ino, i)
            && (forall l: nat :: l < NSLOT ==>
                Slot(E, ino[i], l) == if l == INDIRECT + 1 + j then b else Slot(D, ino[i], l))
            && FreeSet(E, sb) == FreeSet(D, sb) - {b as nat} && |FreeSet(E, sb)| == |FreeSet(D, sb)| - 1
            && SameOutside(D, E, {BitBlock(sb, b), b as nat, a as nat})
            && E[b] == Zeros(BSIZE)
    ensures sb.DataStart() <= b
  {
    hide Allocated, WithBit, Bit, FileBytes, Slot, PutWord, Owned, OthersKept;
    var a: nat := ino[i].addrs[INDIRECT];
    IndirectSlot(D, ino[i]);
    SlotsAreOwned(D, sb, ino, owner, i, INDIRECT);
    FreeIsData(D, sb, ino, owner, b);
    AllocatedFacts(D, sb, b);
    var F, E := Allocated(D, sb, b), GiveEntry(D, sb, b, a, j);
    assert F[a] == D[a];
    var W := {BitBlock(sb, b), b as nat, a};
    BitsSame(F, E, sb, {a});
    EntrySlots(D, E, ino[i], j, b);
    OthersKeptOutside(D, sb, ino, owner, E, ino, i, W);
    OneSlotFromOthers(D, ino, E, ino, i, INDIRECT + 1 + j, b);
    OwnedAfterGiving(D, ino, E, ino, sb, owner, b, i, INDIRECT + 1 + j);
    FreeSetAfterGiving(D, E, sb, b);
  }

  // ---------- growing a file by one block ----------

  /** Inode i went from nb to nb + 1 blocks, the new one zero; all else reads as before. */
  ghost predicate Grew(D: Blocks, ino: seq<Dinode>, E: Blocks, inoE: seq<Dinode>, i: nat, nb: nat) {
    && OthersKept(D, ino, E, inoE, i) && i < |ino|
    && inoE[i] == ino[i].(addrs := inoE[i].addrs)
    && nb < MAXFILE && NoHoles(E, inoE[i], nb + 1)
    && Addr(E, inoE[i], nb) < |E| && E[Addr(E, inoE[i], nb)] == Zeros(BSIZE)
    && forall p: nat :: p < nb * BSIZE ==> ByteAt(E, inoE[i], p) == ByteAt(D, ino[i], p)
  }

  /** Blocks below nb keep their address and their bytes. */
  lemma BytesKept(D: Blocks, E: Blocks, d: Dinode, e: Dinode, nb: nat, W: set<nat>)
    requires SameOutside(D, E, W) && 0 !in W && nb <= MAXFILE
    requires forall bn: nat :: bn < nb ==> Addr(E, e, bn) == Addr(D, d, bn) && Addr(D, d, bn) as nat !in W
    ensures forall p: nat :: p < nb * BSIZE ==> ByteAt(E, e, p) == ByteAt(D, d, p)
  {
    hide Slot;
    forall p: nat | p < nb * BSIZE ensures ByteAt(E, e, p) == ByteAt(D, d, p) {
      assert p / BSIZE < nb;
    }
  }

  lemma DirectBlockGiven(D: Blocks, sb: Superblock, ino: seq<Dinode>, owner: Owner, b: u32, i: nat, nb: nat)
    requires Owned(D, sb, ino, owner) && b < sb.size && !Bit(D, sb, b)
    requires i < |ino| && nb < NDIRECT && NoHoles(D, ino[i], nb)
    ensures ino[i].addrs[nb] == 0
    ensures Grew(D, ino, Allocated(D, sb, b), ino[i := GiveRecord(ino[i], nb, b)], i, nb)
  {
    hide Allocated, Bit, FileBytes, Owned;
    LaidIfOwned(D, sb, ino, owner);
    var E, inoE := Allocated(D, sb, b), ino[i := GiveRecord(ino[i], nb, b)];
    assert ino[i].addrs[nb] == Addr(D, ino[i], nb);
    RecordSlotGiven(D, sb, ino, owner, b, i, nb);
    AllocatedFacts(D, sb, b);
    forall bn: nat | bn < MAXFILE
      ensures Addr(E, inoE[i], bn) == if bn == nb then b else Addr(D, ino[i], bn)
      ensures Addr(D, ino[i], bn) as nat !in {BitBlock(sb, b), b as nat}
    {
      SlotsAreOwned(D, sb, ino, owner, i, DataSlot(bn));
    }
    hide Slot;
    BytesKept(D, E, ino[i], inoE[i], nb, {BitBlock(sb, b), b as nat});
  }

  lemma EntryBlockGiven(D: Blocks, sb: Superblock, ino: seq<Dinode>, owner: Owner, b: u32, i: nat, nb: nat)
    requires Owned(D, sb, ino, owner) && b < sb.size && !Bit(D, sb, b)
    requires i < |ino| && NDIRECT <= nb < MAXFILE && Filled(D, ino[i], nb) && ino[i].addrs[INDIRECT] != 0
    ensures ino[i].addrs[INDIRECT] < |D| && Slot(D, ino[i], nb + 1) == 0
    ensures Grew(D, ino, GiveEntry(D, sb, b, ino[i].addrs[INDIRECT], nb - NDIRECT), ino, i, nb)
  {
    hide GiveEntry, Bit, FileBytes, Owned, Slot;
    LaidIfOwned(D, sb, ino, owner);
    WhereThingsAre(D, sb);
    var a: nat := ino[i].addrs[INDIRECT];
    assert Addr(D, ino[i], nb) == Slot(D, ino[i], nb + 1);
    EntryGiven(D, sb, ino, owner, b, i, nb - NDIRECT);
    var E, W := GiveEntry(D, sb, b, a, nb - NDIRECT), {BitBlock(sb, b), b as nat, a};
    IndirectSlot(D, ino[i]);
    SlotsAreOwned(D, sb, ino, owner, i, INDIRECT);
    forall bn: nat | bn < MAXFILE
      ensures Addr(E, ino[i], bn) == if bn == nb then b else Addr(D, ino[i], bn)
      ensures Addr(D, ino[i], bn) as nat !in W
    {
      SlotsAreOwned(D, sb, ino, owner, i, DataSlot(bn));
    }
    BytesKept(D, E, ino[i], ino[i], nb, W);
  }

  lemma IndirectSlot(D: Blocks, d: Dinode)
    ensures Slot(D, d, INDIRECT) == d.addrs[INDIRECT]
    ensures forall k: nat :: k <= INDIRECT ==> Slot(D, d, k) == d.addrs[k]
  {
  }

  lemma LaidIfOwned(D: Blocks, sb: Superblock, ino: seq<Dinode>, owner: Owner)
    requires Owned(D, sb, ino, owner)
    ensures forall a: nat :: a in owner ==> sb.DataStart() <= a < sb.size
    ensures Laid(D, sb) && |ino| == sb.ninodes && |D| == sb.size
  {
  }

  /** First pass beyond the direct blocks: the indirect block itself is fetched. */
  lemma IndirectGiven(D: Blocks, sb: Superblock, ino: seq<Dinode>, owner: Owner, b: u32, i: nat)
    requires Owned(D, sb, ino, owner) && b < sb.size && !Bit(D, sb, b)
    requires i < |ino| && NoHoles(D, ino[i], NDIRECT)
    ensures var E, inoE := Allocated(D, sb, b), ino[i := GiveRecord(ino[i], INDIRECT, b)];
            && Filled(E, inoE[i], NDIRECT)
            && forall p: nat :: p < NDIRECT * BSIZE ==> ByteAt(E, inoE[i], p) == ByteAt(D, ino[i], p)
  {
    hide Allocated, Bit, FileBytes, Owned;
    LaidIfOwned(D, sb, ino, owner);
    var E, inoE := Allocated(D, sb, b), ino[i := GiveRecord(ino[i], INDIRECT, b)];
    RecordSlotGiven(D, sb, ino, owner, b, i, INDIRECT);
    AllocatedFacts(D, sb, b);
    forall bn: nat | bn < MAXFILE
      ensures Addr(E, inoE[i], bn) == Addr(D, ino[i], bn)
      ensures Addr(D, ino[i], bn) as nat !in {BitBlock(sb, b), b as nat}
    {
      SlotsAreOwned(D, sb, ino, owner, i, DataSlot(bn));
    }
    hide Slot;
    BytesKept(D, E, ino[i], inoE[i], NDIRECT, {BitBlock(sb, b), b as nat});
  }

  /** The thirteenth block takes two: the indirect block b, then the data block c. */
  lemma ThirteenthBlockGiven(D: Blocks, sb: Superblock, ino: seq<Dinode>, owner: Owner, b: u32, c: u32, i: nat)
    requires Owned(D, sb, ino, owner) && b < sb.size && !Bit(D, sb, b)
    requires i < |ino| && NoHoles(D, ino[i], NDIRECT)
    requires var E, inoE, ownE := Allocated(D, sb, b), ino[i := GiveRecord(ino[i], INDIRECT, b)],
               owner[b as nat := (i, INDIRECT)];
             Owned(E, sb, inoE, ownE) && c < sb.size && !Bit(E, sb, c)
    ensures Grew(D, ino, GiveEntry(Allocated(D, sb, b), sb, c, b, 0), ino[i := GiveRecord(ino[i], INDIRECT, b)], i,
              NDIRECT)
    ensures |FreeSet(GiveEntry(Allocated(D, sb, b), sb, c, b, 0), sb)| == |FreeSet(D, sb)| - 2
    ensures ino[i].addrs[INDIRECT] == 0
  {
    hide Allocated, GiveEntry, Bit, FileBytes, Owned, Slot, OthersKept;
    LaidIfOwned(D, sb, ino, owner);
    assert ino[i].addrs[INDIRECT] == 0;
    var E, inoE, ownE := Allocated(D, sb, b), ino[i := GiveRecord(ino[i], INDIRECT, b)],
        owner[b as nat := (i, INDIRECT)];
    RecordSlotGiven(D, sb, ino, owner, b, i, INDIRECT);
    IndirectGiven(D, sb, ino, owner, b, i);
    EntryBlockGiven(E, sb, inoE, ownE, c, i, NDIRECT);
    EntryGiven(E, sb, inoE, ownE, c, i, 0);
    OthersKeptTrans(D, ino, E, inoE, GiveEntry(E, sb, c, b, 0), inoE, i);
  }

  /** Where bmap looks. */
  lemma AddrIs(D: Blocks, d: Dinode, nb: nat, bn: nat)
    requires NoHoles(D, d, nb) && bn < MAXFILE
    ensures Addr(D, d, bn) != 0 <==> bn < nb
    ensures bn < NDIRECT ==> Addr(D, d, bn) == d.addrs[bn]
    ensures d.addrs[INDIRECT] != 0 <==> nb > NDIRECT
    ensures bn >= NDIRECT && 0 < d.addrs[INDIRECT] < |D| ==> Addr(D, d, bn) == Word(D[d.addrs[INDIRECT]], bn - NDIRECT)
    ensures Addr(D, d, bn) == Slot(D, d, DataSlot(bn))
  {
  }

  lemma GrewAddr(D: Blocks, ino: seq<Dinode>, E: Blocks, inoE: seq<Dinode>, i: nat, nb: nat)
    requires Grew(D, ino, E, inoE, i, nb)
    ensures i < |inoE| && nb < MAXFILE && NoHoles(E, inoE[i], nb + 1) && Addr(E, inoE[i], nb) != 0
  {
  }

  // ---------- writing inside a block ----------

  /** Filling block bn of inode i with x changes that file's bytes there and nothing else. */
  lemma DataBlockWritten(D: Blocks, sb: Superblock, ino: seq<Dinode>, owner: Owner, i: nat, bn: nat, x: Block)
    requires Owned(D, sb, ino, owner) && i < |ino| && bn < MAXFILE && Addr(D, ino[i], bn) != 0
    ensures sb.DataStart() <= Addr(D, ino[i], bn) < |D|
    ensures var E := D[Addr(D, ino[i], bn) := x];
            && Owned(E, sb, ino, owner) && OthersKept(D, ino, E, ino, i)
            && (forall k: nat :: k < NSLOT ==> Slot(E, ino[i], k) == Slot(D, ino[i], k))
            && (forall p: nat :: ByteAt(E, ino[i], p) == if p / BSIZE == bn then x[p % BSIZE] else ByteAt(D, ino[i], p))
            && (forall b: nat :: b < sb.size ==> Bit(E, sb, b) == Bit(D, sb, b))
  {
    hide Bit, FileBytes, Owned;
    LaidIfOwned(D, sb, ino, owner);
    WhereThingsAre(D, sb);
    SlotsAreOwned(D, sb, ino, owner, i, DataSlot(bn));
    SlotsAreOwned(D, sb, ino, owner, i, INDIRECT);
    var a: nat := Addr(D, ino[i], bn);
    var E: Blocks := D[a := x];
    BitsSame(D, E, sb, {a});
    SlotsSame(D, E, ino[i]);
    OthersKeptOutside(D, sb, ino, owner, E, ino, i, {a});
    forall p: nat
      ensures ByteAt(E, ino[i], p) == if p / BSIZE == bn then x[p % BSIZE] else ByteAt(D, ino[i], p)
    {
      if p / BSIZE < MAXFILE {
        SlotsAreOwned(D, sb, ino, owner, i, DataSlot(p / BSIZE));
      }
    }
    hide Slot;
    OwnedStays(D, E, sb, ino, owner, i);
  }

  lemma OwnedStays(D: Blocks, E: Blocks, sb: Superblock, ino: seq<Dinode>, owner: Owner, i: nat)
    requires Owned(D, sb, ino, owner) && Laid(E, sb) && OthersKept(D, ino, E, ino, i) && i < |ino|
    requires forall k: nat :: k < NSLOT ==> Slot(E, ino[i], k) == Slot(D, ino[i], k)
    requires forall x: nat :: x < sb.size ==> Bit(E, sb, x) == Bit(D, sb, x)
    ensures Owned(E, sb, ino, owner)
  {
    hide Slot, Bit, FileBytes;
    OwnedSame(D, E, sb, ino, ino, owner);
  }

  lemma NoHolesSame(D: Blocks, E: Blocks, d: Dinode, nb: nat)
    requires NoHoles(D, d, nb) && forall k: nat :: k < NSLOT ==> Slot(E, d, k) == Slot(D, d, k)
    ensures NoHoles(E, d, nb)
  {
    hide Slot;
    forall bn: nat | bn < MAXFILE ensures Addr(E, d, bn) == Addr(D, d, bn) {
    }
  }

  function Max(a: nat, b: nat): nat {
    if a > b then a else b
  }

  /** Copying chunk into the block at off splices it into the file. */
  lemma ChunkSpliced(D: Blocks, d: Dinode, E: Blocks, e: Dinode, len: nat, off: nat, chunk: seq<byte>, x: Block,
        bn: nat)
    requires off <= len && bn == off / BSIZE && off % BSIZE + |chunk| <= BSIZE
    requires forall p: nat :: p / BSIZE != bn && p < len ==> ByteAt(E, e, p) == ByteAt(D, d, p)
    requires forall p: nat :: p / BSIZE == bn ==> ByteAt(E, e, p) == x[p % BSIZE]
    requires forall q: nat :: q < BSIZE && !(off % BSIZE <= q < off % BSIZE + |chunk|) && BSIZE * bn + q < len ==>
        x[q] == ByteAt(D, d, BSIZE * bn + q)
    requires forall q: nat :: off % BSIZE <= q < off % BSIZE + |chunk| ==> x[q] == chunk[q - off % BSIZE]
    ensures FileBytes(E, e, Max(len, off + |chunk|)) == Splice(FileBytes(D, d, len), off, chunk)
  {
    hide ByteAt;
    var m := Max(len, off + |chunk|);
    forall p: nat | p < m
      ensures FileBytes(E, e, m)[p] == Splice(FileBytes(D, d, len), off, chunk)[p]
    {
      if p / BSIZE == bn {
        assert p == BSIZE * bn + p % BSIZE && off == BSIZE * bn + off % BSIZE;
      } else {
        assert !(off <= p < off + |chunk|);
      }
    }
  }

  lemma GrewBytes(D: Blocks, ino: seq<Dinode>, E: Blocks, inoE: seq<Dinode>, i: nat, nb: nat, len: nat)
    requires Grew(D, ino, E, inoE, i, nb) && len <= nb * BSIZE
    ensures OthersKept(D, ino, E, inoE, i) && i < |inoE| == |ino| && NoHoles(E, inoE[i], nb + 1)
    ensures inoE[i] == ino[i].(addrs := inoE[i].addrs)
    ensures FileBytes(E, inoE[i], len) == FileBytes(D, ino[i], len)
  {
    hide ByteAt;
  }

  /** One memmove into the block of a file that is already there. */
  lemma ChunkWritten(D: Blocks, sb: Superblock, ino: seq<Dinode>, owner: Owner, i: nat, nb: nat, len: nat, off: nat,
        chunk: seq<byte>)
    requires Owned(D, sb, ino, owner) && i < |ino| && NoHoles(D, ino[i], nb)
    requires off <= len && off / BSIZE < nb && off % BSIZE + |chunk| <= BSIZE
    ensures var a := Addr(D, ino[i], off / BSIZE);
            && sb.DataStart() <= a < |D|
            && var E := D[a := Splice(D[a], off % BSIZE, chunk)];
               && Owned(E, sb, ino, owner) && OthersKept(D, ino, E, ino, i) && NoHoles(E, ino[i], nb)
               && FileBytes(E, ino[i], Max(len, off + |chunk|)) == Splice(FileBytes(D, ino[i], len), off, chunk)
               && FreeSet(E, sb) == FreeSet(D, sb)
               && SameOutside(D, E, {a as nat})
  {
    hide Bit, FileBytes, Owned, Slot, Splice;
    LaidIfOwned(D, sb, ino, owner);
    var bn := off / BSIZE;
    assert Addr(D, ino[i], bn) != 0;
    var a: nat := Addr(D, ino[i], bn);
    SlotsAreOwned(D, sb, ino, owner, i, DataSlot(bn));
    var x: Block := Splice(D[a], off % BSIZE, chunk);
    DataBlockWritten(D, sb, ino, owner, i, bn, x);
    var E: Blocks := D[a := x];
    NoHolesSame(D, E, ino[i], nb);
    forall q: nat | q < BSIZE ensures ByteAt(D, ino[i], BSIZE * bn + q) == D[a][q] {
      assert (BSIZE * bn + q) / BSIZE == bn && (BSIZE * bn + q) % BSIZE == q;
    }
    hide Addr, ByteAt;
    ChunkSpliced(D, ino[i], E, ino[i], len, off, chunk, x, bn);
  }

  // ---------- all inodes as files ----------

  function FilesOf(D: Blocks, ino: seq<Dinode>): (f: seq<File>)
    ensures |f| == |ino|
  {
    seq(|ino|, i requires 0 <= i < |ino| => FileOf(D, ino[i]))
  }

  /** Only inode i's fields and bytes changed. */
  lemma FilesAfter(D: Blocks, ino: seq<Dinode>, E: Blocks, inoE: seq<Dinode>, i: nat, bytes: seq<byte>)
    requires OthersKept(D, ino, E, inoE, i) && i < |ino|
    requires FileBytes(E, inoE[i], inoE[i].size) == bytes
    ensures var d := inoE[i];
            FilesOf(E, inoE) == FilesOf(D, ino)[i := File(d.typ, d.major, d.minor, d.nlink, bytes)]
  {
    hide FileBytes, Slot;
    forall j: nat | j < |ino| && j != i ensures FileOf(E, inoE[j]) == FileOf(D, ino[j]) {
      assert Kept(D, E, ino[j]);
    }
  }

  lemma AllKeptAfter(D: Blocks, ino: seq<Dinode>, E: Blocks, inoE: seq<Dinode>, F: Blocks, i: nat)
    requires OthersKept(D, ino, E, inoE, i) && OthersKept(E, inoE, F, inoE, |inoE|) && i < |ino|
    ensures OthersKept(D, ino, F, inoE, i)
    ensures FileBytes(F, inoE[i], inoE[i].size) == FileBytes(E, inoE[i], inoE[i].size)
    ensures Kept(E, F, inoE[i])
  {
    hide FileBytes, Slot;
    forall j: nat | j < |ino| && j != i ensures inoE[j] == ino[j] && Kept(D, F, ino[j]) {
      assert Kept(D, E, ino[j]) && Kept(E, F, inoE[j]);
    }
    assert Kept(E, F, inoE[i]);
  }

  lemma OthersKeptWithRecord(D: Blocks, ino: seq<Dinode>, E: Blocks, inoE: seq<Dinode>, i: nat, d: Dinode)
    requires OthersKept(D, ino, E, inoE, i) && i < |ino|
    ensures OthersKept(D, ino, E, inoE[i := d], i)
  {
    hide Kept;
  }

  lemma BytesByAddrs(D: Blocks, d: Dinode, e: Dinode, n: nat)
    requires d.addrs == e.addrs
    ensures FileBytes(D, e, n) == FileBytes(D, d, n)
  {
    forall p: nat | p < n ensures ByteAt(D, e, p) == ByteAt(D, d, p) {
    }
  }

  /** A slice of one block is a slice of the file. */
  lemma ChunkRead(D: Blocks, d: Dinode, nb: nat, len: nat, off: nat, m: nat)
    requires NoHoles(D, d, nb) && off / BSIZE < nb && off % BSIZE + m <= BSIZE && off + m <= len
    requires Addr(D, d, off / BSIZE) < |D|
    ensures D[Addr(D, d, off / BSIZE)][off % BSIZE..off % BSIZE + m] == FileBytes(D, d, len)[off..off + m]
  {
    hide Addr;
    var l, r := D[Addr(D, d, off / BSIZE)][off % BSIZE..off % BSIZE + m], FileBytes(D, d, len)[off..off + m];
    forall k: nat | k < m ensures l[k] == r[k] {
      assert (off + k) / BSIZE == off / BSIZE && (off + k) % BSIZE == off % BSIZE + k;
    }
  }

  // ---------- taking blocks back ----------

  lemma FreeSetAfterTaking(D: Blocks, E: Blocks, sb: Superblock, b: nat)
    requires Laid(D, sb) && Laid(E, sb) && b < sb.size && Bit(D, sb, b)
    requires forall x: nat :: x < sb.size ==> (Bit(E, sb, x) <==> x != b && Bit(D, sb, x))
    ensures b !in FreeSet(D, sb) && FreeSet(E, sb) == FreeSet(D, sb) + {b}
    ensures |FreeSet(E, sb)| == |FreeSet(D, sb)| + 1
  {
    hide Bit;
  }

  lemma FreedFacts(D: Blocks, sb: Superblock, b: nat)
    requires Laid(D, sb) && sb.DataStart() <= b < sb.size
    ensures var E := WithBit(D, sb, b, false);
            && Laid(E, sb) && SameOutside(D, E, {BitBlock(sb, b)})
            && (forall x: nat :: x < sb.size ==> (Bit(E, sb, x) <==> x != b && Bit(D, sb, x)))
            && 2 <= sb.bmapstart <= BitBlock(sb, b) < sb.DataStart()
  {
    WhereThingsAre(D, sb);
    BitsOfFreed(D, sb, b);
    hide SetMapBit, Bit;
  }

  lemma SlotsWithoutRecord(D: Blocks, E: Blocks, d: Dinode, k: nat)
    requires |E| == |D| && k <= INDIRECT
    requires k == INDIRECT ==> forall l: nat :: INDIRECT < l < NSLOT ==> Slot(D, d, l) == 0
    requires k != INDIRECT && 0 < d.addrs[INDIRECT] < |D| ==> E[d.addrs[INDIRECT]] == D[d.addrs[INDIRECT]]
    ensures forall l: nat :: l < NSLOT ==> Slot(E, GiveRecord(d, k, 0), l) == if l == k then 0 else Slot(D, d, l)
  {
  }

  /** The block in slot k is freed and the slot cleared. */
  lemma RecordSlotTaken(D: Blocks, sb: Superblock, ino: seq<Dinode>, owner: Owner, i: nat, k: nat)
    requires Owned(D, sb, ino, owner) && i < |ino| && k <= INDIRECT && ino[i].addrs[k] != 0
    requires k == INDIRECT ==> forall l: nat :: INDIRECT < l < NSLOT ==> Slot(D, ino[i], l) == 0
    ensures var a: nat := ino[i].addrs[k]; var E := WithBit(D, sb, a, false);
              var inoE := ino[i := GiveRecord(ino[i], k, 0)];
            && sb.DataStart() <= a < sb.size && Bit(D, sb, a) && a in owner && owner[a] == (i, k)
            && Owned(E, sb, inoE, owner - {a})
            && OthersKept(D, ino, E, inoE, i)
            && (forall l: nat :: l < NSLOT ==> Slot(E, inoE[i], l) == if l == k then 0 else Slot(D, ino[i], l))
            && FreeSet(E, sb) == FreeSet(D, sb) + {a} && |FreeSet(E, sb)| == |FreeSet(D, sb)| + 1
            && SameOutside(D, E, {BitBlock(sb, a)}) && sb.bmapstart <= BitBlock(sb, a) < sb.DataStart()
  {
    hide WithBit, Bit, FileBytes;
    var a: nat := ino[i].addrs[k];
    var E, inoE := WithBit(D, sb, a, false), ino[i := GiveRecord(ino[i], k, 0)];
    assert Slot(D, ino[i], k) == a;
    SlotsAreOwned(D, sb, ino, owner, i, k);
    SlotsAreOwned(D, sb, ino, owner, i, INDIRECT);
    IndirectSlot(D, ino[i]);
    FreedFacts(D, sb, a);
    OthersKeptOutside(D, sb, ino, owner, E, inoE, i, {BitBlock(sb, a)});
    SlotsWithoutRecord(D, E, ino[i], k);
    hide Slot;
    OneSlotFromOthers(D, ino, E, inoE, i, k, 0);
    OwnedAfterTaking(D, ino, E, inoE, sb, owner, a, i, k);
    FreeSetAfterTaking(D, E, sb, a);
  }

  /** Frees entry j of the indirect block and forgets it. */
  function TakeEntry(D: Blocks, sb: Superblock, b: nat, a: nat, j: nat): Blocks
    requires j < NINDIRECT
  {
    var E := WithBit(D, sb, b, false);
    if a < |D| then E[a := PutWord(E[a], j, 0)] else E
  }

  lemma IndirectNeeded(D: Blocks, d: Dinode, k: nat)
    requires INDIRECT < k < NSLOT && Slot(D, d, k) != 0
    ensures 0 < d.addrs[INDIRECT] < |D|
  {
  }

  lemma EntryTaken(D: Blocks, sb: Superblock, ino: seq<Dinode>, owner: Owner, i: nat, j: nat)
    requires Owned(D, sb, ino, owner) && i < |ino| && j < NINDIRECT && Slot(D, ino[i], INDIRECT + 1 + j) != 0
    ensures var a: nat := ino[i].addrs[INDIRECT]; var b: nat := Slot(D, ino[i], INDIRECT + 1 + j);
            var E := TakeEntry(D, sb, b, a, j);
            && sb.DataStart() <= a < sb.size && sb.DataStart() <= b < sb.size && Bit(D, sb, b) && a != b
            && b in owner && owner[b] == (i, INDIRECT + 1 + j)
            && Owned(E, sb, ino, owner - {b})
            && OthersKept(D, ino, E, ino, i)
            && (forall l: nat :: l < NSLOT ==>
                Slot(E, ino[i], l) == if l == INDIRECT + 1 + j then 0 else Slot(D, ino[i], l))
            && FreeSet(E, sb) == FreeSet(D, sb) + {b} && |FreeSet(E, sb)| == |FreeSet(D, sb)| + 1
            && SameOutside(D, E, {BitBlock(sb, b), a}) && sb.bmapstart <= BitBlock(sb, b) < sb.DataStart()
  {
    hide WithBit, Bit, FileBytes, Slot, PutWord, Owned, OthersKept;
    LaidIfOwned(D, sb, ino, owner);
    var a: nat := ino[i].addrs[INDIRECT];
    var b: nat := Slot(D, ino[i], INDIRECT + 1 + j);
    IndirectSlot(D, ino[i]);
    SlotsAreOwned(D, sb, ino, owner, i, INDIRECT);
    SlotsAreOwned(D, sb, ino, owner, i, INDIRECT + 1 + j);
    FreedFacts(D, sb, b);
    var F, E := WithBit(D, sb, b, false), TakeEntry(D, sb, b, a, j);
    assert F[a] == D[a];
    BitsSame(F, E, sb, {a});
    IndirectNeeded(D, ino[i], INDIRECT + 1 + j);
    EntrySlots(D, E, ino[i], j, 0);
    OthersKeptOutside(D, sb, ino, owner, E, ino, i, {BitBlock(sb, b), a});
    OneSlotFromOthers(D, ino, E, ino, i, INDIRECT + 1 + j, 0);
    OwnedAfterTaking(D, ino, E, ino, sb, owner, b, i, INDIRECT + 1 + j);
    FreeSetAfterTaking(D, E, sb, b);
  }

  lemma WithBitElsewhere(D: Blocks, sb: Superblock, a: nat, x: Block, b: nat, on: bool)
    requires a < |D| && BitBlock(sb, b) != a
    ensures WithBit(D[a := x], sb, b, on) == WithBit(D, sb, b, on)[a := x]
    ensures WithBit(D, sb, b, on)[a] == D[a]
  {
  }

  /** The bytes of an unowned block do not matter. */
  lemma UnownedBlock(D: Blocks, E: Blocks, sb: Superblock, ino: seq<Dinode>, owner: Owner, a: nat)
    requires Owned(D, sb, ino, owner) && SameOutside(D, E, {a}) && sb.DataStart() <= a && a !in owner
    ensures Owned(E, sb, ino, owner) && OthersKept(D, ino, E, ino, |ino|)
    ensures FreeSet(E, sb) == FreeSet(D, sb)
  {
    hide Bit, FileBytes, Slot;
    LaidIfOwned(D, sb, ino, owner);
    BitsSame(D, E, sb, {a});
    OthersKeptOutside(D, sb, ino, owner, E, ino, |ino|, {a});
    assert forall j: nat :: j < |ino| ==> Kept(D, E, ino[j]);
    OwnedSame(D, E, sb, ino, ino, owner);
  }

  lemma NoSlotsNoHoles(D: Blocks, d: Dinode)
    requires forall l: nat :: l < NSLOT ==> Slot(D, d, l) == 0
    ensures NoHoles(D, d, 0)
  {
    IndirectSlot(D, d);
    hide Slot;
  }

  /** The slots of a file without holes. */
  lemma NoHolesSlots(D: Blocks, d: Dinode, nb: nat, l: nat)
    requires NoHoles(D, d, nb) && l < NSLOT
    ensures Slot(D, d, l) != 0 <==> if l < INDIRECT then l < nb else if l == INDIRECT then nb > NDIRECT else l - 1 < nb
  {
    IndirectSlot(D, d);
    if l > INDIRECT {
      assert Addr(D, d, l - 1) == Slot(D, d, l);
    } else if l < INDIRECT {
      assert Addr(D, d, l) == Slot(D, d, l);
    }
  }
}
