/** The on-disk format: constants and the three records the kernel and mkfs both read and write. */
module Layout {
  import opened Bytes

  const BSIZE: nat := 512        // bytes in a block
  const NDIRECT: nat := 12       // direct slots of an inode
  const NINDIRECT: nat := 128    // entries of the indirect block
  const MAXFILE: nat := NDIRECT + NINDIRECT
  const IPB: nat := 8            // inodes in a block
  const BPB: nat := 4096         // bitmap bits in a block
  const FSSIZE: nat := 1000      // blocks on the disk
  const ROOTINO: nat := 1
  const ROOTDEV: nat := 1
  const DINODE_SIZE: nat := 64
  const DIRENT_SIZE: nat := 16
  const DIRSIZ: nat := 14

  const T_DIR: u16 := 1
  const T_FILE: u16 := 2
  const T_DEV: u16 := 3

  type Block = s: seq<byte> | |s| == BSIZE witness Zeros(BSIZE)

  // ---------- superblock ----------

  datatype Superblock = Superblock(size: u32, nblocks: u32, ninodes: u32, nlog: u32,
                                   logstart: u32, inodestart: u32, bmapstart: u32)
  {
    /** First block that is not boot, super, log, inode or bitmap block. */
    function DataStart(): int {
      size - nblocks
    }
  }

  function SuperWords(sb: Superblock): seq<u32> {
    [sb.size, sb.nblocks, sb.ninodes, sb.nlog, sb.logstart, sb.inodestart, sb.bmapstart]
  }

  function GetSuper(b: Block): Superblock {
    Superblock(Word(b, 0), Word(b, 1), Word(b, 2), Word(b, 3), Word(b, 4), Word(b, 5), Word(b, 6))
  }

  /** A block with the superblock at its start. */
  function PutSuper(b: Block, sb: Superblock): Block {
    Splice(b, 0, FromWords(SuperWords(sb)))
  }

  lemma GetPutSuper(b: Block, sb: Superblock)
    ensures GetSuper(PutSuper(b, sb)) == sb
  {
    var ws := SuperWords(sb);
    forall k: nat | k < 7
      ensures Word(PutSuper(b, sb), k) == ws[k]
    {
      WordFromWords(ws, k);
      assert PutSuper(b, sb)[4 * k..4 * k + 4] == FromWords(ws)[4 * k..4 * k + 4];
    }
  }

  /** The fields of the superblock are seven words, in this order. */
  lemma SuperBytes(b: Block)
    ensures var sb := GetSuper(b);
            && sb.size == Le32(b, 0) && sb.nblocks == Le32(b, 4) && sb.ninodes == Le32(b, 8) && sb.nlog == Le32(b, 12)
            && sb.logstart == Le32(b, 16) && sb.inodestart == Le32(b, 20) && sb.bmapstart == Le32(b, 24)
  {
    forall k: nat | k < 7 ensures Word(b, k) == Le32(b, 4 * k) {
      WordBytes(b, k);
    }
    hide Word, Le32;
    assert Word(b, 0) == Le32(b, 4 * 0) && Word(b, 1) == Le32(b, 4 * 1) && Word(b, 2) == Le32(b, 4 * 2);
    assert Word(b, 3) == Le32(b, 4 * 3) && Word(b, 4) == Le32(b, 4 * 4) && Word(b, 5) == Le32(b, 4 * 5);
    assert Word(b, 6) == Le32(b, 4 * 6);
  }

  // ---------- inode records ----------

  datatype DinodeRec = Dinode(typ: u16, major: u16, minor: u16, nlink: u16, size: u32, addrs: seq<u32>)

  type Dinode = d: DinodeRec | |d.addrs| == NDIRECT + 1 witness FreshDinode(0)

  const NO_ADDRS: seq<u32> := [0, 0, 0, 0, 0, 0, 0, 0, 0, 0, 0, 0, 0]

  /** A zeroed record with only its type set. */
  function FreshDinode(typ: u16): DinodeRec {
    Dinode(typ, 0, 0, 0, 0, NO_ADDRS)
  }

  function EncodeDinode(d: Dinode): (s: seq<byte>)
    ensures |s| == DINODE_SIZE
  {
    FromU16(d.typ) + FromU16(d.major) + FromU16(d.minor) + FromU16(d.nlink) + FromU32(d.size) + FromWords(d.addrs)
  }

  function DecodeDinode(s: seq<byte>): Dinode
    requires |s| == DINODE_SIZE
  {
    Dinode(ToU16(s[0..2]), ToU16(s[2..4]), ToU16(s[4..6]), ToU16(s[6..8]), ToU32(s[8..12]),
           seq(NDIRECT + 1, k requires 0 <= k < NDIRECT + 1 => Word(s[12..], k)))
  }

  lemma DinodeRoundTrip(d: Dinode)
    ensures DecodeDinode(EncodeDinode(d)) == d
  {
    var s := EncodeDinode(d);
    assert s[0..2] == FromU16(d.typ) && s[2..4] == FromU16(d.major);
    assert s[4..6] == FromU16(d.minor) && s[6..8] == FromU16(d.nlink);
    assert s[8..12] == FromU32(d.size);
    U32RoundTrip(d.size);
    assert s[12..] == FromWords(d.addrs);
    forall k: nat | k < NDIRECT + 1
      ensures Word(s[12..], k) == d.addrs[k]
    {
      WordFromWords(d.addrs, k);
    }
    assert DecodeDinode(s).addrs == d.addrs;
  }

  /** Type, device numbers and links in two bytes each, then the size and thirteen addresses in four. */
  lemma DinodeBytes(s: seq<byte>)
    requires |s| == DINODE_SIZE
    ensures var d := DecodeDinode(s);
            && d.typ == Le16(s, 0) && d.major == Le16(s, 2) && d.minor == Le16(s, 4) && d.nlink == Le16(s, 6)
            && d.size == Le32(s, 8) && forall k: nat :: k < 13 ==> d.addrs[k] == Le32(s, 12 + 4 * k)
  {
    ReadLow(s, 0);
    ReadLow(s, 2);
    ReadLow(s, 4);
    ReadLow(s, 6);
    ReadLow(s, 8);
    forall k: nat | k < 13 ensures DecodeDinode(s).addrs[k] == Le32(s, 12 + 4 * k) {
      WordBytes(s[12..], k);
      assert s[12..][4 * k..4 * k + 4] == s[12 + 4 * k..12 + 4 * k + 4];
    }
  }

  /** Inode record k of a block. */
  function GetDinode(b: Block, k: nat): Dinode
    requires k < IPB
  {
    DecodeDinode(b[DINODE_SIZE * k..DINODE_SIZE * k + DINODE_SIZE])
  }

  function PutDinode(b: Block, k: nat, d: Dinode): Block
    requires k < IPB
  {
    Splice(b, DINODE_SIZE * k, EncodeDinode(d))
  }

  lemma GetPutDinode(b: Block, k: nat, d: Dinode, j: nat)
    requires k < IPB && j < IPB
    ensures GetDinode(PutDinode(b, k, d), j) == if j == k then d else GetDinode(b, j)
  {
    if j == k {
      SpliceWindow(b, DINODE_SIZE * k, EncodeDinode(d));
      DinodeRoundTrip(d);
    } else {
      SpliceBeside(b, DINODE_SIZE * k, EncodeDinode(d), DINODE_SIZE * j, DINODE_SIZE * j + DINODE_SIZE);
    }
  }

  lemma ZeroBlockIsFree(k: nat)
    requires k < IPB
    ensures GetDinode(Zeros(BSIZE), k) == FreshDinode(0)
  {
    var s := Zeros(BSIZE)[DINODE_SIZE * k..DINODE_SIZE * k + DINODE_SIZE];
    assert s == Zeros(DINODE_SIZE) && s[12..] == Zeros(52);
    forall j: nat | j < NDIRECT + 1
      ensures Word(s[12..], j) == 0
    {
      WordOfZeros(52, j);
    }
    assert s[8..12] == [0, 0, 0, 0];
    assert DecodeDinode(s).addrs == NO_ADDRS;
  }

  // ---------- directory records ----------

  datatype DirentRec = Dirent(inum: u16, name: seq<byte>)

  type Dirent = d: DirentRec | |d.name| == DIRSIZ witness Dirent(0, Zeros(DIRSIZ))

  function EncodeDirent(d: Dirent): (s: seq<byte>)
    ensures |s| == DIRENT_SIZE
  {
    FromU16(d.inum) + d.name
  }

  function DecodeDirent(s: seq<byte>): Dirent
    requires |s| == DIRENT_SIZE
  {
    Dirent(ToU16(s[..2]), s[2..])
  }

  /** The inode number in two bytes, then fourteen of name. */
  lemma DirentBytes(s: seq<byte>)
    requires |s| == DIRENT_SIZE
    ensures DecodeDirent(s).inum == Le16(s, 0) && DecodeDirent(s).name == s[2..16]
  {
    ReadLow(s, 0);
    assert s[0..2] == s[..2];
  }

  lemma DirentRoundTrip(d: Dirent)
    ensures DecodeDirent(EncodeDirent(d)) == d
  {
    assert EncodeDirent(d)[..2] == FromU16(d.inum);
    assert EncodeDirent(d)[2..] == d.name;
  }
}
