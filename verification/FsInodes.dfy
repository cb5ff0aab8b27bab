/** The inode cache, and what the disk, the inodes and the cache agree on: each step of the file
    system code as a change of these values. */
module FsInodes {
  import opened Bytes
  import opened Layout
  import opened FsState

  const NINODE: nat := 50     // entries of the inode cache

  /** struct inode: a cache entry, with its copy of the disk record. */
  datatype Inode = Inode(dev: nat, inum: nat, ref: nat, valid: bool, rec: Dinode)

  // ---------- the inode cache ----------

  /** Each referenced inode has one entry, counting its references; a valid entry is a copy of
      the inode. */
  ghost predicate Cached(icache: seq<Inode>, ino: seq<Dinode>, refs: multiset<nat>, entry: map<nat, nat>) {
    && |icache| == NINODE
    && (forall i: nat :: i in entry ==> entry[i] < NINODE && icache[entry[i]].ref > 0 && icache[entry[i]].inum == i)
    && (forall e: nat :: e < NINODE && icache[e].ref > 0 ==>
          && icache[e].dev == ROOTDEV && icache[e].inum < |ino|
          && icache[e].inum in entry && entry[icache[e].inum] == e
          && (icache[e].valid ==> icache[e].rec == ino[icache[e].inum]))
    && (forall i: nat :: refs[i] == if i in entry then icache[entry[i]].ref else 0)
  }

  /** Fewer references than entries leave an entry free. */
  lemma SomeEntryFree(icache: seq<Inode>, ino: seq<Dinode>, refs: multiset<nat>, entry: map<nat, nat>)
    requires Cached(icache, ino, refs, entry) && |refs| < NINODE
    ensures exists e: nat :: e < NINODE && icache[e].ref == 0
  {
    if forall e: nat :: e < NINODE ==> icache[e].ref != 0 {
      RefsAtLeast(icache, ino, refs, entry, {}, 0);
    }
  }

  lemma {:induction false} RefsAtLeast(icache: seq<Inode>, ino: seq<Dinode>, refs: multiset<nat>,
        entry: map<nat, nat>, seen: set<nat>, n: nat)
    requires Cached(icache, ino, refs, entry) && n <= NINODE && |seen| == n
    requires forall i :: i in seen ==> i in entry && entry[i] < n
    requires forall e: nat :: e < NINODE ==> icache[e].ref > 0
    ensures |refs| >= NINODE
    decreases NINODE - n
  {
    if n == NINODE {
      assert multiset(seen) <= refs;
      assert refs == multiset(seen) + (refs - multiset(seen));
    } else {
      assert icache[n].ref > 0 && entry[icache[n].inum] == n;
      RefsAtLeast(icache, ino, refs, entry, seen + {icache[n].inum}, n + 1);
    }
  }

  /** The on-disk records of all inodes but the dirty ones are up to date and without holes. */
  ghost predicate Synced(D: Blocks, sb: Superblock, ino: seq<Dinode>, dirty: set<nat>) {
    && Laid(D, sb) && |ino| == sb.ninodes
    && forall i: nat :: i < |ino| && i !in dirty ==> Dino(D, sb, i) == ino[i] && Dense(D, ino[i])
  }

  lemma SyncedWhenOthersKept(D: Blocks, sb: Superblock, ino: seq<Dinode>, E: Blocks, inoE: seq<Dinode>, i: nat,
        dirty: set<nat>)
    requires Synced(D, sb, ino, dirty) && Laid(E, sb) && OthersKept(D, ino, E, inoE, i)
    requires forall j: nat :: j < sb.ninodes ==> Dino(E, sb, j) == Dino(D, sb, j)
    ensures Synced(E, sb, inoE, dirty + {i})
  {
    hide Dino, Dense, Kept;
    forall j: nat | j < |inoE| && j !in dirty + {i} ensures Dense(E, inoE[j]) {
      KeptDense(D, E, ino[j]);
    }
  }

  /** The disk, the inodes and the inode cache agree. */
  ghost predicate Agree(D: Blocks, sb: Superblock, ino: seq<Dinode>, owner: Owner, icache: seq<Inode>,
        refs: multiset<nat>, entry: map<nat, nat>, dirty: set<nat>) {
    && Cached(icache, ino, refs, entry)
    && Owned(D, sb, ino, owner)
    && Synced(D, sb, ino, dirty)
  }

  lemma AgreeFacts(D: Blocks, sb: Superblock, ino: seq<Dinode>, owner: Owner, icache: seq<Inode>, refs: multiset<nat>,
        entry: map<nat, nat>, dirty: set<nat>)
    requires Agree(D, sb, ino, owner, icache, refs, entry, dirty)
    ensures Laid(D, sb) && |ino| == sb.ninodes && |D| == sb.size && |icache| == NINODE
    ensures 2 <= sb.inodestart < sb.bmapstart < sb.DataStart() <= sb.size
    ensures forall x: nat :: x < sb.DataStart() ==> Bit(D, sb, x)
  {
    WhereThingsAre(D, sb);
  }

  lemma CachedWithRecord(icache: seq<Inode>, ino: seq<Dinode>, refs: multiset<nat>, entry: map<nat, nat>, ip: nat,
        d: Dinode)
    requires Cached(icache, ino, refs, entry) && ip < NINODE && icache[ip].ref > 0 && icache[ip].inum < |ino|
    ensures Cached(icache[ip := icache[ip].(rec := d)], ino[icache[ip].inum := d], refs, entry)
  {
  }

  lemma AgreeAfterRecordGiven(D: Blocks, sb: Superblock, ino: seq<Dinode>, owner: Owner, icache: seq<Inode>,
        refs: multiset<nat>, entry: map<nat, nat>, ip: nat, k: nat, b: u32)
    requires ip < |icache| && icache[ip].ref > 0 && icache[ip].inum < |ino|
    requires Agree(D, sb, ino, owner, icache, refs, entry, {icache[ip].inum})
    requires k <= INDIRECT && ino[icache[ip].inum].addrs[k] == 0 && b < sb.size && !Bit(D, sb, b)
    ensures var i := icache[ip].inum; var d := GiveRecord(ino[i], k, b);
            Agree(Allocated(D, sb, b), sb, ino[i := d], owner[b as nat := (i, k)],
                icache[ip := icache[ip].(rec := d)], refs, entry, {i})
    ensures sb.DataStart() <= b
  {
    hide Bit, Allocated, Dino, FileBytes, Slot, Cached, Synced, Owned, OthersKept;
    var i := icache[ip].inum;
    AgreeFacts(D, sb, ino, owner, icache, refs, entry, {i});
    var d, E := GiveRecord(ino[i], k, b), Allocated(D, sb, b);
    RecordSlotGiven(D, sb, ino, owner, b, i, k);
    AllocatedFacts(D, sb, b);
    DinosSame(D, E, sb, {BitBlock(sb, b), b as nat});
    SyncedWhenOthersKept(D, sb, ino, E, ino[i := d], i, {i});
    assert {i} + {i} == {i};
    CachedWithRecord(icache, ino, refs, entry, ip, d);
  }

  lemma AgreeAfterEntryGiven(D: Blocks, sb: Superblock, ino: seq<Dinode>, owner: Owner, icache: seq<Inode>,
        refs: multiset<nat>, entry: map<nat, nat>, i: nat, j: nat, b: u32)
    requires Agree(D, sb, ino, owner, icache, refs, entry, {i}) && i < |ino| && j < NINDIRECT
    requires ino[i].addrs[INDIRECT] != 0 && Slot(D, ino[i], INDIRECT + 1 + j) == 0
    requires b < sb.size && !Bit(D, sb, b)
    ensures var a := ino[i].addrs[INDIRECT]; sb.DataStart() <= a < sb.size && a != b && sb.DataStart() <= b
    ensures Agree(GiveEntry(D, sb, b, ino[i].addrs[INDIRECT], j), sb, ino, owner[b as nat := (i, INDIRECT + 1 + j)],
              icache, refs, entry, {i})
    ensures Slot(GiveEntry(D, sb, b, ino[i].addrs[INDIRECT], j), ino[i], INDIRECT + 1 + j) == b
  {
    hide Bit, GiveEntry, Dino, FileBytes, Slot, Cached, Synced, Owned, OthersKept;
    AgreeFacts(D, sb, ino, owner, icache, refs, entry, {i});
    WhereThingsAre(D, sb);
    var a: nat := ino[i].addrs[INDIRECT];
    var E := GiveEntry(D, sb, b, a, j);
    EntryGiven(D, sb, ino, owner, b, i, j);
    DinosSame(D, E, sb, {BitBlock(sb, b), b as nat, a});
    SyncedWhenOthersKept(D, sb, ino, E, ino, i, {i});
    assert {i} + {i} == {i};
  }

  /** Slots of inode i that are in use point into the data area. */
  lemma AgreeSlot(D: Blocks, sb: Superblock, ino: seq<Dinode>, owner: Owner, icache: seq<Inode>, refs: multiset<nat>,
        entry: map<nat, nat>, dirty: set<nat>, i: nat, k: nat)
    requires Agree(D, sb, ino, owner, icache, refs, entry, dirty) && i < |ino| && k < NSLOT
    ensures Slot(D, ino[i], k) == 0 || sb.DataStart() <= Slot(D, ino[i], k) < sb.size == |D|
    ensures Slot(D, ino[i], INDIRECT) == ino[i].addrs[INDIRECT]
  {
    SlotsAreOwned(D, sb, ino, owner, i, k);
  }

  /** Filling a data block of inode i keeps everything but that file's bytes. */
  lemma AgreeAfterChunk(D: Blocks, sb: Superblock, ino: seq<Dinode>, owner: Owner, icache: seq<Inode>,
        refs: multiset<nat>, entry: map<nat, nat>, i: nat, nb: nat, len: nat, off: nat, chunk: seq<byte>)
    requires Agree(D, sb, ino, owner, icache, refs, entry, {i}) && i < |ino| && NoHoles(D, ino[i], nb)
    requires off <= len && off / BSIZE < nb && off % BSIZE + |chunk| <= BSIZE
    ensures var a := Addr(D, ino[i], off / BSIZE);
            && sb.DataStart() <= a < |D| == sb.size
            && var E := D[a := Splice(D[a], off % BSIZE, chunk)];
               && Agree(E, sb, ino, owner, icache, refs, entry, {i})
               && OthersKept(D, ino, E, ino, i) && NoHoles(E, ino[i], nb)
               && FileBytes(E, ino[i], Max(len, off + |chunk|)) == Splice(FileBytes(D, ino[i], len), off, chunk)
               && FreeSet(E, sb) == FreeSet(D, sb)
               && (forall j: nat :: j < sb.ninodes ==> Dino(E, sb, j) == Dino(D, sb, j))
               && E[1] == D[1]
  {
    hide Bit, Dino, FileBytes, Slot, Addr, Cached, Synced, Owned, OthersKept, NoHoles, FreeSet, Splice;
    AgreeFacts(D, sb, ino, owner, icache, refs, entry, {i});
    NoHolesBound(D, ino[i], nb);
    ChunkWritten(D, sb, ino, owner, i, nb, len, off, chunk);
    var a: nat := Addr(D, ino[i], off / BSIZE);
    var x: Block := Splice(D[a], off % BSIZE, chunk);
    DinosSame(D, D[a := x], sb, {a});
    SyncedWhenOthersKept(D, sb, ino, D[a := x], ino, i, {i});
    assert {i} + {i} == {i};
  }

  /** Changing fields other than addrs of a cached inode moves no block. */
  lemma AgreeWithFields(D: Blocks, sb: Superblock, ino: seq<Dinode>, owner: Owner, icache: seq<Inode>,
        refs: multiset<nat>, entry: map<nat, nat>, ip: nat, d: Dinode)
    requires ip < |icache| && icache[ip].ref > 0 && icache[ip].inum < |ino|
    requires Agree(D, sb, ino, owner, icache, refs, entry, {icache[ip].inum}) && d.addrs == ino[icache[ip].inum].addrs
    ensures Agree(D, sb, ino[icache[ip].inum := d], owner, icache[ip := icache[ip].(rec := d)], refs, entry,
              {icache[ip].inum})
  {
    hide Bit, Dino, Dense;
    var i := icache[ip].inum;
    CachedWithRecord(icache, ino, refs, entry, ip, d);
    forall j: nat, l: nat | j < |ino| && l < NSLOT ensures Slot(D, ino[i := d][j], l) == Slot(D, ino[j], l) {
    }
    hide Slot;
    OwnedSame(D, D, sb, ino, ino[i := d], owner);
  }

  /** iupdate on inode i. */
  lemma AgreeAfterUpdate(D: Blocks, sb: Superblock, ino: seq<Dinode>, owner: Owner, icache: seq<Inode>,
        refs: multiset<nat>, entry: map<nat, nat>, i: nat)
    requires Agree(D, sb, ino, owner, icache, refs, entry, {i}) && i < |ino| && Dense(D, ino[i])
    ensures var E := WithDinode(D, sb, i, ino[i]);
            && Agree(E, sb, ino, owner, icache, refs, entry, {})
            && OthersKept(D, ino, E, ino, |ino|)
            && FreeSet(E, sb) == FreeSet(D, sb) && E[1] == D[1]
            && 2 <= InodeBlock(sb, i) < |D|
            && E == D[InodeBlock(sb, i) := PutDinode(D[InodeBlock(sb, i)], i % IPB, ino[i])]
  {
    hide Dino, FileBytes, Slot, Cached, Owned, Kept, Dense, WithDinode;
    AgreeFacts(D, sb, ino, owner, icache, refs, entry, {i});
    var E := WithDinode(D, sb, i, ino[i]);
    InodeWritten(D, sb, ino, owner, i, ino[i]);
    forall j: nat | j < |ino| ensures Dino(E, sb, j) == ino[j] && Dense(E, ino[j]) {
      DinoWithDinode(D, sb, i, ino[i], j);
      KeptDense(D, E, ino[j]);
    }
  }

  lemma InodeWritten(D: Blocks, sb: Superblock, ino: seq<Dinode>, owner: Owner, i: nat, d: Dinode)
    requires Owned(D, sb, ino, owner) && i < |ino|
    ensures var E := WithDinode(D, sb, i, d);
            && Owned(E, sb, ino, owner) && OthersKept(D, ino, E, ino, |ino|)
            && FreeSet(E, sb) == FreeSet(D, sb) && E[1] == D[1] && Laid(E, sb)
            && 2 <= InodeBlock(sb, i) < |D|
            && E == D[InodeBlock(sb, i) := PutDinode(D[InodeBlock(sb, i)], i % IPB, d)]
  {
    hide Bit, FileBytes, Slot, PutDinode;
    WhereThingsAre(D, sb);
    var E, W := WithDinode(D, sb, i, d), {InodeBlock(sb, i)};
    BitsSame(D, E, sb, W);
    OthersKeptOutside(D, sb, ino, owner, E, ino, |ino|, W);
    OwnedSame(D, E, sb, ino, ino, owner);
  }

  lemma AgreeClean(D: Blocks, sb: Superblock, ino: seq<Dinode>, owner: Owner, icache: seq<Inode>, refs: multiset<nat>,
        entry: map<nat, nat>, i: nat)
    requires i < |ino|
    ensures Agree(D, sb, ino, owner, icache, refs, entry, {}) <==>
            Agree(D, sb, ino, owner, icache, refs, entry, {i}) && Dino(D, sb, i) == ino[i] && Dense(D, ino[i])
  {
    hide Cached, Owned, Dense, Dino;
  }

  lemma AgreeAfterRecordTaken(D: Blocks, sb: Superblock, ino: seq<Dinode>, owner: Owner, icache: seq<Inode>,
        refs: multiset<nat>, entry: map<nat, nat>, ip: nat, k: nat)
    requires ip < |icache| && icache[ip].ref > 0 && icache[ip].inum < |ino|
    requires Agree(D, sb, ino, owner, icache, refs, entry, {icache[ip].inum})
    requires k <= INDIRECT && ino[icache[ip].inum].addrs[k] != 0
    requires k == INDIRECT ==> forall l: nat :: INDIRECT < l < NSLOT ==> Slot(D, ino[icache[ip].inum], l) == 0
    ensures var i := icache[ip].inum; var a: nat := ino[i].addrs[k]; var d := GiveRecord(ino[i], k, 0);
            var E := WithBit(D, sb, a, false);
            && sb.DataStart() <= a < sb.size && Bit(D, sb, a) && a in owner
            && Agree(E, sb, ino[i := d], owner - {a}, icache[ip := icache[ip].(rec := d)], refs, entry, {i})
            && OthersKept(D, ino, E, ino[i := d], i)
            && (forall l: nat :: l < NSLOT ==> Slot(E, d, l) == if l == k then 0 else Slot(D, ino[i], l))
            && |FreeSet(E, sb)| == |FreeSet(D, sb)| + 1
  {
    hide Bit, WithBit, Dino, FileBytes, Slot, Cached, Synced, Owned, OthersKept;
    var i := icache[ip].inum;
    AgreeFacts(D, sb, ino, owner, icache, refs, entry, {i});
    var a: nat := ino[i].addrs[k];
    var d, E := GiveRecord(ino[i], k, 0), WithBit(D, sb, a, false);
    RecordSlotTaken(D, sb, ino, owner, i, k);
    assert ino[i := d][i] == d;
    DinosSame(D, E, sb, {BitBlock(sb, a)});
    SyncedWhenOthersKept(D, sb, ino, E, ino[i := d], i, {i});
    assert {i} + {i} == {i};
    CachedWithRecord(icache, ino, refs, entry, ip, d);
  }

  lemma AgreeAfterEntryTaken(D: Blocks, sb: Superblock, ino: seq<Dinode>, owner: Owner, icache: seq<Inode>,
        refs: multiset<nat>, entry: map<nat, nat>, i: nat, j: nat)
    requires Agree(D, sb, ino, owner, icache, refs, entry, {i}) && i < |ino| && j < NINDIRECT
    requires Slot(D, ino[i], INDIRECT + 1 + j) != 0
    ensures var a: nat := ino[i].addrs[INDIRECT]; var b: nat := Slot(D, ino[i], INDIRECT + 1 + j);
            var E := TakeEntry(D, sb, b, a, j);
            && sb.DataStart() <= a < sb.size && sb.DataStart() <= b < sb.size && Bit(D, sb, b) && a != b && b in owner
            && Agree(E, sb, ino, owner - {b}, icache, refs, entry, {i})
            && OthersKept(D, ino, E, ino, i)
            && (forall l: nat :: l < NSLOT ==>
                Slot(E, ino[i], l) == if l == INDIRECT + 1 + j then 0 else Slot(D, ino[i], l))
            && |FreeSet(E, sb)| == |FreeSet(D, sb)| + 1
  {
    hide Bit, TakeEntry, Dino, FileBytes, Slot, Cached, Synced, Owned, OthersKept;
    AgreeFacts(D, sb, ino, owner, icache, refs, entry, {i});
    var a: nat := ino[i].addrs[INDIRECT];
    var b: nat := Slot(D, ino[i], INDIRECT + 1 + j);
    var E := TakeEntry(D, sb, b, a, j);
    EntryTaken(D, sb, ino, owner, i, j);
    DinosSame(D, E, sb, {BitBlock(sb, b), a});
    SyncedWhenOthersKept(D, sb, ino, E, ino, i, {i});
    assert {i} + {i} == {i};
  }

  lemma AgreeUnowned(D: Blocks, E: Blocks, sb: Superblock, ino: seq<Dinode>, owner: Owner, icache: seq<Inode>,
        refs: multiset<nat>, entry: map<nat, nat>, i: nat, a: nat)
    requires Agree(D, sb, ino, owner, icache, refs, entry, {i}) && i < |ino|
    requires SameOutside(D, E, {a}) && sb.DataStart() <= a && a !in owner
    ensures Agree(E, sb, ino, owner, icache, refs, entry, {i}) && OthersKept(D, ino, E, ino, |ino|)
    ensures FreeSet(E, sb) == FreeSet(D, sb)
  {
    hide Bit, Dino, Slot, Cached, Synced, Owned, Kept;
    AgreeFacts(D, sb, ino, owner, icache, refs, entry, {i});
    UnownedBlock(D, E, sb, ino, owner, a);
    DinosSame(D, E, sb, {a});
    SyncedWhenOthersKept(D, sb, ino, E, ino, i, {i});
    assert {i} + {i} == {i};
  }

  /** Freeing entry j of an indirect block whose earlier entries are cleared in left only. */
  lemma EntryFreed(D: Blocks, left: Block, sb: Superblock, ino: seq<Dinode>, owner: Owner, icache: seq<Inode>,
        refs: multiset<nat>, entry: map<nat, nat>, i: nat, j: nat, b: u32)
    requires i < |ino| && ino[i].addrs[INDIRECT] < |D| && j < NINDIRECT
    requires Agree(D[ino[i].addrs[INDIRECT] := left], sb, ino, owner, icache, refs, entry, {i})
    requires b != 0 && Slot(D[ino[i].addrs[INDIRECT] := left], ino[i], INDIRECT + 1 + j) == b
    ensures var ind: nat := ino[i].addrs[INDIRECT]; var G := D[ind := left]; var E := WithBit(D, sb, b, false);
            var H := E[ind := PutWord(left, j, 0)];
            && sb.DataStart() <= b < sb.size && Bit(D, sb, b)
            && Agree(H, sb, ino, owner - {b as nat}, icache, refs, entry, {i})
            && OthersKept(G, ino, H, ino, i)
            && (forall l: nat :: l < NSLOT ==>
                Slot(H, ino[i], l) == if l == INDIRECT + 1 + j then 0 else Slot(G, ino[i], l))
            && |FreeSet(H, sb)| == |FreeSet(G, sb)| + 1
            && E[ind] == D[ind]
  {
    hide Bit, Agree, WithBit, Slot, OthersKept, FreeSet, PutWord;
    var ind: nat := ino[i].addrs[INDIRECT];
    var G := D[ind := left];
    AgreeFacts(G, sb, ino, owner, icache, refs, entry, {i});
    WhereThingsAre(G, sb);
    AgreeAfterEntryTaken(G, sb, ino, owner, icache, refs, entry, i, j);
    WithBitElsewhere(D, sb, ind, left, b, false);
    BitsSame(G, D, sb, {ind});
    assert TakeEntry(G, sb, b, ind, j) == WithBit(D, sb, b, false)[ind := PutWord(left, j, 0)];
  }

  /** Two disks that differ in data block a only, after a is freed. */
  lemma FreedOnBoth(G: Blocks, D: Blocks, sb: Superblock, a: nat)
    requires Laid(G, sb) && SameOutside(G, D, {a}) && sb.DataStart() <= a < sb.size
    ensures Bit(D, sb, a) == Bit(G, sb, a)
    ensures SameOutside(WithBit(G, sb, a, false), WithBit(D, sb, a, false), {a})
  {
    WhereThingsAre(G, sb);
    BitsSame(G, D, sb, {a});
  }

  lemma AllSlotsGone(G: Blocks, H: Blocks, E: Blocks, d: Dinode, e: Dinode)
    requires forall l: nat :: l < NSLOT ==> (Slot(G, d, l) != 0 <==> l == INDIRECT)
    requires forall l: nat :: l < NSLOT ==> Slot(H, e, l) == if l == INDIRECT then 0 else Slot(G, d, l)
    requires Kept(H, E, e)
    ensures forall k: nat :: k < NSLOT ==> Slot(E, e, k) == 0
  {
    hide Slot, FileBytes;
  }

  /** Blocks taken by growing a file from s to t blocks: one each, and the indirect block. */
  function Cost(s: nat, t: nat): int {
    t - s + if s <= NDIRECT < t then 1 else 0
  }

  /** Blocks bmap takes for block bn when the file ends there. */
  function BlocksTaken(bn: nat): nat {
    if bn == NDIRECT then 2 else 1
  }

  lemma DirectGrew(D: Blocks, sb: Superblock, ino: seq<Dinode>, owner: Owner, icache: seq<Inode>, refs: multiset<nat>,
        entry: map<nat, nat>, i: nat, nb: nat, b: u32)
    requires Agree(D, sb, ino, owner, icache, refs, entry, {i}) && i < |ino| && b < sb.size && !Bit(D, sb, b)
    requires nb < NDIRECT && NoHoles(D, ino[i], nb)
    ensures Grew(D, ino, Allocated(D, sb, b), ino[i := GiveRecord(ino[i], nb, b)], i, nb)
    ensures |FreeSet(Allocated(D, sb, b), sb)| == |FreeSet(D, sb)| - 1
  {
    hide Bit, Allocated, Grew, Slot;
    DirectBlockGiven(D, sb, ino, owner, b, i, nb);
    RecordSlotGiven(D, sb, ino, owner, b, i, nb);
  }

  lemma EntryGrew(D: Blocks, sb: Superblock, ino: seq<Dinode>, owner: Owner, icache: seq<Inode>, refs: multiset<nat>,
        entry: map<nat, nat>, i: nat, nb: nat, b: u32)
    requires Agree(D, sb, ino, owner, icache, refs, entry, {i}) && i < |ino| && b < sb.size && !Bit(D, sb, b)
    requires NDIRECT < nb < MAXFILE && NoHoles(D, ino[i], nb)
    ensures ino[i].addrs[INDIRECT] != 0
    ensures Grew(D, ino, GiveEntry(D, sb, b, ino[i].addrs[INDIRECT], nb - NDIRECT), ino, i, nb)
    ensures |FreeSet(GiveEntry(D, sb, b, ino[i].addrs[INDIRECT], nb - NDIRECT), sb)| == |FreeSet(D, sb)| - 1
  {
    hide Bit, GiveEntry, Grew, Slot;
    EntryBlockGiven(D, sb, ino, owner, b, i, nb);
    EntryGiven(D, sb, ino, owner, b, i, nb - NDIRECT);
  }

  lemma ThirteenthGrew(D: Blocks, sb: Superblock, ino: seq<Dinode>, owner: Owner, icache: seq<Inode>,
        refs: multiset<nat>, entry: map<nat, nat>, ip: nat, b: u32, c: u32)
    requires ip < |icache| && icache[ip].ref > 0 && icache[ip].inum < |ino|
    requires Agree(D, sb, ino, owner, icache, refs, entry, {icache[ip].inum}) && b < sb.size && !Bit(D, sb, b)
    requires NoHoles(D, ino[icache[ip].inum], NDIRECT) && c < sb.size && !Bit(Allocated(D, sb, b), sb, c)
    ensures var i := icache[ip].inum; var F := GiveEntry(Allocated(D, sb, b), sb, c, b, 0);
            && Grew(D, ino, F, ino[i := GiveRecord(ino[i], INDIRECT, b)], i, NDIRECT)
            && |FreeSet(F, sb)| == |FreeSet(D, sb)| - 2
  {
    hide Bit, GiveEntry, Allocated, Grew, Slot, Agree, Owned, Synced, Cached, NoHoles;
    var i := icache[ip].inum;
    var d := GiveRecord(ino[i], INDIRECT, b);
    AgreeParts(D, sb, ino, owner, icache, refs, entry, {i});
    IndirectAbsent(D, ino[i]);
    AgreeAfterRecordGiven(D, sb, ino, owner, icache, refs, entry, ip, INDIRECT, b);
    AgreeParts(Allocated(D, sb, b), sb, ino[i := d], owner[b as nat := (i, INDIRECT)],
          icache[ip := icache[ip].(rec := d)], refs, entry, {i});
    ThirteenthBlockGiven(D, sb, ino, owner, b, c, i);
  }

  lemma IndirectAbsent(D: Blocks, d: Dinode)
    requires NoHoles(D, d, NDIRECT)
    ensures d.addrs[INDIRECT] == 0
  {
  }

  lemma FreeSetSome(D: Blocks, sb: Superblock)
    requires |FreeSet(D, sb)| > 0
    ensures FreeSet(D, sb) != {}
  {
  }

  /** Before the data block of block nb >= 12 is fetched: its entry is still empty, and a block is free. */
  lemma SlotAtEnd(D: Blocks, sb: Superblock, ino: seq<Dinode>, owner: Owner, icache: seq<Inode>, refs: multiset<nat>,
        entry: map<nat, nat>, ip: nat, nb: nat, ind: u32)
    requires ip < |icache| && icache[ip].ref > 0 && icache[ip].inum < |ino|
    requires Agree(D, sb, ino, owner, icache, refs, entry, {icache[ip].inum})
    requires NDIRECT <= nb < MAXFILE && NoHoles(D, ino[icache[ip].inum], nb)
    requires |FreeSet(D, sb)| >= BlocksTaken(nb)
    requires nb == NDIRECT ==> ind < sb.size && !Bit(D, sb, ind)
    ensures var d := ino[icache[ip].inum];
            if nb == NDIRECT then
              |FreeSet(Allocated(D, sb, ind), sb)| > 0
                  && Slot(Allocated(D, sb, ind), GiveRecord(d, INDIRECT, ind), nb + 1) == 0
            else |FreeSet(D, sb)| > 0 && Slot(D, d, nb + 1) == 0
  {
    hide Allocated, Bit, FreeSet, Owned, Synced, Cached;
    var i := icache[ip].inum;
    AddrIs(D, ino[i], nb, nb);
    if nb == NDIRECT {
      RecordSlotGiven(D, sb, ino, owner, ind, i, INDIRECT);
    }
  }

  lemma FreeSetHas(D: Blocks, sb: Superblock)
    requires FreeSet(D, sb) != {}
    ensures exists x: nat :: x < sb.size && !Bit(D, sb, x)
  {
    var x :| x in FreeSet(D, sb);
  }

  lemma SlotInBlock(D: Blocks, d: Dinode, j: nat)
    requires 0 < d.addrs[INDIRECT] < |D| && j < NINDIRECT
    ensures Slot(D, d, INDIRECT + 1 + j) == Word(D[d.addrs[INDIRECT]], j)
  {
  }

  lemma AgreeParts(D: Blocks, sb: Superblock, ino: seq<Dinode>, owner: Owner, icache: seq<Inode>, refs: multiset<nat>,
        entry: map<nat, nat>, dirty: set<nat>)
    requires Agree(D, sb, ino, owner, icache, refs, entry, dirty)
    ensures Cached(icache, ino, refs, entry) && Owned(D, sb, ino, owner) && Synced(D, sb, ino, dirty)
  {
  }

  // ---------- references ----------

  lemma CachedAfterHit(icache: seq<Inode>, ino: seq<Dinode>, refs: multiset<nat>, entry: map<nat, nat>, e: nat)
    requires Cached(icache, ino, refs, entry) && e < NINODE && icache[e].ref > 0
    ensures Cached(icache[e := icache[e].(ref := icache[e].ref + 1)], ino, refs + multiset{icache[e].inum}, entry)
    ensures icache[e].inum in refs
  {
  }

  lemma CachedAfterMiss(icache: seq<Inode>, ino: seq<Dinode>, refs: multiset<nat>, entry: map<nat, nat>, e: nat,
        x: Inode)
    requires Cached(icache, ino, refs, entry) && e < NINODE && icache[e].ref == 0
    requires x.dev == ROOTDEV && x.ref == 1 && !x.valid && x.inum < |ino|
    requires forall f: nat :: f < NINODE && icache[f].ref > 0 ==> icache[f].inum != x.inum
    ensures Cached(icache[e := x], ino, refs + multiset{x.inum}, entry[x.inum := e])
    ensures x.inum !in refs
  {
    assert x.inum !in entry;
  }

  /** entry once a reference through e is dropped. */
  function Dropped(icache: seq<Inode>, entry: map<nat, nat>, e: nat): map<nat, nat>
    requires e < |icache|
  {
    if icache[e].ref <= 1 then entry - {icache[e].inum} else entry
  }

  lemma CachedAfterDrop(icache: seq<Inode>, ino: seq<Dinode>, refs: multiset<nat>, entry: map<nat, nat>, e: nat)
    requires Cached(icache, ino, refs, entry) && e < NINODE && icache[e].ref > 0
    ensures Cached(icache[e := icache[e].(ref := icache[e].ref - 1)], ino, refs - multiset{icache[e].inum},
              Dropped(icache, entry, e))
    ensures icache[e].inum in refs
  {
  }

  lemma CachedAfterLoad(icache: seq<Inode>, ino: seq<Dinode>, refs: multiset<nat>, entry: map<nat, nat>, e: nat)
    requires Cached(icache, ino, refs, entry) && e < NINODE && icache[e].ref > 0 && icache[e].inum < |ino|
    ensures Cached(icache[e := icache[e].(valid := true, rec := ino[icache[e].inum])], ino, refs, entry)
    ensures Cached(icache[e := icache[e].(valid := false)], ino, refs, entry)
    ensures icache[e].valid ==> icache[e].rec == ino[icache[e].inum]
    ensures icache[e].dev == ROOTDEV && refs[icache[e].inum] == icache[e].ref
  {
  }

  lemma CachedDevs(icache: seq<Inode>, ino: seq<Dinode>, refs: multiset<nat>, entry: map<nat, nat>)
    requires Cached(icache, ino, refs, entry)
    ensures forall e: nat :: e < NINODE && icache[e].ref > 0 ==> icache[e].dev == ROOTDEV && icache[e].inum in refs
  {
  }

  lemma AgreeWithCache(D: Blocks, sb: Superblock, ino: seq<Dinode>, owner: Owner, icache: seq<Inode>,
        refs: multiset<nat>, entry: map<nat, nat>, dirty: set<nat>, icache': seq<Inode>, refs': multiset<nat>,
        entry': map<nat, nat>)
    requires Agree(D, sb, ino, owner, icache, refs, entry, dirty) && Cached(icache', ino, refs', entry')
    ensures Agree(D, sb, ino, owner, icache', refs', entry', dirty)
  {
  }

  /** Entries in use keep their inode and its copy; only counts moved. */
  ghost predicate Steady(before: seq<Inode>, after: seq<Inode>) {
    && |after| == |before|
    && forall e: nat :: e < |before| && before[e].ref > 0 && after[e].ref > 0 ==>
        after[e] == before[e].(ref := after[e].ref)
  }

  lemma AgreeEntries(D: Blocks, sb: Superblock, ino: seq<Dinode>, owner: Owner, icache: seq<Inode>,
        refs: multiset<nat>, entry: map<nat, nat>, dirty: set<nat>)
    requires Agree(D, sb, ino, owner, icache, refs, entry, dirty)
    ensures forall e: nat :: e < NINODE && icache[e].ref > 0 ==>
              icache[e].dev == ROOTDEV && icache[e].inum in refs && icache[e].inum < |ino|
    ensures |refs| < NINODE ==> exists e: nat :: e < NINODE && icache[e].ref == 0
  {
    CachedDevs(icache, ino, refs, entry);
    if |refs| < NINODE {
      SomeEntryFree(icache, ino, refs, entry);
    }
  }

  /** An inode in use has one entry, counting its references; a valid one is the record on the
      disk, though iupdate runs only when a file grows; and the file has no holes. */
  lemma CopyIsRecord(D: Blocks, sb: Superblock, ino: seq<Dinode>, owner: Owner, icache: seq<Inode>,
        refs: multiset<nat>, entry: map<nat, nat>, e: nat)
    requires Agree(D, sb, ino, owner, icache, refs, entry, {}) && e < NINODE == |icache| && icache[e].ref > 0
    ensures icache[e].inum < |ino| && refs[icache[e].inum] == icache[e].ref
    ensures forall f: nat :: f < NINODE && icache[f].ref > 0 && icache[f].inum == icache[e].inum ==> f == e
    ensures icache[e].valid ==>
              var d := icache[e].rec;
              && d == Dino(D, sb, icache[e].inum)
              && (forall bn: nat :: bn < MAXFILE ==> (Addr(D, d, bn) != 0 <==> bn * BSIZE < d.size))
              && (d.addrs[INDIRECT] != 0 <==> d.size > NDIRECT * BSIZE)
  {
    hide Dino, Slot, Owned, Addr;
    AgreeLocked(D, sb, ino, owner, icache, refs, entry, e);
    if icache[e].valid {
      assert Dense(D, ino[icache[e].inum]);
    }
  }

  lemma AgreeAfterHit(D: Blocks, sb: Superblock, ino: seq<Dinode>, owner: Owner, icache: seq<Inode>,
        refs: multiset<nat>, entry: map<nat, nat>, e: nat)
    requires Agree(D, sb, ino, owner, icache, refs, entry, {}) && e < NINODE == |icache| && icache[e].ref > 0
    ensures var after := icache[e := icache[e].(ref := icache[e].ref + 1)];
            Agree(D, sb, ino, owner, after, refs + multiset{icache[e].inum}, entry, {}) && Steady(icache, after)
    ensures icache[e].inum in refs && icache[e].inum < |ino|
  {
    CachedAfterHit(icache, ino, refs, entry, e);
  }

  lemma AgreeAfterMiss(D: Blocks, sb: Superblock, ino: seq<Dinode>, owner: Owner, icache: seq<Inode>,
        refs: multiset<nat>, entry: map<nat, nat>, e: nat, inum: nat)
    requires Agree(D, sb, ino, owner, icache, refs, entry, {}) && e < NINODE == |icache| && icache[e].ref == 0
               && inum < |ino|
    requires forall f: nat :: f < NINODE && icache[f].ref > 0 ==> icache[f].dev != ROOTDEV || icache[f].inum != inum
    ensures var after := icache[e := Inode(ROOTDEV, inum, 1, false, icache[e].rec)];
            Agree(D, sb, ino, owner, after, refs + multiset{inum}, entry[inum := e], {}) && Steady(icache, after)
    ensures inum !in refs
  {
    CachedDevs(icache, ino, refs, entry);
    CachedAfterMiss(icache, ino, refs, entry, e, Inode(ROOTDEV, inum, 1, false, icache[e].rec));
  }

  lemma AgreeLocked(D: Blocks, sb: Superblock, ino: seq<Dinode>, owner: Owner, icache: seq<Inode>,
        refs: multiset<nat>, entry: map<nat, nat>, e: nat)
    requires Agree(D, sb, ino, owner, icache, refs, entry, {}) && e < NINODE == |icache| && icache[e].ref > 0
    ensures icache[e].inum < |ino| && (icache[e].valid ==> icache[e].rec == ino[icache[e].inum])
    ensures refs[icache[e].inum] == icache[e].ref
  {
  }

  lemma AgreeUnloaded(D: Blocks, sb: Superblock, ino: seq<Dinode>, owner: Owner, icache: seq<Inode>,
        refs: multiset<nat>, entry: map<nat, nat>, e: nat)
    requires Agree(D, sb, ino, owner, icache, refs, entry, {}) && e < NINODE == |icache| && icache[e].ref > 0
    ensures Agree(D, sb, ino, owner, icache[e := icache[e].(valid := false)], refs, entry, {})
  {
    CachedAfterLoad(icache, ino, refs, entry, e);
  }

  lemma AgreeAfterDrop(D: Blocks, sb: Superblock, ino: seq<Dinode>, owner: Owner, icache: seq<Inode>,
        refs: multiset<nat>, entry: map<nat, nat>, e: nat)
    requires Agree(D, sb, ino, owner, icache, refs, entry, {}) && e < NINODE == |icache| && icache[e].ref > 0
    ensures Agree(D, sb, ino, owner, icache[e := icache[e].(ref := icache[e].ref - 1)],
                  refs - multiset{icache[e].inum}, Dropped(icache, entry, e), {})
    ensures icache[e].inum in refs
  {
    CachedAfterDrop(icache, ino, refs, entry, e);
  }

  lemma SteadyAfterDrop(before: seq<Inode>, after: seq<Inode>, e: nat)
    requires |after| == |before| && e < |before| && before[e].ref > 0 && after[e].ref == before[e].ref - 1
    requires forall f: nat :: f < |before| && f != e ==> after[f] == before[f]
    requires before[e].ref > 1 ==> after[e] == before[e].(ref := after[e].ref)
    ensures Steady(before, after)
  {
  }

  lemma FreeInodeIsEmpty(D: Blocks, d: Dinode)
    requires Dense(D, d) && d.typ == 0
    ensures d.size == 0 && d.addrs == NO_ADDRS
  {
    hide Slot;
    forall l: nat | l < NSLOT ensures Slot(D, d, l) == 0 {
      NoHolesSlots(D, d, 0, l);
    }
    NoAddrs(D, d);
  }

  /** ialloc's write to a free inode record. */
  lemma AgreeAfterIalloc(D: Blocks, sb: Superblock, ino: seq<Dinode>, owner: Owner, icache: seq<Inode>,
        refs: multiset<nat>, entry: map<nat, nat>, i: nat, typ: u16)
    requires Agree(D, sb, ino, owner, icache, refs, entry, {}) && i < |ino| && ino[i].typ == 0 && i !in refs && typ != 0
    ensures var d := FreshDinode(typ); var E := WithDinode(D, sb, i, d); var inoE := ino[i := d];
            && Agree(E, sb, inoE, owner, icache, refs, entry, {})
            && FilesOf(E, inoE) == FilesOf(D, ino)[i := File(typ, 0, 0, 0, [])]
            && FreeSet(E, sb) == FreeSet(D, sb) && E[1] == D[1]
            && 2 <= InodeBlock(sb, i) < |D|
            && E == D[InodeBlock(sb, i) := PutDinode(D[InodeBlock(sb, i)], i % IPB, d)]
  {
    hide Dino, FileBytes, Slot, Cached, Owned, Kept, Dense, WithDinode, PutDinode, OthersKept, FreeSet;
    var d: Dinode := FreshDinode(typ);
    var E, inoE := WithDinode(D, sb, i, d), ino[i := d];
    assert Dense(D, ino[i]);
    FreeInodeIsEmpty(D, ino[i]);
    InodeWritten(D, sb, ino, owner, i, d);
    OthersKeptRefl(D, ino, i);
    OthersKeptWithRecord(D, ino, D, ino, i, d);
    KeptByAll(D, ino, E, i, d);
    forall j: nat, l: nat | j < |ino| && l < NSLOT ensures Slot(E, inoE[j], l) == Slot(E, ino[j], l) {
      SlotByAddrs(E, ino[j], inoE[j], l);
    }
    OwnedSame(E, E, sb, ino, inoE, owner);
    EmptyIsDense(E, d);
    FilesAfter(D, ino, E, inoE, i, []);
    forall j: nat | j < |ino| ensures Dino(E, sb, j) == inoE[j] && Dense(E, inoE[j]) {
      DinoWithDinode(D, sb, i, d, j);
      if j != i {
        KeptFromOthers(D, ino, E, inoE, i, j);
        KeptDense(D, E, ino[j]);
      }
    }
    CachedElsewhere(icache, ino, refs, entry, i, d);
  }

  lemma AgreeDino(D: Blocks, sb: Superblock, ino: seq<Dinode>, owner: Owner, icache: seq<Inode>, refs: multiset<nat>,
        entry: map<nat, nat>, i: nat)
    requires Agree(D, sb, ino, owner, icache, refs, entry, {}) && i < |ino|
    ensures 2 <= InodeBlock(sb, i) < sb.bmapstart <= |D| && ino[i] == GetDinode(D[InodeBlock(sb, i)], i % IPB)
  {
    WhereThingsAre(D, sb);
  }

  lemma KeptFromOthers(D: Blocks, ino: seq<Dinode>, E: Blocks, inoE: seq<Dinode>, i: nat, j: nat)
    requires OthersKept(D, ino, E, inoE, i) && j < |ino| && j != i
    ensures inoE[j] == ino[j] && Kept(D, E, ino[j])
  {
  }

  lemma KeptByAll(D: Blocks, ino: seq<Dinode>, E: Blocks, i: nat, d: Dinode)
    requires OthersKept(D, ino, E, ino, |ino|) && i < |ino|
    ensures OthersKept(D, ino, E, ino[i := d], i)
  {
    hide Kept;
  }

  lemma CachedElsewhere(icache: seq<Inode>, ino: seq<Dinode>, refs: multiset<nat>, entry: map<nat, nat>, i: nat,
        d: Dinode)
    requires Cached(icache, ino, refs, entry) && i < |ino| && i !in refs
    ensures Cached(icache, ino[i := d], refs, entry)
  {
  }

  /** Whatever was referenced still is. */
  ghost predicate NoneLost(before: seq<Inode>, after: seq<Inode>) {
    && |after| == |before|
    && forall e: nat :: e < |before| && before[e].ref > 0 ==> after[e].ref > 0
  }

  /** References held stay references to the same inodes, and what was locked stays locked. */
  ghost predicate Handles(before: seq<Inode>, after: seq<Inode>) {
    && |after| == |before|
    && forall e: nat :: e < |before| && before[e].ref > 0 ==>
         after[e].ref > 0 && after[e].inum == before[e].inum && (before[e].valid ==> after[e].valid)
  }

  lemma HandlesFromSteady(before: seq<Inode>, after: seq<Inode>)
    requires Steady(before, after) && NoneLost(before, after)
    ensures Handles(before, after)
  {
  }

  lemma HandlesAfterLock(before: seq<Inode>, mid: seq<Inode>, after: seq<Inode>, ip: nat)
    requires Handles(before, mid) && ip < |mid| == |after|
               && after == mid[ip := mid[ip].(valid := true, rec := after[ip].rec)]
    ensures Handles(before, after)
  {
  }

  lemma HandlesTrans(a: seq<Inode>, b: seq<Inode>, c: seq<Inode>)
    requires Handles(a, b) && Handles(b, c)
    ensures Handles(a, c)
  {
  }

  /** Zeroed memory. */
  function EmptyIcache(): seq<Inode> {
    seq(NINODE, _ => Inode(0, 0, 0, false, FreshDinode(0)))
  }

  lemma NoHolesBound(D: Blocks, d: Dinode, nb: nat)
    requires NoHoles(D, d, nb)
    ensures nb <= MAXFILE
  {
  }

  lemma CostOfChunk(nb: nat, bn: nat)
    requires bn <= nb
    ensures Cost(nb, Max(nb, bn + 1)) == if bn == nb then BlocksTaken(bn) else 0
    ensures Max(nb, bn + 1) == if bn == nb then nb + 1 else nb
  {
  }

  lemma BlockBelow(off: nat, size: nat)
    requires off < size
    ensures off / BSIZE < BlocksFor(size)
  {
  }

  function Min(a: nat, b: nat): nat {
    if a < b then a else b
  }

  lemma SlotIsAddr(D: Blocks, d: Dinode, k: nat)
    requires k <= INDIRECT
    ensures Slot(D, d, k) == d.addrs[k]
  {
  }

  /** After the direct slots are cleared, the rest of a file of nb blocks. */
  lemma SlotsPastDirect(D: Blocks, d: Dinode, E: Blocks, e: Dinode, nb: nat)
    requires NoHoles(D, d, nb)
    requires forall l: nat :: l < NSLOT ==> Slot(E, e, l) == if l < NDIRECT then 0 else Slot(D, d, l)
    ensures e.addrs[INDIRECT] != 0 <==> nb > NDIRECT
    ensures nb > NDIRECT ==> forall l: nat :: l < NSLOT ==> (Slot(E, e, l) != 0 <==> INDIRECT <= l <= nb)
    ensures nb <= NDIRECT ==> forall l: nat :: l < NSLOT ==> Slot(E, e, l) == 0
  {
    SlotIsAddr(E, e, INDIRECT);
    hide Slot, NoHoles;
    forall l: nat | l < NSLOT
      ensures Slot(D, d, l) != 0 <==>
                if l < INDIRECT then l < nb else if l == INDIRECT then nb > NDIRECT else l - 1 < nb
    {
      NoHolesSlots(D, d, nb, l);
    }
  }

  lemma NoAddrs(D: Blocks, d: Dinode)
    requires forall l: nat :: l < NSLOT ==> Slot(D, d, l) == 0
    ensures d.addrs == NO_ADDRS
  {
    forall k: nat | k <= INDIRECT ensures d.addrs[k] == 0 {
      SlotIsAddr(D, d, k);
    }
  }

  lemma EmptyIsDense(D: Blocks, d: Dinode)
    requires d.addrs == NO_ADDRS && d.size == 0
    ensures Dense(D, d) && FileBytes(D, d, 0) == []
  {
    NoSlotsNoHoles(D, d);
  }

  lemma CostZero(s: nat)
    ensures Cost(s, s) == 0
  {
  }

  lemma CostAdds(a: nat, b: nat, c: nat, d: nat)
    requires a <= b <= c <= d
    ensures Cost(BlocksFor(a), BlocksFor(b)) + Cost(BlocksFor(b), BlocksFor(c)) == Cost(BlocksFor(a), BlocksFor(c))
    ensures Cost(BlocksFor(a), BlocksFor(c)) <= Cost(BlocksFor(a), BlocksFor(d))
    ensures BlocksFor(b) == BlocksFor(c) || b < c
  {
  }

  lemma SpliceNothing(s: seq<byte>, off: nat)
    requires off <= |s|
    ensures Splice(s, off, []) == s
  {
  }

  lemma DenseIs(D: Blocks, d: Dinode)
    ensures Dense(D, d) <==> NoHoles(D, d, BlocksFor(d.size)) && (d.typ == 0 ==> d.size == 0)
  {
  }

  lemma DenseWithSize(D: Blocks, d: Dinode, size: u32)
    requires NoHoles(D, d, BlocksFor(size)) && d.typ != 0
    ensures Dense(D, d.(size := size))
  {
    hide Slot, BlocksFor;
    SlotsSame(D, D, d);
    forall k: nat | k < NSLOT ensures Slot(D, d.(size := size), k) == Slot(D, d, k) {
      SlotByAddrs(D, d, d.(size := size), k);
    }
    NoHolesByAddrs(D, d, d.(size := size), BlocksFor(size));
  }

  lemma DenseByFields(D: Blocks, d: Dinode, e: Dinode)
    requires Dense(D, d) && e.addrs == d.addrs && e.size == d.size && e.typ == d.typ
    ensures Dense(D, e)
  {
    NoHolesByAddrs(D, d, e, BlocksFor(d.size));
  }

  /** Slots look only at addrs. */
  lemma SlotByAddrs(D: Blocks, d: Dinode, e: Dinode, k: nat)
    requires d.addrs == e.addrs && k < NSLOT
    ensures Slot(D, e, k) == Slot(D, d, k)
  {
  }

  lemma NoHolesByAddrs(D: Blocks, d: Dinode, e: Dinode, nb: nat)
    requires NoHoles(D, d, nb) && d.addrs == e.addrs
    ensures NoHoles(D, e, nb)
  {
    hide Slot;
    forall bn: nat | bn < MAXFILE ensures Addr(D, e, bn) == Addr(D, d, bn) {
      SlotByAddrs(D, d, e, DataSlot(bn));
    }
  }

  lemma OthersKeptRefl(D: Blocks, ino: seq<Dinode>, i: nat)
    ensures OthersKept(D, ino, D, ino, i)
  {
  }

  lemma BlocksForChunk(len: nat, off: nat, m: nat)
    requires off <= len && 0 < m && off % BSIZE + m <= BSIZE && off + m <= MAXFILE * BSIZE
    ensures off / BSIZE <= BlocksFor(len) && off / BSIZE < MAXFILE
    ensures BlocksFor(Max(len, off + m)) == Max(BlocksFor(len), off / BSIZE + 1)
    ensures len <= BlocksFor(len) * BSIZE
  {
  }
}
