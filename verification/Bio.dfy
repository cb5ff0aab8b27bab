/** The buffer cache: NBUF buffers on a circular LRU list, with reference counts, over the
    synchronous use of the IDE driver.  Pointers are indices; index NBUF is bcache.head. */
module Bio {
  import opened Bytes
  import opened Layout
  import opened Ide

  const NBUF: nat := 30

  /** The fields of struct buf that only the cache uses. */
  datatype Link = Link(refcnt: nat, prev: nat, next: nat)

  // ---------- the circular list ----------

  /** Entry i of the list, the head before its first and after its last entry. */
  function RingAt(lru: seq<nat>, head: nat, i: int): nat {
    if 0 <= i < |lru| then lru[i] else head
  }

  /** prev/next form one cycle: the head, then exactly the buffers of lru in order. */
  ghost predicate Ring(link: seq<Link>, lru: seq<nat>) {
    && |link| > 0
    && (forall i :: 0 <= i < |lru| ==> lru[i] < |link| - 1)
    && Distinct(lru)
    && link[|link| - 1].next == RingAt(lru, |link| - 1, 0)
    && link[|link| - 1].prev == RingAt(lru, |link| - 1, |lru| - 1)
    && (forall i {:trigger link[lru[i]]} :: 0 <= i < |lru| ==>
          link[lru[i]].next == RingAt(lru, |link| - 1, i + 1) && link[lru[i]].prev == RingAt(lru, |link| - 1, i - 1))
  }

  /** The neighbours of b are joined to each other; b's own links stay. */
  function Unlink(link: seq<Link>, b: nat): (r: seq<Link>)
    requires b < |link| && link[b].next < |link| && link[b].prev < |link|
    ensures |r| == |link|
  {
    var l := link[link[b].next := link[link[b].next].(prev := link[b].prev)];
    l[l[b].prev := l[l[b].prev].(next := l[b].next)]
  }

  /** b goes in between the head and what the head led to. */
  function PushFront(link: seq<Link>, b: nat): (r: seq<Link>)
    requires b < |link| - 1 && link[|link| - 1].next < |link|
    ensures |r| == |link|
  {
    var head := |link| - 1;
    var l := link[b := link[b].(next := link[head].next, prev := head)];
    var m := l[l[head].next := l[l[head].next].(prev := b)];
    m[head := m[head].(next := b)]
  }

  function Without(lru: seq<nat>, p: nat): (r: seq<nat>)
    requires p < |lru|
    ensures |r| == |lru| - 1
    ensures forall i :: 0 <= i < |r| ==> r[i] == lru[if i < p then i else i + 1]
  {
    lru[..p] + lru[p + 1..]
  }

  /** What unlinking entry p does to the links of the others. */
  lemma UnlinkEntries(link: seq<Link>, lru: seq<nat>, p: nat)
    requires Ring(link, lru) && p < |lru|
    ensures var b := lru[p]; link[b].next < |link| && link[b].prev < |link|
    ensures var r := Unlink(link, lru[p]); var head := |link| - 1;
            forall c :: 0 <= c <= head && c != lru[p] ==>
              r[c].next == (if c == RingAt(lru, head, p - 1) then RingAt(lru, head, p + 1) else link[c].next)
              && r[c].prev == (if c == RingAt(lru, head, p + 1) then RingAt(lru, head, p - 1) else link[c].prev)
  {
    var head := |link| - 1;
    assert link[lru[p]].next == RingAt(lru, head, p + 1) && link[lru[p]].prev == RingAt(lru, head, p - 1);
  }

  lemma UnlinkAt(link: seq<Link>, lru: seq<nat>, p: nat, i: int)
    requires Ring(link, lru) && p < |lru| && -1 <= i < |lru| - 1
    requires link[lru[p]].next < |link| && link[lru[p]].prev < |link|
    ensures var c := if i < 0 then |link| - 1 else Without(lru, p)[i];
            var r := Unlink(link, lru[p]);
            r[c].next == RingAt(Without(lru, p), |link| - 1, i + 1)
            && r[c].prev == RingAt(Without(lru, p), |link| - 1, if i < 0 then |lru| - 2 else i - 1)
  {
    hide Unlink, Without;
    UnlinkEntries(link, lru, p);
    if i >= 0 {
      var j := if i < p then i else i + 1;
      assert Without(lru, p)[i] == lru[j] != lru[p];
      assert link[lru[j]].next == RingAt(lru, |link| - 1, j + 1);
    }
  }

  lemma UnlinkRing(link: seq<Link>, lru: seq<nat>, p: nat)
    requires Ring(link, lru) && p < |lru|
    ensures link[lru[p]].next < |link| && link[lru[p]].prev < |link|
    ensures Ring(Unlink(link, lru[p]), Without(lru, p))
  {
    hide Unlink, Without, RingAt;
    UnlinkEntries(link, lru, p);
    var r, rest := Unlink(link, lru[p]), Without(lru, p);
    UnlinkAt(link, lru, p, -1);
    forall i {:trigger r[rest[i]]} | 0 <= i < |rest|
      ensures r[rest[i]].next == RingAt(rest, |link| - 1, i + 1) && r[rest[i]].prev == RingAt(rest, |link| - 1, i - 1)
    {
      UnlinkAt(link, lru, p, i);
    }
  }

  lemma PushFrontAt(link: seq<Link>, lru: seq<nat>, b: nat, i: int)
    requires Ring(link, lru) && b < |link| - 1 && b !in lru && -1 <= i <= |lru|
    ensures link[|link| - 1].next < |link|
    ensures var c := if i < 0 then |link| - 1 else ([b] + lru)[i];
            PushFront(link, b)[c].next == RingAt([b] + lru, |link| - 1, i + 1)
            && PushFront(link, b)[c].prev == RingAt([b] + lru, |link| - 1, if i < 0 then |lru| else i - 1)
  {
    if i > 0 {
      assert link[lru[i - 1]].next == RingAt(lru, |link| - 1, i) && lru[i - 1] != b;
    }
  }

  lemma PushFrontRing(link: seq<Link>, lru: seq<nat>, b: nat)
    requires Ring(link, lru) && b < |link| - 1 && b !in lru
    ensures link[|link| - 1].next < |link|
    ensures Ring(PushFront(link, b), [b] + lru)
  {
    hide PushFront, RingAt;
    PushFrontAt(link, lru, b, -1);
    var r, all := PushFront(link, b), [b] + lru;
    forall i {:trigger r[all[i]]} | 0 <= i < |all|
      ensures r[all[i]].next == RingAt(all, |link| - 1, i + 1) && r[all[i]].prev == RingAt(all, |link| - 1, i - 1)
    {
      PushFrontAt(link, lru, b, i);
    }
  }

  /** Only refcnt may differ. */
  ghost predicate SameLinks(l: seq<Link>, m: seq<Link>) {
    |l| == |m| && forall b :: 0 <= b < |l| ==> m[b].prev == l[b].prev && m[b].next == l[b].next
  }

  lemma RingIgnoresCounts(l: seq<Link>, m: seq<Link>, lru: seq<nat>)
    requires Ring(l, lru) && SameLinks(l, m)
    ensures Ring(m, lru)
  {
  }

  // ---------- what the cache keeps ----------

  /** The list holds every buffer once, and refcnt counts the holds. */
  ghost predicate Listed(link: seq<Link>, lru: seq<nat>, held: multiset<nat>) {
    && |link| == NBUF + 1 && |lru| == NBUF
    && Ring(link, lru)
    && (forall b: nat :: b < NBUF ==> b in lru)
    && (forall b :: b in held ==> b < NBUF)
    && (forall b: nat :: b < NBUF ==> link[b].refcnt == held[b])
  }

  /** The buffer holds a block or is in use. */
  ghost predicate Live(buf: seq<Buf>, held: multiset<nat>, b: nat)
    requires b < |buf|
  {
    buf[b].valid || held[b] > 0
  }

  predicate HasKey(buf: seq<Buf>, b: nat, dev: nat, blockno: nat)
    requires b < |buf|
  {
    buf[b].dev == dev && buf[b].blockno == blockno
  }

  /** No two live buffers carry the same block; a buffer that never held one carries block 0
      of disk 0, as zeroed memory does, and lies behind every live buffer that does. */
  ghost predicate Keyed(buf: seq<Buf>, lru: seq<nat>, held: multiset<nat>) {
    && |lru| == |buf| && (forall i :: 0 <= i < |lru| ==> lru[i] < |buf|)
    && (forall b, c :: 0 <= b < |buf| && 0 <= c < |buf| && b != c && Live(buf, held, b) && Live(buf, held, c) ==>
          !HasKey(buf, b, buf[c].dev, buf[c].blockno))
    && (forall b :: 0 <= b < |buf| && !Live(buf, held, b) ==> HasKey(buf, b, 0, 0))
    && (forall i, j :: 0 <= i < j < |lru| && !Live(buf, held, lru[i]) && HasKey(buf, lru[j], 0, 0) ==>
          !Live(buf, held, lru[j]))
  }

  /** A valid buffer equals its disk block unless its holder is about to write it. */
  ghost predicate Coherent(buf: seq<Buf>, held: multiset<nat>, pending: set<nat>, disk: Disk) {
    && GoodDisk(disk) && GoodBufs(buf)
    && (forall b :: 0 <= b < |buf| ==> !buf[b].dirty)
    && (forall b :: 0 <= b < |buf| && buf[b].valid && b !in pending ==> buf[b].data == disk[buf[b].dev][buf[b].blockno])
    && (forall b :: b in pending ==> b < |buf| && held[b] > 0)
  }

  /** The list runs from the most to the least recently released buffer. */
  ghost predicate Ordered(lru: seq<nat>, released: seq<nat>, now: nat) {
    && |released| == NBUF
    && (forall i :: 0 <= i < |lru| ==> lru[i] < NBUF)
    && (forall b :: 0 <= b < NBUF ==> released[b] < now)
    && (forall i, j :: 0 <= i < j < |lru| ==> released[lru[i]] > released[lru[j]])
  }

  /** Every held buffer but x has been read in. */
  ghost predicate Loaded(buf: seq<Buf>, held: multiset<nat>, x: int) {
    forall b :: 0 <= b < |buf| && b != x && held[b] > 0 ==> buf[b].valid
  }

  /** b is the first buffer on the list with this key. */
  ghost predicate FirstWith(buf: seq<Buf>, lru: seq<nat>, b: nat, dev: nat, blockno: nat) {
    exists k :: 0 <= k < |lru| && lru[k] == b && b < |buf| && HasKey(buf, b, dev, blockno)
                && forall j :: 0 <= j < k ==> lru[j] < |buf| && !HasKey(buf, lru[j], dev, blockno)
  }

  lemma FirstState(link: seq<Link>, lru: seq<nat>, released: seq<nat>, buf: seq<Buf>, disk: Disk)
    requires Ring(link, lru) && |link| == NBUF + 1 && |lru| == NBUF && GoodDisk(disk)
    requires (forall i :: 0 <= i < NBUF ==> lru[i] == NBUF - 1 - i) && forall c :: 0 <= c <= NBUF ==> link[c].refcnt == 0
    requires |released| == NBUF && forall i :: 0 <= i < NBUF ==> released[i] == i
    requires |buf| == NBUF && forall b :: 0 <= b < NBUF ==> buf[b] == Buf(false, false, 0, 0, Zeros(BSIZE))
    ensures Listed(link, lru, multiset{}) && Keyed(buf, lru, multiset{}) && Coherent(buf, multiset{}, {}, disk)
    ensures Ordered(lru, released, NBUF) && Loaded(buf, multiset{}, NULL)
  {
    hide Ring, GoodDisk;
    forall b: nat | b < NBUF ensures b in lru {
      assert lru[NBUF - 1 - b] == b;
    }
  }

  lemma ListedFacts(link: seq<Link>, lru: seq<nat>, held: multiset<nat>)
    requires Listed(link, lru, held)
    ensures |link| == NBUF + 1 && |lru| == NBUF && Distinct(lru)
    ensures forall i :: 0 <= i < NBUF ==> lru[i] < NBUF
    ensures forall b: nat :: b < NBUF ==> b in lru
    ensures forall b: nat :: b < NBUF ==> link[b].refcnt == held[b]
  {
  }

  /** The prev link of entry k of the list, and of the head, which comes after the last one. */
  lemma StepBack(link: seq<Link>, lru: seq<nat>, held: multiset<nat>, k: nat)
    requires Listed(link, lru, held) && k <= NBUF
    ensures |link| == NBUF + 1 && |lru| == NBUF && RingAt(lru, NBUF, k) <= NBUF && (k < NBUF ==> lru[k] < NBUF)
    ensures link[RingAt(lru, NBUF, k)].prev == RingAt(lru, NBUF, k - 1)
  {
  }

  /** The last unheld entry of the list is the one released longest ago. */
  lemma LongestAgo(link: seq<Link>, lru: seq<nat>, held: multiset<nat>, released: seq<nat>, now: nat, k: nat)
    requires Listed(link, lru, held) && Ordered(lru, released, now) && k < NBUF
    requires forall j :: k < j < NBUF ==> held[lru[j]] > 0
    ensures |released| == NBUF && lru[k] < NBUF
    ensures forall c :: 0 <= c < NBUF && held[c] == 0 ==> released[lru[k]] <= released[c]
  {
    hide Ring;
    forall c: nat | c < NBUF && held[c] == 0 ensures released[lru[k]] <= released[c] {
      assert c in lru;
    }
  }

  lemma CoherentFacts(buf: seq<Buf>, held: multiset<nat>, pending: set<nat>, disk: Disk)
    requires Coherent(buf, held, pending, disk)
    ensures GoodDisk(disk) && GoodBufs(buf)
    ensures forall b :: 0 <= b < |buf| ==> !buf[b].dirty
    ensures forall b :: 0 <= b < |buf| && buf[b].valid && b !in pending ==>
              buf[b].data == disk[buf[b].dev][buf[b].blockno]
  {
  }

  lemma FirstWithHasKey(buf: seq<Buf>, lru: seq<nat>, b: nat, dev: nat, blockno: nat)
    requires FirstWith(buf, lru, b, dev, blockno)
    ensures b < |buf| && HasKey(buf, b, dev, blockno)
  {
  }

  /** Fewer than n holds leave some buffer below n unheld. */
  lemma {:induction false} SomeUnheld(held: multiset<nat>, n: nat) returns (b: nat)
    requires |held| < n
    ensures b < n && held[b] == 0
  {
    b := n - 1;
    if held[b] > 0 {
      b := SomeUnheld(held - multiset{b}, n - 1);
    }
  }

  lemma HoldKeepsListed(link: seq<Link>, lru: seq<nat>, held: multiset<nat>, b: nat)
    requires Listed(link, lru, held) && b < NBUF
    ensures Listed(link[b := link[b].(refcnt := link[b].refcnt + 1)], lru, held + multiset{b})
  {
    RingIgnoresCounts(link, link[b := link[b].(refcnt := link[b].refcnt + 1)], lru);
  }

  lemma ReleaseKeepsListed(link: seq<Link>, lru: seq<nat>, held: multiset<nat>, b: nat)
    requires Listed(link, lru, held) && b < NBUF && held[b] > 0
    ensures Listed(link[b := link[b].(refcnt := link[b].refcnt - 1)], lru, held - multiset{b})
  {
    RingIgnoresCounts(link, link[b := link[b].(refcnt := link[b].refcnt - 1)], lru);
  }

  lemma MoveToFrontKeepsMembers(lru: seq<nat>, p: nat)
    requires p < |lru|
    ensures forall c :: c in lru ==> c in [lru[p]] + Without(lru, p)
  {
    forall c | c in lru ensures c in [lru[p]] + Without(lru, p) {
      var i :| 0 <= i < |lru| && lru[i] == c;
      assert i != p ==> Without(lru, p)[if i < p then i else i - 1] == c;
    }
  }

  /** Moving entry p to the front relinks exactly that entry. */
  lemma MoveToFrontKeepsListed(link: seq<Link>, lru: seq<nat>, held: multiset<nat>, p: nat)
    requires Listed(link, lru, held) && p < NBUF
    ensures var b := lru[p];
            && b < NBUF && link[b].next < |link| && link[b].prev < |link|
            && var l := Unlink(link, b); l[NBUF].next < |l| && Listed(PushFront(l, b), [b] + Without(lru, p), held)
  {
    UnlinkRing(link, lru, p);
    var l := Unlink(link, lru[p]);
    PushFrontRing(l, Without(lru, p), lru[p]);
    hide Ring;
    MoveToFrontKeepsMembers(lru, p);
  }

  lemma MoveToFrontKeepsKeyed(buf: seq<Buf>, lru: seq<nat>, held: multiset<nat>, p: nat)
    requires Keyed(buf, lru, held) && p < |lru| && Live(buf, held, lru[p])
    ensures Keyed(buf, [lru[p]] + Without(lru, p), held)
  {
    var old' := lru;
    var l := [lru[p]] + Without(lru, p);
    forall i, j | 0 <= i < j < |l| && !Live(buf, held, l[i]) && HasKey(buf, l[j], 0, 0)
      ensures !Live(buf, held, l[j])
    {
      var i', j' := if i - 1 < p then i - 1 else i, if j - 1 < p then j - 1 else j;
      assert l[i] == old'[i'] && l[j] == old'[j'];
    }
  }

  lemma MoveToFrontKeepsOrdered(lru: seq<nat>, released: seq<nat>, now: nat, p: nat)
    requires Ordered(lru, released, now) && Distinct(lru) && p < |lru|
    ensures |released| == NBUF && lru[p] < NBUF
    ensures Ordered([lru[p]] + Without(lru, p), released[lru[p] := now], now + 1)
  {
  }

  lemma HitKeepsKeyed(buf: seq<Buf>, lru: seq<nat>, held: multiset<nat>, b: nat, dev: nat, blockno: nat)
    requires Keyed(buf, lru, held) && Distinct(lru) && FirstWith(buf, lru, b, dev, blockno)
    requires forall c: nat :: c < |buf| ==> c in lru
    ensures Keyed(buf, lru, held + multiset{b})
  {
    var h := held + multiset{b};
    forall c | 0 <= c < |buf| && (c != b || Live(buf, held, b))
      ensures Live(buf, h, c) == Live(buf, held, c)
    {
    }
    if !Live(buf, held, b) {
      assert HasKey(buf, b, 0, 0);
      var k :| 0 <= k < |lru| && lru[k] == b && forall j :: 0 <= j < k ==> !HasKey(buf, lru[j], 0, 0);
      forall c: nat | c < |buf| && c != b && HasKey(buf, c, 0, 0)
        ensures !Live(buf, held, c)
      {
        assert c in lru;
        var j :| 0 <= j < |lru| && lru[j] == c;
      }
      forall i, j | 0 <= i < j < |lru| && !Live(buf, h, lru[i]) && HasKey(buf, lru[j], 0, 0)
        ensures !Live(buf, h, lru[j])
      {
        assert HasKey(buf, lru[i], 0, 0);
        assert lru[j] == b ==> j == k;
      }
    }
  }

  lemma RecycleKeepsKeyed(buf: seq<Buf>, lru: seq<nat>, held: multiset<nat>, b: nat, dev: nat, blockno: nat)
    requires Keyed(buf, lru, held) && b < |buf| && held[b] == 0
    requires forall c :: 0 <= c < |buf| ==> !HasKey(buf, c, dev, blockno)
    ensures Keyed(buf[b := Buf(false, false, dev, blockno, buf[b].data)], lru, held + multiset{b})
  {
    var r, h := buf[b := Buf(false, false, dev, blockno, buf[b].data)], held + multiset{b};
    forall c | 0 <= c < |buf| && c != b
      ensures Live(r, h, c) == Live(buf, held, c) && r[c] == buf[c]
    {
    }
    forall c | 0 <= c < |buf| && c != b
      ensures !HasKey(r, b, r[c].dev, r[c].blockno) && !HasKey(r, c, dev, blockno)
    {
      assert !HasKey(buf, c, dev, blockno);
    }
    forall i, j | 0 <= i < j < |lru| && !Live(r, h, lru[i]) && HasKey(r, lru[j], 0, 0)
      ensures !Live(r, h, lru[j])
    {
      assert lru[i] != b && HasKey(buf, lru[i], 0, 0);
    }
  }

  lemma ValidityKeepsKeyed(buf: seq<Buf>, lru: seq<nat>, held: multiset<nat>, b: nat, x: Buf)
    requires Keyed(buf, lru, held) && b < |buf| && held[b] > 0 && HasKey(buf, b, x.dev, x.blockno)
    ensures Keyed(buf[b := x], lru, held)
  {
    forall c | 0 <= c < |buf|
      ensures Live(buf[b := x], held, c) == Live(buf, held, c)
      ensures buf[b := x][c].dev == buf[c].dev && buf[b := x][c].blockno == buf[c].blockno
    {
    }
  }

  lemma UpdateKeepsCoherent(buf: seq<Buf>, held: multiset<nat>, pending: set<nat>, disk: Disk, b: nat, x: Buf)
    requires Coherent(buf, held, pending, disk) && b < |buf| && !x.dirty && OnDisk(x.dev, x.blockno)
    requires b in pending || (x.valid ==> x.data == disk[x.dev][x.blockno])
    ensures Coherent(buf[b := x], held, pending, disk)
  {
  }

  lemma MorePendingKeepsCoherent(buf: seq<Buf>, held: multiset<nat>, pending: set<nat>, disk: Disk, b: nat)
    requires Coherent(buf, held, pending, disk) && b < |buf| && held[b] > 0
    ensures Coherent(buf, held, pending + {b}, disk)
  {
  }

  lemma HoldKeepsCoherent(buf: seq<Buf>, held: multiset<nat>, pending: set<nat>, disk: Disk, b: nat)
    requires Coherent(buf, held, pending, disk)
    ensures Coherent(buf, held + multiset{b}, pending, disk)
    ensures b !in pending ==> Coherent(buf, held - multiset{b}, pending, disk)
  {
  }

  /** Writing through buffer b changes the disk under no other live buffer. */
  lemma WriteKeepsCoherent(buf: seq<Buf>, lru: seq<nat>, held: multiset<nat>, pending: set<nat>, disk: Disk, b: nat)
    requires Coherent(buf, held, pending, disk) && Keyed(buf, lru, held) && b < |buf| && held[b] > 0
    ensures Coherent(buf, held, pending - {b}, PutBlock(disk, buf[b].dev, buf[b].blockno, buf[b].data))
  {
    forall c | 0 <= c < |buf| && c != b && buf[c].valid ensures !HasKey(buf, b, buf[c].dev, buf[c].blockno) {
      assert Live(buf, held, c) && Live(buf, held, b);
    }
  }

  lemma ReleaseKeepsKeyed(buf: seq<Buf>, lru: seq<nat>, held: multiset<nat>, b: nat)
    requires Keyed(buf, lru, held) && b < |buf| && buf[b].valid
    ensures Keyed(buf, lru, held - multiset{b})
  {
    forall c | 0 <= c < |buf|
      ensures Live(buf, held - multiset{b}, c) == Live(buf, held, c)
    {
    }
  }

  // ---------- the plain disk ----------

  /** What users of the cache do with a block: read it, or write it whole. */
  datatype BlockOp = Get(dev: nat, blockno: nat) | Put(dev: nat, blockno: nat, data: Block)

  ghost predicate OpsOnDisk(ops: seq<BlockOp>) {
    forall i :: 0 <= i < |ops| ==> OnDisk(ops[i].dev, ops[i].blockno)
  }

  /** The disk after one operation, carried out on it directly. */
  ghost function DiskAfterOne(disk: Disk, op: BlockOp): (d: Disk)
    requires GoodDisk(disk) && OnDisk(op.dev, op.blockno)
    ensures GoodDisk(d)
  {
    if op.Put? then PutBlock(disk, op.dev, op.blockno, op.data) else disk
  }

  /** What it returns. */
  ghost function AnswerOf(disk: Disk, op: BlockOp): seq<Block>
    requires GoodDisk(disk) && OnDisk(op.dev, op.blockno)
  {
    if op.Get? then [disk[op.dev][op.blockno]] else []
  }

  /** The disk after the operations. */
  ghost function DiskAfter(disk: Disk, ops: seq<BlockOp>): (d: Disk)
    requires GoodDisk(disk) && OpsOnDisk(ops)
    ensures GoodDisk(d)
  {
    if ops == [] then disk
    else DiskAfterOne(DiskAfter(disk, ops[..|ops| - 1]), ops[|ops| - 1])
  }

  /** What the reads among them return. */
  ghost function ReadsOf(disk: Disk, ops: seq<BlockOp>): seq<Block>
    requires GoodDisk(disk) && OpsOnDisk(ops)
  {
    if ops == [] then []
    else
      var n := |ops| - 1;
      ReadsOf(disk, ops[..n]) + AnswerOf(DiskAfter(disk, ops[..n]), ops[n])
  }

  lemma NoOps(disk: Disk)
    requires GoodDisk(disk)
    ensures DiskAfter(disk, []) == disk && ReadsOf(disk, []) == []
  {
  }

  lemma OneMoreOp(disk: Disk, ops: seq<BlockOp>, i: nat)
    requires GoodDisk(disk) && OpsOnDisk(ops) && i < |ops|
    ensures OnDisk(ops[i].dev, ops[i].blockno)
    ensures DiskAfter(disk, ops[..i + 1]) == DiskAfterOne(DiskAfter(disk, ops[..i]), ops[i])
    ensures ReadsOf(disk, ops[..i + 1]) == ReadsOf(disk, ops[..i]) + AnswerOf(DiskAfter(disk, ops[..i]), ops[i])
  {
    hide GoodDisk;
    assert ops[..i + 1][..i] == ops[..i];
  }

  // ---------- the cache ----------

  class BufferCache {
    const ide: Controller
    var link: seq<Link>
    ghost var lru: seq<nat>           // the list from head.next on
    ghost var held: multiset<nat>     // one entry for each bread not yet matched by a brelse
    ghost var pending: set<nat>       // held buffers whose data was changed since the last bwrite
    ghost var now: nat
    ghost var released: seq<nat>      // when each buffer was last released to zero references

    /** The invariant, while buffer x (if any) is held but not yet read in. */
    ghost predicate Inv(x: int)
      reads this, ide
    {
      && ide.Quiet() && |ide.buf| == NBUF
      && Listed(link, lru, held)
      && Keyed(ide.buf, lru, held)
      && Coherent(ide.buf, held, pending, ide.disk)
      && Ordered(lru, released, now)
      && Loaded(ide.buf, held, x)
    }

    ghost predicate Valid()
      reads this, ide
    {
      Inv(NULL)
    }

    /** b is a buffer that bread returned for this block and that is not yet released. */
    ghost predicate Holds(b: nat, dev: nat, blockno: nat)
      reads this, ide
    {
      b < |ide.buf| && held[b] > 0 && ide.buf[b].valid && HasKey(ide.buf, b, dev, blockno)
    }

    lemma ValidDisk()
      requires Valid()
      ensures GoodDisk(ide.disk) && |ide.buf| == NBUF
    {
    }

    /** Every buffer read in equals its block of the disk, but for those their holders have
        changed; and no block is in two buffers. */
    lemma CacheIsTheDisk()
      requires Valid()
      ensures forall b :: 0 <= b < NBUF && ide.buf[b].valid && b !in pending ==>
          ide.buf[b].data == ide.disk[ide.buf[b].dev][ide.buf[b].blockno]
      ensures forall b, c ::
                0 <= b < NBUF && 0 <= c < NBUF && b != c && Live(ide.buf, held, b) && Live(ide.buf, held, c) ==>
                  !HasKey(ide.buf, b, ide.buf[c].dev, ide.buf[c].blockno)
    {
      hide Listed, Ordered, Loaded;
    }

    /** prev and next are one cycle through the head and all buffers, the last released first. */
    lemma LruIsOneCycle()
      requires Valid()
      ensures Ring(link, lru) && |lru| == NBUF && |link| == NBUF + 1 && (forall b: nat :: b < NBUF ==> b in lru)
      ensures forall i, j :: 0 <= i < j < NBUF ==> released[lru[i]] > released[lru[j]]
    {
      hide Keyed, Coherent, Loaded, Ring;
    }

    /** The bytes in the buffer. */
    function Data(b: nat): Block
      requires b < |ide.buf|
      reads this, ide
    {
      ide.buf[b].data
    }

    /** binit, on zeroed buffers. */
    constructor Binit(disk: Disk)
      requires GoodDisk(disk)
      ensures Valid() && fresh(ide) && ide.disk == disk && held == multiset{} && pending == {}
      ensures |lru| == NBUF && forall i :: 0 <= i < NBUF ==> lru[i] == NBUF - 1 - i
      ensures ide.buf == seq(NBUF, _ => Buf(false, false, 0, 0, Zeros(BSIZE)))
    {
      ide := new Controller(disk, NBUF);
      held, pending, lru := multiset{}, {}, [];
      released := seq(NBUF, i requires 0 <= i < NBUF => i);
      now := NBUF;
      link := seq(NBUF + 1, _ => Link(0, NBUF, NBUF));
      new;
      for b := 0 to NBUF
        modifies this
        invariant Ring(link, lru) && |link| == NBUF + 1 && |lru| == b
        invariant held == multiset{} && pending == {} && now == NBUF
        invariant released == seq(NBUF, i requires 0 <= i < NBUF => i)
        invariant forall i :: 0 <= i < b ==> lru[i] == b - 1 - i
        invariant forall c :: 0 <= c <= NBUF ==> link[c].refcnt == 0
      {
        PushFrontRing(link, lru, b);
        link := PushFront(link, b);
        lru := [b] + lru;
      }
      FirstState(link, lru, released, ide.buf, disk);
    }

    /** The first buffer on the list with this key, or the head. */
    method FindKey(dev: nat, blockno: nat) returns (b: nat)
      requires Listed(link, lru, held) && |ide.buf| == NBUF
      ensures b <= NBUF
      ensures b < NBUF ==> FirstWith(ide.buf, lru, b, dev, blockno)
      ensures b == NBUF ==> forall c :: 0 <= c < NBUF ==> !HasKey(ide.buf, c, dev, blockno)
    {
      b := link[NBUF].next;
      ghost var k := 0;
      while b != NBUF
        invariant 0 <= k <= NBUF && b == RingAt(lru, NBUF, k)
        invariant forall j :: 0 <= j < k ==> !HasKey(ide.buf, lru[j], dev, blockno)
        decreases NBUF - k
      {
        if ide.buf[b].dev == dev && ide.buf[b].blockno == blockno {
          return;
        }
        b := link[b].next;
        k := k + 1;
      }
      forall c: nat | c < NBUF ensures !HasKey(ide.buf, c, dev, blockno) {
        assert c in lru;
      }
    }

    /** The last unreferenced clean buffer on the list: the one released longest ago. */
    method FindVictim() returns (b: nat)
      requires Listed(link, lru, held) && Ordered(lru, released, now) && |held| < NBUF && |ide.buf| == NBUF
      requires forall b :: 0 <= b < |ide.buf| ==> !ide.buf[b].dirty
      ensures b < NBUF && held[b] == 0
      ensures forall c :: 0 <= c < NBUF && held[c] == 0 ==> released[b] <= released[c]
    {
      hide Listed, Ordered, Ring;
      ListedFacts(link, lru, held);
      ghost var free := SomeUnheld(held, NBUF);
      assert free in lru;
      StepBack(link, lru, held, NBUF);
      b := link[NBUF].prev;
      ghost var k := NBUF - 1;
      while b != NBUF
        invariant -1 <= k < NBUF && b == RingAt(lru, NBUF, k)
        invariant forall j :: k < j < NBUF ==> held[lru[j]] > 0
        decreases k
      {
        StepBack(link, lru, held, k);
        if link[b].refcnt == 0 && !ide.buf[b].dirty {
          LongestAgo(link, lru, held, released, now, k);
          return;
        }
        b := link[b].prev;
        k := k - 1;
      }
    }

    method Bget(dev: nat, blockno: nat) returns (b: nat)
      requires Valid() && OnDisk(dev, blockno) && |held| < NBUF
      modifies this, ide
      ensures Inv(b) && ide.disk == old(ide.disk) && pending == old(pending) && lru == old(lru)
      ensures released == old(released) && now == old(now)
      ensures b < NBUF && held == old(held) + multiset{b} && HasKey(ide.buf, b, dev, blockno)
      ensures forall c :: 0 <= c < NBUF && c != b ==> ide.buf[c] == old(ide.buf)[c]
      ensures HasKey(old(ide.buf), b, dev, blockno) ==> ide.buf[b] == old(ide.buf)[b]
      ensures !HasKey(old(ide.buf), b, dev, blockno) ==>
                !ide.buf[b].valid && old(held)[b] == 0
                && (forall c :: 0 <= c < NBUF ==> !HasKey(old(ide.buf), c, dev, blockno))
                && (forall c :: 0 <= c < NBUF && old(held)[c] == 0 ==> released[b] <= released[c])
    {
      hide Listed, Keyed, Ordered, Coherent, FirstWith, Ring;
      ListedFacts(link, lru, held);
      CoherentFacts(ide.buf, held, pending, ide.disk);
      b := FindKey(dev, blockno);
      if b < NBUF {
        FirstWithHasKey(ide.buf, lru, b, dev, blockno);
        HoldKeepsListed(link, lru, held, b);
        HitKeepsKeyed(ide.buf, lru, held, b, dev, blockno);
        HoldKeepsCoherent(ide.buf, held, pending, ide.disk, b);
        link := link[b := link[b].(refcnt := link[b].refcnt + 1)];
        held := held + multiset{b};
        return;
      }
      b := FindVictim();
      HoldKeepsListed(link, lru, held, b);
      RecycleKeepsKeyed(ide.buf, lru, held, b, dev, blockno);
      UpdateKeepsCoherent(ide.buf, held, pending, ide.disk, b, Buf(false, false, dev, blockno, ide.buf[b].data));
      HoldKeepsCoherent(ide.buf[b := Buf(false, false, dev, blockno, ide.buf[b].data)], held, pending, ide.disk, b);
      ide.buf := ide.buf[b := Buf(false, false, dev, blockno, ide.buf[b].data)];
      link := link[b := link[b].(refcnt := 1)];
      held := held + multiset{b};
    }

    method Bread(dev: nat, blockno: nat) returns (b: nat)
      requires Valid() && OnDisk(dev, blockno) && |held| < NBUF
      modifies this, ide
      ensures Valid() && ide.disk == old(ide.disk) && pending == old(pending) && lru == old(lru)
      ensures b < NBUF && held == old(held) + multiset{b} && Holds(b, dev, blockno)
      ensures forall c :: 0 <= c < NBUF && old(held)[c] > 0 ==> ide.buf[c] == old(ide.buf)[c]
      ensures b !in pending ==> Data(b) == ide.disk[dev][blockno]
    {
      hide Listed, Keyed, Ordered;
      b := Bget(dev, blockno);
      if !ide.buf[b].valid {
        ghost var x := ide.buf[b].(valid := true, data := ide.disk[dev][blockno]);
        ValidityKeepsKeyed(ide.buf, lru, held, b, x);
        UpdateKeepsCoherent(ide.buf, held, pending, ide.disk, b, x);
        ghost var buf := ide.buf;
        ide.Iderw(b);
        assert ide.buf == buf[b := x];
      }
      CoherentFacts(ide.buf, held, pending, ide.disk);
    }

    /** The holder of a buffer changes its data in memory. */
    method Store(b: nat, d: Block)
      requires Valid() && b < NBUF && held[b] > 0
      modifies this`pending, ide`buf
      ensures Valid() && pending == old(pending) + {b}
      ensures ide.buf == old(ide.buf)[b := old(ide.buf)[b].(data := d)]
    {
      hide Listed, Keyed, Ordered, Coherent;
      CoherentFacts(ide.buf, held, pending, ide.disk);
      ValidityKeepsKeyed(ide.buf, lru, held, b, ide.buf[b].(data := d));
      MorePendingKeepsCoherent(ide.buf, held, pending, ide.disk, b);
      UpdateKeepsCoherent(ide.buf, held, pending + {b}, ide.disk, b, ide.buf[b].(data := d));
      ide.buf := ide.buf[b := ide.buf[b].(data := d)];
      pending := pending + {b};
    }

    method Bwrite(b: nat)
      requires Valid() && b < NBUF && held[b] > 0
      modifies this`pending, ide
      ensures Valid() && pending == old(pending) - {b} && ide.buf == old(ide.buf)
      ensures ide.disk == PutBlock(old(ide.disk), ide.buf[b].dev, ide.buf[b].blockno, ide.buf[b].data)
    {
      hide Listed, Keyed, Ordered, Coherent;
      CoherentFacts(ide.buf, held, pending, ide.disk);
      WriteKeepsCoherent(ide.buf, lru, held, pending, ide.disk, b);
      ide.buf := ide.buf[b := ide.buf[b].(dirty := true)];
      ide.Iderw(b);
      pending := pending - {b};
      assert ide.buf == old(ide.buf);
    }

    method Brelse(b: nat)
      requires Valid() && b < NBUF && held[b] > 0 && b !in pending
      modifies this
      ensures Valid() && held == old(held) - multiset{b} && pending == old(pending)
      ensures held[b] == 0 ==> now == old(now) + 1 && released == old(released)[b := old(now)]
      ensures held[b] > 0 ==> now == old(now) && released == old(released)
    {
      hide Listed, Keyed, Ordered, Coherent, Unlink, PushFront, Without;
      ListedFacts(link, lru, held);
      ReleaseKeepsListed(link, lru, held, b);
      ReleaseKeepsKeyed(ide.buf, lru, held, b);
      HoldKeepsCoherent(ide.buf, held, pending, ide.disk, b);
      link := link[b := link[b].(refcnt := link[b].refcnt - 1)];
      held := held - multiset{b};
      if link[b].refcnt == 0 {
        assert b in lru;
        ghost var p :| 0 <= p < NBUF && lru[p] == b;
        MoveToFrontKeepsListed(link, lru, held, p);
        MoveToFrontKeepsKeyed(ide.buf, lru, held, p);
        MoveToFrontKeepsOrdered(lru, released, now, p);
        link := Unlink(link, b);
        link := PushFront(link, b);
        lru := [b] + Without(lru, p);
        released := released[b := now];
        now := now + 1;
      }
    }

    /** One read or write of a block as kernel code makes it: the buffer is read, for a write also
        filled and written through, and let go. */
    method Perform(op: BlockOp) returns (got: seq<Block>)
      requires Valid() && pending == {} && |held| < NBUF && OnDisk(op.dev, op.blockno)
      modifies this, ide
      ensures Valid() && pending == {} && held == old(held)
      ensures GoodDisk(old(ide.disk)) && got == AnswerOf(old(ide.disk), op)
                && ide.disk == DiskAfterOne(old(ide.disk), op)
    {
      hide BufferCache.Inv, GoodDisk;
      ValidDisk();
      var b := Bread(op.dev, op.blockno);
      ValidDisk();
      if op.Put? {
        got := [];
        Store(b, op.data);
        Bwrite(b);
      } else {
        got := [Data(b)];
      }
      Brelse(b);
      assert held == old(held);
    }

    /** Any sequence of reads and writes through the cache gives the results, and leaves the disk,
        of the same operations on the plain disk. */
    method Replay(ops: seq<BlockOp>) returns (got: seq<Block>)
      requires Valid() && pending == {} && |held| < NBUF && OpsOnDisk(ops)
      modifies this, ide
      ensures Valid() && pending == {} && held == old(held)
      ensures GoodDisk(old(ide.disk)) && got == ReadsOf(old(ide.disk), ops) && ide.disk == DiskAfter(old(ide.disk), ops)
    {
      hide BufferCache.Valid, GoodDisk, DiskAfter, ReadsOf, DiskAfterOne, AnswerOf, OnDisk;
      ValidDisk();
      ghost var disk := ide.disk;
      got := [];
      var i := 0;
      NoOps(disk);
      assert ops[..0] == [];
      while i < |ops|
        invariant i <= |ops| && Valid() && pending == {} && held == old(held)
        invariant got == ReadsOf(disk, ops[..i]) && ide.disk == DiskAfter(disk, ops[..i])
      {
        OneMoreOp(disk, ops, i);
        var answer := Perform(ops[i]);
        got := got + answer;
        i := i + 1;
      }
      assert ops[..i] == ops;
    }
  }
}
