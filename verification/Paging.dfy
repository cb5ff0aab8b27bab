/** Two-level page tables held in physical pages, the use every page is put to, and the free
    list threaded through the pages that have none.  Pages are named by their number. */
module Paging {
  import opened Bytes

  const PGSIZE: nat := 4096
  const NENTRIES: nat := 1024          // NPDENTRIES, NPTENTRIES
  const KERNBASE: nat := 0x8000_0000
  const KERNLINK: nat := 0x8010_0000
  const EXTMEM: nat := 0x10_0000
  const PHYSTOP: nat := 0xE00_0000
  const DEVSPACE: nat := 0xFE00_0000
  const NFRAME: nat := PHYSTOP / PGSIZE
  const NUSER: nat := KERNBASE / PGSIZE       // virtual pages below the kernel
  const NPAGE: nat := 0x1_0000_0000 / PGSIZE  // virtual pages in all

  const PTE_P: nat := 1
  const PTE_W: nat := 2
  const PTE_U: nat := 4

  type Page = p: seq<byte> | |p| == PGSIZE witness Zeros(PGSIZE)

  /** What a page that is not free is used for. */
  datatype Use =
    | Held                          // by the code that allocated it
    | Dir                           // a page directory
    | Table(dir: nat, pdx: nat)     // the table at entry pdx of a directory
    | User(dir: nat, vpn: nat)      // the memory at a user page of an address space

  // ---------- addresses and entries ----------

  function PDX(va: u32): nat { va / 0x40_0000 % NENTRIES }

  function PTX(va: u32): nat { va / PGSIZE % NENTRIES }

  function PgRoundUp(a: u32): u32 { (a + PGSIZE - 1) % 0x1_0000_0000 / PGSIZE * PGSIZE }

  function PgRoundDown(a: u32): u32 { a / PGSIZE * PGSIZE }

  /** The first virtual address of directory entry d. */
  function PgAddr(d: nat): u32 { d * 0x40_0000 % 0x1_0000_0000 }

  lemma PageOfAddress(va: u32)
    ensures PDX(va) == va / PGSIZE / NENTRIES < NENTRIES && PTX(va) == va / PGSIZE % NENTRIES < NENTRIES
    ensures va / PGSIZE == PDX(va) * NENTRIES + PTX(va) < NPAGE
  {
  }

  /** Virtual pages that start below an address. */
  function PagesBelow(a: nat): nat { (a + PGSIZE - 1) / PGSIZE }

  /** The entry for page n with these flags; the address is aligned, so combining bits is adding. */
  function Entry(n: nat, flags: nat): u32
    requires n < NPAGE && flags < PGSIZE
  {
    PGSIZE * n + flags
  }

  predicate Present(e: u32) { e % 2 == 1 }

  predicate UserBit(e: u32) { e / 4 % 2 == 1 }

  /** The number of the physical page an entry names. */
  function Target(e: u32): nat { e / PGSIZE }

  function Flags(e: u32): nat { e % PGSIZE }

  /** The kernel's virtual address of a page, and 0 for none. */
  function P2V(n: nat): u32
    requires n < NFRAME
  {
    if n == 0 then 0 else KERNBASE + PGSIZE * n
  }

  /** The page at a kernel virtual address. */
  function V2P(va: u32): nat {
    if va < KERNBASE then 0 else (va - KERNBASE) / PGSIZE
  }

  lemma P2VRoundTrip(n: nat)
    requires n < NFRAME
    ensures V2P(P2V(n)) == n && (P2V(n) == 0 <==> n == 0)
  {
  }

  function WordAt(ram: seq<Page>, n: nat, k: nat): u32 {
    if n < |ram| && k < NENTRIES then Word(ram[n], k) else 0
  }

  /** The entry that translates virtual page v through directory d; 0 where there is no table. */
  function At(ram: seq<Page>, d: nat, v: nat): u32 {
    var e := WordAt(ram, d, v / NENTRIES);
    if Present(e) then WordAt(ram, Target(e), v % NENTRIES) else 0
  }

  /** What the processor reads: the directory's word at four times the top ten bits of the address
      names, above its low twelve bits and if its lowest is set, the page of the table; the table's
      word at four times the next ten bits is the translation. */
  lemma WalkBytes(ram: seq<Page>, d: nat, va: u32)
    requires d < |ram|
    ensures var e := Le32(ram[d], 4 * (va / 0x40_0000));
            if e % 2 == 0 || e / 0x1000 >= |ram| then At(ram, d, va / 0x1000) == 0
            else At(ram, d, va / 0x1000) == Le32(ram[e / 0x1000], 4 * (va / 0x1000 % 0x400))
  {
    var v := va / 0x1000;
    assert v / NENTRIES == va / 0x40_0000 < NENTRIES && v % NENTRIES < NENTRIES;
    WordBytes(ram[d], v / NENTRIES);
    var e := WordAt(ram, d, v / NENTRIES);
    if Present(e) && Target(e) < |ram| {
      WordBytes(ram[Target(e)], v % NENTRIES);
    }
  }

  // ---------- the free list ----------

  /** head starts the chain of kernel addresses, kept in first words, through the pages of free. */
  ghost predicate Chained(ram: seq<Page>, head: u32, free: seq<nat>)
    decreases |free|
  {
    if free == [] then head == 0
    else 0 < free[0] < |ram| <= NFRAME && head == P2V(free[0]) && Chained(ram, WordAt(ram, free[0], 0), free[1..])
  }

  /** Every page handed to the allocator is on the free list, once, or in use. */
  ghost predicate Pool(ram: seq<Page>, head: u32, free: seq<nat>, use: map<nat, Use>) {
    && |ram| <= NFRAME && Chained(ram, head, free) && Distinct(free)
    && (forall n :: n in free ==> 0 < n < |ram| && n !in use)
    && (forall n :: n in use ==> 0 < n < |ram|)
  }

  ghost function AsSet(free: seq<nat>): set<nat> {
    set n | n in free
  }

  lemma {:induction false} ChainedKept(ram: seq<Page>, head: u32, free: seq<nat>, n: nat, p: Page)
    requires Chained(ram, head, free) && n < |ram| && n !in free
    ensures Chained(ram[n := p], head, free)
    decreases |free|
  {
    if free != [] {
      assert free[0] in free;
      ChainedKept(ram, WordAt(ram, free[0], 0), free[1..], n, p);
    }
  }

  lemma PoolKept(ram: seq<Page>, head: u32, free: seq<nat>, use: map<nat, Use>, n: nat, p: Page)
    requires Pool(ram, head, free, use) && n < |ram| && n !in free
    ensures Pool(ram[n := p], head, free, use)
  {
    ChainedKept(ram, head, free, n, p);
  }

  /** kfree */
  lemma PoolPushed(ram: seq<Page>, head: u32, free: seq<nat>, use: map<nat, Use>, n: nat, p: Page)
    requires Pool(ram, head, free, use) && 0 < n < |ram| && n !in free && Word(p, 0) == head
    ensures Pool(ram[n := p], P2V(n), [n] + free, use - {n})
    ensures AsSet([n] + free) == AsSet(free) + {n}
  {
    ChainedKept(ram, head, free, n, p);
    assert ([n] + free)[1..] == free;
    assert ([n] + free)[0] == n;
  }

  /** kalloc */
  lemma PoolPopped(ram: seq<Page>, head: u32, free: seq<nat>, use: map<nat, Use>)
    requires Pool(ram, head, free, use) && free != []
    ensures 0 < free[0] < |ram| && head == P2V(free[0]) && free[0] !in free[1..]
    ensures Pool(ram, WordAt(ram, free[0], 0), free[1..], use[free[0] := Held])
    ensures AsSet(free[1..]) == AsSet(free) - {free[0]} && free[0] in AsSet(free)
  {
    assert free[0] in free;
    assert forall i :: 0 <= i < |free[1..]| ==> free[1..][i] == free[i + 1];
    assert forall n :: n in free[1..] ==> n in free;
  }

  // ---------- directories and tables ----------

  ghost predicate IsDir(use: map<nat, Use>, d: nat) {
    d in use && use[d] == Dir
  }

  ghost predicate IsTable(use: map<nat, Use>, t: nat, d: nat, i: nat) {
    t in use && use[t] == Table(d, i)
  }

  ghost predicate DirEntryOk(ram: seq<Page>, use: map<nat, Use>, d: nat, i: nat) {
    var e := WordAt(ram, d, i);
    e == 0 || (Flags(e) == PTE_P + PTE_W + PTE_U && IsTable(use, Target(e), d, i))
  }

  ghost predicate TableHung(ram: seq<Page>, use: map<nat, Use>, t: nat) {
    t in use && use[t].Table? ==>
      && IsDir(use, use[t].dir) && use[t].pdx < NENTRIES && t < NFRAME
      && WordAt(ram, use[t].dir, use[t].pdx) == Entry(t, PTE_P + PTE_W + PTE_U)
  }

  /** Every table hangs from the one entry it is used for, and every entry holds such a table. */
  ghost predicate Tables(ram: seq<Page>, use: map<nat, Use>) {
    && (forall n :: n in use ==> n < |ram|)
    && (forall d, i :: IsDir(use, d) && 0 <= i < NENTRIES ==> DirEntryOk(ram, use, d, i))
    && (forall t :: t in use ==> TableHung(ram, use, t))
  }

  /** Every directory translates every page the same way as before. */
  ghost predicate SameSpaces(use: map<nat, Use>, before: seq<Page>, after: seq<Page>) {
    forall d, v :: IsDir(use, d) && 0 <= v < NPAGE ==> At(after, d, v) == At(before, d, v)
  }

  /** ... but for page v of directory d, now translated by x. */
  ghost predicate OneSet(use: map<nat, Use>, before: seq<Page>, after: seq<Page>, d: nat, v: nat, x: u32) {
    forall c, w :: IsDir(use, c) && 0 <= w < NPAGE ==>
        At(after, c, w) == if c == d && w == v then x else At(before, c, w)
  }

  /** A page that is neither a directory nor a table matters to no translation. */
  lemma TablesKept(ram: seq<Page>, use: map<nat, Use>, n: nat, p: Page)
    requires Tables(ram, use) && n < |ram| && (n in use ==> use[n] == Held || use[n].User?)
    ensures Tables(ram[n := p], use) && SameSpaces(use, ram, ram[n := p])
  {
    var after := ram[n := p];
    forall t | t in use ensures TableHung(after, use, t) {
      assert TableHung(ram, use, t);
    }
    forall d, i | IsDir(use, d) && 0 <= i < NENTRIES ensures DirEntryOk(after, use, d, i) {
      assert DirEntryOk(ram, use, d, i);
    }
    forall d, v | IsDir(use, d) && 0 <= v < NPAGE ensures At(after, d, v) == At(ram, d, v) {
      assert DirEntryOk(ram, use, d, v / NENTRIES);
    }
  }

  /** Writing entry j of the table at entry i of d changes one translation. */
  lemma TablesAfterEntry(ram: seq<Page>, use: map<nat, Use>, t: nat, j: nat, x: u32)
    requires Tables(ram, use) && t in use && use[t].Table? && j < NENTRIES
    ensures Tables(ram[t := PutWord(ram[t], j, x)], use)
    ensures OneSet(use, ram, ram[t := PutWord(ram[t], j, x)], use[t].dir, use[t].pdx * NENTRIES + j, x)
  {
    hide Word, PutWord, Entry;
    var after := ram[t := PutWord(ram[t], j, x)];
    var d, i := use[t].dir, use[t].pdx;
    assert TableHung(ram, use, t);
    forall s | s in use ensures TableHung(after, use, s) {
      assert TableHung(ram, use, s);
    }
    forall c, k | IsDir(use, c) && 0 <= k < NENTRIES ensures DirEntryOk(after, use, c, k) {
      assert DirEntryOk(ram, use, c, k);
    }
    forall c, w | IsDir(use, c) && 0 <= w < NPAGE
      ensures At(after, c, w) == if c == d && w == i * NENTRIES + j then x else At(ram, c, w)
    {
      assert DirEntryOk(ram, use, c, w / NENTRIES);
      EntryTarget(t, PTE_P + PTE_W + PTE_U);
      WordPutWord(ram[t], j, x, w % NENTRIES);
    }
  }

  lemma EntryTarget(n: nat, flags: nat)
    requires n < NPAGE && flags < PGSIZE
    ensures Target(Entry(n, flags)) == n && Flags(Entry(n, flags)) == flags
    ensures flags % 2 == 1 ==> Present(Entry(n, flags))
    ensures UserBit(Entry(n, flags)) <==> flags / 4 % 2 == 1
  {
  }

  /** A zeroed page hung from an empty entry of d becomes its table; nothing translates differently. */
  lemma TablesAfterHang(ram: seq<Page>, use: map<nat, Use>, t: nat, d: nat, i: nat)
    requires Tables(ram, use) && t in use && use[t] == Held && IsDir(use, d) && i < NENTRIES && WordAt(ram, d, i) == 0
    requires |ram| <= NFRAME && ram[t] == Zeros(PGSIZE)
    ensures var after := ram[d := PutWord(ram[d], i, Entry(t, PTE_P + PTE_W + PTE_U))];
            && Tables(after, use[t := Table(d, i)]) && SameSpaces(use[t := Table(d, i)], ram, after)
  {
    hide Word, PutWord, Entry;
    var e := Entry(t, PTE_P + PTE_W + PTE_U);
    var after, used := ram[d := PutWord(ram[d], i, e)], use[t := Table(d, i)];
    EntryTarget(t, PTE_P + PTE_W + PTE_U);
    forall k | 0 <= k < NENTRIES ensures WordAt(after, d, k) == if k == i then e else WordAt(ram, d, k) {
      WordPutWord(ram[d], i, e, k);
    }
    forall s | s in used ensures TableHung(after, used, s) {
      assert TableHung(ram, use, s);
      if s < NFRAME {
        EntryTarget(s, PTE_P + PTE_W + PTE_U);
      }
    }
    forall c, k | IsDir(used, c) && 0 <= k < NENTRIES ensures DirEntryOk(after, used, c, k) {
      assert DirEntryOk(ram, use, c, k);
    }
    forall c, w | IsDir(used, c) && 0 <= w < NPAGE ensures At(after, c, w) == At(ram, c, w) {
      assert DirEntryOk(ram, use, c, w / NENTRIES);
      WordOfZeros(PGSIZE, w % NENTRIES);
    }
  }

  // ---------- user memory and the kernel's half ----------

  ghost predicate UserEntryOk(ram: seq<Page>, use: map<nat, Use>, d: nat, v: nat) {
    var e := At(ram, d, v);
    e == 0 || (Flags(e) in {PTE_P + PTE_W, PTE_P + PTE_W + PTE_U} && Target(e) in use && use[Target(e)] == User(d, v))
  }

  ghost predicate UserMapped(ram: seq<Page>, use: map<nat, Use>, n: nat) {
    n in use && use[n].User? ==>
      && IsDir(use, use[n].dir) && use[n].vpn < NUSER
      && At(ram, use[n].dir, use[n].vpn) != 0 && Target(At(ram, use[n].dir, use[n].vpn)) == n
  }

  /** Below the kernel every address space maps pages of its own, and every such page once. */
  ghost predicate Users(ram: seq<Page>, use: map<nat, Use>) {
    && (forall d, v :: IsDir(use, d) && 0 <= v < NUSER ==> UserEntryOk(ram, use, d, v))
    && (forall n :: n in use ==> UserMapped(ram, use, n))
  }

  /** The kernel's mapping of page v, with its data starting at page data. */
  function KernelAt(data: nat, v: nat): u32 {
    if KERNBASE / PGSIZE <= v < KERNLINK / PGSIZE then Entry(v - NUSER, PTE_P + PTE_W)
    else if KERNLINK / PGSIZE <= v < data && v < NUSER + NFRAME then Entry(v - NUSER, PTE_P)
    else if data <= v < NUSER + NFRAME && KERNLINK / PGSIZE <= v then Entry(v - NUSER, PTE_P + PTE_W)
    else if DEVSPACE / PGSIZE <= v < NPAGE then Entry(v, PTE_P + PTE_W)
    else 0
  }

  /** Every address space but those of skip has the kernel's mapping above the user's memory. */
  ghost predicate Kernels(ram: seq<Page>, use: map<nat, Use>, data: nat, skip: set<nat>) {
    forall d, v :: IsDir(use, d) && d !in skip && NUSER <= v < NPAGE ==> At(ram, d, v) == KernelAt(data, v)
  }

  /** The entry allows writing. */
  predicate WriteBit(e: u32) { e / 2 % 2 == 1 }

  /** The kernel's half of an address space, as the kernel relies on it: each page of memory is found
      at its place above KERNBASE, writable but for the kernel's code, which ends where its data
      starts; the device pages are found where they are; and nothing is the user's or anywhere else. */
  ghost predicate KernelMapped(ram: seq<Page>, d: nat, data: nat) {
    && (forall n: nat :: n < NFRAME ==>
          var e, va := At(ram, d, (KERNBASE + PGSIZE * n) / PGSIZE), KERNBASE + PGSIZE * n;
          && Present(e) && !UserBit(e) && Target(e) == n
          && (WriteBit(e) <==> !(KERNLINK <= va < PGSIZE * data)))
    && (forall v: nat :: DEVSPACE <= PGSIZE * v < 0x1_0000_0000 ==>
          var e := At(ram, d, v);
          Present(e) && !UserBit(e) && WriteBit(e) && Target(e) == v)
    && (forall v: nat :: KERNBASE + PHYSTOP <= PGSIZE * v < DEVSPACE ==> At(ram, d, v) == 0)
  }

  lemma EntryBits(n: nat, flags: nat)
    requires n < NPAGE && flags in {PTE_P, PTE_P + PTE_W}
    ensures var e := Entry(n, flags);
            Present(e) && !UserBit(e) && Target(e) == n && (WriteBit(e) <==> flags == PTE_P + PTE_W)
  {
    hide Present, UserBit, Target;
    EntryTarget(n, flags);
    assert Entry(n, flags) / 2 == 2 * (1024 * n) + flags / 2;
  }

  lemma KernelAtMemory(data: nat, n: nat)
    requires n < NFRAME && KERNLINK / PGSIZE < data < NUSER + NFRAME
    ensures var e, va := KernelAt(data, (KERNBASE + PGSIZE * n) / PGSIZE), KERNBASE + PGSIZE * n;
            && Present(e) && !UserBit(e) && Target(e) == n
            && (WriteBit(e) <==> !(KERNLINK <= va < PGSIZE * data))
  {
    hide Present, UserBit, Target, WriteBit, Entry;
    assert (KERNBASE + PGSIZE * n) / PGSIZE == NUSER + n;
    EntryBits(n, PTE_P);
    EntryBits(n, PTE_P + PTE_W);
  }

  lemma KernelAtDevice(data: nat, v: nat)
    requires KERNBASE + PHYSTOP <= PGSIZE * v < 0x1_0000_0000 && KERNLINK / PGSIZE < data < NUSER + NFRAME
    ensures var e := KernelAt(data, v);
            if PGSIZE * v < DEVSPACE then e == 0
            else Present(e) && !UserBit(e) && WriteBit(e) && Target(e) == v
  {
    hide Present, UserBit, Target, WriteBit, Entry;
    EntryBits(v, PTE_P + PTE_W);
  }

  lemma KernelIsMapped(ram: seq<Page>, use: map<nat, Use>, data: nat, skip: set<nat>, d: nat)
    requires Kernels(ram, use, data, skip) && IsDir(use, d) && d !in skip
    requires KERNLINK / PGSIZE < data < NUSER + NFRAME
    ensures KernelMapped(ram, d, data)
  {
    hide At, KernelAt, Present, UserBit, Target, WriteBit;
    forall n: nat | n < NFRAME
      ensures var e, va := At(ram, d, (KERNBASE + PGSIZE * n) / PGSIZE), KERNBASE + PGSIZE * n;
              && Present(e) && !UserBit(e) && Target(e) == n
              && (WriteBit(e) <==> !(KERNLINK <= va < PGSIZE * data))
    {
      KernelAtMemory(data, n);
      assert NUSER <= (KERNBASE + PGSIZE * n) / PGSIZE < NPAGE;
    }
    forall v: nat | KERNBASE + PHYSTOP <= PGSIZE * v < 0x1_0000_0000
      ensures var e := At(ram, d, v);
              if PGSIZE * v < DEVSPACE then e == 0
              else Present(e) && !UserBit(e) && WriteBit(e) && Target(e) == v
    {
      KernelAtDevice(data, v);
    }
  }

  /** The address the kernel uses for a page leads to that page. */
  lemma P2VIsMapped(ram: seq<Page>, d: nat, data: nat, n: nat)
    requires KernelMapped(ram, d, data) && 0 < n < NFRAME
    ensures Present(At(ram, d, P2V(n) / PGSIZE)) && Target(At(ram, d, P2V(n) / PGSIZE)) == n && P2V(n) % PGSIZE == 0
    ensures V2P(P2V(n)) == n
  {
    hide At;
  }

  /** The whole invariant. */
  ghost predicate Good(ram: seq<Page>, head: u32, free: seq<nat>, use: map<nat, Use>, data: nat, skip: set<nat>) {
    Pool(ram, head, free, use) && Tables(ram, use) && Users(ram, use) && Kernels(ram, use, data, skip)
  }

  /** The pages of the address space of d. */
  ghost predicate Belongs(use: map<nat, Use>, d: nat, n: nat) {
    n in use && match use[n]
                case Dir => n == d
                case Table(c, _) => c == d
                case User(c, _) => c == d
                case Held => false
  }

  ghost function SpaceOf(use: map<nat, Use>, d: nat): set<nat> {
    set n | n in use && Belongs(use, d, n)
  }

  /** Nothing but held pages came or went, and every translation is the same. */
  lemma UsersKept(before: seq<Page>, use: map<nat, Use>, after: seq<Page>, used: map<nat, Use>, data: nat,
        skip: set<nat>)
    requires Users(before, use) && Kernels(before, use, data, skip) && SameSpaces(use, before, after)
    requires forall n :: n in use && use[n] != Held ==> n in used && used[n] == use[n]
    requires forall n :: n in used && (used[n] == Dir || used[n].User?) ==> n in use && use[n] == used[n]
    ensures Users(after, used) && Kernels(after, used, data, skip)
  {
    forall d, v | IsDir(used, d) && 0 <= v < NUSER ensures UserEntryOk(after, used, d, v) {
      assert IsDir(use, d) && UserEntryOk(before, use, d, v);
    }
    forall n | n in used ensures UserMapped(after, used, n) {
      if used[n].User? {
        assert UserMapped(before, use, n);
      }
    }
    forall d, v | IsDir(used, d) && d !in skip && NUSER <= v < NPAGE ensures At(after, d, v) == KernelAt(data, v) {
      assert IsDir(use, d);
    }
  }

  /** A held page becomes page v of the address space of d. */
  lemma UsersAfterMap(before: seq<Page>, use: map<nat, Use>, after: seq<Page>, n: nat, d: nat, v: nat, x: u32,
        data: nat, skip: set<nat>)
    requires Users(before, use) && Kernels(before, use, data, skip) && OneSet(use, before, after, d, v, x)
    requires n in use && use[n] == Held && IsDir(use, d) && v < NUSER && At(before, d, v) == 0
    requires Target(x) == n && Flags(x) in {PTE_P + PTE_W, PTE_P + PTE_W + PTE_U}
    ensures Users(after, use[n := User(d, v)]) && Kernels(after, use[n := User(d, v)], data, skip)
  {
    var used := use[n := User(d, v)];
    forall c, w | IsDir(used, c) && 0 <= w < NUSER ensures UserEntryOk(after, used, c, w) {
      assert IsDir(use, c) && UserEntryOk(before, use, c, w);
    }
    forall m | m in used ensures UserMapped(after, used, m) {
      assert m in use && UserMapped(before, use, m);
    }
    forall c, w | IsDir(used, c) && c !in skip && NUSER <= w < NPAGE ensures At(after, c, w) == KernelAt(data, w) {
      assert IsDir(use, c);
    }
  }

  /** Page v of the address space of d is unmapped, and its memory page n no longer in use. */
  lemma UsersAfterUnmap(before: seq<Page>, use: map<nat, Use>, after: seq<Page>, n: nat, d: nat, v: nat, data: nat,
        skip: set<nat>)
    requires Users(before, use) && Kernels(before, use, data, skip) && OneSet(use - {n}, before, after, d, v, 0)
    requires n in use && use[n] == User(d, v) && v < NUSER
    ensures Users(after, use - {n}) && Kernels(after, use - {n}, data, skip)
  {
    var used := use - {n};
    assert UserMapped(before, use, n);
    forall c, w | IsDir(used, c) && 0 <= w < NUSER ensures UserEntryOk(after, used, c, w) {
      assert IsDir(use, c) && UserEntryOk(before, use, c, w);
    }
    forall m | m in used ensures UserMapped(after, used, m) {
      assert UserMapped(before, use, m);
    }
    forall c, w | IsDir(used, c) && c !in skip && NUSER <= w < NPAGE ensures At(after, c, w) == KernelAt(data, w) {
      assert IsDir(use, c);
    }
  }

  /** The flags of a mapped user page change. */
  lemma UsersAfterFlags(before: seq<Page>, use: map<nat, Use>, after: seq<Page>, d: nat, v: nat, x: u32, data: nat,
        skip: set<nat>)
    requires Users(before, use) && Kernels(before, use, data, skip) && OneSet(use, before, after, d, v, x)
    requires v < NUSER && Target(x) == Target(At(before, d, v)) && At(before, d, v) != 0
    requires Flags(x) in {PTE_P + PTE_W, PTE_P + PTE_W + PTE_U}
    ensures Users(after, use) && Kernels(after, use, data, skip)
  {
    forall c, w | IsDir(use, c) && 0 <= w < NUSER ensures UserEntryOk(after, use, c, w) {
      assert UserEntryOk(before, use, c, w);
    }
    forall m | m in use ensures UserMapped(after, use, m) {
      assert UserMapped(before, use, m);
    }
  }

  // ---------- bytes of user memory ----------

  /** The byte at a user address. */
  function ByteAt(ram: seq<Page>, d: nat, a: nat): byte {
    var e := At(ram, d, a / PGSIZE);
    if e != 0 && Target(e) < |ram| then ram[Target(e)][a % PGSIZE] else 0
  }

  /** Pages of memory, held or mapped, keep their bytes. */
  ghost predicate DataKept(use: map<nat, Use>, before: seq<Page>, after: seq<Page>) {
    |after| == |before| && forall n :: n in use && n < |before| && (use[n] == Held || use[n].User?) ==>
        after[n] == before[n]
  }

  // ---------- steps ----------

  /** kalloc's page is held. */
  lemma TablesAfterTake(ram: seq<Page>, use: map<nat, Use>, n: nat)
    requires Tables(ram, use) && n < |ram| && n !in use
    ensures Tables(ram, use[n := Held]) && SameSpaces(use[n := Held], ram, ram)
  {
    var used := use[n := Held];
    forall t | t in used ensures TableHung(ram, used, t) {
      assert t != n ==> TableHung(ram, use, t);
    }
    forall d, i | IsDir(used, d) && 0 <= i < NENTRIES ensures DirEntryOk(ram, used, d, i) {
      assert IsDir(use, d) && DirEntryOk(ram, use, d, i);
    }
  }

  /** A page neither directory nor table leaves use. */
  lemma TablesAfterDrop(ram: seq<Page>, use: map<nat, Use>, n: nat)
    requires Tables(ram, use) && (n in use ==> use[n] == Held || use[n].User?)
    ensures Tables(ram, use - {n})
  {
    var used := use - {n};
    forall t | t in used ensures TableHung(ram, used, t) {
      assert TableHung(ram, use, t);
    }
    forall d, i | IsDir(used, d) && 0 <= i < NENTRIES ensures DirEntryOk(ram, used, d, i) {
      assert IsDir(use, d) && DirEntryOk(ram, use, d, i);
    }
  }

  /** A held, zeroed page becomes a directory that maps nothing. */
  lemma TablesAfterDir(ram: seq<Page>, use: map<nat, Use>, d: nat)
    requires Tables(ram, use) && d in use && use[d] == Held && ram[d] == Zeros(PGSIZE)
    ensures Tables(ram, use[d := Dir]) && forall v: nat :: v < NPAGE ==> At(ram, d, v) == 0
  {
    hide Word;
    var used := use[d := Dir];
    forall k: nat | k < NENTRIES ensures WordAt(ram, d, k) == 0 {
      WordOfZeros(PGSIZE, k);
    }
    forall t | t in used ensures TableHung(ram, used, t) {
      assert TableHung(ram, use, t);
    }
    forall c, i | IsDir(used, c) && 0 <= i < NENTRIES ensures DirEntryOk(ram, used, c, i) {
      assert c != d ==> IsDir(use, c) && DirEntryOk(ram, use, c, i);
    }
  }

  /** ... whose users and kernel half say nothing yet. */
  lemma UsersAfterDir(ram: seq<Page>, use: map<nat, Use>, d: nat, data: nat, skip: set<nat>)
    requires Users(ram, use) && Kernels(ram, use, data, skip) && d in use && use[d] == Held
    requires forall v: nat :: v < NPAGE ==> At(ram, d, v) == 0
    ensures Users(ram, use[d := Dir]) && Kernels(ram, use[d := Dir], data, skip + {d})
  {
    var used := use[d := Dir];
    forall c, v | IsDir(used, c) && 0 <= v < NUSER ensures UserEntryOk(ram, used, c, v) {
      assert c != d ==> IsDir(use, c) && UserEntryOk(ram, use, c, v);
    }
    forall n | n in used ensures UserMapped(ram, used, n) {
      assert UserMapped(ram, use, n);
    }
    forall c, v | IsDir(used, c) && c !in skip + {d} && NUSER <= v < NPAGE ensures At(ram, c, v) == KernelAt(data, v) {
      assert IsDir(use, c);
    }
  }

  /** A directory's entry is empty, or names its table. */
  lemma EntryOf(ram: seq<Page>, head: u32, free: seq<nat>, use: map<nat, Use>, d: nat, i: nat)
    requires Pool(ram, head, free, use) && Tables(ram, use) && IsDir(use, d) && i < NENTRIES
    ensures var e := WordAt(ram, d, i);
            && (Present(e) <==> e != 0)
            && (e != 0 ==> 0 < Target(e) < |ram| && IsTable(use, Target(e), d, i))
  {
    hide Word;
    assert DirEntryOk(ram, use, d, i);
  }

  /** Only tables of d, and memory for its pages lo to hi, have come into use, from the free list. */
  ghost predicate MoreSpace(use: map<nat, Use>, free: seq<nat>, used: map<nat, Use>, freed: seq<nat>, d: nat, lo: nat,
        hi: nat) {
    && (forall n :: n in use ==> n in used && used[n] == use[n])
    && (forall n :: n in used && n !in use ==>
          || (used[n].Table? && used[n].dir == d)
          || (used[n].User? && used[n].dir == d && lo <= used[n].vpn < hi))
    && AsSet(freed) + used.Keys == AsSet(free) + use.Keys
  }

  ghost predicate MoreTables(use: map<nat, Use>, free: seq<nat>, used: map<nat, Use>, freed: seq<nat>, d: nat) {
    MoreSpace(use, free, used, freed, d, 0, 0)
  }

  lemma MoreSpaceTrans(use: map<nat, Use>, free: seq<nat>, use1: map<nat, Use>, free1: seq<nat>, use2: map<nat, Use>,
        free2: seq<nat>, d: nat, lo: nat, hi: nat)
    requires MoreSpace(use, free, use1, free1, d, lo, hi) && MoreSpace(use1, free1, use2, free2, d, lo, hi)
    ensures MoreSpace(use, free, use2, free2, d, lo, hi)
  {
  }

  lemma DataKeptTrans(use: map<nat, Use>, ram: seq<Page>, use1: map<nat, Use>, ram1: seq<Page>, ram2: seq<Page>)
    requires DataKept(use, ram, ram1) && DataKept(use1, ram1, ram2)
    requires forall n :: n in use ==> n in use1 && use1[n] == use[n]
    ensures DataKept(use, ram, ram2)
  {
  }

  /** k pages from first on are now translated, in d, to as many pages from p on; no other
      translation has changed. */
  ghost predicate Mapped(use: map<nat, Use>, before: seq<Page>, after: seq<Page>, d: nat, first: nat, k: nat, p: nat,
        flags: nat) {
    && p + k <= NPAGE && flags < PGSIZE
    && forall c, w :: IsDir(use, c) && 0 <= w < NPAGE ==>
         At(after, c, w) == if c == d && first <= w < first + k then Entry(p + w - first, flags) else At(before, c, w)
  }

  lemma MappedStep(use: map<nat, Use>, before: seq<Page>, mid: seq<Page>, used: map<nat, Use>, after: seq<Page>,
        d: nat, first: nat, k: nat, p: nat, flags: nat)
    requires Mapped(use, before, mid, d, first, k, p, flags) && p + k < NPAGE
    requires forall c :: IsDir(use, c) ==> IsDir(used, c)
    requires OneSet(used, mid, after, d, first + k, Entry(p + k, flags))
    ensures Mapped(use, before, after, d, first, k + 1, p, flags)
  {
    hide Entry, At;
    forall c, w | IsDir(use, c) && 0 <= w < NPAGE
      ensures At(after, c, w) == if c == d && first <= w < first + k + 1
                then Entry(p + w - first, flags) else At(before, c, w)
    {
      assert IsDir(used, c);
    }
  }

  /** A user page taken back from its address space. */
  lemma TablesAfterLoan(ram: seq<Page>, use: map<nat, Use>, n: nat)
    requires Tables(ram, use) && n in use && use[n].User?
    ensures Tables(ram, use[n := Held])
  {
    var used := use[n := Held];
    forall t | t in used ensures TableHung(ram, used, t) {
      assert TableHung(ram, use, t);
    }
    forall d, i | IsDir(used, d) && 0 <= i < NENTRIES ensures DirEntryOk(ram, used, d, i) {
      assert IsDir(use, d) && DirEntryOk(ram, use, d, i);
    }
  }

  lemma OneSetAfter(use: map<nat, Use>, before: seq<Page>, mid: seq<Page>, after: seq<Page>, d: nat, v: nat, x: u32)
    requires SameSpaces(use, before, mid) && OneSet(use, mid, after, d, v, x)
    ensures OneSet(use, before, after, d, v, x)
  {
    hide At;
  }

  // ---------- releasing an address space ----------

  /** The memory pages of d at virtual pages lo to hi. */
  ghost function UserPages(use: map<nat, Use>, d: nat, lo: nat, hi: nat): set<nat> {
    set n | n in use && use[n].User? && use[n].dir == d && lo <= use[n].vpn < hi
  }

  /** Pages lo to hi of d are unmapped, and nothing else changes. */
  ghost predicate Cleared(use: map<nat, Use>, before: seq<Page>, after: seq<Page>, d: nat, lo: nat, hi: nat) {
    forall c, w :: IsDir(use, c) && 0 <= w < NPAGE ==>
        At(after, c, w) == if c == d && lo <= w < hi then 0 else At(before, c, w)
  }

  /** What unmapping pages lo to hi of d comes to: their memory is free, and nothing else changes. */
  ghost predicate Shrunk(use: map<nat, Use>, free: seq<nat>, before: seq<Page>, used: map<nat, Use>, freed: seq<nat>,
        after: seq<Page>, d: nat, lo: nat, hi: nat) {
    && used == use - UserPages(use, d, lo, hi)
    && AsSet(freed) == AsSet(free) + UserPages(use, d, lo, hi)
    && Cleared(used, before, after, d, lo, hi) && DataKept(used, before, after)
  }

  lemma ShrunkNone(use: map<nat, Use>, free: seq<nat>, ram: seq<Page>, d: nat, lo: nat)
    ensures Shrunk(use, free, ram, use, free, ram, d, lo, lo)
  {
    assert UserPages(use, d, lo, lo) == {};
    assert use - {} == use;
  }

  /** One more page unmapped. */
  lemma ShrunkStep(use: map<nat, Use>, free: seq<nat>, before: seq<Page>, mid: map<nat, Use>, midFree: seq<nat>,
        midRam: seq<Page>, freed: seq<nat>, after: seq<Page>, d: nat, lo: nat, v: nat, n: nat)
    requires Shrunk(use, free, before, mid, midFree, midRam, d, lo, v) && Users(before, use) && lo <= v < NUSER
               && IsDir(use, d)
    requires n in mid && mid[n] == User(d, v) && freed == [n] + midFree
    requires OneSet(mid - {n}, midRam, after, d, v, 0) && DataKept(mid - {n}, midRam, after)
    ensures Shrunk(use, free, before, mid - {n}, freed, after, d, lo, v + 1)
  {
    hide At;
    assert UserMapped(before, use, n);
    forall m | m in UserPages(use, d, lo, v + 1) ensures m in UserPages(use, d, lo, v) + {n} {
      assert UserMapped(before, use, m);
    }
    var A := UserPages(use, d, lo, v);
    assert UserPages(use, d, lo, v + 1) == A + {n};
    assert mid - {n} == use - (A + {n});
    assert AsSet([n] + midFree) == AsSet(midFree) + {n};
  }

  /** Pages already unmapped are passed over. */
  lemma ShrunkSkip(use: map<nat, Use>, free: seq<nat>, before: seq<Page>, mid: map<nat, Use>, freed: seq<nat>,
        after: seq<Page>, d: nat, lo: nat, v: nat, w: nat)
    requires Shrunk(use, free, before, mid, freed, after, d, lo, v) && Users(before, use) && lo <= v <= w <= NUSER
    requires IsDir(mid, d) && forall x: nat :: v <= x < w ==> At(after, d, x) == 0
    ensures Shrunk(use, free, before, mid, freed, after, d, lo, w)
  {
    hide At;
    forall m | m in UserPages(use, d, lo, w) ensures m in UserPages(use, d, lo, v) {
      assert UserMapped(before, use, m);
    }
    assert UserPages(use, d, lo, w) == UserPages(use, d, lo, v);
  }

  /** A page below the kernel whose entry is present has memory of its own. */
  lemma EntryHasMemory(ram: seq<Page>, use: map<nat, Use>, t: nat, d: nat, v: nat)
    requires Tables(ram, use) && Users(ram, use) && IsDir(use, d) && v < NUSER && IsTable(use, t, d, v / NENTRIES)
    ensures At(ram, d, v) == WordAt(ram, t, v % NENTRIES)
    ensures Present(At(ram, d, v)) <==> At(ram, d, v) != 0
    ensures Present(At(ram, d, v)) ==> Target(At(ram, d, v)) in use && use[Target(At(ram, d, v))] == User(d, v)
  {
    hide At, WordAt, Tables;
    TableGivesAt(ram, use, t, d, v);
    assert UserEntryOk(ram, use, d, v);
    PresentByFlags(At(ram, d, v));
  }

  lemma PresentByFlags(e: u32)
    ensures Flags(e) in {PTE_P + PTE_W, PTE_P + PTE_W + PTE_U} ==> Present(e)
  {
  }

  lemma TableGivesAt(ram: seq<Page>, use: map<nat, Use>, t: nat, d: nat, v: nat)
    requires Tables(ram, use) && IsDir(use, d) && v < NPAGE && IsTable(use, t, d, v / NENTRIES)
    ensures At(ram, d, v) == WordAt(ram, t, v % NENTRIES)
  {
    hide Word, Entry;
    assert TableHung(ram, use, t);
    EntryTarget(t, PTE_P + PTE_W + PTE_U);
  }

  lemma TableHasEntry(ram: seq<Page>, use: map<nat, Use>, t: nat, d: nat, i: nat)
    requires Tables(ram, use) && IsTable(use, t, d, i)
    ensures WordAt(ram, d, i) != 0
  {
    hide Word, Entry;
    assert TableHung(ram, use, t);
    EntryTarget(t, PTE_P + PTE_W + PTE_U);
  }

  /** Without a table none of the 1024 pages of its entry are mapped. */
  lemma NoTableNoPages(ram: seq<Page>, d: nat, i: nat)
    requires WordAt(ram, d, i) == 0
    ensures forall v: nat :: v / NENTRIES == i ==> At(ram, d, v) == 0
  {
  }

  /** The pages of the address space of d, no longer one. */
  ghost function Relabelled(use: map<nat, Use>, d: nat): map<nat, Use> {
    map n | n in use :: if Belongs(use, d, n) then Held else use[n]
  }

  lemma ReleasedGood(ram: seq<Page>, head: u32, free: seq<nat>, use: map<nat, Use>, data: nat, skip: set<nat>, d: nat)
    requires Good(ram, head, free, use, data, skip) && IsDir(use, d) && UserPages(use, d, 0, NUSER) == {}
    ensures Good(ram, head, free, Relabelled(use, d), data, skip - {d})
    ensures SameSpaces(Relabelled(use, d), ram, ram)
  {
    var used := Relabelled(use, d);
    forall t | t in used ensures TableHung(ram, used, t) {
      assert TableHung(ram, use, t);
    }
    forall c, i | IsDir(used, c) && 0 <= i < NENTRIES ensures DirEntryOk(ram, used, c, i) {
      assert IsDir(use, c) && c != d && DirEntryOk(ram, use, c, i);
    }
    forall c, v | IsDir(used, c) && 0 <= v < NUSER ensures UserEntryOk(ram, used, c, v) {
      assert IsDir(use, c) && c != d && UserEntryOk(ram, use, c, v);
    }
    forall n | n in used ensures UserMapped(ram, used, n) {
      assert UserMapped(ram, use, n);
    }
    forall c, v | IsDir(used, c) && c !in skip - {d} && NUSER <= v < NPAGE ensures At(ram, c, v) == KernelAt(data, v) {
      assert IsDir(use, c);
    }
  }

  /** The tables at the first i entries of d. */
  ghost function TablesBelow(use: map<nat, Use>, d: nat, i: nat): set<nat> {
    set n | n in use && use[n].Table? && use[n].dir == d && use[n].pdx < i
  }

  /** The loop of freevm: entry i of d. */
  lemma TableAtEntry(ram: seq<Page>, use: map<nat, Use>, d: nat, i: nat)
    requires Tables(ram, use) && IsDir(use, d) && i < NENTRIES
    ensures var e := WordAt(ram, d, i);
            && (Present(e) ==> Target(e) in use && use[Target(e)] == Table(d, i) && Target(e) !in TablesBelow(use, d, i)
                               && TablesBelow(use, d, i + 1) == TablesBelow(use, d, i) + {Target(e)})
            && (!Present(e) ==> TablesBelow(use, d, i + 1) == TablesBelow(use, d, i))
  {
    var e := WordAt(ram, d, i);
    assert DirEntryOk(ram, use, d, i);
    forall n | n in use && use[n] == Table(d, i) ensures Present(e) && n == Target(e) {
      assert TableHung(ram, use, n);
      EntryTarget(n, PTE_P + PTE_W + PTE_U);
    }
  }

  lemma SpaceParts(ram: seq<Page>, use: map<nat, Use>, d: nat)
    requires Tables(ram, use) && Users(ram, use) && IsDir(use, d)
    ensures SpaceOf(use, d) == UserPages(use, d, 0, NUSER) + TablesBelow(use, d, NENTRIES) + {d}
  {
    forall n | n in use ensures n in SpaceOf(use, d) <==>
        n in UserPages(use, d, 0, NUSER) + TablesBelow(use, d, NENTRIES) + {d} {
      assert TableHung(ram, use, n) && UserMapped(ram, use, n);
    }
  }

  /** User bytes depend on the translation and on the pages mapped. */
  lemma BytesKept(before: seq<Page>, use: map<nat, Use>, after: seq<Page>, d: nat)
    requires Users(before, use) && SameSpaces(use, before, after) && DataKept(use, before, after) && IsDir(use, d)
    ensures forall a: nat :: a < KERNBASE ==> ByteAt(after, d, a) == ByteAt(before, d, a)
  {
    hide At;
    forall a: nat | a < KERNBASE ensures ByteAt(after, d, a) == ByteAt(before, d, a) {
      assert UserEntryOk(before, use, d, a / PGSIZE);
    }
  }

  lemma AsSetPushed(n: nat, free: seq<nat>)
    ensures AsSet([n] + free) == AsSet(free) + {n}
  {
  }

  lemma NoUserPagesLeft(use: map<nat, Use>, used: map<nat, Use>, d: nat)
    requires used == use - UserPages(use, d, 0, NUSER)
    ensures UserPages(used, d, 0, NUSER) == {} && TablesBelow(used, d, NENTRIES) == TablesBelow(use, d, NENTRIES)
  {
  }

  /** What freeing the address space of d comes to. */
  ghost predicate Released(use: map<nat, Use>, free: seq<nat>, before: seq<Page>, used: map<nat, Use>,
        freed: seq<nat>, after: seq<Page>, d: nat) {
    && used == use - SpaceOf(use, d) && AsSet(freed) == AsSet(free) + SpaceOf(use, d)
    && SameSpaces(used, before, after) && DataKept(used, before, after)
  }

  lemma ReleasedAll(use0: map<nat, Use>, free0: seq<nat>, ram0: seq<Page>, use1: map<nat, Use>, free1: seq<nat>,
        ram1: seq<Page>, used: map<nat, Use>, freed: seq<nat>, after: seq<Page>, d: nat)
    requires IsDir(use0, d) && Shrunk(use0, free0, ram0, use1, free1, ram1, d, 0, NUSER)
    requires SpaceOf(use0, d) == UserPages(use0, d, 0, NUSER) + TablesBelow(use0, d, NENTRIES) + {d}
    requires SpaceOf(use1, d) == TablesBelow(use0, d, NENTRIES) + {d}
    requires used == Relabelled(use1, d) - TablesBelow(use0, d, NENTRIES) - {d}
    requires AsSet(freed) == AsSet(free1) + TablesBelow(use0, d, NENTRIES) + {d}
    requires SameSpaces(used, ram1, after) && DataKept(used, ram1, after)
    ensures Released(use0, free0, ram0, used, freed, after, d)
  {
    hide At;
    assert used == use0 - SpaceOf(use0, d) by {
      forall n | n in use1 ensures n in SpaceOf(use1, d) <==> Belongs(use1, d, n) {
      }
    }
    forall c, w | IsDir(used, c) && 0 <= w < NPAGE ensures At(after, c, w) == At(ram0, c, w) {
      assert IsDir(use1, c) && c != d;
    }
  }

  /** Mapping pages of the kernel's half of a directory under construction. */
  lemma UsersAfterKernel(before: seq<Page>, use: map<nat, Use>, free: seq<nat>, after: seq<Page>, used: map<nat, Use>,
        freed: seq<nat>, d: nat, first: nat, k: nat, p: nat, flags: nat, data: nat)
    requires Users(before, use) && Kernels(before, use, data, {d}) && IsDir(use, d)
    requires MoreTables(use, free, used, freed, d) && Mapped(use, before, after, d, first, k, p, flags)
               && first >= NUSER
    ensures Users(after, used) && Kernels(after, used, data, {d})
  {
    hide At, Entry, AsSet;
    forall c, v | IsDir(used, c) && 0 <= v < NUSER ensures UserEntryOk(after, used, c, v) {
      assert IsDir(use, c) && UserEntryOk(before, use, c, v);
    }
    forall n | n in used ensures UserMapped(after, used, n) {
      assert n in use ==> UserMapped(before, use, n);
    }
    forall c, v | IsDir(used, c) && c !in {d} && NUSER <= v < NPAGE ensures At(after, c, v) == KernelAt(data, v) {
      assert IsDir(use, c);
    }
  }

  /** d is no part of any address space. */
  lemma NothingOf(ram: seq<Page>, use: map<nat, Use>, d: nat)
    requires Tables(ram, use) && Users(ram, use) && d !in use
    ensures SpaceOf(use, d) == {}
  {
    forall n | n in use ensures !Belongs(use, d, n) {
      assert TableHung(ram, use, n) && UserMapped(ram, use, n);
    }
  }

  /** Building the address space of d and freeing it again leaves everything as it was. */
  lemma Undone(ram0: seq<Page>, use0: map<nat, Use>, free0: seq<nat>, free1: seq<nat>, ram2: seq<Page>,
        use2: map<nat, Use>, free2: seq<nat>, after: seq<Page>, used: map<nat, Use>, freed: seq<nat>, d: nat, lo: nat,
        hi: nat)
    requires SpaceOf(use0, d) == {} && d !in use0 && free0 == [d] + free1
    requires (forall n :: n in free0 ==> n !in use0) && (forall n :: n in freed ==> n !in used)
    requires MoreSpace(use0[d := Dir], free1, use2, free2, d, lo, hi) && DataKept(use0, ram0, ram2)
               && SameSpaces(use0, ram0, ram2)
    requires Released(use2, free2, ram2, used, freed, after, d)
    ensures used == use0 && AsSet(freed) == AsSet(free0) && SameSpaces(use0, ram0, after) && DataKept(use0, ram0, after)
  {
    hide At;
    forall n | n in use2 ensures n in SpaceOf(use2, d) <==> n !in use0 {
      assert n in use0 ==> n !in SpaceOf(use0, d) && use2[n] == use0[n];
    }
    assert used == use0;
    forall n ensures n in AsSet(freed) <==> n in AsSet(free0) {
      assert AsSet(freed) + used.Keys == AsSet(free2) + use2.Keys == AsSet(free0) + use0.Keys;
      assert n in AsSet(freed) + used.Keys <==> n in AsSet(free0) + use0.Keys;
    }
  }

  lemma OneMapped(use: map<nat, Use>, ram0: seq<Page>, before: seq<Page>, after: seq<Page>, d: nat, v: nat, p: nat,
        flags: nat)
    requires SameSpaces(use, ram0, before) && Mapped(use, before, after, d, v, 1, p, flags) && p < NPAGE
               && flags < PGSIZE
    ensures OneSet(use, ram0, after, d, v, Entry(p, flags)) && OneSet(use, before, after, d, v, Entry(p, flags))
  {
    hide At, Entry;
  }

  /** A held page given to an address space. */
  lemma TablesAfterGive(ram: seq<Page>, use: map<nat, Use>, n: nat, d: nat, v: nat)
    requires Tables(ram, use) && n in use && use[n] == Held
    ensures Tables(ram, use[n := User(d, v)])
  {
    var used := use[n := User(d, v)];
    forall t | t in used ensures TableHung(ram, used, t) {
      assert TableHung(ram, use, t);
    }
    forall c, i | IsDir(used, c) && 0 <= i < NENTRIES ensures DirEntryOk(ram, used, c, i) {
      assert IsDir(use, c) && DirEntryOk(ram, use, c, i);
    }
  }

  /** A held page mapped at page v of d, perhaps through a new table. */
  lemma UsersAfterTables(before: seq<Page>, use: map<nat, Use>, free: seq<nat>, after: seq<Page>, used: map<nat, Use>,
        freed: seq<nat>, n: nat, d: nat, v: nat, x: u32, data: nat, skip: set<nat>)
    requires Users(before, use) && Kernels(before, use, data, skip) && OneSet(use, before, after, d, v, x)
    requires MoreTables(use, free, used, freed, d) && n in use && use[n] == Held && IsDir(use, d) && v < NUSER
        && At(before, d, v) == 0
    requires Target(x) == n && Flags(x) in {PTE_P + PTE_W, PTE_P + PTE_W + PTE_U}
    ensures Users(after, used[n := User(d, v)]) && Kernels(after, used[n := User(d, v)], data, skip)
  {
    hide At, AsSet;
    UsersAfterMap(before, use, after, n, d, v, x, data, skip);
    UsersKept(after, use[n := User(d, v)], after, used[n := User(d, v)], data, skip);
  }

  /** Page v of d is user memory, writable and all zeros. */
  ghost predicate ZeroPage(ram: seq<Page>, d: nat, v: nat) {
    var e := At(ram, d, v);
    e != 0 && Flags(e) == PTE_P + PTE_W + PTE_U && Target(e) < |ram| && ram[Target(e)] == Zeros(PGSIZE)
  }

  /** Exactly pages lo to hi of d are new, and zero. */
  ghost predicate ZeroMapped(use: map<nat, Use>, before: seq<Page>, after: seq<Page>, d: nat, lo: nat, hi: nat) {
    && (forall c, w :: IsDir(use, c) && 0 <= w < NPAGE && !(c == d && lo <= w < hi) ==>
        At(after, c, w) == At(before, c, w))
    && (forall w: nat :: lo <= w < hi ==> ZeroPage(after, d, w))
  }

  /** What growing by pages lo to hi comes to. */
  ghost predicate Grown(use: map<nat, Use>, free: seq<nat>, before: seq<Page>, used: map<nat, Use>, freed: seq<nat>,
        after: seq<Page>, d: nat, lo: nat, hi: nat) {
    && MoreSpace(use, free, used, freed, d, lo, hi) && ZeroMapped(use, before, after, d, lo, hi)
    && DataKept(use, before, after)
  }

  lemma GrownNone(use: map<nat, Use>, free: seq<nat>, ram: seq<Page>, d: nat, lo: nat)
    ensures Grown(use, free, ram, use, free, ram, d, lo, lo)
  {
  }

  /** One more page grown: mem, taken from the free list. */
  lemma GrownStep(use: map<nat, Use>, free: seq<nat>, before: seq<Page>, use1: map<nat, Use>, free1: seq<nat>,
        ram1: seq<Page>, used: map<nat, Use>, freed: seq<nat>, after: seq<Page>, d: nat, lo: nat, v: nat, mem: nat)
    requires Grown(use, free, before, use1, free1, ram1, d, lo, v) && IsDir(use, d) && lo <= v < NUSER
    requires Users(ram1, use1) && Users(after, used) && free1 != [] && mem == free1[0] && mem !in use1 && mem < NPAGE
    requires mem in used && used[mem] == User(d, v) && mem < |after|
    requires MoreTables(use1[mem := Held], free1[1..], used[mem := Held], freed, d)
    requires OneSet(use1[mem := Held], ram1, after, d, v, Entry(mem, PTE_P + PTE_W + PTE_U))
    requires DataKept(use1, ram1, after) && after[mem] == Zeros(PGSIZE)
    ensures Grown(use, free, before, used, freed, after, d, lo, v + 1)
  {
    hide At, Entry;
    EntryTarget(mem, PTE_P + PTE_W + PTE_U);
    GrownUse(use, free, use1, free1, used, freed, d, lo, v, mem);
    DataKeptTrans(use, before, use1, ram1, after);
    var x := Entry(mem, PTE_P + PTE_W + PTE_U);
    assert IsDir(use1[mem := Held], d);
    assert At(after, d, v) == x && x != 0;
    forall w: nat | lo <= w < v + 1 ensures ZeroPage(after, d, w) {
      if w < v {
        assert ZeroPage(ram1, d, w);
        assert IsDir(use1, d) && UserEntryOk(ram1, use1, d, w);
        assert At(after, d, w) == At(ram1, d, w);
      }
    }
    forall c, w | IsDir(use, c) && 0 <= w < NPAGE
        && !(c == d && lo <= w < v + 1) ensures At(after, c, w) == At(before, c, w) {
      assert IsDir(use1[mem := Held], c);
    }
  }

  lemma GrownUse(use: map<nat, Use>, free: seq<nat>, use1: map<nat, Use>, free1: seq<nat>, used: map<nat, Use>,
        freed: seq<nat>, d: nat, lo: nat, v: nat, mem: nat)
    requires MoreSpace(use, free, use1, free1, d, lo, v) && free1 != [] && mem == free1[0] && mem !in use1
    requires mem in used && used[mem] == User(d, v) && lo <= v
    requires MoreTables(use1[mem := Held], free1[1..], used[mem := Held], freed, d)
    ensures MoreSpace(use, free, used, freed, d, lo, v + 1)
  {
    assert free1 == [mem] + free1[1..];
    AsSetPushed(mem, free1[1..]);
    assert used[mem := Held].Keys == used.Keys;
    assert use1[mem := Held].Keys == use1.Keys + {mem};
    forall n | n in use ensures n in used && used[n] == use[n] {
      assert n in use1 && n != mem && use1[mem := Held][n] == use[n];
    }
    forall n | n in used && n !in use
      ensures (used[n].Table? && used[n].dir == d) || (used[n].User? && used[n].dir == d && lo <= used[n].vpn < v + 1)
    {
      if n != mem && n in use1 {
        assert used[mem := Held][n] == use1[mem := Held][n];
      }
    }
  }

  lemma NoMemoryAt(ram: seq<Page>, use: map<nat, Use>, d: nat, lo: nat, hi: nat)
    requires Users(ram, use) && forall v: nat :: lo <= v < hi ==> At(ram, d, v) == 0
    ensures UserPages(use, d, lo, hi) == {}
  {
    forall n | n in use ensures n !in UserPages(use, d, lo, hi) {
      assert UserMapped(ram, use, n);
    }
  }

  /** Growing up to page m, holding the pages of held, and unmapping lo to hi again leaves new
      tables of d in use and nothing else. */
  lemma RolledBackUse(use: map<nat, Use>, free: seq<nat>, use1: map<nat, Use>, free1: seq<nat>, use2: map<nat, Use>,
        free2: seq<nat>, used: map<nat, Use>, freed: seq<nat>, d: nat, lo: nat, m: nat, hi: nat, held: set<nat>)
    requires MoreSpace(use, free, use1, free1, d, lo, m) && m <= hi && UserPages(use, d, lo, hi) == {}
    requires held !! use1.Keys && use2.Keys == use1.Keys + held && AsSet(free1) == AsSet(free2) + held
    requires (forall n :: n in use1 ==> use2[n] == use1[n]) && (forall n :: n in held ==> use2[n] == Held)
    requires used == use2 - UserPages(use2, d, lo, hi) - held
               && AsSet(freed) == AsSet(free2) + UserPages(use2, d, lo, hi) + held
    ensures MoreTables(use, free, used, freed, d)
  {
    forall n | n in use ensures n in used && used[n] == use[n] {
      assert n !in UserPages(use, d, lo, hi);
      assert n in use1 && n !in UserPages(use2, d, lo, hi);
    }
    assert AsSet(freed) + used.Keys == AsSet(free) + use.Keys;
  }

  lemma RolledBackRam(use: map<nat, Use>, before: seq<Page>, use1: map<nat, Use>, ram1: seq<Page>, ram2: seq<Page>,
        used: map<nat, Use>, ram3: seq<Page>, after: seq<Page>, d: nat, lo: nat, m: nat, hi: nat)
    requires ZeroMapped(use, before, ram1, d, lo, m) && m <= hi && DataKept(use, before, ram1)
    requires forall v: nat :: lo <= v < hi ==> At(before, d, v) == 0
    requires SameSpaces(use1, ram1, ram2) && DataKept(use1, ram1, ram2)
    requires Cleared(used, ram2, ram3, d, lo, hi) && DataKept(used, ram2, ram3)
    requires SameSpaces(used, ram3, after) && DataKept(used, ram3, after)
    requires forall n :: n in use ==> n in use1 && use1[n] == use[n] && n in used && used[n] == use[n]
    ensures SameSpaces(use, before, after) && DataKept(use, before, after)
  {
    hide At;
    forall c, w | IsDir(use, c) && 0 <= w < NPAGE ensures At(after, c, w) == At(before, c, w) {
      assert IsDir(use1, c) && IsDir(used, c);
      assert At(ram2, c, w) == At(ram1, c, w);
    }
    forall n | n in use && n < |before| && (use[n] == Held || use[n].User?) ensures after[n] == before[n] {
      assert n in use1 && n in used;
    }
  }

  lemma SameSpacesRefl(use: map<nat, Use>, ram: seq<Page>)
    ensures SameSpaces(use, ram, ram)
  {
  }

  lemma ClearedFewer(use: map<nat, Use>, before: seq<Page>, after: seq<Page>, used: map<nat, Use>, d: nat, lo: nat,
        hi: nat)
    requires Cleared(use, before, after, d, lo, hi) && forall c :: IsDir(used, c) ==> IsDir(use, c)
    ensures Cleared(used, before, after, d, lo, hi)
  {
    hide At;
  }

  /** The user may touch page v. */
  predicate UserPage(ram: seq<Page>, d: nat, v: nat) {
    Present(At(ram, d, v)) && UserBit(At(ram, d, v))
  }

  /** Exactly the bytes of src, at address at of d, are new in user memory. */
  ghost predicate Written(use: map<nat, Use>, before: seq<Page>, after: seq<Page>, d: nat, at: nat, src: seq<byte>) {
    && |after| == |before|
    && (forall a: nat :: a < KERNBASE ==>
        ByteAt(after, d, a) == if at <= a < at + |src| then src[a - at] else ByteAt(before, d, a))
    && (forall n ::
          n in use && n < |before| && use[n] != Dir && !use[n].Table? && !(use[n].User? && use[n].dir == d) ==>
            after[n] == before[n])
  }

  lemma WrittenNothing(use: map<nat, Use>, ram: seq<Page>, d: nat, at: nat)
    ensures Written(use, ram, ram, d, at, [])
  {
  }

  lemma StoredBytes(ram: seq<Page>, use: map<nat, Use>, n: nat, off: nat, src: seq<byte>)
    requires Users(ram, use) && n in use && use[n].User? && n < |ram| && off + |src| <= PGSIZE
    requires SameSpaces(use, ram, ram[n := Splice(ram[n], off, src)])
    ensures Written(use, ram, ram[n := Splice(ram[n], off, src)], use[n].dir, PGSIZE * use[n].vpn + off, src)
  {
    hide At, Splice;
    var after := ram[n := Splice(ram[n], off, src)];
    var d, v := use[n].dir, use[n].vpn;
    assert UserMapped(ram, use, n);
    forall a: nat | a < KERNBASE
      ensures ByteAt(after, d,
            a) == if PGSIZE * v + off <= a < PGSIZE * v + off + |src|
                then src[a - (PGSIZE * v + off)] else ByteAt(ram, d, a)
    {
      assert UserEntryOk(ram, use, d, a / PGSIZE);
      AddressParts(a, v);
    }
  }

  lemma AddressParts(a: nat, v: nat)
    ensures a / PGSIZE == v ==> a % PGSIZE == a - PGSIZE * v
    ensures a / PGSIZE != v ==> a < PGSIZE * v || a >= PGSIZE * v + PGSIZE
  {
  }

  /** Where a page is mapped there is a table. */
  lemma HasTable(ram: seq<Page>, use: map<nat, Use>, d: nat, v: nat)
    requires At(ram, d, v) != 0
    ensures WordAt(ram, d, v / NENTRIES) != 0
  {
  }

  lemma UserFlags(ram: seq<Page>, use: map<nat, Use>, d: nat, v: nat)
    requires Users(ram, use) && IsDir(use, d) && v < NUSER && At(ram, d, v) != 0
    ensures var e := At(ram, d, v);
            var x := if UserBit(e) then e - PTE_U else e;
            x >= 0 && Target(x) == Target(e) && Flags(x) == PTE_P + PTE_W && !UserBit(x) && x != 0
  {
    hide At;
    assert UserEntryOk(ram, use, d, v);
  }

  /** The kernel's pages are not the user's. */
  lemma UserBelowKernel(ram: seq<Page>, use: map<nat, Use>, data: nat, skip: set<nat>, d: nat, v: nat)
    requires Users(ram, use) && Kernels(ram, use, data, skip) && IsDir(use, d) && d !in skip && v < NPAGE
    requires forall n :: n in use ==> 0 < n
    requires UserPage(ram, d, v)
    ensures v < NUSER && Target(At(ram, d, v)) in use && use[Target(At(ram, d, v))] == User(d, v)
  {
    hide At, KernelAt;
    KernelNotUser(data, v);
    assert v < NUSER;
    assert UserEntryOk(ram, use, d, v);
  }

  lemma KernelNotUser(data: nat, v: nat)
    ensures !UserBit(KernelAt(data, v))
  {
    hide UserBit, Entry;
    if v < NPAGE {
      EntryTarget(v, PTE_P + PTE_W);
      if v >= NUSER {
        EntryTarget(v - NUSER, PTE_P);
        EntryTarget(v - NUSER, PTE_P + PTE_W);
      }
    }
    ZeroNotUser();
  }

  lemma ZeroNotUser()
    ensures !UserBit(0)
  {
  }

  /** The number of pages a copy of len bytes at va touches. */
  function PagesSpanned(va: nat, len: nat): nat {
    if len == 0 then 0 else (va + len - 1) / PGSIZE - va / PGSIZE + 1
  }

  /** Every page of n from v on has a table, up to the first the user may not touch. */
  ghost predicate Walkable(ram: seq<Page>, d: nat, v: nat, n: nat)
    decreases n
  {
    n == 0 || (v < NPAGE && WordAt(ram, d, v / NENTRIES) != 0
        && (UserPage(ram, d, v) ==> Walkable(ram, d, v + 1, n - 1)))
  }

  lemma WalkableNext(ram: seq<Page>, d: nat, at: u32, len: nat)
    requires len > 0 && Walkable(ram, d, at / PGSIZE, PagesSpanned(at, len))
    ensures WordAt(ram, d, at / PGSIZE / NENTRIES) != 0
    ensures UserPage(ram, d, at / PGSIZE) ==> Walkable(ram, d, at / PGSIZE + 1, PagesSpanned(at, len) - 1)
  {
  }

  /** A copy goes on. */
  lemma CopyStep(use: map<nat, Use>, ram0: seq<Page>, before: seq<Page>, after: seq<Page>, d: nat, va: nat,
        p: seq<byte>, k: nat, n: nat)
    requires k + n <= |p| && Written(use, ram0, before, d, va, p[..k])
               && Written(use, before, after, d, va + k, p[k..k + n])
    ensures Written(use, ram0, after, d, va, p[..k + n])
  {
    hide ByteAt;
  }

  lemma SameSpacesTrans(use: map<nat, Use>, a: seq<Page>, used: map<nat, Use>, b: seq<Page>, c: seq<Page>)
    requires SameSpaces(use, a, b) && SameSpaces(used, b, c) && forall n :: n in use ==> n in used && used[n] == use[n]
    ensures SameSpaces(use, a, c)
  {
    hide At;
    forall d, v | IsDir(use, d) && 0 <= v < NPAGE ensures At(c, d, v) == At(a, d, v) {
      assert IsDir(used, d);
    }
  }
}
