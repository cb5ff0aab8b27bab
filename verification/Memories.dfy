/** The page allocator and the operations on address spaces. */
module Memories {
  import opened Bytes
  import opened Paging

  const ONES: Page := seq(PGSIZE, _ => 1)

  /** A page kfree has filled: its link in the first four bytes and ones after it. */
  lemma FreedPage(link: u32)
    ensures var page := PutWord(ONES, 0, link);
            Le32(page, 0) == link && forall i :: 4 <= i < PGSIZE ==> page[i] == 1
  {
    PutWordBytes(ONES, 0, link);
  }

  /** One row of the kernel's map. */
  datatype Kmap = Kmap(virt: u32, physStart: u32, physEnd: u32, perm: nat)

  const NKMAP: nat := 4

  /** kmap, with the kernel's data starting at page data. */
  function KmapRow(data: nat, i: nat): Kmap
    requires KERNLINK / PGSIZE < data < NUSER + NFRAME && i < NKMAP
  {
    if i == 0 then Kmap(KERNBASE, 0, EXTMEM, PTE_W)
    else if i == 1 then Kmap(KERNLINK, KERNLINK - KERNBASE, PGSIZE * data - KERNBASE, 0)
    else if i == 2 then Kmap(PGSIZE * data, PGSIZE * data - KERNBASE, PHYSTOP, PTE_W)
    else Kmap(DEVSPACE, DEVSPACE, 0, PTE_W)
  }

  /** The size of a row's physical range. */
  function RowSize(k: Kmap): u32 { (k.physEnd - k.physStart) % 0x1_0000_0000 }

  /** The page where row i starts, and where the rows end. */
  function RowStart(data: nat, i: nat): nat {
    if i == 0 then NUSER else if i == 1 then KERNLINK / PGSIZE else if i == 2 then data
    else if i == 3 then DEVSPACE / PGSIZE else NPAGE
  }

  /** The kernel's map up to row i. */
  function KernelUpTo(data: nat, i: nat, v: nat): u32 {
    if NUSER <= v < RowStart(data, i) then KernelAt(data, v) else 0
  }

  /** A row's pages, and the entry for each: what KernelAt says, with nothing up to the next row. */
  lemma RowIsKernel(data: nat, i: nat)
    requires KERNLINK / PGSIZE < data < NUSER + NFRAME && i < NKMAP
    ensures var k := KmapRow(data, i);
            var first, n, p := k.virt / PGSIZE, RowSize(k) / PGSIZE, k.physStart / PGSIZE;
            && k.virt == PGSIZE * first && RowSize(k) == PGSIZE * n && k.physStart == PGSIZE * p
            && k.perm in {0, PTE_W} && k.virt + RowSize(k) <= 0x1_0000_0000 && NUSER <= first
            && 0 < n && first == RowStart(data, i) && first + n <= RowStart(data, i + 1) && p + n <= NPAGE
            && (forall v: nat :: first <= v < first + n ==> KernelAt(data, v) == Entry(p + v - first, k.perm + PTE_P))
            && (forall v: nat :: first + n <= v < RowStart(data, i + 1) ==> KernelAt(data, v) == 0)
  {
  }

  /** Tables the first i rows take at most. */
  function RowTables(data: nat, i: nat): int {
    if i == 0 then 0
    else RowTables(data, i - 1) + (if i == 1 then 1 else if i == 2 then (data - 1) / NENTRIES - 512 + 1
                                   else if i == 3 then 567 - data / NENTRIES + 1 else 8)
  }

  /** The tables the first m pages of a row take. */
  lemma RowPages(data: nat, i: nat, m: nat)
    requires KERNLINK / PGSIZE < data < NUSER + NFRAME && i < NKMAP
    ensures var k := KmapRow(data, i);
            var first, n := RowStart(data, i), RowSize(k) / PGSIZE;
            && (k.virt + RowSize(k) - 1) / PGSIZE == first + n - 1
            && (0 < m <= n ==>
                (first + m - 1) / NENTRIES - first / NENTRIES + 1 <= RowTables(data, i + 1) - RowTables(data, i))
            && RowTables(data, i) <= RowTables(data, i + 1) <= 66
  {
    RowIsKernel(data, i);
    assert RowTables(data, 1) == 1;
    assert RowTables(data, 2) == 1 + (data - 1) / NENTRIES - 512 + 1;
    assert RowTables(data, 3) == RowTables(data, 2) + 567 - data / NENTRIES + 1;
    assert RowTables(data, 4) == RowTables(data, 3) + 8;
  }

  lemma RowDone(use: map<nat, Use>, before: seq<Page>, after: seq<Page>, d: nat, data: nat, i: nat)
    requires KERNLINK / PGSIZE < data < NUSER + NFRAME && i < NKMAP && IsDir(use, d)
    requires var k := KmapRow(data, i);
             Mapped(use, before, after, d, k.virt / PGSIZE, RowSize(k) / PGSIZE, k.physStart / PGSIZE, k.perm + PTE_P)
    requires forall v: nat :: v < NPAGE ==> At(before, d, v) == KernelUpTo(data, i, v)
    ensures forall v: nat :: v < NPAGE ==> At(after, d, v) == KernelUpTo(data, i + 1, v)
  {
    hide At, KernelAt, KmapRow, RowSize, Entry;
    RowIsKernel(data, i);
  }

  lemma OthersSame(use0: map<nat, Use>, ram0: seq<Page>, use: map<nat, Use>, before: seq<Page>, after: seq<Page>,
        d: nat, first: nat, k: nat, p: nat, flags: nat)
    requires Mapped(use, before, after, d, first, k, p, flags) && SameSpaces(use0, ram0, before) && d !in use0
    requires forall c :: IsDir(use0, c) ==> IsDir(use, c)
    ensures SameSpaces(use0, ram0, after)
  {
    hide At, Entry;
    forall c, w | IsDir(use0, c) && 0 <= w < NPAGE ensures At(after, c, w) == At(ram0, c, w) {
      assert IsDir(use, c) && At(before, c, w) == At(ram0, c, w);
    }
  }

  class Memory {
    const data: nat                    // the page of the linker's symbol data
    var ram: seq<Page>
    var freelist: u32                  // kernel address of the first free page, or 0
    ghost var free: seq<nat>           // the pages on the free list, in order
    ghost var use: map<nat, Use>       // what every other page is used for

    ghost predicate Sane()
      reads this`ram, this`freelist, this`free, this`use
    {
      Pool(ram, freelist, free, use) && Tables(ram, use)
    }

    /** Every address space but those of skip, under construction, is whole. */
    ghost predicate Sound(skip: set<nat>)
      reads this`ram, this`freelist, this`free, this`use
    {
      && KERNLINK / PGSIZE < data < NUSER + NFRAME
      && Good(ram, freelist, free, use, data, skip)
    }

    /** Every page the allocator was ever given. */
    ghost function Pages(): set<nat>
      reads this`free, this`use
    {
      use.Keys + AsSet(free)
    }

    /** Memory before the allocator is given any page. */
    constructor (data: nat, ram: seq<Page>)
      requires |ram| <= NFRAME && KERNLINK / PGSIZE < data < NUSER + NFRAME
      ensures Sound({}) && this.data == data && this.ram == ram && free == [] && use == map[]
    {
      this.data, this.ram, freelist, free, use := data, ram, 0, [], map[];
    }

    /** The page of all zeros. */
    method Clear(n: nat)
      requires Sane() && n in use && use[n] == Held
      modifies this`ram
      ensures Sane() && SameSpaces(use, old(ram), ram) && ram == old(ram)[n := Zeros(PGSIZE)]
    {
      hide Tables, SameSpaces, Chained;
      PoolKept(ram, freelist, free, use, n, Zeros(PGSIZE));
      TablesKept(ram, use, n, Zeros(PGSIZE));
      ram := ram[n := Zeros(PGSIZE)];
    }

    // ---------- the allocator ----------

    /** The page freed last, or 0 when none is free. */
    method Kalloc() returns (n: nat)
      requires Sane()
      modifies this`freelist, this`free, this`use
      ensures Sane() && (n == 0 <==> old(free) == [])
      ensures n == 0 ==> freelist == old(freelist) && free == old(free) && use == old(use)
      ensures n != 0 ==> old(free) == [n] + free && n < |ram| && n !in old(use) && use == old(use)[n := Held]
      ensures Pages() == old(Pages())
    {
      hide Tables;
      n := V2P(freelist);
      if freelist == 0 {
        return 0;
      }
      P2VRoundTrip(free[0]);
      PoolPopped(ram, freelist, free, use);
      TablesAfterTake(ram, use, n);
      freelist, free, use := WordAt(ram, n, 0), free[1..], use[n := Held];
    }

    /** A page nobody uses goes on the free list. */
    method Kfree(n: nat)
      requires Sane() && 0 < n < |ram| && n !in free && (n in use ==> use[n] == Held)
      modifies this`ram, this`freelist, this`free, this`use
      ensures Sane() && free == [n] + old(free) && use == old(use) - {n}
      ensures ram == old(ram)[n := PutWord(ONES, 0, old(freelist))] && freelist == P2V(n)
                && SameSpaces(use, old(ram), ram)
      ensures Pages() == old(Pages()) + {n}
    {
      hide Tables, SameSpaces, Word, PutWord;
      var page := PutWord(ONES, 0, freelist);
      WordPutWord(ONES, 0, freelist, 0);
      TablesAfterDrop(ram, use, n);
      TablesKept(ram, use - {n}, n, page);
      PoolPushed(ram, freelist, free, use, n, page);
      ram, freelist, free, use := ram[n := page], P2V(n), [n] + free, use - {n};
    }

    /** Every whole page between two kernel addresses becomes free. */
    method Freerange(vstart: u32, vend: u32, ghost skip: set<nat>)
      requires Sound(skip) && KERNBASE < vstart <= vend <= KERNBASE + PGSIZE * |ram|
      requires forall n :: vstart <= KERNBASE + PGSIZE * n && KERNBASE + PGSIZE * n + PGSIZE <= vend ==>
                 n !in free && n !in use
      modifies this`ram, this`freelist, this`free, this`use
      ensures Sound(skip) && use == old(use) && |ram| == |old(ram)| && SameSpaces(use, old(ram), ram)
      ensures forall n :: n in free <==>
                n in old(free) || (vstart <= KERNBASE + PGSIZE * n && KERNBASE + PGSIZE * n + PGSIZE <= vend)
      ensures |free| == |old(free)| + if vend / PGSIZE > PagesBelow(vstart)
                then vend / PGSIZE - PagesBelow(vstart) else 0
    {
      hide Tables, Pool, At, Users, Kernels, PutWord, AsSet;
      PoolSize(ram, freelist, free, use);
      var p := PgRoundUp(vstart);
      ghost var k := V2P(p);
      ghost var first := k;
      assert p == KERNBASE + PGSIZE * k;
      ghost var was := ram;
      while p + PGSIZE <= vend
        invariant Sane() && use == old(use) && |ram| == |old(ram)| && SameSpaces(use, was, ram)
        invariant first <= k && p == KERNBASE + PGSIZE * k && (k > first ==> p <= vend)
                    && |free| == |old(free)| + (k - first)
        invariant forall n :: n in free <==> n in old(free) || first <= n < k
        decreases vend - p
      {
        Kfree(V2P(p));
        p, k := p + PGSIZE, k + 1;
      }
      WholePages(vstart, vend, first, k);
      UsersKept(was, use, ram, use, data, skip);
      PageCount(vstart, vend, first, k);
    }

    // ---------- page tables ----------

    /** The table that translates va and the entry in it, or 0. */
    method Walkpgdir(d: nat, va: u32, alloc: bool) returns (t: nat, j: nat)
      requires Sane() && IsDir(use, d)
      modifies this`ram, this`freelist, this`free, this`use
      ensures Sane() && j == PTX(va) && (t != 0 ==> t < |ram| && IsTable(use, t, d, PDX(va)))
      ensures t == 0 <==> old(WordAt(ram, d, PDX(va))) == 0 && (!alloc || old(free) == [])
      ensures t == 0 || old(WordAt(ram, d, PDX(va))) != 0 ==>
                ram == old(ram) && freelist == old(freelist) && free == old(free) && use == old(use)
      ensures MoreTables(old(use), old(free), use, free, d)
      ensures |free| >= |old(free)| - if old(WordAt(ram, d, PDX(va))) == 0 then 1 else 0
      ensures SameSpaces(use, old(ram), ram) && DataKept(old(use), old(ram), ram)
    {
      hide Pool, At, Tables, WordAt, Target, PDX, PTX;
      PageOfAddress(va);
      var i := PDX(va);
      EntryOf(ram, freelist, free, use, d, i);
      j := PTX(va);
      if Present(WordAt(ram, d, i)) {
        return Target(WordAt(ram, d, i)), j;
      }
      if !alloc {
        return 0, j;
      }
      t := HangTable(d, i);
    }

    /** walkpgdir's missing table: a zeroed page, if there is one. */
    method HangTable(d: nat, i: nat) returns (t: nat)
      requires Sane() && IsDir(use, d) && i < NENTRIES && WordAt(ram, d, i) == 0
      modifies this`ram, this`freelist, this`free, this`use
      ensures Sane() && (t == 0 <==> old(free) == [])
      ensures t == 0 ==> ram == old(ram) && freelist == old(freelist) && free == old(free) && use == old(use)
      ensures t != 0 ==> t < |ram| && IsTable(use, t, d, i)
      ensures |free| >= |old(free)| - 1
      ensures MoreTables(old(use), old(free), use, free, d)
      ensures SameSpaces(use, old(ram), ram) && DataKept(old(use), old(ram), ram)
    {
      hide Tables, At, Chained, Word, PutWord;
      t := Kalloc();
      if t == 0 {
        return;
      }
      Clear(t);
      TablesAfterHang(ram, use, t, d, i);
      PoolKept(ram, freelist, free, use, d, PutWord(ram[d], i, Entry(t, PTE_P + PTE_W + PTE_U)));
      ram := ram[d := PutWord(ram[d], i, Entry(t, PTE_P + PTE_W + PTE_U))];
      use := use[t := Table(d, i)];
    }

    /** An entry of a table is set. */
    method SetEntry(t: nat, j: nat, x: u32)
      requires Sane() && t in use && use[t].Table? && j < NENTRIES
      modifies this`ram
      ensures Sane() && OneSet(use, old(ram), ram, use[t].dir, use[t].pdx * NENTRIES + j, x)
                && DataKept(use, old(ram), ram)
      ensures ram == old(ram)[t := ram[t]]
    {
      hide Tables, At, Chained, Word, PutWord;
      TablesAfterEntry(ram, use, t, j, x);
      PoolKept(ram, freelist, free, use, t, PutWord(ram[t], j, x));
      ram := ram[t := PutWord(ram[t], j, x)];
    }

    /** One turn of mappages. */
    method MapPage(d: nat, a: u32, x: u32) returns (ok: bool)
      requires Sane() && IsDir(use, d)
      modifies this`ram, this`freelist, this`free, this`use
      ensures Sane() && MoreTables(old(use), old(free), use, free, d) && DataKept(old(use), old(ram), ram)
      ensures ok ==> OneSet(use, old(ram), ram, d, a / PGSIZE, x) && WordAt(ram, d, a / PGSIZE / NENTRIES) != 0
      ensures !ok ==> ram == old(ram) && free == old(free) == [] && use == old(use)
      ensures |free| >= |old(free)| - if old(WordAt(ram, d, a / PGSIZE / NENTRIES)) == 0 then 1 else 0
    {
      hide Tables, At, Pool, AsSet, PDX, PTX;
      PageOfAddress(a);
      var t, j := Walkpgdir(d, a, true);
      if t == 0 {
        return false;
      }
      ghost var walked := ram;
      SetEntry(t, j, x);
      DataKeptTrans(old(use), old(ram), use, walked, ram);
      TableHasEntry(ram, use, t, d, PDX(a));
      return true;
    }

    /** k of n pages from first on are mapped, with at most one new table for each 1024 of them. */
    ghost predicate Partly(use0: map<nat, Use>, free0: seq<nat>, ram0: seq<Page>, d: nat, first: nat, k: nat, p: nat,
          flags: nat)
      reads this`ram, this`freelist, this`free, this`use
    {
      && Sane() && MoreTables(use0, free0, use, free, d) && DataKept(use0, ram0, ram)
      && Mapped(use0, ram0, ram, d, first, k, p, flags)
      && (k == 0 ==> ram == ram0 && free == free0 && use == use0)
      && (k > 0 ==>
            && WordAt(ram, d, (first + k - 1) / NENTRIES) != 0
            && |free| >= |free0| - ((first + k - 1) / NENTRIES - first / NENTRIES + 1))
    }

    /** ... and one more. */
    method MapNext(d: nat, a: u32, x: u32, ghost first: nat, ghost k: nat, ghost p: nat, ghost flags: nat,
          ghost use0: map<nat, Use>, ghost free0: seq<nat>, ghost ram0: seq<Page>)
      returns (ok: bool)
      requires Partly(use0, free0, ram0, d, first, k, p, flags) && IsDir(use0, d) && p + k < NPAGE
      requires a == PGSIZE * (first + k) && x == Entry(p + k, flags)
      modifies this`ram, this`freelist, this`free, this`use
      ensures Partly(use0, free0, ram0, d, first, if ok then k + 1 else k, p, flags) && (!ok ==> free == [])
    {
      hide Tables, At, Pool, AsSet, WordAt, Entry;
      ghost var mid, used, freed := ram, use, free;
      ok := MapPage(d, a, x);
      if ok {
        DataKeptTrans(use0, ram0, used, mid, ram);
        MoreSpaceTrans(use0, free0, used, freed, use, free, d, 0, 0);
        MappedStep(use0, ram0, mid, use, ram, d, first, k, p, flags);
        NextGroup(first + k);
      }
    }

    /** The pages from va for size bytes are mapped one by one to those from pa, until memory
        runs out; the range may end at 2^32. */
    method Mappages(d: nat, va: u32, size: u32, pa: u32, perm: nat) returns (r: int, ghost k: nat)
      requires Sane() && IsDir(use, d) && size > 0 && va + size <= 0x1_0000_0000 && pa % PGSIZE == 0
      requires pa / PGSIZE + (va + size - 1) / PGSIZE - va / PGSIZE < NPAGE && perm in {0, PTE_W, PTE_W + PTE_U}
      modifies this`ram, this`freelist, this`free, this`use
      ensures Partly(old(use), old(free), old(ram), d, va / PGSIZE, k, pa / PGSIZE, perm + PTE_P)
      ensures var n := (va + size - 1) / PGSIZE - va / PGSIZE + 1;
              k <= n && r == (if k == n then 0 else -1) && (k < n ==> free == [])
    {
      hide Tables, At, Pool, AsSet, Memory.Partly, Memory.Sane;
      ghost var first, p := va / PGSIZE, pa / PGSIZE;
      var a, last, at := PgRoundDown(va), PgRoundDown(va + size - 1), pa;
      k := 0;
      NoneMapped(d, first, p, perm + PTE_P);
      while true
        invariant Partly(old(use), old(free), old(ram), d, first, k, p, perm + PTE_P)
        invariant a == PGSIZE * (first + k) && at == PGSIZE * (p + k) && a <= last
                    && p + (last / PGSIZE - first) < NPAGE
        decreases last - a
      {
        assert at + perm + PTE_P == Entry(p + k, perm + PTE_P);
        var ok := MapNext(d, a, at + perm + PTE_P, first, k, p, perm + PTE_P, old(use), old(free), old(ram));
        if !ok {
          return -1, k;
        }
        k := k + 1;
        if a == last {
          break;
        }
        a, at := a + PGSIZE, at + PGSIZE;
      }
      r := 0;
    }

    lemma NoneMapped(d: nat, first: nat, p: nat, flags: nat)
      requires Sane() && p <= NPAGE && flags < PGSIZE
      ensures Partly(use, free, ram, d, first, 0, p, flags)
    {
    }

    // ---------- shrinking ----------

    /** A user page is freed and its present entry cleared. */
    method UnmapPage(d: nat, t: nat, v: nat, ghost skip: set<nat>)
      requires Sound(skip) && IsDir(use, d) && v < NUSER && IsTable(use, t, d, v / NENTRIES)
          && Present(WordAt(ram, t, v % NENTRIES))
      modifies this`ram, this`freelist, this`free, this`use
      ensures Sound(skip) && |ram| == |old(ram)|
      ensures var n := Target(old(At(ram, d, v)));
              && n in old(use) && old(use)[n] == User(d, v) && use == old(use) - {n} && free == [n] + old(free)
              && OneSet(use, old(ram), ram, d, v, 0) && DataKept(use, old(ram), ram)
    {
      hide Tables, At, Chained, WordAt, Users, Kernels, Target;
      EntryHasMemory(ram, use, t, d, v);
      ghost var was, use0 := ram, use;
      var n := Target(WordAt(ram, t, v % NENTRIES));
      TablesAfterLoan(ram, use, n);
      use := use[n := Held];
      Kfree(n);
      ghost var freed := ram;
      SetEntry(t, v % NENTRIES, 0);
      OneSetAfter(use, was, freed, ram, d, v, 0);
      UsersAfterUnmap(was, use0, ram, n, d, v, data, skip);
      assert use == use0 - {n};
    }

    /** Unmaps and frees the pages from newsz rounded up to oldsz, those there are; where an
        entry has no table all of its 4 MB are passed over at once. */
    method Deallocuvm(d: nat, oldsz: u32, newsz: u32, ghost skip: set<nat>) returns (r: u32)
      requires Sound(skip) && IsDir(use, d) && oldsz <= KERNBASE
      modifies this`ram, this`freelist, this`free, this`use
      ensures Sound(skip) && r == (if newsz >= oldsz then oldsz else newsz) && |ram| == |old(ram)|
      ensures if newsz >= oldsz then ram == old(ram) && free == old(free) && use == old(use)
              else Shrunk(old(use), old(free), old(ram), use, free, ram, d, PagesBelow(newsz), PagesBelow(oldsz))
    {
      hide Tables, At, Pool, WordAt, Users, Kernels, Target, Shrunk;
      if newsz >= oldsz {
        return oldsz;
      }
      ghost var lo, hi := PagesBelow(newsz), PagesBelow(oldsz);
      var a := PgRoundUp(newsz);
      assert a == PGSIZE * lo;
      ShrunkNone(use, free, ram, d, lo);
      while a < oldsz
        invariant Sound(skip) && IsDir(use, d) && a % PGSIZE == 0 && lo <= a / PGSIZE && |ram| == |old(ram)|
        invariant Shrunk(old(use), old(free), old(ram), use, free, ram, d, lo, if a / PGSIZE < hi
                    then a / PGSIZE else hi)
        invariant a <= KERNBASE
        decreases KERNBASE - a
      {
        a := DeallocTurn(d, a, lo, hi, skip, old(use), old(free), old(ram));
      }
      r := newsz;
    }

    /** One turn of deallocuvm, with its increment. */
    method DeallocTurn(d: nat, a: u32, ghost lo: nat, ghost hi: nat, ghost skip: set<nat>, ghost use0: map<nat, Use>,
          ghost free0: seq<nat>, ghost ram0: seq<Page>)
      returns (next: u32)
      requires Sound(skip) && IsDir(use, d) && a % PGSIZE == 0 && lo <= a / PGSIZE < hi <= NUSER && a < KERNBASE
      requires Users(ram0, use0) && IsDir(use0, d) && Shrunk(use0, free0, ram0, use, free, ram, d, lo, a / PGSIZE)
      modifies this`ram, this`freelist, this`free, this`use
      ensures Sound(skip) && IsDir(use, d) && a < next <= KERNBASE && next % PGSIZE == 0 && |ram| == |old(ram)|
      ensures Shrunk(use0, free0, ram0, use, free, ram, d, lo, if next / PGSIZE < hi then next / PGSIZE else hi)
    {
      hide Tables, At, Pool, WordAt, Users, Kernels, Target, Shrunk, PDX, PTX, PgAddr;
      ghost var v := a / PGSIZE;
      PageOfAddress(a);
      var t, j := Walkpgdir(d, a, false);
      if t == 0 {
        next := PgAddr(PDX(a) + 1);
        NextTable(a);
        NoTableNoPages(ram, d, PDX(a));
        ShrunkSkip(use0, free0, ram0, use, free, ram, d, lo, v, if next / PGSIZE < hi then next / PGSIZE else hi);
        return;
      }
      EntryHasMemory(ram, use, t, d, v);
      if Present(WordAt(ram, t, j)) {
        ghost var mid, midFree, midRam := use, free, ram;
        UnmapPage(d, t, a / PGSIZE, skip);
        ShrunkStep(use0, free0, ram0, mid, midFree, midRam, free, ram, d, lo, v, Target(At(midRam, d, v)));
      } else {
        ShrunkSkip(use0, free0, ram0, use, free, ram, d, lo, v, v + 1);
      }
      next := a + PGSIZE;
    }

    /** Frees one address space, whole or half built: its user pages, its tables, its directory,
        and nothing else. */
    method Freevm(d: nat, ghost skip: set<nat>)
      requires Sound(skip) && IsDir(use, d)
      modifies this`ram, this`freelist, this`free, this`use
      ensures Sound(skip - {d}) && |ram| == |old(ram)|
      ensures Released(old(use), old(free), old(ram), use, free, ram, d)
    {
      hide Tables, At, Chained, WordAt, Users, Kernels, Target;
      ghost var use0, ram0, free0 := use, ram, free;
      var r := Deallocuvm(d, KERNBASE, 0, skip);
      AllBelowKernel();
      ghost var use1, ram1, free1 := use, ram, free;
      NoUserPagesLeft(use0, use1, d);
      SpaceParts(ram0, use0, d);
      SpaceParts(ram1, use1, d);
      ReleasedGood(ram, freelist, free, use, data, skip, d);
      use := Relabelled(use, d);
      FreeTables(d, use1, skip - {d});
      FreeHeld(d, skip - {d});
      ReleasedAll(use0, free0, ram0, use1, free1, ram1, use, free, ram, d);
    }

    /** kfree of a held page. */
    method FreeHeld(n: nat, ghost skip: set<nat>)
      requires Sound(skip) && n in use && use[n] == Held
      modifies this`ram, this`freelist, this`free, this`use
      ensures Sound(skip) && use == old(use) - {n} && free == [n] + old(free) && |ram| == |old(ram)|
      ensures ram == old(ram)[n := ram[n]] && SameSpaces(use, old(ram), ram)
    {
      hide Tables, At, Chained, Users, Kernels;
      ghost var was, use0 := ram, use;
      Kfree(n);
      UsersKept(was, use0, ram, use, data, skip);
    }

    /** The loop of freevm over the entries of d, whose pages are now only held. */
    method FreeTables(d: nat, ghost use1: map<nat, Use>, ghost skip: set<nat>)
      requires Sound(skip) && Tables(ram, use1) && IsDir(use1, d) && use == Relabelled(use1, d) && d < |ram|
      modifies this`ram, this`freelist, this`free, this`use
      ensures Sound(skip) && |ram| == |old(ram)| && d in use && use[d] == Held
      ensures use == Relabelled(use1, d) - TablesBelow(use1, d, NENTRIES)
      ensures AsSet(free) == AsSet(old(free)) + TablesBelow(use1, d, NENTRIES)
      ensures SameSpaces(use, old(ram), ram) && DataKept(use, old(ram), ram)
    {
      hide Tables, At, Pool, Users, Kernels, Target, Word;
      var i := 0;
      assert TablesBelow(use1, d, 0) == {};
      assert use == use - {};
      ghost var ram1 := ram;
      while i < NENTRIES
        invariant i <= NENTRIES && Sound(skip) && |ram| == |ram1| && d in use && use[d] == Held && d < |ram|
                    && ram[d] == ram1[d]
        invariant use == Relabelled(use1, d) - TablesBelow(use1, d, i)
        invariant AsSet(free) == AsSet(old(free)) + TablesBelow(use1, d, i)
        invariant SameSpaces(use, ram1, ram) && DataKept(use, ram1, ram)
      {
        TableAtEntry(ram1, use1, d, i);
        assert WordAt(ram, d, i) == WordAt(ram1, d, i);
        if Present(WordAt(ram, d, i)) {
          ghost var freed := free;
          FreeHeld(Target(WordAt(ram, d, i)), skip);
          AsSetPushed(free[0], freed);
        }
        i := i + 1;
      }
    }

    lemma AllBelowKernel()
      ensures PagesBelow(0) == 0 && PagesBelow(KERNBASE) == NUSER
    {
    }

    // ---------- building ----------

    /** The kernel rows up to i are in place in the new directory d, and nothing else changed. */
    ghost predicate Building(use0: map<nat, Use>, free0: seq<nat>, ram0: seq<Page>, d: nat, i: nat)
      reads this`ram, this`freelist, this`free, this`use
    {
      && Sound({d}) && i <= NKMAP && |ram| == |ram0| && IsDir(use, d) && d !in use0
      && MoreTables(use0[d := Dir], free0, use, free, d) && DataKept(use0, ram0, ram) && SameSpaces(use0, ram0, ram)
      && (forall v: nat :: v < NPAGE ==> At(ram, d, v) == KernelUpTo(data, i, v))
      && |free| >= |free0| - RowTables(data, i)
    }

    /** setupkvm's row i. */
    method MapRow(d: nat, i: nat, ghost use0: map<nat, Use>, ghost free0: seq<nat>, ghost ram0: seq<Page>)
      returns (r: int)
      requires i < NKMAP && Building(use0, free0, ram0, d, i)
      modifies this`ram, this`freelist, this`free, this`use
      ensures r == 0 ==> Building(use0, free0, ram0, d, i + 1)
      ensures r != 0 ==>
                && r == -1 && Sound({d}) && |ram| == |ram0| && IsDir(use, d) && SameSpaces(use0, ram0, ram)
                && MoreTables(use0[d := Dir], free0, use, free, d) && DataKept(use0, ram0, ram)
                && free == [] && |free0| <= 66
    {
      hide Tables, At, Pool, WordAt, Users, Kernels, Entry, AsSet, KernelAt, KernelUpTo, RowTables, RowStart,
           KmapRow, RowSize, Mapped, SameSpaces, DataKept;
      ghost var use1, free1, ram1 := use, free, ram;
      RowIsKernel(data, i);
      RowPages(data, i, 0);
      var k := KmapRow(data, i);
      ghost var n;
      r, n := Mappages(d, k.virt, RowSize(k), k.physStart, k.perm);
      RowPages(data, i, n);
      if r == 0 {
        RowDone(use1, ram1, ram, d, data, i);
      }
      OthersSame(use0, ram0, use1, ram1, ram, d, k.virt / PGSIZE, n, k.physStart / PGSIZE, k.perm + PTE_P);
      UsersAfterKernel(ram1, use1, free1, ram, use, free, d, k.virt / PGSIZE, n, k.physStart / PGSIZE, k.perm + PTE_P,
          data);
      DataKeptTrans(use0, ram0, use1, ram1, ram);
      MoreSpaceTrans(use0[d := Dir], free0, use1, free1, use, free, d, 0, 0);
    }

    /** A page of zeros, for a directory. */
    method NewDir() returns (d: nat)
      requires Sound({})
      modifies this`ram, this`freelist, this`free, this`use
      ensures d == 0 ==> Sound({}) && ram == old(ram) && use == old(use) && free == old(free) == []
      ensures d != 0 ==> old(free) != [] && d == old(free)[0] && Building(old(use), old(free)[1..], old(ram), d, 0)
    {
      hide Tables, At, Chained, WordAt, Users, Kernels, AsSet, KernelAt;
      ghost var use0, ram0 := use, ram;
      d := Kalloc();
      if d == 0 {
        return;
      }
      UsersKept(ram0, use0, ram0, use, data, {});
      ghost var use1 := use;
      Clear(d);
      UsersKept(ram0, use1, ram, use, data, {});
      TablesAfterDir(ram, use, d);
      UsersAfterDir(ram, use, d, data, {});
      assert {} + {d} == {d};
      use := use[d := Dir];
      assert use == use0[d := Dir];
    }

    /** A new address space with the kernel's mapping and no user memory; or 0, and every page
        taken on the way given back. */
    method Setupkvm() returns (d: nat)
      requires Sound({})
      modifies this`ram, this`freelist, this`free, this`use
      ensures Sound({}) && |ram| == |old(ram)| && SameSpaces(old(use), old(ram), ram)
                && DataKept(old(use), old(ram), ram)
      ensures d == 0 ==> use == old(use) && AsSet(free) == AsSet(old(free)) && |old(free)| <= 67
      ensures d != 0 ==>
                && old(free) != [] && d == old(free)[0] && d !in old(use) && IsDir(use, d)
                && MoreTables(old(use)[d := Dir], old(free)[1..], use, free, d) && |free| >= |old(free)| - 67
                && (forall v: nat :: v < NUSER ==> At(ram, d, v) == 0) && KernelMapped(ram, d, data)
    {
      hide Tables, At, Chained, WordAt, Users, Kernels, AsSet, KernelAt, MoreSpace, RowTables, KernelMapped;
      ghost var use0, free0, ram0 := use, free, ram;
      d := NewDir();
      if d == 0 {
        return;
      }
      ghost var free1 := free0[1..];
      assert free0 == [d] + free1;
      var i := 0;
      while i < NKMAP
        invariant Building(use0, free1, ram0, d, i)
      {
        var r := MapRow(d, i, use0, free1, ram0);
        if r < 0 {
          ghost var use2, free2, ram2 := use, free, ram;
          Freevm(d, {d});
          assert {d} - {d} == {};
          NothingOf(ram0, use0, d);
          Undone(ram0, use0, free0, free1, ram2, use2, free2, ram, use, free, d, 0, 0);
          return 0;
        }
        i := i + 1;
      }
      KernelsWhole(ram, use, data, d);
      KernelHalf(d);
      RowPages(data, 3, 0);
    }

    /** Every directory of sound memory, whatever the user's half holds, maps the kernel. */
    lemma KernelHalf(d: nat)
      requires Sound({}) && IsDir(use, d)
      ensures KernelMapped(ram, d, data)
    {
      hide Pool, Tables, Users, Kernels, KernelMapped;
      KernelIsMapped(ram, use, data, {}, d);
    }

    // ---------- growing ----------

    /** kalloc for a caller that keeps the page. */
    method TakePage(ghost skip: set<nat>) returns (n: nat)
      requires Sound(skip)
      modifies this`freelist, this`free, this`use
      ensures Sound(skip) && (n == 0 <==> old(free) == [])
      ensures n == 0 ==> freelist == old(freelist) && free == old(free) && use == old(use)
      ensures n != 0 ==> old(free) == [n] + free && n < |ram| && n !in old(use) && use == old(use)[n := Held]
    {
      hide Tables, At, Chained, WordAt, Users, Kernels, AsSet;
      ghost var use0 := use;
      n := Kalloc();
      UsersKept(ram, use0, ram, use, data, skip);
    }

    /** A page in hand is zeroed and mapped at a for the user to write; mapping may run out of memory. */
    method InstallPage(d: nat, a: u32, mem: nat, ghost skip: set<nat>) returns (r: int)
      requires Sound(skip) && IsDir(use, d) && a % PGSIZE == 0 && a < KERNBASE && At(ram, d, a / PGSIZE) == 0
      requires mem in use && use[mem] == Held && mem < |ram|
      modifies this`ram, this`freelist, this`free, this`use
      ensures Sound(skip) && |ram| == |old(ram)| && (r == 0 || r == -1) && IsDir(use, d)
      ensures DataKept(old(use) - {mem}, old(ram), ram) && ram[mem] == Zeros(PGSIZE)
      ensures r == -1 ==> use == old(use) && free == old(free) == [] && SameSpaces(use, old(ram), ram)
      ensures r == 0 ==>
                && mem in use && use[mem] == User(d, a / PGSIZE) && |free| >= |old(free)| - 1
                && MoreTables(old(use), old(free), use[mem := Held], free, d)
                && mem < NPAGE && OneSet(old(use), old(ram), ram, d, a / PGSIZE, Entry(mem, PTE_P + PTE_W + PTE_U))
    {
      hide Tables, At, Chained, WordAt, Users, Kernels, AsSet, Entry;
      ghost var use0, ram0 := use, ram;
      ghost var v := a / PGSIZE;
      Clear(mem);
      UsersKept(ram0, use0, ram, use, data, skip);
      ghost var ram1, free1 := ram, free;
      assert PGSIZE * mem / PGSIZE == mem;
      ghost var k;
      r, k := Mappages(d, a, PGSIZE, PGSIZE * mem, PTE_W + PTE_U);
      assert (a + PGSIZE - 1) / PGSIZE == v;
      if r != 0 {
        return;
      }
      OneMapped(use0, ram0, ram1, ram, d, v, mem, PTE_P + PTE_W + PTE_U);
      EntryTarget(mem, PTE_P + PTE_W + PTE_U);
      UsersAfterTables(ram1, use0, free1, ram, use, free, mem, d, v, Entry(mem, PTE_P + PTE_W + PTE_U), data, skip);
      TablesAfterGive(ram, use, mem, d, v);
      ghost var used := use;
      use := use[mem := User(d, v)];
      assert use[mem := Held] == used;
    }

    /** d has grown by pages lo to m. */
    ghost predicate Growing(use0: map<nat, Use>, free0: seq<nat>, ram0: seq<Page>, d: nat, lo: nat, m: nat,
          skip: set<nat>)
      reads this`ram, this`freelist, this`free, this`use
    {
      && Sound(skip) && IsDir(use, d) && lo <= m
      && Grown(use0, free0, ram0, use, free, ram, d, lo, m) && |free| >= |free0| - 2 * (m - lo)
    }

    /** Grows an address space from oldsz to newsz with zeroed pages; if memory runs out on the
        way nothing but new tables is left of it.  With two free pages for every page asked for
        it does not run out. */
    method Allocuvm(d: nat, oldsz: u32, newsz: u32, ghost skip: set<nat>) returns (r: u32)
      requires Sound(skip) && IsDir(use, d)
      requires oldsz <= newsz < KERNBASE ==> forall v: nat :: PagesBelow(oldsz) <= v < PagesBelow(newsz) ==>
                 At(ram, d, v) == 0
      modifies this`ram, this`freelist, this`free, this`use
      ensures Sound(skip) && IsDir(use, d) && |ram| == |old(ram)|
      ensures newsz >= KERNBASE ==> r == 0
      ensures newsz < oldsz && newsz < KERNBASE ==> r == oldsz
      ensures newsz >= KERNBASE || newsz < oldsz ==> ram == old(ram) && use == old(use) && free == old(free)
      ensures oldsz <= newsz < KERNBASE ==>
                && (r == newsz || r == 0)
                && (r == newsz ==>
                      && Grown(old(use), old(free), old(ram), use, free, ram, d, PagesBelow(oldsz), PagesBelow(newsz))
                      && |free| >= |old(free)| - 2 * (PagesBelow(newsz) - PagesBelow(oldsz)))
                && (r != newsz ==>
                      && MoreTables(old(use), old(free), use, free, d) && DataKept(old(use), old(ram), ram)
                      && SameSpaces(old(use), old(ram), ram)
                      && |old(free)| < 2 * (PagesBelow(newsz) - PagesBelow(oldsz)))
    {
      hide Tables, At, Chained, WordAt, Kernels, AsSet, Grown, Users;
      if newsz >= KERNBASE {
        return 0;
      }
      if newsz < oldsz {
        return oldsz;
      }
      ghost var use0, free0, ram0, lo, hi := use, free, ram, PagesBelow(oldsz), PagesBelow(newsz);
      var a := PgRoundUp(oldsz);
      assert a == PGSIZE * lo;
      GrownNone(use, free, ram, d, lo);
      while a < newsz
        invariant Growing(use0, free0, ram0, d, lo, a / PGSIZE, skip) && a % PGSIZE == 0 && a / PGSIZE <= hi
                    && |ram| == |ram0|
      {
        var ok := GrowPage(d, a, oldsz, newsz, skip, use0, free0, ram0);
        if !ok {
          return 0;
        }
        a := a + PGSIZE;
      }
      r := newsz;
    }

    /** The growth so far is unmapped and freed, and so is the page in hand, if there is one. */
    method UndoGrowth(d: nat, oldsz: u32, newsz: u32, mem: nat, ghost skip: set<nat>, ghost use0: map<nat, Use>,
          ghost free0: seq<nat>, ghost ram0: seq<Page>, ghost use1: map<nat, Use>, ghost free1: seq<nat>,
          ghost ram1: seq<Page>, ghost m: nat)
      requires oldsz < newsz < KERNBASE && IsDir(use0, d) && Sound(skip) && IsDir(use, d)
      requires Users(ram0, use0) && forall v: nat :: PagesBelow(oldsz) <= v < PagesBelow(newsz) ==> At(ram0, d, v) == 0
      requires Grown(use0, free0, ram0, use1, free1, ram1, d, PagesBelow(oldsz), m)
                 && PagesBelow(oldsz) <= m <= PagesBelow(newsz)
      requires if mem == 0 then use == use1 && free == free1
               else free1 == [mem] + free && mem !in use1 && use == use1[mem := Held]
      requires SameSpaces(use1, ram1, ram) && DataKept(use1, ram1, ram)
      modifies this`ram, this`freelist, this`free, this`use
      ensures |ram| == |old(ram)| && Sound(skip) && IsDir(use, d)
      ensures MoreTables(use0, free0, use, free, d) && DataKept(use0, ram0, ram) && SameSpaces(use0, ram0, ram)
    {
      hide Tables, At, Chained, WordAt, Users, Kernels, Cleared, SameSpaces;
      ghost var lo, hi := PagesBelow(oldsz), PagesBelow(newsz);
      ghost var held: set<nat> := if mem == 0 then {} else {mem};
      ghost var use2, free2, ram2 := use, free, ram;
      NoMemoryAt(ram0, use0, d, lo, hi);
      var r := Deallocuvm(d, newsz, oldsz, skip);
      ghost var ram3, free3, use3 := ram, free, use;
      if mem != 0 {
        FreeHeld(mem, skip);
        AsSetPushed(mem, free2);
        AsSetPushed(mem, free3);
      } else {
        SameSpacesRefl(use, ram);
      }
      ClearedFewer(use3, ram2, ram3, use, d, lo, hi);
      assert use == use2 - UserPages(use2, d, lo, hi) - held;
      RolledBackUse(use0, free0, use1, free1, use2, free2, use, free, d, lo, m, hi, held);
      RolledBackRam(use0, ram0, use1, ram1, ram2, use, ram3, ram, d, lo, m, hi);
    }

    /** One turn of allocuvm; if memory runs out, the whole growth is undone. */
    method GrowPage(d: nat, a: u32, oldsz: u32, newsz: u32, ghost skip: set<nat>, ghost use0: map<nat, Use>,
          ghost free0: seq<nat>, ghost ram0: seq<Page>)
      returns (ok: bool)
      requires oldsz <= newsz < KERNBASE && a % PGSIZE == 0 && a < newsz && IsDir(use0, d) && Users(ram0, use0)
      requires Growing(use0, free0, ram0, d, PagesBelow(oldsz), a / PGSIZE, skip)
      requires forall v: nat :: PagesBelow(oldsz) <= v < PagesBelow(newsz) ==> At(ram0, d, v) == 0
      modifies this`ram, this`freelist, this`free, this`use
      ensures |ram| == |old(ram)| && Sound(skip) && IsDir(use, d)
      ensures ok ==> Growing(use0, free0, ram0, d, PagesBelow(oldsz), a / PGSIZE + 1, skip)
      ensures !ok ==>
                && MoreTables(use0, free0, use, free, d) && DataKept(use0, ram0, ram) && SameSpaces(use0, ram0, ram)
                && |free0| < 2 * (PagesBelow(newsz) - PagesBelow(oldsz))
    {
      hide Tables, At, Chained, WordAt, Users, Kernels, AsSet, Entry, MoreSpace;
      ghost var use1, free1, ram1 := use, free, ram;
      ghost var lo, m, hi := PagesBelow(oldsz), a / PGSIZE, PagesBelow(newsz);
      assert m < hi;
      var mem := TakePage(skip);
      if mem == 0 {
        UndoGrowth(d, oldsz, newsz, 0, skip, use0, free0, ram0, use1, free1, ram1, m);
        return false;
      }
      var r := InstallPage(d, a, mem, skip);
      if r < 0 {
        UndoGrowth(d, oldsz, newsz, mem, skip, use0, free0, ram0, use1, free1, ram1, m);
        return false;
      }
      GrownStep(use0, free0, ram0, use1, free1, ram1, use, free, ram, d, lo, m, mem);
      return true;
    }

    // ---------- user memory ----------

    /** memmove into a user page. */
    method Store(n: nat, off: nat, src: seq<byte>, ghost skip: set<nat>)
      requires Sound(skip) && n in use && use[n].User? && n < |ram| && off + |src| <= PGSIZE
      modifies this`ram
      ensures Sound(skip) && ram == old(ram)[n := ram[n]] && SameSpaces(use, old(ram), ram)
      ensures Written(use, old(ram), ram, use[n].dir, PGSIZE * use[n].vpn + off, src)
    {
      hide Tables, At, Chained, WordAt, Users, Kernels, Splice;
      ghost var was := ram;
      var page := Splice(ram[n], off, src);
      PoolKept(ram, freelist, free, use, n, page);
      TablesKept(ram, use, n, page);
      UsersKept(ram, use, ram[n := page], use, data, skip);
      StoredBytes(ram, use, n, off, src);
      ram := ram[n := page];
    }

    /** Takes the user bit off the entry of a mapped page. */
    method Clearpteu(d: nat, uva: u32, ghost skip: set<nat>)
      requires Sound(skip) && IsDir(use, d) && uva < KERNBASE && At(ram, d, uva / PGSIZE) != 0
      modifies this`ram
      ensures Sound(skip) && |ram| == |old(ram)| && DataKept(use, old(ram), ram)
      ensures exists x: u32 :: OneSet(use, old(ram), ram, d, uva / PGSIZE, x)
                && !UserBit(x) && x != 0 && Target(x) == Target(old(At(ram, d, uva / PGSIZE)))
    {
      hide Tables, At, Chained, WordAt, Users, Kernels;
      PageOfAddress(uva);
      ghost var v, was, use0, free0, head0 := uva / PGSIZE, ram, use, free, freelist;
      HasTable(ram, use, d, v);
      var t, j := ReadWalk(d, uva);
      EntryHasMemory(ram, use, t, d, v);
      var e := WordAt(ram, t, j);
      UserFlags(ram, use, d, v);
      var x := if UserBit(e) then e - PTE_U else e;
      SetEntry(t, j, x);
      UsersAfterFlags(was, use, ram, d, v, x, data, skip);
    }

    /** The entry of an address, where there is a table for it. */
    method ReadWalk(d: nat, va: u32) returns (t: nat, j: nat)
      requires Sane() && IsDir(use, d) && WordAt(ram, d, va / PGSIZE / NENTRIES) != 0
      ensures j == va / PGSIZE % NENTRIES && t < |ram| && IsTable(use, t, d, va / PGSIZE / NENTRIES)
      ensures WordAt(ram, t, j) == At(ram, d, va / PGSIZE)
    {
      hide Tables, Chained, WordAt, Target;
      PageOfAddress(va);
      EntryOf(ram, freelist, free, use, d, va / PGSIZE / NENTRIES);
      t, j := Target(WordAt(ram, d, PDX(va))), PTX(va);
      TableGivesAt(ram, use, t, d, va / PGSIZE);
    }

    /** The memory page at a user address, or 0 where the user has none. */
    method Uva2ka(d: nat, uva: u32, ghost skip: set<nat>) returns (n: nat)
      requires Sound(skip) && IsDir(use, d) && d !in skip && WordAt(ram, d, uva / PGSIZE / NENTRIES) != 0
      ensures n != 0 <==> UserPage(ram, d, uva / PGSIZE)
      ensures n != 0 ==> uva < KERNBASE && n < |ram| && n in use && use[n] == User(d, uva / PGSIZE)
    {
      hide Tables, Chained, WordAt, At, Target, Users, Kernels;
      var t, j := ReadWalk(d, uva);
      var e := WordAt(ram, t, j);
      if !Present(e) || !UserBit(e) {
        return 0;
      }
      UserBelowKernel(ram, use, data, skip, d, uva / PGSIZE);
      n := Target(e);
    }

    /** Copies bytes to user addresses page by page, up to the first page the user does not have. */
    method Copyout(d: nat, va: u32, p: seq<byte>, ghost skip: set<nat>) returns (r: int, ghost done: nat)
      requires Sound(skip) && IsDir(use, d) && d !in skip && |p| < 0x1_0000_0000
      requires Walkable(ram, d, va / PGSIZE, PagesSpanned(va, |p|))
      modifies this`ram
      ensures Sound(skip) && |ram| == |old(ram)| && SameSpaces(use, old(ram), ram)
      ensures done <= |p| && Written(use, old(ram), ram, d, va, p[..done])
      ensures r == (if done == |p| then 0 else -1)
      ensures done < |p| ==> !UserPage(old(ram), d, (va + done) / PGSIZE)
      ensures forall a: nat :: va <= a < va + done ==> UserPage(old(ram), d, a / PGSIZE)
    {
      hide Tables, At, Pool, Users, Kernels, WordAt, Written, Walkable, Target, PagesSpanned, UserPage, SameSpaces;
      ghost var ram0 := ram;
      DirInRam(ram, freelist, free, use, d);
      var at: u32, k := va, 0;
      done := 0;
      WrittenNothing(use, ram, d, va);
      SameSpacesRefl(use, ram);
      while k < |p|
        invariant k <= |p| && done == k && Sound(skip) && |ram| == |old(ram)| && SameSpaces(use, old(ram), ram)
        invariant k < |p| ==> at == va + k && (k > 0 ==> at % PGSIZE == 0)
        invariant k < |p| ==> Walkable(ram0, d, at / PGSIZE, PagesSpanned(at, |p| - k))
        invariant Written(use, ram0, ram, d, va, p[..k]) && ram[d] == ram0[d]
        invariant forall a: nat :: va <= a < va + k ==> UserPage(ram0, d, a / PGSIZE)
      {
        var va0 := PgRoundDown(at);
        WalkableNext(ram0, d, at, |p| - k);
        SameDir(ram0, ram, d, at / PGSIZE / NENTRIES);
        UserPageKept(use, ram0, ram, d, at / PGSIZE);
        var pa0 := Uva2ka(d, va0, skip);
        if pa0 == 0 {
          return -1, k;
        }
        var n := if PGSIZE - (at - va0) > |p| - k then |p| - k else PGSIZE - (at - va0);
        ghost var was := ram;
        Store(pa0, at - va0, p[k..k + n], skip);
        CopyStep(use, ram0, was, ram, d, va, p, k, n);
        SameSpacesTrans(use, ram0, use, was, ram);
        if n < |p| - k {
          NextSpan(at, |p| - k, n);
        }
        at, k := va0 + PGSIZE, k + n;
        done := k;
      }
      r := 0;
      assert p[..|p|] == p;
    }

    /** The first process: one page at address 0 that starts with the bytes of init. */
    method Inituvm(d: nat, init: seq<byte>, ghost skip: set<nat>)
      requires Sound(skip) && IsDir(use, d) && At(ram, d, 0) == 0 && |init| < PGSIZE && |free| >= 2
      modifies this`ram, this`freelist, this`free, this`use
      ensures Sound(skip) && |ram| == |old(ram)| && IsDir(use, d) && UserPage(ram, d, 0)
      ensures forall a: nat :: a < PGSIZE ==> ByteAt(ram, d, a) == if a < |init| then init[a] else 0
      ensures forall c, w :: IsDir(old(use), c) && 0 <= w < NPAGE && !(c == d && w == 0) ==>
                At(ram, c, w) == old(At(ram, c, w))
      ensures DataKept(old(use), old(ram), ram) && Pages() == old(Pages())
      ensures MoreSpace(old(use), old(free), use, free, d, 0, 1)
    {
      hide Tables, Chained, WordAt, Users, Kernels, AsSet, At;
      ghost var use0, ram0 := use, ram;
      var mem := TakePage(skip);
      AsSetPushed(mem, free);
      ghost var use1 := use;
      var r := InstallPage(d, 0, mem, skip);
      EntryTarget(mem, PTE_P + PTE_W + PTE_U);
      assert IsDir(use1, d) && At(ram, d, 0) == Entry(mem, PTE_P + PTE_W + PTE_U);
      Store(mem, 0, init, skip);
      assert use[mem := Held].Keys == use.Keys && use1.Keys == use0.Keys + {mem};
      forall c, w | IsDir(use0, c) && 0 <= w < NPAGE && !(c == d && w == 0) ensures At(ram, c, w) == At(ram0, c, w) {
        assert IsDir(use1, c) && IsDir(use[mem := Held], c) && IsDir(use, c);
      }
    }
  }

  lemma KernelsWhole(ram: seq<Page>, use: map<nat, Use>, data: nat, d: nat)
    requires Kernels(ram, use, data, {d}) && forall v: nat :: v < NPAGE ==> At(ram, d, v) == KernelUpTo(data, NKMAP, v)
    ensures Kernels(ram, use, data, {}) && forall v: nat :: v < NUSER ==> At(ram, d, v) == 0
  {
    hide At, KernelAt;
  }

  /** The whole pages between two addresses, from the first page start to the last page end. */
  lemma WholePages(lo: nat, hi: nat, first: nat, k: nat)
    requires PGSIZE * first < lo - KERNBASE + PGSIZE && lo <= KERNBASE + PGSIZE * first
    requires hi < KERNBASE + PGSIZE * (k + 1) && (k > first ==> KERNBASE + PGSIZE * k <= hi)
    ensures forall n: nat :: first <= n < k <==> lo <= KERNBASE + PGSIZE * n && KERNBASE + PGSIZE * n + PGSIZE <= hi
  {
  }

  lemma PageCount(lo: nat, hi: nat, first: nat, k: nat)
    requires PGSIZE * first < lo - KERNBASE + PGSIZE && lo <= KERNBASE + PGSIZE * first && KERNBASE < lo && first <= k
    requires hi < KERNBASE + PGSIZE * (k + 1) && (k > first ==> KERNBASE + PGSIZE * k <= hi)
    ensures k - first == if hi / PGSIZE > PagesBelow(lo) then hi / PGSIZE - PagesBelow(lo) else 0
  {
    assert PagesBelow(lo) == NUSER + first;
    if k > first {
      assert hi / PGSIZE == NUSER + k;
    } else {
      assert hi / PGSIZE <= NUSER + first;
    }
  }

  lemma DirInRam(ram: seq<Page>, head: u32, free: seq<nat>, use: map<nat, Use>, d: nat)
    requires Pool(ram, head, free, use) && d in use
    ensures d < |ram|
  {
  }

  lemma SameDir(before: seq<Page>, after: seq<Page>, d: nat, i: nat)
    requires d < |before| && |after| == |before| && after[d] == before[d]
    ensures WordAt(after, d, i) == WordAt(before, d, i)
  {
  }

  lemma UserPageKept(use: map<nat, Use>, before: seq<Page>, after: seq<Page>, d: nat, v: nat)
    requires SameSpaces(use, before, after) && IsDir(use, d) && v < NPAGE
    ensures UserPage(after, d, v) == UserPage(before, d, v)
  {
    hide At;
    assert At(after, d, v) == At(before, d, v);
  }

  lemma PoolSize(ram: seq<Page>, head: u32, free: seq<nat>, use: map<nat, Use>)
    requires Pool(ram, head, free, use)
    ensures |ram| <= NFRAME
  {
  }

  /** Where deallocuvm goes on after a missing table. */
  lemma NextTable(a: u32)
    requires a < KERNBASE && a % PGSIZE == 0
    ensures var next := PgAddr(PDX(a) + 1);
            && a < next <= KERNBASE && next % PGSIZE == 0
            && forall v: nat :: a / PGSIZE <= v < next / PGSIZE ==> v / NENTRIES == PDX(a)
  {
    var q := a / 0x40_0000;
    assert 0x40_0000 * q <= a < 0x40_0000 * (q + 1) && q < 512;
    assert PDX(a) == q && PgAddr(q + 1) == 0x40_0000 * (q + 1);
    assert PgAddr(q + 1) / PGSIZE == NENTRIES * (q + 1) && NENTRIES * q <= a / PGSIZE;
  }

  /** Consecutive pages are under the same directory entry or consecutive ones. */
  lemma NextGroup(v: nat)
    ensures v > 0 ==> (v - 1) / NENTRIES <= v / NENTRIES <= (v - 1) / NENTRIES + 1
  {
  }

  /** A copy that fills its first page goes on in the next. */
  lemma NextSpan(at: u32, len: nat, n: nat)
    requires 0 < n < len && n == PGSIZE - at % PGSIZE
    ensures PagesSpanned(at, len) - 1 == PagesSpanned(PgRoundDown(at) + PGSIZE, len - n)
  {
  }
}
