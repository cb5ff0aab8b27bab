/** exec: a new address space from a program file, committed whole or not at all. */
module Processes {
  import opened Bytes
  import Layout
  import Bio
  import FsState
  import FsInodes
  import opened FileSystems
  import Directories
  import Paths
  import opened Paging
  import opened Memories
  import opened Images
  import opened Wrappers

  /** Of the user pages exactly the first are there, all the user's. */
  ghost predicate Extent(ram: seq<Page>, d: nat, pages: nat) {
    forall v: nat :: v < NUSER ==> if v < pages then UserPage(ram, d, v) else At(ram, d, v) == 0
  }

  /** The bytes of user memory. */
  ghost predicate SameBytes(before: seq<Page>, after: seq<Page>, d: nat) {
    forall a: nat :: a < KERNBASE ==> ByteAt(after, d, a) == ByteAt(before, d, a)
  }

  lemma MoreSpaceWider(use: map<nat, Use>, free: seq<nat>, used: map<nat, Use>, freed: seq<nat>, d: nat, lo: nat,
        hi: nat)
    requires MoreSpace(use, free, used, freed, d, lo, hi) && hi <= NUSER
    ensures MoreSpace(use, free, used, freed, d, 0, NUSER)
  {
    hide AsSet;
  }

  /** Growing by zero pages changes no byte. */
  lemma GrownBytes(use: map<nat, Use>, free: seq<nat>, before: seq<Page>, used: map<nat, Use>, freed: seq<nat>,
        after: seq<Page>, d: nat, lo: nat, hi: nat)
    requires Grown(use, free, before, used, freed, after, d, lo, hi) && Users(before, use) && IsDir(use, d)
    requires forall v: nat :: lo <= v < hi ==> At(before, d, v) == 0
    ensures SameBytes(before, after, d)
  {
    hide At, MoreSpace;
    forall a: nat | a < KERNBASE ensures ByteAt(after, d, a) == ByteAt(before, d, a) {
      var v := a / PGSIZE;
      assert v < NUSER && UserEntryOk(before, use, d, v);
      if lo <= v < hi {
        assert ZeroPage(after, d, v);
      }
    }
  }

  lemma GrownExtent(use: map<nat, Use>, before: seq<Page>, after: seq<Page>, d: nat, lo: nat, hi: nat)
    requires ZeroMapped(use, before, after, d, lo, hi) && IsDir(use, d) && Extent(before, d, lo) && lo <= hi <= NUSER
    ensures Extent(after, d, hi)
  {
    hide At;
    forall v: nat | v < NUSER ensures if v < hi then UserPage(after, d, v) else At(after, d, v) == 0 {
      if lo <= v < hi {
        assert ZeroPage(after, d, v);
      }
    }
  }

  lemma ExtentKept(use: map<nat, Use>, before: seq<Page>, after: seq<Page>, d: nat, pages: nat)
    requires SameSpaces(use, before, after) && IsDir(use, d) && Extent(before, d, pages)
    ensures Extent(after, d, pages)
  {
    hide At;
    forall v: nat | v < NUSER ensures if v < pages then UserPage(after, d, v) else At(after, d, v) == 0 {
      assert At(after, d, v) == At(before, d, v);
    }
  }

  /** k bytes of the file from off, if they are there. */
  function Piece(file: seq<byte>, off: nat, k: nat): seq<byte> {
    if k > 0 && off + k <= |file| then file[off..off + k] else []
  }

  lemma NoPiece(use: map<nat, Use>, ram: seq<Page>, d: nat, at: nat, file: seq<byte>, off: nat)
    ensures Written(use, ram, ram, d, at, Piece(file, off, 0))
  {
    WrittenNothing(use, ram, d, at);
  }

  lemma NextPiece(use: map<nat, Use>, ram0: seq<Page>, before: seq<Page>, after: seq<Page>, d: nat, at: nat,
        file: seq<byte>, off: nat, k: nat, n: nat)
    requires n > 0 && off + k + n <= |file| && Written(use, ram0, before, d, at, Piece(file, off, k))
    requires Written(use, before, after, d, at + k, file[off + k..off + k + n])
    ensures Written(use, ram0, after, d, at, Piece(file, off, k + n))
  {
    hide Written;
    var p := file[off..off + k + n];
    assert p[..k] == Piece(file, off, k) && p[k..k + n] == file[off + k..off + k + n] && p[..k + n] == p;
    CopyStep(use, ram0, before, after, d, at, p, k, n);
  }

  lemma PagesCover(size: nat)
    requires size < KERNBASE
    ensures size <= PGSIZE * PagesBelow(size) && PagesBelow(size) <= NUSER
  {
  }

  /** The next header as SizeAfter takes it. */
  lemma SizeStep(file: seq<byte>, phoff: u32, i: nat)
    requires SizeAfter(file, phoff, i).Some? && Prog(file, phoff, i).Some?
    ensures var size, h := SizeAfter(file, phoff, i).value, Prog(file, phoff, i).value;
            SizeAfter(file, phoff, i + 1) ==
              if h.typ != ELF_PROG_LOAD then Some(size)
              else if !Loadable(file, h, size) then None
              else Some(if SegmentEnd(h) > size then SegmentEnd(h) else size)
  {
    hide Prog;
  }

  /** Why a header may not be loaded. */
  lemma Refused(file: seq<byte>, phoff: u32, i: nat, free: nat)
    ensures Prog(file, phoff, i).None? || SizeAfter(file, phoff, i + 1).None? ==> Hopeless(file, phoff, i + 1, free)
    ensures SizeAfter(file, phoff, i + 1).Some? && free < 68 + 2 * PagesBelow(SizeAfter(file, phoff, i + 1).value) ==>
        Hopeless(file, phoff, i + 1, free)
  {
    hide Prog;
  }

  lemma EmptyImage(ram: seq<Page>, d: nat, file: seq<byte>, phoff: u32)
    requires forall v: nat :: v < NUSER ==> At(ram, d, v) == 0
    ensures IsImage(ram, d, file, phoff, 0) && Extent(ram, d, PagesBelow(0))
  {
    hide At;
  }

  lemma HopelessLater(file: seq<byte>, phoff: u32, i: nat, n: nat, free: nat)
    requires Hopeless(file, phoff, i, free) && i <= n
    ensures Hopeless(file, phoff, n, free)
  {
    hide SizeAfter;
    if i < n && SizeAfter(file, phoff, n).Some? {
      SizesBound(file, phoff, n, i);
    }
  }

  lemma RoundedUp(size: u32)
    requires size < KERNBASE
    ensures var g := PagesBelow(size);
            && PgRoundUp(size) == PGSIZE * g && PagesBelow(PgRoundUp(size)) == g
                && PagesBelow(PgRoundUp(size) + 2 * PGSIZE) == g + 2 && g <= NUSER
  {
  }

  /** User memory is the image of the first n program headers. */
  ghost predicate IsImage(ram: seq<Page>, d: nat, file: seq<byte>, phoff: u32, n: nat) {
    forall a: nat :: a < KERNBASE ==> ByteAt(ram, d, a) == ImageByte(file, phoff, n, a)
  }

  /** With this many free pages loading n headers need not succeed. */
  ghost predicate Hopeless(file: seq<byte>, phoff: u32, n: nat, free: nat) {
    SizeAfter(file, phoff, n).None? || free < 68 + 2 * PagesBelow(SizeAfter(file, phoff, n).value)
  }

  lemma ImageSkips(ram: seq<Page>, d: nat, file: seq<byte>, phoff: u32, i: nat)
    requires IsImage(ram, d, file, phoff, i) && Prog(file, phoff, i).Some?
               && Prog(file, phoff, i).value.typ != ELF_PROG_LOAD
    ensures IsImage(ram, d, file, phoff, i + 1)
  {
    hide ByteAt, Prog;
  }

  lemma ImageLoads(ram1: seq<Page>, ram2: seq<Page>, use: map<nat, Use>, after: seq<Page>, d: nat, file: seq<byte>,
        phoff: u32, i: nat, h: ProgHdr)
    requires IsImage(ram1, d, file, phoff, i) && SameBytes(ram1, ram2, d) && Prog(file, phoff, i) == Some(h)
        && h.typ == ELF_PROG_LOAD
    requires Written(use, ram2, after, d, h.vaddr, Piece(file, h.off, h.filesz))
               && (h.filesz == 0 || h.off + h.filesz <= |file|)
    ensures IsImage(after, d, file, phoff, i + 1)
  {
    hide ByteAt, Prog;
    forall a: nat | a < KERNBASE ensures ByteAt(after, d, a) == ImageByte(file, phoff, i + 1, a) {
      assert ByteAt(ram2, d, a) == ByteAt(ram1, d, a) == ImageByte(file, phoff, i, a);
    }
  }

  // ---------- the stack ----------

  /** The program's pages, the guard page g, the stack page, and nothing above. */
  ghost predicate StackPages(ram: seq<Page>, d: nat, g: nat) {
    forall v: nat :: v < NUSER ==>
      if v == g then At(ram, d, v) != 0 && !UserPage(ram, d, v)
      else if v <= g + 1 then UserPage(ram, d, v) else At(ram, d, v) == 0
  }

  ghost predicate ImageBelow(ram: seq<Page>, d: nat, file: seq<byte>, phoff: u32, n: nat, limit: nat) {
    forall a: nat :: a < limit && a < KERNBASE ==> ByteAt(ram, d, a) == ImageByte(file, phoff, n, a)
  }

  lemma PresentNonzero(ram: seq<Page>, d: nat, v: nat)
    requires UserPage(ram, d, v)
    ensures At(ram, d, v) != 0
  {
  }

  /** A copy that stays in a prefix of [at, at + len): where it ends. */
  lemma CopyEnds(ram: seq<Page>, use: map<nat, Use>, data: nat, d: nat, g: nat, at: int, sp: u32, len: nat, done: nat)
    requires StackPages(ram, d, g) && g + 2 < NUSER && Users(ram, use) && Kernels(ram, use, data, {}) && IsDir(use, d)
    requires forall n :: n in use ==> 0 < n
    requires len > 0 && sp == at % 0x1_0000_0000 && -0x200_0000 <= at
               && PGSIZE * (g + 1) - 4 < at + len <= PGSIZE * (g + 2)
    requires done <= len && (done < len ==> !UserPage(ram, d, (sp + done) / PGSIZE))
    requires forall a: nat :: sp <= a < sp + done ==> UserPage(ram, d, a / PGSIZE)
    ensures done == len <==> at >= PGSIZE * (g + 1)
  {
    hide At, UserPage;
    if at < 0 {
      if done > 0 {
        assert UserPage(ram, d, sp / PGSIZE);
        UserBelowKernel(ram, use, data, {}, d, sp / PGSIZE);
      }
    } else if at < PGSIZE * (g + 1) {
      var a := if at < PGSIZE * g then PGSIZE * g else at;
      assert a / PGSIZE == g && sp <= a < sp + len;
      assert !UserPage(ram, d, g);
    } else {
      var last := if done < len then done else 0;
      assert (sp + last) / PGSIZE == g + 1;
    }
  }

  /** Everywhere the copy looks there is a table. */
  lemma CanWalk(ram: seq<Page>, use: map<nat, Use>, data: nat, d: nat, g: nat, at: int, len: nat)
    requires StackPages(ram, d, g) && g + 2 < NUSER && Users(ram, use) && Kernels(ram, use, data, {}) && IsDir(use, d)
    requires forall n :: n in use ==> 0 < n
    requires len > 0 && -0x200_0000 <= at && at + len <= PGSIZE * (g + 2)
    ensures Walkable(ram, d, at % 0x1_0000_0000 / PGSIZE, PagesSpanned(at % 0x1_0000_0000, len))
  {
    hide At, UserPage, KernelAt;
    var sp := at % 0x1_0000_0000;
    var v := sp / PGSIZE;
    if at < 0 {
      assert v < NPAGE && v >= DEVSPACE / PGSIZE;
      DeviceMapped(data, v);
      assert At(ram, d, v) == KernelAt(data, v);
      HasTable(ram, use, d, v);
      if UserPage(ram, d, v) {
        UserBelowKernel(ram, use, data, {}, d, v);
      }
    } else {
      WalkableBelow(ram, use, d, g, v, PagesSpanned(sp, len));
    }
  }

  lemma DeviceMapped(data: nat, v: nat)
    requires DEVSPACE / PGSIZE <= v < NPAGE
    ensures KernelAt(data, v) != 0
  {
  }

  lemma {:induction false} WalkableBelow(ram: seq<Page>, use: map<nat, Use>, d: nat, g: nat, v: nat, n: nat)
    requires StackPages(ram, d, g) && v + n <= g + 2 < NUSER
    ensures Walkable(ram, d, v, n)
    decreases n
  {
    hide At, UserPage;
    if n > 0 {
      if v != g {
        UserPageMapped(ram, use, d, v);
      }
      HasTable(ram, use, d, v);
      WalkableBelow(ram, use, d, g, v + 1, n - 1);
    }
  }

  /** A push within the stack page. */
  lemma StackKept(use: map<nat, Use>, before: seq<Page>, after: seq<Page>, d: nat, g: nat, at: nat, src: seq<byte>,
        file: seq<byte>, phoff: u32, n: nat)
    requires SameSpaces(use, before, after) && Written(use, before, after, d, at, src) && IsDir(use, d)
               && at >= PGSIZE * (g + 1)
    requires StackPages(before, d, g) && ImageBelow(before, d, file, phoff, n, PGSIZE * (g + 1))
    ensures StackPages(after, d, g) && ImageBelow(after, d, file, phoff, n, PGSIZE * (g + 1))
  {
    hide At, ByteAt;
    forall v: nat | v < NUSER
      ensures if v == g then At(after, d, v) != 0 && !UserPage(after, d, v)
              else if v <= g + 1 then UserPage(after, d, v) else At(after, d, v) == 0
    {
      assert At(after, d, v) == At(before, d, v);
    }
  }

  /** clearpteu of the guard page. */
  lemma GuardSet(use0: map<nat, Use>, ram0: seq<Page>, use: map<nat, Use>, ram1: seq<Page>, before: seq<Page>,
        after: seq<Page>, d: nat, g: nat, file: seq<byte>, phoff: u32, n: nat)
    requires IsImage(ram1, d, file, phoff, n) && SameBytes(ram1, before, d) && Extent(before, d, g + 2) && g + 2 < NUSER
    requires Users(before, use) && IsDir(use, d) && DataKept(use, before, after) && SameSpaces(use0, ram0, before)
    requires d !in use0 && forall n :: n in use0 ==> n in use && use[n] == use0[n]
    requires exists x: u32 :: OneSet(use, before, after, d, g, x) && !UserBit(x) && x != 0
               && Target(x) == Target(At(before, d, g))
    ensures SameSpaces(use0, ram0, after)
    ensures StackPages(after, d, g) && ImageBelow(after, d, file, phoff, n, PGSIZE * (g + 1))
  {
    hide At, Target, UserBit;
    var x: u32 :| OneSet(use, before, after, d, g, x) && !UserBit(x) && x != 0 && Target(x) == Target(At(before, d, g));
    forall c, v | IsDir(use0, c) && 0 <= v < NPAGE ensures At(after, c, v) == At(ram0, c, v) {
      assert IsDir(use, c) && At(before, c, v) == At(ram0, c, v);
    }
    forall v: nat | v < NUSER
      ensures if v == g then At(after, d, v) != 0 && !UserPage(after, d, v)
              else if v <= g + 1 then UserPage(after, d, v) else At(after, d, v) == 0
    {
      assert At(after, d, v) == if v == g then x else At(before, d, v);
    }
    forall a: nat | a < PGSIZE * (g + 1) && a < KERNBASE ensures ByteAt(after, d, a) == ImageByte(file, phoff, n, a) {
      var v := a / PGSIZE;
      assert UserEntryOk(before, use, d, v) && UserPage(before, d, v);
      PresentNonzero(before, d, v);
      assert At(after, d, v) == if v == g then x else At(before, d, v);
      assert ByteAt(before, d, a) == ByteAt(ram1, d, a);
    }
  }

  // ---------- arguments ----------

  /** Every argument pushed stays, if it wraps at all, within the device pages; below them copyout
      meets addresses without a page table. */
  ghost predicate ArgsReach(top: int, argv: seq<seq<byte>>) {
    forall i: nat :: i < |argv| && i < MAXARG && Sp(top, argv, i) >= top - PGSIZE ==>
        Sp(top, argv, i + 1) >= -0x200_0000
  }

  /** That, on the stack of this program. */
  ghost predicate ArgsTaken(file: seq<byte>, argv: seq<seq<byte>>) {
    Header(file).Some? ==>
      var size := SizeAfter(file, Header(file).value.phoff, Header(file).value.phnum);
      size.Some? ==> ArgsReach(PGSIZE * (PagesBelow(size.value) + 2), argv)
  }

  /** The stack has room below KERNBASE, and the arguments have room in its one page. */
  predicate ArgsFit(size: nat, argv: seq<seq<byte>>) {
    && PagesBelow(size) + 2 < NUSER && |argv| <= MAXARG
    && FinalSp(PGSIZE * (PagesBelow(size) + 2), argv) >= PGSIZE * (PagesBelow(size) + 1)
  }

  lemma NoStrings(ram: seq<Page>, d: nat, sz: int, argv: seq<seq<byte>>)
    ensures Strings(ram, d, sz, argv, 0) && Sp(sz, argv, 0) == sz
  {
  }

  lemma NextSp(top: int, argv: seq<seq<byte>>, i: nat, sp: u32)
    requires ArgsReach(top, argv) && i < |argv| && i < MAXARG && sp == Sp(top, argv, i) && sp >= top - PGSIZE
    ensures var at := Sp(top, argv, i + 1);
            && -0x200_0000 <= at && at % 0x1_0000_0000 == (sp - (|argv[i]| + 1)) % 0x1_0000_0000 / 4 * 4
            && sp - 4 < at + |CString(argv[i])| <= sp
  {
    var x := sp - (|argv[i]| + 1);
    assert Sp(top, argv, i + 1) == x / 4 * 4 by {
      assert Sp(top, argv, i) == sp;
    }
    WrapsAligned(x);
  }

  /** Rounding down to a multiple of four and wrapping around at 2^32 may change places. */
  lemma WrapsAligned(x: int)
    requires -0x1_0000_0000 <= x < 0x1_0000_0000
    ensures x / 4 * 4 % 0x1_0000_0000 == x % 0x1_0000_0000 / 4 * 4
  {
    if x < 0 {
      assert x % 0x1_0000_0000 == x + 0x1_0000_0000;
      assert (x + 0x1_0000_0000) / 4 == x / 4 + 0x4000_0000;
    }
  }

  /** Pushing string i keeps the ones above it. */
  lemma StringPushed(use: map<nat, Use>, before: seq<Page>, after: seq<Page>, d: nat, sz: int, argv: seq<seq<byte>>,
        i: nat)
    requires i < |argv| && Strings(before, d, sz, argv, i) && Sp(sz, argv, i + 1) >= 0 && Sp(sz, argv, i) <= KERNBASE
    requires Written(use, before, after, d, Sp(sz, argv, i + 1), CString(argv[i]))
        && Sp(sz, argv, i + 1) + |CString(argv[i])| <= Sp(sz, argv, i)
    ensures Strings(after, d, sz, argv, i + 1)
  {
    hide Sp, ByteAt;
    StringsKept(use, before, after, d, Sp(sz, argv, i + 1), CString(argv[i]), sz, argv, i);
  }

  lemma FinalBelow(sz: int, argv: seq<seq<byte>>)
    ensures FinalSp(sz, argv) <= Sp(sz, argv, |argv|) - 16
  {
  }

  lemma FrameOf(sz: int, argv: seq<seq<byte>>, sp: u32, ptrs: seq<u32>)
    requires |ptrs| == |argv| && (forall j: nat :: j < |argv| ==> ptrs[j] == Sp(sz, argv, j + 1))
    requires (|argv| + 1) * 4 <= sp && |argv| <= MAXARG
    ensures IsFrame([0xFFFF_FFFF, |argv|, sp - (|argv| + 1) * 4] + ptrs + [0], sz, argv, sp - (3 + |argv| + 1) * 4)
  {
    hide Sp;
  }

  lemma FramePushed(use: map<nat, Use>, before: seq<Page>, after: seq<Page>, d: nat, sz: int, argv: seq<seq<byte>>,
        sp: nat, ws: seq<u32>)
    requires Strings(before, d, sz, argv, |argv|) && Written(use, before, after, d, sp, FromWords(ws))
        && sp + |FromWords(ws)| == Sp(sz, argv, |argv|) <= KERNBASE
    requires IsFrame(ws, sz, argv, sp)
    ensures ArgStack(after, d, sz, argv, sp)
  {
    hide Sp, ByteAt, Strings, ArgStack, FromWords, IsFrame;
    StringsKept(use, before, after, d, sp, FromWords(ws), sz, argv, |argv|);
    FrameStored(after, d, sz, argv, sp, ws);
  }

  // ---------- what exec decides and changes ----------

  /** A program exec takes, with arguments it takes. */
  ghost predicate Runnable(file: seq<byte>, argv: seq<seq<byte>>) {
    && Header(file).Some?
    && var h := Header(file).value;
       && SizeAfter(file, h.phoff, h.phnum).Some?
       && ArgsFit(SizeAfter(file, h.phoff, h.phnum).value, argv)
  }

  /** Free pages with which exec of this program does not run out of memory. */
  ghost function PagesEnough(file: seq<byte>): nat {
    if Header(file).None? then 0
    else
      var size := SizeAfter(file, Header(file).value.phoff, Header(file).value.phnum);
      if size.None? then 0 else 68 + 2 * (PagesBelow(size.value) + 2)
  }

  lemma NotRunnable(file: seq<byte>, argv: seq<seq<byte>>, free: nat)
    requires Header(file).None? || Hopeless(file, Header(file).value.phoff, Header(file).value.phnum, free)
    ensures !Runnable(file, argv) || free < PagesEnough(file)
  {
    hide SizeAfter, Header, PagesBelow;
  }

  /** The last component of the path starts at i. */
  ghost predicate LastFrom(path: seq<byte>, i: nat) {
    i <= |path| && Directories.SLASH !in path[i..] && (i > 0 ==> path[i - 1] == Directories.SLASH)
  }

  /** The process's name: the last component, cut to 15 characters. */
  ghost predicate IsName(path: seq<byte>, name: seq<byte>) {
    exists i: nat :: LastFrom(path, i) && name == if |path| - i > 15 then path[i..i + 15] else path[i..]
  }

  lemma NameCut(path: seq<byte>, last: seq<byte>, name: seq<byte>)
    requires exists i: nat :: LastFrom(path, i) && last == path[i..]
    requires name == if |last| > 15 then last[..15] else last
    ensures IsName(path, name)
  {
    var i: nat :| LastFrom(path, i) && last == path[i..];
    assert |path| - i > 15 ==> last[..15] == path[i..i + 15];
  }

  /** The address space of was has been given up for that of now; no other page changed hands. */
  ghost predicate Replaced(use0: map<nat, Use>, free0: seq<nat>, ram0: seq<Page>, use: map<nat, Use>, free: seq<nat>,
        ram: seq<Page>, was: nat, now: nat) {
    && (forall n :: n in use <==> (n in use0 && n !in SpaceOf(use0, was)) || n in SpaceOf(use, now))
    && (forall n :: n in use0 && n !in SpaceOf(use0, was) ==> n in use && use[n] == use0[n])
    && SpaceOf(use0, was) <= AsSet(free) && AsSet(free) + use.Keys == AsSet(free0) + use0.Keys
    && SameSpaces(use0 - SpaceOf(use0, was), ram0, ram) && DataKept(use0 - SpaceOf(use0, was), ram0, ram)
  }

  lemma OldInNew(use0: map<nat, Use>, free: seq<nat>, use1: map<nat, Use>, free1: seq<nat>, d: nat, was: nat)
    requires MoreSpace(use0[d := Dir], free, use1, free1, d, 0, NUSER) && IsDir(use0, was) && d !in use0
    ensures IsDir(use1, was) && was != d && SpaceOf(use1, was) == SpaceOf(use0, was)
  {
    hide AsSet;
    forall n | n in use0 ensures n in use1 && use1[n] == use0[n] {
      assert n in use0[d := Dir] && use0[d := Dir][n] == use0[n];
    }
    forall n | n in use1 && n !in use0 ensures !Belongs(use1, was, n) {
    }
  }

  lemma ReplacedBy(use0: map<nat, Use>, free0: seq<nat>, ram0: seq<Page>, use1: map<nat, Use>, free1: seq<nat>,
        ram1: seq<Page>, use: map<nat, Use>, free: seq<nat>, ram: seq<Page>, was: nat, d: nat)
    requires free0 != [] && d == free0[0] && d !in use0 && was != d && SpaceOf(use0, d) == {}
    requires MoreSpace(use0[d := Dir], free0[1..], use1, free1, d, 0, NUSER) && DataKept(use0, ram0, ram1)
        && SameSpaces(use0, ram0, ram1)
    requires SpaceOf(use1, was) == SpaceOf(use0, was) && Released(use1, free1, ram1, use, free, ram, was)
    ensures Replaced(use0, free0, ram0, use, free, ram, was, d)
  {
    hide SameSpaces, AsSet, DataKept;
    var kept := use0 - SpaceOf(use0, was);
    ReplacedUse(use0, free0, use1, free1, use, free, was, d);
    SameSpacesFewer(use0, kept, ram0, ram1);
    SameSpacesTrans(kept, ram0, use, ram1, ram);
    DataKeptFewer(use0, kept, ram0, ram1);
    DataKeptTrans(kept, ram0, use, ram1, ram);
  }

  lemma ReplacedUse(use0: map<nat, Use>, free0: seq<nat>, use1: map<nat, Use>, free1: seq<nat>, use: map<nat, Use>,
        free: seq<nat>, was: nat, d: nat)
    requires free0 != [] && d == free0[0] && d !in use0 && was != d && SpaceOf(use0, d) == {}
    requires MoreSpace(use0[d := Dir], free0[1..], use1, free1, d, 0, NUSER)
    requires SpaceOf(use1, was) == SpaceOf(use0, was) && use == use1 - SpaceOf(use1, was)
        && AsSet(free) == AsSet(free1) + SpaceOf(use1, was)
    ensures forall n :: n in use <==> (n in use0 && n !in SpaceOf(use0, was)) || n in SpaceOf(use, d)
    ensures forall n :: n in use0 && n !in SpaceOf(use0, was) ==> n in use && use[n] == use0[n]
    ensures SpaceOf(use0, was) <= AsSet(free) && AsSet(free) + use.Keys == AsSet(free0) + use0.Keys
  {
    hide AsSet;
    assert free0 == [d] + free0[1..];
    AsSetPushed(d, free0[1..]);
    forall n | n in use0 ensures n in use1 && use1[n] == use0[n] && n !in SpaceOf(use0, d) {
      assert n in use0[d := Dir] && use0[d := Dir][n] == use0[n];
    }
    assert forall n :: n in SpaceOf(use1, was) ==> n in use1;
    assert use0[d := Dir].Keys == use0.Keys + {d};
  }

  lemma DataKeptFewer(use: map<nat, Use>, kept: map<nat, Use>, before: seq<Page>, after: seq<Page>)
    requires DataKept(use, before, after) && forall n :: n in kept ==> n in use && use[n] == kept[n]
    ensures DataKept(kept, before, after)
  {
  }

  lemma SameSpacesFewer(use: map<nat, Use>, kept: map<nat, Use>, before: seq<Page>, after: seq<Page>)
    requires SameSpaces(use, before, after) && forall n :: n in kept ==> n in use && use[n] == kept[n]
    ensures SameSpaces(kept, before, after)
  {
    hide At;
    forall d, v | IsDir(kept, d) && 0 <= v < NPAGE ensures At(after, d, v) == At(before, d, v) {
      assert IsDir(use, d);
    }
  }

  /** Freeing another address space does not touch the new one. */
  lemma SpaceSurvives(use1: map<nat, Use>, free1: seq<nat>, ram1: seq<Page>, use: map<nat, Use>, free: seq<nat>,
        ram: seq<Page>, was: nat, d: nat, g: nat, file: seq<byte>, phoff: u32, n: nat, top: nat, argv: seq<seq<byte>>,
        sp: nat)
    requires Released(use1, free1, ram1, use, free, ram, was) && IsDir(use1, d) && was != d && Users(ram1, use1)
               && Users(ram, use)
    requires StackPages(ram1, d, g) && ImageBelow(ram1, d, file, phoff, n, PGSIZE * (g + 1))
               && ArgStack(ram1, d, top, argv, sp)
    requires sp == FinalSp(top, argv) && top <= KERNBASE
    ensures IsDir(use, d) && StackPages(ram, d, g) && ImageBelow(ram, d, file, phoff, n, PGSIZE * (g + 1))
        && ArgStack(ram, d, top, argv, sp)
  {
    hide At, ByteAt, Users, ArgStack, FinalSp;
    assert !Belongs(use1, was, d);
    SpaceBytes(use1, ram1, use, ram, d);
    forall v: nat | v < NUSER
      ensures if v == g then At(ram, d, v) != 0 && !UserPage(ram, d, v)
              else if v <= g + 1 then UserPage(ram, d, v) else At(ram, d, v) == 0
    {
      assert At(ram, d, v) == At(ram1, d, v);
    }
    ArgStackKept(ram1, ram, d, top, argv, sp);
  }

  lemma SpaceBytes(use1: map<nat, Use>, ram1: seq<Page>, use: map<nat, Use>, ram: seq<Page>, d: nat)
    requires SameSpaces(use, ram1, ram) && DataKept(use, ram1, ram) && Users(ram, use) && IsDir(use, d)
    ensures SameBytes(ram1, ram, d)
  {
    hide At;
    forall a: nat | a < KERNBASE ensures ByteAt(ram, d, a) == ByteAt(ram1, d, a) {
      assert UserEntryOk(ram, use, d, a / PGSIZE);
    }
  }

  lemma ArgStackKept(before: seq<Page>, after: seq<Page>, d: nat, sz: nat, argv: seq<seq<byte>>, sp: nat)
    requires SameBytes(before, after, d) && ArgStack(before, d, sz, argv, sp) && sp == FinalSp(sz, argv)
               && sz <= KERNBASE
    ensures ArgStack(after, d, sz, argv, sp)
  {
    hide ByteAt, ToU32, Sp, StoredAt;
    SpFalls(sz, argv, 0, |argv|);
    assert Sp(sz, argv, 0) == sz by {
      NoStrings(before, d, sz, argv);
    }
    forall a: nat | a + 4 <= sz ensures UserWord(after, d, a) == UserWord(before, d, a) {
    }
    forall j: nat | j < |argv| ensures StoredAt(after, d, Sp(sz, argv, j + 1), CString(argv[j])) {
      SameStored(before, after, d, Sp(sz, argv, j + 1), CString(argv[j]));
    }
  }

  lemma SameStored(before: seq<Page>, after: seq<Page>, d: nat, at: int, src: seq<byte>)
    requires SameBytes(before, after, d) && StoredAt(before, d, at, src)
    ensures StoredAt(after, d, at, src)
  {
    hide ByteAt;
  }

  class Process {
    const mem: Memory
    const fs: FileSystem
    const kstack: nat         // the page of the kernel stack
    var pgdir: nat
    var sz: u32
    var eip: u32
    var esp: u32
    var name: seq<byte>
    var cwd: nat

    constructor (mem: Memory, fs: FileSystem, kstack: nat, pgdir: nat, cwd: nat, name: seq<byte>)
      ensures this.mem == mem && this.fs == fs && this.kstack == kstack && this.pgdir == pgdir && this.cwd == cwd
      ensures this.name == name && sz == PGSIZE && eip == 0 && esp == PGSIZE
    {
      this.mem, this.fs, this.kstack, this.pgdir, this.cwd, this.name := mem, fs, kstack, pgdir, cwd, name;
      sz, eip, esp := PGSIZE, 0, PGSIZE;
    }

    // ---------- the program file ----------

    /** ip is locked and its file has these bytes. */
    ghost predicate FileOpen(ip: nat, file: seq<byte>)
      reads fs, fs.cache, fs.cache.ide
    {
      && fs.Sound({}) && fs.Locked(ip) && fs.Room(2) && fs.Rec(ip).typ != Layout.T_DEV
      && fs.Inum(ip) < |fs.Files()| && fs.Files()[fs.Inum(ip)].bytes == file
      && |file| <= Layout.MAXFILE * Layout.BSIZE
    }

    /** readi of n bytes at off. */
    method Fetch(ip: nat, off: u32, n: u32, ghost file: seq<byte>) returns (r: int, s: seq<byte>)
      requires FileOpen(ip, file)
      modifies fs`icache, fs`ino, fs`owner, fs.cache, fs.cache.ide
      ensures FileOpen(ip, file) && Paths.Untouched(fs) && fs.icache == old(fs.icache)
      ensures |s| <= n && r == (if off > |file| || off + n >= 0x1_0000_0000 then -1 else |s|)
      ensures s != [] ==> off + |s| <= |file| && s == file[off..off + |s|]
      ensures n > 0 ==> (r == n <==> off + n <= |file|)
    {
      hide FileSystem.Base, FileSystem.D, FsState.FilesOf, FsInodes.Agree, FsState.FileBytes;
      fs.LockedFile(ip);
      r, s := fs.Readi(ip, off, n);
    }

    lemma FileBound(ip: nat, file: seq<byte>)
      requires FileOpen(ip, file)
      ensures |file| < 0x8000_0000
    {
      hide FileSystem.Sound, FileSystem.Files;
    }

    // ---------- a space under construction ----------

    /** d is the directory of a new address space; everything that was there before is as it was. */
    ghost predicate Fresh(use0: map<nat, Use>, free0: seq<nat>, ram0: seq<Page>, d: nat)
      reads mem
    {
      && mem.Sound({}) && IsDir(mem.use, d) && d !in use0 && |mem.ram| == |ram0| && SpaceOf(use0, d) == {}
      && free0 != [] && d == free0[0] && (forall n :: n in free0 ==> n !in use0)
      && MoreSpace(use0[d := Dir], free0[1..], mem.use, mem.free, d, 0, NUSER)
      && DataKept(use0, ram0, mem.ram) && SameSpaces(use0, ram0, mem.ram)
    }

    /** Everything is as it was. */
    ghost predicate Restored(use0: map<nat, Use>, free0: seq<nat>, ram0: seq<Page>)
      reads mem
    {
      && mem.Sound({}) && |mem.ram| == |ram0| && mem.use == use0 && AsSet(mem.free) == AsSet(free0)
      && DataKept(use0, ram0, mem.ram) && SameSpaces(use0, ram0, mem.ram)
    }

    /** freevm of the new space: nothing is left of it. */
    method Discard(d: nat, ghost use0: map<nat, Use>, ghost free0: seq<nat>, ghost ram0: seq<Page>)
      requires Fresh(use0, free0, ram0, d)
      modifies mem
      ensures Restored(use0, free0, ram0)
    {
      hide Tables, At, Chained, Users, Kernels, AsSet, Released, MoreSpace, SpaceOf;
      ghost var use1, free1, ram1 := mem.use, mem.free, mem.ram;
      mem.Freevm(d, {});
      assert {} - {d} == {};
      assert free0 == [d] + free0[1..];
      Undone(ram0, use0, free0, free0[1..], ram1, use1, free1, mem.ram, mem.use, mem.free, d, 0, NUSER);
    }

    /** allocuvm of the new space. */
    method Grow(d: nat, oldsz: u32, newsz: u32, ghost use0: map<nat, Use>, ghost free0: seq<nat>, ghost ram0: seq<Page>)
      returns (r: u32)
      requires Fresh(use0, free0, ram0, d) && Extent(mem.ram, d, PagesBelow(oldsz)) && oldsz <= KERNBASE
      modifies mem
      ensures Fresh(use0, free0, ram0, d)
      ensures newsz >= KERNBASE ==> r == 0
      ensures newsz < oldsz && newsz < KERNBASE ==> r == oldsz
      ensures r == newsz || newsz < oldsz ==> newsz < KERNBASE ==>
                var top := if newsz < oldsz then oldsz else newsz;
                && r == top && Extent(mem.ram, d, PagesBelow(top)) && SameBytes(old(mem.ram), mem.ram, d)
                && |mem.free| >= |old(mem.free)| - 2 * (PagesBelow(top) - PagesBelow(oldsz))
      ensures oldsz <= newsz < KERNBASE && r != newsz ==>
                r == 0 && |old(mem.free)| < 2 * (PagesBelow(newsz) - PagesBelow(oldsz))
    {
      hide Tables, At, Pool, Users, Kernels, AsSet, MoreSpace, SameSpaces, SpaceOf, Grown;
      ghost var use1, free1, ram1 := mem.use, mem.free, mem.ram;
      NothingAbove(ram1, d, PagesBelow(oldsz));
      r := mem.Allocuvm(d, oldsz, newsz, {});
      if oldsz <= newsz < KERNBASE {
        if r == newsz {
          FreshGrown(use0, free0, ram0, use1, free1, ram1, d, PagesBelow(oldsz), PagesBelow(newsz));
        } else {
          FreshTables(use0, free0, ram0, use1, free1, ram1, d);
        }
      }
    }

    lemma FreshGrown(use0: map<nat, Use>, free0: seq<nat>, ram0: seq<Page>, use1: map<nat, Use>, free1: seq<nat>,
          ram1: seq<Page>, d: nat, lo: nat, hi: nat)
      requires mem.Sound({}) && IsDir(mem.use, d) && d !in use0 && free0 != [] && lo <= hi <= NUSER
                 && SpaceOf(use0, d) == {}
      requires MoreSpace(use0[d := Dir], free0[1..], use1, free1, d, 0, NUSER) && DataKept(use0, ram0, ram1)
          && SameSpaces(use0, ram0, ram1)
      requires IsDir(use1, d) && Users(ram1, use1) && Grown(use1, free1, ram1, mem.use, mem.free, mem.ram, d, lo, hi)
          && Extent(ram1, d, lo)
      ensures MoreSpace(use0[d := Dir], free0[1..], mem.use, mem.free, d, 0, NUSER)
      ensures DataKept(use0, ram0, mem.ram) && SameSpaces(use0, ram0, mem.ram)
      ensures Extent(mem.ram, d, hi) && SameBytes(ram1, mem.ram, d)
    {
      hide Tables, At, Pool, Users, Kernels, AsSet;
      NothingAbove(ram1, d, lo);
      GrownBytes(use1, free1, ram1, mem.use, mem.free, mem.ram, d, lo, hi);
      GrownExtent(use1, ram1, mem.ram, d, lo, hi);
      MoreSpaceWider(use1, free1, mem.use, mem.free, d, lo, hi);
      MoreSpaceTrans(use0[d := Dir], free0[1..], use1, free1, mem.use, mem.free, d, 0, NUSER);
      DataKeptTrans(use0, ram0, use1, ram1, mem.ram);
      forall c, v | IsDir(use0, c) && 0 <= v < NPAGE ensures At(mem.ram, c, v) == At(ram0, c, v) {
        assert IsDir(use0[d := Dir], c) && IsDir(use1, c);
      }
    }

    lemma FreshTables(use0: map<nat, Use>, free0: seq<nat>, ram0: seq<Page>, use1: map<nat, Use>, free1: seq<nat>,
          ram1: seq<Page>, d: nat)
      requires d !in use0 && free0 != []
      requires MoreSpace(use0[d := Dir], free0[1..], use1, free1, d, 0, NUSER) && DataKept(use0, ram0, ram1)
          && SameSpaces(use0, ram0, ram1)
      requires MoreTables(use1, free1, mem.use, mem.free, d) && DataKept(use1, ram1, mem.ram)
                 && SameSpaces(use1, ram1, mem.ram)
      ensures MoreSpace(use0[d := Dir], free0[1..], mem.use, mem.free, d, 0, NUSER)
      ensures DataKept(use0, ram0, mem.ram) && SameSpaces(use0, ram0, mem.ram)
    {
      hide SameSpaces, AsSet;
      MoreSpaceWider(use1, free1, mem.use, mem.free, d, 0, 0);
      MoreSpaceTrans(use0[d := Dir], free0[1..], use1, free1, mem.use, mem.free, d, 0, NUSER);
      forall n | n in use0 ensures n in use1 && use1[n] == use0[n] {
        assert n in use0[d := Dir] && use0[d := Dir][n] == use0[n];
      }
      DataKeptTrans(use0, ram0, use1, ram1, mem.ram);
      SameSpacesTrans(use0, ram0, use1, ram1, mem.ram);
    }

    /** Bytes written to the new space leave it fresh. */
    lemma FreshWritten(use0: map<nat, Use>, free0: seq<nat>, ram0: seq<Page>, ram1: seq<Page>, d: nat, at: nat,
          src: seq<byte>)
      requires d !in use0 && free0 != [] && SpaceOf(use0, d) == {}
      requires MoreSpace(use0[d := Dir], free0[1..], mem.use, mem.free, d, 0, NUSER) && DataKept(use0, ram0, ram1)
          && SameSpaces(use0, ram0, ram1)
      requires SameSpaces(mem.use, ram1, mem.ram) && Written(mem.use, ram1, mem.ram, d, at, src)
      ensures DataKept(use0, ram0, mem.ram) && SameSpaces(use0, ram0, mem.ram)
    {
      hide SameSpaces, AsSet, ByteAt;
      forall n | n in use0 ensures n in mem.use && mem.use[n] == use0[n] && !(use0[n].User? && use0[n].dir == d) {
        assert n in use0[d := Dir] && use0[d := Dir][n] == use0[n];
        assert n !in SpaceOf(use0, d);
      }
      SameSpacesTrans(use0, ram0, mem.use, ram1, mem.ram);
    }

    // ---------- loading ----------

    /** The bytes readi finds, into the user page at va: all n of them, or fewer and a failure. */
    method LoadPage(d: nat, va: u32, ip: nat, off: u32, n: u32, ghost file: seq<byte>, ghost pages: nat,
          ghost use0: map<nat, Use>, ghost free0: seq<nat>, ghost ram0: seq<Page>)
      returns (ok: bool, ghost got: seq<byte>)
      requires FileOpen(ip, file) && Fresh(use0, free0, ram0, d) && Extent(mem.ram, d, pages)
      requires va % PGSIZE == 0 && 0 < n <= PGSIZE && va / PGSIZE < pages <= NUSER
      modifies mem`ram, fs`icache, fs`ino, fs`owner, fs.cache, fs.cache.ide
      ensures FileOpen(ip, file) && Paths.Untouched(fs) && fs.icache == old(fs.icache)
      ensures Fresh(use0, free0, ram0, d) && Extent(mem.ram, d, pages)
      ensures Written(mem.use, old(mem.ram), mem.ram, d, va, got)
      ensures ok <==> off + n <= |file|
      ensures ok ==> got == file[off..off + n]
    {
      hide Tables, At, Chained, Users, Kernels, AsSet, MoreSpace, SameSpaces, SpaceOf, Written,
           Process.FileOpen, DataKept;
      ghost var ram1 := mem.ram;
      UserPageMapped(ram1, mem.use, d, va / PGSIZE);
      var t, j := mem.ReadWalk(d, va);
      EntryHasMemory(mem.ram, mem.use, t, d, va / PGSIZE);
      var pa := Target(WordAt(mem.ram, t, j));
      var r, s := Fetch(ip, off, n, file);
      got := s;
      mem.Store(pa, 0, s, {});
      FreshWritten(use0, free0, ram0, ram1, d, va, s);
      ExtentKept(mem.use, ram1, mem.ram, d, pages);
      return r == n, s;
    }

    /** size bytes of the file from offset, at addr, page by page.  The complaints about an
        unaligned address and a missing table are never reached. */
    method Loaduvm(d: nat, addr: u32, ip: nat, offset: u32, size: u32, ghost file: seq<byte>, ghost pages: nat,
          ghost use0: map<nat, Use>, ghost free0: seq<nat>, ghost ram0: seq<Page>)
      returns (r: int)
      requires FileOpen(ip, file) && Fresh(use0, free0, ram0, d) && Extent(mem.ram, d, pages)
      requires addr % PGSIZE == 0 && addr + size <= PGSIZE * pages && pages <= NUSER
      modifies mem`ram, fs`icache, fs`ino, fs`owner, fs.cache, fs.cache.ide
      ensures FileOpen(ip, file) && Paths.Untouched(fs) && fs.icache == old(fs.icache)
      ensures Fresh(use0, free0, ram0, d) && Extent(mem.ram, d, pages)
      ensures r == if size == 0 || offset + size <= |file| then 0 else -1
      ensures r == 0 ==> Written(mem.use, old(mem.ram), mem.ram, d, addr, Piece(file, offset, size))
    {
      hide Tables, At, Pool, Users, Kernels, AsSet, MoreSpace, SameSpaces, SpaceOf, Written, Process.FileOpen,
           Process.Fresh, Extent, Piece;
      var i := 0;
      ghost var ram1, k: nat := mem.ram, 0;
      FileBound(ip, file);
      NoPiece(mem.use, ram1, d, addr, file, offset);
      while i < size
        invariant i % PGSIZE == 0 && k == (if i < size then i else size) && (k > 0 ==> offset + k <= |file|)
        invariant FileOpen(ip, file) && Paths.Untouched(fs) && fs.icache == old(fs.icache) && mem.use == old(mem.use)
        invariant Fresh(use0, free0, ram0, d) && Extent(mem.ram, d, pages)
        invariant Written(mem.use, ram1, mem.ram, d, addr, Piece(file, offset, k))
      {
        var n := if size - i < PGSIZE then size - i else PGSIZE;
        ghost var mid := mem.ram;
        var ok, got := LoadPage(d, addr + i, ip, offset + i, n, file, pages, use0, free0, ram0);
        if !ok {
          return -1;
        }
        NextPiece(mem.use, ram1, mid, mem.ram, d, addr, file, offset, k, n);
        k := k + n;
        i := i + PGSIZE;
      }
      r := 0;
    }

    /** The first i program headers are loaded into d. */
    ghost predicate Loaded(use0: map<nat, Use>, free0: seq<nat>, ram0: seq<Page>, d: nat, file: seq<byte>, phoff: u32,
          i: nat, size: nat)
      reads mem
    {
      && Fresh(use0, free0, ram0, d) && size < KERNBASE && Extent(mem.ram, d, PagesBelow(size))
      && SizeAfter(file, phoff, i) == Some(size) && IsImage(mem.ram, d, file, phoff, i)
      && |mem.free| >= |free0| - 67 - 2 * PagesBelow(size)
    }

    /** One turn of exec's loop over program headers. */
    method LoadHeader(d: nat, ip: nat, off: u32, size: u32, ghost file: seq<byte>, ghost phoff: u32, ghost i: nat,
          ghost use0: map<nat, Use>, ghost free0: seq<nat>, ghost ram0: seq<Page>)
      returns (ok: bool, newsize: u32)
      requires FileOpen(ip, file) && Loaded(use0, free0, ram0, d, file, phoff, i, size)
          && off == (phoff + PROGHDR_SIZE * i) % 0x1_0000_0000
      modifies mem, fs`icache, fs`ino, fs`owner, fs.cache, fs.cache.ide
      ensures FileOpen(ip, file) && Paths.Untouched(fs) && fs.icache == old(fs.icache)
      ensures ok ==> Loaded(use0, free0, ram0, d, file, phoff, i + 1, newsize)
      ensures !ok ==> Fresh(use0, free0, ram0, d) && Hopeless(file, phoff, i + 1, |free0|)
    {
      hide Process.FileOpen, Process.Fresh, Extent, IsImage, DecodeProg, SizeAfter, Hopeless, PagesBelow;
      FileBound(ip, file);
      var r, s := Fetch(ip, off, PROGHDR_SIZE, file);
      if r != PROGHDR_SIZE {
        Refused(file, phoff, i, |free0|);
        return false, size;
      }
      var h := DecodeProg(s);
      if h.typ != ELF_PROG_LOAD {
        ImageSkips(mem.ram, d, file, phoff, i);
        SizeStep(file, phoff, i);
        return true, size;
      }
      ok, newsize := LoadSegment(d, ip, h, size, file, phoff, i, use0, free0, ram0);
    }

    /** ... for a header that asks to be loaded. */
    method LoadSegment(d: nat, ip: nat, h: ProgHdr, size: u32, ghost file: seq<byte>, ghost phoff: u32, ghost i: nat,
          ghost use0: map<nat, Use>, ghost free0: seq<nat>, ghost ram0: seq<Page>)
      returns (ok: bool, newsize: u32)
      requires FileOpen(ip, file) && Loaded(use0, free0, ram0, d, file, phoff, i, size)
      requires Prog(file, phoff, i) == Some(h) && h.typ == ELF_PROG_LOAD
      modifies mem, fs`icache, fs`ino, fs`owner, fs.cache, fs.cache.ide
      ensures FileOpen(ip, file) && Paths.Untouched(fs) && fs.icache == old(fs.icache)
      ensures ok ==> Loaded(use0, free0, ram0, d, file, phoff, i + 1, newsize)
      ensures !ok ==> Fresh(use0, free0, ram0, d) && Hopeless(file, phoff, i + 1, |free0|)
    {
      hide Process.FileOpen, Process.Fresh, Extent, IsImage, Written, SameBytes, SizeAfter, Prog, Hopeless,
           PagesBelow;
      Refused(file, phoff, i, |free0|);
      SizeStep(file, phoff, i);
      if h.memsz < h.filesz || (h.vaddr + h.memsz) % 0x1_0000_0000 < h.vaddr {
        return false, size;
      }
      ghost var ram1, free1 := mem.ram, mem.free;
      newsize := Grow(d, size, h.vaddr + h.memsz, use0, free0, ram0);
      if newsize == 0 || h.vaddr % PGSIZE != 0 {
        return false, size;
      }
      ghost var ram2 := mem.ram;
      PagesCover(newsize);
      var l := Loaduvm(d, h.vaddr, ip, h.off, h.filesz, file, PagesBelow(newsize), use0, free0, ram0);
      if l < 0 {
        return false, size;
      }
      ImageLoads(ram1, ram2, mem.use, mem.ram, d, file, phoff, i, h);
      return true, newsize;
    }

    /** The header check, setupkvm, and the loop over program headers. */
    method LoadProgram(ip: nat, ghost file: seq<byte>) returns (d: nat, size: u32, entry: u32)
      requires FileOpen(ip, file) && mem.Sound({})
      modifies mem, fs`icache, fs`ino, fs`owner, fs.cache, fs.cache.ide
      ensures FileOpen(ip, file) && Paths.Untouched(fs) && fs.icache == old(fs.icache)
      ensures d == 0 ==> Restored(old(mem.use), old(mem.free), old(mem.ram))
      ensures d == 0 ==>
                Header(file).None? || Hopeless(file, Header(file).value.phoff, Header(file).value.phnum,
                |old(mem.free)|)
      ensures d != 0 ==>
                && Header(file).Some? && entry == Header(file).value.entry
                && Loaded(old(mem.use), old(mem.free), old(mem.ram), d, file, Header(file).value.phoff,
                    Header(file).value.phnum, size)
    {
      hide Process.FileOpen, Process.Fresh, Process.Restored, Extent, IsImage, DecodeElf, SizeAfter, Hopeless,
           PagesBelow, Prog, Memory.Sound, AsSet;
      ghost var use0, free0, ram0 := mem.use, mem.free, mem.ram;
      d, size, entry := 0, 0, 0;
      NothingDone();
      var r, s := Fetch(ip, 0, ELFHDR_SIZE, file);
      if r != ELFHDR_SIZE {
        return;
      }
      var elf := DecodeElf(s);
      if elf.magic != ELF_MAGIC {
        return;
      }
      d := NewSpace(file, elf.phoff);
      if d == 0 {
        HopelessLater(file, elf.phoff, 0, elf.phnum, |free0|);
        return;
      }
      entry := elf.entry;
      var i, off := 0, elf.phoff;
      while i < elf.phnum
        invariant i <= elf.phnum && off == (elf.phoff + PROGHDR_SIZE * i) % 0x1_0000_0000
        invariant FileOpen(ip, file) && Paths.Untouched(fs) && fs.icache == old(fs.icache)
        invariant Loaded(use0, free0, ram0, d, file, elf.phoff, i, size)
      {
        var ok;
        ok, size := LoadHeader(d, ip, off, size, file, elf.phoff, i, use0, free0, ram0);
        if !ok {
          HopelessLater(file, elf.phoff, i + 1, elf.phnum, |free0|);
          Discard(d, use0, free0, ram0);
          return 0, 0, 0;
        }
        i, off := i + 1, (off + PROGHDR_SIZE) % 0x1_0000_0000;
      }
    }

    lemma NothingDone()
      requires mem.Sound({})
      ensures Restored(mem.use, mem.free, mem.ram)
    {
      hide Good;
    }

    /** setupkvm, for a program still to be loaded. */
    method NewSpace(ghost file: seq<byte>, ghost phoff: u32) returns (d: nat)
      requires mem.Sound({})
      modifies mem
      ensures d == 0 ==>
                Restored(old(mem.use), old(mem.free), old(mem.ram)) && Hopeless(file, phoff, 0, |old(mem.free)|)
      ensures d != 0 ==> Loaded(old(mem.use), old(mem.free), old(mem.ram), d, file, phoff, 0, 0)
    {
      hide Tables, At, Chained, Users, Kernels, AsSet, MoreSpace, SameSpaces, SpaceOf, KernelMapped;
      ghost var use0, free0, ram0 := mem.use, mem.free, mem.ram;
      d := mem.Setupkvm();
      if d != 0 {
        NothingOf(ram0, use0, d);
        MoreSpaceWider(use0[d := Dir], free0[1..], mem.use, mem.free, d, 0, 0);
        EmptyImage(mem.ram, d, file, phoff);
      }
    }

    // ---------- the argument stack ----------

    /** The new space with its stack: g is the guard page, and below the stack page user memory
        is still the image of the program. */
    ghost predicate Stacked(use0: map<nat, Use>, free0: seq<nat>, ram0: seq<Page>, d: nat, g: nat, file: seq<byte>,
          phoff: u32, n: nat)
      reads mem
    {
      && Fresh(use0, free0, ram0, d) && g + 2 < NUSER && StackPages(mem.ram, d, g)
      && ImageBelow(mem.ram, d, file, phoff, n, PGSIZE * (g + 1))
    }

    /** Two more pages, the lower one out of the user's reach. */
    method MakeStack(d: nat, size: u32, ghost file: seq<byte>, ghost phoff: u32, ghost n: nat,
          ghost use0: map<nat, Use>, ghost free0: seq<nat>, ghost ram0: seq<Page>)
      returns (top: u32)
      requires Loaded(use0, free0, ram0, d, file, phoff, n, size)
      modifies mem
      ensures top == 0 ==> Fresh(use0, free0, ram0, d)
      ensures top == 0 ==> PagesBelow(size) + 2 >= NUSER || |free0| < 68 + 2 * (PagesBelow(size) + 2)
      ensures top != 0 ==>
                top == PGSIZE * (PagesBelow(size) + 2)
                && Stacked(use0, free0, ram0, d, PagesBelow(size), file, phoff, n)
    {
      hide Process.Fresh, UserPage, PgRoundUp, PagesBelow, Extent, IsImage, SameBytes, SizeAfter;
      var sz := PgRoundUp(size);
      RoundedUp(size);
      ghost var g, ram1 := PagesBelow(size), mem.ram;
      top := Grow(d, sz, sz + 2 * PGSIZE, use0, free0, ram0);
      if top != 0 {
        Guard(d, top, g, ram1, file, phoff, n, use0, free0, ram0);
      }
    }

    /** Takes the guard page, the lower of the two below sz, from the user. */
    method Guard(d: nat, top: u32, ghost g: nat, ghost ram1: seq<Page>, ghost file: seq<byte>, ghost phoff: u32,
          ghost n: nat, ghost use0: map<nat, Use>, ghost free0: seq<nat>, ghost ram0: seq<Page>)
      requires Fresh(use0, free0, ram0, d) && Extent(mem.ram, d, g + 2) && top == PGSIZE * (g + 2) && g + 2 < NUSER
      requires IsImage(ram1, d, file, phoff, n) && SameBytes(ram1, mem.ram, d)
      modifies mem`ram
      ensures Stacked(use0, free0, ram0, d, g, file, phoff, n)
    {
      hide Tables, At, Chained, Users, Kernels, AsSet, MoreSpace, SpaceOf, SameSpaces, Process.Fresh, DataKept,
           UserPage;
      ghost var ram2 := mem.ram;
      assert UserPage(ram2, d, g);
      PresentNonzero(ram2, d, g);
      FreshHas(use0, free0, ram0, d);
      FreshFacts(use0, free0, ram0, d);
      mem.Clearpteu(d, top - 2 * PGSIZE, {});
      assert (top - 2 * PGSIZE) / PGSIZE == g;
      GuardSet(use0, ram0, mem.use, ram1, ram2, mem.ram, d, g, file, phoff, n);
      FreshGuarded(use0, free0, ram0, ram2, d);
    }

    lemma FreshGuarded(use0: map<nat, Use>, free0: seq<nat>, ram0: seq<Page>, ram1: seq<Page>, d: nat)
      requires mem.Sound({}) && IsDir(mem.use, d) && d !in use0 && |mem.ram| == |ram0| && SpaceOf(use0, d) == {}
      requires free0 != [] && d == free0[0] && (forall n :: n in free0 ==> n !in use0)
      requires MoreSpace(use0[d := Dir], free0[1..], mem.use, mem.free, d, 0, NUSER)
      requires DataKept(use0, ram0, ram1) && DataKept(mem.use, ram1, mem.ram) && SameSpaces(use0, ram0, mem.ram)
      ensures Fresh(use0, free0, ram0, d)
    {
      hide Good, AsSet, SpaceOf, SameSpaces;
      forall n | n in use0 ensures n in mem.use && mem.use[n] == use0[n] {
        assert n in use0[d := Dir] && use0[d := Dir][n] == use0[n];
      }
      DataKeptTrans(use0, ram0, mem.use, ram1, mem.ram);
    }

    lemma FreshHas(use0: map<nat, Use>, free0: seq<nat>, ram0: seq<Page>, d: nat)
      requires Fresh(use0, free0, ram0, d)
      ensures d !in use0 && forall n :: n in use0 ==> n in mem.use && mem.use[n] == use0[n]
    {
      hide Good, AsSet, SpaceOf, SameSpaces;
      forall n | n in use0 ensures n in mem.use && mem.use[n] == use0[n] {
        assert n in use0[d := Dir] && use0[d := Dir][n] == use0[n];
      }
    }

    /** copyout below everything pushed so far, at address at or, if that is negative, wrapped
        around: it succeeds exactly if all of it lies in the stack page. */
    method Push(d: nat, sp: u32, ghost at: int, src: seq<byte>, ghost g: nat, ghost file: seq<byte>, ghost phoff: u32,
          ghost n: nat, ghost use0: map<nat, Use>, ghost free0: seq<nat>, ghost ram0: seq<Page>)
      returns (r: int)
      requires Stacked(use0, free0, ram0, d, g, file, phoff, n) && src != [] && sp == at % 0x1_0000_0000
      requires -0x200_0000 <= at && PGSIZE * (g + 1) - 4 < at + |src| <= PGSIZE * (g + 2)
      modifies mem`ram
      ensures r == if at >= PGSIZE * (g + 1) then 0 else -1
      ensures r == 0 ==>
                Stacked(use0, free0, ram0, d, g, file, phoff, n) && Written(mem.use, old(mem.ram), mem.ram, d, at, src)
      ensures r != 0 ==> Fresh(use0, free0, ram0, d)
    {
      hide Tables, At, Chained, Users, Kernels, AsSet, MoreSpace, SpaceOf, SameSpaces, Written, Process.Fresh,
           UserPage, DataKept, Walkable, PagesSpanned, StackPages, ImageBelow;
      ghost var ram1 := mem.ram;
      FreshFacts(use0, free0, ram0, d);
      CanWalk(ram1, mem.use, mem.data, d, g, at, |src|);
      ghost var done;
      r, done := mem.Copyout(d, sp, src, {});
      CopyEnds(ram1, mem.use, mem.data, d, g, at, sp, |src|, done);
      FreshAgain(use0, free0, ram0, ram1, d, sp, src[..done]);
      if r == 0 {
        assert src[..done] == src;
        StackKept(mem.use, ram1, mem.ram, d, g, at, src, file, phoff, n);
      }
    }

    lemma FreshFacts(use0: map<nat, Use>, free0: seq<nat>, ram0: seq<Page>, d: nat)
      requires Fresh(use0, free0, ram0, d)
      ensures mem.Sound({}) && IsDir(mem.use, d) && Users(mem.ram, mem.use)
                && Kernels(mem.ram, mem.use, mem.data, {}) && Tables(mem.ram, mem.use)
      ensures (forall n :: n in mem.use ==> 0 < n) && d !in use0 && |mem.ram| == |ram0| && SpaceOf(use0, d) == {}
      ensures free0 != [] && d == free0[0] && (forall n :: n in free0 ==> n !in use0)
      ensures MoreSpace(use0[d := Dir], free0[1..], mem.use, mem.free, d, 0, NUSER)
      ensures DataKept(use0, ram0, mem.ram) && SameSpaces(use0, ram0, mem.ram)
    {
      hide Tables, Users, Kernels, AsSet, MoreSpace, SpaceOf, SameSpaces, Chained;
    }

    lemma FreshAgain(use0: map<nat, Use>, free0: seq<nat>, ram0: seq<Page>, ram1: seq<Page>, d: nat, at: nat,
          src: seq<byte>)
      requires mem.Sound({}) && IsDir(mem.use, d) && d !in use0 && |mem.ram| == |ram0| && SpaceOf(use0, d) == {}
      requires free0 != [] && d == free0[0] && (forall n :: n in free0 ==> n !in use0)
      requires MoreSpace(use0[d := Dir], free0[1..], mem.use, mem.free, d, 0, NUSER)
      requires DataKept(use0, ram0, ram1) && SameSpaces(use0, ram0, ram1)
      requires SameSpaces(mem.use, ram1, mem.ram) && Written(mem.use, ram1, mem.ram, d, at, src)
      ensures Fresh(use0, free0, ram0, d)
    {
      hide Good, AsSet, MoreSpace, SpaceOf, SameSpaces;
      FreshWritten(use0, free0, ram0, ram1, d, at, src);
    }

    /** The strings, pushed from the top of the stack down, while there are at most MAXARG and
        they fit. */
    method PushStrings(d: nat, top: u32, argv: seq<seq<byte>>, ghost g: nat, ghost file: seq<byte>, ghost phoff: u32,
          ghost n: nat, ghost use0: map<nat, Use>, ghost free0: seq<nat>, ghost ram0: seq<Page>)
      returns (ok: bool, sp: u32, ptrs: seq<u32>)
      requires Stacked(use0, free0, ram0, d, g, file, phoff, n) && top == PGSIZE * (g + 2) && ArgsReach(top, argv)
      modifies mem`ram
      ensures ok <==> |argv| <= MAXARG && Sp(top, argv, |argv|) >= PGSIZE * (g + 1)
      ensures ok ==>
                && Stacked(use0, free0, ram0, d, g, file, phoff, n) && Strings(mem.ram, d, top, argv, |argv|)
                && sp == Sp(top, argv, |argv|) && sp <= top && |ptrs| == |argv| && (forall j: nat :: j < |argv| ==>
                    ptrs[j] == Sp(top, argv, j + 1))
      ensures !ok ==> Fresh(use0, free0, ram0, d)
    {
      hide Process.Stacked, Strings, Written, Sp, Process.Fresh, ArgsReach;
      var argc := 0;
      sp, ptrs := top, [];
      NoStrings(mem.ram, d, top, argv);
      StackedIsFresh(use0, free0, ram0, d, g, file, phoff, n);
      while argc < |argv|
        invariant argc <= |argv| && argc <= MAXARG && sp == Sp(top, argv, argc) && PGSIZE * (g + 1) <= sp <= top
        invariant Stacked(use0, free0, ram0, d, g, file, phoff, n) && Strings(mem.ram, d, top, argv, argc)
        invariant Fresh(use0, free0, ram0, d)
        invariant |ptrs| == argc && forall j: nat :: j < argc ==> ptrs[j] == Sp(top, argv, j + 1)
      {
        if argc >= MAXARG {
          return false, sp, ptrs;
        }
        ghost var at, ram1 := Sp(top, argv, argc + 1), mem.ram;
        NextSp(top, argv, argc, sp);
        sp := (sp - (|argv[argc]| + 1)) % 0x1_0000_0000 / 4 * 4;
        var r := Push(d, sp, at, CString(argv[argc]), g, file, phoff, n, use0, free0, ram0);
        if r < 0 {
          SpFalls(top, argv, argc + 1, |argv|);
          return false, sp, ptrs;
        }
        StackedIsFresh(use0, free0, ram0, d, g, file, phoff, n);
        StringPushed(mem.use, ram1, mem.ram, d, top, argv, argc);
        ptrs := ptrs + [sp];
        argc := argc + 1;
      }
      ok := true;
    }

    lemma StackedIsFresh(use0: map<nat, Use>, free0: seq<nat>, ram0: seq<Page>, d: nat, g: nat, file: seq<byte>,
          phoff: u32, n: nat)
      requires Stacked(use0, free0, ram0, d, g, file, phoff, n)
      ensures Fresh(use0, free0, ram0, d) && g + 2 < NUSER
    {
      hide Process.Fresh;
    }

    /** The guard and stack pages, the strings, and ustack; or the space is freed again. */
    method BuildStack(d: nat, size: u32, argv: seq<seq<byte>>, ghost file: seq<byte>, ghost phoff: u32, ghost n: nat,
          ghost use0: map<nat, Use>, ghost free0: seq<nat>, ghost ram0: seq<Page>)
      returns (ok: bool, top: u32, sp: u32)
      requires Loaded(use0, free0, ram0, d, file, phoff, n, size) && ArgsReach(PGSIZE * (PagesBelow(size) + 2), argv)
      modifies mem
      ensures ok ==>
                && Stacked(use0, free0, ram0, d, PagesBelow(size), file, phoff, n)
                && top == PGSIZE * (PagesBelow(size) + 2)
                && sp == FinalSp(top, argv) && ArgStack(mem.ram, d, top, argv, sp)
      ensures ok ==> ArgsFit(size, argv)
      ensures !ok ==> Restored(use0, free0, ram0) && (!ArgsFit(size, argv) || |free0| < 68 + 2 * (PagesBelow(size) + 2))
    {
      hide Process.Stacked, Strings, Written, Sp, Process.Fresh, Process.Loaded, PagesBelow, ArgStack, IsFrame,
           ArgsReach, FromWords, Process.Restored, StoredAt;
      ok, sp := false, 0;
      top := MakeStack(d, size, file, phoff, n, use0, free0, ram0);
      if top == 0 {
        Discard(d, use0, free0, ram0);
        return;
      }
      ghost var g := PagesBelow(size);
      var ptrs;
      ok, sp, ptrs := PushStrings(d, top, argv, g, file, phoff, n, use0, free0, ram0);
      if !ok {
        FinalBelow(top, argv);
        Discard(d, use0, free0, ram0);
        return;
      }
      StackedIsFresh(use0, free0, ram0, d, g, file, phoff, n);
      var argc := |argv|;
      var ustack: seq<u32> := [0xFFFF_FFFF, argc, sp - (argc + 1) * 4] + ptrs + [0];
      ghost var at, ram1 := FinalSp(top, argv), mem.ram;
      FrameOf(top, argv, sp, ptrs);
      sp := sp - (3 + argc + 1) * 4;
      var r := Push(d, sp, at, FromWords(ustack), g, file, phoff, n, use0, free0, ram0);
      if r < 0 {
        ok := false;
        Discard(d, use0, free0, ram0);
        return;
      }
      FramePushed(mem.use, ram1, mem.ram, d, top, argv, sp, ustack);
    }

    // ---------- exec ----------

    /** What the path stands for. */
    ghost function Found(path: seq<byte>): Option<nat>
      reads this`cwd, fs, fs.cache, fs.cache.ide
    {
      Paths.Target(fs.Files(), Paths.Start(fs, path, cwd), path, false)
    }

    /** The path does not name a device, and if it names a program its arguments reach no address
        without a page table. */
    ghost predicate Takes(path: seq<byte>, argv: seq<seq<byte>>)
      reads this, fs, fs.cache, fs.cache.ide
    {
      Found(path).Some? && Found(path).value < |fs.Files()| ==>
        && fs.Files()[Found(path).value].typ != Layout.T_DEV
        && ArgsTaken(fs.Files()[Found(path).value].bytes, argv)
    }

    ghost predicate CanExec(path: seq<byte>, argv: seq<seq<byte>>)
      reads this, mem, fs, fs.cache, fs.cache.ide
    {
      && mem.Sound({}) && IsDir(mem.use, pgdir)
      && Paths.CanResolve(fs, cwd) && |fs.refs| + 2 <= FsInodes.NINODE && 0 !in path && Takes(path, argv)
    }

    /** The program's inode, found and locked. */
    method OpenProgram(path: seq<byte>) returns (ip: Option<nat>)
      requires Paths.CanResolve(fs, cwd) && |fs.refs| + 2 <= FsInodes.NINODE && 0 !in path
      requires Found(path).Some? && Found(path).value < |fs.Files()| ==>
                 fs.Files()[Found(path).value].typ != Layout.T_DEV
      modifies fs`sb, fs`icache, fs`ino, fs`owner, fs`refs, fs`entry, fs.cache, fs.cache.ide
      ensures fs.Sound({}) && Paths.Untouched(fs) && FsInodes.Handles(old(fs.icache), fs.icache)
      ensures ip.None? <==> old(Found(path)).None?
      ensures ip.None? ==> fs.refs == old(fs.refs)
      ensures ip.Some? ==>
                && old(Found(path)).value < |old(fs.Files())| && fs.Inum(ip.value) == old(Found(path)).value
                && FileOpen(ip.value, old(fs.Files())[old(Found(path)).value].bytes)
                && fs.refs == old(fs.refs) + multiset{fs.Inum(ip.value)} && fs.Ino(fs.Inum(ip.value)).nlink != 0
    {
      hide FileSystem.Base, FileSystem.D, FsState.FilesOf, FsInodes.Agree, FsState.FileBytes,
           Directories.TreeOk, Paths.Target, FsInodes.Handles;
      ghost var before, F := fs.icache, fs.Files();
      var nm;
      ip, nm := Paths.Namex(fs, path, cwd, false);
      if ip.Some? {
        Paths.RefLinked(fs, ip.value);
        Paths.LockIt(fs, ip.value, before);
        fs.FileFields(fs.Inum(ip.value));
        fs.LockedFile(ip.value);
      }
    }

    /** Unlocks the program's inode and puts it back. */
    method PutProgram(ip: nat, ghost file: seq<byte>, ghost before: seq<FsInodes.Inode>, ghost refs0: multiset<nat>)
      requires FileOpen(ip, file) && FsInodes.Handles(before, fs.icache) && Paths.Counted(before, refs0)
      requires fs.refs == refs0 + multiset{fs.Inum(ip)} && fs.Ino(fs.Inum(ip)).nlink != 0
      modifies fs`sb, fs`icache, fs`ino, fs`owner, fs`refs, fs`entry, fs.cache, fs.cache.ide
      ensures fs.Sound({}) && Paths.Untouched(fs) && FsInodes.Handles(before, fs.icache) && fs.refs == refs0
    {
      hide FileSystem.Base, FileSystem.D, FsState.FilesOf, FsInodes.Agree, FsState.FileBytes, FsInodes.Handles,
           Paths.Counted;
      Paths.PutExtra(fs, ip, before, refs0);
    }

    /** The process is set up to run the program, from its entry, in its own new address space. */
    ghost predicate Running(file: seq<byte>, argv: seq<seq<byte>>)
      requires Runnable(file, argv)
      reads this, mem
    {
      var h := Header(file).value;
      var g := PagesBelow(SizeAfter(file, h.phoff, h.phnum).value);
      && mem.Sound({}) && IsDir(mem.use, pgdir)
      && sz == PGSIZE * (g + 2) && eip == h.entry && esp == FinalSp(sz, argv)
      && StackPages(mem.ram, pgdir, g) && ImageBelow(mem.ram, pgdir, file, h.phoff, h.phnum, PGSIZE * (g + 1))
      && ArgStack(mem.ram, pgdir, sz, argv, esp)
    }

    /** The same from the bytes of the file: the process starts at the entry named at byte 24, with
        the program below its stack page, two pages above the highest end of a segment. */
    ghost predicate StartedFrom(file: seq<byte>)
      reads this, mem
    {
      && |file| >= 52 && eip == Le32(file, 24)
      && sz >= 2 * PGSIZE && ProgramInMemory(mem.ram, pgdir, file, sz - PGSIZE)
      && exists size: nat :: HighestEnd(file, ProgCount(file), size) && sz == PGSIZE * (PagesBelow(size) + 2)
    }

    lemma RunningMeansStarted(file: seq<byte>, argv: seq<seq<byte>>)
      requires Runnable(file, argv) && Running(file, argv)
      ensures StartedFrom(file)
    {
      hide Header, SizeAfter, ImageByte, ProgAt, Le32, ArgStack, StackPages, Memory.Sound, ByteAt, Covers, PagesBelow,
           HighestEnd;
      HeaderBytes(file);
      var h := Header(file).value;
      var n: nat := h.phnum;
      SizeIsHighestEnd(file, n);
      forall a: nat, i: nat | a < sz - PGSIZE && a < KERNBASE && LastCover(file, n, i, a)
        ensures Brought(ByteAt(mem.ram, pgdir, a), file, i, a)
      {
        LastCoverByte(file, n, i, a);
      }
      forall a: nat | a < sz - PGSIZE && a < KERNBASE && (forall i: nat :: i < n ==> !Covers(file, i, a))
        ensures ByteAt(mem.ram, pgdir, a) == 0
      {
        NoCoverByte(file, n, a);
      }
    }

    /** The last component of the path. */
    method LastName(path: seq<byte>) returns (last: seq<byte>)
      ensures exists i: nat :: LastFrom(path, i) && last == path[i..]
    {
      var i, s := 0, 0;
      while s < |path|
        invariant i <= s <= |path| && Directories.SLASH !in path[i..s] && (i > 0 ==> path[i - 1] == Directories.SLASH)
      {
        if path[s] == Directories.SLASH {
          i := s + 1;
        }
        s := s + 1;
      }
      assert path[i..s] == path[i..];
      assert LastFrom(path, i);
      last := path[i..];
    }

    /** The end of exec: name, address space, size, entry and stack pointer change together, and
        the old address space is freed. */
    method Commit(path: seq<byte>, argv: seq<seq<byte>>, d: nat, top: u32, sp: u32, entry: u32, ghost file: seq<byte>,
          ghost size: nat, ghost use0: map<nat, Use>, ghost free0: seq<nat>, ghost ram0: seq<Page>)
      requires Runnable(file, argv) && entry == Header(file).value.entry
      requires Some(size) == SizeAfter(file, Header(file).value.phoff, Header(file).value.phnum)
      requires Stacked(use0, free0, ram0, d, PagesBelow(size), file, Header(file).value.phoff, Header(file).value.phnum)
      requires top == PGSIZE * (PagesBelow(size) + 2) && sp == FinalSp(top, argv) && ArgStack(mem.ram, d, top, argv, sp)
      requires IsDir(use0, pgdir)
      modifies this, mem
      ensures Running(file, argv) && IsName(path, name) && cwd == old(cwd) && pgdir == d && d !in use0
      ensures Replaced(use0, free0, ram0, mem.use, mem.free, mem.ram, old(pgdir), pgdir)
    {
      hide SizeAfter, Header, ArgStack, PagesBelow, AsSet, Tables, At, Chained, Users, Kernels, MoreSpace,
           SpaceOf, SameSpaces, Released, Replaced;
      hide StackPages, ImageBelow, FinalSp, DataKept, IsName, UserPage, ByteAt, ArgsFit, Strings;
      ghost var g, h := PagesBelow(size), Header(file).value;
      var last := LastName(path);
      name := if |last| > 15 then last[..15] else last;
      NameCut(path, last, name);
      var oldpgdir := pgdir;
      pgdir, sz, eip, esp := d, top, entry, sp;
      ghost var use1, free1, ram1 := mem.use, mem.free, mem.ram;
      OldInNew(use0, free0[1..], use1, free1, d, oldpgdir);
      mem.Freevm(oldpgdir, {});
      assert {} - {oldpgdir} == {};
      ReplacedBy(use0, free0, ram0, use1, free1, ram1, mem.use, mem.free, mem.ram, oldpgdir, d);
      SpaceSurvives(use1, free1, ram1, mem.use, mem.free, mem.ram, oldpgdir, d, g, file, h.phoff, h.phnum, top, argv,
          sp);
    }

    lemma LoadedSize(use0: map<nat, Use>, free0: seq<nat>, ram0: seq<Page>, d: nat, file: seq<byte>, phoff: u32,
          i: nat, size: nat)
      requires Loaded(use0, free0, ram0, d, file, phoff, i, size)
      ensures SizeAfter(file, phoff, i) == Some(size)
    {
      hide SizeAfter, Process.Fresh;
    }

    /** exec: on -1 the process, its memory, every free page and every inode reference are as
        before; on 0 the process runs the program in a new address space, and exactly the pages
        of the old one have gone back to the free list.  It fails only for want of a file, for a
        program or arguments it cannot take, or of memory. */
    method Exec(path: seq<byte>, argv: seq<seq<byte>>) returns (r: int)
      requires CanExec(path, argv)
      modifies this, mem, fs`sb, fs`icache, fs`ino, fs`owner, fs`refs, fs`entry, fs.cache, fs.cache.ide
      ensures fs.Sound({}) && Paths.Untouched(fs) && FsInodes.Handles(old(fs.icache), fs.icache)
                && fs.refs == old(fs.refs)
      ensures r == 0 || r == -1
      ensures cwd == old(cwd) && (old(Found(path)).Some? ==> old(Found(path)).value < |old(fs.Files())|)
      ensures r == -1 ==>
                && Restored(old(mem.use), old(mem.free), old(mem.ram))
                && pgdir == old(pgdir) && sz == old(sz) && eip == old(eip) && esp == old(esp) && name == old(name)
      ensures r == -1 ==>
                || old(Found(path)).None?
                || var file := old(fs.Files())[old(Found(path)).value].bytes;
                   !Runnable(file, argv) || |old(mem.free)| < PagesEnough(file)
      ensures r == 0 ==>
                && old(Found(path)).Some?
                && var file := old(fs.Files())[old(Found(path)).value].bytes;
                   Runnable(file, argv) && Running(file, argv) && StartedFrom(file) && IsName(path, name)
      ensures r == 0 ==>
                && pgdir !in old(mem.use)
                && Replaced(old(mem.use), old(mem.free), old(mem.ram), mem.use, mem.free, mem.ram, old(pgdir), pgdir)
    {
      hide FileSystem.Sound, FileSystem.Files, Process.FileOpen, Process.Found, Process.Restored,
           FsInodes.Handles, Paths.CanResolve, Memory.Sound, IsDir;
      hide Process.Running, Process.StartedFrom;
      hide SizeAfter, Header, ArgsFit, ArgsReach, Process.Loaded, Process.Stacked, ArgStack, PagesBelow, AsSet,
          Paths.Counted;
      ghost var before, refs0, use0, free0, ram0 := fs.icache, fs.refs, mem.use, mem.free, mem.ram;
      Paths.CanResolveFacts(fs, cwd);
      NothingDone();
      var ip := OpenProgram(path);
      if ip.None? {
        return -1;
      }
      ghost var file := old(fs.Files())[old(Found(path)).value].bytes;
      var d, size, entry := LoadProgram(ip.value, file);
      PutProgram(ip.value, file, before, refs0);
      if d == 0 {
        NotRunnable(file, argv, |free0|);
        return -1;
      }
      ghost var h := Header(file).value;
      LoadedSize(use0, free0, ram0, d, file, h.phoff, h.phnum, size);
      var ok, top, sp := BuildStack(d, size, argv, file, h.phoff, h.phnum, use0, free0, ram0);
      if !ok {
        return -1;
      }
      Commit(path, argv, d, top, sp, entry, file, size, use0, free0, ram0);
      RunningMeansStarted(file, argv);
      r := 0;
    }
  }

  /** The name of the first process: "init". */
  const INIT_NAME: seq<byte> := [105, 110, 105, 116]

  /** uinit: a kernel stack, an address space with one page that starts with the bytes of init,
      and the root as working directory. */
  method Uinit(mem: Memory, fs: FileSystem, init: seq<byte>) returns (p: Process)
    requires mem.Sound({}) && |init| < PGSIZE && |mem.free| >= 70
    requires fs.Sound({}) && |fs.refs| < FsInodes.NINODE && Layout.ROOTINO < |fs.ino|
    modifies mem, fs`icache, fs`refs, fs`entry
    ensures fresh(p) && p.mem == mem && p.fs == fs && mem.Sound({}) && IsDir(mem.use, p.pgdir)
    ensures p.name == INIT_NAME && p.sz == PGSIZE && p.eip == 0 && p.esp == PGSIZE && Extent(mem.ram, p.pgdir, 1)
    ensures forall a: nat :: a < PGSIZE ==> ByteAt(mem.ram, p.pgdir, a) == if a < |init| then init[a] else 0
    ensures fs.Sound({}) && fs.Ref(p.cwd) && fs.Inum(p.cwd) == Layout.ROOTINO
              && fs.refs == old(fs.refs) + multiset{Layout.ROOTINO}
    ensures mem.Pages() == old(mem.Pages()) && OneProcessMore(old(mem.use), mem.use, p.kstack, p.pgdir)
  {
    hide Memory.Sound, FileSystem.Sound, UserPage, ByteAt, MoreSpace, SameSpaces, DataKept, AsSet, OneProcessMore,
         KernelMapped;
    ghost var use0, free0 := mem.use, mem.free;
    var kstack := mem.TakePage({});
    ghost var use1, free1 := mem.use, mem.free;
    var pgdir := mem.Setupkvm();
    assert At(mem.ram, pgdir, 0) == 0;
    ghost var use2, free2 := mem.use, mem.free;
    mem.Inituvm(pgdir, init, {});
    ProcessPages(use0, free0, kstack, use1, free1, pgdir, use2, free2, mem.use, mem.free);
    var cwd := fs.Iget(Layout.ROOTDEV, Layout.ROOTINO);
    p := new Process(mem, fs, kstack, pgdir, cwd, INIT_NAME);
  }

  /** Besides the pages in use before there are just a kernel stack and one address space. */
  ghost predicate OneProcessMore(use0: map<nat, Use>, use: map<nat, Use>, kstack: nat, pgdir: nat) {
    && kstack !in use0 && kstack in use && use[kstack] == Held && pgdir !in use0 && IsDir(use, pgdir)
    && (forall n :: n in use0 ==> n in use && use[n] == use0[n])
    && forall n :: n in use && n !in use0 ==> n == kstack || Belongs(use, pgdir, n)
  }

  lemma ProcessPages(use0: map<nat, Use>, free0: seq<nat>, kstack: nat, use1: map<nat, Use>, free1: seq<nat>,
        pgdir: nat, use2: map<nat, Use>, free2: seq<nat>, use: map<nat, Use>, free: seq<nat>)
    requires free0 == [kstack] + free1 && kstack !in use0 && use1 == use0[kstack := Held]
    requires free1 != [] && pgdir == free1[0] && pgdir !in use1
    requires MoreTables(use1[pgdir := Dir], free1[1..], use2, free2, pgdir)
    requires MoreSpace(use2, free2, use, free, pgdir, 0, 1)
    ensures OneProcessMore(use0, use, kstack, pgdir)
    ensures use.Keys + AsSet(free) == use0.Keys + AsSet(free0)
  {
    hide AsSet;
    PagesOfProcess(use0, free0, kstack, use1, free1, pgdir);
    var was := use1[pgdir := Dir];
    MoreSpaceWider(was, free1[1..], use2, free2, pgdir, 0, 0);
    MoreSpaceWider(use2, free2, use, free, pgdir, 0, 1);
    MoreSpaceTrans(was, free1[1..], use2, free2, use, free, pgdir, 0, NUSER);
    forall n | n in use1 ensures n in use && use[n] == use1[n] {
      assert n in was && was[n] == use1[n];
    }
    assert pgdir in was;
  }

  lemma PagesOfProcess(use0: map<nat, Use>, free0: seq<nat>, kstack: nat, use1: map<nat, Use>, free1: seq<nat>,
        pgdir: nat)
    requires free0 == [kstack] + free1 && use1 == use0[kstack := Held] && free1 != [] && pgdir == free1[0]
    ensures use1[pgdir := Dir].Keys + AsSet(free1[1..]) == use0.Keys + AsSet(free0)
  {
    assert free1 == [pgdir] + free1[1..];
    AsSetPushed(pgdir, free1[1..]);
    AsSetPushed(kstack, free1);
  }

  lemma NothingAbove(ram: seq<Page>, d: nat, pages: nat)
    requires Extent(ram, d, pages)
    ensures forall v: nat :: pages <= v < NUSER ==> At(ram, d, v) == 0
  {
  }

  lemma UserPageMapped(ram: seq<Page>, use: map<nat, Use>, d: nat, v: nat)
    requires UserPage(ram, d, v)
    ensures At(ram, d, v) != 0 && WordAt(ram, d, v / NENTRIES) != 0
  {
  }
}
