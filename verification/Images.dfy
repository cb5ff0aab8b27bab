/** What a program file says its memory should be, and where exec puts its arguments. */
module Images {
  import opened Bytes
  import opened Paging
  import opened Wrappers

  const ELF_MAGIC: u32 := 0x464C_457F
  const ELF_PROG_LOAD: u32 := 1
  const ELFHDR_SIZE: nat := 52
  const PROGHDR_SIZE: nat := 32
  const MAXARG: nat := 5

  // ---------- the file ----------

  datatype ElfHdr = ElfHdr(magic: u32, entry: u32, phoff: u32, phnum: u16)

  /** The bytes of struct elfhdr, field by field. */
  function DecodeElf(s: seq<byte>): ElfHdr
    requires |s| == ELFHDR_SIZE
  {
    ElfHdr(Word(s, 0), Word(s, 6), Word(s, 7), ToU16(s[44..46]))
  }

  datatype ProgHdr = ProgHdr(typ: u32, off: u32, vaddr: u32, filesz: u32, memsz: u32)

  function DecodeProg(s: seq<byte>): ProgHdr
    requires |s| == PROGHDR_SIZE
  {
    ProgHdr(Word(s, 0), Word(s, 1), Word(s, 2), Word(s, 4), Word(s, 5))
  }

  /** What a read of n bytes at off returns in full, if there are that many. */
  function Range(file: seq<byte>, off: nat, n: nat): Option<seq<byte>> {
    if off + n <= |file| then Some(file[off..off + n]) else None
  }

  /** The file starts with a header exec takes. */
  function Header(file: seq<byte>): Option<ElfHdr> {
    var s := Range(file, 0, ELFHDR_SIZE);
    if s.Some? && DecodeElf(s.value).magic == ELF_MAGIC then Some(DecodeElf(s.value)) else None
  }

  /** Program header i. */
  function Prog(file: seq<byte>, phoff: u32, i: nat): Option<ProgHdr> {
    var s := Range(file, (phoff + PROGHDR_SIZE * i) % 0x1_0000_0000, PROGHDR_SIZE);
    if s.Some? then Some(DecodeProg(s.value)) else None
  }

  /** The header of struct elfhdr, in bytes: 7F 45 4C 46 first, the entry at 24, the offset of the
      program headers at 28 and their number at 44. */
  lemma HeaderBytes(file: seq<byte>)
    ensures Header(file).Some? <==> |file| >= 52 && file[..4] == [0x7F, 0x45, 0x4C, 0x46]
    ensures Header(file).Some? ==>
              var h := Header(file).value;
              h.entry == Le32(file, 24) && h.phoff == Le32(file, 28) && h.phnum == Le16(file, 44)
  {
    if |file| >= 52 {
      var s := file[0..52];
      WordBytes(s, 0);
      WordBytes(s, 6);
      WordBytes(s, 7);
      ReadLow(s, 44);
      MagicBytes(file[0], file[1], file[2], file[3]);
    }
  }

  lemma MagicBytes(a: byte, b: byte, c: byte, d: byte)
    ensures a + 0x100 * b + 0x1_0000 * c + 0x100_0000 * d == ELF_MAGIC <==> [a, b, c, d] == [0x7F, 0x45, 0x4C, 0x46]
  {
  }

  /** Where program header i starts. */
  function ProgAt(file: seq<byte>, i: nat): nat
    requires |file| >= 52
  {
    (Le32(file, 28) + 32 * i) % 0x1_0000_0000
  }

  /** A program header, in bytes: type, offset, address, a word unused, size in the file, in memory. */
  lemma ProgBytes(file: seq<byte>, i: nat)
    requires Header(file).Some?
    ensures |file| >= 52
    ensures var p := Prog(file, Header(file).value.phoff, i);
            var o := ProgAt(file, i);
            && (p.Some? <==> o + 32 <= |file|)
            && (p.Some? ==>
                  && p.value.typ == Le32(file, o) && p.value.off == Le32(file, o + 4)
                  && p.value.vaddr == Le32(file, o + 8)
                  && p.value.filesz == Le32(file, o + 16) && p.value.memsz == Le32(file, o + 20))
  {
    HeaderBytes(file);
    var o := ProgAt(file, i);
    if o + 32 <= |file| {
      var s := file[o..o + 32];
      WordBytes(s, 0);
      WordBytes(s, 1);
      WordBytes(s, 2);
      WordBytes(s, 4);
      WordBytes(s, 5);
    }
  }

  /** Where the memory of a segment ends. */
  function SegmentEnd(h: ProgHdr): nat { h.vaddr + h.memsz }

  /** A loadable segment exec takes, above size bytes of memory already there. */
  predicate Loadable(file: seq<byte>, h: ProgHdr, size: nat) {
    && h.filesz <= h.memsz && SegmentEnd(h) < KERNBASE && !(SegmentEnd(h) == 0 && size == 0)
    && h.vaddr % PGSIZE == 0
    && (h.filesz == 0 || h.off + h.filesz <= |file|)
  }

  /** The memory size after the first n program headers, if exec takes them. */
  function SizeAfter(file: seq<byte>, phoff: u32, n: nat): Option<nat> {
    if n == 0 then Some(0)
    else
      var before, h := SizeAfter(file, phoff, n - 1), Prog(file, phoff, n - 1);
      if before.None? || h.None? then None
      else if h.value.typ != ELF_PROG_LOAD then before
      else if !Loadable(file, h.value, before.value) then None
      else Some(if SegmentEnd(h.value) > before.value then SegmentEnd(h.value) else before.value)
  }

  /** a is in the part of the segment that comes from the file. */
  predicate FromFile(h: ProgHdr, a: nat) {
    h.typ == ELF_PROG_LOAD && h.vaddr <= a < h.vaddr + h.filesz
  }

  /** a is in the segment. */
  predicate InSegment(h: ProgHdr, a: nat) {
    h.typ == ELF_PROG_LOAD && h.vaddr <= a < SegmentEnd(h)
  }

  /** Memory after loading the first n segments, one over the other, into zeros. */
  function ImageByte(file: seq<byte>, phoff: u32, n: nat, a: nat): byte {
    if n == 0 then 0
    else
      var h := Prog(file, phoff, n - 1);
      if h.Some? && FromFile(h.value, a) && h.value.off + (a - h.value.vaddr) < |file|
          then file[h.value.off + (a - h.value.vaddr)]
      else ImageByte(file, phoff, n - 1, a)
  }

  lemma {:induction false} SizesBound(file: seq<byte>, phoff: u32, n: nat, j: nat)
    requires j < n && SizeAfter(file, phoff, n).Some?
    ensures SizeAfter(file, phoff, n).value < KERNBASE && Prog(file, phoff, j).Some?
    ensures var h := Prog(file, phoff, j).value;
            h.typ == ELF_PROG_LOAD ==>
                SegmentEnd(h) <= SizeAfter(file, phoff, n).value && (h.filesz == 0 || h.off + h.filesz <= |file|)
    ensures SizeAfter(file, phoff, j).Some? && SizeAfter(file, phoff, j).value <= SizeAfter(file, phoff, n).value
  {
    if j < n - 1 {
      SizesBound(file, phoff, n - 1, j);
    } else if j > 0 {
      SizesBound(file, phoff, j, j - 1);
    }
  }

  /** Where no segment reaches from the file, memory is zero. */
  lemma {:induction false} ZeroOutside(file: seq<byte>, phoff: u32, n: nat, a: nat)
    requires forall j: nat :: j < n && Prog(file, phoff, j).Some? ==> !FromFile(Prog(file, phoff, j).value, a)
    ensures ImageByte(file, phoff, n, a) == 0
  {
    if n > 0 {
      ZeroOutside(file, phoff, n - 1, a);
    }
  }

  /** A segment no other one overlaps holds its bytes of the file, and zeros up to its size. */
  lemma {:induction false} SegmentImage(file: seq<byte>, phoff: u32, n: nat, j: nat, a: nat)
    requires SizeAfter(file, phoff, n).Some? && j < n
    requires Prog(file, phoff, j).Some? && InSegment(Prog(file, phoff, j).value, a)
    requires forall i: nat :: i < n && i != j && Prog(file, phoff, i).Some? ==>
               !InSegment(Prog(file, phoff, i).value, a)
    ensures var h := Prog(file, phoff, j).value;
            if a < h.vaddr + h.filesz then h.off + (a - h.vaddr) < |file|
                && ImageByte(file, phoff, n, a) == file[h.off + (a - h.vaddr)]
            else ImageByte(file, phoff, n, a) == 0
  {
    hide Prog, SizeAfter;
    var h := Prog(file, phoff, j).value;
    SizesBound(file, phoff, n, j);
    if j == n - 1 {
      if a >= h.vaddr + h.filesz {
        OthersMiss(file, phoff, n, j, a);
        ZeroOutside(file, phoff, n, a);
      }
    } else {
      SizesBound(file, phoff, n, n - 1);
      SegmentImage(file, phoff, n - 1, j, a);
      var last := Prog(file, phoff, n - 1).value;
      SegmentFits(file, phoff, n);
      assert !InSegment(last, a);
    }
  }

  lemma SegmentFits(file: seq<byte>, phoff: u32, n: nat)
    requires n > 0 && SizeAfter(file, phoff, n).Some?
    ensures Prog(file, phoff, n - 1).Some?
            && (Prog(file, phoff, n - 1).value.typ == ELF_PROG_LOAD ==>
                Prog(file, phoff, n - 1).value.filesz <= Prog(file, phoff, n - 1).value.memsz)
  {
  }

  lemma OthersMiss(file: seq<byte>, phoff: u32, n: nat, j: nat, a: nat)
    requires SizeAfter(file, phoff, n).Some? && j < n && Prog(file, phoff, j).Some?
               && !FromFile(Prog(file, phoff, j).value, a)
    requires forall i: nat :: i < n && i != j && Prog(file, phoff, i).Some? ==>
               !InSegment(Prog(file, phoff, i).value, a)
    ensures forall i: nat :: i < n && Prog(file, phoff, i).Some? ==> !FromFile(Prog(file, phoff, i).value, a)
  {
    forall i: nat | i < n && Prog(file, phoff, i).Some? ensures !FromFile(Prog(file, phoff, i).value, a) {
      if i != j {
        EachFits(file, phoff, n, i);
      }
    }
  }

  lemma {:induction false} EachFits(file: seq<byte>, phoff: u32, n: nat, i: nat)
    requires SizeAfter(file, phoff, n).Some? && i < n
    ensures Prog(file, phoff, i).Some?
    ensures Prog(file, phoff, i).value.typ == ELF_PROG_LOAD ==>
        Prog(file, phoff, i).value.filesz <= Prog(file, phoff, i).value.memsz
  {
    if i < n - 1 {
      EachFits(file, phoff, n - 1, i);
    } else {
      SegmentFits(file, phoff, n);
    }
  }

  // ---------- the same, from the bytes ----------

  /** The file's number of program headers. */
  function ProgCount(file: seq<byte>): int
    requires |file| >= 52
  {
    Le16(file, 44)
  }

  /** Program header i is there and loadable. */
  predicate IsLoad(file: seq<byte>, i: nat)
    requires |file| >= 52
  {
    var o := ProgAt(file, i);
    o + 32 <= |file| && Le32(file, o) == 1
  }

  /** Loadable header i brings the byte at address a from the file. */
  predicate Covers(file: seq<byte>, i: nat, a: nat)
    requires |file| >= 52
  {
    var o := ProgAt(file, i);
    IsLoad(file, i) && Le32(file, o + 8) <= a < Le32(file, o + 8) + Le32(file, o + 16)
  }

  /** Header i is the last of the first n to bring it. */
  ghost predicate LastCover(file: seq<byte>, n: nat, i: nat, a: nat)
    requires |file| >= 52
  {
    i < n && Covers(file, i, a) && forall j: nat :: i < j < n ==> !Covers(file, j, a)
  }

  /** b is the byte of the file that header i puts at address a. */
  ghost predicate Brought(b: byte, file: seq<byte>, i: nat, a: nat)
    requires |file| >= 52
  {
    var o := ProgAt(file, i);
    && o + 32 <= |file|
    && var from := Le32(file, o + 4) + (a - Le32(file, o + 8));
       0 <= from < |file| && b == file[from]
  }

  /** User memory below an address is what the program file says: each byte from the last header
      that brings it, and zero where none does. */
  ghost predicate ProgramInMemory(ram: seq<Page>, d: nat, file: seq<byte>, limit: nat) {
    && |file| >= 52
    && (forall a: nat, i: nat :: a < limit && a < KERNBASE && LastCover(file, ProgCount(file), i, a) ==>
          Brought(ByteAt(ram, d, a), file, i, a))
    && (forall a: nat :: a < limit && a < KERNBASE && (forall i: nat :: i < ProgCount(file) ==> !Covers(file, i, a)) ==>
          ByteAt(ram, d, a) == 0)
  }

  /** size is where the loadable header that reaches highest ends, and 0 if there is none. */
  ghost predicate HighestEnd(file: seq<byte>, n: nat, size: nat)
    requires |file| >= 52
  {
    && (forall i: nat :: i < n && IsLoad(file, i) ==>
          Le32(file, ProgAt(file, i) + 8) + Le32(file, ProgAt(file, i) + 20) <= size)
    && (size == 0 || exists i: nat :: i < n && IsLoad(file, i)
                       && Le32(file, ProgAt(file, i) + 8) + Le32(file, ProgAt(file, i) + 20) == size)
  }

  lemma CoversIsFromFile(file: seq<byte>, i: nat, a: nat)
    requires Header(file).Some?
    ensures |file| >= 52
    ensures var p := Prog(file, Header(file).value.phoff, i);
            Covers(file, i, a) <==> p.Some? && FromFile(p.value, a)
  {
    hide Header, Prog, ProgAt, Le32;
    ProgBytes(file, i);
  }

  lemma {:induction false} LastCoverByte(file: seq<byte>, n: nat, i: nat, a: nat)
    requires Header(file).Some? && |file| >= 52 && SizeAfter(file, Header(file).value.phoff, n).Some?
    requires LastCover(file, n, i, a)
    ensures Brought(ImageByte(file, Header(file).value.phoff, n, a), file, i, a)
  {
    hide Header, Prog, ProgAt, Le32, Covers;
    var phoff := Header(file).value.phoff;
    CoversIsFromFile(file, n - 1, a);
    if i < n - 1 {
      LastCoverByte(file, n - 1, i, a);
    } else {
      ProgBytes(file, i);
      SizesBound(file, phoff, n, i);
    }
  }

  lemma NoCoverByte(file: seq<byte>, n: nat, a: nat)
    requires Header(file).Some? && |file| >= 52 && forall i: nat :: i < n ==> !Covers(file, i, a)
    ensures ImageByte(file, Header(file).value.phoff, n, a) == 0
  {
    hide Header, Prog, Covers;
    var phoff := Header(file).value.phoff;
    forall j: nat | j < n && Prog(file, phoff, j).Some? ensures !FromFile(Prog(file, phoff, j).value, a) {
      CoversIsFromFile(file, j, a);
    }
    ZeroOutside(file, phoff, n, a);
  }

  lemma {:induction false} SizeIsHighestEnd(file: seq<byte>, n: nat)
    requires Header(file).Some? && |file| >= 52 && SizeAfter(file, Header(file).value.phoff, n).Some?
    ensures HighestEnd(file, n, SizeAfter(file, Header(file).value.phoff, n).value)
  {
    hide Header, Prog, ProgAt, Le32;
    if n > 0 {
      SizeIsHighestEnd(file, n - 1);
      ProgBytes(file, n - 1);
      var before := SizeAfter(file, Header(file).value.phoff, n - 1).value;
      assert HighestEnd(file, n - 1, before);
      if before > 0 {
        var j: nat :| j < n - 1 && IsLoad(file, j)
                   && Le32(file, ProgAt(file, j) + 8) + Le32(file, ProgAt(file, j) + 20) == before;
        assert j < n;
      }
    }
  }

  /** exec takes header i: it is in the file, and if it is loadable its sizes, place and bytes are
      such as exec allows; the first loadable one must not end at address 0. */
  ghost predicate Taken(file: seq<byte>, i: nat)
    requires |file| >= 52
  {
    var o := ProgAt(file, i);
    && o + 32 <= |file|
    && (Le32(file, o) == 1 ==>
          var off, vaddr, filesz, memsz := Le32(file, o + 4), Le32(file, o + 8), Le32(file, o + 16), Le32(file, o + 20);
          && filesz <= memsz && vaddr + memsz < KERNBASE && vaddr % PGSIZE == 0
          && (filesz == 0 || off + filesz <= |file|)
          && (vaddr + memsz > 0 || exists j: nat :: j < i && IsLoad(file, j)))
  }

  /** Exactly the files all of whose headers are such are taken. */
  lemma {:induction false} TakenByBytes(file: seq<byte>, n: nat)
    requires Header(file).Some? && |file| >= 52
    ensures SizeAfter(file, Header(file).value.phoff, n).Some? <==> forall i: nat :: i < n ==> Taken(file, i)
    ensures SizeAfter(file, Header(file).value.phoff, n).Some? ==>
              (SizeAfter(file, Header(file).value.phoff, n).value == 0 <==> forall i: nat :: i < n ==> !IsLoad(file, i))
  {
    hide Header, Prog, ProgAt, Le32;
    if n > 0 {
      TakenByBytes(file, n - 1);
      ProgBytes(file, n - 1);
      var phoff, k := Header(file).value.phoff, n - 1;
      assert (forall i: nat :: i < n ==> Taken(file, i)) <==>
             (forall i: nat :: i < k ==> Taken(file, i)) && Taken(file, k);
      assert (forall i: nat :: i < n ==> !IsLoad(file, i)) <==>
             (forall i: nat :: i < k ==> !IsLoad(file, i)) && !IsLoad(file, k);
    }
  }

  // ---------- the argument stack ----------

  /** A C string. */
  function CString(s: seq<byte>): (r: seq<byte>)
    ensures s <= r && |r| == |s| + 1 && r[|s|] == 0
  {
    s + [0]
  }

  /** Where the stack pointer is after the first i strings, each rounded down to a word. */
  function Sp(sz: int, argv: seq<seq<byte>>, i: nat): int
    requires i <= |argv|
  {
    if i == 0 then sz else (Sp(sz, argv, i - 1) - (|argv[i - 1]| + 1)) / 4 * 4
  }

  /** Where the stack pointer ends. */
  function FinalSp(sz: int, argv: seq<seq<byte>>): int {
    Sp(sz, argv, |argv|) - 4 * (3 + |argv| + 1)
  }

  lemma {:induction false} SpFalls(sz: int, argv: seq<seq<byte>>, i: nat, j: nat)
    requires i <= j <= |argv|
    ensures Sp(sz, argv, j) <= Sp(sz, argv, i) && (i < j ==> Sp(sz, argv, j) + |argv[j - 1]| + 1 <= Sp(sz, argv, j - 1))
    ensures sz % 4 == 0 ==> Sp(sz, argv, j) % 4 == 0
    decreases j - i, j
  {
    if i < j {
      SpFalls(sz, argv, i, j - 1);
    } else if j > 0 {
      SpFalls(sz, argv, j - 1, j - 1);
    }
  }

  /** These bytes are in user memory at address at. */
  ghost predicate StoredAt(ram: seq<Page>, d: nat, at: int, src: seq<byte>) {
    0 <= at && at + |src| <= KERNBASE && forall a: nat :: at <= a < at + |src| ==> ByteAt(ram, d, a) == src[a - at]
  }

  /** The word at a user address. */
  function UserWord(ram: seq<Page>, d: nat, a: nat): u32 {
    ToU32([ByteAt(ram, d, a), ByteAt(ram, d, a + 1), ByteAt(ram, d, a + 2), ByteAt(ram, d, a + 3)])
  }

  /** The first n strings are in place. */
  ghost predicate Strings(ram: seq<Page>, d: nat, sz: int, argv: seq<seq<byte>>, n: nat) {
    n <= |argv| && forall j: nat :: j < n ==> StoredAt(ram, d, Sp(sz, argv, j + 1), CString(argv[j]))
  }

  /** What main finds at its stack pointer: a return address, argc, argv, and argv's array with a
      null at its end, each entry pointing to a NUL-terminated copy of its argument. */
  ghost predicate ArgStack(ram: seq<Page>, d: nat, sz: int, argv: seq<seq<byte>>, esp: nat) {
    && UserWord(ram, d, esp) == 0xFFFF_FFFF
    && UserWord(ram, d, esp + 4) == |argv|
    && UserWord(ram, d, esp + 8) == esp + 12
    && (forall j: nat :: j < |argv| ==> UserWord(ram, d, esp + 12 + 4 * j) == Sp(sz, argv, j + 1))
    && UserWord(ram, d, esp + 12 + 4 * |argv|) == 0
    && Strings(ram, d, sz, argv, |argv|)
  }

  /** ustack. */
  ghost predicate IsFrame(ws: seq<u32>, sz: int, argv: seq<seq<byte>>, esp: int) {
    && |ws| == |argv| + 4 && ws[0] == 0xFFFF_FFFF && ws[1] == |argv| && ws[2] == esp + 12 && ws[3 + |argv|] == 0
    && forall k: nat :: 3 <= k < 3 + |argv| ==> ws[k] == Sp(sz, argv, k - 2)
  }

  lemma FourBytes(s: seq<byte>, i: nat)
    requires i + 4 <= |s|
    ensures s[i..i + 4] == [s[i], s[i + 1], s[i + 2], s[i + 3]]
  {
  }

  lemma WordStored(ram: seq<Page>, d: nat, at: nat, ws: seq<u32>, k: nat)
    requires StoredAt(ram, d, at, FromWords(ws)) && k < |ws|
    ensures UserWord(ram, d, at + 4 * k) == ws[k]
  {
    hide ByteAt, ToU32, FromWords;
    WordFromWords(ws, k);
    var s, i := FromWords(ws), 4 * k;
    assert i + 4 <= |s|;
    assert ByteAt(ram, d, at + i) == s[i] && ByteAt(ram, d, at + i + 1) == s[i + 1];
    assert ByteAt(ram, d, at + i + 2) == s[i + 2] && ByteAt(ram, d, at + i + 3) == s[i + 3];
    FourBytes(s, i);
  }

  lemma FrameStored(ram: seq<Page>, d: nat, sz: int, argv: seq<seq<byte>>, esp: nat, ws: seq<u32>)
    requires StoredAt(ram, d, esp, FromWords(ws)) && IsFrame(ws, sz, argv, esp) && Strings(ram, d, sz, argv, |argv|)
    ensures ArgStack(ram, d, sz, argv, esp)
  {
    hide StoredAt, UserWord;
    WordStored(ram, d, esp, ws, 0);
    WordStored(ram, d, esp, ws, 1);
    WordStored(ram, d, esp, ws, 2);
    WordStored(ram, d, esp, ws, 3 + |argv|);
    forall j: nat | j < |argv| ensures UserWord(ram, d, esp + 12 + 4 * j) == Sp(sz, argv, j + 1) {
      WordStored(ram, d, esp, ws, 3 + j);
    }
  }

  /** Bytes written below what is stored leave it. */
  lemma StoredKept(use: map<nat, Use>, before: seq<Page>, after: seq<Page>, d: nat, low: nat, new': seq<byte>,
        at: int, src: seq<byte>)
    requires StoredAt(before, d, at, src) && Written(use, before, after, d, low, new') && low + |new'| <= at
    ensures StoredAt(after, d, at, src)
  {
    hide ByteAt;
  }

  lemma StringsKept(use: map<nat, Use>, before: seq<Page>, after: seq<Page>, d: nat, low: nat, new': seq<byte>,
        sz: int, argv: seq<seq<byte>>, n: nat)
    requires Strings(before, d, sz, argv, n) && Written(use, before, after, d, low, new')
               && low + |new'| <= Sp(sz, argv, n)
    ensures Strings(after, d, sz, argv, n)
  {
    hide StoredAt, Written;
    forall j: nat | j < n ensures StoredAt(after, d, Sp(sz, argv, j + 1), CString(argv[j])) {
      SpFalls(sz, argv, j + 1, n);
      StoredKept(use, before, after, d, low, new', Sp(sz, argv, j + 1), CString(argv[j]));
    }
  }
}
