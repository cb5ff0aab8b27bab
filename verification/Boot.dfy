/** mkfs's main, and the kernel booting from the image it makes. */
module Boot {
  import opened Bytes
  import opened Layout
  import Bio
  import Paging
  import Memories
  import Processes
  import Paths
  import Calls
  import Descriptors
  import opened FsState
  import opened FsInodes
  import opened FileSystems
  import opened Directories
  import opened Mkfs
  import opened Wrappers

  /** A file of the host: its name, and its bytes as read returned them. */
  datatype HostFile = HostFile(name: seq<byte>, chunks: seq<seq<byte>>)

  const UNDERSCORE: byte := 95
  const DOT: byte := 46

  function Concat(chunks: seq<seq<byte>>): seq<byte> {
    if chunks == [] then [] else Concat(chunks[..|chunks| - 1]) + chunks[|chunks| - 1]
  }

  /** A host file's name without the leading underscore. */
  function Bare(name: seq<byte>): seq<byte> {
    if name != [] && name[0] == UNDERSCORE then name[1..] else name
  }

  /** The name in the image: the bare one, cut to 14 bytes. */
  function ImageName(name: seq<byte>): (r: Name)
    ensures |r| <= DIRSIZ
  {
    Cut(Bare(name))
  }

  /** The records of the root after n files. */
  function RootEntries(files: seq<HostFile>, n: nat): (es: seq<Dirent>)
    requires n <= |files| && |files| + 2 <= NINODES
    ensures |es| == n + 2
  {
    if n == 0 then [Dirent(ROOTINO, Padded([DOT])), Dirent(ROOTINO, Padded([DOT, DOT]))]
    else RootEntries(files, n - 1) + [Dirent(n + 1, Padded(ImageName(files[n - 1].name)))]
  }

  /** Records one after the other. */
  function EncodeAll(es: seq<Dirent>): (s: seq<byte>)
    ensures |s| == DIRENT_SIZE * |es|
  {
    if es == [] then [] else EncodeAll(es[..|es| - 1]) + EncodeDirent(es[|es| - 1])
  }

  lemma {:induction false} EntriesOfAll(es: seq<Dirent>)
    ensures Entries(EncodeAll(es)) == es
  {
    hide EncodeDirent, DecodeDirent;
    if es != [] {
      var n := |es| - 1;
      var s, t, e := EncodeAll(es), EncodeAll(es[..n]), EncodeDirent(es[n]);
      EntriesOfAll(es[..n]);
      DirentRoundTrip(es[n]);
      assert s == t + e && |t| == DIRENT_SIZE * n;
      forall k: nat | k < n ensures Entries(s)[k] == es[k] {
        RecordOfPrefix(t, e, k);
        assert Entries(t)[k] == es[..n][k];
      }
      assert s[DIRENT_SIZE * n..DIRENT_SIZE * n + DIRENT_SIZE] == e;
    }
  }

  lemma RecordOfPrefix(t: seq<byte>, e: seq<byte>, k: nat)
    requires DIRENT_SIZE * k + DIRENT_SIZE <= |t|
    ensures (t + e)[DIRENT_SIZE * k..DIRENT_SIZE * k + DIRENT_SIZE] == t[DIRENT_SIZE * k..DIRENT_SIZE * k + DIRENT_SIZE]
  {
  }

  const NOTHING: Dirent := Dirent(0, Zeros(DIRSIZ))

  /** Free records. */
  function Nothings(z: nat): (es: seq<Dirent>)
    ensures |es| == z && forall k :: 0 <= k < z ==> es[k] == NOTHING
  {
    seq(z, _ => NOTHING)
  }

  lemma NothingIsZeros()
    ensures EncodeDirent(NOTHING) == Zeros(DIRENT_SIZE)
  {
  }

  lemma EncodeLast(es: seq<Dirent>, e: Dirent)
    ensures EncodeAll(es + [e]) == EncodeAll(es) + EncodeDirent(e)
  {
    hide EncodeDirent;
    assert (es + [e])[..|es|] == es;
  }

  lemma {:induction false} EncodeNothing(es: seq<Dirent>, z: nat)
    ensures EncodeAll(es + Nothings(z)) == EncodeAll(es) + Zeros(DIRENT_SIZE * z)
  {
    hide EncodeAll, EncodeDirent, Zeros, Nothings;
    if z == 0 {
      assert es + Nothings(z) == es;
    } else {
      EncodeNothing(es, z - 1);
      assert es + Nothings(z) == es + Nothings(z - 1) + [NOTHING];
      EncodeLast(es + Nothings(z - 1), NOTHING);
      NothingIsZeros();
      assert Zeros(DIRENT_SIZE * (z - 1)) + Zeros(DIRENT_SIZE) == Zeros(DIRENT_SIZE * z);
    }
  }

  /** Inode k of the image after n files. */
  function ImageFile(files: seq<HostFile>, n: nat, k: nat): File
    requires n <= |files| && |files| + 2 <= NINODES
  {
    if k == ROOTINO then File(T_DIR, 0, 0, 1, EncodeAll(RootEntries(files, n)))
    else if 2 <= k < n + 2 then File(T_FILE, 0, 0, 1, Concat(files[k - 2].chunks))
    else File(0, 0, 0, 0, [])
  }

  function ImageFiles(files: seq<HostFile>, n: nat): (F: seq<File>)
    requires n <= |files| && |files| + 2 <= NINODES
    ensures |F| == NINODES
  {
    seq(NINODES, k requires 0 <= k => ImageFile(files, n, k))
  }

  /** Blocks the first n files take, with their records. */
  function Used(files: seq<HostFile>, n: nat): int
    requires n <= |files|
  {
    if n == 0 then Cost(BlocksFor(0), BlocksFor(2 * DIRENT_SIZE))
    else Used(files, n - 1) + Cost(BlocksFor((n + 1) * DIRENT_SIZE), BlocksFor((n + 2) * DIRENT_SIZE))
                            + Cost(BlocksFor(0), BlocksFor(|Concat(files[n - 1].chunks)|))
  }

  /** The files fit in the image. */
  ghost predicate Fits(files: seq<HostFile>) {
    && |files| + 2 <= NINODES && NMETA + Used(files, |files|) <= FSSIZE
    && forall j: nat :: j < |files| ==>
         |Concat(files[j].chunks)| <= MAXFILE * BSIZE && 0 !in files[j].name && SLASH !in files[j].name
  }

  lemma {:induction false} UsedGrows(files: seq<HostFile>, n: nat, m: nat)
    requires n <= m <= |files|
    ensures Used(files, n) <= Used(files, m)
  {
    if n < m {
      UsedGrows(files, n, m - 1);
      CostAdds(0, 0, |Concat(files[m - 1].chunks)|, |Concat(files[m - 1].chunks)|);
      CostAdds((m + 1) * DIRENT_SIZE, (m + 1) * DIRENT_SIZE, (m + 2) * DIRENT_SIZE, (m + 2) * DIRENT_SIZE);
    }
  }

  lemma {:induction false} ConcatPrefix(chunks: seq<seq<byte>>, c: nat)
    requires c <= |chunks|
    ensures |Concat(chunks[..c])| <= |Concat(chunks)|
  {
    if c < |chunks| {
      ConcatPrefix(chunks[..|chunks| - 1], c);
      assert chunks[..|chunks| - 1][..c] == chunks[..c];
    } else {
      assert chunks[..c] == chunks;
    }
  }

  // ---------- main ----------

  lemma BlankFiles(D: Blocks, ino: seq<Dinode>)
    requires ino == seq(NINODES, _ => FreshDinode(0))
    ensures FilesOf(D, ino) == seq(NINODES, _ => File(0, 0, 0, 0, []))
  {
    hide ByteAt;
    forall i: nat | i < NINODES ensures FilesOf(D, ino)[i] == File(0, 0, 0, 0, []) {
      assert FileOf(D, ino[i]).bytes == [];
    }
  }

  lemma DotsCost(files: seq<HostFile>)
    requires Fits(files)
    ensures Cost(BlocksFor(0), BlocksFor(DIRENT_SIZE)) + Cost(BlocksFor(DIRENT_SIZE), BlocksFor(2 * DIRENT_SIZE)) ==
              Used(files, 0)
    ensures |files| + 2 <= NINODES && NMETA + Used(files, 0) <= FSSIZE
        && NMETA + Cost(BlocksFor(0), BlocksFor(DIRENT_SIZE)) <= FSSIZE
  {
    UsedGrows(files, 0, |files|);
    CostAdds(0, DIRENT_SIZE, 2 * DIRENT_SIZE, 2 * DIRENT_SIZE);
  }

  /** The bytes of the two first records. */
  function Dots(): seq<byte> {
    EncodeDirent(Dirent(ROOTINO, Padded([DOT]))) + EncodeDirent(Dirent(ROOTINO, Padded([DOT, DOT])))
  }

  lemma DotsImage(files: seq<HostFile>)
    requires |files| + 2 <= NINODES
    ensures ImageFiles(files, 0) == seq(NINODES, _ => File(0, 0, 0, 0, []))[ROOTINO := File(T_DIR, 0, 0, 1, Dots())]
  {
    hide EncodeDirent;
    var es := RootEntries(files, 0);
    assert es[..1] == [es[0]] && es[..1][..0] == [];
    assert EncodeAll(es[..1]) == EncodeDirent(es[0]);
    assert EncodeAll(es) == Dots();
  }

  /** "." and "..": the image of no files. */
  method BeginImage(ghost files: seq<HostFile>) returns (b: Builder)
    requires Fits(files)
    ensures fresh(b) && b.Sound({}) && b.Files() == ImageFiles(files, 0) && b.freeinode == 2
        && b.freeblock == NMETA + Used(files, 0)
  {
    hide Owned, FileBytes, BlocksFor, Cost, EncodeDirent, ImageFiles, Used, Builder.Sound, FilesOf, Padded, Fits;
    b := new Builder();
    BlankFiles(b.Disk(), b.ino);
    DotsCost(files);
    DotsImage(files);
    var rootino := b.Inoalloc(T_DIR);
    var de := EncodeDirent(Dirent(rootino, Padded([DOT])));
    b.Iappend(rootino, de);
    assert [] + de == de;
    b.Iappend(rootino, EncodeDirent(Dirent(rootino, Padded([DOT, DOT]))));
  }

  /** The inner loop: a host file's chunks, appended one after the other to an empty inode. */
  method AppendChunks(b: Builder, inum: nat, chunks: seq<seq<byte>>)
    requires b.Sound({}) && inum < b.freeinode && inum < |b.Files()|
    requires b.Files()[inum].typ != 0 && b.Files()[inum].bytes == []
    requires |Concat(chunks)| <= MAXFILE * BSIZE
    requires b.freeblock + Cost(BlocksFor(0), BlocksFor(|Concat(chunks)|)) <= FSSIZE
    modifies b`sectors, b`freeblock, b`ino, b`owner
    ensures b.Sound({}) && b.freeinode == old(b.freeinode)
    ensures b.Files() == old(b.Files())[inum := old(b.Files())[inum].(bytes := Concat(chunks))]
    ensures b.freeblock == old(b.freeblock) + Cost(BlocksFor(0), BlocksFor(|Concat(chunks)|))
  {
    hide Owned, FileBytes, BlocksFor, Cost, Builder.Sound, FilesOf, Concat;
    ghost var F, start := b.Files(), b.freeblock;
    var c := 0;
    NoChunks(chunks);
    assert F[inum].(bytes := []) == F[inum];
    assert F[inum := F[inum]] == F;
    CostZero(BlocksFor(0));
    while c < |chunks|
      invariant c <= |chunks| && b.Sound({}) && b.freeinode == old(b.freeinode) && inum < |F|
      invariant b.Files() == F[inum := F[inum].(bytes := Concat(chunks[..c]))]
      invariant b.freeblock == start + Cost(BlocksFor(0), BlocksFor(|Concat(chunks[..c])|))
    {
      NextChunk(chunks, c);
      b.Iappend(inum, chunks[c]);
      c := c + 1;
    }
    assert chunks[..c] == chunks;
  }

  /** One turn of main's loop over its arguments: an inode, a record in the root, the bytes. */
  method AddFile(b: Builder, f: HostFile, ghost files: seq<HostFile>, ghost n: nat)
    requires Fits(files) && n < |files| && f == files[n]
    requires b.Sound({}) && b.Files() == ImageFiles(files, n) && b.freeinode == n + 2
               && b.freeblock == NMETA + Used(files, n)
    modifies b
    ensures b.Sound({}) && b.Files() == ImageFiles(files, n + 1) && b.freeinode == n + 3
        && b.freeblock == NMETA + Used(files, n + 1)
  {
    hide Owned, FileBytes, BlocksFor, Cost, EncodeDirent, Builder.Sound, FilesOf, Padded, Used, EncodeAll,
         RootEntries, Concat, Fits, ImageFiles, ImageName;
    FileCost(files, n);
    BeforeFile(files, n);
    var inum := b.Inoalloc(T_FILE);
    b.Iappend(ROOTINO, EncodeDirent(Dirent(inum, Padded(ImageName(f.name)))));
    RootGrows(files, n);
    ghost var F := b.Files();
    AppendChunks(b, inum, f.chunks);
    FileAdded(files, n, F);
  }

  lemma BeforeFile(files: seq<HostFile>, n: nat)
    requires n < |files| && |files| + 2 <= NINODES
    ensures ImageFiles(files, n)[ROOTINO] == File(T_DIR, 0, 0, 1, EncodeAll(RootEntries(files, n)))
    ensures |EncodeAll(RootEntries(files, n))| == DIRENT_SIZE * (n + 2)
    ensures ImageFiles(files, n)[n + 2] == File(0, 0, 0, 0, [])
  {
  }

  lemma FileCost(files: seq<HostFile>, n: nat)
    requires Fits(files) && n < |files|
    ensures |Concat(files[n].chunks)| <= MAXFILE * BSIZE && |files| + 2 <= NINODES
    ensures var c := Cost(BlocksFor((n + 2) * DIRENT_SIZE), BlocksFor((n + 3) * DIRENT_SIZE));
            && Used(files, n + 1) == Used(files, n) + c + Cost(BlocksFor(0), BlocksFor(|Concat(files[n].chunks)|))
            && NMETA + Used(files, n) + c <= FSSIZE && NMETA + Used(files, n + 1) <= FSSIZE
  {
    UsedGrows(files, n + 1, |files|);
    CostAdds(0, 0, |Concat(files[n].chunks)|, |Concat(files[n].chunks)|);
  }

  lemma RootGrows(files: seq<HostFile>, n: nat)
    requires n < |files| && |files| + 2 <= NINODES
    ensures EncodeAll(RootEntries(files, n + 1)) ==
            EncodeAll(RootEntries(files, n)) + EncodeDirent(Dirent(n + 2, Padded(ImageName(files[n].name))))
  {
    hide EncodeDirent;
    var es := RootEntries(files, n + 1);
    assert es[..|es| - 1] == RootEntries(files, n);
  }

  lemma NoChunks(chunks: seq<seq<byte>>)
    ensures Concat(chunks[..0]) == []
  {
  }

  lemma NextChunk(chunks: seq<seq<byte>>, c: nat)
    requires c < |chunks|
    ensures Concat(chunks[..c + 1]) == Concat(chunks[..c]) + chunks[c]
    ensures |Concat(chunks[..c + 1])| <= |Concat(chunks)|
    ensures var a, d := |Concat(chunks[..c])|, |Concat(chunks[..c + 1])|;
            && Cost(BlocksFor(0), BlocksFor(a)) + Cost(BlocksFor(a), BlocksFor(d)) == Cost(BlocksFor(0), BlocksFor(d))
            && Cost(BlocksFor(0), BlocksFor(d)) <= Cost(BlocksFor(0), BlocksFor(|Concat(chunks)|))
  {
    hide Cost, BlocksFor;
    assert chunks[..c + 1][..c] == chunks[..c];
    ConcatPrefix(chunks, c + 1);
    CostAdds(0, |Concat(chunks[..c])|, |Concat(chunks[..c + 1])|, |Concat(chunks)|);
  }

  lemma FileAdded(files: seq<HostFile>, n: nat, F: seq<File>)
    requires n < |files| && |files| + 2 <= NINODES
    requires F == ImageFiles(files, n)[n + 2 := File(T_FILE, 0, 0, 1, [])]
                                     [ROOTINO := File(T_DIR, 0, 0, 1, EncodeAll(RootEntries(files, n + 1)))]
    ensures F[n + 2 := F[n + 2].(bytes := Concat(files[n].chunks))] == ImageFiles(files, n + 1)
  {
    hide EncodeAll, RootEntries, Concat;
  }

  // ---------- the finished image ----------

  /** Free records that fill up the root's last block. */
  function Padding(n: nat): nat { 32 - (n + 2) % 32 }

  /** The records of the finished root. */
  function AllEntries(files: seq<HostFile>): seq<Dirent>
    requires |files| + 2 <= NINODES
  {
    RootEntries(files, |files|) + Nothings(Padding(|files|))
  }

  /** The files of the finished image. */
  function Image(files: seq<HostFile>): (F: seq<File>)
    requires |files| + 2 <= NINODES
    ensures |F| == NINODES
  {
    ImageFiles(files, |files|)[ROOTINO := File(T_DIR, 0, 0, 1, EncodeAll(AllEntries(files)))]
  }

  lemma RootPadded(files: seq<HostFile>)
    requires |files| + 2 <= NINODES && (|files| + 2) % 32 != 0
    ensures var off := DIRENT_SIZE * (|files| + 2);
            EncodeAll(RootEntries(files, |files|)) + Zeros(Rounded(off) - off) == EncodeAll(AllEntries(files))
  {
    hide EncodeAll, RootEntries;
    var off := DIRENT_SIZE * (|files| + 2);
    assert off % BSIZE == DIRENT_SIZE * ((|files| + 2) % 32);
    assert Rounded(off) - off == DIRENT_SIZE * Padding(|files|);
    EncodeNothing(RootEntries(files, |files|), Padding(|files|));
  }

  /** Each record of the root is free, or names an inode of the image. */
  lemma {:induction false} RootRecords(files: seq<HostFile>, n: nat, k: nat)
    requires n <= |files| && |files| + 2 <= NINODES && k < n + 2
    ensures var e := RootEntries(files, n)[k];
            if k < 2 then e.inum == ROOTINO else e == Dirent(k, Padded(ImageName(files[k - 2].name)))
  {
    if n > 0 && k < n + 1 {
      RootRecords(files, n - 1, k);
    }
  }

  lemma ImageIsTree(files: seq<HostFile>)
    requires |files| + 2 <= NINODES
    ensures TreeOk(Image(files))
  {
    hide EncodeAll, RootEntries, Padded;
    var F, es := Image(files), AllEntries(files);
    EntriesOfAll(es);
    forall k: nat | k < |es| && es[k].inum != 0 ensures (es[k].inum as nat) < |F| && F[es[k].inum].typ != 0 {
      if k < |files| + 2 {
        RootRecords(files, |files|, k);
      }
    }
    assert DirOk(F, EncodeAll(es));
  }

  // ---------- files by name ----------

  /** The host file called name is to appear as s: without its underscore, if it begins with one. */
  ghost predicate ShownAs(name: seq<byte>, s: seq<byte>) {
    name == [UNDERSCORE] + s || (name == s && !([UNDERSCORE] <= name))
  }

  /** Two names agree in their first 14 bytes. */
  ghost predicate AgreeIn14(s: seq<byte>, t: seq<byte>) {
    && (|s| == |t| || (|s| >= 14 && |t| >= 14))
    && forall i: nat :: i < 14 && i < |s| && i < |t| ==> s[i] == t[i]
  }

  /** File j is shown as s, and no record before it has that name. */
  ghost predicate FirstShownAs(files: seq<HostFile>, j: nat, s: seq<byte>) {
    && j < |files| && ShownAs(files[j].name, s) && s != []
    && !AgreeIn14([DOT], s) && !AgreeIn14([DOT, DOT], s)
    && forall i: nat, t :: i < j && ShownAs(files[i].name, t) ==> !AgreeIn14(t, s)
  }

  /** Among these inodes the path of a slash and such a name leads to the file and its bytes, and
      the root is found in itself as "." and "..". */
  ghost predicate FoundByName(files: seq<HostFile>, F: seq<File>) {
    && Paths.Target(F, ROOTINO, [SLASH, DOT], false) == Some(ROOTINO)
    && Paths.Target(F, ROOTINO, [SLASH, DOT, DOT], false) == Some(ROOTINO)
    && forall j: nat, s :: FirstShownAs(files, j, s) ==>
      && Paths.Target(F, ROOTINO, [SLASH] + s, false) == Some(j + 2)
      && j + 2 < |F| && F[j + 2] == File(T_FILE, 0, 0, 1, Concat(files[j].chunks))
  }

  lemma ShownBare(name: seq<byte>, s: seq<byte>)
    ensures ShownAs(name, s) <==> s == Bare(name)
  {
    if name != [] && name[0] == UNDERSCORE {
      assert name == [UNDERSCORE] + name[1..];
    }
  }

  lemma AgreeIsCut(s: seq<byte>, t: seq<byte>)
    ensures AgreeIn14(s, t) <==> Cut(s) == Cut(t)
  {
    if Cut(s) == Cut(t) {
      forall i: nat | i < 14 && i < |s| && i < |t| ensures s[i] == t[i] {
        assert s[i] == Cut(s)[i] && t[i] == Cut(t)[i];
      }
    }
  }

  lemma FilesFoundByName(files: seq<HostFile>)
    requires Fits(files)
    ensures |files| + 2 <= NINODES && FoundByName(files, Image(files))
  {
    DotIsRoot(files, 0, [DOT]);
    DotIsRoot(files, 1, [DOT, DOT]);
    assert [SLASH] + [DOT] == [SLASH, DOT] && [SLASH] + [DOT, DOT] == [SLASH, DOT, DOT];
    forall j: nat, s | FirstShownAs(files, j, s)
      ensures Paths.Target(Image(files), ROOTINO, [SLASH] + s, false) == Some(j + 2)
      ensures j + 2 < |Image(files)| && Image(files)[j + 2] == File(T_FILE, 0, 0, 1, Concat(files[j].chunks))
    {
      FileAtPath(files, j, s);
    }
  }

  lemma DotIsRoot(files: seq<HostFile>, k: nat, name: seq<byte>)
    requires |files| + 2 <= NINODES && k < 2 && name == if k == 0 then [DOT] else [DOT, DOT]
    ensures Paths.Target(Image(files), ROOTINO, [SLASH] + name, false) == Some(ROOTINO)
  {
    hide EncodeAll, Chars, Padded, MapOf, Names, ImageName, Bare;
    var es := AllEntries(files);
    EntriesOfAll(es);
    DotRecords(files, |files|);
    FirstBinds(es, k);
    DotsAsTheyAre();
    AbsoluteName(name);
    assert Walk(Image(files), ROOTINO, [name][1..]) == Some(ROOTINO);
  }

  lemma FileAtPath(files: seq<HostFile>, j: nat, s: seq<byte>)
    requires Fits(files) && FirstShownAs(files, j, s)
    ensures |files| + 2 <= NINODES && Paths.Target(Image(files), ROOTINO, [SLASH] + s, false) == Some(j + 2)
    ensures j + 2 < |Image(files)| && Image(files)[j + 2] == File(T_FILE, 0, 0, 1, Concat(files[j].chunks))
  {
    hide Image, Concat, Bare, AgreeIn14, Cut, ShownAs, Used;
    ShownBare(files[j].name, s);
    AgreeIsCut([DOT], s);
    AgreeIsCut([DOT, DOT], s);
    DotsAsTheyAre();
    forall i: nat | i < j ensures ImageName(files[i].name) != ImageName(files[j].name) {
      ShownBare(files[i].name, Bare(files[i].name));
      AgreeIsCut(Bare(files[i].name), s);
    }
    FileIsThere(files, j);
  }

  lemma DotsAsTheyAre()
    ensures Bare([DOT]) == [DOT] && Bare([DOT, DOT]) == [DOT, DOT]
    ensures ImageName([DOT]) == [DOT] && ImageName([DOT, DOT]) == [DOT, DOT]
    ensures Cut([DOT]) == [DOT] && Cut([DOT, DOT]) == [DOT, DOT]
  {
  }

  lemma {:induction false} NotBound(es: seq<Dirent>, name: Name)
    requires forall j: nat :: j < |es| && es[j].inum != 0 ==> Chars(es[j].name) != name
    ensures name !in MapOf(es)
  {
    if es != [] {
      NotBound(es[..|es| - 1], name);
    }
  }

  /** The first record with a name binds it. */
  lemma FirstBinds(es: seq<Dirent>, k: nat)
    requires k < |es| && es[k].inum != 0
    requires forall j: nat :: j < k && es[j].inum != 0 ==> Chars(es[j].name) != Chars(es[k].name)
    ensures Chars(es[k].name) in MapOf(es) && MapOf(es)[Chars(es[k].name)] == es[k].inum as nat
  {
    hide Chars;
    NotBound(es[..k], Chars(es[k].name));
    assert es[..k + 1][..k] == es[..k];
    MapOfPrefix(es, k + 1);
  }

  /** The path of a slash and a file's name leads to that file's bytes, unless an earlier record
      took the name. */
  lemma FileIsThere(files: seq<HostFile>, j: nat)
    requires Fits(files) && j < |files|
    requires var name := ImageName(files[j].name);
             name !in {[DOT], [DOT, DOT]} && forall i: nat :: i < j ==> ImageName(files[i].name) != name
    ensures Walk(Image(files), ROOTINO, [ImageName(files[j].name)]) == Some(j + 2)
    ensures var name := Bare(files[j].name);
            name != [] ==> Paths.Target(Image(files), ROOTINO, [SLASH] + name, false) == Some(j + 2)
    ensures Image(files)[j + 2] == File(T_FILE, 0, 0, 1, Concat(files[j].chunks))
  {
    hide EncodeAll, Concat, Chars, Padded, MapOf, Names, Used, ImageName;
    var es := AllEntries(files);
    EntriesOfAll(es);
    NamesHaveNoNul(files);
    DotRecords(files, |files|);
    forall k: nat | k < j + 2
      ensures es[k].inum != 0
          && Chars(es[k].name) == (if k == 0 then [DOT] else if k == 1 then [DOT, DOT]
                                   else ImageName(files[k - 2].name))
    {
      RootRecords(files, |files|, k);
      if k >= 2 {
        CharsOfPadded(ImageName(files[k - 2].name));
      }
    }
    RootRecords(files, |files|, j + 2);
    CharsOfPadded(ImageName(files[j].name));
    FirstBinds(es, j + 2);
    assert Walk(Image(files), j + 2, [ImageName(files[j].name)][1..]) == Some(j + 2);
    if Bare(files[j].name) != [] {
      AbsoluteName(files[j].name);
    }
  }

  /** The only name in the path of a slash and a host file's name is its name in the image. */
  lemma AbsoluteName(name: seq<byte>)
    requires SLASH !in name && Bare(name) != []
    ensures Names([SLASH] + Bare(name)) == [ImageName(name)]
  {
    hide Names;
    var part := Bare(name);
    NamesAfterSlash([SLASH] + part);
    assert ([SLASH] + part)[1..] == part + [];
    NamesOfFirst(part, []);
    NamesOfNothing();
  }

  lemma NamesHaveNoNul(files: seq<HostFile>)
    requires Fits(files)
    ensures forall j: nat :: j < |files| ==> 0 !in ImageName(files[j].name)
  {
  }

  lemma {:induction false} DotRecords(files: seq<HostFile>, n: nat)
    requires n <= |files| && |files| + 2 <= NINODES
    ensures RootEntries(files, n)[0] == Dirent(ROOTINO, Padded([DOT])) && Chars(RootEntries(files, n)[0].name) == [DOT]
    ensures RootEntries(files, n)[1] == Dirent(ROOTINO, Padded([DOT, DOT]))
              && Chars(RootEntries(files, n)[1].name) == [DOT, DOT]
  {
    CharsOfPadded([DOT]);
    CharsOfPadded([DOT, DOT]);
    if n > 0 {
      DotRecords(files, n - 1);
    }
  }

  // ---------- what mkfs leaves ----------

  /** Some reading of the disk meets the invariants the kernel starts with. */
  ghost predicate Bootable(D: Blocks) {
    |D| > 1 && exists ino, owner :: Agree(D, GetSuper(D[1]), ino, owner, EmptyIcache(), multiset{}, map[], {})
  }

  /** These are the inode records on the disk. */
  ghost predicate Recorded(D: Blocks, ino: seq<Dinode>) {
    |ino| == NINODES && forall i: nat :: i < NINODES ==> Dino(D, SB, i) == ino[i]
  }

  /** The root's record has a size of one block more than its records fill, and no block there. */
  ghost predicate RootHasHole(D: Blocks, records: nat) {
    var d := Dino(D, SB, ROOTINO);
    && d.size as int == DIRENT_SIZE * records + BSIZE
    && records / 32 < MAXFILE && Addr(D, d, records / 32) == 0
  }

  /** mkfs: the disk it leaves is one the kernel can boot from exactly if the root's records do
      not fill its blocks exactly; then its inodes are the files given, under their names.  In
      either case every block is accounted for and only the root differs from what was asked for;
      if its records do fill its blocks, the root has a hole. */
  method MakeImage(files: seq<HostFile>) returns (b: Builder)
    requires Fits(files)
    ensures fresh(b) && |b.sectors| == FSSIZE && GetSuper(b.sectors[1]) == SB && Owned(b.sectors, SB, b.ino, b.owner)
    ensures Recorded(b.sectors, b.ino) && RootExtended(ImageFiles(files, |files|), FilesOf(b.sectors, b.ino))
    ensures Bootable(b.sectors) <==> (|files| + 2) % 32 != 0
    ensures Agree(b.sectors, SB, b.ino, b.owner, EmptyIcache(), multiset{}, map[], {}) <==> (|files| + 2) % 32 != 0
    ensures (|files| + 2) % 32 != 0 ==> FilesOf(b.sectors, b.ino) == Image(files) && TreeOk(Image(files))
    ensures (|files| + 2) % 32 != 0 ==> FoundByName(files, FilesOf(b.sectors, b.ino))
    ensures (|files| + 2) % 32 == 0 ==> RootHasHole(b.sectors, |files| + 2)
  {
    hide Owned, FilesOf, EncodeAll, RootEntries, Synced, TreeOk, Rounded, Builder.Sound, Agree, Image, Fits, Padding,
         Dino, Addr, Bootable, HoleAt, RootExtended, ImageFiles, RootHasHole, Recorded, FoundByName;
    b := FillImage(files);
    RootSize(files);
    b.Finish();
    ImageIsTree(files);
    AllRecorded(b.sectors, b.ino);
    AgreeIsSynced(b.sectors, b.ino, b.owner);
    OnlyReading(b.sectors, b.ino, b.owner);
    FilesFoundByName(files);
    if (|files| + 2) % 32 != 0 {
      RootFinished(files);
    } else {
      HoleInRoot(b.sectors, b.ino[ROOTINO], |files| + 2);
    }
  }

  /** main up to the root's size. */
  method FillImage(files: seq<HostFile>) returns (b: Builder)
    requires Fits(files)
    ensures fresh(b) && b.Sound({}) && b.Files() == ImageFiles(files, |files|) && b.freeinode == |files| + 2
  {
    hide ImageFiles, Builder.Sound, Used, Fits;
    RootSize(files);
    b := BeginImage(files);
    var i := 0;
    while i < |files|
      invariant i <= |files| && fresh(b)
      invariant b.Sound({}) && b.Files() == ImageFiles(files, i) && b.freeinode == i + 2
                  && b.freeblock == NMETA + Used(files, i)
    {
      AddFile(b, files[i], files, i);
      i := i + 1;
    }
  }

  /** The root has 16 bytes for each record. */
  lemma RootSize(files: seq<HostFile>)
    requires Fits(files)
    ensures |files| + 2 <= NINODES
    ensures var f := ImageFiles(files, |files|)[ROOTINO]; f.typ == T_DIR && |f.bytes| == DIRENT_SIZE * (|files| + 2)
    ensures DIRENT_SIZE * (|files| + 2) % BSIZE != 0 <==> (|files| + 2) % 32 != 0
  {
    hide EncodeAll, RootEntries, Used;
    WholeBlocks(|files| + 2);
  }

  lemma WholeBlocks(n: nat)
    ensures DIRENT_SIZE * n % BSIZE != 0 <==> n % 32 != 0
  {
    assert DIRENT_SIZE * n % BSIZE == DIRENT_SIZE * (n % 32);
  }

  lemma RootFinished(files: seq<HostFile>)
    requires |files| + 2 <= NINODES && (|files| + 2) % 32 != 0
    ensures var f, off := ImageFiles(files, |files|)[ROOTINO], DIRENT_SIZE * (|files| + 2);
            ImageFiles(files, |files|)[ROOTINO := f.(bytes := f.bytes + Zeros(Rounded(off) - off))] == Image(files)
  {
    hide EncodeAll, RootEntries;
    RootPadded(files);
  }

  lemma AgreeIsSynced(D: Blocks, ino: seq<Dinode>, owner: Owner)
    requires Owned(D, SB, ino, owner)
    ensures Agree(D, SB, ino, owner, EmptyIcache(), multiset{}, map[], {}) <==> Synced(D, SB, ino, {})
  {
    hide Owned, Synced;
  }

  lemma AllRecorded(D: Blocks, ino: seq<Dinode>)
    requires Synced(D, SB, ino, {ROOTINO}) && ROOTINO < |ino| && Dino(D, SB, ROOTINO) == ino[ROOTINO]
    ensures Recorded(D, ino)
  {
    hide Dino, Dense;
  }

  /** The records on the disk are the only inodes under which it could meet the invariants. */
  lemma OnlyReading(D: Blocks, ino: seq<Dinode>, owner: Owner)
    requires |D| == FSSIZE && GetSuper(D[1]) == SB && Recorded(D, ino) && Owned(D, SB, ino, owner)
    ensures Bootable(D) <==> Synced(D, SB, ino, {})
  {
    hide Dino, Dense, Owned, Cached, GetSuper;
    AgreeIsSynced(D, ino, owner);
    if Bootable(D) {
      var ino', owner' :| Agree(D, SB, ino', owner', EmptyIcache(), multiset{}, map[], {});
      assert ino' == ino;
    }
  }

  lemma HoleInRoot(D: Blocks, d: Dinode, records: nat)
    requires d == Dino(D, SB, ROOTINO) && d.size as int == Rounded(DIRENT_SIZE * records) && records % 32 == 0
    requires records <= NINODES && HoleAt(D, d, DIRENT_SIZE * records / BSIZE)
    ensures RootHasHole(D, records)
  {
    hide Dino, Addr;
    assert DIRENT_SIZE * records == BSIZE * (records / 32);
  }

  /** Thirty empty host files with names of one letter or sign. */
  function ThirtyFiles(): seq<HostFile> {
    seq(30, k requires 0 <= k < 30 => HostFile([97 + k], []))
  }

  /** Up to thirty empty files take no block but the root's first. */
  lemma {:induction false} EmptyFilesUse(files: seq<HostFile>, n: nat)
    requires n <= |files| && n <= 30 && forall j :: 0 <= j < |files| ==> files[j].chunks == []
    ensures Used(files, n) == 1
  {
    assert forall m: nat :: 0 < m <= 32 ==> BlocksFor(m * DIRENT_SIZE) == 1;
    if n > 0 {
      EmptyFilesUse(files, n - 1);
    }
  }

  /** Files mkfs takes, on which it goes wrong: their records and the two dots fill one block. */
  lemma ThirtyFilesFit()
    ensures Fits(ThirtyFiles()) && (|ThirtyFiles()| + 2) % 32 == 0
  {
    hide Used;
    EmptyFilesUse(ThirtyFiles(), 30);
    assert Concat([]) == [];
  }

  /** mkfs on thirty empty files: no inodes and owners make the disk one the kernel's invariants
      hold of, for the root's record claims a second block that it does not have. */
  method ThirtyFilesMakeHole() returns (b: Builder)
    ensures fresh(b) && |b.sectors| == FSSIZE && GetSuper(b.sectors[1]) == SB && Owned(b.sectors, SB, b.ino, b.owner)
    ensures forall ino, owner :: !Agree(b.sectors, SB, ino, owner, EmptyIcache(), multiset{}, map[], {})
    ensures Dino(b.sectors, SB, ROOTINO).size == 1024 && Addr(b.sectors, Dino(b.sectors, SB, ROOTINO), 1) == 0
  {
    hide Owned, Agree, Fits, ThirtyFiles, Dino, Addr, RootExtended, Recorded, FilesOf;
    ThirtyFilesFit();
    b := MakeImage(ThirtyFiles());
  }

  // ---------- booting ----------

  /** The kernel's binit and iinit on the image: its file system starts sound, and its files are
      the ones mkfs was given. */
  method BootImage(files: seq<HostFile>, other: Blocks) returns (fs: FileSystem)
    requires Fits(files) && (|files| + 2) % 32 != 0 && |other| == FSSIZE
    ensures fresh(fs) && fresh(fs.cache) && fresh(fs.cache.ide) && fs.refs == multiset{} && fs.cache.held == multiset{}
    ensures fs.Sound({}) && fs.sb == SB && fs.Files() == Image(files) && TreeOk(fs.Files())
    ensures FoundByName(files, fs.Files())
  {
    hide Agree, Owned, FilesOf, GetSuper, TreeOk, Fits, Image, FoundByName;
    var b := MakeImage(files);
    var cache := new Bio.BufferCache.Binit([other, b.sectors]);
    fs := new FileSystem.Iinit(cache, SB, b.ino, b.owner);
  }

  const FOUR_MB: nat := 0x40_0000

  /** The allocator is given the pages up to 4 MB, the kernel's own page directory is built from
      them, and the allocator is given the rest: exactly the pages from the kernel's end to the
      end of memory.  The directory is there if 68 pages were. */
  method StartMemory(data: nat, ram: seq<Paging.Page>, end: u32) returns (mem: Memories.Memory, kpgdir: nat)
    requires |ram| == Paging.NFRAME && Paging.KERNLINK / Paging.PGSIZE < data && data * Paging.PGSIZE <= end
    requires end <= Paging.KERNBASE + FOUR_MB
    ensures fresh(mem) && mem.data == data && mem.Sound({}) && |mem.free| >= 70
    ensures forall n: nat :: n in mem.Pages() <==> end <= Paging.KERNBASE + Paging.PGSIZE * n && n < Paging.NFRAME
    ensures kpgdir != 0 ==> Paging.IsDir(mem.use, kpgdir)
    ensures end + 68 * Paging.PGSIZE <= Paging.KERNBASE + FOUR_MB ==> kpgdir != 0
    ensures forall n :: n in mem.use ==> kpgdir != 0 && Paging.Belongs(mem.use, kpgdir, n)
  {
    hide Memories.Memory.Sound, Paging.SameSpaces, Paging.DataKept, Paging.Tables, Paging.KernelMapped;
    mem := new Memories.Memory(data, ram);
    mem.Freerange(end, Paging.KERNBASE + FOUR_MB, {});
    ghost var free0 := mem.free;
    kpgdir := mem.Setupkvm();
    ghost var given := mem.Pages();
    PagesStay(free0, mem.use, mem.free, kpgdir);
    forall n: nat ensures n in given <==> end <= Paging.KERNBASE + Paging.PGSIZE * n && n < FOUR_MB / Paging.PGSIZE {
      assert n in given <==> n in free0;
    }
    assert forall n :: n in mem.free || n in mem.use ==> n in given;
    ghost var free1 := mem.free;
    mem.Freerange(Paging.KERNBASE + FOUR_MB, Paging.KERNBASE + Paging.PHYSTOP, {});
    forall n: nat ensures n in mem.Pages() <==> end <= Paging.KERNBASE + Paging.PGSIZE * n && n < Paging.NFRAME {
      assert n in mem.Pages() <==> n in given || n in mem.free;
      assert n in given <==> n in mem.use || n in free1;
    }
  }

  /** Setting up an address space takes no page from the allocator's hands and gives it none. */
  lemma PagesStay(free0: seq<nat>, use: map<nat, Paging.Use>, free: seq<nat>, d: nat)
    requires d == 0 ==> use == map[] && Paging.AsSet(free) == Paging.AsSet(free0)
    requires d != 0 ==>
               free0 != [] && d == free0[0] && Paging.MoreTables(map[d := Paging.Dir], free0[1..], use, free, d)
    ensures forall n :: n in use.Keys + Paging.AsSet(free) <==> n in free0
  {
    if d != 0 {
      assert free0 == [free0[0]] + free0[1..];
      assert use.Keys + Paging.AsSet(free) == {d} + Paging.AsSet(free0[1..]);
    }
  }

  /** Every page in use is the kernel stack of the process or belongs to one of two address
      spaces, that of the process and the kernel's own (if kpgdir is not 0). */
  ghost predicate PagesPlaced(use: map<nat, Paging.Use>, kstack: nat, pgdir: nat, kpgdir: nat) {
    && kstack in use && use[kstack] == Paging.Held && Paging.IsDir(use, pgdir)
    && kpgdir != pgdir && (kpgdir != 0 ==> Paging.IsDir(use, kpgdir))
    && forall n :: n in use ==> n == kstack || Paging.Belongs(use, pgdir, n) || Paging.Belongs(use, kpgdir, n)
  }

  lemma PlacedIsDir(use: map<nat, Paging.Use>, kstack: nat, pgdir: nat, kpgdir: nat)
    requires PagesPlaced(use, kstack, pgdir, kpgdir)
    ensures Paging.IsDir(use, pgdir)
  {
  }

  lemma PlacedAfterStart(use0: map<nat, Paging.Use>, use: map<nat, Paging.Use>, kstack: nat, pgdir: nat, kpgdir: nat)
    requires Processes.OneProcessMore(use0, use, kstack, pgdir) && pgdir != 0
    requires kpgdir != 0 ==> Paging.IsDir(use0, kpgdir)
    requires forall n :: n in use0 ==> kpgdir != 0 && Paging.Belongs(use0, kpgdir, n)
    ensures PagesPlaced(use, kstack, pgdir, kpgdir)
  {
    forall n | n in use0 ensures Paging.Belongs(use, kpgdir, n) {
      assert Paging.Belongs(use0, kpgdir, n);
    }
  }

  lemma PlacedAfterExec(use0: map<nat, Paging.Use>, free0: seq<nat>, ram0: seq<Paging.Page>, use: map<nat, Paging.Use>,
        free: seq<nat>, ram: seq<Paging.Page>, kstack: nat, was: nat, now: nat, kpgdir: nat)
    requires PagesPlaced(use0, kstack, was, kpgdir) && now !in use0 && now != 0 && Paging.IsDir(use, now)
    requires Processes.Replaced(use0, free0, ram0, use, free, ram, was, now)
    ensures PagesPlaced(use, kstack, now, kpgdir)
    ensures use.Keys + Paging.AsSet(free) == use0.Keys + Paging.AsSet(free0)
  {
    hide Paging.AsSet, Paging.SameSpaces, Paging.DataKept;
    forall n | n in use ensures n == kstack || Paging.Belongs(use, now, n) || Paging.Belongs(use, kpgdir, n) {
      if n in use0 && n !in Paging.SpaceOf(use0, was) {
        assert Paging.Belongs(use0, was, n) ==> n in Paging.SpaceOf(use0, was);
        assert n == kstack || Paging.Belongs(use0, kpgdir, n);
      } else {
        assert n in Paging.SpaceOf(use, now);
      }
    }
  }

  /** The kernel and its one process between calls: the reference counts balance, the two agree on
      the file system and the working directory, the process has an address space in sound
      memory, and no page is lost: each one is free or has its place. */
  ghost predicate Up(p: Processes.Process, k: Descriptors.Kernel, kpgdir: nat)
    reads p, p.mem, k, k.fs, k.fs.cache, k.fs.cache.ide
  {
    && k.Balanced() && k.fs == p.fs && k.cwd == p.cwd
    && p.mem.Sound({}) && PagesPlaced(p.mem.use, p.kstack, p.pgdir, kpgdir)
  }

  /** The kernel's start: the file system of the image, memory from the end of the kernel up, the
      first process, and no file open.  The calls on files and exec keep it up from here on. */
  method StartKernel(files: seq<HostFile>, other: Blocks, data: nat, ram: seq<Paging.Page>, end: u32, init: seq<byte>)
    returns (p: Processes.Process, k: Descriptors.Kernel, kpgdir: nat)
    requires Fits(files) && (|files| + 2) % 32 != 0 && |other| == FSSIZE
    requires |ram| == Paging.NFRAME && Paging.KERNLINK / Paging.PGSIZE < data && data * Paging.PGSIZE <= end
    requires end <= Paging.KERNBASE + FOUR_MB && |init| < Paging.PGSIZE
    ensures fresh(p) && fresh(p.mem) && fresh(k) && fresh(k.fs) && fresh(k.fs.cache) && fresh(k.fs.cache.ide)
    ensures Up(p, k, kpgdir) && k.fs.Files() == Image(files) && Paths.CanResolve(p.fs, p.cwd)
    ensures p.fs.Inum(p.cwd) == ROOTINO && p.fs.refs == multiset{ROOTINO} && p.fs.cache.held == multiset{}
    ensures k.ofile == seq(Descriptors.NOFILE, _ => None) && |k.ftable| == Descriptors.NFILE
    ensures forall f: nat :: f < Descriptors.NFILE ==> k.ftable[f].ref == 0 && k.ftable[f].kind == Descriptors.FdNone
    ensures p.name == Processes.INIT_NAME && p.sz == Paging.PGSIZE && p.eip == 0 && p.esp == Paging.PGSIZE
    ensures p.mem.data == data && Processes.Extent(p.mem.ram, p.pgdir, 1)
    ensures forall a: nat :: a < Paging.PGSIZE ==>
              Paging.ByteAt(p.mem.ram, p.pgdir, a) == if a < |init| then init[a] else 0
    ensures forall n: nat :: n in p.mem.Pages() <==> end <= Paging.KERNBASE + Paging.PGSIZE * n && n < Paging.NFRAME
  {
    hide Fits, Image, FileSystem.Sound, FileSystem.Files, Memories.Memory.Sound, TreeOk, Paging.UserPage,
         Paging.ByteAt, Paging.SameSpaces, Descriptors.Kernel.Balanced, PagesPlaced, Processes.OneProcessMore,
         Paging.Belongs;
    RootInImage(files);
    var fs := BootImage(files, other);
    fs.FileFields(ROOTINO);
    var mem;
    mem, kpgdir := StartMemory(data, ram, end);
    ghost var use0 := mem.use;
    p := Processes.Uinit(mem, fs, init);
    PlacedAfterStart(use0, mem.use, p.kstack, p.pgdir, kpgdir);
    fs.FileFields(ROOTINO);
    k := new Descriptors.Kernel(fs, p.cwd);
  }

  lemma RootInImage(files: seq<HostFile>)
    requires Fits(files)
    ensures |files| + 2 <= NINODES && Image(files)[ROOTINO].typ == T_DIR
  {
    hide Used, EncodeAll, RootEntries;
  }

  /** What exec has done to the process: on 0 it runs the program the path stands for; on -1 it is as
      before, with its memory, and there was no file, or none exec takes with these arguments, or
      too little memory. */
  twostate predicate DidExec(p: Processes.Process, r: int, path: seq<byte>, argv: seq<seq<byte>>)
    reads p, p.mem, p.fs, p.fs.cache, p.fs.cache.ide
  {
    var found, F := old(p.Found(path)), old(p.fs.Files());
    && (found.Some? ==> found.value < |F|)
    && (r == 0 ==>
          && found.Some? && Processes.Runnable(F[found.value].bytes, argv)
          && p.Running(F[found.value].bytes, argv) && p.StartedFrom(F[found.value].bytes)
          && Processes.IsName(path, p.name))
    && (r != 0 ==>
          && (found.None? || !Processes.Runnable(F[found.value].bytes, argv)
              || |old(p.mem.free)| < Processes.PagesEnough(F[found.value].bytes))
          && p.Restored(old(p.mem.use), old(p.mem.free), old(p.mem.ram))
          && p.pgdir == old(p.pgdir) && p.sz == old(p.sz) && p.eip == old(p.eip) && p.esp == old(p.esp)
          && p.name == old(p.name))
  }

  /** exec loses no page: every page in use still has its place. */
  method ExecKeepsPages(p: Processes.Process, ghost kpgdir: nat, path: seq<byte>, argv: seq<seq<byte>>)
    returns (r: int)
    requires p.CanExec(path, argv) && PagesPlaced(p.mem.use, p.kstack, p.pgdir, kpgdir)
    modifies p, p.mem, p.fs`sb, p.fs`icache, p.fs`ino, p.fs`owner, p.fs`refs, p.fs`entry, p.fs.cache, p.fs.cache.ide
    ensures r in {0, -1} && p.cwd == old(p.cwd) && p.mem.Sound({}) && p.mem.Pages() == old(p.mem.Pages())
    ensures DidExec(p, r, path, argv)
    ensures PagesPlaced(p.mem.use, p.kstack, p.pgdir, kpgdir)
    ensures p.fs.Sound({}) && Paths.Untouched(p.fs) && Handles(old(p.fs.icache), p.fs.icache)
    ensures p.fs.refs == old(p.fs.refs)
  {
    hide FileSystem.Sound, FileSystem.D, FilesOf, Handles, Memories.Memory.Sound, Paging.AsSet, Paging.SameSpaces,
         Paging.DataKept, PagesPlaced, Processes.Replaced, Processes.Runnable, Processes.Process.CanExec;
    ghost var use0, free0, ram0, was := p.mem.use, p.mem.free, p.mem.ram, p.pgdir;
    r := p.Exec(path, argv);
    if r == 0 {
      NoPageZero(p.mem, p.pgdir);
      PlacedAfterExec(use0, free0, ram0, p.mem.use, p.mem.free, p.mem.ram, p.kstack, was, p.pgdir, kpgdir);
    }
  }

  lemma NoPageZero(mem: Memories.Memory, n: nat)
    requires mem.Sound({}) && n in mem.use
    ensures n != 0
  {
    hide Paging.Tables, Paging.Users, Paging.Kernels;
  }

  /** exec, called by the process of a kernel that is up: it leaves the kernel up, with the same
      files and references, whether or not the process now runs the program. */
  method ExecKeepsUp(p: Processes.Process, k: Descriptors.Kernel, ghost kpgdir: nat, path: seq<byte>,
        argv: seq<seq<byte>>)
    returns (r: int)
    requires Up(p, k, kpgdir) && 0 !in path && p.Takes(path, argv)
    modifies p, p.mem, p.fs`sb, p.fs`icache, p.fs`ino, p.fs`owner, p.fs`refs, p.fs`entry, p.fs.cache, p.fs.cache.ide
    ensures Up(p, k, kpgdir) && r in {0, -1} && p.mem.Pages() == old(p.mem.Pages())
    ensures DidExec(p, r, path, argv)
    ensures k.fs.Files() == old(k.fs.Files()) && k.fs.refs == old(k.fs.refs)
  {
    hide FileSystem.Sound, FileSystem.D, FilesOf, TreeOk, Memories.Memory.Sound, Memories.Memory.Pages,
         Descriptors.Accounts, Handles, Processes.Process.Takes, PagesPlaced;
    PlacedIsDir(p.mem.use, p.kstack, p.pgdir, kpgdir);
    k.InsideFacts(Descriptors.NFILE, multiset{});
    k.FewReferences();
    k.RootInTable();
    ghost var before, ino0, refs0 := k.fs.icache, k.fs.ino, k.fs.refs;
    r := ExecKeepsPages(p, kpgdir, path, argv);
    k.InsideAfter(before, ino0, refs0, multiset{});
  }
}
