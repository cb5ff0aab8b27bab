/** Directory lookup, linking and path resolution. */
module Paths {
  import opened Bytes
  import opened Layout
  import opened Ide
  import opened Bio
  import opened FsState
  import opened FsInodes
  import opened FileSystems
  import opened Directories
  import opened Wrappers

  /** The first position from start that holds no slash. */
  method SkipSlashes(path: seq<byte>, start: nat) returns (p: nat)
    requires start <= |path|
    ensures start <= p <= |path| && (p < |path| ==> path[p] != SLASH)
    ensures Names(path[start..]) == Names(path[p..])
  {
    hide Names;
    p := start;
    while p < |path| && path[p] == SLASH
      invariant start <= p <= |path| && Names(path[start..]) == Names(path[p..])
    {
      NamesAfterSlash(path[p..]);
      assert path[p..][1..] == path[p + 1..];
      p := p + 1;
    }
  }

  /** The first component of a path and what follows it and its slashes. */
  method Skipelem(path: seq<byte>) returns (rest: Option<seq<byte>>, name: Name)
    requires 0 !in path
    ensures rest.None? ==> Names(path) == []
    ensures rest.Some? ==> Names(path) == [name] + Names(rest.value)
    ensures rest.Some? ==> |rest.value| < |path| && 0 !in rest.value && (Names(rest.value) == [] <==> rest.value == [])
    ensures |name| <= DIRSIZ && 0 !in name
  {
    hide Names;
    var s := SkipSlashes(path, 0);
    assert path[0..] == path;
    NamesOfNothing();
    if s == |path| {
      assert path[s..] == [];
      return None, [];
    }
    var p := s;
    while p < |path| && path[p] != SLASH
      invariant s <= p <= |path| && SLASH !in path[s..p]
      invariant p == s ==> p < |path| && path[p] != SLASH
    {
      p := p + 1;
    }
    name := Cut(path[s..p]);
    assert path[s..] == path[s..p] + path[p..];
    NamesOfFirst(path[s..p], path[p..]);
    var q := SkipSlashes(path, p);
    if q < |path| {
      NamesOfSome(path[q..]);
    } else {
      assert path[q..] == [];
    }
    return Some(path[q..]), name;
  }

  /** Nothing on the disk and no inode has changed. */
  twostate predicate Untouched(fs: FileSystem)
    reads fs, fs.cache, fs.cache.ide
  {
    && fs.sb == old(fs.sb) && fs.D() == old(fs.D()) && fs.ino == old(fs.ino) && fs.owner == old(fs.owner)
    && fs.cache.held == old(fs.cache.held)
  }

  /** dp is a locked directory. */
  ghost predicate LockedDir(fs: FileSystem, dp: nat)
    reads fs, fs.cache, fs.cache.ide
  {
    fs.Sound({}) && fs.Locked(dp) && fs.Rec(dp).typ == T_DIR && fs.Room(2)
  }

  /** The bytes of the directory at dp. */
  ghost function Dir(fs: FileSystem, dp: nat): seq<byte>
    reads fs, fs.cache, fs.cache.ide
  {
    FileBytes(fs.D(), fs.Rec(dp), fs.Rec(dp).size)
  }

  /** The directory record at off; it is always read whole. */
  method ReadEntry(fs: FileSystem, dp: nat, off: nat) returns (de: Dirent)
    requires LockedDir(fs, dp) && off % DIRENT_SIZE == 0 && off < fs.Rec(dp).size && fs.Rec(dp).size % DIRENT_SIZE == 0
    modifies fs`icache, fs`ino, fs`owner, fs.cache, fs.cache.ide
    ensures fs.Sound({}) && Untouched(fs) && fs.icache == old(fs.icache)
    ensures off / DIRENT_SIZE < |Entries(Dir(fs, dp))| && de == Entries(Dir(fs, dp))[off / DIRENT_SIZE]
  {
    hide FileSystem.Base, FileSystem.D, Agree, Laid, FileBytes, DecodeDirent;
    fs.LockedFile(dp);
    assert off + DIRENT_SIZE <= fs.Rec(dp).size;
    var r, bytes := fs.Readi(dp, off, DIRENT_SIZE);
    de := DecodeDirent(bytes);
  }

  /** The comparison of names in a record's padded form is equality of names. */
  lemma NamecmpFinds(name: Name, de: Dirent)
    requires |name| <= DIRSIZ && 0 !in name
    ensures Strncmp(Padded(name), de.name, DIRSIZ) == 0 <==> Chars(de.name) == name
  {
    StrncmpIsEquality(Padded(name), de.name, DIRSIZ);
    CharsOfPadded(name);
    assert Padded(name)[..DIRSIZ] == Padded(name) && de.name[..DIRSIZ] == de.name;
  }

  lemma LockedDev(fs: FileSystem, ip: nat)
    requires fs.Sound({}) && fs.Ref(ip)
    ensures fs.icache[ip].dev == ROOTDEV && fs.Inum(ip) in fs.refs
  {
    hide BufferCache.Valid, Agree;
    AgreeFacts(fs.D(), fs.sb, fs.ino, fs.owner, fs.icache, fs.refs, fs.entry, {});
    AgreeEntries(fs.D(), fs.sb, fs.ino, fs.owner, fs.icache, fs.refs, fs.entry, {});
  }

  /** Record k is the first in use with this name. */
  ghost predicate Carries(es: seq<Dirent>, k: nat, name: Name) {
    k < |es| && es[k].inum != 0 && Chars(es[k].name) == name && name !in MapOf(es[..k])
  }

  /** The inode the directory at dp binds name to, with a reference to it, and the offset of the
      first record with the name. */
  method Dirlookup(fs: FileSystem, dp: nat, name: Name) returns (r: Option<nat>, off: nat)
    requires LockedDir(fs, dp) && fs.Rec(dp).size % DIRENT_SIZE == 0 && |fs.refs| < NINODE
    requires |name| <= DIRSIZ && 0 !in name
    requires forall k: nat :: k < |Entries(Dir(fs, dp))| ==> Entries(Dir(fs, dp))[k].inum as int < |fs.ino|
    modifies fs`icache, fs`ino, fs`owner, fs`refs, fs`entry, fs.cache, fs.cache.ide
    ensures fs.Sound({}) && Untouched(fs)
    ensures r.None? <==> name !in DirMap(old(Dir(fs, dp)))
    ensures r.None? ==> fs.icache == old(fs.icache) && fs.refs == old(fs.refs)
    ensures r.Some? ==>
              && fs.Ref(r.value) && fs.Inum(r.value) == DirMap(old(Dir(fs, dp)))[name]
              && fs.refs == old(fs.refs) + multiset{fs.Inum(r.value)}
              && Steady(old(fs.icache), fs.icache) && NoneLost(old(fs.icache), fs.icache)
              && |fs.icache| == old(|fs.icache|) && fs.icache[r.value].ref == old(fs.icache[r.value].ref) + 1
              && (fs.Inum(r.value) !in old(fs.refs) ==> !fs.icache[r.value].valid && fs.icache[r.value].ref == 1)
    ensures r.Some? ==> off % DIRENT_SIZE == 0 && Carries(Entries(old(Dir(fs, dp))), off / DIRENT_SIZE, name)
  {
    hide FileSystem.Base, FileSystem.D, Agree, Laid, FileBytes, MapOf, Chars, Strncmp, Steady, NoneLost,
         Entries, Padded;
    LockedDev(fs, dp);
    ghost var es := Entries(Dir(fs, dp));
    off := 0;
    ghost var k := 0;
    assert es[..0] == [];
    NothingBound();
    while off < fs.icache[dp].rec.size
      invariant fs.Sound({}) && Untouched(fs) && fs.icache == old(fs.icache) && fs.refs == old(fs.refs)
                  && fs.entry == old(fs.entry)
      invariant off == DIRENT_SIZE * k && k <= |es|
      invariant name !in MapOf(es[..k])
    {
      var de := ReadEntry(fs, dp, off);
      assert de == es[k];
      NamecmpFinds(name, de);
      ScanStep(es, k, name);
      if de.inum != 0 && Strncmp(Padded(name), de.name, DIRSIZ) == 0 {
        var ip := fs.Iget(fs.icache[dp].dev, de.inum);
        return Some(ip), off;
      }
      off := off + DIRENT_SIZE;
      k := k + 1;
    }
    assert es[..k] == es;
    return None, off;
  }

  /** A directory of these bytes can take one more record: one is free, or it can grow into the free blocks. */
  ghost predicate RoomIn(dir: seq<byte>, free: nat) {
    || (exists k: nat :: k < |Entries(dir)| && Entries(dir)[k].inum == 0)
    || (|dir| + DIRENT_SIZE <= MAXFILE * BSIZE && free >= Cost(BlocksFor(|dir|), BlocksFor(|dir| + DIRENT_SIZE)))
  }

  /** A record can be added to the directory at dp. */
  ghost predicate CanLink(fs: FileSystem, dp: nat)
    reads fs, fs.cache, fs.cache.ide
  {
    RoomIn(Dir(fs, dp), |FreeSet(fs.D(), fs.sb)|)
  }

  /** The scan of dirlink: the offset of the first free record, or the end. */
  method FindVacant(fs: FileSystem, dp: nat) returns (off: nat)
    requires LockedDir(fs, dp) && fs.Rec(dp).size % DIRENT_SIZE == 0
    modifies fs`icache, fs`ino, fs`owner, fs.cache, fs.cache.ide
    ensures fs.Sound({}) && Untouched(fs) && fs.icache == old(fs.icache)
    ensures off % DIRENT_SIZE == 0 && Vacant(Dir(fs, dp), off / DIRENT_SIZE)
    ensures forall k: nat :: k < off / DIRENT_SIZE ==> Entries(Dir(fs, dp))[k].inum != 0
  {
    hide FileSystem.Base, FileSystem.D, Agree, Laid, FileBytes;
    ghost var es := Entries(Dir(fs, dp));
    off := 0;
    ghost var k := 0;
    while off < fs.icache[dp].rec.size
      invariant fs.Sound({}) && Untouched(fs) && fs.icache == old(fs.icache)
      invariant off == DIRENT_SIZE * k && k <= |es|
      invariant forall j: nat :: j < k ==> es[j].inum != 0
    {
      var de := ReadEntry(fs, dp, off);
      if de.inum == 0 {
        return;
      }
      off := off + DIRENT_SIZE;
      k := k + 1;
    }
  }

  lemma ValidIsLocked(fs: FileSystem, ip: nat)
    requires fs.Sound({}) && fs.Ref(ip) && fs.icache[ip].valid
    ensures fs.Locked(ip)
  {
    hide BufferCache.Valid, Agree;
    AgreeFacts(fs.D(), fs.sb, fs.ino, fs.owner, fs.icache, fs.refs, fs.entry, {});
    AgreeLocked(fs.D(), fs.sb, fs.ino, fs.owner, fs.icache, fs.refs, fs.entry, ip);
  }

  /** Whether the directory at dp binds name; an inode found is put back. */
  method IsBound(fs: FileSystem, dp: nat, name: Name) returns (bound: bool)
    requires LockedDir(fs, dp) && fs.Rec(dp).size % DIRENT_SIZE == 0 && |fs.refs| < NINODE
    requires |name| <= DIRSIZ && 0 !in name
    requires forall k: nat :: k < |Entries(Dir(fs, dp))| ==> (Entries(Dir(fs, dp))[k].inum as int) < |fs.ino|
    modifies fs`sb, fs`icache, fs`ino, fs`owner, fs`refs, fs`entry, fs.cache, fs.cache.ide
    ensures fs.Sound({}) && Untouched(fs) && fs.refs == old(fs.refs)
    ensures Handles(old(fs.icache), fs.icache) && fs.Locked(dp)
    ensures bound <==> name in DirMap(old(Dir(fs, dp)))
    ensures !bound ==> fs.icache == old(fs.icache)
  {
    hide FileSystem.Base, FileSystem.D, FilesOf, Agree, Laid, FileBytes, Entries, DirMap, Handles, Steady,
         NoneLost, FreeSet;
    ghost var before := fs.icache;
    var found, off := Dirlookup(fs, dp, name);
    if found.None? {
      HandlesRefl(before);
      return false;
    }
    HandlesFromSteady(before, fs.icache);
    JustFetchedStays(fs, found.value, old(fs.refs));
    ghost var mid := fs.icache;
    fs.Iput(found.value);
    HandlesAfterPut(before, mid, fs.icache, found.value);
    HandleOf(before, fs.icache, dp);
    ValidIsLocked(fs, dp);
    return true;
  }

  lemma HandlesRefl(a: seq<Inode>)
    ensures Handles(a, a)
  {
  }

  lemma HandlesAfterDup(before: seq<Inode>, after: seq<Inode>, ip: nat)
    requires ip < |before| && after == before[ip := before[ip].(ref := before[ip].ref + 1)]
    ensures Handles(before, after)
  {
  }

  lemma HandleOf(before: seq<Inode>, after: seq<Inode>, e: nat)
    requires Handles(before, after) && e < |before| && before[e].ref > 0
    ensures |after| == |before| && after[e].ref > 0 && after[e].inum == before[e].inum
              && (before[e].valid ==> after[e].valid)
  {
  }

  /** Binds a new name in a directory, or refuses one that is bound. */
  method Dirlink(fs: FileSystem, dp: nat, name: Name, inum: u16) returns (r: int)
    requires LockedDir(fs, dp) && DirOk(fs.Files(), Dir(fs, dp)) && |fs.refs| < NINODE
    requires |name| <= DIRSIZ && 0 !in name
    requires inum != 0 && (inum as nat) < |fs.ino| && fs.ino[inum].typ != 0
    requires name !in DirMap(Dir(fs, dp)) ==> CanLink(fs, dp)
    modifies fs`icache, fs`ino, fs`owner, fs`refs, fs`entry, fs`sb, fs.cache, fs.cache.ide
    ensures fs.Sound({}) && fs.refs == old(fs.refs) && fs.sb == old(fs.sb) && fs.cache.held == old(fs.cache.held)
    ensures Handles(old(fs.icache), fs.icache) && fs.Locked(dp)
    ensures r == if name in DirMap(old(Dir(fs, dp))) then -1 else 0
    ensures r == -1 ==> Untouched(fs)
    ensures r == 0 ==>
              && fs.Inum(dp) < |old(fs.Files())|
              && fs.Files() == old(fs.Files())[fs.Inum(dp) := old(fs.Files())[fs.Inum(dp)].(bytes := Dir(fs, dp))]
              && DirMap(Dir(fs, dp)) == DirMap(old(Dir(fs, dp)))[name := inum as nat]
              && DirOk(fs.Files(), Dir(fs, dp))
  {
    hide FileSystem.Base, FileSystem.D, FilesOf, Agree, Laid, FileBytes, Entries, DirOk, DirMap, Padded,
         Handles, Steady, NoneLost, FreeSet;
    ghost var dir, F, before := Dir(fs, dp), fs.Files(), fs.icache;
    fs.LockedFile(dp);
    EntriesInUse(F, dir);
    var bound := IsBound(fs, dp, name);
    if bound {
      return -1;
    }
    var off := FindVacant(fs, dp);
    ghost var k := off / DIRENT_SIZE;
    var e := Dirent(inum, Padded(name));
    fs.LockedFile(dp);
    fs.FileFields(inum);
    LinkedIsInsert(F, dir, k, name, inum);
    RoomForRecord(fs, dp, k);
    r := fs.Writei(dp, EncodeDirent(e), off);
    fs.LockedFile(dp);
    HandlesAfterRec(before, fs.icache, dp, fs.Rec(dp));
    SameTypes(F, fs.Files(), fs.Inum(dp), Linked(dir, k, e));
    DirOkByTypes(F, fs.Files(), Dir(fs, dp));
    return 0;
  }

  lemma EntriesInUse(F: seq<File>, dir: seq<byte>)
    requires DirOk(F, dir)
    requires |F| > 0
    ensures forall k: nat :: k < |Entries(dir)| ==> (Entries(dir)[k].inum as int) < |F|
    ensures |dir| % DIRENT_SIZE == 0
  {
  }

  lemma SameTypes(F: seq<File>, G: seq<File>, i: nat, bytes: seq<byte>)
    requires i < |F| && G == F[i := F[i].(bytes := bytes)]
    ensures forall j :: 0 <= j < |F| ==> G[j].typ == F[j].typ
  {
  }

  /** DirOk looks only at types. */
  lemma DirOkByTypes(F: seq<File>, G: seq<File>, dir: seq<byte>)
    requires DirOk(F, dir) && |G| == |F| && forall i :: 0 <= i < |F| ==> G[i].typ == F[i].typ
    ensures DirOk(G, dir)
  {
  }

  lemma HandlesAfterRec(before: seq<Inode>, after: seq<Inode>, ip: nat, d: Dinode)
    requires ip < |before| && after == before[ip := before[ip].(rec := d)]
    ensures Handles(before, after)
  {
  }

  /** dirlink's record fits, at the price CanLink allows for. */
  lemma RoomForRecord(fs: FileSystem, dp: nat, k: nat)
    requires LockedDir(fs, dp) && fs.Rec(dp).size % DIRENT_SIZE == 0 && Vacant(Dir(fs, dp), k) && CanLink(fs, dp)
    requires fs.Rec(dp).size <= MAXFILE * BSIZE
    requires forall j: nat :: j < k ==> Entries(Dir(fs, dp))[j].inum != 0
    ensures var size, off: nat := fs.Rec(dp).size, DIRENT_SIZE * k;
            && off <= size && off + DIRENT_SIZE <= MAXFILE * BSIZE
            && |FreeSet(fs.D(), fs.sb)| >= Cost(BlocksFor(size), BlocksFor(Max(size, off + DIRENT_SIZE)))
  {
    hide FileSystem.Sound, FreeSet, FileBytes, BlocksFor;
    var size, off: nat := fs.Rec(dp).size, DIRENT_SIZE * k;
    CostZero(BlocksFor(size));
    if k < |Entries(Dir(fs, dp))| {
      assert Max(size, off + DIRENT_SIZE) == size;
    } else {
      assert off == size && Max(size, off + DIRENT_SIZE) == size + DIRENT_SIZE;
    }
  }

  /** A reference just added by iget is never the last one to an unlinked inode. */
  lemma JustFetchedStays(fs: FileSystem, ip: nat, refs: multiset<nat>)
    requires fs.Sound({}) && fs.Ref(ip) && fs.refs == refs + multiset{fs.Inum(ip)}
    requires fs.Inum(ip) !in refs ==> !fs.icache[ip].valid
    ensures !fs.LastOfUnlinked(ip)
  {
    hide BufferCache.Valid, Agree;
    AgreeFacts(fs.D(), fs.sb, fs.ino, fs.owner, fs.icache, fs.refs, fs.entry, {});
    AgreeLocked(fs.D(), fs.sb, fs.ino, fs.owner, fs.icache, fs.refs, fs.entry, ip);
  }

  lemma HandlesAfterPut(before: seq<Inode>, mid: seq<Inode>, after: seq<Inode>, ip: nat)
    requires Handles(before, mid) && Steady(before, mid) && ip < |mid| == |after| && after[ip].ref == mid[ip].ref - 1
    requires Steady(mid, after) && forall e: nat :: e < |mid| && e != ip ==> after[e] == mid[e]
    requires before[ip].ref > 0 ==> after[ip].ref > 0
    ensures Handles(before, after)
  {
  }

  // ---------- path resolution ----------

  /** Every entry in use holds one of the references counted by refs. */
  ghost predicate Counted(icache: seq<Inode>, refs: multiset<nat>) {
    forall e: nat :: e < |icache| && icache[e].ref > 0 ==> icache[e].inum in refs
  }

  lemma SoundIsCounted(fs: FileSystem)
    requires fs.Sound({})
    ensures Counted(fs.icache, fs.refs) && |fs.icache| == NINODE
  {
    hide BufferCache.Valid, Agree;
    AgreeFacts(fs.D(), fs.sb, fs.ino, fs.owner, fs.icache, fs.refs, fs.entry, {});
    AgreeEntries(fs.D(), fs.sb, fs.ino, fs.owner, fs.icache, fs.refs, fs.entry, {});
  }

  /** iput on a reference beyond those counted by refs0, to an inode with links: it only
      gives that reference back. */
  method PutExtra(fs: FileSystem, ip: nat, ghost before: seq<Inode>, ghost refs0: multiset<nat>)
    requires fs.Sound({}) && fs.Ref(ip) && fs.Room(2) && fs.Ino(fs.Inum(ip)).nlink != 0
    requires Handles(before, fs.icache) && Counted(before, refs0) && refs0 <= fs.refs - multiset{fs.Inum(ip)}
    modifies fs`sb, fs`icache, fs`ino, fs`owner, fs`refs, fs`entry, fs.cache, fs.cache.ide
    ensures fs.Sound({}) && Untouched(fs) && fs.refs == old(fs.refs) - multiset{old(fs.Inum(ip))}
    ensures Handles(before, fs.icache) && |fs.icache| == old(|fs.icache|)
    ensures fs.icache[ip].ref == old(fs.icache[ip].ref) - 1 && Steady(old(fs.icache), fs.icache)
    ensures forall e: nat :: e < |fs.icache| && e != ip ==> fs.icache[e] == old(fs.icache)[e]
  {
    hide FileSystem.Base, FileSystem.D, FilesOf, Agree, Steady, FreeSet;
    AgreeFacts(fs.D(), fs.sb, fs.ino, fs.owner, fs.icache, fs.refs, fs.entry, {});
    AgreeLocked(fs.D(), fs.sb, fs.ino, fs.owner, fs.icache, fs.refs, fs.entry, ip);
    HandleBack(before, fs.icache, refs0, fs.refs, ip);
    ghost var mid := fs.icache;
    fs.Iput(ip);
    HandlesAfterDrop(before, mid, fs.icache, ip);
  }

  lemma HandleBack(before: seq<Inode>, mid: seq<Inode>, refs0: multiset<nat>, refs: multiset<nat>, ip: nat)
    requires Handles(before, mid) && Counted(before, refs0) && ip < |mid|
    requires refs0 <= refs - multiset{mid[ip].inum} && refs[mid[ip].inum] == mid[ip].ref
    ensures before[ip].ref > 0 ==> mid[ip].ref > 1
  {
    if before[ip].ref > 0 {
      assert before[ip].inum in refs0;
      assert refs0[mid[ip].inum] <= (refs - multiset{mid[ip].inum})[mid[ip].inum];
    }
  }

  lemma HandlesAfterDrop(before: seq<Inode>, mid: seq<Inode>, after: seq<Inode>, ip: nat)
    requires Handles(before, mid) && ip < |mid| == |after| && after[ip].ref == mid[ip].ref - 1 && Steady(mid, after)
    requires forall e: nat :: e < |mid| && e != ip ==> after[e] == mid[e]
    requires mid[ip].ref > 0 && (before[ip].ref > 0 ==> mid[ip].ref > 1)
    ensures Handles(before, after)
  {
  }

  lemma TreeFacts(F: seq<File>, i: nat)
    requires TreeOk(F) && i < |F| && F[i].typ != 0
    ensures F[i].nlink != 0
    ensures F[i].typ == T_DIR ==>
              && DirOk(F, F[i].bytes) && |F[i].bytes| % DIRENT_SIZE == 0
              && forall nm :: nm in DirMap(F[i].bytes) ==>
                  DirMap(F[i].bytes)[nm] < |F| && F[DirMap(F[i].bytes)[nm]].typ != 0
  {
    if F[i].typ == T_DIR {
      MapOfInUse(F, Entries(F[i].bytes));
    }
  }

  lemma FetchedSurvives(mid: seq<Inode>, after: seq<Inode>, ip: nat, next: nat)
    requires ip < |mid| == |after| && next < |mid| && mid[next].ref > 0 && (next == ip ==> mid[ip].ref > 1)
    requires after[ip].ref == mid[ip].ref - 1 && Steady(mid, after)
    requires forall e: nat :: e < |mid| && e != ip ==> after[e] == mid[e]
    ensures after[next].ref > 0 && after[next].inum == mid[next].inum
  {
  }

  /** One turn of namex's loop past its tests: dirlookup, then iunlockput the directory. */
  method StepInto(fs: FileSystem, ip: nat, name: Name, ghost before: seq<Inode>, ghost refs0: multiset<nat>)
    returns (next: Option<nat>)
    requires LockedDir(fs, ip) && TreeOk(fs.Files()) && |fs.refs| < NINODE
    requires |name| <= DIRSIZ && 0 !in name
    requires Handles(before, fs.icache) && Counted(before, refs0) && fs.refs == refs0 + multiset{fs.Inum(ip)}
    modifies fs`sb, fs`icache, fs`ino, fs`owner, fs`refs, fs`entry, fs.cache, fs.cache.ide
    ensures fs.Sound({}) && Untouched(fs) && Handles(before, fs.icache)
    ensures old(fs.Inum(ip)) < |fs.Files()| && fs.Files() == old(fs.Files())
    ensures next.None? <==> name !in DirMap(fs.Files()[old(fs.Inum(ip))].bytes)
    ensures next.None? ==> fs.refs == refs0
    ensures next.Some? ==>
              && fs.Ref(next.value) && fs.Inum(next.value) == DirMap(fs.Files()[old(fs.Inum(ip))].bytes)[name]
              && fs.refs == refs0 + multiset{fs.Inum(next.value)}
              && fs.Ino(fs.Inum(next.value)).typ != 0
  {
    hide FileSystem.Base, FileSystem.D, FilesOf, FileBytes, Agree, Steady, NoneLost, Handles, DirMap, Entries,
         TreeOk, DirOk, Counted, Carries;
    fs.LockedFile(ip);
    ghost var F, i, mid := fs.Files(), fs.Inum(ip), fs.icache;
    fs.FileFields(i);
    TreeFacts(F, i);
    EntriesInUse(F, F[i].bytes);
    var off;
    next, off := Dirlookup(fs, ip, name);
    HandlesFromSteady(mid, fs.icache);
    HandleOf(mid, fs.icache, ip);
    HandlesTrans(before, mid, fs.icache);
    if next.Some? {
      fs.FileFields(fs.Inum(next.value));
    }
    ghost var fetched := fs.icache;
    PutExtra(fs, ip, before, refs0);
    if next.Some? {
      FetchedSurvives(fetched, fs.icache, ip, next.value);
    }
  }

  /** Where a path starts. */
  ghost function Start(fs: FileSystem, path: seq<byte>, cwd: nat): nat
    reads fs
  {
    if path != [] && path[0] == SLASH then ROOTINO else fs.Inum(cwd)
  }

  /** What the path stands for: its inode, or the directory of its last name. */
  ghost function Target(F: seq<File>, start: nat, path: seq<byte>, parent: bool): Option<nat> {
    if parent then WalkToParent(F, start, Names(path)) else Walk(F, start, Names(path))
  }

  /** What can be looked up: a well-formed tree with the root and cwd in it. */
  ghost predicate CanResolve(fs: FileSystem, cwd: nat)
    reads fs, fs.cache, fs.cache.ide
  {
    && fs.Sound({}) && fs.Room(2) && TreeOk(fs.Files()) && fs.Ref(cwd)
    && fs.Ino(ROOTINO).typ != 0 && fs.Ino(fs.Inum(cwd)).typ != 0
  }

  /** namex resolves a path by looking up its names one by one, and leaves one more reference,
      to the inode it returns. */
  method Namex(fs: FileSystem, path: seq<byte>, cwd: nat, parent: bool) returns (r: Option<nat>, name: Name)
    requires CanResolve(fs, cwd) && |fs.refs| + 2 <= NINODE && 0 !in path
    modifies fs`sb, fs`icache, fs`ino, fs`owner, fs`refs, fs`entry, fs.cache, fs.cache.ide
    ensures fs.Sound({}) && Untouched(fs) && Handles(old(fs.icache), fs.icache)
    ensures r.None? <==> Target(old(fs.Files()), old(Start(fs, path, cwd)), path, parent).None?
    ensures r.None? ==> fs.refs == old(fs.refs)
    ensures r.Some? ==>
              && fs.Ref(r.value) && fs.refs == old(fs.refs) + multiset{fs.Inum(r.value)}
              && Some(fs.Inum(r.value)) == Target(old(fs.Files()), old(Start(fs, path, cwd)), path, parent)
              && fs.Ino(fs.Inum(r.value)).typ != 0
    ensures r.Some? && parent ==>
              && fs.Locked(r.value) && fs.Rec(r.value).typ == T_DIR
              && Names(path) != [] && name == Names(path)[|Names(path)| - 1] && |name| <= DIRSIZ && 0 !in name
  {
    hide FileSystem.Sound, FileSystem.D, FilesOf, FileBytes, Handles, DirMap, TreeOk, Names, Target, Counted, Start;
    hide FileSystem.Ref, FileSystem.Locked, FileSystem.Rec, FileSystem.Inum, FileSystem.Ino, LockedDir, CanResolve;
    CanResolveFacts(fs, cwd);
    ghost var F, before, refs0, start := fs.Files(), fs.icache, fs.refs, Start(fs, path, cwd);
    var ip := BeginWalk(fs, path, cwd);
    var rest := path;
    ghost var done := [];
    name := [];
    assert [] + Names(path) == Names(path);
    while true
      invariant fs.Sound({}) && Untouched(fs) && fs.Files() == F && Handles(before, fs.icache)
          && fs.cache.held == old(fs.cache.held)
      invariant fs.Ref(ip) && fs.refs == refs0 + multiset{fs.Inum(ip)} && fs.Ino(fs.Inum(ip)).typ != 0
      invariant 0 !in rest && Names(path) == done + Names(rest)
      invariant Target(F, start, path, parent) == Target(F, fs.Inum(ip), rest, parent)
      decreases |rest|
    {
      var after, elem := Skipelem(rest);
      if after.None? {
        TargetEnd(F, fs.Inum(ip), rest);
        break;
      }
      name := elem;
      RefLinked(fs, ip);
      TargetStep(F, fs.Inum(ip), rest, after.value, name, parent);
      var next := Turn(fs, ip, name, parent && after.value == [], before, refs0);
      if next.None? {
        return None, name;
      }
      if parent && after.value == [] {
        return next, name;
      }
      ip, rest, done := next.value, after.value, done + [name];
    }
    if parent {
      RefLinked(fs, ip);
      PutExtra(fs, ip, before, refs0);
      return None, name;
    }
    return Some(ip), name;
  }

  lemma CanResolveFacts(fs: FileSystem, cwd: nat)
    requires CanResolve(fs, cwd)
    ensures Counted(fs.icache, fs.refs) && fs.Sound({}) && fs.Room(2) && TreeOk(fs.Files())
  {
    SoundIsCounted(fs);
  }

  lemma RefLinked(fs: FileSystem, ip: nat)
    requires fs.Ref(ip) && TreeOk(fs.Files()) && fs.Ino(fs.Inum(ip)).typ != 0
    ensures fs.Inum(ip) < |fs.Files()| && fs.Ino(fs.Inum(ip)).nlink != 0
  {
    hide TreeOk;
    fs.FileFields(fs.Inum(ip));
    TreeFacts(fs.Files(), fs.Inum(ip));
  }

  /** The body of namex's loop: lock, refuse a non-directory, stop at the parent, or look up. */
  method Turn(fs: FileSystem, ip: nat, name: Name, stop: bool, ghost before: seq<Inode>, ghost refs0: multiset<nat>)
    returns (next: Option<nat>)
    requires fs.Sound({}) && fs.Room(2) && fs.Ref(ip) && fs.Ino(fs.Inum(ip)).typ != 0
    requires TreeOk(fs.Files()) && |fs.refs| < NINODE && |name| <= DIRSIZ && 0 !in name
    requires Handles(before, fs.icache) && Counted(before, refs0) && fs.refs == refs0 + multiset{fs.Inum(ip)}
    modifies fs`sb, fs`icache, fs`ino, fs`owner, fs`refs, fs`entry, fs.cache, fs.cache.ide
    ensures fs.Sound({}) && Untouched(fs) && fs.Files() == old(fs.Files()) && Handles(before, fs.icache)
    ensures old(fs.Inum(ip)) < |fs.Files()|
    ensures next.None? <==>
              var f := fs.Files()[old(fs.Inum(ip))]; f.typ != T_DIR || (!stop && name !in DirMap(f.bytes))
    ensures next.None? ==> fs.refs == refs0
    ensures next.Some? ==>
              && fs.Ref(next.value) && fs.refs == refs0 + multiset{fs.Inum(next.value)}
              && fs.Ino(fs.Inum(next.value)).typ != 0
              && (!stop ==> fs.Inum(next.value) == DirMap(fs.Files()[old(fs.Inum(ip))].bytes)[name])
              && (stop ==>
                  next.value == ip && fs.Inum(ip) == old(fs.Inum(ip)) && fs.Locked(ip) && fs.Rec(ip).typ == T_DIR)
  {
    hide FileSystem.Base, FileSystem.D, FilesOf, FileBytes, Agree, Steady, NoneLost, Handles, DirMap, TreeOk, Counted;
    LockIt(fs, ip, before);
    fs.FileFields(fs.Inum(ip));
    if fs.icache[ip].rec.typ != T_DIR {
      TreeFacts(fs.Files(), fs.Inum(ip));
      PutExtra(fs, ip, before, refs0);
      return None;
    }
    if stop {
      return Some(ip);
    }
    next := StepInto(fs, ip, name, before, refs0);
  }

  /** The first inode of a walk: iget of the root, or idup of cwd. */
  method BeginWalk(fs: FileSystem, path: seq<byte>, cwd: nat) returns (ip: nat)
    requires CanResolve(fs, cwd) && |fs.refs| < NINODE
    modifies fs`icache, fs`refs, fs`entry
    ensures fs.Sound({}) && Untouched(fs) && Handles(old(fs.icache), fs.icache)
    ensures fs.Ref(ip) && fs.Inum(ip) == old(Start(fs, path, cwd)) && fs.refs == old(fs.refs) + multiset{fs.Inum(ip)}
    ensures fs.Ino(fs.Inum(ip)).typ != 0
  {
    hide FileSystem.Base, FileSystem.D, FilesOf, Agree, Steady, NoneLost, Handles, TreeOk;
    AgreeFacts(fs.D(), fs.sb, fs.ino, fs.owner, fs.icache, fs.refs, fs.entry, {});
    ghost var before := fs.icache;
    if path != [] && path[0] == SLASH {
      ip := fs.Iget(ROOTDEV, ROOTINO);
      HandlesFromSteady(before, fs.icache);
    } else {
      ip := cwd;
      fs.Idup(ip);
      HandlesAfterDup(before, fs.icache, ip);
    }
  }

  /** Locks an inode, keeping every handle. */
  method LockIt(fs: FileSystem, ip: nat, ghost before: seq<Inode>)
    requires fs.Sound({}) && fs.Ref(ip) && fs.Room(1) && fs.Ino(fs.Inum(ip)).typ != 0 && Handles(before, fs.icache)
    modifies fs`icache, fs.cache, fs.cache.ide
    ensures fs.Sound({}) && Untouched(fs) && fs.Locked(ip) && fs.Inum(ip) == old(fs.Inum(ip))
              && Handles(before, fs.icache)
  {
    hide FileSystem.Base, FileSystem.D, Agree;
    fs.Ilock(ip);
  }

  lemma TargetEnd(F: seq<File>, i: nat, rest: seq<byte>)
    requires Names(rest) == []
    ensures Target(F, i, rest, false) == Some(i) && Target(F, i, rest, true) == None
  {
  }

  /** What taking the first name off a path does to its target. */
  lemma TargetStep(F: seq<File>, i: nat, rest: seq<byte>, after: seq<byte>, name: Name, parent: bool)
    requires Names(rest) == [name] + Names(after) && i < |F|
    ensures F[i].typ != T_DIR ==> Target(F, i, rest, parent).None?
    ensures F[i].typ == T_DIR && parent && Names(after) == [] ==> Target(F, i, rest, parent) == Some(i)
    ensures F[i].typ == T_DIR && (!parent || Names(after) != []) ==>
              Target(F, i, rest, parent) ==
              if name in DirMap(F[i].bytes) then Target(F, DirMap(F[i].bytes)[name], after, parent) else None
  {
    hide Names, DirMap;
    assert Names(rest)[0] == name && Names(rest)[1..] == Names(after);
    WalkStep(F, i, Names(rest));
  }
}
