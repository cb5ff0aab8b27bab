/** Creating a file or a device: a new inode, and its name in a directory. */
module Calls {
  import opened Bytes
  import opened Layout
  import opened Ide
  import opened Bio
  import opened FsState
  import opened FsInodes
  import opened FileSystems
  import opened Directories
  import opened Paths
  import opened Wrappers

  // ---------- creating a file ----------

  /** A file can be made in a directory of these bytes: an inode is free, and the name has room. */
  ghost predicate CanMakeIn(F: seq<File>, dir: seq<byte>, free: nat) {
    && (exists i: nat :: 1 <= i < |F| && F[i].typ == 0)
    && RoomIn(dir, free)
  }

  /** If create comes to make a file, a free inode and room for the name in its directory are there. */
  ghost predicate CanMake(F: seq<File>, free: nat, target: Option<nat>, path: seq<byte>) {
    match target
    case None => true
    case Some(d) =>
      d < |F| && Names(path) != [] && Names(path)[|Names(path)| - 1] !in DirMap(F[d].bytes)
      ==> CanMakeIn(F, F[d].bytes, free)
  }

  /** Every referenced inode is in use. */
  ghost predicate AllInUse(refs: multiset<nat>, F: seq<File>) {
    forall i :: i in refs ==> i < |F| && F[i].typ != 0
  }

  lemma TreeWithNewFile(F: seq<File>, i: nat, f: File)
    requires TreeOk(F) && i < |F| && F[i].typ == 0 && f.typ !in {0, T_DIR} && f.nlink != 0
    ensures TreeOk(F[i := f])
  {
    var G := F[i := f];
    forall d | 0 <= d < |G| && G[d].typ == T_DIR ensures DirOk(G, G[d].bytes) {
      assert G[d] == F[d] && DirOk(F, F[d].bytes);
    }
  }

  lemma TreeWithDir(F: seq<File>, d: nat, bytes: seq<byte>)
    requires TreeOk(F) && d < |F| && DirOk(F[d := F[d].(bytes := bytes)], bytes)
    ensures TreeOk(F[d := F[d].(bytes := bytes)])
  {
    var G := F[d := F[d].(bytes := bytes)];
    forall j | 0 <= j < |G| && G[j].typ == T_DIR ensures DirOk(G, G[j].bytes) {
      if j != d {
        DirOkByTypes(F, G, F[j].bytes);
      }
    }
  }

  /** The second half of create: a new inode, and its name in the directory at dp. */
  method CreateIn(fs: FileSystem, dp: nat, name: Name, typ: u16, major: u16, minor: u16) returns (ip: nat)
    requires LockedDir(fs, dp) && TreeOk(fs.Files()) && |fs.refs| + 2 <= NINODE
    requires |name| <= DIRSIZ && 0 !in name && name !in DirMap(Dir(fs, dp))
    requires typ in {T_FILE, T_DEV} && AllInUse(fs.refs, fs.Files())
    requires CanMakeIn(fs.Files(), Dir(fs, dp), |FreeSet(fs.D(), fs.sb)|)
    modifies fs`sb, fs`icache, fs`ino, fs`owner, fs`refs, fs`entry, fs.cache, fs.cache.ide
    ensures fs.Sound({}) && fs.sb == old(fs.sb) && fs.cache.held == old(fs.cache.held)
    ensures Handles(old(fs.icache), fs.icache) && fs.Ref(dp) && fs.Inum(dp) == old(fs.Inum(dp))
    ensures fs.Locked(ip) && fs.refs == old(fs.refs) + multiset{fs.Inum(ip)}
    ensures TreeOk(fs.Files()) && Created(old(fs.Files()), fs.Files(), fs.Inum(dp), name, fs.Inum(ip),
              File(typ, major, minor, 1, []))
  {
    hide FileSystem.Base, FileSystem.D, FilesOf, FileBytes, Agree, Handles, DirMap, TreeOk, Entries, DirOk,
         Laid, FreeSet, RoomIn;
    ghost var F, before, d, dir := fs.Files(), fs.icache, fs.Inum(dp), Dir(fs, dp);
    fs.LockedFile(dp);
    ip := NewInode(fs, typ, major, minor);
    ghost var i, mid := fs.Inum(ip), fs.icache;
    HandleOf(before, mid, dp);
    ValidIsLocked(fs, dp);
    fs.LockedFile(dp);
    TreeWithNewFile(F, i, File(typ, major, minor, 1, []));
    TreeHasDir(fs.Files(), d);
    InodesFit(fs);
    fs.FileFields(i);
    var r := Dirlink(fs, dp, name, fs.icache[ip].inum);
    HandlesTrans(before, mid, fs.icache);
    HandleOf(mid, fs.icache, ip);
    HandleOf(mid, fs.icache, dp);
    ValidIsLocked(fs, ip);
    TreeWithDir(F[i := File(typ, major, minor, 1, [])], d, Dir(fs, dp));
  }

  lemma TreeHasDir(F: seq<File>, d: nat)
    requires TreeOk(F) && d < |F| && F[d].typ == T_DIR
    ensures DirOk(F, F[d].bytes)
  {
  }

  lemma InodesFit(fs: FileSystem)
    requires fs.Sound({})
    ensures |fs.ino| < 0x1_0000
  {
    hide BufferCache.Valid, Agree;
    AgreeFacts(fs.D(), fs.sb, fs.ino, fs.owner, fs.icache, fs.refs, fs.entry, {});
  }

  /** The lowest free inode, locked, described as a file of one link and written back.
      The "create: ialloc" complaint is never reached, as there is a free inode. */
  method NewInode(fs: FileSystem, typ: u16, major: u16, minor: u16) returns (ip: nat)
    requires fs.Sound({}) && fs.Room(1) && |fs.refs| < NINODE && typ != 0 && AllInUse(fs.refs, fs.Files())
    requires exists i: nat :: 1 <= i < |fs.ino| && fs.Files()[i].typ == 0
    modifies fs`icache, fs`ino, fs`refs, fs`entry, fs.cache, fs.cache.ide
    ensures fs.Sound({}) && fs.cache.held == old(fs.cache.held) && FreeSet(fs.D(), fs.sb) == old(FreeSet(fs.D(), fs.sb))
    ensures Handles(old(fs.icache), fs.icache) && fs.Locked(ip) && fs.refs == old(fs.refs) + multiset{fs.Inum(ip)}
    ensures var i := fs.Inum(ip); var F := old(fs.Files());
            && 1 <= i < |F| && F[i].typ == 0 && (forall j: nat :: 1 <= j < i ==> F[j].typ != 0)
            && fs.Files() == F[i := File(typ, major, minor, 1, [])]
  {
    hide FileSystem.Base, FileSystem.D, FileBytes, Agree, Laid, FreeSet;
    hide Steady, NoneLost, Handles;
    ghost var F, before := fs.Files(), fs.icache;
    var r := fs.Ialloc(typ);
    ip := r.value;
    ghost var mid := fs.icache;
    HandlesFromSteady(before, mid);
    fs.Ilock(ip);
    ghost var loaded := fs.icache;
    HandlesAfterLock(before, mid, loaded, ip);
    fs.Describe(ip, major, minor, 1);
    HandlesAfterRec(loaded, fs.icache, ip, fs.Rec(ip));
    HandlesTrans(before, loaded, fs.icache);
  }

  /** G is F with inode i, the lowest free one, now f, and one more name in directory d. */
  ghost predicate Created(F: seq<File>, G: seq<File>, d: nat, name: Name, i: nat, f: File) {
    && |G| == |F| && d < |F| && 1 <= i < |F| && d != i
    && F[i].typ == 0 && (forall j: nat :: 1 <= j < i ==> F[j].typ != 0)
    && F[d].typ == T_DIR && name !in DirMap(F[d].bytes)
    && DirMap(G[d].bytes) == DirMap(F[d].bytes)[name := i]
    && G == F[i := f][d := F[d].(bytes := G[d].bytes)]
  }

  /** What create finds and does: r is the inode it returns, if any. */
  ghost predicate CreateOutcome(F: seq<File>, G: seq<File>, target: Option<nat>, path: seq<byte>, r: Option<nat>,
        f: File) {
    match target
    case None => r.None? && G == F
    case Some(d) =>
      && d < |F| && Names(path) != []
      && var name := Names(path)[|Names(path)| - 1];
         var m := DirMap(F[d].bytes);
         if name in m then
           && G == F && m[name] < |F|
           && r == if f.typ == T_FILE && F[m[name]].typ == T_FILE then Some(m[name]) else None
         else
           r.Some? && Created(F, G, d, name, r.value, f)
  }

  /** create: the file at path, made if it is not there. */
  method Create(fs: FileSystem, path: seq<byte>, typ: u16, major: u16, minor: u16, cwd: nat) returns (r: Option<nat>)
    requires CanResolve(fs, cwd) && |fs.refs| + 3 <= NINODE && 0 !in path && typ in {T_FILE, T_DEV}
    requires AllInUse(fs.refs, fs.Files())
    requires CanMake(fs.Files(), |FreeSet(fs.D(), fs.sb)|, Target(fs.Files(), Start(fs, path, cwd), path, true), path)
    modifies fs`sb, fs`icache, fs`ino, fs`owner, fs`refs, fs`entry, fs.cache, fs.cache.ide
    ensures fs.Sound({}) && fs.sb == old(fs.sb) && fs.cache.held == old(fs.cache.held) && TreeOk(fs.Files())
    ensures Handles(old(fs.icache), fs.icache)
    ensures r.Some? ==> fs.Locked(r.value) && fs.refs == old(fs.refs) + multiset{fs.Inum(r.value)}
    ensures r.None? ==> fs.refs == old(fs.refs)
    ensures CreateOutcome(old(fs.Files()), fs.Files(), Target(old(fs.Files()), old(Start(fs, path, cwd)), path, true),
              path, if r.None? then None else Some(fs.Inum(r.value)), File(typ, major, minor, 1, []))
  {
    hide FileSystem.Base, FileSystem.D, FilesOf, FileBytes, Agree, Laid, FreeSet;
    hide Steady, NoneLost, Handles, DirMap, TreeOk, Entries, DirOk, CanMakeIn, Names, Target, Counted, Start,
         Created, CanResolve, FileSystem.Sound;
    ghost var F, before, refs0 := fs.Files(), fs.icache, fs.refs;
    CanResolveFacts(fs, cwd);
    var parent, name := Namex(fs, path, cwd, true);
    if parent.None? {
      return None;
    }
    var dp := parent.value;
    fs.LockedFile(dp);
    TreeFacts(F, fs.Inum(dp));
    EntriesInUse(F, Dir(fs, dp));
    ghost var d, atDir := fs.Inum(dp), fs.icache;
    var found, off := Dirlookup(fs, dp, name);
    HandlesFromSteady(atDir, fs.icache);
    HandleOf(atDir, fs.icache, dp);
    HandlesTrans(before, atDir, fs.icache);
    if found.Some? {
      fs.FileFields(fs.Inum(found.value));
      var old' := OpenExisting(fs, dp, found.value, typ == T_FILE, before, refs0);
      return if old' then Some(found.value) else None;
    }
    var ip := CreateAndPut(fs, dp, name, typ, major, minor, before, refs0);
    return Some(ip);
  }

  /** The branch of create for a new name; at its end the directory is put back. */
  method CreateAndPut(fs: FileSystem, dp: nat, name: Name, typ: u16, major: u16, minor: u16, ghost before: seq<Inode>,
        ghost refs0: multiset<nat>)
    returns (ip: nat)
    requires LockedDir(fs, dp) && TreeOk(fs.Files()) && |fs.refs| + 2 <= NINODE
    requires |name| <= DIRSIZ && 0 !in name && name !in DirMap(Dir(fs, dp))
    requires typ in {T_FILE, T_DEV} && AllInUse(refs0, fs.Files())
    requires CanMakeIn(fs.Files(), Dir(fs, dp), |FreeSet(fs.D(), fs.sb)|)
    requires Handles(before, fs.icache) && Counted(before, refs0) && fs.refs == refs0 + multiset{fs.Inum(dp)}
    modifies fs`sb, fs`icache, fs`ino, fs`owner, fs`refs, fs`entry, fs.cache, fs.cache.ide
    ensures fs.Sound({}) && fs.sb == old(fs.sb) && fs.cache.held == old(fs.cache.held) && Handles(before, fs.icache)
    ensures fs.Locked(ip) && fs.refs == refs0 + multiset{fs.Inum(ip)}
    ensures TreeOk(fs.Files())
            && Created(old(fs.Files()), fs.Files(), old(fs.Inum(dp)), name, fs.Inum(ip), File(typ, major, minor, 1, []))
  {
    hide FileSystem.Base, FileSystem.D, FilesOf, FileBytes, Agree, Laid, FreeSet, Steady, Handles, DirMap,
         TreeOk, CanMakeIn, Counted, Created;
    ghost var F, d, atDir := fs.Files(), fs.Inum(dp), fs.icache;
    fs.LockedFile(dp);
    WithOneMore(refs0, F, d);
    ip := CreateIn(fs, dp, name, typ, major, minor);
    HandlesTrans(before, atDir, fs.icache);
    ghost var made := fs.icache;
    CreatedTypes(F, fs.Files(), d, name, fs.Inum(ip), File(typ, major, minor, 1, []));
    fs.FileFields(d);
    TreeFacts(fs.Files(), d);
    PutExtra(fs, dp, before, refs0);
    FetchedSurvives(made, fs.icache, dp, ip);
    ValidIsLocked(fs, ip);
  }

  lemma WithOneMore(refs: multiset<nat>, F: seq<File>, d: nat)
    requires AllInUse(refs, F) && d < |F| && F[d].typ != 0
    ensures AllInUse(refs + multiset{d}, F)
  {
  }

  lemma CreatedTypes(F: seq<File>, G: seq<File>, d: nat, name: Name, i: nat, f: File)
    requires Created(F, G, d, name, i, f)
    ensures |G| == |F| && d < |G| && i < |G| && G[d].typ == T_DIR && d != i
  {
  }

  /** The branch of create for a name that is there: the directory is put back, and the inode is
      kept, locked, if it is a file and one is wanted; otherwise it is put back as well. */
  method OpenExisting(fs: FileSystem, dp: nat, ip: nat, wantFile: bool, ghost before: seq<Inode>,
        ghost refs0: multiset<nat>)
    returns (keep: bool)
    requires fs.Sound({}) && fs.Room(2) && fs.Ref(dp) && fs.Ref(ip) && TreeOk(fs.Files())
    requires fs.Ino(fs.Inum(dp)).typ != 0 && fs.Ino(fs.Inum(ip)).typ != 0 && (ip == dp ==> fs.icache[ip].ref > 1)
    requires Handles(before, fs.icache) && Counted(before, refs0)
    requires fs.refs == refs0 + multiset{fs.Inum(dp)} + multiset{fs.Inum(ip)}
    modifies fs`sb, fs`icache, fs`ino, fs`owner, fs`refs, fs`entry, fs.cache, fs.cache.ide
    ensures fs.Sound({}) && Untouched(fs) && fs.Files() == old(fs.Files()) && Handles(before, fs.icache)
    ensures old(fs.Inum(ip)) < |fs.Files()|
    ensures keep <==> wantFile && fs.Files()[old(fs.Inum(ip))].typ == T_FILE
    ensures keep ==> fs.Locked(ip) && fs.Inum(ip) == old(fs.Inum(ip)) && fs.refs == refs0 + multiset{fs.Inum(ip)}
    ensures !keep ==> fs.refs == refs0
  {
    hide FileSystem.Base, FileSystem.D, FilesOf, FileBytes, Agree, Steady, Handles, TreeOk, Counted;
    ghost var mid := fs.icache;
    RefLinked(fs, dp);
    RefLinked(fs, ip);
    PutExtra(fs, dp, before, refs0);
    FetchedSurvives(mid, fs.icache, dp, ip);
    LockIt(fs, ip, before);
    fs.FileFields(fs.Inum(ip));
    if wantFile && fs.icache[ip].rec.typ == T_FILE {
      return true;
    }
    PutExtra(fs, ip, before, refs0);
    return false;
  }
}
