/** Directories as maps from names to inode numbers, and paths as lists of names. */
module Directories {
  import opened Bytes
  import opened Layout
  import opened FsState
  import opened Wrappers

  type Name = seq<byte>

  const SLASH: byte := 47

  // ---------- C strings in 14-byte buffers ----------

  /** The characters of a C string: what precedes its first NUL. */
  function Chars(s: seq<byte>): (r: Name)
    ensures |r| <= |s| && r == s[..|r|] && 0 !in r
    ensures |r| < |s| ==> s[|r|] == 0
  {
    if s == [] || s[0] == 0 then [] else [s[0]] + Chars(s[1..])
  }

  /** strncmp on buffers of at least n bytes, or NUL-terminated ones. */
  function Strncmp(p: seq<byte>, q: seq<byte>, n: nat): int
    requires |p| >= n && |q| >= n
    decreases n
  {
    if n > 0 && p[0] != 0 && p[0] == q[0] then Strncmp(p[1..], q[1..], n - 1)
    else if n == 0 then 0
    else p[0] as int - q[0] as int
  }

  /** namecmp finds two names equal exactly when their characters within 14 bytes agree. */
  lemma {:induction false} StrncmpIsEquality(p: seq<byte>, q: seq<byte>, n: nat)
    requires |p| >= n && |q| >= n
    ensures Strncmp(p, q, n) == 0 <==> Chars(p[..n]) == Chars(q[..n])
    decreases n
  {
    if n > 0 {
      assert p[..n][1..] == p[1..][..n - 1] && q[..n][1..] == q[1..][..n - 1];
      if p[0] != 0 && p[0] == q[0] {
        StrncmpIsEquality(p[1..], q[1..], n - 1);
        assert Chars(p[..n]) == [p[0]] + Chars(p[1..][..n - 1]);
        assert Chars(q[..n]) == [q[0]] + Chars(q[1..][..n - 1]);
        assert Chars(p[..n])[1..] == Chars(p[1..][..n - 1]) && Chars(q[..n])[1..] == Chars(q[1..][..n - 1]);
      } else if p[0] != q[0] {
        assert p[0] != 0 ==> Chars(p[..n])[0] == p[0];
        assert q[0] != 0 ==> Chars(q[..n])[0] == q[0];
      }
    }
  }

  /** A name as a directory record holds it: its characters, then zeros up to 14. */
  function Padded(name: Name): (r: seq<byte>)
    requires |name| <= DIRSIZ
    ensures |r| == DIRSIZ
  {
    name + Zeros(DIRSIZ - |name|)
  }

  lemma {:induction false} CharsOf(name: Name, rest: seq<byte>)
    requires 0 !in name && (rest == [] || rest[0] == 0)
    ensures Chars(name + rest) == name
  {
    if name == [] {
      assert name + rest == rest;
    } else {
      assert (name + rest)[1..] == name[1..] + rest;
      CharsOf(name[1..], rest);
    }
  }

  lemma PaddedBytes(name: Name)
    requires |name| <= DIRSIZ
    ensures name <= Padded(name) && forall i :: |name| <= i < DIRSIZ ==> Padded(name)[i] == 0
  {
  }

  lemma CharsOfPadded(name: Name)
    requires |name| <= DIRSIZ && 0 !in name
    ensures Chars(Padded(name)) == name
  {
    CharsOf(name, Zeros(DIRSIZ - |name|));
  }

  // ---------- directory contents ----------

  /** The records of a directory. */
  function Entries(dir: seq<byte>): (es: seq<Dirent>)
    ensures |es| == |dir| / DIRENT_SIZE
  {
    seq(|dir| / DIRENT_SIZE, k requires 0 <= k < |dir| / DIRENT_SIZE =>
      DecodeDirent(dir[DIRENT_SIZE * k..DIRENT_SIZE * k + DIRENT_SIZE]))
  }

  /** Record k is the sixteen bytes at 16 * k: two of inode number and fourteen of name. */
  lemma EntryBytes(dir: seq<byte>, k: nat)
    requires 16 * k + 16 <= |dir|
    ensures k < |Entries(dir)| && Entries(dir)[k].inum == Le16(dir, 16 * k)
    ensures Entries(dir)[k].name == dir[16 * k + 2..16 * k + 16]
  {
    hide DecodeDirent;
    var s := dir[16 * k..16 * k + 16];
    DirentBytes(s);
    assert s[2..16] == dir[16 * k + 2..16 * k + 16];
  }

  /** The names bound by records; an earlier record shadows a later one. */
  function MapOf(es: seq<Dirent>): map<Name, nat> {
    if es == [] then map[]
    else
      var m, e := MapOf(es[..|es| - 1]), es[|es| - 1];
      if e.inum == 0 || Chars(e.name) in m then m else m[Chars(e.name) := e.inum as nat]
  }

  function DirMap(dir: seq<byte>): map<Name, nat> {
    MapOf(Entries(dir))
  }

  /** Whole records, each naming an inode in use. */
  ghost predicate DirOk(F: seq<File>, dir: seq<byte>) {
    && |dir| % DIRENT_SIZE == 0
    && forall k: nat :: k < |Entries(dir)| && Entries(dir)[k].inum != 0 ==>
         (Entries(dir)[k].inum as nat) < |F| && F[Entries(dir)[k].inum].typ != 0
  }

  /** Every directory is well formed, and inodes in use have links. */
  ghost predicate TreeOk(F: seq<File>) {
    && (forall i :: 0 <= i < |F| && F[i].typ == T_DIR ==> DirOk(F, F[i].bytes))
    && (forall i :: 0 <= i < |F| && F[i].typ != 0 ==> F[i].nlink != 0)
  }

  lemma {:induction false} MapOfInUse(F: seq<File>, es: seq<Dirent>)
    requires forall k: nat :: k < |es| && es[k].inum != 0 ==> (es[k].inum as nat) < |F| && F[es[k].inum].typ != 0
    ensures forall nm :: nm in MapOf(es) ==> 0 < MapOf(es)[nm] < |F| && F[MapOf(es)[nm]].typ != 0
  {
    if es != [] {
      MapOfInUse(F, es[..|es| - 1]);
    }
  }

  /** Once bound, a name keeps its first binding. */
  lemma {:induction false} MapOfPrefix(es: seq<Dirent>, n: nat)
    requires n <= |es|
    ensures forall nm :: nm in MapOf(es[..n]) ==> nm in MapOf(es) && MapOf(es)[nm] == MapOf(es[..n])[nm]
  {
    if n < |es| {
      MapOfPrefix(es[..|es| - 1], n);
      assert es[..|es| - 1][..n] == es[..n];
    } else {
      assert es[..n] == es;
    }
  }

  lemma NothingBound()
    ensures MapOf([]) == map[]
  {
  }

  /** What one turn of a scan learns: record k binds the name it is compared with, or not. */
  lemma ScanStep(es: seq<Dirent>, k: nat, name: Name)
    requires k < |es| && name !in MapOf(es[..k])
    ensures es[k].inum != 0 && Chars(es[k].name) == name ==> name in MapOf(es) && MapOf(es)[name] == es[k].inum as nat
    ensures es[k].inum == 0 || Chars(es[k].name) != name ==> name !in MapOf(es[..k + 1])
  {
    assert es[..k + 1][..k] == es[..k];
    MapOfPrefix(es, k + 1);
  }

  /** Filling a free record, or adding one, binds one new name and no other. */
  lemma {:induction false} MapOfFilled(es: seq<Dirent>, k: nat, e: Dirent)
    requires k < |es| && es[k].inum == 0 && e.inum != 0 && Chars(e.name) !in MapOf(es)
    ensures MapOf(es[k := e]) == MapOf(es)[Chars(e.name) := e.inum as nat]
  {
    var n := |es| - 1;
    MapOfPrefix(es, n);
    if k == n {
      assert es[k := e][..n] == es[..n];
    } else {
      MapOfFilled(es[..n], k, e);
      assert es[k := e][..n] == es[..n][k := e];
    }
  }

  lemma MapOfAdded(es: seq<Dirent>, e: Dirent)
    requires e.inum != 0 && Chars(e.name) !in MapOf(es)
    ensures MapOf(es + [e]) == MapOf(es)[Chars(e.name) := e.inum as nat]
  {
    assert (es + [e])[..|es|] == es;
  }

  /** Record k is the first free one, or the one past the end. */
  ghost predicate Vacant(dir: seq<byte>, k: nat) {
    k <= |Entries(dir)| && (k < |Entries(dir)| ==> Entries(dir)[k].inum == 0)
  }

  /** A directory after dirlink's write of e at record k. */
  function Linked(dir: seq<byte>, k: nat, e: Dirent): seq<byte>
    requires DIRENT_SIZE * k <= |dir|
  {
    Splice(dir, DIRENT_SIZE * k, EncodeDirent(e))
  }

  lemma EntriesOfLinked(dir: seq<byte>, k: nat, e: Dirent)
    requires |dir| % DIRENT_SIZE == 0 && k <= |Entries(dir)|
    ensures DIRENT_SIZE * k <= |dir|
    ensures |Linked(dir, k, e)| % DIRENT_SIZE == 0
    ensures Entries(Linked(dir, k, e)) == if k < |Entries(dir)| then Entries(dir)[k := e] else Entries(dir) + [e]
  {
    var d := Linked(dir, k, e);
    var n := |dir| / DIRENT_SIZE;
    assert |dir| == DIRENT_SIZE * n;
    assert |d| == DIRENT_SIZE * if k < n then n else n + 1;
    forall j: nat | j < |Entries(d)|
      ensures Entries(d)[j] == if j == k then e else Entries(dir)[j]
    {
      if j == k {
        DirentRoundTrip(e);
        assert d[DIRENT_SIZE * k..DIRENT_SIZE * k + DIRENT_SIZE] == EncodeDirent(e);
      } else {
        assert d[DIRENT_SIZE * j..DIRENT_SIZE * j + DIRENT_SIZE] == dir[DIRENT_SIZE * j..DIRENT_SIZE * j + DIRENT_SIZE];
      }
    }
  }

  /** dirlink's write is insertion into the map of names, and keeps the directory well formed. */
  lemma LinkedIsInsert(F: seq<File>, dir: seq<byte>, k: nat, name: Name, inum: u16)
    requires DirOk(F, dir) && Vacant(dir, k)
    requires |name| <= DIRSIZ && 0 !in name && name !in DirMap(dir)
    requires inum != 0 && (inum as nat) < |F| && F[inum].typ != 0
    ensures DIRENT_SIZE * k <= |dir|
    ensures DirMap(Linked(dir, k, Dirent(inum, Padded(name)))) == DirMap(dir)[name := inum as nat]
    ensures DirOk(F, Linked(dir, k, Dirent(inum, Padded(name))))
  {
    var e := Dirent(inum, Padded(name));
    EntriesOfLinked(dir, k, e);
    CharsOfPadded(name);
    if k < |Entries(dir)| {
      MapOfFilled(Entries(dir), k, e);
    } else {
      MapOfAdded(Entries(dir), e);
    }
  }

  // ---------- paths ----------

  /** The parts between slashes, empty ones included. */
  function Split(path: seq<byte>): (r: seq<seq<byte>>)
    ensures |r| > 0
  {
    if path == [] then [[]]
    else if path[0] == SLASH then [[]] + Split(path[1..])
    else
      var rest := Split(path[1..]);
      [[path[0]] + rest[0]] + rest[1..]
  }

  /** The first 14 bytes, or all of them. */
  function Cut(part: seq<byte>): (r: Name)
    ensures r <= part && |r| == if |part| < DIRSIZ then |part| else DIRSIZ
  {
    if |part| > DIRSIZ then part[..DIRSIZ] else part
  }

  /** The non-empty parts, each cut to 14 bytes. */
  function CutParts(parts: seq<seq<byte>>): seq<Name> {
    if parts == [] then []
    else (if parts[0] == [] then [] else [Cut(parts[0])]) + CutParts(parts[1..])
  }

  /** The names a path asks for. */
  function Names(path: seq<byte>): seq<Name> {
    CutParts(Split(path))
  }

  lemma {:induction false} SplitFirst(s: seq<byte>, rest: seq<byte>)
    requires SLASH !in s && (rest == [] || rest[0] == SLASH)
    ensures Split(s + rest)[0] == s
    ensures Split(s + rest)[1..] == if rest == [] then [] else Split(rest[1..])
  {
    if s == [] {
      assert s + rest == rest;
    } else {
      assert (s + rest)[1..] == s[1..] + rest;
      SplitFirst(s[1..], rest);
    }
  }

  /** A leading slash changes nothing; a leading component is the first name. */
  lemma NamesAfterSlash(path: seq<byte>)
    requires path != [] && path[0] == SLASH
    ensures Names(path) == Names(path[1..])
  {
    assert Split(path)[1..] == Split(path[1..]);
  }

  lemma NamesOfFirst(s: seq<byte>, rest: seq<byte>)
    requires s != [] && SLASH !in s && (rest == [] || rest[0] == SLASH)
    ensures Names(s + rest) == [Cut(s)] + Names(rest)
  {
    SplitFirst(s, rest);
    if rest == [] {
      assert Split(s + rest)[1..] == [];
      assert Names(rest) == [];
    } else {
      NamesAfterSlash(rest);
    }
  }

  lemma NamesOfNothing()
    ensures Names([]) == []
  {
  }

  lemma NamesOfSome(path: seq<byte>)
    requires path != [] && path[0] != SLASH
    ensures Names(path) != []
  {
  }

  // ---------- walking ----------

  /** Looking names up one after the other; only a directory can be looked into. */
  ghost function Walk(F: seq<File>, i: nat, names: seq<Name>): Option<nat>
    decreases |names|
  {
    if names == [] then Some(i)
    else if i >= |F| || F[i].typ != T_DIR || names[0] !in DirMap(F[i].bytes) then None
    else Walk(F, DirMap(F[i].bytes)[names[0]], names[1..])
  }

  /** The directory that holds, or would hold, the last name of a path. */
  ghost function WalkToParent(F: seq<File>, i: nat, names: seq<Name>): Option<nat> {
    if names == [] then None
    else
      match Walk(F, i, names[..|names| - 1])
      case None => None
      case Some(d) => if d < |F| && F[d].typ == T_DIR then Some(d) else None
  }

  /** The directory found before the last name is where the walk to the parent ends. */
  lemma {:induction false} WalkStep(F: seq<File>, i: nat, names: seq<Name>)
    requires names != []
    ensures |names| == 1 ==> WalkToParent(F, i, names) == if i < |F| && F[i].typ == T_DIR then Some(i) else None
    ensures |names| > 1 ==>
              WalkToParent(F, i, names) ==
              if i < |F| && F[i].typ == T_DIR && names[0] in DirMap(F[i].bytes)
              then WalkToParent(F, DirMap(F[i].bytes)[names[0]], names[1..])
              else None
  {
    if |names| > 1 {
      assert names[..|names| - 1][1..] == names[1..][..|names| - 2];
    }
  }
}
