/** The file table, file descriptors, and the system calls on them. */
module Descriptors {
  import opened Bytes
  import opened Layout
  import opened Ide
  import opened Bio
  import opened FsState
  import opened FsInodes
  import opened FileSystems
  import opened Directories
  import opened Paths
  import opened Calls
  import opened Wrappers

  const NFILE: nat := 100
  const NOFILE: nat := 16
  const MAXCHUNK: nat := (10 - 1 - 1 - 2) / 2 * 512   // bytes filewrite hands to one writei

  datatype Kind = FdNone | FdInode

  /** struct file */
  datatype OpenFile = OpenFile(kind: Kind, ref: nat, readable: bool, writable: bool, ip: nat, off: u32)

  // ---------- counting references ----------

  /** How many descriptors name file f. */
  function Slots(ofile: seq<Option<nat>>, f: nat): nat {
    if ofile == [] then 0
    else Slots(ofile[..|ofile| - 1], f) + if ofile[|ofile| - 1] == Some(f) then 1 else 0
  }

  lemma {:induction false} SlotsAfterSet(ofile: seq<Option<nat>>, fd: nat, x: Option<nat>, f: nat)
    requires fd < |ofile|
    ensures Slots(ofile[fd := x], f) ==
              Slots(ofile, f) - (if ofile[fd] == Some(f) then 1 else 0) + (if x == Some(f) then 1 else 0)
  {
    var n := |ofile| - 1;
    if fd == n {
      assert ofile[fd := x][..n] == ofile[..n];
    } else {
      SlotsAfterSet(ofile[..n], fd, x, f);
      assert ofile[fd := x][..n] == ofile[..n][fd := x];
    }
  }

  /** The inode reference an open file holds. */
  ghost function RefOf(x: OpenFile, icache: seq<Inode>): multiset<nat> {
    if x.kind == FdInode && x.ip < |icache| then multiset{icache[x.ip].inum} else multiset{}
  }

  /** The inode references held by a file table: one for each open file. */
  ghost function OpenRefs(ftable: seq<OpenFile>, icache: seq<Inode>): multiset<nat> {
    if ftable == [] then multiset{}
    else OpenRefs(ftable[..|ftable| - 1], icache) + RefOf(ftable[|ftable| - 1], icache)
  }

  lemma {:induction false} OpenRefsAfterSet(ftable: seq<OpenFile>, icache: seq<Inode>, f: nat, x: OpenFile)
    requires f < |ftable|
    ensures OpenRefs(ftable[f := x], icache) + RefOf(ftable[f], icache) == OpenRefs(ftable, icache) + RefOf(x, icache)
  {
    hide RefOf;
    var n := |ftable| - 1;
    if f == n {
      assert ftable[f := x][..n] == ftable[..n];
    } else {
      OpenRefsAfterSet(ftable[..n], icache, f, x);
      assert ftable[f := x][..n] == ftable[..n][f := x];
      var a, b, l := OpenRefs(ftable[..n], icache), OpenRefs(ftable[..n][f := x], icache), RefOf(ftable[n], icache);
      assert b + l + RefOf(ftable[f], icache) == b + RefOf(ftable[f], icache) + l;
      assert a + l + RefOf(x, icache) == a + RefOf(x, icache) + l;
    }
  }

  /** Setting a file to one that holds the same reference, or none as before, changes nothing. */
  lemma OpenRefsKept(ftable: seq<OpenFile>, icache: seq<Inode>, f: nat, x: OpenFile)
    requires f < |ftable| && RefOf(x, icache) == RefOf(ftable[f], icache)
    ensures OpenRefs(ftable[f := x], icache) == OpenRefs(ftable, icache)
  {
    hide OpenRefs;
    OpenRefsAfterSet(ftable, icache, f, x);
    SameSum(OpenRefs(ftable[f := x], icache), OpenRefs(ftable, icache), RefOf(x, icache));
  }

  /** Opening adds one reference; read backwards, closing takes one away. */
  lemma OpenRefsGrown(ftable: seq<OpenFile>, icache: seq<Inode>, f: nat, x: OpenFile)
    requires f < |ftable| && ftable[f].kind == FdNone && x.kind == FdInode && x.ip < |icache|
    ensures OpenRefs(ftable[f := x], icache) == OpenRefs(ftable, icache) + multiset{icache[x.ip].inum}
  {
    hide OpenRefs;
    OpenRefsAfterSet(ftable, icache, f, x);
    EmptySum(OpenRefs(ftable[f := x], icache));
  }

  lemma EmptySum(a: multiset<nat>)
    ensures a + multiset{} == a
  {
  }

  lemma SameSum(a: multiset<nat>, b: multiset<nat>, c: multiset<nat>)
    requires a + c == b + c
    ensures a == b
  {
    assert a == (a + c) - c && b == (b + c) - c;
  }

  /** (open + i + cwd) without i. */
  lemma SumWithout(o: multiset<nat>, p: multiset<nat>, i: nat, c: multiset<nat>, refs: multiset<nat>)
    requires p == o + multiset{i} && refs == p + c
    ensures refs - multiset{i} == o + c && i in refs
  {
  }

  lemma SumMoved(o: multiset<nat>, p: multiset<nat>, i: nat, c: multiset<nat>)
    requires p == o + multiset{i}
    ensures o + c + multiset{i} == p + c
  {
  }

  lemma {:induction false} OpenRefsSame(ftable: seq<OpenFile>, before: seq<Inode>, after: seq<Inode>)
    requires |after| == |before|
    requires forall f: nat :: f < |ftable| && ftable[f].kind == FdInode ==>
               ftable[f].ip < |before| && after[ftable[f].ip].inum == before[ftable[f].ip].inum
    ensures OpenRefs(ftable, after) == OpenRefs(ftable, before)
  {
    if ftable != [] {
      var n := |ftable| - 1;
      assert forall f: nat :: f < n ==> ftable[..n][f] == ftable[f];
      OpenRefsSame(ftable[..n], before, after);
    }
  }

  /** Slots naming files below n, in all. */
  function TotalSlots(ofile: seq<Option<nat>>, n: nat): nat {
    if n == 0 then 0 else TotalSlots(ofile, n - 1) + Slots(ofile, n - 1)
  }

  lemma {:induction false} TotalSlotsLast(ofile: seq<Option<nat>>, n: nat)
    requires ofile != []
    ensures TotalSlots(ofile, n) == TotalSlots(ofile[..|ofile| - 1], n) +
                                    (if ofile[|ofile| - 1].Some? && ofile[|ofile| - 1].value < n then 1 else 0)
  {
    if n > 0 {
      TotalSlotsLast(ofile, n - 1);
    }
  }

  lemma {:induction false} TotalSlotsBound(ofile: seq<Option<nat>>, n: nat)
    ensures TotalSlots(ofile, n) <= |ofile|
  {
    if ofile != [] {
      TotalSlotsLast(ofile, n);
      TotalSlotsBound(ofile[..|ofile| - 1], n);
    } else {
      NoSlots(n);
    }
  }

  lemma {:induction false} NoSlots(n: nat)
    ensures TotalSlots([], n) == 0
  {
    if n > 0 {
      NoSlots(n - 1);
    }
  }

  /** Each file's count is the number of descriptors that name it, and exactly the open files are
      typed; file loose, if it is one, is being opened or closed and counts one more. */
  ghost predicate TableOk(ftable: seq<OpenFile>, ofile: seq<Option<nat>>, loose: nat) {
    && |ftable| == NFILE && |ofile| == NOFILE
    && (forall fd: nat :: fd < NOFILE && ofile[fd].Some? ==> ofile[fd].value < NFILE)
    && (forall f: nat :: f < NFILE ==> ftable[f].ref == Slots(ofile, f) + if f == loose then 1 else 0)
    && (forall f: nat :: f < NFILE && f != loose ==> (ftable[f].kind == FdInode <==> ftable[f].ref > 0))
  }

  lemma {:induction false} OpenRefsCount(ftable: seq<OpenFile>, icache: seq<Inode>, ofile: seq<Option<nat>>)
    requires forall f: nat :: f < |ftable| ==> (ftable[f].kind == FdInode ==> Slots(ofile, f) > 0)
    ensures |OpenRefs(ftable, icache)| <= TotalSlots(ofile, |ftable|)
  {
    hide Slots, RefOf;
    if ftable != [] {
      var n := |ftable| - 1;
      assert forall f: nat :: f < n ==> ftable[..n][f] == ftable[f];
      OpenRefsCount(ftable[..n], icache, ofile);
      RefOfSize(ftable[n], icache);
    }
  }

  lemma RefOfSize(x: OpenFile, icache: seq<Inode>)
    ensures |RefOf(x, icache)| <= if x.kind == FdInode then 1 else 0
  {
  }

  /** At most as many inodes are held by files as there are descriptors. */
  lemma FewOpen(ftable: seq<OpenFile>, icache: seq<Inode>, ofile: seq<Option<nat>>)
    requires TableOk(ftable, ofile, NFILE)
    ensures |OpenRefs(ftable, icache)| <= NOFILE
  {
    OpenRefsCount(ftable, icache, ofile);
    TotalSlotsBound(ofile, NFILE);
  }

  lemma {:induction false} SlotsPositive(ofile: seq<Option<nat>>, fd: nat, f: nat)
    requires fd < |ofile| && ofile[fd] == Some(f)
    ensures Slots(ofile, f) > 0
  {
    if fd < |ofile| - 1 {
      SlotsPositive(ofile[..|ofile| - 1], fd, f);
    }
  }

  lemma TableAfterDrop(ftable: seq<OpenFile>, ofile: seq<Option<nat>>, f: nat)
    requires TableOk(ftable, ofile, f) && f < NFILE && ftable[f].ref > 1 && ftable[f].kind == FdInode
    ensures TableOk(ftable[f := ftable[f].(ref := ftable[f].ref - 1)], ofile, NFILE)
  {
  }

  lemma TableAfterClose(ftable: seq<OpenFile>, ofile: seq<Option<nat>>, f: nat)
    requires TableOk(ftable, ofile, f) && f < NFILE && ftable[f].ref == 1
    ensures TableOk(ftable[f := ftable[f].(ref := 0, kind := FdNone)], ofile, NFILE)
  {
  }

  lemma TableAfterUnslot(ftable: seq<OpenFile>, ofile: seq<Option<nat>>, fd: nat)
    requires TableOk(ftable, ofile, NFILE) && fd < NOFILE && ofile[fd].Some?
    ensures ofile[fd].value < NFILE && TableOk(ftable, ofile[fd := None], ofile[fd].value)
  {
    forall f: nat | f < NFILE
      ensures Slots(ofile[fd := None], f) == Slots(ofile, f) - if ofile[fd] == Some(f) then 1 else 0
    {
      SlotsAfterSet(ofile, fd, None, f);
    }
  }

  lemma {:induction false} NoSlotsIn(ofile: seq<Option<nat>>)
    requires forall fd: nat :: fd < |ofile| ==> ofile[fd].None?
    ensures forall f :: Slots(ofile, f) == 0
  {
    if ofile != [] {
      NoSlotsIn(ofile[..|ofile| - 1]);
    }
  }

  lemma {:induction false} NoRefsIn(ftable: seq<OpenFile>, icache: seq<Inode>)
    requires forall f: nat :: f < |ftable| ==> ftable[f].kind == FdNone
    ensures OpenRefs(ftable, icache) == multiset{}
  {
    if ftable != [] {
      NoRefsIn(ftable[..|ftable| - 1], icache);
    }
  }

  // ---------- the accounts ----------

  /** Descriptors balance against files, and files, cwd and the references of extra, held by the
      call in progress, against inodes; every inode held is in use, and only ordinary files are
      open for writing. */
  ghost predicate Accounts(ftable: seq<OpenFile>, ofile: seq<Option<nat>>, cwd: nat, icache: seq<Inode>,
        ino: seq<Dinode>, refs: multiset<nat>, loose: nat, extra: multiset<nat>) {
    && TableOk(ftable, ofile, loose)
    && cwd < |icache| && icache[cwd].ref > 0
    && refs == OpenRefs(ftable, icache) + multiset{icache[cwd].inum} + extra
    && FilesOk(ftable, icache, ino)
    && (forall i :: i in refs ==> i < |ino| && ino[i].typ != 0)
  }

  ghost predicate FilesOk(ftable: seq<OpenFile>, icache: seq<Inode>, ino: seq<Dinode>) {
    forall f: nat :: f < |ftable| && ftable[f].kind == FdInode ==>
      && ftable[f].ip < |icache| && icache[ftable[f].ip].ref > 0 && icache[ftable[f].ip].inum < |ino|
      && (ftable[f].writable ==> ino[icache[ftable[f].ip].inum].typ !in {0, T_DIR})
  }

  /** An offset plays no part in the accounts. */
  lemma AccountsAfterAdvance(ftable: seq<OpenFile>, ofile: seq<Option<nat>>, cwd: nat, icache: seq<Inode>,
        ino: seq<Dinode>, refs: multiset<nat>, f: nat, off: u32)
    requires Accounts(ftable, ofile, cwd, icache, ino, refs, NFILE, multiset{}) && f < |ftable|
    ensures Accounts(ftable[f := ftable[f].(off := off)], ofile, cwd, icache, ino, refs, NFILE, multiset{})
  {
    hide OpenRefs, Slots;
    OpenRefsKept(ftable, icache, f, ftable[f].(off := off));
  }

  /** Each entry counts the references to its inode. */
  ghost predicate Counts(icache: seq<Inode>, refs: multiset<nat>) {
    forall e: nat :: e < |icache| && icache[e].ref > 0 ==> refs[icache[e].inum] == icache[e].ref
  }

  lemma {:induction false} OpenRefsHas(ftable: seq<OpenFile>, icache: seq<Inode>, f: nat)
    requires f < |ftable| && ftable[f].kind == FdInode && ftable[f].ip < |icache|
    ensures icache[ftable[f].ip].inum in OpenRefs(ftable, icache)
  {
    if f < |ftable| - 1 {
      OpenRefsHas(ftable[..|ftable| - 1], icache, f);
    }
  }

  /** fileclose, with other descriptors left on the file. */
  lemma AccountsAfterDrop(ftable: seq<OpenFile>, ofile: seq<Option<nat>>, cwd: nat, icache: seq<Inode>,
        ino: seq<Dinode>, refs: multiset<nat>, f: nat, extra: multiset<nat>)
    requires Accounts(ftable, ofile, cwd, icache, ino, refs, f, extra)
    requires f < NFILE && ftable[f].ref > 1 && ftable[f].kind == FdInode
    ensures Accounts(ftable[f := ftable[f].(ref := ftable[f].ref - 1)], ofile, cwd, icache, ino, refs, NFILE, extra)
  {
    hide Slots, OpenRefs;
    var x := ftable[f].(ref := ftable[f].ref - 1);
    OpenRefsKept(ftable, icache, f, x);
    TableAfterDrop(ftable, ofile, f);
  }

  /** fileclose of a file that was only being opened. */
  lemma AccountsAfterAbandon(ftable: seq<OpenFile>, ofile: seq<Option<nat>>, cwd: nat, icache: seq<Inode>,
        ino: seq<Dinode>, refs: multiset<nat>, f: nat, extra: multiset<nat>)
    requires Accounts(ftable, ofile, cwd, icache, ino, refs, f, extra)
    requires f < NFILE && ftable[f].ref == 1 && ftable[f].kind == FdNone
    ensures Accounts(ftable[f := ftable[f].(ref := 0, kind := FdNone)], ofile, cwd, icache, ino, refs, NFILE, extra)
  {
    hide Slots, OpenRefs;
    var x := ftable[f].(ref := 0, kind := FdNone);
    OpenRefsKept(ftable, icache, f, x);
    TableAfterClose(ftable, ofile, f);
  }

  /** The inode cache before and after one reference to entry ip is put back. */
  ghost predicate PutBack(before: seq<Inode>, after: seq<Inode>, ip: nat) {
    && |after| == |before| && ip < |before| && before[ip].ref > 0
    && after[ip].ref == before[ip].ref - 1 && after[ip].inum == before[ip].inum
    && forall e: nat :: e < |before| && e != ip ==> after[e] == before[e]
  }

  /** The entry of an inode that is still referenced is still in use. */
  lemma StillHeld(before: seq<Inode>, after: seq<Inode>, refs: multiset<nat>, ip: nat, e: nat)
    requires Counts(before, refs) && PutBack(before, after, ip) && e < |before| && before[e].ref > 0
    requires before[e].inum in refs - multiset{before[ip].inum}
    ensures after[e].ref > 0 && after[e].inum == before[e].inum
  {
  }

  /** fileclose of the last descriptor: the file's inode reference goes back. */
  lemma AccountsAfterClose(ftable: seq<OpenFile>, ofile: seq<Option<nat>>, cwd: nat, icache: seq<Inode>,
        ino: seq<Dinode>, refs: multiset<nat>, f: nat, after: seq<Inode>)
    requires Accounts(ftable, ofile, cwd, icache, ino, refs, f, multiset{}) && Counts(icache, refs)
    requires f < NFILE && ftable[f].ref == 1 && ftable[f].kind == FdInode && PutBack(icache, after, ftable[f].ip)
    ensures Accounts(ftable[f := ftable[f].(ref := 0, kind := FdNone)], ofile, cwd, after, ino,
                     refs - multiset{icache[ftable[f].ip].inum}, NFILE, multiset{})
  {
    hide OpenRefs, Counts, Slots, FilesOk, PutBack;
    var ip := ftable[f].ip;
    var x := ftable[f].(ref := 0, kind := FdNone);
    var table := ftable[f := x];
    AccountedFile(ftable, ofile, cwd, icache, ino, refs, f, multiset{});
    var i := icache[ip].inum;
    TableAfterClose(ftable, ofile, f);
    EmptySum(OpenRefs(ftable, icache) + multiset{icache[cwd].inum});
    assert table[f := ftable[f]] == ftable;
    OpenRefsGrown(table, icache, f, ftable[f]);
    SumWithout(OpenRefs(table, icache), OpenRefs(ftable, icache), i, multiset{icache[cwd].inum}, refs);
    ClosedFiles(ftable, table, f, icache, ino, refs, cwd, after, ip);
    EmptySum(OpenRefs(table, after) + multiset{after[cwd].inum});
  }

  lemma AccountedFile(ftable: seq<OpenFile>, ofile: seq<Option<nat>>, cwd: nat, icache: seq<Inode>, ino: seq<Dinode>,
        refs: multiset<nat>, loose: nat, extra: multiset<nat>)
    requires Accounts(ftable, ofile, cwd, icache, ino, refs, loose, extra)
    ensures |ftable| == NFILE && |ofile| == NOFILE && TableOk(ftable, ofile, loose)
    ensures forall f: nat :: f < NFILE && ftable[f].kind == FdInode ==>
              ftable[f].ip < |icache| && icache[ftable[f].ip].ref > 0 && icache[ftable[f].ip].inum < |ino|
  {
  }

  lemma ClosedFiles(ftable: seq<OpenFile>, table: seq<OpenFile>, f: nat, icache: seq<Inode>, ino: seq<Dinode>,
        refs: multiset<nat>, cwd: nat, after: seq<Inode>, ip: nat)
    requires |ftable| == NFILE && f < NFILE && table == ftable[f := ftable[f].(ref := 0, kind := FdNone)]
    requires FilesOk(ftable, icache, ino) && Counts(icache, refs) && PutBack(icache, after, ip) && cwd < |icache|
        && icache[cwd].ref > 0
    requires refs - multiset{icache[ip].inum} == OpenRefs(table, icache) + multiset{icache[cwd].inum}
    ensures FilesOk(table, after, ino) && OpenRefs(table, after) == OpenRefs(table, icache)
    ensures |after| == |icache| && after[cwd].ref > 0 && after[cwd].inum == icache[cwd].inum
  {
    hide OpenRefs, Counts;
    StillHeld(icache, after, refs, ip, cwd);
    forall g: nat | g < NFILE && table[g].kind == FdInode
      ensures table[g].ip < |icache| && after[table[g].ip].ref > 0
                && after[table[g].ip].inum == icache[table[g].ip].inum
    {
      assert g != f && table[g] == ftable[g];
      OpenRefsHas(table, icache, g);
      StillHeld(icache, after, refs, ip, table[g].ip);
    }
    OpenRefsSame(table, icache, after);
  }

  /** A system call that keeps handles and ends up holding other references. */
  lemma AccountsAfterHandles(ftable: seq<OpenFile>, ofile: seq<Option<nat>>, cwd: nat, icache: seq<Inode>,
        ino: seq<Dinode>, refs: multiset<nat>, loose: nat, extra: multiset<nat>, after: seq<Inode>, inoE: seq<Dinode>,
        more: multiset<nat>)
    requires Accounts(ftable, ofile, cwd, icache, ino, refs, loose, extra) && Handles(icache, after)
    requires |inoE| == |ino| && forall i: nat :: i < |ino| && ino[i].typ != 0 ==> inoE[i].typ == ino[i].typ
    requires forall i :: i in more ==> i < |inoE| && inoE[i].typ != 0
    ensures Accounts(ftable, ofile, cwd, after, inoE, refs + more, loose, extra + more)
  {
    HandleOf(icache, after, cwd);
    forall g: nat | g < NFILE && ftable[g].kind == FdInode
      ensures after[ftable[g].ip].ref > 0 && after[ftable[g].ip].inum == icache[ftable[g].ip].inum
    {
      HandleOf(icache, after, ftable[g].ip);
    }
    OpenRefsSame(ftable, icache, after);
    hide TableOk, OpenRefs, Handles;
  }

  /** filealloc marks file f. */
  lemma AccountsAfterAlloc(ftable: seq<OpenFile>, ofile: seq<Option<nat>>, cwd: nat, icache: seq<Inode>,
        ino: seq<Dinode>, refs: multiset<nat>, f: nat, extra: multiset<nat>)
    requires Accounts(ftable, ofile, cwd, icache, ino, refs, NFILE, extra)
    requires f < NFILE && ftable[f].ref == 0
    ensures Accounts(ftable[f := ftable[f].(ref := 1)], ofile, cwd, icache, ino, refs, f, extra)
    ensures ftable[f].kind == FdNone
  {
    hide Slots, OpenRefs;
    OpenRefsKept(ftable, icache, f, ftable[f].(ref := 1));
  }

  /** The end of open: descriptor fd names file f, which takes over the reference to its inode. */
  lemma AccountsAfterOpen(ftable: seq<OpenFile>, ofile: seq<Option<nat>>, cwd: nat, icache: seq<Inode>,
        ino: seq<Dinode>, refs: multiset<nat>, f: nat, fd: nat, x: OpenFile)
    requires x.ip < |icache| && icache[x.ip].ref > 0 && icache[x.ip].inum < |ino|
    requires Accounts(ftable, ofile, cwd, icache, ino, refs, f, multiset{icache[x.ip].inum})
    requires f < NFILE && ftable[f].ref == 1 && ftable[f].kind == FdNone && x.ref == 1 && x.kind == FdInode
    requires fd < NOFILE && ofile[fd] == None && (x.writable ==> ino[icache[x.ip].inum].typ !in {0, T_DIR})
    ensures Accounts(ftable[f := x], ofile[fd := Some(f)], cwd, icache, ino, refs, NFILE, multiset{})
  {
    hide Slots, OpenRefs;
    OpenRefsGrown(ftable, icache, f, x);
    SumMoved(OpenRefs(ftable, icache), OpenRefs(ftable[f := x], icache), icache[x.ip].inum, multiset{icache[cwd].inum});
    EmptySum(OpenRefs(ftable[f := x], icache) + multiset{icache[cwd].inum});
    TableAfterSlot(ftable, ofile, f, fd, x);
  }

  lemma TableAfterSlot(ftable: seq<OpenFile>, ofile: seq<Option<nat>>, f: nat, fd: nat, x: OpenFile)
    requires TableOk(ftable, ofile, f) && f < NFILE && ftable[f].ref == 1 && x.ref == 1 && x.kind == FdInode
    requires fd < NOFILE && ofile[fd] == None
    ensures TableOk(ftable[f := x], ofile[fd := Some(f)], NFILE)
  {
    forall g: nat | g < NFILE
      ensures Slots(ofile[fd := Some(f)], g) == Slots(ofile, g) + if g == f then 1 else 0
    {
      SlotsAfterSet(ofile, fd, Some(f), g);
    }
  }

  /** close's first half: the descriptor is cleared, its file now counts one too many. */
  lemma AccountsAfterUnslot(ftable: seq<OpenFile>, ofile: seq<Option<nat>>, cwd: nat, icache: seq<Inode>,
        ino: seq<Dinode>, refs: multiset<nat>, fd: nat)
    requires Accounts(ftable, ofile, cwd, icache, ino, refs, NFILE, multiset{}) && fd < NOFILE && ofile[fd].Some?
    ensures var f := ofile[fd].value;
            && f < NFILE && Accounts(ftable, ofile[fd := None], cwd, icache, ino, refs, f, multiset{})
            && ftable[f].kind == FdInode && ftable[f].ref > 0
  {
    SlotsPositive(ofile, fd, ofile[fd].value);
    TableAfterUnslot(ftable, ofile, fd);
  }

  lemma {:induction false} AllNamed(ofile: seq<Option<nat>>, n: nat)
    requires forall f: nat :: f < n ==> Slots(ofile, f) > 0
    ensures TotalSlots(ofile, n) >= n
  {
    if n > 0 {
      AllNamed(ofile, n - 1);
    }
  }

  /** 16 descriptors cannot fill a table of 100 files. */
  lemma SomeFileFree(ftable: seq<OpenFile>, ofile: seq<Option<nat>>)
    requires TableOk(ftable, ofile, NFILE)
    ensures exists f: nat :: f < NFILE && ftable[f].ref == 0
  {
    if forall f: nat :: f < NFILE ==> ftable[f].ref > 0 {
      AllNamed(ofile, NFILE);
      TotalSlotsBound(ofile, NFILE);
    }
  }

  /** Inodes in use keep their types. */
  ghost predicate TypesKept(before: seq<Dinode>, after: seq<Dinode>) {
    |after| == |before| && forall i: nat :: i < |before| && before[i].typ != 0 ==> after[i].typ == before[i].typ
  }

  /** What open finds without O_CREATE: what the path stands for, a directory only if read-only. */
  ghost function Found(F: seq<File>, start: nat, path: seq<byte>, omode: u32): Option<nat> {
    var t := Target(F, start, path, false);
    if t.Some? && t.value < |F| && F[t.value].typ == T_DIR && omode != 0 then None else t
  }

  /** A file with one descriptor fewer: unused if that was the last, and else the same. */
  function Closed(x: OpenFile): OpenFile {
    if x.ref > 1 then x.(ref := x.ref - 1) else x.(ref := 0, kind := FdNone)
  }

  /** Descriptor fd, the lowest free one, now names the lowest free file, opened on inode i. */
  ghost predicate OpenedAs(ftable: seq<OpenFile>, ofile: seq<Option<nat>>, tableE: seq<OpenFile>,
        ofileE: seq<Option<nat>>, icache: seq<Inode>, fd: nat, omode: u32, i: nat) {
    && fd < |ofile| && ofile[fd] == None && None !in ofile[..fd]
    && exists f: nat, ip: nat :: f < |ftable| && ip < |icache| && icache[ip].inum == i && icache[ip].ref > 0
         && ftable[f].ref == 0 && (forall g: nat :: g < f ==> ftable[g].ref > 0)
         && ofileE == ofile[fd := Some(f)]
         && tableE == ftable[f := OpenFile(FdInode, 1, omode % 2 == 0, omode % 4 != 0, ip, 0)]
  }

  /** The bits of the mode, as numbers: 1 is write-only, 2 is read and write, 0x200 is create. */
  lemma ModeBits(omode: u32)
    ensures BitOf(omode, O_WRONLY_BIT) <==> omode % 2 == 1
    ensures BitOf(omode, O_WRONLY_BIT) || BitOf(omode, O_RDWR_BIT) <==> omode % 4 != 0
    ensures BitOf(omode, O_CREATE_BIT) <==> omode / 0x200 % 2 == 1
  {
    LowBits(omode);
    BitIsDigit(omode, O_CREATE_BIT);
    hide BitOf;
    assert Pow2(9) == 0x200 by {
      assert Pow2(4) == 16;
      assert Pow2(8) == 256;
    }
  }

  lemma LowBits(x: nat)
    ensures BitOf(x, 0) <==> x % 2 == 1
    ensures BitOf(x, 0) || BitOf(x, 1) <==> x % 4 != 0
  {
    BitIsDigit(x, 0);
    BitIsDigit(x, 1);
    hide BitOf;
    LastTwo(x);
  }

  lemma LastTwo(x: nat)
    ensures x % 4 != 0 <==> x % 2 == 1 || x / 2 % 2 == 1
  {
    var q, r := x / 4, x % 4;
    assert x / 2 == 2 * q + r / 2 && x % 2 == r % 2;
    assert (2 * q + r / 2) % 2 == r / 2 % 2;
  }

  /** A read-only open finds what the path stands for. */
  lemma FoundForReading(F: seq<File>, start: nat, path: seq<byte>)
    ensures Found(F, start, path, 0) == Target(F, start, path, false)
  {
  }

  /** A file create has made is an empty one of the type and numbers asked for, with one link. */
  lemma OutcomeFile(F: seq<File>, G: seq<File>, target: Option<nat>, path: seq<byte>, r: Option<nat>, f: File)
    requires CreateOutcome(F, G, target, path, r, f) && r.Some?
    ensures |G| == |F| && r.value < |F| && (f.typ != T_FILE ==> F[r.value].typ == 0)
    ensures F[r.value].typ == 0 ==> G[r.value] == f
  {
    hide DirMap, Names;
  }

  lemma OutcomeTypes(F: seq<File>, G: seq<File>, target: Option<nat>, path: seq<byte>, r: Option<nat>, f: File)
    requires CreateOutcome(F, G, target, path, r, f) && f.typ in {T_FILE, T_DEV}
    ensures |G| == |F| && forall i: nat :: i < |F| && F[i].typ != 0 ==> G[i].typ == F[i].typ
    ensures r.Some? ==> r.value < |G| && G[r.value].typ == f.typ
  {
    hide DirMap, Names;
  }

  /** F with d written at off in file i, if the file reaches there. */
  ghost function Written(F: seq<File>, i: nat, off: nat, d: seq<byte>): seq<File> {
    if i < |F| && off <= |F[i].bytes| then F[i := F[i].(bytes := Splice(F[i].bytes, off, d))] else F
  }

  /** How many of n bytes at off a file of this size takes: all of them, or the whole chunks
      that end within the largest file. */
  function Accepted(size: nat, off: nat, n: nat): nat {
    if off > size || off > MAXFILE * BSIZE then 0
    else if off + n <= MAXFILE * BSIZE then n
    else (MAXFILE * BSIZE - off) / MAXCHUNK * MAXCHUNK
  }

  lemma TreeWithContent(F: seq<File>, i: nat, bytes: seq<byte>)
    requires TreeOk(F) && i < |F| && F[i].typ != T_DIR
    ensures TreeOk(F[i := F[i].(bytes := bytes)])
  {
    var G := F[i := F[i].(bytes := bytes)];
    forall d | 0 <= d < |G| && G[d].typ == T_DIR ensures DirOk(G, G[d].bytes) {
      DirOkByTypes(F, G, F[d].bytes);
    }
  }

  lemma NothingWritten(F: seq<File>, i: nat, off: nat, size: nat)
    ensures Written(F, i, off, []) == F
    ensures Cost(BlocksFor(size), BlocksFor(Max(size, 0))) == 0
  {
    CostZero(BlocksFor(size));
    if i < |F| && off <= |F[i].bytes| {
      assert Splice(F[i].bytes, off, []) == F[i].bytes;
      assert F[i := F[i].(bytes := F[i].bytes)] == F;
    }
  }

  /** One turn of filewrite's loop, k bytes in: its writei can be paid for, or is refused and
      every whole chunk that fits is in. */
  lemma ChunkStep(F: seq<File>, table: seq<OpenFile>, free: nat, G: seq<File>, mid: seq<OpenFile>, left: nat, f: nat,
        i: nat, addr: seq<byte>, k: nat, n1: nat)
    requires k < |addr| && k % MAXCHUNK == 0 && n1 == (if |addr| - k > MAXCHUNK then MAXCHUNK else |addr| - k)
    requires SizeOf(F, i) <= MAXFILE * BSIZE && WroteBytes(F, table, free, G, mid, left, f, i, addr[..k])
    requires RoomToWrite(F, table, free, f, i, Accepted(SizeOf(F, i), table[f].off, |addr|))
    ensures FileSystem.Writable(SizeOf(G, i), mid[f].off, n1) ==> RoomToWrite(G, mid, left, f, i, n1)
    ensures !FileSystem.Writable(SizeOf(G, i), mid[f].off, n1) ==> Accepted(SizeOf(F, i), table[f].off, |addr|) == k
  {
    hide Cost, BlocksFor, Splice, Accepted;
    var size, off := |F[i].bytes|, table[f].off;
    WrittenSize(F, i, off, addr[..k]);
    ChunkFits(size, off, |addr|, k, n1);
    var cur := SizeOf(G, i);
    if FileSystem.Writable(cur, off + k, n1) {
      CostAdds(size, cur, Max(cur, off + k + n1), Max(size, off + Accepted(size, off, |addr|)));
    }
  }

  lemma ChunkFits(size: nat, off: nat, n: nat, k: nat, n1: nat)
    requires k < n && k % MAXCHUNK == 0 && n1 == (if n - k > MAXCHUNK then MAXCHUNK else n - k)
    requires size <= MAXFILE * BSIZE && (k > 0 ==> FileSystem.Writable(size, off, k))
    ensures var cur := Max(size, if k > 0 then off + k else 0);
            && (FileSystem.Writable(cur, off + k, n1) ==>
                Max(cur, off + k + n1) <= Max(size, off + Accepted(size, off, n)))
            && (!FileSystem.Writable(cur, off + k, n1) ==> Accepted(size, off, n) == k)
  {
    if off <= size && off + n > MAXFILE * BSIZE {
      WholeChunks(MAXFILE * BSIZE - off, k, n1, n);
    }
  }

  lemma WrittenSize(F: seq<File>, i: nat, off: nat, d: seq<byte>)
    requires i < |F| && (d != [] ==> off <= |F[i].bytes|)
    ensures SizeOf(Written(F, i, off, d), i) == Max(|F[i].bytes|, if d == [] then 0 else off + |d|)
  {
  }

  /** Two writes in a row come to one. */
  lemma ChunksJoin(F: seq<File>, table: seq<OpenFile>, free: nat, G: seq<File>, mid: seq<OpenFile>, left: nat,
        H: seq<File>, last: seq<OpenFile>, rest: nat, f: nat, i: nat, addr: seq<byte>, k: nat, n1: nat)
    requires k + n1 <= |addr| && n1 > 0
    requires WroteBytes(F, table, free, G, mid, left, f, i, addr[..k])
    requires WroteBytes(G, mid, left, H, last, rest, f, i, addr[k..k + n1])
    ensures WroteBytes(F, table, free, H, last, rest, f, i, addr[..k + n1])
  {
    hide Cost, BlocksFor, Splice;
    var size, off := |F[i].bytes|, table[f].off;
    WrittenSize(F, i, off, addr[..k]);
    CostAdds(size, |G[i].bytes|, Max(size, off + k + n1), Max(size, off + k + n1));
    assert addr[..k] + addr[k..k + n1] == addr[..k + n1];
    SpliceAppend(F[i].bytes, off, addr[..k], addr[k..k + n1]);
    assert last == table[f := last[f]];
  }

  lemma WroteNoMore(F: seq<File>, table: seq<OpenFile>, free: nat, G: seq<File>, mid: seq<OpenFile>, left: nat,
        H: seq<File>, last: seq<OpenFile>, rest: nat, f: nat, i: nat, d: seq<byte>)
    requires WroteBytes(F, table, free, G, mid, left, f, i, d) && WroteBytes(G, mid, left, H, last, rest, f, i, [])
    ensures WroteBytes(F, table, free, H, last, rest, f, i, d)
  {
    hide Cost, BlocksFor, Splice;
    NothingWritten(G, i, mid[f].off, |G[i].bytes|);
    assert mid[f := mid[f]] == mid;
  }

  /** Of n bytes, more than the limit, whole chunks are taken while they fit. */
  lemma WholeChunks(limit: nat, k: nat, n1: nat, n: nat)
    requires k <= limit < n && k % MAXCHUNK == 0 && n1 == (if n - k > MAXCHUNK then MAXCHUNK else n - k)
    ensures k + n1 <= limit ==> k + n1 <= limit / MAXCHUNK * MAXCHUNK
    ensures k + n1 > limit ==> k == limit / MAXCHUNK * MAXCHUNK
  {
    var j, q := k / MAXCHUNK, limit / MAXCHUNK;
    assert k == MAXCHUNK * j && limit / MAXCHUNK * MAXCHUNK == MAXCHUNK * q;
    assert MAXCHUNK * q <= limit < MAXCHUNK * q + MAXCHUNK;
    if j < q {
      assert k + MAXCHUNK <= MAXCHUNK * q;
    } else {
      assert j == q;
    }
  }

  lemma ChunksEnd(size: nat, off: nat, n: nat)
    requires n > 0 ==> FileSystem.Writable(size, off, n)
    ensures Accepted(size, off, n) == n
  {
  }

  function SizeOf(F: seq<File>, i: nat): nat {
    if i < |F| then |F[i].bytes| else 0
  }

  /** Free blocks for a write of n bytes through file f. */
  ghost predicate RoomToWrite(F: seq<File>, ftable: seq<OpenFile>, free: nat, f: nat, i: nat, n: nat) {
    var size := SizeOf(F, i);
    f < |ftable| && free >= Cost(BlocksFor(size), BlocksFor(Max(size, ftable[f].off + n)))
  }

  /** What a write through file f of the bytes d does to the files, to f and to the free blocks. */
  ghost predicate WroteBytes(F: seq<File>, ftable: seq<OpenFile>, free: nat, G: seq<File>, tableE: seq<OpenFile>,
        freeE: nat, f: nat, i: nat, d: seq<byte>) {
    && i < |F| && f < |ftable|
    && var size, off := |F[i].bytes|, ftable[f].off;
       && (d != [] ==> FileSystem.Writable(size, off, |d|))
       && G == Written(F, i, off, d)
       && tableE == ftable[f := ftable[f].(off := off + |d|)]
       && freeE == free - Cost(BlocksFor(size), BlocksFor(Max(size, if d == [] then 0 else off + |d|)))
  }

  lemma WroteNothing(F: seq<File>, ftable: seq<OpenFile>, free: nat, f: nat, i: nat)
    requires i < |F| && f < |ftable|
    ensures WroteBytes(F, ftable, free, F, ftable, free, f, i, [])
  {
    hide Cost, BlocksFor, Splice;
    NothingWritten(F, i, ftable[f].off, |F[i].bytes|);
    assert ftable[f := ftable[f]] == ftable;
  }

  /** What a read of n bytes through file f returns and does to f. */
  ghost predicate DidRead(F: seq<File>, table: seq<OpenFile>, tableE: seq<OpenFile>, f: nat, i: nat, n: u32, r: int,
        dst: seq<byte>) {
    && i < |F| && f < |table|
    && var bytes, off := F[i].bytes, table[f].off;
       && r == (if !table[f].readable || off > |bytes| || off + n >= 0x1_0000_0000 then -1
                else if off + n > |bytes| then |bytes| - off else n)
       && dst == (if r >= 0 then bytes[off..off + r] else [])
       && tableE == if r > 0 then table[f := table[f].(off := off + r)] else table
  }

  // ---------- the process ----------

  const O_WRONLY_BIT: nat := 0     // O_WRONLY 0x001
  const O_RDWR_BIT: nat := 1       // O_RDWR   0x002
  const O_CREATE_BIT: nat := 9     // O_CREATE 0x200

  class Kernel {
    const fs: FileSystem
    var ftable: seq<OpenFile>
    var ofile: seq<Option<nat>>      // the process's open files, as indices into ftable
    var cwd: nat

    /** Inside a call: file loose counts one descriptor too many, and the references of extra
        are held by the call itself. */
    ghost predicate Inside(loose: nat, extra: multiset<nat>)
      reads this, fs, fs.cache, fs.cache.ide
    {
      && fs.Sound({}) && fs.Room(2) && TreeOk(fs.Files()) && fs.Ino(ROOTINO).typ != 0
      && Accounts(ftable, ofile, cwd, fs.icache, fs.ino, fs.refs, loose, extra)
    }

    /** Between calls every reference is accounted for. */
    ghost predicate Balanced()
      reads this, fs, fs.cache, fs.cache.ide
    {
      Inside(NFILE, multiset{})
    }

    lemma InsideFacts(loose: nat, extra: multiset<nat>)
      requires Inside(loose, extra)
      ensures CanResolve(fs, cwd) && AllInUse(fs.refs, fs.Files()) && Counts(fs.icache, fs.refs)
      ensures |ftable| == NFILE && |ofile| == NOFILE && |fs.icache| == NINODE
    {
      hide BufferCache.Valid, Agree, TreeOk, OpenRefs, Slots;
      AgreeFacts(fs.D(), fs.sb, fs.ino, fs.owner, fs.icache, fs.refs, fs.entry, {});
      forall e: nat | e < |fs.icache| && fs.icache[e].ref > 0 ensures fs.refs[fs.icache[e].inum] == fs.icache[e].ref {
        AgreeLocked(fs.D(), fs.sb, fs.ino, fs.owner, fs.icache, fs.refs, fs.entry, e);
      }
      CwdInUse(ftable, ofile, cwd, fs.icache, fs.ino, fs.refs, loose, extra);
    }

    /** At most 17 references are held between system calls, so iget never runs out of entries. */
    lemma FewReferences()
      requires Balanced()
      ensures |fs.refs| <= NOFILE + 1 && |fs.refs| + 3 <= NINODE
    {
      hide BufferCache.Valid, Agree, TreeOk, OpenRefs, Slots;
      FewOpen(ftable, fs.icache, ofile);
    }

    constructor (fs: FileSystem, cwd: nat)
      requires CanResolve(fs, cwd) && fs.refs == multiset{fs.Inum(cwd)} && AllInUse(fs.refs, fs.Files())
      ensures Balanced() && this.fs == fs && ofile == seq(NOFILE, _ => None) && this.cwd == cwd
      ensures |ftable| == NFILE && forall f: nat :: f < NFILE ==> ftable[f].ref == 0 && ftable[f].kind == FdNone
    {
      hide OpenRefs, Slots, TreeOk, FileSystem.Sound;
      this.fs, this.cwd := fs, cwd;
      ftable := seq(NFILE, _ => OpenFile(FdNone, 0, false, false, 0, 0));
      ofile := seq(NOFILE, _ => None);
      new;
      NoSlotsIn(ofile);
      NoRefsIn(ftable, fs.icache);
      fs.FileFields(fs.Inum(cwd));
      assert TableOk(ftable, ofile, NFILE);
      assert fs.refs == OpenRefs(ftable, fs.icache) + multiset{fs.icache[cwd].inum} + multiset{};
    }

    // ---------- closing ----------

    /** One descriptor fewer; the last one gives back the inode reference. */
    method Fileclose(f: nat, ghost extra: multiset<nat>)
      requires f < NFILE && Inside(f, extra) && ftable[f].ref > 0
      requires if extra == multiset{} then ftable[f].kind == FdInode else ftable[f].kind == FdNone && ftable[f].ref == 1
      modifies this`ftable, fs`sb, fs`icache, fs`ino, fs`owner, fs`refs, fs`entry, fs.cache, fs.cache.ide
      ensures Inside(NFILE, extra) && Untouched(fs)
      ensures old(ftable)[f].ref > 1 || old(ftable)[f].kind == FdNone ==>
                fs.icache == old(fs.icache) && fs.refs == old(fs.refs)
      ensures old(ftable)[f].ref == 1 && old(ftable)[f].kind == FdInode ==>
                fs.refs == old(fs.refs) - multiset{old(fs.Inum(ftable[f].ip))}
      ensures ftable == old(ftable)[f := Closed(old(ftable)[f])]
    {
      hide BufferCache.Valid, Agree, TreeOk, FilesOf, FileSystem.D, Accounts, OpenRefs, Slots, FileSystem.Sound;
      InsideFacts(f, extra);
      var left := ftable[f].ref - 1;
      if left > 0 {
        AccountsAfterDrop(ftable, ofile, cwd, fs.icache, fs.ino, fs.refs, f, extra);
        ftable := ftable[f := ftable[f].(ref := left)];
        return;
      }
      var ff := ftable[f];
      if ff.kind != FdInode {
        AccountsAfterAbandon(ftable, ofile, cwd, fs.icache, fs.ino, fs.refs, f, extra);
        ftable := ftable[f := ff.(ref := 0, kind := FdNone)];
        return;
      }
      ghost var table, before, refs := ftable, fs.icache, fs.refs;
      AccountedFile(table, ofile, cwd, before, fs.ino, refs, f, extra);
      InUseStays(ff.ip);
      ftable := ftable[f := ff.(ref := 0, kind := FdNone)];
      fs.Iput(ff.ip);
      AccountsAfterClose(table, ofile, cwd, before, fs.ino, refs, f, fs.icache);
    }

    /** An inode in use has links, so giving back its last reference does not free it. */
    lemma InUseStays(ip: nat)
      requires fs.Sound({}) && TreeOk(fs.Files()) && AllInUse(fs.refs, fs.Files()) && fs.Ref(ip)
      ensures !fs.LastOfUnlinked(ip) && fs.Ino(fs.Inum(ip)).typ != 0 && fs.Ino(fs.Inum(ip)).nlink != 0
    {
      hide BufferCache.Valid, Agree, FilesOf;
      AgreeFacts(fs.D(), fs.sb, fs.ino, fs.owner, fs.icache, fs.refs, fs.entry, {});
      AgreeLocked(fs.D(), fs.sb, fs.ino, fs.owner, fs.icache, fs.refs, fs.entry, ip);
      SoundIsCounted(fs);
      fs.FileFields(fs.Inum(ip));
    }

    method SysClose(fd: int) returns (r: int)
      requires Balanced()
      modifies this`ftable, this`ofile, fs`sb, fs`icache, fs`ino, fs`owner, fs`refs, fs`entry, fs.cache, fs.cache.ide
      ensures Balanced() && Untouched(fs)
      ensures r == if 0 <= fd < NOFILE && old(ofile)[fd].Some? then 0 else -1
      ensures r == 0 ==>
                && ofile == old(ofile)[fd := None] && old(ofile)[fd].value < NFILE == |old(ftable)|
                && ftable == old(ftable)[old(ofile)[fd].value := Closed(old(ftable)[old(ofile)[fd].value])]
                && var f := old(ftable)[old(ofile)[fd].value];
                   fs.refs == old(fs.refs) - if f.ref == 1
                       then multiset{old(fs.Inum(ftable[ofile[fd].value].ip))} else multiset{}
      ensures r == -1 ==> ofile == old(ofile) && ftable == old(ftable) && fs.refs == old(fs.refs)
    {
      hide BufferCache.Valid, Agree, TreeOk, FilesOf, FileSystem.D, Accounts, OpenRefs, Slots, FileSystem.Sound;
      InsideFacts(NFILE, multiset{});
      if fd < 0 || fd >= NOFILE || ofile[fd].None? {
        return -1;
      }
      var f := ofile[fd].value;
      AccountsAfterUnslot(ftable, ofile, cwd, fs.icache, fs.ino, fs.refs, fd);
      ofile := ofile[fd := None];
      Fileclose(f, multiset{});
      return 0;
    }

    // ---------- opening ----------

    /** The lowest file table entry not in use. */
    method Filealloc() returns (f: nat)
      requires TableOk(ftable, ofile, NFILE)
      modifies this`ftable
      ensures f < NFILE && old(ftable)[f].ref == 0 && (forall g: nat :: g < f ==> old(ftable)[g].ref > 0)
      ensures ftable == old(ftable)[f := old(ftable)[f].(ref := 1)]
    {
      f := 0;
      while f < NFILE
        invariant f <= NFILE && (forall g: nat :: g < f ==> ftable[g].ref > 0) && ftable == old(ftable)
      {
        if ftable[f].ref == 0 {
          ftable := ftable[f := ftable[f].(ref := 1)];
          return;
        }
        f := f + 1;
      }
      SomeFileFree(ftable, ofile);
    }

    /** The lowest free descriptor, now naming file f. */
    method Fdalloc(f: nat) returns (r: Option<nat>)
      requires |ofile| == NOFILE
      modifies this`ofile
      ensures r.None? ==> ofile == old(ofile) && None !in old(ofile)
      ensures r.Some? ==>
                && r.value < NOFILE && old(ofile)[r.value] == None && None !in old(ofile)[..r.value]
                && ofile == old(ofile)[r.value := Some(f)]
    {
      var fd := 0;
      while fd < NOFILE
        invariant fd <= NOFILE && None !in ofile[..fd] && ofile == old(ofile)
      {
        if ofile[fd].None? {
          ofile := ofile[fd := Some(f)];
          return Some(fd);
        }
        fd := fd + 1;
      }
      assert ofile[..fd] == ofile;
      return None;
    }

    lemma FileTypes()
      ensures forall i: nat :: i < |fs.ino| ==> fs.Files()[i].typ == fs.ino[i].typ
    {
      hide FilesOf;
      forall i: nat | i < |fs.ino| ensures fs.Files()[i].typ == fs.ino[i].typ {
        fs.FileFields(i);
      }
    }

    /** The accounts after work that kept every handle and left the call holding more. */
    lemma InsideAfter(before: seq<Inode>, ino0: seq<Dinode>, refs0: multiset<nat>, more: multiset<nat>)
      requires Accounts(ftable, ofile, cwd, before, ino0, refs0, NFILE, multiset{})
      requires Handles(before, fs.icache) && TypesKept(ino0, fs.ino) && fs.refs == refs0 + more
      requires fs.Sound({}) && fs.Room(2) && TreeOk(fs.Files()) && ROOTINO < |ino0| && ino0[ROOTINO].typ != 0
      requires forall i :: i in more ==> i < |fs.ino| && fs.ino[i].typ != 0
      ensures Inside(NFILE, more)
    {
      hide Accounts, TreeOk, Handles, FileSystem.Sound, FilesOf;
      AccountsAfterHandles(ftable, ofile, cwd, before, ino0, refs0, NFILE, multiset{}, fs.icache, fs.ino, more);
      assert multiset{} + more == more;
    }

    /** The directory in which create finds the file at path, or makes it. */
    ghost function Parent(path: seq<byte>): Option<nat>
      reads this`cwd, fs, fs.cache, fs.cache.ide
    {
      Target(fs.Files(), Start(fs, path, cwd), path, true)
    }

    /** If create comes to make a file at path, what it needs is there. */
    ghost predicate CanMakeAt(path: seq<byte>)
      reads this`cwd, fs, fs.cache, fs.cache.ide
    {
      CanMake(fs.Files(), |FreeSet(fs.D(), fs.sb)|, Parent(path), path)
    }

    /** create, with the accounts of the call that makes it. */
    method MakeFile(path: seq<byte>, typ: u16, major: u16, minor: u16) returns (r: Option<nat>)
      requires Balanced() && 0 !in path && typ in {T_FILE, T_DEV}
      requires CanMakeAt(path)
      modifies fs`sb, fs`icache, fs`ino, fs`owner, fs`refs, fs`entry, fs.cache, fs.cache.ide
      ensures Inside(NFILE, if r.None? then multiset{} else multiset{fs.Inum(r.value)})
      ensures Handles(old(fs.icache), fs.icache) && TypesKept(old(fs.ino), fs.ino)
      ensures r.Some? ==> fs.Locked(r.value) && fs.Ino(fs.Inum(r.value)).typ == typ
      ensures fs.refs == old(fs.refs) + if r.None? then multiset{} else multiset{fs.Inum(r.value)}
      ensures CreateOutcome(old(fs.Files()), fs.Files(), old(Parent(path)), path,
                            if r.None? then None else Some(fs.Inum(r.value)), File(typ, major, minor, 1, []))
      ensures r.Some? ==>
                && fs.Inum(r.value) < |old(fs.Files())| == |fs.Files()|
                && (typ != T_FILE ==> old(fs.Files())[fs.Inum(r.value)].typ == 0)
                && (old(fs.Files())[fs.Inum(r.value)].typ == 0 ==>
                      fs.Files()[fs.Inum(r.value)] == File(typ, major, minor, 1, []))
    {
      hide Agree, TreeOk, FilesOf, FileSystem.D, Accounts, OpenRefs, Slots, FileSystem.Base, Handles, CanMake,
           CreateOutcome, Target, Start, FreeSet;
      InsideFacts(NFILE, multiset{});
      FewReferences();
      ghost var F, before, ino0, refs0 := fs.Files(), fs.icache, fs.ino, fs.refs;
      FileTypes();
      RootInTable();
      r := Create(fs, path, typ, major, minor, cwd);
      FileTypes();
      ghost var found := if r.None? then None else Some(fs.Inum(r.value));
      OutcomeTypes(F, fs.Files(), old(Parent(path)), path, found, File(typ, major, minor, 1, []));
      if r.Some? {
        OutcomeFile(F, fs.Files(), old(Parent(path)), path, found, File(typ, major, minor, 1, []));
      }
      InsideAfter(before, ino0, refs0, if r.None? then multiset{} else multiset{fs.Inum(r.value)});
    }

    lemma RootInTable()
      requires Balanced()
      ensures ROOTINO < |fs.ino| && fs.ino[ROOTINO].typ != 0
    {
      hide BufferCache.Valid, Agree, TreeOk, FilesOf, Accounts;
      AgreeFacts(fs.D(), fs.sb, fs.ino, fs.owner, fs.icache, fs.refs, fs.entry, {});
    }

    /** The inode at path, locked; a directory only for reading. */
    method Lookup(path: seq<byte>, omode: u32) returns (r: Option<nat>)
      requires Balanced() && 0 !in path
      modifies fs`sb, fs`icache, fs`ino, fs`owner, fs`refs, fs`entry, fs.cache, fs.cache.ide
      ensures Inside(NFILE, if r.None? then multiset{} else multiset{fs.Inum(r.value)}) && Untouched(fs)
      ensures Handles(old(fs.icache), fs.icache)
      ensures r.Some? ==> fs.Locked(r.value) && fs.Ino(fs.Inum(r.value)).typ != 0 && (omode != 0 ==>
          fs.Ino(fs.Inum(r.value)).typ != T_DIR)
      ensures fs.refs == old(fs.refs) + if r.None? then multiset{} else multiset{fs.Inum(r.value)}
      ensures (if r.None? then None else Some(fs.Inum(r.value))) ==
                Found(old(fs.Files()), old(Start(fs, path, cwd)), path, omode)
    {
      hide Agree, TreeOk, FilesOf, FileSystem.D, Accounts, OpenRefs, Slots, FileSystem.Base, Handles, Target, Start;
      InsideFacts(NFILE, multiset{});
      FewReferences();
      SoundIsCounted(fs);
      RootInTable();
      ghost var before, refs0 := fs.icache, fs.refs;
      var ip, name := Namex(fs, path, cwd, false);
      if ip.None? {
        InsideAfter(before, fs.ino, refs0, multiset{});
        return None;
      }
      RefLinked(fs, ip.value);
      LockIt(fs, ip.value, before);
      fs.FileFields(fs.Inum(ip.value));
      if fs.icache[ip.value].rec.typ == T_DIR && omode != 0 {
        PutExtra(fs, ip.value, before, refs0);
        InsideAfter(before, fs.ino, refs0, multiset{});
        return None;
      }
      InsideAfter(before, fs.ino, refs0, multiset{fs.Inum(ip.value)});
      return ip;
    }

    /** open: the lowest free descriptor names the lowest free file, on the inode the path
        stands for, which gains one reference; without a descriptor the reference goes back. */
    method SysOpen(path: seq<byte>, omode: u32) returns (fd: int, ghost found: Option<nat>)
      requires Balanced() && 0 !in path
      requires BitOf(omode, O_CREATE_BIT) ==> CanMakeAt(path)
      modifies this`ftable, this`ofile, fs`sb, fs`icache, fs`ino, fs`owner, fs`refs, fs`entry, fs.cache, fs.cache.ide
      ensures Balanced()
      ensures if BitOf(omode, O_CREATE_BIT)
              then CreateOutcome(old(fs.Files()), fs.Files(), old(Parent(path)), path, found, File(T_FILE, 0, 0, 1, []))
              else
                && fs.Files() == old(fs.Files())
                && found == Found(old(fs.Files()), old(Start(fs, path, cwd)), path, omode)
      ensures omode == 0 ==> found == Target(old(fs.Files()), old(Start(fs, path, cwd)), path, false)
      ensures found.Some? ==>
                && found.value < |old(fs.Files())| == |fs.Files()|
                && (BitOf(omode, O_CREATE_BIT) && old(fs.Files())[found.value].typ == 0 ==>
                      fs.Files()[found.value] == File(T_FILE, 0, 0, 1, []))
      ensures fd == -1 || 0 <= fd < NOFILE == |old(ofile)|
      ensures fd >= 0 <==> found.Some? && None in old(ofile)
      ensures fd == -1 ==> ofile == old(ofile) && ftable == old(ftable) && fs.refs == old(fs.refs)
      ensures fd >= 0 ==> fs.refs == old(fs.refs) + multiset{found.value}
      ensures fd >= 0 ==> OpenedAs(old(ftable), old(ofile), ftable, ofile, fs.icache, fd, omode, found.value)
    {
      hide Agree, TreeOk, FilesOf, FileSystem.D, Accounts, OpenRefs, Slots, FileSystem.Base, Handles, Target,
           Start, CanMake, CreateOutcome, FreeSet, Found;
      ModeBits(omode);
      FoundForReading(fs.Files(), Start(fs, path, cwd), path);
      RootInTable();
      InsideFacts(NFILE, multiset{});
      SoundIsCounted(fs);
      ghost var before, ino0, refs0 := fs.icache, fs.ino, fs.refs;
      var r;
      if BitOf(omode, O_CREATE_BIT) {
        r := MakeFile(path, T_FILE, 0, 0);
      } else {
        r := Lookup(path, omode);
      }
      if r.None? {
        return -1, None;
      }
      found := Some(fs.Inum(r.value));
      fd := Install(r.value, omode, before, ino0, refs0);
    }

    /** open gives up: the file is closed and the inode put back. */
    method Abandon(ip: nat, f: nat, ghost table: seq<OpenFile>, ghost before: seq<Inode>, ghost ino0: seq<Dinode>,
          ghost refs0: multiset<nat>)
      requires f < NFILE && Inside(f, multiset{fs.Inum(ip)}) && fs.Ref(ip) && fs.Ino(fs.Inum(ip)).typ != 0
      requires |table| == NFILE && table[f].ref == 0 && table[f].kind == FdNone
                 && ftable == table[f := table[f].(ref := 1)]
      requires Accounts(table, ofile, cwd, before, ino0, refs0, NFILE, multiset{}) && Counted(before, refs0)
      requires Handles(before, fs.icache) && TypesKept(ino0, fs.ino) && fs.refs == refs0 + multiset{fs.Inum(ip)}
      requires ROOTINO < |ino0| && ino0[ROOTINO].typ != 0
      modifies this`ftable, fs`sb, fs`icache, fs`ino, fs`owner, fs`refs, fs`entry, fs.cache, fs.cache.ide
      ensures Balanced() && Untouched(fs) && ftable == table && fs.refs == refs0
    {
      hide Agree, TreeOk, FilesOf, FileSystem.D, Accounts, OpenRefs, Slots, FileSystem.Base, Handles, Counted;
      RefLinked(fs, ip);
      Fileclose(f, multiset{fs.Inum(ip)});
      assert ftable == table;
      PutExtra(fs, ip, before, refs0);
      InsideAfter(before, ino0, refs0, multiset{});
    }

    /** The second half of open, on the locked inode at ip. */
    method Install(ip: nat, omode: u32, ghost before: seq<Inode>, ghost ino0: seq<Dinode>, ghost refs0: multiset<nat>)
      returns (fd: int)
      requires Inside(NFILE, multiset{fs.Inum(ip)}) && fs.Locked(ip) && fs.Ino(fs.Inum(ip)).typ != 0 && (omode != 0 ==>
          fs.Ino(fs.Inum(ip)).typ != T_DIR)
      requires Accounts(ftable, ofile, cwd, before, ino0, refs0, NFILE, multiset{}) && Counted(before, refs0)
      requires Handles(before, fs.icache) && TypesKept(ino0, fs.ino) && fs.refs == refs0 + multiset{fs.Inum(ip)}
      requires ROOTINO < |ino0| && ino0[ROOTINO].typ != 0
      modifies this`ftable, this`ofile, fs`sb, fs`icache, fs`ino, fs`owner, fs`refs, fs`entry, fs.cache, fs.cache.ide
      ensures Balanced() && Untouched(fs)
      ensures fd == -1 || 0 <= fd < NOFILE == |old(ofile)|
      ensures fd >= 0 <==> None in old(ofile)
      ensures fd == -1 ==> ofile == old(ofile) && ftable == old(ftable) && fs.refs == refs0
      ensures fd >= 0 ==> fs.refs == old(fs.refs)
      ensures fd >= 0 ==> OpenedAs(old(ftable), old(ofile), ftable, ofile, fs.icache, fd, omode, old(fs.Inum(ip)))
    {
      hide Agree, TreeOk, FilesOf, FileSystem.D, Accounts, OpenRefs, Slots, FileSystem.Base, Handles, TableOk,
           Counted;
      ModeBits(omode);
      ghost var i, table := fs.Inum(ip), ftable;
      AccountedFile(ftable, ofile, cwd, fs.icache, fs.ino, fs.refs, NFILE, multiset{i});
      var f := Filealloc();
      AccountsAfterAlloc(table, ofile, cwd, fs.icache, fs.ino, fs.refs, f, multiset{i});
      var slot := Fdalloc(f);
      if slot.None? {
        Abandon(ip, f, table, before, ino0, refs0);
        return -1;
      }
      var readable, writable := !BitOf(omode, O_WRONLY_BIT), BitOf(omode, O_WRONLY_BIT) || BitOf(omode, O_RDWR_BIT);
      var x := OpenFile(FdInode, ftable[f].ref, readable, writable, ip, 0);
      AccountsAfterOpen(ftable, old(ofile), cwd, fs.icache, fs.ino, fs.refs, f, slot.value, x);
      ftable := ftable[f := x];
      return slot.value;
    }

    /** mknod: a device file is created and put back at once. */
    method SysMknod(path: seq<byte>, major: u16, minor: u16) returns (r: int, ghost found: Option<nat>)
      requires Balanced() && 0 !in path && CanMakeAt(path)
      modifies fs`sb, fs`icache, fs`ino, fs`owner, fs`refs, fs`entry, fs.cache, fs.cache.ide
      ensures Balanced() && fs.refs == old(fs.refs)
      ensures CreateOutcome(old(fs.Files()), fs.Files(), old(Parent(path)), path,
                            found, File(T_DEV, major, minor, 1, []))
      ensures found.Some? ==>
                && found.value < |old(fs.Files())| == |fs.Files()| && old(fs.Files())[found.value].typ == 0
                && fs.Files()[found.value] == File(T_DEV, major, minor, 1, [])
      ensures r == if found.Some? then 0 else -1
    {
      hide Agree, TreeOk, FilesOf, FileSystem.D, Accounts, OpenRefs, Slots, FileSystem.Base, Handles, Target,
           Start, CanMake, CreateOutcome, FreeSet, Counted;
      RootInTable();
      SoundIsCounted(fs);
      ghost var before, ino0, refs0 := fs.icache, fs.ino, fs.refs;
      var ip := MakeFile(path, T_DEV, major, minor);
      if ip.None? {
        return -1, None;
      }
      found := Some(fs.Inum(ip.value));
      RefLinked(fs, ip.value);
      PutExtra(fs, ip.value, before, refs0);
      InsideAfter(before, ino0, refs0, multiset{});
      r := 0;
    }

    // ---------- reading and writing ----------

    /** File f is open on an ordinary file or a directory. */
    ghost predicate OpenOn(f: nat, i: nat)
      reads this`ftable, fs`icache, fs`ino
    {
      && f < |ftable| && ftable[f].kind == FdInode && ftable[f].ip < |fs.icache| && fs.icache[ftable[f].ip].inum == i
      && i < |fs.ino| && fs.ino[i].typ != T_DEV
    }

    lemma OpenFacts(f: nat, i: nat)
      requires Balanced() && OpenOn(f, i)
      ensures f < NFILE == |ftable| && fs.Ref(ftable[f].ip) && fs.Inum(ftable[f].ip) == i && fs.ino[i].typ != 0
      ensures ftable[f].writable ==> fs.ino[i].typ != T_DIR
    {
      hide BufferCache.Valid, Agree, TreeOk, FilesOf, OpenRefs, TableOk;
      AccountedFile(ftable, ofile, cwd, fs.icache, fs.ino, fs.refs, NFILE, multiset{});
      OpenRefsHas(ftable, fs.icache, f);
    }

    /** Locks the inode of an open file. */
    method LockOpen(f: nat, ghost i: nat)
      requires Balanced() && OpenOn(f, i)
      modifies fs`icache, fs.cache, fs.cache.ide
      ensures Balanced() && OpenOn(f, i) && fs.Locked(ftable[f].ip) && Untouched(fs)
    {
      hide Agree, TreeOk, FilesOf, FileSystem.D, Accounts, FileSystem.Base, Handles;
      OpenFacts(f, i);
      RootInTable();
      ghost var before := fs.icache;
      HandlesRefl(before);
      LockIt(fs, ftable[f].ip, before);
      InsideAfter(before, fs.ino, fs.refs, multiset{});
    }

    /** The offset of file f moves on by r. */
    method Advance(f: nat, r: nat)
      requires Balanced() && f < NFILE == |ftable| && ftable[f].off as int + r < 0x1_0000_0000
      modifies this`ftable
      ensures Balanced() && ftable == old(ftable)[f := old(ftable)[f].(off := old(ftable)[f].off + r)]
    {
      hide BufferCache.Valid, Agree, TreeOk, FilesOf, Accounts;
      AccountsAfterAdvance(ftable, ofile, cwd, fs.icache, fs.ino, fs.refs, f, ftable[f].off + r);
      ftable := ftable[f := ftable[f].(off := ftable[f].off + r)];
    }

    lemma SizeBound(i: nat)
      requires fs.Sound({}) && i < |fs.ino|
      ensures SizeOf(fs.Files(), i) <= MAXFILE * BSIZE
    {
      hide BufferCache.Valid, FileBytes;
      AgreeClean(fs.D(), fs.sb, fs.ino, fs.owner, fs.icache, fs.refs, fs.entry, i);
    }

    /** The bytes of the file from the descriptor's offset, which moves past them. */
    method Fileread(f: nat, n: u32, ghost i: nat) returns (r: int, dst: seq<byte>)
      requires Balanced() && OpenOn(f, i)
      modifies this`ftable, fs`icache, fs`ino, fs`owner, fs.cache, fs.cache.ide
      ensures Balanced() && Untouched(fs) && fs.refs == old(fs.refs)
      ensures DidRead(fs.Files(), old(ftable), ftable, f, i, n, r, dst)
    {
      hide Agree, TreeOk, FilesOf, FileSystem.D, FileSystem.Base, Accounts, FileBytes;
      OpenFacts(f, i);
      dst := [];
      if !ftable[f].readable {
        return -1, dst;
      }
      LockOpen(f, i);
      fs.LockedFile(ftable[f].ip);
      r, dst := fs.Readi(ftable[f].ip, ftable[f].off, n);
      if r > 0 {
        Advance(f, r);
      }
    }

    /** One writei of filewrite. */
    method WriteChunk(f: nat, chunk: seq<byte>, ghost i: nat) returns (r: int)
      requires Balanced() && OpenOn(f, i) && ftable[f].writable && 0 < |chunk| <= MAXCHUNK
      requires FileSystem.Writable(SizeOf(fs.Files(), i), ftable[f].off, |chunk|) ==>
                 RoomToWrite(fs.Files(), ftable, |FreeSet(fs.D(), fs.sb)|, f, i, |chunk|)
      modifies this`ftable, fs`icache, fs`ino, fs`owner, fs.cache, fs.cache.ide
      ensures Balanced() && OpenOn(f, i) && fs.refs == old(fs.refs) && fs.sb == old(fs.sb) && f < |old(ftable)|
      ensures r == if FileSystem.Writable(old(SizeOf(fs.Files(), i)), old(ftable)[f].off, |chunk|) then |chunk| else -1
      ensures WroteBytes(old(fs.Files()), old(ftable), old(|FreeSet(fs.D(), fs.sb)|), fs.Files(), ftable,
                |FreeSet(fs.D(), fs.sb)|, f, i, if r > 0 then chunk else [])
    {
      hide Agree, TreeOk, FilesOf, FileSystem.D, FileSystem.Base, Accounts, FileBytes, FreeSet, Splice,
           BlocksFor, Cost;
      LockOpen(f, i);
      RootInTable();
      OpenFacts(f, i);
      var ip := ftable[f].ip;
      fs.LockedFile(ip);
      FileTypes();
      ghost var F, before, ino0 := fs.Files(), fs.icache, fs.ino;
      WroteNothing(F, ftable, |FreeSet(fs.D(), fs.sb)|, f, i);
      r := fs.Writei(ip, chunk, ftable[f].off);
      if r < 0 {
        return;
      }
      FileTypes();
      HandlesAfterRec(before, fs.icache, ip, fs.Rec(ip));
      TreeWithContent(F, i, Splice(F[i].bytes, ftable[f].off, chunk));
      InsideAfter(before, ino0, fs.refs, multiset{});
      Advance(f, r);
    }

    /** Writing in chunks comes to one splice of all the bytes if the whole write fits, and then
        costs what one writei of them would; otherwise of the whole chunks that fit, and -1. */
    method Filewrite(f: nat, addr: seq<byte>, ghost i: nat) returns (r: int, ghost w: nat)
      requires Balanced() && OpenOn(f, i) && |addr| < 0x8000_0000
      requires ftable[f].writable ==>
                 var n := Accepted(SizeOf(fs.Files(), i), ftable[f].off, |addr|);
                 RoomToWrite(fs.Files(), ftable, |FreeSet(fs.D(), fs.sb)|, f, i, n)
      modifies this`ftable, fs`icache, fs`ino, fs`owner, fs.cache, fs.cache.ide
      ensures Balanced() && fs.refs == old(fs.refs) && fs.sb == old(fs.sb) && f < |old(ftable)|
      ensures w == if old(ftable)[f].writable
                then Accepted(old(SizeOf(fs.Files(), i)), old(ftable)[f].off, |addr|) else 0
      ensures w <= |addr| && r == if old(ftable)[f].writable && w == |addr| then |addr| else -1
      ensures WroteBytes(old(fs.Files()), old(ftable), old(|FreeSet(fs.D(), fs.sb)|), fs.Files(), ftable,
                |FreeSet(fs.D(), fs.sb)|, f, i, addr[..w])
    {
      hide Agree, TreeOk, FilesOf, FileSystem.D, FileSystem.Base, Accounts, FileBytes, FreeSet, Splice,
           BlocksFor, Cost, Kernel.OpenOn, Written, Accepted, FileSystem.Writable, RoomToWrite;
      OpenFacts(f, i);
      SizeBound(i);
      ghost var F, table, free := fs.Files(), ftable, |FreeSet(fs.D(), fs.sb)|;
      WroteNothing(F, table, free, f, i);
      w := 0;
      if !ftable[f].writable {
        return -1, 0;
      }
      var k := 0;
      while k < |addr|
        invariant Balanced() && OpenOn(f, i) && fs.refs == old(fs.refs) && fs.sb == old(fs.sb)
        invariant k <= |addr| && (k < |addr| ==> k % MAXCHUNK == 0)
        invariant WroteBytes(F, table, free, fs.Files(), ftable, |FreeSet(fs.D(), fs.sb)|, f, i, addr[..k])
      {
        var n1 := if |addr| - k > MAXCHUNK then MAXCHUNK else |addr| - k;
        ghost var G, mid, left := fs.Files(), ftable, |FreeSet(fs.D(), fs.sb)|;
        ChunkStep(F, table, free, G, mid, left, f, i, addr, k, n1);
        var m := WriteChunk(f, addr[k..k + n1], i);
        if m < 0 {
          w := k;
          WroteNoMore(F, table, free, G, mid, left, fs.Files(), ftable, |FreeSet(fs.D(), fs.sb)|, f, i, addr[..k]);
          return -1, k;
        }
        ChunksJoin(F, table, free, G, mid, left, fs.Files(), ftable, |FreeSet(fs.D(), fs.sb)|, f, i, addr, k, n1);
        k := k + n1;
      }
      ChunksEnd(SizeOf(F, i), table[f].off, k);
      return |addr|, |addr|;
    }
  }

  lemma CwdInUse(ftable: seq<OpenFile>, ofile: seq<Option<nat>>, cwd: nat, icache: seq<Inode>, ino: seq<Dinode>,
        refs: multiset<nat>, loose: nat, extra: multiset<nat>)
    requires Accounts(ftable, ofile, cwd, icache, ino, refs, loose, extra)
    ensures icache[cwd].inum < |ino| && ino[icache[cwd].inum].typ != 0 && icache[cwd].inum in refs
  {
  }
}
