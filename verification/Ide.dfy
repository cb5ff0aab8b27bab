/** The IDE driver: a linked queue of buffers, one outstanding drive command, and an interrupt
    handler that finishes the head request and starts the next one.

    The buffers are the static array bcache.buf, so a struct buf pointer is an index into it.
    The drive is two arrays of blocks plus the command it was last given. */
module Ide {
  import opened Bytes
  import opened Layout

  const NDISK: nat := 2
  const NULL: int := -1

  type Disk = seq<seq<Block>>

  /** The fields of struct buf that the driver looks at, apart from qnext. */
  datatype Buf = Buf(valid: bool, dirty: bool, dev: nat, blockno: nat, data: Block)

  datatype Command = Idle | Read(dev: nat, blockno: nat) | Write(dev: nat, blockno: nat, data: Block)

  datatype State = State(disk: Disk, buf: seq<Buf>, queue: seq<nat>, command: Command)

  predicate OnDisk(dev: nat, blockno: nat) {
    dev < NDISK && blockno < FSSIZE
  }

  ghost predicate GoodDisk(disk: Disk) {
    |disk| == NDISK && forall d :: 0 <= d < NDISK ==> |disk[d]| == FSSIZE
  }

  ghost predicate GoodBufs(buf: seq<Buf>) {
    forall b :: 0 <= b < |buf| ==> OnDisk(buf[b].dev, buf[b].blockno)
  }

  /** The busy-wait of iderw is still running. */
  predicate Waiting(b: Buf) {
    !(b.valid && !b.dirty)
  }

  /** What idestart tells the drive. */
  function CommandFor(b: Buf): Command {
    if b.dirty then Write(b.dev, b.blockno, b.data) else Read(b.dev, b.blockno)
  }

  /** What every step keeps: no buffer is queued twice, every queued buffer still waits, and a
      command is outstanding exactly when the queue is non-empty, and then for its head. */
  ghost predicate Safe(s: State) {
    && GoodDisk(s.disk)
    && GoodBufs(s.buf)
    && Distinct(s.queue)
    && (forall i :: 0 <= i < |s.queue| ==> s.queue[i] < |s.buf| && Waiting(s.buf[s.queue[i]]))
    && s.command == if s.queue == [] then Idle else CommandFor(s.buf[s.queue[0]])
  }

  function PutBlock(disk: Disk, dev: nat, blockno: nat, data: Block): Disk
    requires dev < |disk| && blockno < |disk[dev]|
  {
    var blocks: seq<Block> := disk[dev];
    disk[dev := blocks[blockno := data]]
  }

  /** Only the one block changes. */
  lemma PutBlockAt(disk: Disk, dev: nat, blockno: nat, data: Block, e: nat, b: nat)
    requires dev < |disk| && blockno < |disk[dev]| && e < |disk| && b < |disk[e]|
    ensures var r := PutBlock(disk, dev, blockno, data);
            && |r| == |disk| && |r[e]| == |disk[e]|
            && r[e][b] == if e == dev && b == blockno then data else disk[e][b]
  {
  }

  // ---------- the two steps ----------

  /** iderw up to its wait: append to the queue, and start the drive if it was idle. */
  ghost function Submitted(s: State, b: nat): State
    requires Safe(s) && b < |s.buf|
  {
    s.(queue := s.queue + [b], command := if s.queue == [] then CommandFor(s.buf[b]) else s.command)
  }

  /** The drive carries out its command, then the handler pops the head, copies a read block
      in, marks the buffer valid and clean, and starts the next request. */
  ghost function Interrupted(s: State): State
    requires Safe(s)
  {
    if s.queue == [] then s
    else
      var b := s.queue[0];
      var disk := if s.command.Write?
          then PutBlock(s.disk, s.command.dev, s.command.blockno, s.command.data) else s.disk;
      var data := if s.buf[b].dirty then s.buf[b].data else disk[s.command.dev][s.command.blockno];
      var buf := s.buf[b := s.buf[b].(data := data, valid := true, dirty := false)];
      var rest := s.queue[1..];
      State(disk, buf, rest, if rest == [] then Idle else CommandFor(buf[rest[0]]))
  }

  // ---------- running requests one by one ----------

  datatype Result = Result(disk: Disk, buf: seq<Buf>)

  /** One request, served alone. */
  ghost function Serve(r: Result, b: nat): Result
    requires GoodDisk(r.disk) && GoodBufs(r.buf) && b < |r.buf|
    ensures GoodDisk(Serve(r, b).disk) && GoodBufs(Serve(r, b).buf) && |Serve(r, b).buf| == |r.buf|
  {
    var x := r.buf[b];
    if x.dirty then
      Result(PutBlock(r.disk, x.dev, x.blockno, x.data), r.buf[b := x.(valid := true, dirty := false)])
    else
      Result(r.disk, r.buf[b := x.(valid := true, data := r.disk[x.dev][x.blockno])])
  }

  ghost function ServeAll(r: Result, q: seq<nat>): Result
    requires GoodDisk(r.disk) && GoodBufs(r.buf) && forall i :: 0 <= i < |q| ==> q[i] < |r.buf|
    ensures var t := ServeAll(r, q); GoodDisk(t.disk) && GoodBufs(t.buf) && |t.buf| == |r.buf|
    decreases |q|
  {
    if q == [] then r else ServeAll(Serve(r, q[0]), q[1..])
  }

  /** What the present queue still has to do. */
  ghost function Drained(s: State): Result
    requires Safe(s)
  {
    ServeAll(Result(s.disk, s.buf), s.queue)
  }

  lemma {:induction false} ServeAllAppend(r: Result, q: seq<nat>, b: nat)
    requires GoodDisk(r.disk) && GoodBufs(r.buf) && b < |r.buf| && forall i :: 0 <= i < |q| ==> q[i] < |r.buf|
    ensures ServeAll(r, q + [b]) == Serve(ServeAll(r, q), b)
    decreases |q|
  {
    if q == [] {
      assert (q + [b])[1..] == [];
    } else {
      assert (q + [b])[1..] == q[1..] + [b];
      ServeAllAppend(Serve(r, q[0]), q[1..], b);
    }
  }

  /** Serving a queue does not look at or touch a buffer outside it. */
  lemma {:induction false} ServeAllFrame(r: Result, q: seq<nat>, b: nat, x: Buf)
    requires GoodDisk(r.disk) && GoodBufs(r.buf) && b < |r.buf| && OnDisk(x.dev, x.blockno)
    requires forall i :: 0 <= i < |q| ==> q[i] < |r.buf| && q[i] != b
    ensures ServeAll(r.(buf := r.buf[b := x]), q) == var t := ServeAll(r, q); t.(buf := t.buf[b := x])
    ensures ServeAll(r, q).buf[b] == r.buf[b]
    decreases |q|
  {
    if q != [] {
      var r' := Serve(r, q[0]);
      assert Serve(r.(buf := r.buf[b := x]), q[0]) == r'.(buf := r'.buf[b := x]);
      ServeAllFrame(r', q[1..], b, x);
    }
  }

  // ---------- every interleaving ----------

  /** Request(b, x): kernel code leaves buffer b holding x and calls iderw on it.
      Interrupt: the drive raises its interrupt (with an empty queue, a spurious one). */
  datatype Event = Request(b: nat, x: Buf) | Interrupt

  ghost predicate Enabled(s: State, e: Event) {
    match e
    case Interrupt => true
    case Request(b, x) => b < |s.buf| && b !in s.queue && OnDisk(x.dev, x.blockno) && Waiting(x)
  }

  ghost function Step(s: State, e: Event): State
    requires Safe(s) && Enabled(s, e)
  {
    match e
    case Interrupt => Interrupted(s)
    case Request(b, x) => SafeAfterStore(s, b, x); Submitted(s.(buf := s.buf[b := x]), b)
  }

  lemma SafeAfterStore(s: State, b: nat, x: Buf)
    requires Safe(s) && b < |s.buf| && b !in s.queue && OnDisk(x.dev, x.blockno)
    ensures Safe(s.(buf := s.buf[b := x]))
  {
  }

  lemma SubmitKeepsSafe(s: State, b: nat)
    requires Safe(s) && b < |s.buf| && b !in s.queue && Waiting(s.buf[b])
    ensures Safe(Submitted(s, b))
  {
  }

  lemma SubmittedFields(s: State, b: nat)
    requires Safe(s) && b < |s.buf|
    ensures Submitted(s, b) == State(s.disk, s.buf, s.queue + [b], if s.queue == []
              then CommandFor(s.buf[b]) else s.command)
    ensures Distinct(s.queue) && forall i :: 0 <= i < |s.queue| ==> s.queue[i] < |s.buf|
  {
  }

  lemma InterruptKeepsSafe(s: State)
    requires Safe(s)
    ensures Safe(Interrupted(s))
  {
  }

  /** Finishing the head inside the handler is what serving it alone would do. */
  lemma InterruptKeepsDrained(s: State)
    requires Safe(s)
    ensures Safe(Interrupted(s)) && Drained(Interrupted(s)) == Drained(s)
  {
    InterruptKeepsSafe(s);
    if s.queue != [] {
      var b := s.queue[0];
      assert s.buf[b].(data := s.buf[b].data, valid := true, dirty := false) ==
          s.buf[b].(valid := true, dirty := false);
      var t := Interrupted(s);
      assert Serve(Result(s.disk, s.buf), b) == Result(t.disk, t.buf);
    }
  }

  ghost predicate Trace(s: State, es: seq<Event>)
    decreases |es|
  {
    es == [] || (Safe(s) && Enabled(s, es[0]) && Trace(Step(s, es[0]), es[1..]))
  }

  ghost function Run(s: State, es: seq<Event>): State
    requires Safe(s) && Trace(s, es)
    ensures Safe(Run(s, es))
    decreases |es|
  {
    if es == [] then s
    else
      StepKeepsSafe(s, es[0]);
      Run(Step(s, es[0]), es[1..])
  }

  lemma StepKeepsSafe(s: State, e: Event)
    requires Safe(s) && Enabled(s, e)
    ensures Safe(Step(s, e)) && |Step(s, e).buf| == |s.buf|
  {
    match e
    case Interrupt => InterruptKeepsSafe(s);
    case Request(b, x) =>
      SafeAfterStore(s, b, x);
      SubmitKeepsSafe(s.(buf := s.buf[b := x]), b);
  }

  /** One request made and served on an idle disk; nothing, if there is no such buffer or block. */
  ghost function MadeAndServed(r: Result, b: nat, x: Buf): (t: Result)
    requires GoodDisk(r.disk) && GoodBufs(r.buf)
    ensures GoodDisk(t.disk) && GoodBufs(t.buf)
  {
    if b < |r.buf| && OnDisk(x.dev, x.blockno) then Serve(r.(buf := r.buf[b := x]), b) else r
  }

  /** The same requests with interrupts ignored, each served before the next is made. */
  ghost function OneByOne(r: Result, es: seq<Event>): Result
    requires GoodDisk(r.disk) && GoodBufs(r.buf)
    decreases |es|
  {
    if es == [] then r
    else match es[0]
      case Interrupt => OneByOne(r, es[1..])
      case Request(b, x) => OneByOne(MadeAndServed(r, b, x), es[1..])
  }

  /** Main result: however requests and interrupts interleave, the disk and the buffers are, once
      the queue is drained, those of serving the requests one at a time in the order made. */
  lemma {:induction false} QueueLinearizes(s: State, es: seq<Event>)
    requires Safe(s) && Trace(s, es)
    ensures Drained(Run(s, es)) == OneByOne(Drained(s), es)
    ensures Run(s, es).queue == [] ==> Drained(Run(s, es)) == Result(Run(s, es).disk, Run(s, es).buf)
    decreases |es|
  {
    if es != [] {
      var t := Step(s, es[0]);
      StepKeepsSafe(s, es[0]);
      match es[0]
      case Interrupt =>
        InterruptKeepsDrained(s);
        QueueLinearizes(t, es[1..]);
      case Request(b, x) =>
        SafeAfterStore(s, b, x);
        ServeAllFrame(Result(s.disk, s.buf), s.queue, b, x);
        ServeAllAppend(Result(s.disk, s.buf[b := x]), s.queue, b);
        QueueLinearizes(t, es[1..]);
    }
  }

  // ---------- the driver ----------

  /** Entry i of a queue, NULL past its end. */
  ghost function At(q: seq<nat>, i: int): int {
    if 0 <= i < |q| then q[i] else NULL
  }

  class Controller {
    var disk: Disk
    var command: Command
    var buf: seq<Buf>
    var qnext: seq<int>     // buf[b].qnext
    var idequeue: int       // first queued buffer, or NULL
    ghost var queue: seq<nat>

    ghost function Abs(): State
      reads this
    {
      State(disk, buf, queue, command)
    }

    /** idequeue and the qnext links spell out the queue and end in NULL. */
    ghost predicate Linked()
      reads this
    {
      && |qnext| == |buf|
      && idequeue == At(queue, 0)
      && (forall i :: 0 <= i < |queue| ==>
            queue[i] < |qnext| && qnext[queue[i]] == At(queue, i + 1))
    }

    ghost predicate Valid()
      reads this
    {
      Safe(Abs()) && Linked()
    }

    /** Nothing is queued. */
    ghost predicate Quiet()
      reads this
    {
      && queue == [] && idequeue == NULL && command == Idle && |qnext| == |buf|
      && GoodDisk(disk) && GoodBufs(buf)
    }

    constructor (disk: Disk, nbuf: nat)
      requires GoodDisk(disk)
      ensures Quiet() && this.disk == disk
      ensures buf == seq(nbuf, _ => Buf(false, false, 0, 0, Zeros(BSIZE)))
    {
      this.disk, command, idequeue, queue := disk, Idle, NULL, [];
      buf := seq(nbuf, _ => Buf(false, false, 0, 0, Zeros(BSIZE)));
      qnext := seq(nbuf, _ => NULL);
    }

    method Idestart(b: nat)
      requires b < |buf|
      modifies this`command
      ensures command == CommandFor(buf[b])
    {
      command := CommandFor(buf[b]);
    }

    /** The walk from the head of the queue along its links: the buffer whose link is null, if there is one. */
    method FindTail() returns (last: int)
      requires Valid()
      ensures last == At(queue, |queue| - 1)
    {
      last := NULL;
      var p := idequeue;
      ghost var i := 0;
      while p != NULL
        invariant 0 <= i <= |queue|
        invariant p == At(queue, i) && last == At(queue, i - 1)
        decreases |queue| - i
      {
        last, p := p, qnext[p];
        i := i + 1;
      }
    }

    /** iderw up to its wait. */
    method Submit(b: nat)
      requires Valid() && b < |buf| && b !in queue && Waiting(buf[b])
      modifies this
      ensures Valid() && Abs() == Submitted(old(Abs()), b)
    {
      hide Safe, Submitted;
      ghost var s := Abs();
      SubmitKeepsSafe(s, b);
      SubmittedFields(s, b);
      var last := FindTail();
      qnext := qnext[b := NULL];
      if last == NULL {
        idequeue := b;
      } else {
        qnext := qnext[last := b];
      }
      queue := queue + [b];
      assert forall i :: 0 <= i < |queue| - 1 ==> queue[i] != b;
      if idequeue == b {
        Idestart(b);
      }
      assert Abs() == Submitted(s, b);
    }

    /** The drive finishes its command and raises the interrupt; the handler runs. */
    method Ideintr()
      requires Valid()
      modifies this
      ensures Valid() && Abs() == Interrupted(old(Abs()))
    {
      ghost var s := Abs();
      InterruptKeepsSafe(s);
      if command.Write? {
        disk := PutBlock(disk, command.dev, command.blockno, command.data);
      }
      var b := idequeue;
      if b == NULL {
        return;
      }
      idequeue := qnext[b];
      queue := queue[1..];
      if !buf[b].dirty {
        buf := buf[b := buf[b].(data := disk[command.dev][command.blockno])];
      }
      buf := buf[b := buf[b].(valid := true, dirty := false)];
      command := Idle;
      if idequeue != NULL {
        Idestart(idequeue);
      }
      assert disk == Interrupted(s).disk && queue == Interrupted(s).queue;
      assert buf == Interrupted(s).buf;
      assert command == Interrupted(s).command;
      assert forall i :: 0 <= i < |queue| ==> queue[i] == old(queue)[i + 1];
    }

    /** iderw: queue the buffer and spin until interrupts have finished it. */
    method Iderw(b: nat)
      requires Valid() && b < |buf| && b !in queue && Waiting(buf[b])
      modifies this
      ensures Quiet()
      ensures Result(disk, buf) == Serve(old(Drained(Abs())), b)
      ensures old(queue) == [] ==> Result(disk, buf) == Serve(Result(old(disk), old(buf)), b)
    {
      ServeAllAppend(Result(disk, buf), queue, b);
      Submit(b);
      ghost var q := queue;
      ghost var n := 0;
      while Waiting(buf[b])
        invariant Valid() && |buf| == old(|buf|)
        invariant n <= |q| && queue == q[n..]
        invariant n < |q| <==> Waiting(buf[b])
        invariant Drained(Abs()) == Serve(old(Drained(Abs())), b)
        decreases |q| - n
      {
        InterruptKeepsDrained(Abs());
        Ideintr();
        n := n + 1;
        assert n < |q| ==> queue[|q| - 1 - n] == b;
      }
    }
  }
}
