/** The pipe of fs/pipe.c: one page used as a ring, head and tail kept in the zones of the inode.
  *
  * A process sleeps only when it can neither read nor write, so a chunk is moved without interruption.
  */
module Pipe {
  type Byte = x: int | 0 <= x < 256

  const PAGE_SIZE: nat := 4096

  datatype State = State(page: seq<Byte>, head: nat, tail: nat)

  predicate Valid(s: State) {
    |s.page| == PAGE_SIZE && s.head < PAGE_SIZE && s.tail < PAGE_SIZE
  }

  /** PIPE_SIZE. */
  function PipeSize(head: nat, tail: nat): (n: nat)
    ensures n < PAGE_SIZE
  {
    (head - tail) % PAGE_SIZE
  }

  function Size(s: State): nat {
    PipeSize(s.head, s.tail)
  }

  function Min(a: nat, b: nat): nat {
    if a < b then a else b
  }

  /** The bytes in the pipe, oldest first. */
  function Unread(s: State): (r: seq<Byte>)
    requires Valid(s)
    ensures |r| == Size(s)
  {
    seq(Size(s), i requires 0 <= i => s.page[(s.tail + i) % PAGE_SIZE])
  }

  /** How many bytes one turn of read_pipe and of write_pipe moves: not past the end of the page, nor more than wanted,
    * nor more than there are or than there is room for. */
  function ReadChars(s: State, count: nat): nat
    requires Valid(s)
  {
    Min(Min(PAGE_SIZE - s.tail, count), Size(s))
  }

  function WriteChars(s: State, count: nat): nat
    requires Valid(s)
  {
    Min(Min(PAGE_SIZE - s.head, count), PAGE_SIZE - 1 - Size(s))
  }

  function ReadChunk(s: State, count: nat): State
    requires Valid(s)
  {
    s.(tail := (s.tail + ReadChars(s, count)) % PAGE_SIZE)
  }

  function WriteChunk(s: State, buf: seq<Byte>): State
    requires Valid(s)
  {
    var n := WriteChars(s, |buf|);
    State(s.page[..s.head] + buf[..n] + s.page[s.head + n..], (s.head + n) % PAGE_SIZE, s.tail)
  }

  /** One read chunk takes the oldest bytes, in order, and at least one if there is any and one is wanted. */
  lemma ReadTakes(s: State, count: nat)
    requires Valid(s)
    ensures Valid(ReadChunk(s, count)) && s.tail + ReadChars(s, count) <= PAGE_SIZE
    ensures ReadChars(s, count) <= |Unread(s)| && ReadChars(s, count) <= count
    ensures Unread(ReadChunk(s, count)) == Unread(s)[ReadChars(s, count)..]
    ensures s.page[s.tail..s.tail + ReadChars(s, count)] == Unread(s)[..ReadChars(s, count)]
    ensures count > 0 && Unread(s) != [] ==> ReadChars(s, count) > 0
  {
    hide PipeSize, Unread;
    var s', n := ReadChunk(s, count), ReadChars(s, count);
    ReadSize(s.head, s.tail, n);
    forall i | 0 <= i < Size(s') ensures Unread(s')[i] == Unread(s)[n..][i] {
      UnreadIs(s', i);
      UnreadIs(s, n + i);
      ReadPlace(s.tail, n, i);
    }
    forall i | 0 <= i < n ensures s.page[s.tail + i] == Unread(s)[i] { UnreadIs(s, i); }
  }

  lemma UnreadIs(s: State, i: nat)
    requires Valid(s) && i < Size(s)
    ensures Unread(s)[i] == s.page[(s.tail + i) % PAGE_SIZE]
  {
  }

  lemma ReadSize(head: nat, tail: nat, n: nat)
    requires head < PAGE_SIZE && tail < PAGE_SIZE && n <= PAGE_SIZE - tail && n <= PipeSize(head, tail)
    ensures PipeSize(head, (tail + n) % PAGE_SIZE) == PipeSize(head, tail) - n
  {
  }

  lemma ReadPlace(tail: nat, n: nat, i: nat)
    ensures ((tail + n) % PAGE_SIZE + i) % PAGE_SIZE == (tail + (n + i)) % PAGE_SIZE
  {
  }

  lemma WriteSize(head: nat, tail: nat, n: nat)
    requires head < PAGE_SIZE && tail < PAGE_SIZE && n <= PAGE_SIZE - head && n <= PAGE_SIZE - 1 - PipeSize(head, tail)
    ensures PipeSize((head + n) % PAGE_SIZE, tail) == PipeSize(head, tail) + n
  {
  }

  /** Unread bytes are not where new ones go. */
  lemma WritePlace(head: nat, tail: nat, n: nat, i: nat)
    requires head < PAGE_SIZE && tail < PAGE_SIZE && n <= PAGE_SIZE - head && i < PipeSize(head, tail) + n < PAGE_SIZE
    ensures var at, size := (tail + i) % PAGE_SIZE, PipeSize(head, tail);
      if i < size then !(head <= at < head + n) else at == head + (i - size)
  {
  }

  /** One write chunk adds bytes behind the unread ones, disturbing none, and at least one unless the pipe is full. */
  lemma WriteAppends(s: State, buf: seq<Byte>)
    requires Valid(s)
    ensures Valid(WriteChunk(s, buf)) && WriteChars(s, |buf|) <= |buf|
    ensures Unread(WriteChunk(s, buf)) == Unread(s) + buf[..WriteChars(s, |buf|)]
    ensures buf != [] && |Unread(s)| < PAGE_SIZE - 1 ==> WriteChars(s, |buf|) > 0
    ensures |Unread(WriteChunk(s, buf))| <= PAGE_SIZE - 1
  {
    var s', n := WriteChunk(s, buf), WriteChars(s, |buf|);
    WriteSize(s.head, s.tail, n);
    forall i | 0 <= i < Size(s') ensures Unread(s')[i] == (Unread(s) + buf[..n])[i] {
      WritePlace(s.head, s.tail, n, i);
    }
  }

  lemma ChunkOf(s: State, buf: seq<Byte>, n: nat)
    requires Valid(s)
    requires n == Min(Min(PAGE_SIZE - s.head, |buf|), PAGE_SIZE - 1 - PipeSize(s.head, s.tail))
    ensures n == WriteChars(s, |buf|) && s.head + n <= PAGE_SIZE
    ensures WriteChunk(s, buf) == State(s.page[..s.head] + buf[..n] + s.page[s.head + n..], (s.head + n) % PAGE_SIZE,
                                        s.tail)
  {
  }

  // ---- any interleaving of readers and writers ----

  /** A chunk moved by some reader or some writer; `mine` says that it is the process being looked at. */
  datatype Chunk = Read(mine: bool, count: nat) | Write(mine: bool, buf: seq<Byte>)

  /** What a run comes to: all bytes read and written, and those of the process being looked at. */
  datatype Outcome = Outcome(state: State, read: seq<Byte>, written: seq<Byte>, ownRead: seq<Byte>,
    ownWritten: seq<Byte>)

  function Run(s: State, chunks: seq<Chunk>): (o: Outcome)
    requires Valid(s)
    ensures Valid(o.state)
  {
    if chunks == [] then Outcome(s, [], [], [], [])
    else
      var o := Run(s, chunks[..|chunks| - 1]);
      Move(o, chunks[|chunks| - 1])
  }

  function Move(o: Outcome, c: Chunk): (o': Outcome)
    requires Valid(o.state)
    ensures Valid(o'.state)
  {
    match c
    case Read(mine, count) =>
      ReadTakes(o.state, count);
      var bytes := o.state.page[o.state.tail..o.state.tail + ReadChars(o.state, count)];
      o.(state := ReadChunk(o.state, count), read := o.read + bytes, ownRead := o.ownRead + if mine then bytes else [])
    case Write(mine, buf) =>
      WriteAppends(o.state, buf);
      var bytes := buf[..WriteChars(o.state, |buf|)];
      o.(state := WriteChunk(o.state, buf), written := o.written + bytes,
         ownWritten := o.ownWritten + if mine then bytes else [])
  }

  lemma Regroup(a: seq<Byte>, b: seq<Byte>, c: seq<Byte>)
    ensures (a + b) + c == a + (b + c)
  {
  }

  /** First in, first out: what has been read and what is still in the pipe are together what was in it at the start and
    * what has been written, in this order. */
  lemma {:induction false} FirstInFirstOut(s: State, chunks: seq<Chunk>)
    requires Valid(s)
    ensures var o := Run(s, chunks); o.read + Unread(o.state) == Unread(s) + o.written
  {
    hide Unread, ReadChunk, WriteChunk, ReadChars, WriteChars, PipeSize;
    if chunks == [] {
      assert Unread(s) + [] == Unread(s);
    } else {
      var front := chunks[..|chunks| - 1];
      FirstInFirstOut(s, front);
      var o := Run(s, front);
      match chunks[|chunks| - 1]
      case Read(_, count) =>
        ReadTakes(o.state, count);
        var u, n := Unread(o.state), ReadChars(o.state, count);
        assert u == u[..n] + u[n..];
        Regroup(o.read, u[..n], u[n..]);
      case Write(_, buf) =>
        WriteAppends(o.state, buf);
        var w := buf[..WriteChars(o.state, |buf|)];
        Regroup(o.read, Unread(o.state), w);
        Regroup(Unread(s), o.written, w);
    }
  }

  /** From the empty pipe, the bytes read are a prefix of the bytes written, and at most 4095 are on their way. */
  lemma EmptyStart(s: State, chunks: seq<Chunk>)
    requires Valid(s) && s.head == s.tail
    ensures var o := Run(s, chunks); o.read <= o.written && |o.written| - |o.read| <= 4095
  {
    hide ReadChunk, WriteChunk, Run;
    FirstInFirstOut(s, chunks);
    var o := Run(s, chunks);
    assert Unread(s) == [];
    assert o.written == o.read + Unread(o.state);
  }

  predicate All(chunks: seq<Chunk>, mine: bool) {
    forall i :: 0 <= i < |chunks| ==> chunks[i].mine == mine
  }

  /** A process that moves all the chunks itself reads and writes all that is read and written, and one that moves none
    * reads and writes nothing. */
  lemma {:induction false} OwnShare(s: State, chunks: seq<Chunk>, mine: bool)
    requires Valid(s) && All(chunks, mine)
    ensures var o := Run(s, chunks);
      if mine then o.ownRead == o.read && o.ownWritten == o.written else o.ownRead == [] && o.ownWritten == []
  {
    hide ReadChunk, WriteChunk, ReadChars, WriteChars;
    if chunks != [] { OwnShare(s, chunks[..|chunks| - 1], mine); }
  }

  lemma RunOne(s: State, chunks: seq<Chunk>, c: Chunk)
    requires Valid(s)
    ensures Run(s, chunks + [c]) == Move(Run(s, chunks), c)
  {
    hide Move;
    assert (chunks + [c])[..|chunks|] == chunks;
  }

  /** What `o` comes to if what happened before it is added. */
  predicate Behind(o: Outcome, o1: Outcome, o2: Outcome) {
    o.state == o2.state && o.ownRead == o1.ownRead + o2.ownRead && o.ownWritten == o1.ownWritten + o2.ownWritten
  }

  lemma MoveBehind(o: Outcome, o1: Outcome, o2: Outcome, c: Chunk)
    requires Valid(o.state) && Behind(o, o1, o2)
    ensures Behind(Move(o, c), o1, Move(o2, c))
  {
    hide ReadChunk, WriteChunk, ReadChars, WriteChars;
    match c
    case Read(mine, count) =>
      ReadTakes(o.state, count);
      Regroup(o1.ownRead, o2.ownRead, if mine then o.state.page[o.state.tail..o.state.tail + ReadChars(o.state, count)]
        else []);
    case Write(mine, buf) =>
      WriteAppends(o.state, buf);
      Regroup(o1.ownWritten, o2.ownWritten, if mine then buf[..WriteChars(o.state, |buf|)] else []);
  }

  lemma {:induction false} RunThen(s: State, a: seq<Chunk>, b: seq<Chunk>)
    requires Valid(s)
    ensures Behind(Run(s, a + b), Run(s, a), Run(Run(s, a).state, b))
    decreases |b|
  {
    if b == [] {
      assert a + b == a;
    } else {
      hide Move, Behind;
      var n := |b| - 1;
      RunThen(s, a, b[..n]);
      assert b == b[..n] + [b[n]] && a + b == (a + b[..n]) + [b[n]];
      RunOne(s, a + b[..n], b[n]);
      RunOne(Run(s, a).state, b[..n], b[n]);
      MoveBehind(Run(s, a + b[..n]), Run(s, a), Run(Run(s, a).state, b[..n]), b[n]);
    }
  }

  // ---- the two system calls ----

  /** The inode of a pipe.  `ends` is i_count, 2 while both ends are open.  `fuel` bounds how much other processes do
    * while this one sleeps; without it we stop watching. */
  class PipeInode {
    const page: array<Byte>
    var head: nat
    var tail: nat
    var ends: nat
    var fuel: nat

    ghost function Snap(): State
      reads this, page
    {
      State(page[..], head, tail)
    }

    ghost predicate Ready()
      reads this, page
    {
      Valid(Snap())
    }

    /** sys_pipe. */
    constructor (fuel: nat)
      ensures Ready() && Unread(Snap()) == [] && ends == 2 && fresh(page)
    {
      page := new Byte[PAGE_SIZE];
      head, tail, ends := 0, 0, 2;
      this.fuel := fuel;
    }

    /** One turn of the loop of read_pipe. */
    method TakeChunk(count: nat) returns (out: seq<Byte>)
      requires Ready()
      modifies this`tail
      ensures Ready() && Snap() == ReadChunk(old(Snap()), count) && Unread(old(Snap())) == out + Unread(Snap())
      ensures |out| == ReadChars(old(Snap()), count)
      ensures old(tail) + |out| <= |old(page[..])| && out == old(page[..])[old(tail)..old(tail) + |out|]
    {
      hide Unread, PipeSize;
      ghost var s := Snap();
      ReadTakes(s, count);
      var chars := PAGE_SIZE - tail;
      if chars > count {
        chars := count;
      }
      var size := PipeSize(head, tail);
      if chars > size {
        chars := size;
      }
      size := tail;
      tail := (tail + chars) % PAGE_SIZE;
      out := CopyOut(size, chars);
      assert Unread(s) == Unread(s)[..|out|] + Unread(s)[|out|..];
    }

    method CopyOut(from: nat, n: nat) returns (out: seq<Byte>)
      requires from + n <= page.Length
      ensures out == page[from..from + n]
    {
      var chars, size := n, from;
      out := [];
      while chars > 0
        invariant 0 <= chars <= n && size + chars == from + n && out == page[from..size]
      {
        out := out + [page[size]];
        size := size + 1;
        chars := chars - 1;
      }
    }

    /** One turn of the loop of write_pipe. */
    method PutChunk(buf: seq<Byte>) returns (n: nat)
      requires Ready()
      modifies this`head, page
      ensures Ready() && n == WriteChars(old(Snap()), |buf|) <= |buf| && Snap() == WriteChunk(old(Snap()), buf)
    {
      hide Unread, PipeSize, WriteChunk, WriteChars;
      ghost var s := Snap();
      WriteAppends(s, buf);
      var chars := PAGE_SIZE - head;
      if chars > |buf| {
        chars := |buf|;
      }
      var size := (PAGE_SIZE - 1) - PipeSize(head, tail);
      if chars > size {
        chars := size;
      }
      n := chars;
      ChunkOf(s, buf, n);
      size := head;
      head := (head + chars) % PAGE_SIZE;
      CopyIn(size, buf[..n]);
    }

    method CopyIn(to: nat, data: seq<Byte>)
      requires to + |data| <= page.Length
      modifies page
      ensures page[..] == old(page[..to]) + data + old(page[to + |data|..])
    {
      var chars, size := |data|, to;
      while chars > 0
        invariant 0 <= chars <= |data| && size + chars == to + |data|
        invariant page[..] == old(page[..to]) + data[..size - to] + old(page[size..])
      {
        page[size] := data[size - to];
        size := size + 1;
        chars := chars - 1;
      }
    }

    /** While a process sleeps, any others may read and write any chunks, and an end may be closed. */
    method Sleep() returns (awake: bool, ghost others: seq<Chunk>)
      requires Ready()
      modifies this, page
      ensures Ready() && All(others, false) && Snap() == Run(old(Snap()), others).state
      ensures awake <==> old(fuel) > 0
      ensures if awake then fuel < old(fuel) else fuel == old(fuel) && others == [] && ends == old(ends)
    {
      hide Unread, Move, Run, ReadChunk, WriteChunk, ReadChars, WriteChars;
      ghost var s := Snap();
      others := [];
      RunNothing(s);
      if fuel == 0 {
        return false, others;
      }
      fuel := fuel - 1;
      while *
        invariant Ready() && All(others, false) && Snap() == Run(s, others).state && fuel < old(fuel)
        decreases fuel
      {
        if fuel == 0 {
          break;
        }
        fuel := fuel - 1;
        if * {
          var buf: seq<Byte> := *;
          WriteMoves(Run(s, others), false, buf);
          RunOne(s, others, Write(false, buf));
          var n := PutChunk(buf);
          others := others + [Write(false, buf)];
        } else {
          var count: nat := *;
          ReadMoves(Run(s, others), false, count);
          RunOne(s, others, Read(false, count));
          var out := TakeChunk(count);
          others := others + [Read(false, count)];
        }
      }
      ends := *;
      awake := true;
    }

    /** read_pipe among any number of readers and writers: `chunks` is what was moved during the call, and `out` its own
      * part of it.  It returns all that was wanted, or what it got before it found the pipe empty and an end closed; it
      * does not sleep if there is enough. */
    method ReadPipe(count: int) returns (awake: bool, out: seq<Byte>, ghost chunks: seq<Chunk>)
      requires Ready()
      modifies this, page
      ensures Ready() && Snap() == Run(old(Snap()), chunks).state && (!awake ==> fuel == 0)
      ensures out == Run(old(Snap()), chunks).ownRead && Run(old(Snap()), chunks).ownWritten == []
      ensures fuel == old(fuel) ==> All(chunks, true) && ends == old(ends)
      ensures |Unread(old(Snap()))| >= count ==> awake && fuel == old(fuel)
      ensures |out| <= if count > 0 then count else 0
      ensures |out| >= count || |out| >= |Unread(old(Snap()))|
      ensures awake && count > 0 && |out| != count ==> Unread(Snap()) == [] && ends != 2
    {
      hide Unread, ReadChunk, ReadChars, PipeSize, Move, Run;
      ghost var s := Snap();
      out, chunks := [], [];
      awake := true;
      RunNothing(s);
      var left := count;
      while left > 0
        invariant Ready() && Moved(s, chunks, Snap(), out, []) && fuel <= old(fuel)
        invariant count > 0 ==> 0 <= left && |out| + left == count
        invariant count <= 0 ==> out == [] && left == count
        invariant fuel == old(fuel) ==>
                  All(chunks, true) && |Unread(Snap())| + |out| == |Unread(s)| && ends == old(ends)
        invariant |Unread(s)| >= count ==> fuel == old(fuel)
        invariant fuel != old(fuel) ==> |out| >= |Unread(s)|
        decreases left
      {
        ghost var at := fuel;
        while PipeSize(head, tail) == 0
          invariant Ready() && Moved(s, chunks, Snap(), out, []) && fuel <= at
          invariant fuel == old(fuel) ==>
                    All(chunks, true) && |Unread(Snap())| + |out| == |Unread(s)| && ends == old(ends)
          invariant |Unread(s)| >= count ==> fuel == old(fuel)
          invariant fuel != old(fuel) ==> |out| >= |Unread(s)|
          decreases fuel
        {
          EmptyIs(Snap());
          if ends != 2 {
            return;
          }
          ghost var others;
          ghost var was := Snap();
          awake, others := Sleep();
          SleptThrough(s, chunks, was, out, [], others, Snap());
          chunks := chunks + others;
          if !awake {
            return;
          }
        }
        EmptyIs(Snap());
        ReadTakes(Snap(), left);
        ReadMoves(Run(s, chunks), true, left);
        RunOne(s, chunks, Read(true, left));
        var chunk := TakeChunk(left);
        chunks := chunks + [Read(true, left)];
        out := out + chunk;
        left := left - |chunk|;
      }
    }

    /** write_pipe in the same way: all of the bytes, or as many as fitted before it found the pipe full and an end
      * closed; -1 then if that is none. */
    method WritePipe(buf: seq<Byte>) returns (awake: bool, written: int, ghost chunks: seq<Chunk>)
      requires Ready()
      modifies this, page
      ensures Ready() && Snap() == Run(old(Snap()), chunks).state && (!awake ==> fuel == 0)
      ensures -1 <= written <= |buf| && Run(old(Snap()), chunks).ownWritten == buf[..if written < 0 then 0 else written]
      ensures Run(old(Snap()), chunks).ownRead == []
      ensures fuel == old(fuel) ==> All(chunks, true) && ends == old(ends)
      ensures |Unread(old(Snap()))| + |buf| <= 4095 ==> awake && fuel == old(fuel)
      ensures awake && written != |buf| ==> |Unread(Snap())| == 4095 && ends != 2
      ensures awake && buf != [] ==> written != 0
      ensures written == |buf| || |Unread(old(Snap()))| + (if written < 0 then 0 else written) >= 4095
    {
      hide Unread, WriteChunk, WriteChars, PipeSize, Move, Run;
      ghost var s := Snap();
      written, chunks := 0, [];
      awake := true;
      RunNothing(s);
      while |buf| - written > 0
        invariant Ready() && 0 <= written <= |buf| && Moved(s, chunks, Snap(), [], buf[..written]) && fuel <= old(fuel)
        invariant fuel == old(fuel) ==>
                  All(chunks, true) && |Unread(Snap())| == |Unread(s)| + written && ends == old(ends)
        invariant |Unread(s)| + |buf| <= PAGE_SIZE - 1 ==> fuel == old(fuel)
        invariant fuel != old(fuel) ==> |Unread(s)| + written >= PAGE_SIZE - 1
        decreases |buf| - written
      {
        ghost var at := fuel;
        while (PAGE_SIZE - 1) - PipeSize(head, tail) == 0
          invariant Ready() && Moved(s, chunks, Snap(), [], buf[..written]) && fuel <= at
          invariant fuel == old(fuel) ==>
                    All(chunks, true) && |Unread(Snap())| == |Unread(s)| + written && ends == old(ends)
          invariant |Unread(s)| + |buf| <= PAGE_SIZE - 1 ==> fuel == old(fuel)
          invariant fuel != old(fuel) ==> |Unread(s)| + written >= PAGE_SIZE - 1
          decreases fuel
        {
          EmptyIs(Snap());
          if ends != 2 {
            written := if written != 0 then written else -1;
            return;
          }
          ghost var others;
          ghost var was := Snap();
          awake, others := Sleep();
          SleptThrough(s, chunks, was, [], buf[..written], others, Snap());
          chunks := chunks + others;
          if !awake {
            return;
          }
        }
        EmptyIs(Snap());
        WriteAppends(Snap(), buf[written..]);
        WriteMoves(Run(s, chunks), true, buf[written..]);
        RunOne(s, chunks, Write(true, buf[written..]));
        var n := PutChunk(buf[written..]);
        chunks := chunks + [Write(true, buf[written..])];
        assert buf[..written] + buf[written..][..n] == buf[..written + n];
        written := written + n;
      }
    }
  }

  /** The chunks lead from `s` to `now`, with these bytes read and written by the process itself. */
  predicate Moved(s: State, chunks: seq<Chunk>, now: State, out: seq<Byte>, put: seq<Byte>)
    requires Valid(s)
  {
    var o := Run(s, chunks);
    o.state == now && o.ownRead == out && o.ownWritten == put
  }

  lemma RunNothing(s: State)
    requires Valid(s)
    ensures Run(s, []) == Outcome(s, [], [], [], [])
  {
  }

  lemma EmptyIs(s: State)
    requires Valid(s)
    ensures |Unread(s)| == PipeSize(s.head, s.tail) && (PipeSize(s.head, s.tail) == 0 ==> Unread(s) == [])
  {
  }

  lemma ReadMoves(o: Outcome, mine: bool, count: nat)
    requires Valid(o.state)
    ensures o.state.tail + ReadChars(o.state, count) <= |o.state.page|
    ensures var bytes := o.state.page[o.state.tail..o.state.tail + ReadChars(o.state, count)];
      var o' := Move(o, Read(mine, count));
      && o'.state == ReadChunk(o.state, count) && o'.ownWritten == o.ownWritten
      && o'.ownRead == if mine then o.ownRead + bytes else o.ownRead
  {
    ReadTakes(o.state, count);
  }

  lemma WriteMoves(o: Outcome, mine: bool, buf: seq<Byte>)
    requires Valid(o.state)
    ensures WriteChars(o.state, |buf|) <= |buf|
    ensures var o' := Move(o, Write(mine, buf));
      && o'.state == WriteChunk(o.state, buf) && o'.ownRead == o.ownRead
      && o'.ownWritten == if mine then o.ownWritten + buf[..WriteChars(o.state, |buf|)] else o.ownWritten
  {
    WriteAppends(o.state, buf);
  }

  lemma SleptThrough(s: State, chunks: seq<Chunk>, was: State, out: seq<Byte>, put: seq<Byte>, others: seq<Chunk>,
        now: State)
    requires Valid(s) && Valid(was) && Moved(s, chunks, was, out, put) && All(others, false)
             && now == Run(was, others).state
    ensures Moved(s, chunks + others, now, out, put)
  {
    RunThen(s, chunks, others);
    OwnShare(was, others, false);
  }
}
