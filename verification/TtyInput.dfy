/** The queues of a terminal in memory, copy_to_cooked and tty_read. */
module TtyInput {
  import opened TtyLine
  import opened Wrappers

  /** CHARS. */
  function Chars(head: nat, tail: nat): (n: nat)
    ensures n < BUF_SIZE
  {
    (head - tail) % BUF_SIZE
  }

  function Slot(tail: nat, i: nat): (k: nat)
    ensures k < BUF_SIZE
  {
    (tail + i) % BUF_SIZE
  }

  /** What a ring holds, oldest first. */
  function Ring(buf: seq<Char>, head: nat, tail: nat): (r: seq<Char>)
    requires |buf| == BUF_SIZE
    ensures |r| == Chars(head, tail) && forall i :: 0 <= i < |r| ==> r[i] == buf[Slot(tail, i)]
  {
    seq(Chars(head, tail), i requires 0 <= i => buf[Slot(tail, i)])
  }

  predicate InRange(head: nat, tail: nat) {
    head < BUF_SIZE && tail < BUF_SIZE
  }

  lemma PutRing(buf: seq<Char>, head: nat, tail: nat, c: Char)
    requires |buf| == BUF_SIZE && InRange(head, tail) && Chars(head, tail) < BUF_SIZE - 1
    ensures Ring(buf[head := c], (head + 1) % BUF_SIZE, tail) == Ring(buf, head, tail) + [c]
  {
    hide Chars, Slot;
    PutPlace(head, tail);
  }

  lemma PutPlace(head: nat, tail: nat)
    requires InRange(head, tail) && Chars(head, tail) < BUF_SIZE - 1
    ensures Chars((head + 1) % BUF_SIZE, tail) == Chars(head, tail) + 1 && Slot(tail, Chars(head, tail)) == head
    ensures forall i: nat :: i < Chars(head, tail) ==> Slot(tail, i) != head
  {
  }

  lemma GetRing(buf: seq<Char>, head: nat, tail: nat)
    requires |buf| == BUF_SIZE && InRange(head, tail) && head != tail
    ensures Ring(buf, head, tail) != [] && buf[tail] == Ring(buf, head, tail)[0]
    ensures Ring(buf, head, (tail + 1) % BUF_SIZE) == Ring(buf, head, tail)[1..]
  {
    var n := Chars(head, tail);
    assert n > 0 && Chars(head, (tail + 1) % BUF_SIZE) == n - 1;
    assert Slot(tail, 0) == tail;
    var next := (tail + 1) % BUF_SIZE;
    forall i: nat | i < n - 1 ensures Slot(next, i) == Slot(tail, i + 1) {}
  }

  lemma DropRing(buf: seq<Char>, head: nat, tail: nat)
    requires |buf| == BUF_SIZE && InRange(head, tail) && head != tail
    ensures var r := Ring(buf, head, tail);
      r != [] && buf[(head - 1) % BUF_SIZE] == r[|r| - 1] && Ring(buf, (head - 1) % BUF_SIZE, tail) == r[..|r| - 1]
  {
    var n := Chars(head, tail);
    assert n > 0 && Chars((head - 1) % BUF_SIZE, tail) == n - 1;
    assert Slot(tail, n - 1) == (head - 1) % BUF_SIZE;
  }

  /** LEFT and EMPTY in terms of what is in the ring. */
  lemma RoomIs(head: nat, tail: nat)
    requires InRange(head, tail)
    ensures (tail - head - 1) % BUF_SIZE == BUF_SIZE - 1 - Chars(head, tail)
    ensures head == tail <==> Chars(head, tail) == 0
  {
  }

  /** struct tty_queue. */
  class TtyQueue {
    const buf: array<Char>
    var head: nat
    var tail: nat

    ghost predicate Valid()
      reads this
    {
      buf.Length == BUF_SIZE && InRange(head, tail)
    }

    ghost function Contents(): seq<Char>
      reads this, buf
      requires Valid()
    {
      Ring(buf[..], head, tail)
    }

    constructor ()
      ensures Valid() && Contents() == [] && fresh(buf)
    {
      buf := new Char[BUF_SIZE];
      head, tail := 0, 0;
    }

    method Empty() returns (r: bool)
      requires Valid()
      ensures r <==> Contents() == []
    {
      hide Chars, Slot;
      RoomIs(head, tail);
      r := head == tail;
    }

    method Left() returns (r: nat)
      requires Valid()
      ensures r == BUF_SIZE - 1 - |Contents()|
    {
      hide Chars, Slot;
      RoomIs(head, tail);
      r := (tail - head - 1) % BUF_SIZE;
    }

    /** GETCH. */
    method GetCh() returns (c: Char)
      requires Valid() && Contents() != []
      modifies this`tail
      ensures Valid() && c == old(Contents())[0] && Contents() == old(Contents())[1..]
    {
      hide Chars, Slot, Ring;
      NotEmpty(buf[..], head, tail);
      GetRing(buf[..], head, tail);
      c := buf[tail];
      tail := (tail + 1) % BUF_SIZE;
    }

    /** PUTCH. */
    method PutCh(c: Char)
      requires Valid() && |Contents()| < BUF_SIZE - 1
      modifies this`head, buf
      ensures Valid() && Contents() == old(Contents()) + [c]
    {
      hide Chars, Slot;
      PutRing(buf[..], head, tail, c);
      buf[head] := c;
      head := (head + 1) % BUF_SIZE;
    }

    /** LAST. */
    method Last() returns (c: Char)
      requires Valid() && Contents() != []
      ensures c == Contents()[|Contents()| - 1]
    {
      hide Chars, Slot, Ring;
      NotEmpty(buf[..], head, tail);
      DropRing(buf[..], head, tail);
      c := buf[(head - 1) % BUF_SIZE];
    }

    /** DEC of the head. */
    method Dec()
      requires Valid() && Contents() != []
      modifies this`head
      ensures Valid() && Contents() == old(Contents())[..|old(Contents())| - 1]
    {
      hide Chars, Slot, Ring;
      NotEmpty(buf[..], head, tail);
      DropRing(buf[..], head, tail);
      head := (head - 1) % BUF_SIZE;
    }
  }

  lemma NotEmpty(buf: seq<Char>, head: nat, tail: nat)
    requires |buf| == BUF_SIZE && InRange(head, tail) && Ring(buf, head, tail) != []
    ensures head != tail
  {
  }

  /** struct tty_struct, as far as input goes.  `fuel` bounds how often a reader is resumed before we stop watching. */
  class Tty {
    const mode: Mode
    const readQ: TtyQueue
    const secondary: TtyQueue
    var data: int              // secondary.data
    var stopped: bool
    var signals: seq<Signal>
    var signalled: bool        // current->signal of the reader
    var fuel: nat

    ghost predicate Valid()
      reads this, readQ, secondary, readQ.buf, secondary.buf
    {
      && readQ.Valid() && secondary.Valid() && readQ != secondary && readQ.buf != secondary.buf
      && data == Terminators(mode, secondary.Contents())
    }

    ghost function Input(): Line
      requires secondary.Valid()
      reads this, secondary, secondary.buf
    {
      Line(secondary.Contents(), stopped, signals)
    }

    constructor (mode: Mode, fuel: nat)
      ensures Valid() && Input() == Line([], false, []) && readQ.Contents() == [] && this.mode == mode
      ensures fresh(readQ) && fresh(secondary) && fresh(readQ.buf) && fresh(secondary.buf)
    {
      this.mode := mode;
      readQ := new TtyQueue();
      secondary := new TtyQueue();
      data, stopped, signals, signalled := 0, false, [], false;
      this.fuel := fuel;
    }

    /** The kill loop. */
    method Kill()
      requires Valid()
      modifies secondary`head
      ensures Valid() && secondary.Contents() == Killed(mode, old(secondary.Contents()))
    {
      hide Ring, Killed, Terminators;
      ghost var s := secondary.Contents();
      KilledCount(mode, s);
      while true
        invariant secondary.Valid() && Killed(mode, secondary.Contents()) == Killed(mode, s)
        decreases |secondary.Contents()|
      {
        KilledStep(mode, secondary.Contents());
        var empty := secondary.Empty();
        if empty {
          break;
        }
        var c := secondary.Last();
        if c == NL || c == mode.eof {
          break;
        }
        secondary.Dec();
      }
    }

    /** The erase character. */
    method Erase()
      requires Valid()
      modifies secondary`head
      ensures Valid() && secondary.Contents() == Erased(mode, old(secondary.Contents()))
    {
      hide Ring, Terminators;
      var empty := secondary.Empty();
      if empty {
        return;
      }
      CountLast(mode, secondary.Contents());
      var c := secondary.Last();
      if c == NL || c == mode.eof {
        return;
      }
      secondary.Dec();
    }

    /** A character that is not a command. */
    method Keep(c: Char)
      requires Valid() && |secondary.Contents()| < BUF_SIZE - 1
      modifies this`data, secondary`head, secondary.buf
      ensures Valid() && secondary.Contents() == old(secondary.Contents()) + [c]
              && readQ.Contents() == old(readQ.Contents())
    {
      hide Ring, Terminators;
      ghost var s := secondary.Contents();
      if c == NL || c == mode.eof {
        data := data + 1;
      }
      CountLast(mode, s + [c]);
      assert (s + [c])[..|s|] == s;
      secondary.PutCh(c);
    }

    /** One raw character through copy_to_cooked; there is room in the secondary queue. */
    method Cooked(raw: Char)
      requires Valid() && |secondary.Contents()| < BUF_SIZE - 1
      modifies this`data, this`stopped, this`signals, secondary`head, secondary.buf
      ensures Valid() && Input() == Edit(mode, old(Input()), raw) && readQ.Contents() == old(readQ.Contents())
    {
      hide Ring, Killed, Erased, Terminators;
      var c := raw;
      if c == CR {
        if mode.icrnl {
          c := NL;
        } else if mode.igncr {
          return;
        }
      } else if c == NL && mode.inlcr {
        c := CR;
      }
      if mode.iuclc {
        c := ToLower(c);
      }
      assert Mapped(mode, raw) == Some(c);
      if mode.icanon {
        if c == mode.kill {
          Kill();
          return;
        }
        if c == mode.erase {
          Erase();
          return;
        }
        if c == mode.stop {
          stopped := true;
          return;
        }
        if c == mode.start {
          stopped := false;
          return;
        }
      }
      if mode.isig {
        if c == mode.intr {
          signals := signals + [Intr];
          return;
        }
        if c == mode.quit {
          signals := signals + [Quit];
          return;
        }
      }
      Keep(c);
    }

    /** copy_to_cooked. */
    method CopyToCooked()
      requires Valid()
      modifies this`data, this`stopped, this`signals, readQ`tail, secondary`head, secondary.buf
      ensures Valid() && (Input(), readQ.Contents()) == Cook(mode, old(Input()), old(readQ.Contents()))
    {
      hide Ring, Edit, Terminators;
      ghost var l, raw := Input(), readQ.Contents();
      while true
        invariant Valid() && Cook(mode, Input(), readQ.Contents()) == Cook(mode, l, raw)
        decreases |readQ.Contents()|
      {
        var empty := readQ.Empty();
        var left := secondary.Left();
        if empty || left == 0 {
          break;
        }
        var c := readQ.GetCh();
        Cooked(c);
      }
    }

    /** The inner loop of tty_read: `eof` says that an end of file ended it. */
    method ReadLoop(nr: nat) returns (out: seq<Char>, eof: bool)
      requires Valid() && nr > 0 && secondary.Contents() != []
      modifies this`data, secondary`tail
      ensures Valid()
      ensures out == Take(mode, old(secondary.Contents()), nr).bytes
              && eof == Take(mode, old(secondary.Contents()), nr).eof
      ensures secondary.Contents() == Take(mode, old(secondary.Contents()), nr).rest
      ensures readQ.Contents() == old(readQ.Contents())
    {
      hide Ring, Terminators, Take, EofAt;
      ghost var s := secondary.Contents();
      out, eof := [], false;
      var left := nr;
      while true
        invariant Valid() && 0 < left <= nr && secondary.Contents() != [] && readQ.Contents() == old(readQ.Contents())
        invariant var t := Take(mode, secondary.Contents(), left); Take(mode, s, nr) == t.(bytes := out + t.bytes)
        decreases left
      {
        ghost var now := secondary.Contents();
        TakeFirst(mode, now);
        if left > 1 && !(now[0] == mode.eof && mode.icanon) { TakeNext(mode, now, left); }
        TakeEnds(mode, now, left);
        TakeEnds(mode, now[1..], left - 1);
        var c := secondary.GetCh();
        if c == mode.eof || c == NL {
          data := data - 1;
        }
        if c == mode.eof && mode.icanon {
          eof := true;
          return;
        }
        if left > 1 { Appended(out, [c], Take(mode, now[1..], left - 1).bytes); }
        out := out + [c];
        left := left - 1;
        if left == 0 {
          break;
        }
        var empty := secondary.Empty();
        if empty {
          break;
        }
      }
    }

    /** The same, with what follows for the caller. */
    method ReadRound(nr: nat) returns (out: seq<Char>, eof: bool)
      requires Valid() && nr > 0 && secondary.Contents() != []
      modifies this`data, secondary`tail
      ensures Valid() && |out| <= nr && (out == [] ==> eof) && (eof ==> mode.icanon)
      ensures out == Take(mode, old(secondary.Contents()), nr).bytes && readQ.Contents() == old(readQ.Contents())
      ensures secondary.Contents() == Take(mode, old(secondary.Contents()), nr).rest
      ensures !mode.icanon ==> out + secondary.Contents() == old(secondary.Contents())
      ensures !mode.icanon ==> |out| == nr || secondary.Contents() == []
    {
      hide Ring, Terminators, Take, EofAt;
      ghost var s := secondary.Contents();
      out, eof := ReadLoop(nr);
      TakesSome(mode, s, nr);
    }

    /** While the reader waits, characters come in (`typed` are those that found room) and are cooked, and a signal may
      * come. */
    method Wait() returns (awake: bool, ghost typed: seq<Char>)
      requires Valid()
      modifies this`fuel, this`signalled, this`data, this`stopped, this`signals
      modifies readQ`head, readQ`tail, readQ.buf, secondary`head, secondary.buf
      ensures Valid() && (awake ==> fuel < old(fuel)) && (!awake ==> fuel == 0)
      ensures Reached(mode, old(Input()), old(readQ.Contents()) + typed, Input(), readQ.Contents())
      ensures fuel == old(fuel) ==> typed == [] && Input() == old(Input()) && signalled == old(signalled)
    {
      hide Ring, Terminators, Reached, Cook;
      ghost var l, raw := Input(), readQ.Contents();
      typed := [];
      NothingTyped(mode, l, raw);
      if fuel == 0 {
        return false, typed;
      }
      fuel := fuel - 1;
      while *
        invariant Valid() && fuel < old(fuel) && Reached(mode, l, raw + typed, Input(), readQ.Contents())
        decreases fuel
      {
        if fuel == 0 {
          break;
        }
        fuel := fuel - 1;
        var c: Char := *;
        var left := readQ.Left();
        if left > 0 {
          ReachedMore(mode, l, raw + typed, Input(), readQ.Contents(), [c]);
          Appended(raw, typed, [c]);
          readQ.PutCh(c);
          typed := typed + [c];
        }
        ghost var now, rest := Input(), readQ.Contents();
        CookReaches(mode, now, rest);
        CopyToCooked();
        ReachedThen(mode, l, raw + typed, now, rest, Input(), readQ.Contents());
      }
      signalled := *;
      awake := true;
    }

    /** The loop of tty_read, which has room for `count` characters and wants `min`.  `typed` is what came in meanwhile,
      * and `seen` what the queue would hold if nothing had been taken: the line editor's result. */
    method ReadChars(count: nat, min: nat)
          returns (awake: bool, out: seq<Char>, ghost seen: seq<Char>, ghost typed: seq<Char>)
      requires Valid() && min <= count
      modifies this`fuel, this`signalled, this`data, this`stopped, this`signals
      modifies readQ`head, readQ`tail, readQ.buf, secondary`head, secondary`tail, secondary.buf
      ensures Valid() && (!awake ==> fuel == 0) && |out| <= count
      ensures Reached(mode, old(Input()), old(readQ.Contents()) + typed, Line(seen, stopped, signals), readQ.Contents())
      ensures fuel == old(fuel) ==> typed == [] && seen == old(secondary.Contents()) && signalled == old(signalled)
      ensures count == 0 || old(signalled) || Ready(mode, old(secondary.Contents()), min) ==> awake && fuel == old(fuel)
      ensures mode.icanon && awake && count > 0 && !signalled ==>
                && Ready(mode, seen, 0) && out == Take(mode, seen, count).bytes
                && secondary.Contents() == Take(mode, seen, count).rest
      ensures mode.icanon && !(awake && count > 0 && !signalled) ==> out == [] && secondary.Contents() == seen
      ensures !mode.icanon ==> out + secondary.Contents() == seen
      ensures !mode.icanon && awake && count > 0 && !signalled ==>
              |out| >= min && (|out| == count || secondary.Contents() == [])
    {
      hide Ring, Terminators, Take, EofAt, Reached, EditAll;
      ghost var l, raw := Input(), readQ.Contents();
      ghost var ready := count == 0 || old(signalled) || Ready(mode, l.cooked, min);
      out, seen, typed, awake := [], secondary.Contents(), [], true;
      NothingTyped(mode, l, raw);
      var nr := count;
      while nr > 0
        invariant Valid() && 0 <= nr <= count && |out| + nr == count && awake && fuel <= old(fuel)
        invariant Reached(mode, l, raw + typed, Line(seen, stopped, signals), readQ.Contents())
        invariant seen == out + secondary.Contents()
        invariant fuel == old(fuel) ==> typed == [] && seen == l.cooked && signalled == old(signalled)
        invariant (mode.icanon || nr == count ==> out == []) && (out == [] ==> seen == secondary.Contents())
        invariant out != [] ==> |out| < min && (fuel == old(fuel) ==> !ready)
        invariant ready ==> fuel == old(fuel)
        decreases nr, fuel
      {
        if signalled {
          break;
        }
        var empty := secondary.Empty();
        var left := secondary.Left();
        if empty || (mode.icanon && data == 0 && left > 20) {
          ghost var now, rest, more := Input(), readQ.Contents(), [];
          awake, more := Wait();
          ReachedBehind(mode, l, raw + typed, now, rest, out, Input(), readQ.Contents(), more);
          Appended(raw, typed, more);
          typed := typed + more;
          seen := if out == [] then secondary.Contents() else out + secondary.Contents();
          assert seen == out + secondary.Contents();
          if !awake {
            return;
          }
          continue;
        }
        var chunk, eof := ReadRound(nr);
        Appended(out, chunk, secondary.Contents());
        assert out == [] ==> out + chunk == chunk;
        out := out + chunk;
        nr := nr - |chunk|;
        if eof || mode.icanon || |out| >= min {
          break;
        }
      }
    }

    /** tty_read with no timer (VTIME is 0).  In canonical mode it takes from the queue once, when a line is complete or
      * hardly any room is left.  Whatever is typed meanwhile, finished lines stay where they are. */
    method TtyRead(count: int, minimum: nat)
      returns (awake: bool, out: seq<Char>, n: int, ghost seen: seq<Char>, ghost typed: seq<Char>)
      requires Valid()
      modifies this`fuel, this`signalled, this`data, this`stopped, this`signals
      modifies readQ`head, readQ`tail, readQ.buf, secondary`head, secondary`tail, secondary.buf
      ensures Valid() && (!awake ==> fuel == 0)
      ensures Reached(mode, old(Input()), old(readQ.Contents()) + typed, Line(seen, stopped, signals), readQ.Contents())
      ensures Settled(mode, old(secondary.Contents())) <= seen
      ensures fuel == old(fuel) ==> typed == [] && seen == old(secondary.Contents()) && signalled == old(signalled)
      ensures var s := old(secondary.Contents());
        var enough := if mode.icanon then Terminators(mode, s) > 0 || |s| >= 1003 else |s| >= minimum || |s| >= count;
        count <= 0 || old(signalled) || (s != [] && enough) ==> awake && fuel == old(fuel)
      ensures mode.icanon && awake && count > 0 && !signalled ==>
                && seen != [] && (Terminators(mode, seen) > 0 || |seen| >= 1003)
                && out == Take(mode, seen, count).bytes && secondary.Contents() == Take(mode, seen, count).rest
      ensures mode.icanon && !(awake && count > 0 && !signalled) ==> out == [] && secondary.Contents() == seen
      ensures !mode.icanon ==> out + secondary.Contents() == seen
      ensures !mode.icanon && awake && count > 0 && !signalled ==>
                (|out| >= minimum || |out| >= count) && (|out| == count || secondary.Contents() == [])
      ensures |out| <= if count < 0 then 0 else count
      ensures awake ==> n == if count < 0 then -1 else if signalled && out == [] then -4 else |out|
    {
      hide Ring, Terminators, Take, EofAt, Reached, Settled, Ready;
      out, n, seen, typed, awake := [], -1, secondary.Contents(), [], true;
      ghost var l, raw := Input(), readQ.Contents();
      ReadyIs(mode, secondary.Contents(), if minimum > count then count else minimum);
      if count < 0 {
        NothingTyped(mode, l, raw);
        SettledInReached(mode, l, raw, l, raw);
        return;
      }
      var min := if minimum > count then count else minimum;
      awake, out, seen, typed := ReadChars(count, min);
      ReadyIs(mode, seen, 0);
      SettledInReached(mode, l, raw + typed, Line(seen, stopped, signals), readQ.Contents());
      n := if signalled && out == [] then -4 else |out|;
    }
  }

  /** The test before sleeping, and VMIN at its end: a read of at least `min` characters need not wait. */
  predicate Ready(m: Mode, s: seq<Char>, min: int) {
    s != [] && if m.icanon then Terminators(m, s) > 0 || |s| >= BUF_SIZE - 1 - 20 else |s| >= min
  }

  lemma ReadyIs(m: Mode, s: seq<Char>, min: int)
    ensures Ready(m, s, min) <==>
            s != [] && if m.icanon then Terminators(m, s) > 0 || |s| >= 1003 else |s| >= min
  {
  }

  lemma NothingTyped(m: Mode, l: Line, raw: seq<Char>)
    ensures Reached(m, l, raw + [], l, raw) && Reached(m, l, raw, l, raw)
  {
    assert raw + [] == raw && raw[..0] == [];
  }

  lemma SettledInReached(m: Mode, l: Line, raw: seq<Char>, l': Line, rest: seq<Char>)
    requires Reached(m, l, raw, l', rest)
    ensures Settled(m, l.cooked) <= l'.cooked
  {
    hide Settled, EditAll;
    SettledStays(m, l, raw[..|raw| - |rest|]);
  }

  /** More input behind what a read has taken already, which is nothing in canonical mode. */
  lemma ReachedBehind(m: Mode, l: Line, raw: seq<Char>, now: Line, rest: seq<Char>, out: seq<Char>, l': Line,
                      rest': seq<Char>, more: seq<Char>)
    requires Reached(m, l, raw, now.(cooked := out + now.cooked), rest) && (m.icanon ==> out == [])
    requires Reached(m, now, rest + more, l', rest')
    ensures Reached(m, l, raw + more, l'.(cooked := out + l'.cooked), rest')
  {
    hide EditAll;
    var ahead := now.(cooked := out + now.cooked);
    ReachedMore(m, l, raw, ahead, rest, more);
    var part := (rest + more)[..|rest + more| - |rest'|];
    if m.icanon {
      assert out + now.cooked == now.cooked && out + l'.cooked == l'.cooked;
    } else {
      EditBehind(m, out, now, part);
    }
    ReachedThen(m, l, raw + more, ahead, rest + more, l'.(cooked := out + l'.cooked), rest');
  }

  /** The cases in which a round ends. */
  lemma TakeEnds(m: Mode, s: seq<Char>, nr: int)
    ensures nr > 0 && s == [] ==> Take(m, s, nr) == Taken([], false, s)
    ensures nr > 0 && s != [] && s[0] == m.eof && m.icanon ==> Take(m, s, nr) == Taken([], true, s[1..])
    ensures nr == 1 && s != [] && !(s[0] == m.eof && m.icanon) ==> Take(m, s, nr) == Taken([s[0]], false, s[1..])
  {
  }

  lemma KilledStep(m: Mode, s: seq<Char>)
    ensures Killed(m, s) == if s == [] || EndsLine(m, s[|s| - 1]) then s else Killed(m, s[..|s| - 1])
  {
  }

  lemma CountLast(m: Mode, s: seq<Char>)
    requires s != []
    ensures Terminators(m, s) == Terminators(m, s[..|s| - 1]) + if EndsLine(m, s[|s| - 1]) then 1 else 0
  {
  }

  lemma Appended(a: seq<Char>, b: seq<Char>, c: seq<Char>)
    ensures a + (b + c) == (a + b) + c
  {
  }

  /** A round gives at least one character unless it met an end of file at once; without canonical mode it gives all it
    * takes. */
  lemma TakesSome(m: Mode, s: seq<Char>, nr: nat)
    requires nr > 0 && s != []
    ensures var t := Take(m, s, nr);
      && |t.bytes| <= nr && (t.bytes == [] ==> t.eof) && (t.eof ==> m.icanon)
      && (!m.icanon ==> t.bytes + t.rest == s && (|t.bytes| == nr || t.rest == []))
  {
    hide Take;
    TakeIs(m, s, nr);
  }
}
