/** Canonical terminal input of kernel/chr_drv/tty_io.c: raw characters through a line editor into the secondary queue,
  * and from there to readers.  Echoing is not part of this model; termios does not change.
  *
  * Characters are signed, as `char` is for this compiler, so no control character of 128 or more ever matches.
  */
module TtyLine {
  import opened Wrappers

  type Char = x: int | -128 <= x < 128

  const BUF_SIZE: nat := 1024
  const NL: int := 10
  const CR: int := 13

  /** The input flags and control characters of termios. */
  datatype Mode = Mode(icrnl: bool, igncr: bool, inlcr: bool, iuclc: bool, icanon: bool, isig: bool,
                       kill: nat, erase: nat, stop: nat, start: nat, intr: nat, quit: nat, eof: nat)

  datatype Signal = Intr | Quit

  /** What input has come to: the secondary queue, whether output is stopped, the signals sent. */
  datatype Line = Line(cooked: seq<Char>, stopped: bool, signals: seq<Signal>)

  // ---- the editor of copy_to_cooked, character by character ----

  predicate EndsLine(m: Mode, c: Char) {
    c == NL || c == m.eof
  }

  function ToLower(c: Char): Char {
    if 'A' as int <= c <= 'Z' as int then c + 32 else c
  }

  /** The mapping of CR, NL and upper case; None if the character is ignored. */
  function Mapped(m: Mode, c: Char): Option<Char> {
    if c == CR && !m.icrnl && m.igncr then None
    else
      var d := if c == CR && m.icrnl then NL else if c == NL && m.inlcr then CR else c;
      Some(if m.iuclc then ToLower(d) else d)
  }

  /** The loop for the kill character. */
  function Killed(m: Mode, s: seq<Char>): seq<Char> {
    if s == [] || EndsLine(m, s[|s| - 1]) then s else Killed(m, s[..|s| - 1])
  }

  function Erased(m: Mode, s: seq<Char>): seq<Char> {
    if s == [] || EndsLine(m, s[|s| - 1]) then s else s[..|s| - 1]
  }

  function Edit(m: Mode, l: Line, c: Char): Line {
    match Mapped(m, c)
    case None => l
    case Some(d) =>
      if m.icanon && d == m.kill then l.(cooked := Killed(m, l.cooked))
      else if m.icanon && d == m.erase then l.(cooked := Erased(m, l.cooked))
      else if m.icanon && d == m.stop then l.(stopped := true)
      else if m.icanon && d == m.start then l.(stopped := false)
      else if m.isig && d == m.intr then l.(signals := l.signals + [Intr])
      else if m.isig && d == m.quit then l.(signals := l.signals + [Quit])
      else l.(cooked := l.cooked + [d])
  }

  /** copy_to_cooked: as many raw characters as there are while the secondary queue is not full. */
  function Cook(m: Mode, l: Line, raw: seq<Char>): (Line, seq<Char>)
    decreases |raw|
  {
    if raw == [] || |l.cooked| >= BUF_SIZE - 1 then (l, raw) else Cook(m, Edit(m, l, raw[0]), raw[1..])
  }

  function Terminators(m: Mode, s: seq<Char>): nat {
    if s == [] then 0 else Terminators(m, s[..|s| - 1]) + if EndsLine(m, s[|s| - 1]) then 1 else 0
  }

  // ---- the reference: a line editor with a line of its own ----

  /** Finished lines, and the line being typed. */
  datatype Editor = Editor(finished: seq<Char>, line: seq<Char>, stopped: bool, signals: seq<Signal>)

  function Type(m: Mode, e: Editor, c: Char): Editor {
    match Mapped(m, c)
    case None => e
    case Some(d) =>
      if d == m.kill then e.(line := [])
      else if d == m.erase then (if e.line == [] then e else e.(line := e.line[..|e.line| - 1]))
      else if d == m.stop then e.(stopped := true)
      else if d == m.start then e.(stopped := false)
      else if m.isig && d == m.intr then e.(signals := e.signals + [Intr])
      else if m.isig && d == m.quit then e.(signals := e.signals + [Quit])
      else if EndsLine(m, d) then e.(finished := e.finished + e.line + [d], line := [])
      else e.(line := e.line + [d])
  }

  function TypeAll(m: Mode, e: Editor, raw: seq<Char>): Editor
    decreases |raw|
  {
    if raw == [] then e else TypeAll(m, Type(m, e, raw[0]), raw[1..])
  }

  /** The flat queue is the finished lines followed by the line being typed, which holds no terminator. */
  predicate Shows(m: Mode, e: Editor, l: Line) {
    && l.cooked == e.finished + e.line && l.stopped == e.stopped && l.signals == e.signals
    && (e.finished == [] || EndsLine(m, e.finished[|e.finished| - 1]))
    && forall i :: 0 <= i < |e.line| ==> !EndsLine(m, e.line[i])
  }

  /** Killing takes the line being typed and nothing of the finished ones. */
  lemma {:induction false} KillTakesLine(m: Mode, finished: seq<Char>, line: seq<Char>)
    requires finished == [] || EndsLine(m, finished[|finished| - 1])
    requires forall i :: 0 <= i < |line| ==> !EndsLine(m, line[i])
    ensures Killed(m, finished + line) == finished
    decreases |line|
  {
    if line == [] {
      assert finished + line == finished;
    } else {
      var s := finished + line;
      assert s[|s| - 1] == line[|line| - 1];
      assert s[..|s| - 1] == finished + line[..|line| - 1];
      KillTakesLine(m, finished, line[..|line| - 1]);
    }
  }

  lemma EraseTakesLast(m: Mode, finished: seq<Char>, line: seq<Char>)
    requires finished == [] || EndsLine(m, finished[|finished| - 1])
    requires forall i :: 0 <= i < |line| ==> !EndsLine(m, line[i])
    ensures Erased(m, finished + line) == finished + if line == [] then line else line[..|line| - 1]
  {
    var s := finished + line;
    if line != [] {
      assert s[|s| - 1] == line[|line| - 1];
      assert s[..|s| - 1] == finished + line[..|line| - 1];
    } else {
      assert s == finished;
    }
  }

  lemma KillShows(m: Mode, e: Editor, l: Line)
    requires Shows(m, e, l)
    ensures Shows(m, e.(line := []), l.(cooked := Killed(m, l.cooked)))
  {
    KillTakesLine(m, e.finished, e.line);
  }

  lemma EraseShows(m: Mode, e: Editor, l: Line)
    requires Shows(m, e, l)
    ensures Shows(m, if e.line == [] then e else e.(line := e.line[..|e.line| - 1]), l.(cooked := Erased(m, l.cooked)))
  {
    EraseTakesLast(m, e.finished, e.line);
  }

  lemma AppendShows(m: Mode, e: Editor, l: Line, d: Char)
    requires Shows(m, e, l)
    ensures Shows(m, if EndsLine(m, d) then e.(finished := e.finished + e.line + [d], line := [])
                     else e.(line := e.line + [d]),
                  l.(cooked := l.cooked + [d]))
  {
    assert (e.finished + e.line) + [d] == e.finished + (e.line + [d]);
  }

  lemma OtherShows(m: Mode, e: Editor, l: Line)
    requires Shows(m, e, l)
    ensures forall b :: Shows(m, e.(stopped := b), l.(stopped := b))
    ensures forall g :: Shows(m, e.(signals := g), l.(signals := g))
    ensures forall g :: Shows(m, e.(signals := e.signals + g), l.(signals := l.signals + g))
  {
  }

  /** In canonical mode the code is the reference editor, character by character: erase and kill stop at a line end. */
  lemma EditIsType(m: Mode, e: Editor, l: Line, c: Char)
    requires m.icanon && Shows(m, e, l)
    ensures Shows(m, Type(m, e, c), Edit(m, l, c)) && e.finished <= Type(m, e, c).finished
  {
    hide Killed, Erased, Mapped, EndsLine, Shows;
    KillShows(m, e, l);
    EraseShows(m, e, l);
    OtherShows(m, e, l);
    if Mapped(m, c).Some? { AppendShows(m, e, l, Mapped(m, c).value); }
  }

  /** No key of the mode: it is just typed. */
  predicate Plain(m: Mode, d: Char) {
    && (m.icanon ==> d != m.kill && d != m.erase && d != m.stop && d != m.start && d != m.eof)
    && (m.isig ==> d != m.intr && d != m.quit)
  }

  /** What typing a character that is no key comes to: with icrnl a CR finishes the line with NL; without it the CR is
    * dropped by igncr and kept as it is otherwise; with inlcr an NL comes in as CR and ends no line, and without it it
    * finishes the line; with iuclc the letters A to Z come in as a to z; and everything else comes in as it is. */
  lemma TypedAs(m: Mode, e: Editor, l: Line, c: Char)
    requires m.icanon && Shows(m, e, l)
    ensures c == 13 && m.icrnl && Plain(m, 10) ==>
              Shows(m, e.(finished := e.finished + e.line + [10], line := []), Edit(m, l, c))
    ensures c == 13 && !m.icrnl && m.igncr ==> Shows(m, e, Edit(m, l, c))
    ensures c == 13 && !m.icrnl && !m.igncr && Plain(m, 13) ==> Shows(m, e.(line := e.line + [13]), Edit(m, l, c))
    ensures c == 10 && m.inlcr && Plain(m, 13) ==> Shows(m, e.(line := e.line + [13]), Edit(m, l, c))
    ensures c == 10 && !m.inlcr && Plain(m, 10) ==>
              Shows(m, e.(finished := e.finished + e.line + [10], line := []), Edit(m, l, c))
    ensures m.iuclc && 'A' as int <= c <= 'Z' as int && Plain(m, c - 'A' as int + 'a' as int) ==>
              Shows(m, e.(line := e.line + [c - 'A' as int + 'a' as int]), Edit(m, l, c))
    ensures c != 10 && c != 13 && !(m.iuclc && 'A' as int <= c <= 'Z' as int) && Plain(m, c) ==>
              Shows(m, e.(line := e.line + [c]), Edit(m, l, c))
  {
    hide Edit, Shows;
    EditIsType(m, e, l, c);
  }

  /** And what the keys do, for keys that come in as they are and are all different. */
  lemma KeysAs(m: Mode, e: Editor, l: Line, c: Char)
    requires m.icanon && m.isig && Shows(m, e, l) && c != 10 && c != 13 && !(m.iuclc && 'A' as int <= c <= 'Z' as int)
    requires forall i, j :: 0 <= i < j < 7 ==> Keys(m)[i] != Keys(m)[j]
    ensures c == m.kill ==> Shows(m, e.(line := []), Edit(m, l, c))
    ensures c == m.erase && e.line != [] ==> Shows(m, e.(line := e.line[..|e.line| - 1]), Edit(m, l, c))
    ensures c == m.erase && e.line == [] ==> Shows(m, e, Edit(m, l, c))
    ensures c == m.stop ==> Shows(m, e.(stopped := true), Edit(m, l, c))
    ensures c == m.start ==> Shows(m, e.(stopped := false), Edit(m, l, c))
    ensures c == m.intr ==> Shows(m, e.(signals := e.signals + [Intr]), Edit(m, l, c))
    ensures c == m.quit ==> Shows(m, e.(signals := e.signals + [Quit]), Edit(m, l, c))
    ensures c == m.eof ==> Shows(m, e.(finished := e.finished + e.line + [c], line := []), Edit(m, l, c))
  {
    hide Edit, Shows;
    var ks := Keys(m);
    assert ks[0] == m.kill && ks[1] == m.erase && ks[2] == m.stop && ks[3] == m.start && ks[4] == m.intr
           && ks[5] == m.quit && ks[6] == m.eof;
    EditIsType(m, e, l, c);
  }

  function Keys(m: Mode): seq<nat> {
    [m.kill, m.erase, m.stop, m.start, m.intr, m.quit, m.eof]
  }

  /** Without canonical mode characters are mapped in the same way and all kept. */
  lemma RawAs(m: Mode, l: Line, c: Char)
    requires !m.icanon
    ensures c == 13 && m.icrnl && Plain(m, 10) ==> Edit(m, l, c) == l.(cooked := l.cooked + [10])
    ensures c == 13 && !m.icrnl && m.igncr ==> Edit(m, l, c) == l
    ensures c == 13 && !m.icrnl && !m.igncr && Plain(m, 13) ==> Edit(m, l, c) == l.(cooked := l.cooked + [13])
    ensures c == 10 && Plain(m, 10) && Plain(m, 13) ==>
              Edit(m, l, c) == l.(cooked := l.cooked + [if m.inlcr then 13 else 10])
    ensures m.iuclc && 'A' as int <= c <= 'Z' as int && Plain(m, c - 'A' as int + 'a' as int) ==>
              Edit(m, l, c) == l.(cooked := l.cooked + [c - 'A' as int + 'a' as int])
    ensures c != 10 && c != 13 && !(m.iuclc && 'A' as int <= c <= 'Z' as int) && Plain(m, c) ==>
              Edit(m, l, c) == l.(cooked := l.cooked + [c])
  {
  }

  /** Any number of raw characters, one after the other. */
  function EditAll(m: Mode, l: Line, raw: seq<Char>): Line
    decreases |raw|
  {
    if raw == [] then l else EditAll(m, Edit(m, l, raw[0]), raw[1..])
  }

  /** The same for any number of characters: nothing typed later takes back a finished line. */
  lemma {:induction false} EditAllIsTypeAll(m: Mode, e: Editor, l: Line, raw: seq<Char>)
    requires m.icanon && Shows(m, e, l)
    ensures Shows(m, TypeAll(m, e, raw), EditAll(m, l, raw)) && e.finished <= TypeAll(m, e, raw).finished
    decreases |raw|
  {
    hide Edit, Type, Shows;
    if raw != [] {
      EditIsType(m, e, l, raw[0]);
      EditAllIsTypeAll(m, Type(m, e, raw[0]), Edit(m, l, raw[0]), raw[1..]);
    }
  }

  /** From `l` with `raw` waiting, input has come to `l'` with `rest` still waiting: the line editor has been through
    * the characters before `rest`, in order. */
  predicate Reached(m: Mode, l: Line, raw: seq<Char>, l': Line, rest: seq<Char>) {
    |rest| <= |raw| && rest == raw[|raw| - |rest|..] && l' == EditAll(m, l, raw[..|raw| - |rest|])
  }

  lemma {:induction false} CookReaches(m: Mode, l: Line, raw: seq<Char>)
    ensures Reached(m, l, raw, Cook(m, l, raw).0, Cook(m, l, raw).1)
    ensures Cook(m, l, raw).1 != [] ==> |Cook(m, l, raw).0.cooked| >= BUF_SIZE - 1
    decreases |raw|
  {
    hide Edit;
    if raw == [] || |l.cooked| >= BUF_SIZE - 1 {
      assert raw[..0] == [];
    } else {
      CookReaches(m, Edit(m, l, raw[0]), raw[1..]);
      var n := |raw| - |Cook(m, l, raw).1|;
      assert raw[..n][1..] == raw[1..][..n - 1];
    }
  }

  /** The cooked stream is the line editor folded over the raw characters that found room; what is left over is the rest
    * of the raw ones, and nothing is left over unless the queue is full. */
  lemma CookIsTypeAll(m: Mode, e: Editor, l: Line, raw: seq<Char>)
    requires m.icanon && Shows(m, e, l)
    ensures var (l', rest) := Cook(m, l, raw);
      && |rest| <= |raw| && rest == raw[|raw| - |rest|..] && Shows(m, TypeAll(m, e, raw[..|raw| - |rest|]), l')
      && (rest != [] ==> |l'.cooked| >= 1023)
  {
    hide Cook, TypeAll, EditAll, Shows;
    CookReaches(m, l, raw);
    EditAllIsTypeAll(m, e, l, raw[..|raw| - |Cook(m, l, raw).1|]);
  }

  lemma {:induction false} EditAllAppend(m: Mode, l: Line, a: seq<Char>, b: seq<Char>)
    ensures EditAll(m, l, a + b) == EditAll(m, EditAll(m, l, a), b)
    decreases |a|
  {
    hide Edit;
    if a == [] {
      assert a + b == b;
    } else {
      EditAllAppend(m, Edit(m, l, a[0]), a[1..], b);
      assert (a + b)[1..] == a[1..] + b;
    }
  }

  lemma ReachedMore(m: Mode, l: Line, raw: seq<Char>, l': Line, rest: seq<Char>, more: seq<Char>)
    requires Reached(m, l, raw, l', rest)
    ensures Reached(m, l, raw + more, l', rest + more)
  {
    hide EditAll;
    assert (raw + more)[..|raw| - |rest|] == raw[..|raw| - |rest|];
  }

  lemma ReachedThen(m: Mode, l: Line, raw: seq<Char>, l': Line, rest: seq<Char>, l'': Line, rest': seq<Char>)
    requires Reached(m, l, raw, l', rest) && Reached(m, l', rest, l'', rest')
    ensures Reached(m, l, raw, l'', rest')
  {
    hide EditAll;
    var a, b := raw[..|raw| - |rest|], rest[..|rest| - |rest'|];
    EditAllAppend(m, l, a, b);
    assert a + b == raw[..|raw| - |rest'|];
  }

  /** Without canonical mode characters are only ever appended, so what stands before does not matter. */
  lemma {:induction false} EditBehind(m: Mode, p: seq<Char>, l: Line, raw: seq<Char>)
    requires !m.icanon
    ensures var l' := EditAll(m, l, raw);
      EditAll(m, l.(cooked := p + l.cooked), raw) == l'.(cooked := p + l'.cooked) && l.cooked <= l'.cooked
    decreases |raw|
  {
    if raw != [] {
      EditBehind(m, p, Edit(m, l, raw[0]), raw[1..]);
      if Mapped(m, raw[0]).Some? {
        var d := Mapped(m, raw[0]).value;
        assert (p + l.cooked) + [d] == p + (l.cooked + [d]);
      }
    }
  }

  /** What is sure to be there still: the finished lines, without canonical mode all of it. */
  function Settled(m: Mode, s: seq<Char>): seq<Char> {
    if m.icanon then s[..LastLine(m, s)] else s
  }

  /** Whatever is typed, it stays at the front of the queue. */
  lemma SettledStays(m: Mode, l: Line, raw: seq<Char>)
    ensures Settled(m, l.cooked) <= EditAll(m, l, raw).cooked
  {
    hide EditAll, LastLine;
    if m.icanon {
      ShowsSome(m, l);
      var n := LastLine(m, l.cooked);
      EditAllIsTypeAll(m, Editor(l.cooked[..n], l.cooked[n..], l.stopped, l.signals), l, raw);
    } else {
      EditBehind(m, [], l, raw);
    }
  }

  /** Any queue can be split that way. */
  function LastLine(m: Mode, s: seq<Char>): (n: nat)
    ensures n <= |s| && (n == 0 || EndsLine(m, s[n - 1])) && forall i :: n <= i < |s| ==> !EndsLine(m, s[i])
  {
    if s == [] || EndsLine(m, s[|s| - 1]) then |s| else LastLine(m, s[..|s| - 1])
  }

  lemma ShowsSome(m: Mode, l: Line)
    ensures var n := LastLine(m, l.cooked);
      Shows(m, Editor(l.cooked[..n], l.cooked[n..], l.stopped, l.signals), l)
  {
  }

  // ---- counting terminators ----

  /** The places of the line ends and ends of file. */
  function EndsAt(m: Mode, s: seq<Char>): set<nat> {
    set i: nat | i < |s| && (s[i] == 10 || s[i] == m.eof)
  }

  lemma {:induction false} TerminatorsIs(m: Mode, s: seq<Char>)
    ensures Terminators(m, s) == |EndsAt(m, s)|
  {
    if s == [] {
      assert EndsAt(m, s) == {};
    } else {
      var n: nat := |s| - 1;
      TerminatorsIs(m, s[..n]);
      assert EndsAt(m, s) == EndsAt(m, s[..n]) + if EndsLine(m, s[n]) then {n} else {};
      assert n !in EndsAt(m, s[..n]);
    }
  }

  lemma {:induction false} KilledCount(m: Mode, s: seq<Char>)
    ensures Terminators(m, Killed(m, s)) == Terminators(m, s) && |Killed(m, s)| <= |s|
  {
    if !(s == [] || EndsLine(m, s[|s| - 1])) { KilledCount(m, s[..|s| - 1]); }
  }

  lemma {:induction false} TakeFirst(m: Mode, s: seq<Char>)
    requires s != []
    ensures Terminators(m, s) == Terminators(m, s[1..]) + if EndsLine(m, s[0]) then 1 else 0
  {
    if |s| > 1 {
      TakeFirst(m, s[..|s| - 1]);
      assert s[..|s| - 1][1..] == s[1..][..|s| - 2];
    }
  }

  // ---- reading ----

  /** One round of the inner loop of tty_read with room for `nr`: what it takes, whether an end of file stopped it, and
    * what is left. */
  datatype Taken = Taken(bytes: seq<Char>, eof: bool, rest: seq<Char>)

  function Take(m: Mode, s: seq<Char>, nr: nat): Taken
    requires nr > 0
    decreases nr
  {
    if s == [] then Taken([], false, s)
    else if s[0] == m.eof && m.icanon then Taken([], true, s[1..])
    else if nr == 1 then Taken([s[0]], false, s[1..])
    else var t := Take(m, s[1..], nr - 1); t.(bytes := [s[0]] + t.bytes)
  }

  /** Where an end of file is. */
  function EofAt(m: Mode, s: seq<Char>): (e: nat)
    ensures e <= |s| && (e < |s| ==> m.icanon && s[e] == m.eof)
    ensures forall i :: 0 <= i < e ==> !(m.icanon && s[i] == m.eof)
  {
    if s == [] || (m.icanon && s[0] == m.eof) then 0 else 1 + EofAt(m, s[1..])
  }

  lemma Shifted(s: seq<Char>, k: nat)
    requires k < |s|
    ensures [s[0]] + s[1..][..k] == s[..k + 1] && s[1..][k..] == s[k + 1..]
  {
  }

  lemma TakeNext(m: Mode, s: seq<Char>, nr: nat)
    requires nr > 1 && s != [] && !(s[0] == m.eof && m.icanon)
    ensures EofAt(m, s) == 1 + EofAt(m, s[1..])
    ensures Take(m, s, nr) == Take(m, s[1..], nr - 1).(bytes := [s[0]] + Take(m, s[1..], nr - 1).bytes)
  {
  }

  lemma TakeLast(m: Mode, s: seq<Char>, nr: nat)
    requires nr > 0 && (nr == 1 || s == [] || (s[0] == m.eof && m.icanon))
    ensures TakesPrefix(m, s, nr)
  {
    if s != [] { assert s[..1] == [s[0]]; }
  }

  predicate TakesPrefix(m: Mode, s: seq<Char>, nr: nat)
    requires nr > 0
  {
    var t, e := Take(m, s, nr), EofAt(m, s);
    && |t.bytes| <= |s| && t.bytes == s[..if nr <= e then nr else e] && t.eof == (e < nr && e < |s|)
    && (t.eof ==> |t.bytes| < |s|) && t.rest == s[|t.bytes| + if t.eof then 1 else 0..]
  }

  /** A round takes a prefix: up to the end of file, the room, or all there is; an end of file is taken and not
    * given. */
  lemma {:induction false} TakeIs(m: Mode, s: seq<Char>, nr: nat)
    requires nr > 0
    ensures TakesPrefix(m, s, nr)
    decreases nr
  {
    hide Take, EofAt;
    if nr == 1 || s == [] || (s[0] == m.eof && m.icanon) {
      TakeLast(m, s, nr);
    } else {
      TakeIs(m, s[1..], nr - 1);
      TakeNext(m, s, nr);
      var t, e := Take(m, s[1..], nr - 1), EofAt(m, s[1..]);
      Shifted(s, if nr - 1 <= e then nr - 1 else e);
      if t.eof { Shifted(s, e + 1); }
    }
  }

  predicate OneLineAtMost(s: seq<Char>) {
    forall i :: 0 <= i < |s| - 1 ==> s[i] != NL
  }

  /** A read does not stop at the first line end: two short lines come together. */
  lemma TwoLinesAtOnce(m: Mode, nr: nat)
    requires nr >= 4 && m.eof == 4
    ensures Take(m, [97, 10, 98, 10], nr).bytes == [97, 10, 98, 10] && !OneLineAtMost([97, 10, 98, 10])
  {
    TakeIs(m, [97, 10, 98, 10], nr);
    assert EofAt(m, [97, 10, 98, 10]) == 4;
    var s: seq<Char> := [97, 10, 98, 10];
    assert s[1] == NL;
  }

  /** With the first line end at `p`, a read gives at most one line exactly if it had room for no more, there was no
    * more, or an end of file came next. */
  lemma OneLineExactly(m: Mode, s: seq<Char>, nr: nat, p: nat)
    requires nr > 0 && p < |s| && s[p] == NL && (forall i :: 0 <= i < p ==> s[i] != NL) && p < EofAt(m, s)
    ensures OneLineAtMost(Take(m, s, nr).bytes) <==> nr <= p + 1 || |s| == p + 1 || (m.icanon && s[p + 1] == m.eof)
  {
    TakeIs(m, s, nr);
    var t, e := Take(m, s, nr).bytes, EofAt(m, s);
    if nr > p + 1 && e > p + 1 { assert t[p] == NL; }
  }
}
