/** The request queues of kernel/blk_drv: one linked list per major number, threaded through one table of request slots,
  * kept in elevator order by add_request and shortened by end_request.
  */
module Elevator {
  import opened Links

  const READ: nat := 0
  const WRITE: nat := 1

  /** What IN_ORDER compares. */
  datatype Key = Key(cmd: nat, dev: nat, sector: nat)

  /** struct request; `dev` is -1 in a free slot. */
  datatype Request = Request(dev: int, cmd: nat, sector: nat, next: int)

  predicate InOrder(a: Key, b: Key) {
    a.cmd < b.cmd || (a.cmd == b.cmd && (a.dev < b.dev || (a.dev == b.dev && a.sector < b.sector)))
  }

  // ---- the order of a queue ----

  /** The place after which add_request puts `r`, looking from place `i` on. */
  function Place(q: seq<Key>, r: Key, i: nat): (p: nat)
    requires i < |q|
    ensures i <= p < |q|
    decreases |q| - i
  {
    if i + 1 == |q| || ((InOrder(q[i], r) || !InOrder(q[i], q[i + 1])) && InOrder(r, q[i + 1])) then i
    else Place(q, r, i + 1)
  }

  function Inserted(q: seq<Key>, r: Key): seq<Key> {
    if q == [] then [r] else var p := Place(q, r, 0); q[..p + 1] + [r] + q[p + 1..]
  }

  predicate Ascending(q: seq<Key>, lo: nat, hi: nat) {
    hi <= |q| && forall i, j :: lo <= i < j < hi ==> InOrder(q[i], q[j])
  }

  /** Two ascending sweeps, the second starting at `d`. */
  predicate Sweeps(q: seq<Key>, d: nat) {
    d <= |q| && Ascending(q, 0, d) && Ascending(q, d, |q|)
  }

  ghost predicate TwoSweeps(q: seq<Key>) {
    exists d: nat :: Sweeps(q, d)
  }

  predicate DistinctKeys(q: seq<Key>) {
    forall i, j :: 0 <= i < j < |q| ==> q[i] != q[j]
  }

  /** Number of places where a queue does not go up. */
  function Descents(q: seq<Key>): nat {
    if |q| < 2 then 0 else (if InOrder(q[0], q[1]) then 0 else 1) + Descents(q[1..])
  }

  lemma InOrderTotal(a: Key, b: Key, c: Key)
    ensures InOrder(a, b) && InOrder(b, c) ==> InOrder(a, c)
    ensures a != b ==> InOrder(a, b) || InOrder(b, a)
    ensures InOrder(a, b) ==> !InOrder(b, a) && a != b
  {
  }

  lemma {:induction false} AscendingNoDescent(q: seq<Key>)
    ensures Ascending(q, 0, |q|) <==> Descents(q) == 0
  {
    if |q| >= 2 {
      AscendingNoDescent(q[1..]);
      if Descents(q) == 0 {
        forall i, j | 0 <= i < j < |q| ensures InOrder(q[i], q[j]) {
          if i == 0 {
            if j > 1 { assert InOrder(q[1..][0], q[1..][j - 1]); InOrderTotal(q[0], q[1], q[j]); }
          } else {
            assert InOrder(q[1..][i - 1], q[1..][j - 1]);
          }
        }
      }
      if Ascending(q, 0, |q|) {
        assert Ascending(q[1..], 0, |q| - 1);
      }
    }
  }

  /** Two sweeps are the same as at most one descent. */
  lemma {:induction false} SweepsAreOneDescent(q: seq<Key>)
    ensures TwoSweeps(q) <==> Descents(q) <= 1
  {
    if |q| < 2 {
      assert Sweeps(q, |q|);
    } else {
      var t := q[1..];
      SweepsAreOneDescent(t);
      AscendingNoDescent(t);
      AscendingNoDescent(q);
      if TwoSweeps(q) {
        var d: nat :| Sweeps(q, d);
        assert Sweeps(t, if d == 0 then 0 else d - 1);
        if !InOrder(q[0], q[1]) { assert d <= 1; assert Ascending(t, 0, |t|); }
      }
      if Descents(q) <= 1 {
        if !InOrder(q[0], q[1]) {
          assert Sweeps(q, 1);
        } else {
          var d: nat :| Sweeps(t, d);
          LongerSweep(q, d);
        }
      }
    }
  }

  lemma LongerSweep(q: seq<Key>, d: nat)
    requires |q| >= 2 && InOrder(q[0], q[1]) && Sweeps(q[1..], d)
    ensures TwoSweeps(q)
  {
    var t := q[1..];
    if d == 0 {
      forall i, j | 0 <= i < j < |q| ensures InOrder(q[i], q[j]) {
        if i > 0 { assert InOrder(t[i - 1], t[j - 1]); }
        else if j > 1 { assert InOrder(t[0], t[j - 1]); InOrderTotal(q[0], q[1], q[j]); }
      }
      assert Sweeps(q, 0);
    } else {
      forall i, j | 0 <= i < j < d + 1 ensures InOrder(q[i], q[j]) {
        if i > 0 { assert InOrder(t[i - 1], t[j - 1]); }
        else if j > 1 { assert InOrder(t[0], t[j - 1]); InOrderTotal(q[0], q[1], q[j]); }
      }
      forall i, j | d + 1 <= i < j < |q| ensures InOrder(q[i], q[j]) { assert InOrder(t[i - 1], t[j - 1]); }
      assert Sweeps(q, d + 1);
    }
  }

  /** What makes add_request stop, and what made it go on before. */
  lemma {:induction false} PlaceIs(q: seq<Key>, r: Key, i: nat)
    requires i < |q|
    ensures var p := Place(q, r, i);
      && (p + 1 < |q| ==> (InOrder(q[p], r) || !InOrder(q[p], q[p + 1])) && InOrder(r, q[p + 1]))
      && forall x :: i <= x < p ==> !((InOrder(q[x], r) || !InOrder(q[x], q[x + 1])) && InOrder(r, q[x + 1]))
    decreases |q| - i
  {
    if Place(q, r, i) != i { PlaceIs(q, r, i + 1); }
  }

  /** A request goes in with no more than two sweeps as before, behind the one in service. */
  lemma InsertKeepsSweeps(q: seq<Key>, r: Key)
    requires TwoSweeps(q) && r !in q
    ensures TwoSweeps(Inserted(q, r))
  {
    if q == [] {
      assert Sweeps([r], 0);
    } else {
      var d: nat :| Sweeps(q, d);
      PlaceIs(q, r, 0);
      var p := Place(q, r, 0);
      if p < d {
        InsertFirst(q, r, d, p);
      } else {
        InsertSecond(q, r, d, p);
      }
    }
  }

  /** Nothing was skipped in an ascending stretch from `lo` to `p`: all of it is on one side of `r`. */
  lemma {:induction false} Passed(q: seq<Key>, r: Key, lo: nat, p: nat)
    requires lo <= p < |q| && Ascending(q, lo, p + 1) && r !in q
    requires forall x :: lo <= x < p ==> !((InOrder(q[x], r) || !InOrder(q[x], q[x + 1])) && InOrder(r, q[x + 1]))
    ensures InOrder(q[lo], r) ==> forall x :: lo <= x <= p ==> InOrder(q[x], r)
    ensures InOrder(r, q[lo]) ==> forall x :: lo <= x <= p ==> InOrder(r, q[x])
    decreases p
  {
    if lo < p {
      Passed(q, r, lo, p - 1);
      InOrderTotal(q[p], r, r);
      InOrderTotal(r, q[p - 1], q[p]);
      assert q[p] in q;
    }
  }

  /** The place is in the first sweep. */
  lemma InsertFirst(q: seq<Key>, r: Key, d: nat, p: nat)
    requires Sweeps(q, d) && r !in q && p < d && p < |q|
    requires p + 1 < |q| ==> (InOrder(q[p], r) || !InOrder(q[p], q[p + 1])) && InOrder(r, q[p + 1])
    requires forall x :: 0 <= x < p ==> !((InOrder(q[x], r) || !InOrder(q[x], q[x + 1])) && InOrder(r, q[x + 1]))
    ensures TwoSweeps(q[..p + 1] + [r] + q[p + 1..])
  {
    var q' := q[..p + 1] + [r] + q[p + 1..];
    Passed(q, r, 0, p);
    assert q[p] in q && q[0] in q;
    InOrderTotal(q[0], r, r);
    InOrderTotal(r, q[0], q[p]);
    if p + 1 < d {
      // between two of the first sweep
      forall i, j | 0 <= i < j < d + 1 ensures InOrder(q'[i], q'[j]) {
        if i == p + 1 && j > p + 2 { InOrderTotal(r, q[p + 1], q[j - 1]); }
      }
      assert Sweeps(q', d + 1);
    } else if InOrder(q[p], r) {
      forall i, j | 0 <= i < j < d + 1 ensures InOrder(q'[i], q'[j]) {}
      forall i, j | d + 1 <= i < j < |q'| ensures InOrder(q'[i], q'[j]) {}
      assert Sweeps(q', d + 1);
    } else {
      // in front of the second sweep
      forall i, j | d <= i < j < |q'| ensures InOrder(q'[i], q'[j]) {
        if i == d && j > d + 1 { InOrderTotal(r, q[p + 1], q[j - 1]); }
      }
      assert Sweeps(q', d);
    }
  }

  /** The place is in the second sweep. */
  lemma InsertSecond(q: seq<Key>, r: Key, d: nat, p: nat)
    requires Sweeps(q, d) && r !in q && d <= p < |q|
    requires p + 1 < |q| ==> (InOrder(q[p], r) || !InOrder(q[p], q[p + 1])) && InOrder(r, q[p + 1])
    requires forall x :: 0 <= x < p ==> !((InOrder(q[x], r) || !InOrder(q[x], q[x + 1])) && InOrder(r, q[x + 1]))
    ensures TwoSweeps(q[..p + 1] + [r] + q[p + 1..])
  {
    var q' := q[..p + 1] + [r] + q[p + 1..];
    Passed(q, r, d, p);
    assert q[d] in q && q[p] in q;
    InOrderTotal(q[d], r, r);
    if InOrder(q[d], r) {
      forall i, j | d <= i < j < |q'| ensures InOrder(q'[i], q'[j]) {
        if i == p + 1 && j > p + 2 { InOrderTotal(r, q[p + 1], q[j - 1]); }
        if i < p + 1 && j > p + 1 { assert q'[j] == q[j - 1]; }
      }
      assert Sweeps(q', d);
    } else {
      NotSkipped(q, r, d, p);
    }
  }

  /** A request that goes before the second sweep is only put behind it if there is no first sweep to come after. */
  lemma NotSkipped(q: seq<Key>, r: Key, d: nat, p: nat)
    requires Sweeps(q, d) && r !in q && d <= p < |q| && InOrder(r, q[d]) && forall x :: d <= x <= p ==> InOrder(r, q[x])
    requires p + 1 < |q| ==> (InOrder(q[p], r) || !InOrder(q[p], q[p + 1])) && InOrder(r, q[p + 1])
    requires forall x :: 0 <= x < p ==> !((InOrder(q[x], r) || !InOrder(q[x], q[x + 1])) && InOrder(r, q[x + 1]))
    ensures TwoSweeps(q[..p + 1] + [r] + q[p + 1..])
  {
    var q' := q[..p + 1] + [r] + q[p + 1..];
    InOrderTotal(q[p], r, r);
    assert p + 1 == |q|;
    if d > 0 {
      // the step from the first sweep to the second would have been a place unless it goes up
      assert InOrder(q[d - 1], q[d]);
      forall i, j | 0 <= i < j < |q| ensures InOrder(q'[i], q'[j]) {
        if i < d <= j {
          if i < d - 1 { InOrderTotal(q[i], q[d - 1], q[d]); }
          if j > d { InOrderTotal(q[i], q[d], q[j]); }
        }
      }
    }
    assert Sweeps(q', |q|);
  }

  /** Nothing is lost, the request in service stays, and the others keep their order. */
  lemma InsertKeepsRequests(q: seq<Key>, r: Key)
    ensures multiset(Inserted(q, r)) == multiset(q) + multiset{r}
    ensures q != [] ==> Inserted(q, r)[0] == q[0]
    ensures exists p: nat ::
              p < |Inserted(q, r)| && Inserted(q, r)[p] == r && Inserted(q, r)[..p] + Inserted(q, r)[p + 1..] == q
    ensures DistinctKeys(q) && r !in q ==> DistinctKeys(Inserted(q, r))
  {
    hide Place;
    if q == [] {
      assert Inserted(q, r) == [r];
      assert Inserted(q, r)[..0] + Inserted(q, r)[1..] == q;
    } else {
      var p := Place(q, r, 0);
      Spliced(q[..p + 1], r, q[p + 1..]);
      assert q == q[..p + 1] + q[p + 1..];
    }
  }

  lemma Spliced(a: seq<Key>, r: Key, b: seq<Key>)
    ensures var q := a + [r] + b;
      && multiset(q) == multiset(a + b) + multiset{r} && (a != [] ==> q[0] == (a + b)[0])
      && q[|a|] == r && q[..|a|] + q[|a| + 1..] == a + b
      && (DistinctKeys(a + b) && r !in a + b ==> DistinctKeys(q))
  {
    var q := a + [r] + b;
    assert q[..|a|] + q[|a| + 1..] == a + b;
    if DistinctKeys(a + b) && r !in a + b {
      forall i, j | 0 <= i < j < |q| ensures q[i] != q[j] {
        var i', j' := if i > |a| then i - 1 else i, if j > |a| then j - 1 else j;
        assert i != |a| ==> q[i] == (a + b)[i'];
        assert j != |a| ==> q[j] == (a + b)[j'];
      }
    }
  }

  lemma EndKeepsSweeps(q: seq<Key>)
    requires TwoSweeps(q) && q != []
    ensures TwoSweeps(q[1..])
  {
    var d: nat :| Sweeps(q, d);
    assert Sweeps(q[1..], if d == 0 then 0 else d - 1);
  }

  // ---- histories ----

  datatype Op = Add(r: Key) | End

  /** What a queue is after some requests have come and some have been served; a request queued already does not
    * come. */
  function Run(q: seq<Key>, ops: seq<Op>): seq<Key>
    decreases |ops|
  {
    if ops == [] then q
    else match ops[0]
      case Add(r) => Run(if r in q then q else Inserted(q, r), ops[1..])
      case End => Run(if q == [] then q else q[1..], ops[1..])
  }

  /** From the empty queue on, there is never more than one descent. */
  lemma {:induction false} RunKeepsSweeps(q: seq<Key>, ops: seq<Op>)
    requires Descents(q) <= 1 && DistinctKeys(q)
    ensures Descents(Run(q, ops)) <= 1 && DistinctKeys(Run(q, ops))
    decreases |ops|
  {
    SweepsAreOneDescent(q);
    if ops != [] {
      match ops[0]
      case Add(r) =>
        if r !in q {
          InsertKeepsSweeps(q, r);
          InsertKeepsRequests(q, r);
          SweepsAreOneDescent(Inserted(q, r));
          RunKeepsSweeps(Inserted(q, r), ops[1..]);
        } else {
          RunKeepsSweeps(q, ops[1..]);
        }
      case End =>
        if q != [] {
          EndKeepsSweeps(q);
          SweepsAreOneDescent(q[1..]);
          RunKeepsSweeps(q[1..], ops[1..]);
        } else {
          RunKeepsSweeps(q, ops[1..]);
        }
    }
  }

  /** In one sweep reads come before writes, and within one command and device sectors go up. */
  lemma SweepOrder(q: seq<Key>, d: nat, i: nat, j: nat)
    requires Sweeps(q, d) && i < j < |q| && (j < d || d <= i)
    ensures q[i].cmd == 1 ==> q[j].cmd != 0
    ensures q[i].cmd == q[j].cmd ==> q[i].dev <= q[j].dev
    ensures q[i].cmd == q[j].cmd && q[i].dev == q[j].dev ==> q[i].sector < q[j].sector
  {
    assert InOrder(q[i], q[j]);
  }

  /** So it is over every history: in each of at most two sweeps reads come before writes and sectors go up. */
  lemma RunOrder(ops: seq<Op>) returns (d: nat)
    ensures var q := Run([], ops);
      && d <= |q|
      && forall i, j :: 0 <= i < j < |q| && (j < d || d <= i) ==>
           && !(q[i].cmd == 1 && q[j].cmd == 0)
           && (q[i].cmd == q[j].cmd ==> q[i].dev <= q[j].dev)
           && (q[i].cmd == q[j].cmd && q[i].dev == q[j].dev ==> q[i].sector < q[j].sector)
  {
    RunKeepsSweeps([], ops);
    var q := Run([], ops);
    SweepsAreOneDescent(q);
    d :| Sweeps(q, d);
    forall i, j | 0 <= i < j < |q| && (j < d || d <= i)
      ensures !(q[i].cmd == 1 && q[j].cmd == 0)
      ensures q[i].cmd == q[j].cmd ==> q[i].dev <= q[j].dev
      ensures q[i].cmd == q[j].cmd && q[i].dev == q[j].dev ==> q[i].sector < q[j].sector
    {
      SweepOrder(q, d, i, j);
    }
  }

  // ---- the table ----

  function KeyOf(b: Request): Key {
    Key(b.cmd, if b.dev < 0 then 0 else b.dev, b.sector)
  }

  function KeysOf(table: seq<Request>, s: seq<nat>): seq<Key> {
    seq(|s|, i requires 0 <= i < |s| => if s[i] < |table| then KeyOf(table[s[i]]) else Key(0, 0, 0))
  }

  predicate Linked(table: seq<Request>, s: seq<nat>, i: nat) {
    i < |s| && s[i] < |table| && table[s[i]].next == At(s, i + 1)
  }

  predicate ListOK(table: seq<Request>, head: int, s: seq<nat>) {
    Distinct(s) && head == At(s, 0) && forall i: nat :: i < |s| ==> Linked(table, s, i)
  }

  /** MAJOR. */
  function Major(dev: nat): nat {
    dev / 256
  }

  /** `s` lists the slots queued for major number `m`. */
  ghost predicate QueueOK(table: seq<Request>, head: int, s: seq<nat>, m: nat) {
    ListOK(table, head, s) && Members(table, s, m) && TwoSweeps(KeysOf(table, s)) && DistinctKeys(KeysOf(table, s))
  }

  /** The slots of `s` are those in use for `m`. */
  ghost predicate Members(table: seq<Request>, s: seq<nat>, m: nat) {
    && (forall i {:trigger i in s} :: i in s ==> i < |table| && table[i].dev >= 0 && Major(table[i].dev) == m)
    && (forall i: nat :: i < |table| && table[i].dev >= 0 && Major(table[i].dev) == m ==> i in s)
  }

  /** How many slots, from the bottom, a request may use: writes leave the last third to reads. */
  function Room(n: nat, cmd: nat): nat {
    if cmd == READ then n else n * 2 / 3
  }

  predicate ReadsOnly(table: seq<Request>, i: nat) {
    i < |table| && (table[i].dev >= 0 && i >= Room(|table|, WRITE) ==> table[i].cmd == READ)
  }

  lemma LastThird(table: seq<Request>)
    ensures (forall i: nat :: i < |table| ==> ReadsOnly(table, i)) ==>
              forall i :: |table| * 2 / 3 <= i < |table| && table[i].dev >= 0 ==> table[i].cmd == READ
  {
    if forall i: nat :: i < |table| ==> ReadsOnly(table, i) {
      forall i | |table| * 2 / 3 <= i < |table| && table[i].dev >= 0 ensures table[i].cmd == READ {
        assert ReadsOnly(table, i);
      }
    }
  }

  /** Keys and occupation of all slots but `req`, which now holds a request for `m`. */
  predicate Filled(was: seq<Request>, now: seq<Request>, m: nat, req: nat) {
    && |now| == |was| && req < |was| && was[req].dev < 0 && now[req].dev >= 0 && Major(now[req].dev) == m
    && forall i :: 0 <= i < |was| && i != req ==>
         now[i].dev == was[i].dev && now[i].cmd == was[i].cmd && now[i].sector == was[i].sector
  }

  lemma AddedFirst(was: seq<Request>, now: seq<Request>, s: seq<nat>, m: nat, req: nat)
    requires QueueOK(was, NULL, s, m) && Filled(was, now, m, req) && now[req].next == NULL
    ensures QueueOK(now, req, [req], m) && KeysOf(now, [req]) == Inserted(KeysOf(was, s), KeyOf(now[req]))
  {
    hide Major;
    assert s == [];
    assert Sweeps(KeysOf(now, [req]), 0);
    assert Linked(now, [req], 0);
  }

  lemma SpliceList(was: seq<Request>, now: seq<Request>, head: int, s: seq<nat>, req: nat, p: nat)
    requires ListOK(was, head, s) && p < |s| && req !in s && req < |was| == |now| && s[p] < |was|
    requires now[req].next == was[s[p]].next && now[s[p]].next == req
    requires forall i :: 0 <= i < |was| && i != req && i != s[p] ==> now[i].next == was[i].next
    ensures ListOK(now, head, s[..p + 1] + [req] + s[p + 1..])
  {
    var s' := s[..p + 1] + [req] + s[p + 1..];
    forall i: nat | i < |s'| ensures Linked(now, s', i) {
      assert Linked(was, s, p);
      if i <= p { assert Linked(was, s, i); } else if i > p + 1 { assert Linked(was, s, i - 1); }
    }
  }

  /** Exactly the slots of the queue and the new one are in the longer list. */
  lemma SplicedMembers(s: seq<nat>, req: nat, p: nat)
    requires p < |s|
    ensures forall i :: i in s[..p + 1] + [req] + s[p + 1..] <==> i in s || i == req
  {
    var s' := s[..p + 1] + [req] + s[p + 1..];
    assert s == s[..p + 1] + s[p + 1..];
  }

  lemma SplicedKeys(was: seq<Request>, now: seq<Request>, s: seq<nat>, req: nat, p: nat)
    requires p < |s| && req < |now| == |was|
    requires forall i :: 0 <= i < |s| ==> s[i] < |was| && KeyOf(now[s[i]]) == KeyOf(was[s[i]])
    ensures var q := KeysOf(was, s);
      KeysOf(now, s[..p + 1] + [req] + s[p + 1..]) == q[..p + 1] + [KeyOf(now[req])] + q[p + 1..]
  {
  }

  lemma AddedMembers(was: seq<Request>, now: seq<Request>, s: seq<nat>, m: nat, req: nat, p: nat)
    requires Members(was, s, m) && Filled(was, now, m, req) && p < |s|
    ensures Members(now, s[..p + 1] + [req] + s[p + 1..], m)
  {
    hide Major;
    var s' := s[..p + 1] + [req] + s[p + 1..];
    SplicedMembers(s, req, p);
    forall i | i in s' ensures i < |now| && now[i].dev >= 0 && Major(now[i].dev) == m {
      if i != req { assert i in s; }
    }
    forall i: nat | i < |now| && now[i].dev >= 0 && Major(now[i].dev) == m ensures i in s' {
      if i != req { assert i in s; }
    }
  }

  lemma AddedAt(was: seq<Request>, now: seq<Request>, head: int, s: seq<nat>, m: nat, req: nat, p: nat)
    requires QueueOK(was, head, s, m) && Filled(was, now, m, req) && p < |s| && s[p] < |was|
    requires now[req].next == was[s[p]].next && now[s[p]].next == req && s[p] != req
    requires forall i :: 0 <= i < |was| && i != req && i != s[p] ==> now[i].next == was[i].next
    requires KeyOf(now[req]) !in KeysOf(was, s) && Place(KeysOf(was, s), KeyOf(now[req]), 0) == p
    ensures QueueOK(now, head, s[..p + 1] + [req] + s[p + 1..], m)
    ensures KeysOf(now, s[..p + 1] + [req] + s[p + 1..]) == Inserted(KeysOf(was, s), KeyOf(now[req]))
  {
    hide Major, Place, TwoSweeps, DistinctKeys, KeysOf, ListOK, Linked, InOrder;
    assert req !in s;
    SpliceList(was, now, head, s, req, p);
    forall i | 0 <= i < |s| ensures s[i] < |was| && KeyOf(now[s[i]]) == KeyOf(was[s[i]]) { assert s[i] in s; }
    SplicedKeys(was, now, s, req, p);
    AddedMembers(was, now, s, m, req, p);
    KeyCount(was, s);
    InsertKeepsSweeps(KeysOf(was, s), KeyOf(now[req]));
    InsertKeepsRequests(KeysOf(was, s), KeyOf(now[req]));
  }

  lemma KeyCount(table: seq<Request>, s: seq<nat>)
    ensures |KeysOf(table, s)| == |s|
  {
  }

  /** The queues of the other major numbers do not notice. */
  lemma Others(was: seq<Request>, now: seq<Request>, heads: seq<int>, heads': seq<int>, queue: seq<seq<nat>>,
               queue': seq<seq<nat>>, m: nat, req: nat)
    requires |queue| == |queue'| == |heads| == |heads'| && m < |queue|
    requires (forall x: nat :: x < |queue| ==> QueueOK(was, heads[x], queue[x], x)) && Filled(was, now, m, req)
    requires forall x: nat :: x < |queue| && x != m ==> heads'[x] == heads[x] && queue'[x] == queue[x]
    requires forall i :: 0 <= i < |was| && i !in queue[m] && i != req ==> now[i].next == was[i].next
    ensures forall x: nat :: x < |queue| && x != m ==>
              QueueOK(now, heads'[x], queue'[x], x) && KeysOf(now, queue'[x]) == KeysOf(was, queue[x])
  {
    hide Major, TwoSweeps, DistinctKeys;
    forall x: nat | x < |queue| && x != m
      ensures QueueOK(now, heads'[x], queue'[x], x) && KeysOf(now, queue'[x]) == KeysOf(was, queue[x])
    {
      var s := queue[x];
      assert QueueOK(was, heads[x], s, x) && QueueOK(was, heads[m], queue[m], m);
      forall i | 0 <= i < |s| ensures s[i] != req && s[i] < |was| && s[i] !in queue[m] { assert s[i] in s; }
      forall i: nat | i < |s| ensures Linked(now, s, i) { assert Linked(was, s, i); }
      assert KeysOf(now, s) == KeysOf(was, s);
    }
  }

  class Drives {
    const request: array<Request>
    const current: array<int>       // blk_dev[].current_request
    ghost var queue: seq<seq<nat>>

    /** The keys queued for one major number, the one in service first. */
    ghost function Queue(m: nat): seq<Key>
      reads this, request
    {
      if m < |queue| then KeysOf(request[..], queue[m]) else []
    }

    ghost predicate Valid()
      reads this, request, current
    {
      && |queue| == current.Length
      && (forall m: nat :: m < |queue| ==> QueueOK(request[..], current[m], queue[m], m))
      && (forall i: nat :: i < request.Length ==> ReadsOnly(request[..], i))
    }

    /** blk_dev_init. */
    constructor (n: nat, majors: nat)
      ensures Valid() && request.Length == n && current.Length == majors && fresh(request) && fresh(current)
      ensures (forall m: nat :: Queue(m) == []) && forall i :: 0 <= i < n ==> request[i].dev == -1
    {
      request := new Request[n](_ => Request(-1, 0, 0, NULL));
      current := new int[majors](_ => NULL);
      queue := seq(majors, _ => []);
      new;
      forall m: nat | m < majors ensures QueueOK(request[..], current[m], queue[m], m) {
        assert Sweeps(KeysOf(request[..], []), 0);
      }
    }

    /** make_request for a locked buffer with work to do: the highest free slot it may use goes into the queue of its
      * device in elevator order; NULL when there is none. */
    method MakeRequest(cmd: nat, dev: nat, sector: nat) returns (slot: int)
      requires Valid() && cmd <= WRITE && Major(dev) < current.Length && Key(cmd, dev, sector) !in Queue(Major(dev))
      modifies this, request, current
      ensures Valid() && |queue| == |old(queue)|
      ensures slot == NULL ==> Unchanged(old(request[..]), old(queue))
      ensures forall i: nat :: slot < i < (if cmd == READ then request.Length else request.Length * 2 / 3) ==>
                request[i].dev >= 0
      ensures slot != NULL ==>
                0 <= slot < (if cmd == READ then request.Length else request.Length * 2 / 3)
                && old(request[slot]).dev < 0
      ensures slot != NULL ==> Queue(dev / 256) == Inserted(old(Queue(dev / 256)), Key(cmd, dev, sector))
      ensures slot != NULL ==> forall m: nat :: m != dev / 256 ==> Queue(m) == old(Queue(m))
      ensures forall i :: request.Length * 2 / 3 <= i < request.Length && request[i].dev >= 0 ==> request[i].cmd == READ
    {
      LastThird(request[..]);
      var req := Room(request.Length, cmd) - 1;
      while req >= 0 && !(request[req].dev < 0)
        invariant -1 <= req < Room(request.Length, cmd)
        invariant forall i: nat :: req < i < Room(request.Length, cmd) ==> request[i].dev >= 0
      {
        req := req - 1;
      }
      if req < 0 {
        return NULL;
      }
      slot := req;
      AddRequest(slot, cmd, dev, sector);
      LastThird(request[..]);
    }

    ghost predicate Unchanged(table: seq<Request>, queue: seq<seq<nat>>)
      reads this, request
    {
      request[..] == table && this.queue == queue
    }

    /** The slot is filled in, and add_request puts it into the list. */
    method AddRequest(req: nat, cmd: nat, dev: nat, sector: nat)
      requires Valid() && cmd <= WRITE && Major(dev) < current.Length && Key(cmd, dev, sector) !in Queue(Major(dev))
      requires req < Room(request.Length, cmd) && request[req].dev < 0
      modifies this, request, current
      ensures Valid() && |queue| == |old(queue)|
      ensures forall i: nat :: i < request.Length && i != req ==> request[i].dev == old(request[i]).dev
      ensures Queue(Major(dev)) == Inserted(old(Queue(Major(dev))), Key(cmd, dev, sector))
      ensures forall m: nat :: m != Major(dev) ==> Queue(m) == old(Queue(m))
    {
      hide Inserted, TwoSweeps, DistinctKeys, Major, KeysOf, Members, ListOK, Linked, InOrder, Place;
      var m := Major(dev);
      ghost var was, s := request[..], queue[m];
      assert QueueOK(was, current[m], s, m);
      request[req] := Request(dev, cmd, sector, NULL);
      ghost var p: nat := 0;
      if current[m] == NULL {
        current[m] := req;
        queue := queue[m := [req]];
        AddedFirst(was, request[..], s, m, req);
      } else {
        var tmp;
        tmp, p := FindPlace(req, current[m], was, s, m);
        request[req] := request[req].(next := request[tmp].next);
        request[tmp] := request[tmp].(next := req);
        queue := queue[m := s[..p + 1] + [req] + s[p + 1..]];
        AddedAt(was, request[..], current[m], s, m, req, p);
      }
      forall i: nat | i < request.Length ensures ReadsOnly(request[..], i) { assert ReadsOnly(was, i); }
      Others(was, request[..], old(current[..]), current[..], old(queue), queue, m, req);
    }

    /** The loop of add_request. */
    method FindPlace(req: nat, first: int, ghost was: seq<Request>, ghost s: seq<nat>, ghost m: nat)
        returns (tmp: nat, ghost p: nat)
      requires QueueOK(was, first, s, m) && first != NULL && Filled(was, request[..], m, req)
      requires forall i: nat :: i < |was| && i != req ==> request[i] == was[i]
      ensures p < |s| && tmp == s[p] < |was| && tmp != req
      ensures |KeysOf(was, s)| == |s| && p == Place(KeysOf(was, s), KeyOf(request[req]), 0)
    {
      hide TwoSweeps, DistinctKeys, Major, InOrder;
      ghost var q, r := KeysOf(was, s), KeyOf(request[req]);
      forall i: nat | i < |s| ensures s[i] < |was| && s[i] != req && was[s[i]].next == At(s, i + 1) {
        assert Linked(was, s, i) && s[i] in s;
      }
      tmp, p := first, 0;
      while request[tmp].next != NULL &&
            !((InOrder(KeyOf(request[tmp]), KeyOf(request[req]))
              || !InOrder(KeyOf(request[tmp]), KeyOf(request[request[tmp].next])))
              && InOrder(KeyOf(request[req]), KeyOf(request[request[tmp].next])))
        invariant p < |s| && tmp == s[p] && request[tmp].next == At(s, p + 1)
        invariant Place(q, r, 0) == Place(q, r, p)
        decreases |s| - p
      {
        p := p + 1;
        tmp := request[tmp].next;
      }
    }

    /** end_request: the request in service is done, its slot is free, and the next one is in service. */
    method EndRequest(m: nat)
      requires Valid() && m < current.Length && current[m] != NULL
      modifies this, request, current
      ensures Valid() && |queue| == |old(queue)|
      ensures old(Queue(m)) != [] && Queue(m) == old(Queue(m))[1..]
      ensures forall x: nat :: x != m ==> Queue(x) == old(Queue(x))
      ensures 0 <= old(current[m]) < request.Length && request[old(current[m])].dev == -1
    {
      hide TwoSweeps, DistinctKeys, Major, KeysOf, Members, InOrder;
      ghost var was, s := request[..], queue[m];
      assert QueueOK(was, current[m], s, m) && Linked(was, s, 0);
      var req := current[m];
      request[req] := request[req].(dev := -1);
      current[m] := request[req].next;
      queue := queue[m := s[1..]];
      Served(was, request[..], old(current[m]), s, m);
      forall i: nat | i < request.Length ensures ReadsOnly(request[..], i) { assert ReadsOnly(was, i); }
      OthersServed(was, request[..], old(current[..]), current[..], old(queue), queue, m, req);
    }
  }

  lemma Served(was: seq<Request>, now: seq<Request>, head: int, s: seq<nat>, m: nat)
    requires QueueOK(was, head, s, m) && s != [] && s[0] < |was| && now == was[s[0] := was[s[0]].(dev := -1)]
    ensures QueueOK(now, was[s[0]].next, s[1..], m)
    ensures KeysOf(was, s) != [] && KeysOf(now, s[1..]) == KeysOf(was, s)[1..]
  {
    hide TwoSweeps, Major, InOrder, Members;
    var q, t := KeysOf(was, s), s[1..];
    EndKeepsSweeps(q);
    assert Linked(was, s, 0);
    forall i: nat | i < |t| ensures Linked(now, t, i) && t[i] != s[0] {
      assert Linked(was, s, i + 1) && t[i] == s[i + 1];
    }
    assert KeysOf(now, t) == q[1..];
    ServedMembers(was, now, s, m);
  }

  lemma ServedMembers(was: seq<Request>, now: seq<Request>, s: seq<nat>, m: nat)
    requires Members(was, s, m) && Distinct(s) && s != [] && s[0] < |was| && now == was[s[0] := was[s[0]].(dev := -1)]
    ensures Members(now, s[1..], m)
  {
    hide Major;
    var t := s[1..];
    forall i | i in t ensures i < |now| && now[i].dev >= 0 && Major(now[i].dev) == m { assert i in s && i != s[0]; }
    forall i: nat | i < |now| && now[i].dev >= 0 && Major(now[i].dev) == m ensures i in t {
      assert i in s && i != s[0];
    }
  }

  lemma OthersServed(was: seq<Request>, now: seq<Request>, heads: seq<int>, heads': seq<int>, queue: seq<seq<nat>>,
                     queue': seq<seq<nat>>, m: nat, req: nat)
    requires |queue| == |queue'| == |heads| == |heads'| && m < |queue| && req < |was| && req in queue[m]
    requires (forall x: nat :: x < |queue| ==> QueueOK(was, heads[x], queue[x], x))
             && now == was[req := was[req].(dev := -1)]
    requires forall x: nat :: x < |queue| && x != m ==> heads'[x] == heads[x] && queue'[x] == queue[x]
    ensures forall x: nat :: x < |queue| && x != m ==>
              QueueOK(now, heads'[x], queue'[x], x) && KeysOf(now, queue'[x]) == KeysOf(was, queue[x])
  {
    hide Major, TwoSweeps, DistinctKeys;
    forall x: nat | x < |queue| && x != m
      ensures QueueOK(now, heads'[x], queue'[x], x) && KeysOf(now, queue'[x]) == KeysOf(was, queue[x])
    {
      var s := queue[x];
      assert QueueOK(was, heads[x], s, x) && QueueOK(was, heads[m], queue[m], m);
      forall i | 0 <= i < |s| ensures s[i] != req && s[i] < |was| { assert s[i] in s; }
      forall i: nat | i < |s| ensures Linked(now, s, i) { assert Linked(was, s, i); }
      assert KeysOf(now, s) == KeysOf(was, s);
    }
  }
}
