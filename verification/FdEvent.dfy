/** The events of file descriptors: which are wanted, which are pending, in which order they are served. */
module FdEvent {
  import opened IntrusiveList
  import opened EventHooks

  const FDE_EVENTMASK: Events := 0x00ff
  const FDE_STATEMASK: Events := 0xff00
  const FDE_ACTIVE: Events := 0x0100
  const FDE_PENDING: Events := 0x0200
  const FDE_DONT_CLOSE: Events := 0x0080

  /** What an fdevent holds besides its links. */
  datatype Fde = Fde(fd: int, state: Events, events: Events)

  predicate Pending(state: Events) { state & FDE_PENDING != 0 }
  predicate Active(state: Events) { state & FDE_ACTIVE != 0 }
  function Wanted(state: Events): Events { state & FDE_EVENTMASK }

  function WithWanted(state: Events, events: Events): (s: Events) {
    (state & FDE_STATEMASK) | (events & FDE_EVENTMASK)
  }

  function SetPending(state: Events): Events { state | FDE_PENDING }
  function ClearPending(state: Events): Events { state & !FDE_PENDING }

  lemma WantedOfWithWanted(s: Events, e: Events)
    ensures Wanted(WithWanted(s, e)) == Wanted(e)
  {
  }
  lemma PendingOfWithWanted(s: Events, e: Events)
    ensures Pending(WithWanted(s, e)) <==> Pending(s)
  {
  }
  lemma ActiveOfWithWanted(s: Events, e: Events)
    ensures Active(WithWanted(s, e)) <==> Active(s)
  {
  }
  lemma SetPendingSets(s: Events)
    ensures Pending(SetPending(s))
  {
  }
  lemma SetPendingWants(s: Events)
    ensures Wanted(SetPending(s)) == Wanted(s)
  {
  }
  lemma SetPendingActive(s: Events)
    ensures Active(SetPending(s)) <==> Active(s)
  {
  }
  lemma ClearPendingClears(s: Events)
    ensures !Pending(ClearPending(s))
  {
  }
  lemma ClearPendingWants(s: Events)
    ensures Wanted(ClearPending(s)) == Wanted(s)
  {
  }
  lemma ClearPendingActive(s: Events)
    ensures Active(ClearPending(s)) <==> Active(s)
  {
  }
  lemma WantedTwice(s: Events)
    ensures Wanted(Wanted(s)) == Wanted(s)
  {
  }
  lemma FreshState()
    ensures Active(FDE_ACTIVE) && !Pending(FDE_ACTIVE) && Wanted(FDE_ACTIVE) == 0
    ensures !Active(0) && !Pending(0) && Wanted(0) == 0
  {
  }

  /** What the table of descriptors and the pending list say: the fdevents by descriptor, and the
      descriptors of those that are pending, oldest first. */
  datatype Pool = Pool(table: map<int, Fde>, queue: seq<int>) {

    ghost predicate Valid() {
      && (forall fd | fd in table :: table[fd].fd == fd && Active(table[fd].state))
      && (forall fd | fd in table :: Pending(table[fd].state) <==> fd in queue)
      && (forall fd | fd in queue :: fd in table)
      && Distinct(queue)
    }

    /** The mask of the events wanted from a descriptor. */
    function Mask(fd: int): Events {
      if fd in table then Wanted(table[fd].state) else 0
    }
  }

  function Put(p: Pool, f: Fde): (r: Pool)
    ensures r.queue == p.queue
  {
    p.(table := p.table[f.fd := f])
  }

  function Leave(p: Pool, fd: int): Pool { p.(queue := Drop(p.queue, fd)) }
  function Join(p: Pool, fd: int): Pool { p.(queue := p.queue + [fd]) }

  /** The pool without the first that waits. */
  function WithoutFirst(p: Pool): (r: Pool)
    requires p.queue != []
    ensures r.table == p.table
  {
    p.(queue := p.queue[1..])
  }

  function Forget(p: Pool, fd: int): Pool { p.(table := p.table - {fd}) }

  lemma PutTwice(p: Pool, f: Fde, g: Fde)
    requires f.fd == g.fd
    ensures Put(Put(p, f), g) == Put(p, g)
  {
    assert p.table[f.fd := f][g.fd := g] == p.table[g.fd := g];
  }

  lemma PutAndQueue(p: Pool, f: Fde, g: Fde)
    requires f.fd == g.fd
    ensures Put(Leave(Put(p, f), f.fd), g) == Leave(Put(p, g), f.fd)
    ensures Put(Join(Put(p, f), f.fd), g) == Join(Put(p, g), f.fd)
  {
    PutTwice(p, f, g);
  }

  datatype Op = Install(fd: int) | Set(fd: int, events: Events) | Add(fd: int, events: Events)
              | Del(fd: int, events: Events) | Remove(fd: int) | Signal(fd: int) | Serve

  /** q without the first x. */
  function Drop(q: seq<int>, x: int): (r: seq<int>)
    ensures x !in q ==> r == q
    ensures forall y | y != x :: y in r <==> y in q
  {
    if q == [] then [] else if q[0] == x then q[1..] else [q[0]] + Drop(q[1..], x)
  }

  lemma {:induction false} DropAt(q: seq<int>, i: nat)
    requires i < |q| && forall j | 0 <= j < i :: q[j] != q[i]
    ensures Drop(q, q[i]) == q[..i] + q[i + 1..]
  {
    if i > 0 {
      DropAt(q[1..], i - 1);
      assert q[..i] + q[i + 1..] == [q[0]] + (q[1..][..i - 1] + q[1..][i..]);
    } else {
      assert q[..0] + q[1..] == q[1..];
    }
  }

  /** The fdevent after other events were wanted from it; a pending one keeps what it no longer wants. */
  function SetFde(f: Fde, events: Events): Fde {
    var e := Wanted(events);
    if Wanted(f.state) == e then f
    else
      var state := WithWanted(f.state, e);
      if !Pending(state) then f.(state := state)
      else
        var left := Minus(f.events, e);
        f.(state := if left == 0 then ClearPending(state) else state, events := left)
  }

  /** The pool with an fdevent assigned; it leaves the queue if it is not pending any more. */
  function Changed(p: Pool, fd: int, f: Fde): Pool {
    if Pending(f.state) then Put(p, f) else Leave(Put(p, f), fd)
  }

  function Signalled(p: Pool, fd: int, f: Fde, wanted: Events): Pool {
    var g := Fde(fd, if Pending(f.state) then f.state else SetPending(f.state), Union(f.events, wanted));
    if Pending(f.state) then Put(p, g) else Join(Put(p, g), fd)
  }

  /** What one call does. Calls for a descriptor that is not installed, a second installation and a
      signal nobody wants are not made. */
  function Apply(p: Pool, op: Op): Pool {
    match op
    case Install(fd) => if fd in p.table then p else Put(p, Fde(fd, FDE_ACTIVE, 0))
    case Set(fd, e) => if fd in p.table then Changed(p, fd, SetFde(p.table[fd], e)) else p
    case Add(fd, e) => if fd in p.table then Changed(p, fd, SetFde(p.table[fd], Union(p.Mask(fd), Wanted(e)))) else p
    case Del(fd, e) => if fd in p.table then Changed(p, fd, SetFde(p.table[fd], Minus(p.Mask(fd), Wanted(e)))) else p
    case Remove(fd) => Forget(Leave(p, fd), fd)
    case Signal(fd) =>
      if p.Mask(fd) == 0 then p else Signalled(p, fd, p.table[fd], p.Mask(fd))
    case Serve =>
      if p.queue == [] || p.queue[0] !in p.table then p
      else
        var f := p.table[p.queue[0]];
        Put(WithoutFirst(p), Fde(p.queue[0], ClearPending(f.state), 0))
  }

  function Run(p: Pool, ops: seq<Op>): Pool
    decreases |ops|
  {
    if ops == [] then p else Run(Apply(p, ops[0]), ops[1..])
  }

  lemma {:induction false} RunSnoc(p: Pool, ops: seq<Op>)
    requires ops != []
    ensures Run(p, ops) == Apply(Run(p, ops[..|ops| - 1]), ops[|ops| - 1])
    decreases |ops|
  {
    hide Apply;
    if |ops| > 1 {
      assert ops[..|ops| - 1][1..] == ops[1..][..|ops| - 2];
      RunSnoc(Apply(p, ops[0]), ops[1..]);
    }
  }

  /** Which descriptor a call hands out, if one. */
  function Handed(p: Pool, op: Op): seq<int> { if op == Serve && p.queue != [] then [p.queue[0]] else [] }

  /** Which descriptors a run serves, in order. */
  function Served(p: Pool, ops: seq<Op>): seq<int>
    decreases |ops|
  {
    if ops == [] then [] else Handed(p, ops[0]) + Served(Apply(p, ops[0]), ops[1..])
  }

  lemma {:induction false} ServedSnoc(p: Pool, ops: seq<Op>)
    requires ops != []
    ensures var k := |ops| - 1; Served(p, ops) == Served(p, ops[..k]) + Handed(Run(p, ops[..k]), ops[k])
    decreases |ops|
  {
    hide Apply, Handed;
    var k := |ops| - 1;
    if k > 0 {
      var a := Apply(p, ops[0]);
      assert ops[..k][1..] == ops[1..][..k - 1];
      ServedSnoc(a, ops[1..]);
      assert Handed(p, ops[0]) + (Served(a, ops[..k][1..]) + Handed(Run(p, ops[..k]), ops[k]))
          == Served(p, ops[..k]) + Handed(Run(p, ops[..k]), ops[k]);
    } else {
      assert ops[..0] == [] && ops[1..] == [];
    }
  }

  /** x waits, and y does not wait before it. */
  predicate Ahead(q: seq<int>, x: int, y: int) {
    q != [] && (q[0] == x || (q[0] != y && Ahead(q[1..], x, y)))
  }

  predicate Distinct(q: seq<int>) {
    forall i, j | 0 <= i < j < |q| :: q[i] != q[j]
  }

  lemma {:induction false} DropKeepsAhead(q: seq<int>, z: int, x: int, y: int)
    requires Ahead(q, x, y) && z != x
    ensures Ahead(Drop(q, z), x, y)
  {
    if q[0] != x && q[0] != z {
      DropKeepsAhead(q[1..], z, x, y);
    }
  }

  lemma {:induction false} Dropped(q: seq<int>, z: int)
    requires Distinct(q)
    ensures Distinct(Drop(q, z)) && z !in Drop(q, z)
  {
    if q != [] && q[0] != z {
      Dropped(q[1..], z);
      assert q[0] !in q[1..];
      var d := Drop(q[1..], z);
      assert forall k | 0 <= k < |d| :: d[k] in d;
    }
  }

  lemma {:induction false} BehindStaysBehind(q: seq<int>, z: int, x: int, y: int)
    requires Ahead(q, x, y)
    ensures Ahead(q + [z], x, y)
  {
    assert (q + [z])[1..] == q[1..] + [z];
    if q[0] != x { BehindStaysBehind(q[1..], z, x, y); }
  }

  /** One call keeps who is ahead of whom, as long as the first waits. */
  lemma ApplyKeepsAhead(p: Pool, op: Op, x: int, y: int)
    requires p.Valid() && Ahead(p.queue, x, y) && x in Apply(p, op).queue
    ensures Ahead(Apply(p, op).queue, x, y)
  {
    hide Drop, WithWanted, SetPending, ClearPending, Pending, Active, Wanted, Union, Minus;
    if op.Remove? || op.Set? || op.Add? || op.Del? {
      Dropped(p.queue, op.fd);
      if op.fd != x { DropKeepsAhead(p.queue, op.fd, x, y); }
    } else if op.Signal? {
      BehindStaysBehind(p.queue, op.fd, x, y);
    }
  }

  lemma MaskOnly(p: Pool, fd: int, f: Fde)
    requires p.Valid() && fd in p.table && f.fd == fd && Active(f.state)
    requires Pending(f.state) ==> fd in p.queue
    ensures Changed(p, fd, f).Valid()
  {
    hide Pending, Active, Drop;
    Dropped(p.queue, fd);
  }

  lemma SetFdeKeeps(f: Fde, events: Events)
    ensures SetFde(f, events).fd == f.fd
    ensures Active(SetFde(f, events).state) <==> Active(f.state)
    ensures Pending(SetFde(f, events).state) ==> Pending(f.state)
    ensures Wanted(SetFde(f, events).state) == Wanted(events)
  {
    var e := Wanted(events);
    WantedTwice(events);
    WantedOfWithWanted(f.state, e);
    PendingOfWithWanted(f.state, e);
    ActiveOfWithWanted(f.state, e);
    ClearPendingClears(WithWanted(f.state, e));
    ClearPendingWants(WithWanted(f.state, e));
    ClearPendingActive(WithWanted(f.state, e));
    hide Wanted, WithWanted, Pending, Active, ClearPending, Minus;
  }

  /** Every call keeps the pool in order, whatever it is called for. */
  lemma ApplyKeepsValid(p: Pool, op: Op)
    requires p.Valid()
    ensures Apply(p, op).Valid()
  {
    FreshState();
    hide Drop, WithWanted, SetPending, ClearPending, Pending, Active, Wanted, Union, Minus;
    match op
    case Install(fd) =>
    case Set(fd, e) => if fd in p.table { SetFdeKeeps(p.table[fd], e); MaskOnly(p, fd, SetFde(p.table[fd], e)); }
    case Add(fd, e) =>
      if fd in p.table {
        var all := Union(p.Mask(fd), Wanted(e));
        SetFdeKeeps(p.table[fd], all);
        MaskOnly(p, fd, SetFde(p.table[fd], all));
      }
    case Del(fd, e) =>
      if fd in p.table {
        var rest := Minus(p.Mask(fd), Wanted(e));
        SetFdeKeeps(p.table[fd], rest);
        MaskOnly(p, fd, SetFde(p.table[fd], rest));
      }
    case Remove(fd) => Dropped(p.queue, fd);
    case Signal(fd) =>
      if p.Mask(fd) != 0 { SignalKeepsValid(p, fd); }
    case Serve =>
      if p.queue != [] && p.queue[0] in p.table { ServeKeepsValid(p); }
  }

  lemma SignalKeepsValid(p: Pool, fd: int)
    requires p.Valid() && fd in p.table
    ensures Signalled(p, fd, p.table[fd], p.Mask(fd)).Valid()
  {
    SetPendingSets(p.table[fd].state);
    SetPendingActive(p.table[fd].state);
    hide SetPending, Pending, Active, Wanted, Union;
  }

  lemma ServeKeepsValid(p: Pool)
    requires p.Valid() && p.queue != [] && p.queue[0] in p.table
    ensures Apply(p, Serve).Valid()
  {
    ClearPendingClears(p.table[p.queue[0]].state);
    ClearPendingActive(p.table[p.queue[0]].state);
    hide ClearPending, Pending, Active;
  }

  /** Which events are wanted is changed by the calls for it alone, and only for their descriptor. */
  function MaskAfter(p: Pool, op: Op, fd: int): Events {
    if fd !in p.table then 0
    else
      match op
      case Set(d, e) => if d == fd then Wanted(e) else p.Mask(fd)
      case Add(d, e) => if d == fd then Wanted(Union(p.Mask(fd), Wanted(e))) else p.Mask(fd)
      case Del(d, e) => if d == fd then Wanted(Minus(p.Mask(fd), Wanted(e))) else p.Mask(fd)
      case Remove(d) => if d == fd then 0 else p.Mask(fd)
      case _ => p.Mask(fd)
  }

  lemma MaskOfSet(p: Pool, fd: int, events: Events)
    requires p.Valid() && fd in p.table
    ensures forall d: int ::
            Changed(p, fd, SetFde(p.table[fd], events)).Mask(d) == if d == fd then Wanted(events) else p.Mask(d)
  {
    SetFdeKeeps(p.table[fd], events);
    hide Drop, Pending, Active, Wanted, SetFde;
  }

  lemma MasksAfter(p: Pool, op: Op)
    requires p.Valid()
    ensures forall fd :: Apply(p, op).Mask(fd) == MaskAfter(p, op, fd)
  {
    FreshState();
    hide Drop, WithWanted, SetPending, ClearPending, Pending, Active, Wanted, Union, Minus, SetFde;
    match op
    case Set(fd, e) => if fd in p.table { MaskOfSet(p, fd, e); }
    case Add(fd, e) => if fd in p.table { MaskOfSet(p, fd, Union(p.Mask(fd), Wanted(e))); }
    case Del(fd, e) => if fd in p.table { MaskOfSet(p, fd, Minus(p.Mask(fd), Wanted(e))); }
    case Signal(fd) => if fd in p.table { SetPendingWants(p.table[fd].state); }
    case Serve => if p.queue != [] && p.queue[0] in p.table { ClearPendingWants(p.table[p.queue[0]].state); }
    case _ =>
  }

  lemma {:induction false} RunKeepsValid(p: Pool, ops: seq<Op>)
    requires p.Valid()
    ensures Run(p, ops).Valid()
    decreases |ops|
  {
    if ops != [] {
      ApplyKeepsValid(p, ops[0]);
      RunKeepsValid(Apply(p, ops[0]), ops[1..]);
    }
  }

  /** An fdevent that goes on waiting is not overtaken by one that was not pending before it. */
  lemma {:induction false} NeverOvertaken(p: Pool, ops: seq<Op>, x: int, y: int)
    requires p.Valid() && Ahead(p.queue, x, y)
    requires forall n | 0 <= n <= |ops| :: x in Run(p, ops[..n]).queue
    requires x != y
    ensures y !in Served(p, ops)
    decreases |ops|
  {
    if ops != [] {
      var a := Apply(p, ops[0]);
      assert ops[..1] == [ops[0]] && Run(p, ops[..1]) == a;
      ApplyKeepsValid(p, ops[0]);
      ApplyKeepsAhead(p, ops[0], x, y);
      forall n | 0 <= n <= |ops[1..]| ensures x in Run(a, ops[1..][..n]).queue {
        assert ops[..n + 1][1..] == ops[1..][..n];
      }
      NeverOvertaken(a, ops[1..], x, y);
    }
  }
}
