/** The fdevent calls on the heap: the pending list is an intrusive ring of the fdevents themselves. */
module FdLooper {
  import opened IntrusiveList
  import opened EventHooks
  import opened FdEvent

  type Node = ListNode<Fde>

  /** The descriptors of nodes, in order. */
  ghost function Fds(nodes: seq<Node>): (fds: seq<int>)
    reads nodes`item
    ensures |fds| == |nodes|
    ensures forall i | 0 <= i < |nodes| :: fds[i] == nodes[i].item.fd
  {
    if nodes == [] then [] else [nodes[0].item.fd] + Fds(nodes[1..])
  }

  ghost function Items(t: map<int, Node>): (m: map<int, Fde>)
    reads t.Values`item
    ensures m.Keys == t.Keys
    ensures forall fd | fd in t :: m[fd] == t[fd].item
  {
    map fd | fd in t :: t[fd].item
  }

  /** The descriptors of the nodes behind the first. */
  ghost function Waiting(ring: seq<Node>): (fds: seq<int>)
    reads ring`item
    ensures |fds| == if ring == [] then 0 else |ring| - 1
    ensures forall i | 0 <= i < |fds| :: fds[i] == ring[i + 1].item.fd
  {
    if ring == [] then [] else Fds(ring[1..])
  }

  class Looper {
    const looper: EventLooper
    const listPending: Node
    var fdTable: map<int, Node>
    ghost var ring: seq<Node>

    ghost function State(): Pool
      reads this`fdTable, this`ring, fdTable.Values`item, ring`item
    {
      Pool(Items(fdTable), Waiting(ring))
    }

    ghost predicate Installed(fde: Node)
      reads this`fdTable, fde`item
    {
      fde.item.fd in fdTable && fdTable[fde.item.fd] == fde
    }

    ghost predicate OnRing()
      reads this`ring, ring`next, ring`prev
    {
      IsRing(ring) && ring[0] == listPending
    }

    /** The table holds every fdevent under its descriptor. */
    ghost predicate Filed()
      reads this`fdTable, fdTable.Values`item
    {
      forall fd | fd in fdTable :: fdTable[fd] != listPending && fdTable[fd].item.fd == fd
    }

    /** The nodes behind the list head are installed. */
    ghost predicate Known(r: seq<Node>)
      reads this`fdTable, r`item
    {
      forall i | 0 < i < |r| :: Installed(r[i])
    }

    /** The nodes: a ring of installed fdevents behind the list head. */
    ghost predicate Nodes()
      reads this`ring, this`fdTable, ring, fdTable.Values`item
    {
      OnRing() && Filed() && Known(ring)
    }

    /** Every handle's hook wants what its fdevent wants; there is no hook where nothing is wanted. */
    ghost predicate HooksAgree()
      reads this`ring, this`fdTable, ring`item, fdTable.Values`item, looper
    {
      && Tidy(looper.hooks)
      && forall fd: int :: WantedFrom(looper.hooks, fd) == State().Mask(fd)
    }

    ghost predicate Valid()
      reads this, looper, ring, fdTable.Values
    {
      Nodes() && State().Valid() && HooksAgree()
    }

    constructor ()
      ensures Valid() && State() == Pool(map[], []) && fdTable == map[] && fresh(looper) && fresh(listPending)
    {
      looper := new EventLooper();
      listPending := new ListNode(Fde(0, 0, 0));
      fdTable := map[];
      new;
      ring := [listPending];
    }

    /** fdevent_plist_enqueue. */
    method PlistEnqueue(node: Node)
      requires OnRing() && node !in ring
      modifies this`ring, ring`next, ring`prev, node`next, node`prev
      ensures OnRing() && ring == old(ring) + [node]
    {
      ListAddTail(listPending, node, ring, |ring| - 1);
      ghost var r := WithAfter(ring, |ring| - 1, node);
      assert r == ring + [node];
      ring := r;
    }

    /** fdevent_plist_remove. */
    method PlistRemove(node: Node, ghost i: nat)
      requires OnRing() && 0 < i < |ring| && ring[i] == node
      modifies this`ring, ring`next, ring`prev
      ensures OnRing() && ring == Without(old(ring), i) && node !in ring && node.next == null && node.prev == null
    {
      ListRemove(node, ring, i);
      ring := Without(ring, i);
      node.next := null;
      node.prev := null;
    }

    /** fdevent_plist_dequeue. */
    method PlistDequeue() returns (node: ListNode?<Fde>)
      requires OnRing()
      modifies this`ring, ring`next, ring`prev
      ensures OnRing()
      ensures |old(ring)| == 1 ==> node == null && ring == old(ring)
      ensures |old(ring)| > 1 ==> node == old(ring[1]) && ring == Without(old(ring), 1) && node !in ring
    {
      assert Linked(ring, 0);
      node := listPending.next;
      assert |ring| > 1 ==> Differ(ring, 0, 1);
      if node == listPending {
        return null;
      }
      PlistRemove(node, 1);
    }

    /** An installed fdevent is on the ring exactly if its descriptor is in the queue. */
    lemma OnRingIffQueued(fde: Node)
      requires Nodes() && Installed(fde) && fde != listPending
      ensures fde in ring <==> fde.item.fd in State().queue
    {
      var q := Waiting(ring);
      if fde in ring {
        var i :| 0 <= i < |ring| && ring[i] == fde;
        assert q[i - 1] == fde.item.fd;
      }
      if fde.item.fd in q {
        var i :| 0 <= i < |q| && q[i] == fde.item.fd;
        assert Installed(ring[i + 1]);
      }
    }

    /** An fdevent is on the pending list exactly if its state says so. */
    lemma PendingIffOnRing(fd: int)
      requires Nodes() && State().Valid() && fd in fdTable
      ensures FdEvent.Pending(fdTable[fd].item.state) <==> fdTable[fd] in ring
    {
      OnRingIffQueued(fdTable[fd]);
    }

    /** An installed fdevent's state and events are assigned. */
    method Assign(fde: Node, f: Fde)
      requires Nodes() && Installed(fde) && f.fd == fde.item.fd
      modifies fde`item
      ensures Nodes() && Installed(fde) && fde.item == f
      ensures State() == Put(old(State()), f)
    {
      hide IsRing, Items, Waiting;
      ghost var was := Items(fdTable);
      ghost var q := Waiting(ring);
      assert forall fd | fd in fdTable && fd != f.fd :: fdTable[fd] != fde;
      fde.item := f;
      assert Items(fdTable) == was[f.fd := f];
      assert Waiting(ring) == q;
    }

    method Enqueue(fde: Node)
      requires Nodes() && Installed(fde) && fde !in ring
      modifies this`ring, ring`next, ring`prev, fde`next, fde`prev
      ensures Nodes() && Installed(fde) && ring == old(ring) + [fde]
      ensures State() == Join(old(State()), fde.item.fd)
    {
      assert ring != [];
      hide IsRing, Items, Waiting, Filed;
      ghost var was, q := Items(fdTable), Waiting(ring);
      PlistEnqueue(fde);
      assert Items(fdTable) == was;
      assert Waiting(ring) == q + [fde.item.fd];
    }

    lemma FdsWithout(r: seq<Node>, i: nat)
      requires 0 < i < |r| && Distinct(Waiting(r)) && Known(r)
      ensures Waiting(Without(r, i)) == Drop(Waiting(r), r[i].item.fd) && Known(Without(r, i))
    {
      DropAt(Waiting(r), i - 1);
      WaitingWithout(r, i);
      hide Drop, Distinct, Waiting;
    }

    lemma WaitingWithout(r: seq<Node>, i: nat)
      requires 0 < i < |r|
      ensures Waiting(Without(r, i)) == Waiting(r)[..i - 1] + Waiting(r)[i..]
    {
      hide Fds, Waiting;
    }

    method Unlink(fde: Node)
      requires Nodes() && Installed(fde) && fde in ring && fde != listPending && Distinct(State().queue)
      modifies this`ring, ring`next, ring`prev
      ensures Nodes() && Installed(fde) && fde !in ring
      ensures State() == Leave(old(State()), fde.item.fd)
    {
      ghost var i :| 0 <= i < |ring| && ring[i] == fde;
      assert i > 0;
      hide *;
      UnlinkAt(fde, i);
    }

    method UnlinkAt(fde: Node, ghost i: nat)
      requires Nodes() && Installed(fde) && 0 < i < |ring| && ring[i] == fde && Distinct(State().queue)
      modifies this`ring, ring`next, ring`prev
      ensures Nodes() && Installed(fde) && fde !in ring
      ensures State() == Leave(old(State()), fde.item.fd)
    {
      FdsWithout(ring, i);
      hide OnRing, IsRing, Items, Waiting, Drop, Filed, Known, Without;
      PlistRemove(fde, i);
    }

    /** A wanted event of an fdevent happened: it becomes pending, behind those that already are. */
    method MakePending(fde: Node, wanted: Events)
      requires Nodes() && Installed(fde) && fde != listPending
      requires FdEvent.Pending(fde.item.state) <==> fde in ring
      modifies this`ring, ring`next, ring`prev, fde
      ensures Nodes() && fde.item.fd == old(fde.item.fd)
      ensures State() == Signalled(old(State()), fde.item.fd, old(fde.item), wanted)
    {
      ghost var p, f := State(), fde.item;
      SignalledIs(p, f, wanted);
      hide *;
      if !FdEvent.Pending(fde.item.state) {
        Assign(fde, fde.item.(state := SetPending(fde.item.state)));
        ghost var g := fde.item;
        Enqueue(fde);
        Assign(fde, fde.item.(events := Union(fde.item.events, wanted)));
        PutAndQueue(p, g, fde.item);
      } else {
        Assign(fde, fde.item.(events := Union(fde.item.events, wanted)));
      }
    }

    lemma SignalledIs(p: Pool, f: Fde, wanted: Events)
      ensures Signalled(p, f.fd, f, wanted) ==
              if FdEvent.Pending(f.state) then Put(p, f.(events := Union(f.events, wanted)))
              else Join(Put(p, f.(state := SetPending(f.state), events := Union(f.events, wanted))), f.fd)
    {
    }

    /** The calls keep all in order: what is left to see is that the nodes and the hooks follow them. */
    lemma Follows(p: Pool, op: Op)
      requires p.Valid() && Nodes() && State() == Apply(p, op)
      requires Tidy(looper.hooks) && forall d: int :: WantedFrom(looper.hooks, d) == MaskAfter(p, op, d)
      ensures Valid()
    {
      ApplyKeepsValid(p, op);
      MasksAfter(p, op);
      hide *;
      assert HooksAgree();
    }

    lemma HookOf(fd: int, i: nat)
      requires Valid() && i == Lookup(looper.hooks, fd)
      ensures Nodes() && State().Valid() && Tidy(looper.hooks)
      ensures forall d: int :: WantedFrom(looper.hooks, d) == MaskAfter(State(), Signal(fd), d)
      ensures i == |looper.hooks| ==> Apply(State(), Signal(fd)) == State()
      ensures i < |looper.hooks| ==>
                && fd in fdTable && Installed(fdTable[fd]) && fdTable[fd] != listPending && fdTable[fd].item.fd == fd
                && (FdEvent.Pending(fdTable[fd].item.state) <==> fdTable[fd] in ring)
                && Apply(State(), Signal(fd)) == Signalled(State(), fd, fdTable[fd].item, looper.hooks[i].wanted)
    {
      assert WantedFrom(looper.hooks, fd) == State().Mask(fd);
      hide FdEvent.Pending, FdEvent.Active, FdEvent.Wanted, SetPending, Union, OnRing, Items, Waiting, Pool.Valid,
           Signalled;
      if i < |looper.hooks| {
        PendingIffOnRing(fd);
      }
    }

    /** event_hook_signal, for the hook of a handle, if it has one. */
    method EventHookSignal(fd: int)
      requires Valid()
      modifies this`ring, ring, fdTable.Values
      ensures Valid() && State() == Apply(old(State()), Signal(fd))
    {
      hide *;
      var i := looper.FindP(fd);
      HookOf(fd, i);
      ghost var p := State();
      if i == |looper.hooks| { return; }
      MakePending(fdTable[fd], looper.hooks[i].wanted);
      Follows(p, Signal(fd));
    }

    lemma Facts(fde: Node)
      requires Valid() && Installed(fde)
      ensures Nodes() && State().Valid() && Distinct(State().queue) && fde != listPending
      ensures Tidy(looper.hooks) && forall d: int :: WantedFrom(looper.hooks, d) == State().Mask(d)
      ensures fde.item.fd in State().table && State().table[fde.item.fd] == fde.item
      ensures WantedFrom(looper.hooks, fde.item.fd) == FdEvent.Wanted(fde.item.state)
      ensures Active(fde.item.state)
      ensures FdEvent.Pending(fde.item.state) <==> fde in ring
      ensures FdEvent.Pending(fde.item.state) <==> fde.item.fd in State().queue
    {
      assert WantedFrom(looper.hooks, fde.item.fd) == State().Mask(fde.item.fd);
      PendingIffOnRing(fde.item.fd);
    }

    /** Of what is pending only what is no longer wanted is kept; if that is nothing, the fdevent does
        not wait any more. */
    method KeepUnwanted(fde: Node, events: Events)
      requires Nodes() && Installed(fde) && fde != listPending && Distinct(State().queue) && fde in ring
      modifies this`ring, ring`next, ring`prev, fde
      ensures Nodes()
      ensures var left := Minus(old(fde.item.events), events);
              fde.item == old(fde.item).(
                state := if left == 0 then ClearPending(old(fde.item.state)) else old(fde.item.state), events := left)
      ensures State() ==
              if fde.item.events == 0 then Leave(Put(old(State()), fde.item), fde.item.fd)
              else Put(old(State()), fde.item)
    {
      ghost var p := State();
      hide *;
      Assign(fde, fde.item.(events := Minus(fde.item.events, events)));
      if fde.item.events == 0 {
        Unlink(fde);
        ghost var f := fde.item;
        Assign(fde, fde.item.(state := ClearPending(fde.item.state)));
        PutAndQueue(p, f, fde.item);
      }
    }

    /** The end of fdevent_set. */
    method StoreMask(fde: Node, events: Events)
      requires Nodes() && Installed(fde) && fde != listPending && Distinct(State().queue)
      requires events == FdEvent.Wanted(events) && FdEvent.Wanted(fde.item.state) != events
      requires FdEvent.Pending(fde.item.state) <==> fde in ring
      requires FdEvent.Pending(fde.item.state) <==> fde.item.fd in State().queue
      modifies this`ring, ring`next, ring`prev, fde
      ensures Nodes()
      ensures State() == Changed(old(State()), old(fde.item.fd), SetFde(old(fde.item), events))
    {
      ghost var p, f := State(), fde.item;
      PendingOfWithWanted(f.state, events);
      SetFdeAndQueue(p, f, events);
      hide *;
      Assign(fde, fde.item.(state := WithWanted(fde.item.state, events)));
      ghost var g := fde.item;
      if FdEvent.Pending(fde.item.state) {
        KeepUnwanted(fde, events);
        PutTwice(p, g, fde.item);
      }
    }

    lemma SetFdeAndQueue(p: Pool, f: Fde, events: Events)
      requires events == FdEvent.Wanted(events) && FdEvent.Wanted(f.state) != events
      requires FdEvent.Pending(f.state) <==> f.fd in p.queue
      ensures var s, left := WithWanted(f.state, events), Minus(f.events, events);
              Changed(p, f.fd, SetFde(f, events)) ==
              if !FdEvent.Pending(s) then Put(p, f.(state := s))
              else if left == 0 then Leave(Put(p, f.(state := ClearPending(s), events := left)), f.fd)
              else Put(p, f.(state := s, events := left))
    {
      var s := WithWanted(f.state, events);
      PendingOfWithWanted(f.state, events);
      ClearPendingClears(s);
      hide FdEvent.Pending, WithWanted, ClearPending, Minus, Drop;
    }

    lemma AfterSet(fde: Node, events: Events)
      requires Valid() && Installed(fde)
      ensures Apply(State(), Set(fde.item.fd, events)) ==
              Changed(State(), fde.item.fd, SetFde(fde.item, FdEvent.Wanted(events)))
      ensures FdEvent.Wanted(fde.item.state) == FdEvent.Wanted(events) ==>
              Apply(State(), Set(fde.item.fd, events)) == State()
    {
      Facts(fde);
      WantedTwice(events);
      ghost var p := State();
      hide FdEvent.Pending, FdEvent.Wanted, Minus, WithWanted, ClearPending, Drop, Items, Waiting, OnRing, Filed,
           Known, HooksAgree, Pool.Valid;
      assert p.table[fde.item.fd := fde.item] == p.table;
    }

    lemma MaskAfterSet(p: Pool, fd: int, events: Events)
      requires fd in p.table
      ensures forall d: int :: MaskAfter(p, Set(fd, events), d) == if d == fd then FdEvent.Wanted(events) else p.Mask(d)
    {
    }

    /** Another mask, for the hook and for the fdevent. */
    method Exchange(fde: Node, events: Events)
      requires Nodes() && Installed(fde) && fde != listPending && Distinct(State().queue)
      requires events == FdEvent.Wanted(events) && FdEvent.Wanted(fde.item.state) != events && Active(fde.item.state)
      requires FdEvent.Pending(fde.item.state) <==> fde in ring
      requires FdEvent.Pending(fde.item.state) <==> fde.item.fd in State().queue
      requires Tidy(looper.hooks) && WantedFrom(looper.hooks, fde.item.fd) == FdEvent.Wanted(fde.item.state)
      modifies this`ring, ring`next, ring`prev, fde, looper
      ensures Nodes() && State() == Changed(old(State()), old(fde.item.fd), SetFde(old(fde.item), events))
      ensures Tidy(looper.hooks) && WantedFrom(looper.hooks, old(fde.item.fd)) == events
      ensures forall d: int | d != old(fde.item.fd) :: WantedFrom(looper.hooks, d) == WantedFrom(old(looper.hooks), d)
    {
      hide *;
      if Active(fde.item.state) {
        looper.Update(fde.item.fd, FdEvent.Wanted(fde.item.state), events);
      }
      StoreMask(fde, events);
    }

    /** fdevent_set. */
    method FdeventSet(fde: Node, events: Events)
      requires Valid() && Installed(fde)
      modifies this`ring, ring, fde, looper
      ensures Valid() && State() == Apply(old(State()), Set(old(fde.item.fd), events))
    {
      hide *;
      var e := FdEvent.Wanted(events);
      Facts(fde);
      AfterSet(fde, events);
      MaskAfterSet(State(), fde.item.fd, events);
      WantedTwice(events);
      ghost var p, op := State(), Set(fde.item.fd, events);
      if FdEvent.Wanted(fde.item.state) == e { return; }
      Exchange(fde, e);
      Follows(p, op);
    }

    /** Adding and taking away set the mask that comes of it. */
    lemma AddAndDelSet(fde: Node, events: Events)
      requires Valid() && Installed(fde)
      ensures var fd, e, w := fde.item.fd, FdEvent.Wanted(events), FdEvent.Wanted(fde.item.state);
              && Apply(State(), Add(fd, events)) == Apply(State(), Set(fd, Union(w, e)))
              && Apply(State(), Del(fd, events)) == Apply(State(), Set(fd, Minus(w, e)))
    {
      Facts(fde);
      hide Valid, FdEvent.Wanted, Union, Minus, SetFde, Changed;
    }

    /** fdevent_add. */
    method FdeventAdd(fde: Node, events: Events)
      requires Valid() && Installed(fde)
      modifies this`ring, ring, fde, looper
      ensures Valid() && State() == Apply(old(State()), Add(old(fde.item.fd), events))
    {
      AddAndDelSet(fde, events);
      hide *;
      FdeventSet(fde, Union(FdEvent.Wanted(fde.item.state), FdEvent.Wanted(events)));
    }

    /** fdevent_del. */
    method FdeventDel(fde: Node, events: Events)
      requires Valid() && Installed(fde)
      modifies this`ring, ring, fde, looper
      ensures Valid() && State() == Apply(old(State()), Del(old(fde.item.fd), events))
    {
      AddAndDelSet(fde, events);
      hide *;
      FdeventSet(fde, Minus(FdEvent.Wanted(fde.item.state), FdEvent.Wanted(events)));
    }

    /** fdevent_unregister, but for closing the handle. */
    method Unregister(fde: Node)
      requires Nodes() && Installed(fde) && fde !in ring
      modifies this`fdTable
      ensures Nodes() && State() == Forget(old(State()), fde.item.fd)
      ensures fde !in fdTable.Values && fdTable == old(fdTable) - {fde.item.fd}
    {
      hide OnRing, Waiting;
      ghost var was := Items(fdTable);
      fdTable := fdTable - {fde.item.fd};
      assert forall d | d in fdTable :: fdTable[d].item.fd == d;
      assert forall i | 0 < i < |ring| :: Installed(ring[i]);
      assert Items(fdTable) == was - {fde.item.fd};
    }

    /** fdevent_register, for a descriptor that is free. */
    method Register(fde: Node)
      requires Nodes() && fde.item.fd !in fdTable && fde != listPending
      modifies this`fdTable
      ensures Nodes() && fdTable == old(fdTable)[fde.item.fd := fde] && State() == Put(old(State()), fde.item)
    {
      hide OnRing, Waiting;
      ghost var was := Items(fdTable);
      fdTable := fdTable[fde.item.fd := fde];
      assert Items(fdTable) == was[fde.item.fd := fde.item];
    }

    lemma AfterRemove(fde: Node)
      requires Valid() && Installed(fde)
      ensures forall d: int | d != fde.item.fd ::
              WantedFrom(looper.hooks, d) == MaskAfter(State(), Remove(fde.item.fd), d)
      ensures MaskAfter(State(), Remove(fde.item.fd), fde.item.fd) == 0
      ensures fde !in ring ==> Leave(State(), fde.item.fd) == State()
      ensures Apply(State(), Remove(fde.item.fd)) == Forget(Leave(State(), fde.item.fd), fde.item.fd)
    {
      Facts(fde);
    }

    /** fdevent_disconnect. */
    method Disconnect(fd: int, events: Events)
      requires Tidy(looper.hooks) && WantedFrom(looper.hooks, fd) == events
      modifies looper
      ensures Tidy(looper.hooks) && WantedFrom(looper.hooks, fd) == 0
      ensures forall d: int | d != fd :: WantedFrom(looper.hooks, d) == WantedFrom(old(looper.hooks), d)
    {
      UnhookedIs(looper.hooks, fd, events);
      MinusItself(events);
      hide *;
      if events != 0 {
        looper.UnhookEvents(fd, events);
      }
    }

    method Detach(fde: Node) returns (closes: bool)
      requires Nodes() && Installed(fde) && fde !in ring && Tidy(looper.hooks)
      requires WantedFrom(looper.hooks, fde.item.fd) == FdEvent.Wanted(fde.item.state)
      modifies this`fdTable, looper
      ensures Nodes() && State() == Forget(old(State()), fde.item.fd) && fde !in fdTable.Values
      ensures fdTable == old(fdTable) - {fde.item.fd}
      ensures Tidy(looper.hooks) && WantedFrom(looper.hooks, fde.item.fd) == 0
      ensures forall d: int | d != fde.item.fd :: WantedFrom(looper.hooks, d) == WantedFrom(old(looper.hooks), d)
      ensures closes <==> Common(fde.item.state, FDE_DONT_CLOSE) == 0
    {
      hide *;
      Disconnect(fde.item.fd, FdEvent.Wanted(fde.item.state));
      Unregister(fde);
      closes := Common(fde.item.state, FDE_DONT_CLOSE) == 0;
    }

    /** An fdevent leaves ring, hooks and table. */
    method Part(fde: Node) returns (closes: bool)
      requires Nodes() && Installed(fde) && fde != listPending && Distinct(State().queue) && Tidy(looper.hooks)
      requires FdEvent.Pending(fde.item.state) <==> fde in ring
      requires WantedFrom(looper.hooks, fde.item.fd) == FdEvent.Wanted(fde.item.state) && Active(fde.item.state)
      requires fde !in ring ==> Leave(State(), fde.item.fd) == State()
      modifies this, ring`next, ring`prev, looper
      ensures Nodes() && State() == Forget(Leave(old(State()), fde.item.fd), fde.item.fd)
      ensures fde !in fdTable.Values && fde !in ring && fdTable == old(fdTable) - {fde.item.fd}
      ensures Tidy(looper.hooks) && WantedFrom(looper.hooks, fde.item.fd) == 0
      ensures forall d: int | d != fde.item.fd :: WantedFrom(looper.hooks, d) == WantedFrom(old(looper.hooks), d)
      ensures closes <==> Common(fde.item.state, FDE_DONT_CLOSE) == 0
    {
      hide *;
      if FdEvent.Pending(fde.item.state) {
        Unlink(fde);
      }
      closes := false;
      if Active(fde.item.state) {
        closes := Detach(fde);
      }
    }

    /** fdevent_remove. It tells whether the handle is closed: not if the mask says so. */
    method FdeventRemove(fde: Node) returns (closes: bool)
      requires Valid() && Installed(fde)
      modifies this, ring, fde, looper
      ensures Valid() && State() == Apply(old(State()), Remove(old(fde.item.fd)))
      ensures fde !in fdTable.Values && fde !in ring && fde.item == Fde(old(fde.item.fd), 0, 0)
      ensures fdTable == old(fdTable) - {fde.item.fd}
      ensures closes <==> Common(old(fde.item.state), 0x0080) == 0
    {
      hide *;
      DontCloseIs();
      Facts(fde);
      AfterRemove(fde);
      ghost var p, fd := State(), fde.item.fd;
      closes := Part(fde);
      Follows(p, Remove(fd));
      Clear(fde);
    }

    lemma DontCloseIs()
      ensures FDE_DONT_CLOSE == 0x0080
    {
    }

    method Clear(fde: Node)
      requires Valid() && fde !in fdTable.Values && fde !in ring
      modifies fde`item
      ensures Valid() && State() == old(State()) && fde.item == Fde(old(fde.item.fd), 0, 0)
    {
      hide *;
      fde.item := fde.item.(state := 0, events := 0);
    }

    lemma AfterInstall(fd: int)
      requires Valid() && fd !in fdTable
      ensures Nodes() && State().Valid() && Tidy(looper.hooks)
      ensures forall d: int :: WantedFrom(looper.hooks, d) == MaskAfter(State(), Install(fd), d)
      ensures Apply(State(), Install(fd)) == Put(State(), Fde(fd, FDE_ACTIVE, 0))
    {
      hide Items, Waiting, OnRing, Put;
    }

    /** fdevent_install for a free descriptor: a new fdevent wants nothing, so there is nothing to hook. */
    method FdeventInstall(fde: Node, fd: int)
      requires Valid() && fde !in ring && fde !in fdTable.Values && fd !in fdTable
      modifies this`fdTable, fde
      ensures Valid() && State() == Apply(old(State()), Install(fd))
      ensures Installed(fde) && fde.item.fd == fd && fdTable == old(fdTable)[fd := fde]
    {
      AfterInstall(fd);
      ghost var p := State();
      assert fde != listPending;
      hide *;
      Activate(fde, fd);
      Register(fde);
      Follows(p, Install(fd));
    }

    method Activate(fde: Node, fd: int)
      requires Nodes() && fde !in fdTable.Values && fde !in ring
      modifies fde
      ensures Nodes() && State() == old(State()) && fde.item == Fde(fd, FDE_ACTIVE, 0)
    {
      hide *;
      fde.next, fde.prev := null, null;
      fde.item := Fde(fd, FDE_ACTIVE, 0);
    }

    /** The fdevent that waits longest is taken off the ring. */
    method TakeFirst() returns (fde: ListNode?<Fde>)
      requires Nodes()
      modifies this`ring, ring`next, ring`prev
      ensures Nodes()
      ensures fde == null <==> old(State()).queue == []
      ensures fde == null ==> State() == old(State())
      ensures fde != null ==>
                && Installed(fde) && fde in old(ring) && fde !in ring && fde.item.fd == old(State()).queue[0]
                && State() == WithoutFirst(old(State()))
    {
      assert ring != [];
      hide IsRing, Items;
      ghost var p := State();
      fde := PlistDequeue();
      if fde != null { assert Waiting(ring) == p.queue[1..]; }
    }

    lemma AfterServe(p: Pool)
      requires p.Valid()
      ensures p.queue == [] ==> Apply(p, Serve) == p
      ensures p.queue != [] ==> p.queue[0] in p.table && p.table[p.queue[0]].fd == p.queue[0]
      ensures p.queue != [] ==>
              Apply(p, Serve) == Put(WithoutFirst(p), Fde(p.queue[0], ClearPending(p.table[p.queue[0]].state), 0))
      ensures forall d: int :: MaskAfter(p, Serve, d) == p.Mask(d)
    {
      if p.queue != [] {
        var fd := p.queue[0];
        assert fd in p.queue && fd in p.table;
      }
    }

    lemma ItemIs(fde: Node)
      requires Installed(fde)
      ensures fde.item.fd in State().table && State().table[fde.item.fd] == fde.item
    {
    }

    lemma Agreed()
      requires Valid()
      ensures Nodes() && State().Valid() && Tidy(looper.hooks)
      ensures forall d: int :: WantedFrom(looper.hooks, d) == State().Mask(d)
    {
    }

    /** One round of fdevent_loop: the fdevent that waits longest is taken off and its events are
        handed out. */
    method ServeOne() returns (fde: ListNode?<Fde>, events: Events)
      requires Valid()
      modifies this`ring, ring
      ensures Valid() && State() == Apply(old(State()), Serve)
      ensures fde == null <==> old(State()).queue == []
      ensures fde != null ==> fde.item.fd == old(State()).queue[0] && fde !in ring
      ensures fde != null ==> fde.item.fd in old(State()).table && events == old(State()).table[fde.item.fd].events
    {
      hide *;
      ghost var p := State();
      Agreed();
      AfterServe(p);
      fde := TakeFirst();
      events := 0;
      if fde != null {
        ItemIs(fde);
        events := fde.item.events;
        Assign(fde, Fde(fde.item.fd, ClearPending(fde.item.state), 0));
      }
      Follows(p, Serve);
    }

    /** A handle has exactly one hook if its fdevent wants something, for just that, and else none. */
    lemma HookIff(fd: int, w: Events)
      requires Valid()
      ensures Hook(fd, w) in looper.hooks <==> w != 0 && fd in fdTable && FdEvent.Wanted(fdTable[fd].item.state) == w
      ensures forall i, j | 0 <= i < j < |looper.hooks| :: looper.hooks[i].fh != looper.hooks[j].fh
    {
      assert WantedFrom(looper.hooks, fd) == State().Mask(fd);
      WantedIff(looper.hooks, fd, w);
      hide FdEvent.Wanted, Pool.Valid, OnRing, Known, Waiting;
    }

    /** An installed fdevent that is marked pending is on the ring once; no other is on it. */
    lemma OnceOnRingIff(fd: int)
      requires Valid() && fd in fdTable
      ensures FdEvent.Pending(fdTable[fd].item.state) <==> exists i: nat :: 0 < i < |ring| && ring[i] == fdTable[fd]
      ensures forall i: nat, j: nat | i < |ring| && j < |ring| && i != j :: ring[i] != ring[j]
    {
      PendingIffOnRing(fd);
      hide Pool.Valid, HooksAgree, Items, Waiting;
      forall i: nat, j: nat | i < |ring| && j < |ring| && i != j ensures ring[i] != ring[j] {
        assert Differ(ring, i, j);
      }
    }

    lemma NotMade(op: Op)
      requires Valid()
      ensures (op.Set? || op.Add? || op.Del? || op.Remove?) && op.fd !in fdTable ==> Apply(State(), op) == State()
      ensures op.Install? && op.fd in fdTable ==> Apply(State(), op) == State()
      ensures forall fd | fd in fdTable :: Installed(fdTable[fd]) && fdTable[fd].item.fd == fd
    {
      hide Items, SetFde, SetPending, ClearPending, Signalled, Changed;
      if op.Remove? && op.fd !in fdTable { assert op.fd !in State().queue; }
    }

    ghost function Repr(): set<object>
      reads this`fdTable
    {
      {this, looper, listPending} + fdTable.Values
    }

    lemma RingInRepr()
      requires Valid()
      ensures forall node | node in ring :: node in Repr()
    {
      forall node | node in ring ensures node in Repr() {
        var i :| 0 <= i < |ring| && ring[i] == node;
        if i > 0 { assert Installed(ring[i]); }
      }
    }

    /** One call for a descriptor. */
    method Perform(op: Op) returns (handed: seq<int>)
      requires Valid()
      modifies this, looper, ring, fdTable.Values
      ensures Valid() && State() == Apply(old(State()), op) && handed == Handed(old(State()), op)
      ensures forall node | node in fdTable.Values :: node in old(fdTable.Values) || fresh(node)
    {
      handed := [];
      HandsOut(State(), op);
      hide *;
      NotMade(op);
      match op {
        case Install(fd) =>
          if fd !in fdTable {
            var fde := new ListNode(Fde(0, 0, 0));
            FdeventInstall(fde, fd);
          }
        case Set(fd, events) => if fd in fdTable { FdeventSet(fdTable[fd], events); }
        case Add(fd, events) => if fd in fdTable { FdeventAdd(fdTable[fd], events); }
        case Del(fd, events) => if fd in fdTable { FdeventDel(fdTable[fd], events); }
        case Remove(fd) => if fd in fdTable { var _ := FdeventRemove(fdTable[fd]); }
        case Signal(fd) => EventHookSignal(fd);
        case Serve =>
          var fde, _ := ServeOne();
          if fde != null { handed := [fde.item.fd]; }
      }
    }
  }

  /** The same, with the objects a looper owns as its footprint. */
  method PerformOwn(looper: Looper, op: Op) returns (handed: seq<int>)
    requires looper.Valid()
    modifies looper.Repr()
    ensures looper.Valid() && looper.State() == Apply(old(looper.State()), op)
    ensures handed == Handed(old(looper.State()), op)
    ensures fresh(looper.Repr() - old(looper.Repr()))
  {
    hide Apply, Looper.State, Looper.Valid;
    looper.RingInRepr();
    handed := looper.Perform(op);
  }

  lemma HandsOut(p: Pool, op: Op)
    ensures op != Serve ==> Handed(p, op) == []
    ensures op == Serve ==> Handed(p, op) == if p.queue == [] then [] else [p.queue[0]]
  {
  }

  /** After any sequence of calls, the looper is in order: a handle has one hook, wanting what its
      fdevent wants, or none if that is nothing; an fdevent is on the pending ring, once, exactly if it
      is marked pending; and they are served in the order they wait in. */
  method Replay(ops: seq<Op>) returns (looper: Looper, served: seq<int>)
    ensures fresh(looper.Repr()) && looper.Valid() && looper.State() == Run(Pool(map[], []), ops)
    ensures served == FdEvent.Served(Pool(map[], []), ops)
    decreases |ops|
  {
    hide Apply, Looper.State, Looper.Valid;
    if ops == [] {
      looper := new Looper();
      served := [];
    } else {
      RunSnoc(Pool(map[], []), ops);
      ServedSnoc(Pool(map[], []), ops);
      looper, served := Replay(ops[..|ops| - 1]);
      var handed := PerformOwn(looper, ops[|ops| - 1]);
      served := served + handed;
    }
  }
}
