/** The event looper's hooks: at most one per handle, with the mask of the events wanted from it. */
module EventHooks {

  type Events = bv16

  datatype Hook = Hook(fh: int, wanted: Events)

  /** The position of the hook of a handle, or the end. */
  function Lookup(hooks: seq<Hook>, fh: int): (i: nat)
    ensures i <= |hooks| && (i < |hooks| ==> hooks[i].fh == fh)
    ensures forall j | 0 <= j < i :: hooks[j].fh != fh
  {
    if hooks == [] || hooks[0].fh == fh then 0 else 1 + Lookup(hooks[1..], fh)
  }

  function WantedFrom(hooks: seq<Hook>, fh: int): Events {
    var i := Lookup(hooks, fh);
    if i < |hooks| then hooks[i].wanted else 0
  }

  /** No handle has two hooks, and no hook wants nothing. */
  predicate Tidy(hooks: seq<Hook>) {
    && (forall i | 0 <= i < |hooks| :: hooks[i].wanted != 0)
    && (forall i, j | 0 <= i < j < |hooks| :: hooks[i].fh != hooks[j].fh)
  }

  function Union(a: Events, b: Events): Events { a | b }
  function Minus(a: Events, b: Events): Events { a & !b }
  function Common(a: Events, b: Events): Events { a & b }

  lemma UnionWithNone(b: Events)
    ensures Union(0, b) == b
  {
  }

  lemma UnionOfSome(a: Events, b: Events)
    requires b != 0
    ensures Union(a, b) != 0
  {
  }

  lemma UnionWithPart(a: Events, b: Events)
    requires Common(a, b) == b
    ensures Union(a, b) == a
  {
  }

  lemma MinusFromNone(b: Events)
    ensures Minus(0, b) == 0
  {
  }

  lemma MinusOfNone(a: Events, b: Events)
    requires Common(b, a) == 0
    ensures Minus(a, b) == a
  {
  }

  lemma MinusItself(a: Events)
    ensures Minus(a, a) == 0
  {
  }

  lemma MinusCommon(a: Events, b: Events)
    ensures Minus(a, Common(b, a)) == Minus(a, b)
  {
  }

  lemma Exchange(was: Events, now: Events)
    ensures Union(Minus(was, Minus(was, now)), Minus(now, was)) == now
  {
  }

  lemma OnlyAdded(was: Events, now: Events)
    requires Minus(was, now) == 0
    ensures Union(was, Minus(now, was)) == now
  {
  }

  lemma OnlyRemoved(was: Events, now: Events)
    requires Minus(now, was) == 0
    ensures Minus(was, Minus(was, now)) == now
  {
  }

  /** Taking away what is no longer wanted and adding what is newly wanted leaves what is wanted. */
  lemma Exchanged(was: Events, now: Events)
    requires was != now
    ensures var removes, adds := Minus(was, now), Minus(now, was);
            var left := if removes != 0 then Minus(was, removes) else was;
            (if adds != 0 then Union(left, adds) else left) == now
  {
    var removes, adds := Minus(was, now), Minus(now, was);
    Exchange(was, now);
    if removes == 0 { OnlyAdded(was, now); }
    if adds == 0 { OnlyRemoved(was, now); }
    hide Minus, Union;
    if removes == 0 && adds == 0 { UnionWithNone(now); SameEvents(was, now); }
  }

  lemma SameEvents(was: Events, now: Events)
    requires Minus(was, now) == 0 && Minus(now, was) == 0
    ensures was == now
  {
  }

  /** The hooks after events of a handle were added: its hook is changed, or one is put at the end. */
  function Hooked(hooks: seq<Hook>, fh: int, events: Events): seq<Hook> {
    var i := Lookup(hooks, fh);
    if i < |hooks| then hooks[i := Hook(fh, Union(hooks[i].wanted, events))] else hooks + [Hook(fh, events)]
  }

  /** The hooks after events of a handle were taken away: its hook goes when it wants nothing more. */
  function Unhooked(hooks: seq<Hook>, fh: int, events: Events): seq<Hook> {
    var i := Lookup(hooks, fh);
    if i == |hooks| then hooks
    else
      var left := Minus(hooks[i].wanted, events);
      if left == 0 then hooks[..i] + hooks[i + 1..] else hooks[i := Hook(fh, left)]
  }

  /** In tidy hooks, the mask of a handle says all about it. */
  lemma WantedIff(hooks: seq<Hook>, fh: int, w: Events)
    requires Tidy(hooks)
    ensures WantedFrom(hooks, fh) == w <==>
            if w == 0 then forall i | 0 <= i < |hooks| :: hooks[i].fh != fh else Hook(fh, w) in hooks
  {
    var i := Lookup(hooks, fh);
    if w != 0 && Hook(fh, w) in hooks {
      var j :| 0 <= j < |hooks| && hooks[j] == Hook(fh, w);
      assert i == j;
    }
  }

  lemma HookedIs(hooks: seq<Hook>, fh: int, events: Events)
    requires Tidy(hooks) && events != 0
    ensures Tidy(Hooked(hooks, fh, events))
    ensures WantedFrom(Hooked(hooks, fh, events), fh) == Union(WantedFrom(hooks, fh), events)
    ensures forall other | other != fh :: WantedFrom(Hooked(hooks, fh, events), other) == WantedFrom(hooks, other)
  {
    var i, now := Lookup(hooks, fh), Hooked(hooks, fh, events);
    UnionWithNone(events);
    UnionOfSome(WantedFrom(hooks, fh), events);
    hide Union, Lookup;
    assert now[i].fh == fh;
    assert Lookup(now, fh) == i;
    forall other | other != fh ensures WantedFrom(now, other) == WantedFrom(hooks, other) {
      SameLookup(hooks, now, other);
    }
  }

  lemma SameLookup(hooks: seq<Hook>, now: seq<Hook>, other: int)
    requires forall i | 0 <= i < |hooks| && hooks[i].fh == other :: i < |now| && now[i] == hooks[i]
    requires forall i | 0 <= i < |now| && now[i].fh == other :: i < |hooks| && now[i] == hooks[i]
    ensures WantedFrom(now, other) == WantedFrom(hooks, other)
  {
  }

  lemma UnhookedIs(hooks: seq<Hook>, fh: int, events: Events)
    requires Tidy(hooks)
    ensures Tidy(Unhooked(hooks, fh, events))
    ensures WantedFrom(Unhooked(hooks, fh, events), fh) == Minus(WantedFrom(hooks, fh), events)
    ensures forall other | other != fh :: WantedFrom(Unhooked(hooks, fh, events), other) == WantedFrom(hooks, other)
  {
    var i, now := Lookup(hooks, fh), Unhooked(hooks, fh, events);
    MinusFromNone(events);
    hide Minus, Lookup, Common;
    if i < |hooks| {
      if Minus(hooks[i].wanted, events) == 0 {
        Dropped(hooks, i);
      } else {
        assert now[i].fh == fh;
        assert Lookup(now, fh) == i;
        forall other | other != fh ensures WantedFrom(now, other) == WantedFrom(hooks, other) {
          SameLookup(hooks, now, other);
        }
      }
    }
  }

  lemma Dropped(hooks: seq<Hook>, i: nat)
    requires Tidy(hooks) && i < |hooks|
    ensures Tidy(hooks[..i] + hooks[i + 1..]) && WantedFrom(hooks[..i] + hooks[i + 1..], hooks[i].fh) == 0
    ensures forall other | other != hooks[i].fh ::
            WantedFrom(hooks[..i] + hooks[i + 1..], other) == WantedFrom(hooks, other)
  {
    var now := hooks[..i] + hooks[i + 1..];
    hide Lookup;
    assert forall j | 0 <= j < |now| :: now[j] == hooks[if j < i then j else j + 1];
    forall other | other != hooks[i].fh ensures WantedFrom(now, other) == WantedFrom(hooks, other) {
      var j, k := Lookup(hooks, other), Lookup(now, other);
      if j < |hooks| { assert now[if j < i then j else j - 1] == hooks[j]; }
    }
  }

  class EventLooper {
    var hooks: seq<Hook>

    constructor ()
      ensures hooks == []
    {
      hooks := [];
    }

    /** event_looper_find_p. */
    method FindP(fh: int) returns (i: nat)
      ensures i == Lookup(hooks, fh)
    {
      i := 0;
      while i < |hooks| && hooks[i].fh != fh
        invariant i <= |hooks| && forall j | 0 <= j < i :: hooks[j].fh != fh
      {
        i := i + 1;
      }
    }

    /** event_looper_hook for an open handle. */
    method HookEvents(fh: int, events: Events)
      modifies this
      ensures hooks == Hooked(old(hooks), fh, events)
    {
      var i := FindP(fh);
      hide Lookup;
      if i == |hooks| {
        hooks := hooks + [Hook(fh, 0)];
      }
      UnionWithNone(events);
      hide Union, Common;
      if Common(hooks[i].wanted, events) != events {
        hooks := hooks[i := hooks[i].(wanted := Union(hooks[i].wanted, events))];
      } else {
        UnionWithPart(hooks[i].wanted, events);
      }
    }

    /** event_looper_unhook. */
    method UnhookEvents(fh: int, events: Events)
      modifies this
      ensures Tidy(old(hooks)) ==> hooks == Unhooked(old(hooks), fh, events)
    {
      var i := FindP(fh);
      hide Lookup;
      if i < |hooks| {
        var events2 := Common(events, hooks[i].wanted);
        MinusCommon(hooks[i].wanted, events);
        hide Minus, Common;
        if events2 == 0 {
          MinusOfNone(hooks[i].wanted, events);
          return;
        }
        hooks := hooks[i := hooks[i].(wanted := Minus(hooks[i].wanted, events2))];
        if hooks[i].wanted == 0 {
          hooks := hooks[..i] + hooks[i + 1..];
        }
      }
    }

    /** fdevent_update: events were wanted from a handle, now others are. */
    method Update(fh: int, wanted: Events, events: Events)
      requires Tidy(hooks) && WantedFrom(hooks, fh) == wanted
      modifies this
      ensures Tidy(hooks) && WantedFrom(hooks, fh) == events
      ensures forall other | other != fh :: WantedFrom(hooks, other) == WantedFrom(old(hooks), other)
    {
      if events != wanted {
        var removes, adds := Minus(wanted, events), Minus(events, wanted);
        hide *;
        Exchanged(wanted, events);
        if removes != 0 {
          UnhookedIs(hooks, fh, removes);
          UnhookEvents(fh, removes);
        }
        if adds != 0 {
          HookedIs(hooks, fh, adds);
          HookEvents(fh, adds);
        }
      }
    }
  }
}
