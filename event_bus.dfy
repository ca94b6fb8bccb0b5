/** The client-side `EventBus` class (frontend/src/main.js): a dictionary
    from event name to the list of listeners registered for it. Callbacks are
    opaque; a listener is either a callback registered with `on`, or the
    wrapper closure `once` creates around a callback, which has an identity
    of its own. */
module EventBusModel {
  import opened Common
  import opened JsMaps

  /** An opaque callback supplied by a component. */
  type CallbackId = nat

  /** A registered listener: the callback itself, or the `onceCallback`
      closure made by one call of `once` (the token tells closures apart). */
  datatype Listener = Direct(callback: CallbackId) | OnceWrapper(token: nat, callback: CallbackId)

  /** The function `on` returns: calling it is `off(event, callback)`. */
  datatype Unsubscribe = Unsubscribe(event: string, callback: CallbackId)

  /** The callbacks that run when the listeners `ls` fire, in order. */
  function Targets(ls: seq<Listener>): (r: seq<CallbackId>)
    ensures |r| == |ls|
    ensures forall i :: 0 <= i < |ls| ==> r[i] == ls[i].callback
  {
    if ls == [] then [] else [ls[0].callback] + Targets(ls[1..])
  }

  /** `ls` with every `once` wrapper taken out, the rest in order. */
  function DropOnce(ls: seq<Listener>): seq<Listener>
    decreases |ls|
  {
    if ls == [] then []
    else
      var init, last := ls[..|ls| - 1], ls[|ls| - 1];
      assert ls == init + [last];
      DropOnce(init) + (if last.Direct? then [last] else [])
  }

  /** Filtering out the `once` wrappers keeps exactly the `Direct` listeners. */
  lemma {:induction false} DropOnceMembers(ls: seq<Listener>)
    ensures forall l :: l in DropOnce(ls) <==> l in ls && l.Direct?
    decreases |ls|
  {
    if ls != [] {
      var init, last := ls[..|ls| - 1], ls[|ls| - 1];
      assert ls == init + [last];
      DropOnceMembers(init);
    }
  }

  /** Every `once` wrapper is listed at most once. */
  ghost predicate OnceUnique(ls: seq<Listener>) {
    forall l :: l in ls && l.OnceWrapper? ==> multiset(ls)[l] == 1
  }

  /** Every `once` wrapper in `ls` was made before token `n` was handed out. */
  ghost predicate TokensBelow(ls: seq<Listener>, n: nat) {
    forall l :: l in ls && l.OnceWrapper? ==> l.token < n
  }

  /** `filter(cb => cb !== x)` takes out exactly the copies of `x`. */
  lemma {:induction false} WithoutCounts(s: seq<Listener>, x: Listener)
    ensures forall y :: multiset(Without(s, x))[y] == if y == x then 0 else multiset(s)[y]
    decreases |s|
  {
    if s != [] {
      WithoutCounts(s[1..], x);
      assert s == [s[0]] + s[1..];
    }
  }

  /** Filtering keeps a list of listeners well formed. */
  lemma WithoutKeepsUnique(s: seq<Listener>, x: Listener, n: nat)
    requires OnceUnique(s) && TokensBelow(s, n)
    ensures OnceUnique(Without(s, x)) && TokensBelow(Without(s, x), n)
  {
    WithoutCounts(s, x);
  }

  /** `off(event, cb)` never cancels a `once(event, cb)`: the wrapper is a
      different function from `cb`, so the filter keeps it. */
  lemma OffKeepsOnceWrappers(s: seq<Listener>, cb: CallbackId, token: nat)
    requires OnceWrapper(token, cb) in s
    ensures OnceWrapper(token, cb) in Without(s, Direct(cb))
  {
  }

  /** Walking one more listener of `snap` keeps it in the filtered prefix
      exactly when it is `Direct`. */
  lemma DropOnceStep(snap: seq<Listener>, i: nat)
    requires i < |snap|
    ensures DropOnce(snap[..i + 1]) == DropOnce(snap[..i]) + (if snap[i].Direct? then [snap[i]] else [])
  {
    assert snap[..i + 1][..i] == snap[..i];
  }

  /** A `Direct` listener firing leaves the live list as it is. The live
      list while the snapshot `snap` is walked, at position `i`, is the
      walked part without its `once` wrappers, then the rest. */
  lemma FireDirectStep(snap: seq<Listener>, i: nat)
    requires i < |snap| && snap[i].Direct?
    ensures DropOnce(snap[..i + 1]) + snap[i + 1..] == DropOnce(snap[..i]) + snap[i..]
  {
    DropOnceStep(snap, i);
    assert snap[i..] == [snap[i]] + snap[i + 1..];
  }

  /** A `once` wrapper listed once does not occur after its own position. */
  lemma OnceNotLater(snap: seq<Listener>, i: nat)
    requires i < |snap| && OnceUnique(snap) && snap[i].OnceWrapper?
    ensures snap[i] !in snap[i + 1..]
  {
    var x, rest := snap[i], snap[i + 1..];
    assert snap == snap[..i + 1] + rest;
    assert x in snap[..i + 1];
    assert multiset(snap)[x] == multiset(snap[..i + 1])[x] + multiset(rest)[x];
  }

  /** A `once` wrapper firing filters itself, its only copy, out of the live list. */
  lemma FireOnceStep(snap: seq<Listener>, i: nat)
    requires i < |snap| && OnceUnique(snap) && snap[i].OnceWrapper?
    ensures DropOnce(snap[..i + 1]) + snap[i + 1..] == Without(DropOnce(snap[..i]) + snap[i..], snap[i])
  {
    var x, pre, rest := snap[i], DropOnce(snap[..i]), snap[i + 1..];
    assert snap[i..] == [x] + rest;
    DropOnceStep(snap, i);
    assert DropOnce(snap[..i + 1]) == pre;
    OnceNotLater(snap, i);
    DropOnceMembers(snap[..i]);
    assert x !in pre;
    WithoutAppend(pre, [x] + rest, x);
    WithoutAppend([x], rest, x);
    assert Without(pre, x) == pre;
    assert Without(rest, x) == rest;
    assert Without([x], x) == [];
    assert Without([x] + rest, x) == rest;
  }

  /** `filter` distributes over concatenation. */
  lemma {:induction false} WithoutAppend(a: seq<Listener>, b: seq<Listener>, x: Listener)
    ensures Without(a + b, x) == Without(a, x) + Without(b, x)
    decreases |a|
  {
    if a != [] {
      WithoutAppend(a[1..], b, x);
      assert (a + b)[1..] == a[1..] + b;
    } else {
      assert a + b == b;
    }
  }

  class EventBus {
    /** `this.events`: event name -> listeners, in registration order. */
    var events: map<string, seq<Listener>>
    /** The identity the next `once` wrapper gets. */
    var nextToken: nat

    ghost predicate Valid()
      reads this
    {
      forall e :: e in events ==> OnceUnique(events[e]) && TokensBelow(events[e], nextToken)
    }

    /** The listeners of `event`, none when it has no entry. */
    function Listeners(event: string): seq<Listener>
      reads this
    {
      if event in events then events[event] else []
    }

    constructor ()
      ensures Valid()
      ensures events == map[] && nextToken == 0
    {
      events := map[];
      nextToken := 0;
    }

    /** `on(event, callback)`: appends the callback to the event's list,
        creating the list if absent, and returns the unsubscriber. */
    method On(event: string, callback: CallbackId) returns (unsubscribe: Unsubscribe)
      requires Valid()
      modifies this
      ensures Valid()
      ensures events == old(events)[event := old(Listeners(event)) + [Direct(callback)]]
      ensures nextToken == old(nextToken)
      ensures unsubscribe == Unsubscribe(event, callback)
    {
      var list := if event in events then events[event] else [];
      events := events[event := list + [Direct(callback)]];
      unsubscribe := Unsubscribe(event, callback);
    }

    /** `off(event, callback)`, where `callback` is None for a call without
        one: an unknown event is left alone; with a callback, every copy of
        it is filtered out and the rest keep their order; without one, the
        event's whole entry goes. */
    method Off(event: string, callback: Option<Listener>)
      requires Valid()
      modifies this
      ensures Valid()
      ensures nextToken == old(nextToken)
      ensures event !in old(events) ==> events == old(events)
      ensures event in old(events) && callback.Some? ==>
                events == old(events)[event := Without(old(events)[event], callback.value)]
      ensures event in old(events) && callback.None? ==> events == old(events) - {event}
    {
      if event !in events {
        return;
      }
      if callback.Some? {
        WithoutKeepsUnique(events[event], callback.value, nextToken);
        events := events[event := Without(events[event], callback.value)];
      } else {
        events := events - {event};
      }
    }

    /** Calling the function `on` returned. */
    method Call(unsubscribe: Unsubscribe)
      requires Valid()
      modifies this
      ensures Valid()
      ensures nextToken == old(nextToken)
      ensures var e, cb := unsubscribe.event, Direct(unsubscribe.callback);
              events == if e in old(events) then old(events)[e := Without(old(events)[e], cb)] else old(events)
    {
      Off(unsubscribe.event, Some(Direct(unsubscribe.callback)));
    }

    /** `once(event, callback)`: registers a fresh wrapper that runs the
        callback and then takes itself off the event. */
    method Once(event: string, callback: CallbackId)
      requires Valid()
      modifies this
      ensures Valid()
      ensures events == old(events)[event := old(Listeners(event)) + [OnceWrapper(old(nextToken), callback)]]
      ensures OnceWrapper(old(nextToken), callback) !in old(Listeners(event))
      ensures nextToken == old(nextToken) + 1
    {
      var wrapper := OnceWrapper(nextToken, callback);
      var list := if event in events then events[event] else [];
      events := events[event := list + [wrapper]];
      nextToken := nextToken + 1;
    }

    /** One turn of the `forEach` in `emit`: the listener at position `i` of
        the snapshot fires, and a `once` wrapper takes itself off. */
    method FireAt(event: string, snap: seq<Listener>, i: nat) returns (fired: Listener)
      requires Valid() && i < |snap| && OnceUnique(snap)
      requires event in events && events[event] == DropOnce(snap[..i]) + snap[i..]
      modifies this
      ensures Valid() && nextToken == old(nextToken)
      ensures events == old(events)[event := DropOnce(snap[..i + 1]) + snap[i + 1..]]
      ensures fired == snap[i]
    {
      fired := snap[i];
      if fired.OnceWrapper? {
        FireOnceStep(snap, i);
        Off(event, Some(fired));
      } else {
        FireDirectStep(snap, i);
        assert events == events[event := events[event]];
      }
    }

    /** `emit(event)`: the listeners registered when the call starts fire in
        registration order (the callbacks run are `Targets(fired)`); an
        unknown event fires nothing. Afterwards every `once` wrapper that
        fired is gone, so none of them can fire again. */
    method Emit(event: string) returns (fired: seq<Listener>)
      requires Valid()
      modifies this
      ensures Valid() && nextToken == old(nextToken)
      ensures fired == old(Listeners(event))
      ensures event !in old(events) ==> events == old(events)
      ensures event in old(events) ==> events == old(events)[event := DropOnce(old(events)[event])]
      ensures forall l :: l in fired && l.OnceWrapper? ==> l !in Listeners(event)
    {
      fired := [];
      if event !in events {
        return;
      }
      var snap := events[event];
      ghost var before := events;
      ghost var start := DropOnce(snap[..0]) + snap[0..];
      assert start == snap by {
        assert snap[..0] == [] && snap[0..] == snap;
        assert DropOnce(snap[..0]) == [];
      }
      assert events == before[event := start];
      var i := 0;
      while i < |snap|
        invariant 0 <= i <= |snap|
        invariant Valid() && nextToken == old(nextToken)
        invariant fired == snap[..i]
        invariant events == before[event := DropOnce(snap[..i]) + snap[i..]]
      {
        ghost var pre := events;
        var l := FireAt(event, snap, i);
        assert events == before[event := DropOnce(snap[..i + 1]) + snap[i + 1..]] by {
          assert events == pre[event := DropOnce(snap[..i + 1]) + snap[i + 1..]];
        }
        fired := fired + [l];
        assert snap[..i + 1] == snap[..i] + [l];
        i := i + 1;
      }
      assert snap[..|snap|] == snap && snap[|snap|..] == [];
      assert DropOnce(snap) + [] == DropOnce(snap);
      DropOnceMembers(snap);
    }
  }
}
