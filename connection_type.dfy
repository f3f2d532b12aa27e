/** `ConnectionTypeStore`: the drawing style of relation connections, with
    subscribers notified on every change. Callbacks are identified by a
    number; a notification is the pair (callback, type) it was called with. */
module ConnectionTypes {
  datatype ConnectionType = SmoothStep | Bezier

  type Callback = nat

  /** The calls one notification round makes: each subscriber once, in
      subscription order, with the new type. */
  function Notifications(subscribers: seq<Callback>, t: ConnectionType): (r: seq<(Callback, ConnectionType)>)
    ensures |r| == |subscribers|
    ensures forall i :: 0 <= i < |r| ==> r[i] == (subscribers[i], t)
  {
    if subscribers == [] then [] else [(subscribers[0], t)] + Notifications(subscribers[1..], t)
  }

  /** `subscribers.filter(cb => cb !== callback)`. */
  function Unsubscribed(subscribers: seq<Callback>, cb: Callback): (r: seq<Callback>)
    ensures cb !in r
    ensures forall c :: c != cb ==> (c in r <==> c in subscribers)
    ensures |r| <= |subscribers|
  {
    if subscribers == [] then []
    else if subscribers[0] == cb then Unsubscribed(subscribers[1..], cb)
    else [subscribers[0]] + Unsubscribed(subscribers[1..], cb)
  }

  /** Unsubscribing keeps the other callbacks in their order: a callback
      that is not removed stays ahead of every callback it preceded. */
  lemma {:induction false} UnsubscribeKeepsOrder(subscribers: seq<Callback>, cb: Callback, i: nat, j: nat)
    requires i < j < |subscribers|
    requires subscribers[i] != cb && subscribers[j] != cb
    ensures exists i', j' ::
      && 0 <= i' < j' < |Unsubscribed(subscribers, cb)|
      && Unsubscribed(subscribers, cb)[i'] == subscribers[i]
      && Unsubscribed(subscribers, cb)[j'] == subscribers[j]
  {
    var r := Unsubscribed(subscribers, cb);
    var tail := Unsubscribed(subscribers[1..], cb);
    if i == 0 {
      assert subscribers[j] == subscribers[1..][j - 1];
      assert subscribers[j] in subscribers[1..];
      var j'' :| 0 <= j'' < |tail| && tail[j''] == subscribers[j];
      assert r == [subscribers[0]] + tail;
      assert r[0] == subscribers[i] && r[j'' + 1] == subscribers[j];
    } else {
      UnsubscribeKeepsOrder(subscribers[1..], cb, i - 1, j - 1);
      var i'', j'' :| 0 <= i'' < j'' < |tail| && tail[i''] == subscribers[1..][i - 1] && tail[j''] == subscribers[1..][j - 1];
      if subscribers[0] == cb {
        assert r == tail;
      } else {
        assert r == [subscribers[0]] + tail;
        assert r[i'' + 1] == subscribers[i] && r[j'' + 1] == subscribers[j];
      }
    }
  }

  class ConnectionTypeStore {
    var connectionType: ConnectionType
    var subscribers: seq<Callback>
    /** Every callback invocation so far, oldest first. */
    var calls: seq<(Callback, ConnectionType)>

    constructor ()
      ensures connectionType == Bezier && subscribers == [] && calls == []
    {
      connectionType := Bezier;
      subscribers := [];
      calls := [];
    }

    method GetConnectionType() returns (t: ConnectionType)
      ensures t == connectionType
    {
      t := connectionType;
    }

    /** Store a different type and notify; the current type changes nothing. */
    method SetConnectionType(t: ConnectionType)
      modifies this
      ensures connectionType == t && subscribers == old(subscribers)
      ensures calls == if old(connectionType) == t then old(calls) else old(calls) + Notifications(subscribers, t)
    {
      if connectionType != t {
        connectionType := t;
        NotifySubscribers();
      }
    }

    /** The `forEach` over the subscribers. */
    method NotifySubscribers()
      modifies this
      ensures connectionType == old(connectionType) && subscribers == old(subscribers)
      ensures calls == old(calls) + Notifications(subscribers, connectionType)
    {
      var i := 0;
      while i < |subscribers|
        invariant 0 <= i <= |subscribers|
        invariant connectionType == old(connectionType) && subscribers == old(subscribers)
        invariant calls == old(calls) + Notifications(subscribers[..i], connectionType)
      {
        assert Notifications(subscribers[..i + 1], connectionType) ==
               Notifications(subscribers[..i], connectionType) + [(subscribers[i], connectionType)];
        calls := calls + [(subscribers[i], connectionType)];
        i := i + 1;
      }
      assert subscribers[..|subscribers|] == subscribers;
    }

    method Subscribe(cb: Callback)
      modifies this
      ensures subscribers == old(subscribers) + [cb]
      ensures connectionType == old(connectionType) && calls == old(calls)
    {
      subscribers := subscribers + [cb];
    }

    /** The function `subscribe` returns, when called. */
    method Unsubscribe(cb: Callback)
      modifies this
      ensures subscribers == Unsubscribed(old(subscribers), cb)
      ensures connectionType == old(connectionType) && calls == old(calls)
    {
      subscribers := Unsubscribed(subscribers, cb);
    }
  }
}
