// frontend-chart/src/lib/wsClient.ts: the browser's end of the subscription protocol.

module WsClient {
  import opened HubSpec
  import opened Subscriptions
  import opened Resubscription

  datatype ReadyState = Connecting | Open | Closed

  class WebSocket {
    var readyState: ReadyState
    // Every message handed to send(), in order.
    var sent: seq<Msg>

    constructor ()
      ensures readyState == Connecting && sent == []
    {
      readyState, sent := Connecting, [];
    }

    method Send(m: Msg)
      modifies this
      ensures sent == old(sent) + [m] && readyState == old(readyState)
    {
      sent := sent + [m];
    }
  }

  /** Application callbacks, by name only. */
  type Callbacks = nat

  class WsClient {
    var ws: WebSocket?
    var timerArmed: bool
    var reconnectDelay: nat
    var destroyed: bool
    var activeSubs: seq<Sub>
    var subCallbacks: map<string, Callbacks>

    // The callbacks each subscription was last registered with.
    ghost var registered: map<Sub, Callbacks>

    ghost predicate Valid()
      reads this
    {
      && Matches(activeSubs, subCallbacks, registered)
      && 1000 <= reconnectDelay <= 10000
      && (destroyed ==> ws == null && !timerArmed)
    }

    predicate IsOpen()
      reads this, ws
    {
      ws != null && ws.readyState == Open
    }

    constructor ()
      ensures Valid() && ws == null && activeSubs == [] && !destroyed && reconnectDelay == 1000
    {
      ws, timerArmed, reconnectDelay, destroyed := null, false, 1000, false;
      activeSubs, subCallbacks, registered := [], map[], map[];
    }

    method Subscribe(s: Sub, callbacks: Callbacks)
      requires Valid()
      modifies `activeSubs, `subCallbacks, `registered, ws
      ensures Valid() && registered == old(registered)[s := callbacks]
      ensures activeSubs == AfterCall(old(activeSubs), Msg.Subscribe(s))
      ensures ws != null ==> ws.readyState == old(ws.readyState) &&
                             ws.sent == old(ws.sent) + if IsOpen() then [Msg.Subscribe(s)] else []
    {
      hide ClientKey, Matches, SetSub;
      MatchesAfterSet(activeSubs, subCallbacks, registered, s, callbacks);
      registered := registered[s := callbacks];
      activeSubs := SetSub(activeSubs, s);
      subCallbacks := subCallbacks[ClientKey(s) := callbacks];
      if IsOpen() {
        ws.Send(Msg.Subscribe(s));
      }
    }

    method Unsubscribe(s: Sub)
      requires Valid()
      modifies `activeSubs, `subCallbacks, ws
      ensures Valid()
      ensures activeSubs == AfterCall(old(activeSubs), Msg.Unsubscribe(s))
      ensures ws != null ==> ws.readyState == old(ws.readyState) &&
                             ws.sent == old(ws.sent) + if IsOpen() then [Msg.Unsubscribe(s)] else []
    {
      hide ClientKey, Matches, DeleteSub;
      MatchesAfterDelete(activeSubs, subCallbacks, registered, s);
      activeSubs := DeleteSub(activeSubs, s);
      subCallbacks := subCallbacks - {ClientKey(s)};
      if IsOpen() {
        ws.Send(Msg.Unsubscribe(s));
      }
    }

    /** Create a socket unless one is open or opening, or the client is destroyed. */
    method Connect()
      requires Valid()
      modifies this
      ensures Valid() && activeSubs == old(activeSubs) && registered == old(registered)
      ensures destroyed == old(destroyed) && timerArmed == old(timerArmed) && reconnectDelay == old(reconnectDelay)
      ensures if old(destroyed || (ws != null && ws.readyState != Closed)) then ws == old(ws)
              else ws != null && fresh(ws) && ws.readyState == Connecting && ws.sent == []
    {
      hide Matches;
      if destroyed {
        return;
      }
      if ws != null && (ws.readyState == Open || ws.readyState == Connecting) {
        return;
      }
      ws := new WebSocket();
    }

    /** The open event: the state changes, the connect callback makes its calls, and every active
        subscription is sent again. */
    method OnOpen(calls: seq<Msg>)
      requires Valid() && !destroyed && ws != null && ws.readyState == Connecting
      modifies `activeSubs, `subCallbacks, `registered, `reconnectDelay, ws
      ensures Valid() && ws.readyState == Open && reconnectDelay == 1000
      ensures activeSubs == AfterCalls(old(activeSubs), calls)
      ensures ws.sent == old(ws.sent) + calls + Resub(activeSubs)
    {
      hide Matches, AfterCalls, Resub;
      ws.readyState := Open;
      reconnectDelay := 1000;
      RunCalls(calls);
      ResubscribeAll();
    }

    method ResubscribeAll()
      requires IsOpen()
      modifies ws
      ensures ws.readyState == Open && ws.sent == old(ws.sent) + Resub(activeSubs)
    {
      for i := 0 to |activeSubs|
        invariant ws.readyState == Open && ws.sent == old(ws.sent) + Resub(activeSubs)[..i]
      {
        ws.Send(Msg.Subscribe(activeSubs[i]));
      }
      assert Resub(activeSubs)[..|activeSubs|] == Resub(activeSubs);
    }

    method RunCalls(calls: seq<Msg>)
      requires Valid() && IsOpen()
      modifies `activeSubs, `subCallbacks, `registered, ws
      ensures Valid() && ws.readyState == Open
      ensures activeSubs == AfterCalls(old(activeSubs), calls) && ws.sent == old(ws.sent) + calls
    {
      hide Matches, AfterCall;
      for i := 0 to |calls|
        invariant Valid() && ws.readyState == Open
        invariant activeSubs == AfterCalls(old(activeSubs), calls[..i]) && ws.sent == old(ws.sent) + calls[..i]
      {
        assert calls[..i + 1][..i] == calls[..i];
        match calls[i] {
          case Subscribe(s) => Subscribe(s, 0);
          case Unsubscribe(s) => Unsubscribe(s);
        }
      }
      assert calls[..|calls|] == calls;
    }

    /** The close event: forget the socket and arm the reconnect timer. */
    method OnClose()
      requires Valid()
      modifies this
      ensures Valid() && activeSubs == old(activeSubs) && registered == old(registered)
      ensures destroyed == old(destroyed) && reconnectDelay == old(reconnectDelay)
      ensures if destroyed then ws == old(ws) && timerArmed == old(timerArmed) else ws == null && timerArmed
    {
      hide Matches;
      if destroyed {
        return;
      }
      ws := null;
      timerArmed := true;
    }

    /** The reconnect timer: connect, then double the delay up to ten seconds. */
    method OnTimer()
      requires Valid() && timerArmed
      modifies this
      ensures Valid() && activeSubs == old(activeSubs) && registered == old(registered)
      ensures !timerArmed && destroyed == old(destroyed)
      ensures reconnectDelay == if old(reconnectDelay) * 2 < 10000 then old(reconnectDelay) * 2 else 10000
      ensures if old(ws != null && ws.readyState != Closed) then ws == old(ws)
              else ws != null && fresh(ws) && ws.readyState == Connecting && ws.sent == []
    {
      hide Matches;
      timerArmed := false;
      Connect();
      reconnectDelay := if reconnectDelay * 2 < 10000 then reconnectDelay * 2 else 10000;
    }

    method Destroy()
      requires Valid()
      modifies this
      ensures Valid() && destroyed && ws == null && !timerArmed
      ensures activeSubs == old(activeSubs) && registered == old(registered)
    {
      hide Matches;
      destroyed, timerArmed, ws := true, false, null;
    }

    /** Which callbacks a server update goes to. Colon-free markets and timeframes provided, it is
        delivered exactly when its four fields name an active subscription, and then to the callbacks
        that subscription was last registered with. */
    method Route(symbol: string, market: string, tf: string, compression: SubKeys.Uint32)
      returns (cb: Option<Callbacks>)
      requires Valid()
      ensures var s := Sub(symbol, market, tf, compression);
              AllClean(activeSubs) && Clean(s) ==>
                && (cb.Some? <==> s in activeSubs && symbol != "" && market != "" && tf != "" && compression != 0)
                && (cb.Some? ==> s in registered && cb.value == registered[s])
    {
      if symbol == "" || market == "" || tf == "" || compression == 0 {
        return None;
      }
      hide ClientKey;
      ghost var s := Sub(symbol, market, tf, compression);
      var key := ClientKey(Sub(symbol, market, tf, compression));
      if AllClean(activeSubs) && Clean(s) {
        IndexOfClean(activeSubs, s);
        KeyActive(activeSubs, s);
        assert s in activeSubs ==> HasCallbacks(subCallbacks, s, registered[s]);
      }
      cb := if key in subCallbacks then Some(subCallbacks[key]) else None;
    }
  }

  ghost function ClientKeys(subs: seq<Sub>): set<string> {
    set s | s in subs :: ClientKey(s)
  }

  /** The two maps of the client have the same keys, and each active subscription its own callbacks. */
  ghost predicate Matches(subs: seq<Sub>, callbacks: map<string, Callbacks>, registered: map<Sub, Callbacks>) {
    && DistinctKeys(subs)
    && callbacks.Keys == ClientKeys(subs)
    && forall i :: 0 <= i < |subs| ==> subs[i] in registered && HasCallbacks(callbacks, subs[i], registered[subs[i]])
  }

  ghost predicate HasCallbacks(callbacks: map<string, Callbacks>, s: Sub, cb: Callbacks) {
    ClientKey(s) in callbacks && callbacks[ClientKey(s)] == cb
  }

  lemma MatchesAfterSet(subs: seq<Sub>, callbacks: map<string, Callbacks>, registered: map<Sub, Callbacks>,
                        s: Sub, cb: Callbacks)
    requires Matches(subs, callbacks, registered)
    ensures Matches(SetSub(subs, s), callbacks[ClientKey(s) := cb], registered[s := cb])
  {
    hide ClientKey, DistinctKeys, ClientKeys;
    KeysAfterSet(subs, s);
    var out, at := SetSub(subs, s), IndexOf(subs, ClientKey(s));
    forall i | 0 <= i < |out|
      ensures out[i] in registered[s := cb]
      ensures HasCallbacks(callbacks[ClientKey(s) := cb], out[i], registered[s := cb][out[i]])
    {
      if out[i] != s {
        assert out[i] == subs[i] && i != at;
        OtherKey(subs, i, s);
      }
    }
  }

  lemma OtherKey(subs: seq<Sub>, i: nat, s: Sub)
    requires DistinctKeys(subs) && i < |subs| && i != IndexOf(subs, ClientKey(s))
    ensures ClientKey(subs[i]) != ClientKey(s)
  {
    hide ClientKey;
    var at := IndexOf(subs, ClientKey(s));
    if 0 <= at < i {
      assert ClientKey(subs[at]) != ClientKey(subs[i]);
    } else if i < at {
      assert ClientKey(subs[i]) != ClientKey(subs[at]);
    }
  }

  lemma MatchesAfterDelete(subs: seq<Sub>, callbacks: map<string, Callbacks>, registered: map<Sub, Callbacks>, s: Sub)
    requires Matches(subs, callbacks, registered)
    ensures Matches(DeleteSub(subs, s), callbacks - {ClientKey(s)}, registered)
  {
    hide ClientKey, DistinctKeys, ClientKeys, DeleteSub;
    KeysAfterDelete(subs, s);
    var out := DeleteSub(subs, s);
    forall i | 0 <= i < |out|
      ensures out[i] in registered && HasCallbacks(callbacks - {ClientKey(s)}, out[i], registered[out[i]])
    {
      var j := CameFrom(subs, s, i);
      OtherKey(subs, j, s);
    }
  }

  /** Where an entry stood before the deletion, and where one goes that is not deleted. */
  lemma CameFrom(subs: seq<Sub>, s: Sub, i: nat) returns (j: nat)
    requires i < |DeleteSub(subs, s)|
    ensures j < |subs| && j != IndexOf(subs, ClientKey(s)) && DeleteSub(subs, s)[i] == subs[j]
  {
    hide ClientKey;
    var at := IndexOf(subs, ClientKey(s));
    j := if at < 0 || i < at then i else i + 1;
  }

  lemma GoesTo(subs: seq<Sub>, s: Sub, j: nat) returns (i: nat)
    requires j < |subs| && j != IndexOf(subs, ClientKey(s))
    ensures i < |DeleteSub(subs, s)| && DeleteSub(subs, s)[i] == subs[j]
  {
    hide ClientKey;
    var at := IndexOf(subs, ClientKey(s));
    i := if at < 0 || j < at then j else j - 1;
  }

  lemma KeyActive(subs: seq<Sub>, s: Sub)
    requires IndexOf(subs, ClientKey(s)) >= 0 <==> s in subs
    ensures ClientKey(s) in ClientKeys(subs) <==> s in subs
  {
  }

  lemma KeysAfterSet(subs: seq<Sub>, s: Sub)
    requires DistinctKeys(subs)
    ensures DistinctKeys(SetSub(subs, s)) && ClientKeys(SetSub(subs, s)) == ClientKeys(subs) + {ClientKey(s)}
  {
    hide ClientKey;
    var i, out := IndexOf(subs, ClientKey(s)), SetSub(subs, s);
    forall k ensures k in ClientKeys(out) <==> k in ClientKeys(subs) + {ClientKey(s)} {
      if k in ClientKeys(subs) {
        var j :| 0 <= j < |subs| && ClientKey(subs[j]) == k;
        assert j != i ==> out[j] == subs[j];
        assert out[j] in out && ClientKey(out[j]) == k;
      }
      assert s == out[if i < 0 then |subs| else i] && s in out;
      if k in ClientKeys(out) {
        var j :| 0 <= j < |out| && ClientKey(out[j]) == k;
        assert j < |subs| && j != i ==> subs[j] in subs;
      }
    }
  }

  lemma KeysAfterDelete(subs: seq<Sub>, s: Sub)
    requires DistinctKeys(subs)
    ensures DistinctKeys(DeleteSub(subs, s)) && ClientKeys(DeleteSub(subs, s)) == ClientKeys(subs) - {ClientKey(s)}
  {
    hide ClientKey;
    StillDistinct(subs, s);
    hide DeleteSub;
    var out := DeleteSub(subs, s);
    forall k ensures k in ClientKeys(out) <==> k in ClientKeys(subs) - {ClientKey(s)} {
      if k in ClientKeys(subs) && k != ClientKey(s) {
        var t :| t in subs && ClientKey(t) == k;
        var j :| 0 <= j < |subs| && subs[j] == t;
        var i := GoesTo(subs, s, j);
        assert out[i] in out;
      }
      if k in ClientKeys(out) {
        var t :| t in out && ClientKey(t) == k;
        var i :| 0 <= i < |out| && out[i] == t;
        var j := CameFrom(subs, s, i);
        OtherKey(subs, j, s);
        assert subs[j] in subs;
      }
    }
  }

  lemma StillDistinct(subs: seq<Sub>, s: Sub)
    requires DistinctKeys(subs)
    ensures DistinctKeys(DeleteSub(subs, s))
  {
    hide ClientKey;
  }

  /** The update the hub sends for a subscribed key carries the fields that lead back to the callbacks
      of exactly that subscription. */
  lemma UpdateFindsItsSubscription(subs: seq<Sub>, s: Sub)
    requires AllClean(subs) && s in subs
    ensures var p := SubKeys.Parse(RawKey(s));
            p.Parsed? && ClientKey(Sub(p.symbol, p.market, p.tf, p.compression)) in ClientKeys(subs)
    ensures forall t :: t in subs && RawKey(t) == RawKey(s) ==> t == s
  {
    hide SubKeys.SubKey, SubKeys.Parse, ClientKey, Clean;
    CleanMember(subs, s);
    RoundTripOf(s);
    forall t | t in subs && RawKey(t) == RawKey(s) ensures t == s {
      CleanMember(subs, t);
      RawKeyInjective(t, s);
    }
  }

  lemma RoundTripOf(s: Sub)
    requires Clean(s)
    ensures SubKeys.Parse(RawKey(s)) == SubKeys.Parsed(s.market, s.symbol, s.tf, s.compression)
  {
    SubKeys.RoundTripIff(s.market, s.symbol, s.tf, s.compression);
  }
}
