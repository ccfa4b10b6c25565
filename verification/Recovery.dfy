// The subscription protocol can always make progress: from any reachable state the browser can get back
// to an open connection on which the server holds exactly the active subscriptions, and nothing is in
// flight.

module Recovery {
  import opened HubSpec
  import opened Subscriptions
  import opened Resubscription
  import opened WsClient
  import opened Protocol

  lemma OneMoreStep(getConfig: GetConfig, actions: seq<Action>, s: System, a: Action)
    requires Reaches(getConfig, actions, s) && Enabled(getConfig, s, a)
    ensures Reaches(getConfig, actions + [a], Step(getConfig, s, a))
  {
    hide Enabled, Step;
    var all := actions + [a];
    assert all[..|all| - 1] == actions;
  }

  /** The open, registered connection of this browser. */
  ghost predicate Connected(s: System) {
    && s.socket.Socket? && s.socket.state == Open && s.socket.conn in s.hub.clients
    && s.socket.conn in s.wires && s.socket.conn in s.hub.keys
  }

  /** Nothing is in flight on it, and the server holds the active subscriptions. */
  ghost predicate Settled(s: System) {
    Connected(s) && s.wires[s.socket.conn] == [] && s.hub.keys[s.socket.conn] == ServerKeys(s.subs)
  }

  lemma DeliverOne(getConfig: GetConfig, actions: seq<Action>, s: System) returns (s': System)
    requires Reaches(getConfig, actions, s) && Connected(s) && s.wires[s.socket.conn] != []
    ensures Reaches(getConfig, actions + [Deliver(s.socket.conn)], s') && Connected(s')
    ensures s'.subs == s.subs && s'.socket == s.socket && |s'.wires[s.socket.conn]| == |s.wires[s.socket.conn]| - 1
  {
    hide Reaches, IndexOk, Handled, HandleKeys, KeysPrintBack;
    var c := s.socket.conn;
    AlwaysInv(getConfig, actions, s);
    HandledKeepsHub(getConfig, s.hub, c, s.wires[c][0]);
    OneMoreStep(getConfig, actions, s, Deliver(c));
    s' := Step(getConfig, s, Deliver(c));
  }

  /** Delivering what is in flight settles an open connection. */
  lemma {:induction false} Settles(getConfig: GetConfig, actions: seq<Action>, s: System)
    returns (more: seq<Action>, s': System)
    requires Reaches(getConfig, actions, s) && Connected(s)
    ensures Reaches(getConfig, actions + more, s') && Settled(s') && s'.subs == s.subs && s'.socket == s.socket
    ensures |more| == |s.wires[s.socket.conn]| && forall a :: a in more ==> a == Deliver(s.socket.conn)
    decreases |s.wires[s.socket.conn]|
  {
    hide Reaches, IndexOk, Handled, HandleKeys, Replay, ServerKeys;
    var c := s.socket.conn;
    if s.wires[c] == [] {
      more, s' := [], s;
      assert actions + [] == actions;
      OpenConnectionIsSynchronised(getConfig, actions, s);
      NothingInFlight(getConfig, s.hub.keys[c]);
    } else {
      var next := DeliverOne(getConfig, actions, s);
      var rest;
      rest, s' := Settles(getConfig, actions + [Deliver(c)], next);
      more := [Deliver(c)] + rest;
      assert actions + [Deliver(c)] + rest == actions + more;
    }
  }

  lemma NothingInFlight(getConfig: GetConfig, keys: set<string>)
    ensures Replay(getConfig, keys, []) == keys
  {
  }

  /** The socket is gone, whatever state it was in. */
  lemma LosesSocket(getConfig: GetConfig, actions: seq<Action>, s: System) returns (more: seq<Action>, s': System)
    requires Reaches(getConfig, actions, s)
    ensures Reaches(getConfig, actions + more, s') && s'.socket == NoSocket
    ensures s'.subs == s.subs && s'.destroyed == s.destroyed
  {
    hide Reaches;
    if s.socket == NoSocket {
      more, s' := [], s;
      assert actions + [] == actions;
    } else {
      OneMoreStep(getConfig, actions, s, SocketDies);
      var dead := Step(getConfig, s, SocketDies);
      OneMoreStep(getConfig, actions + [SocketDies], dead, CloseEvent);
      more, s' := [SocketDies, CloseEvent], Step(getConfig, dead, CloseEvent);
      assert actions + [SocketDies] + [CloseEvent] == actions + more;
    }
  }

  /** Connecting, being accepted and opening. */
  lemma Opens(getConfig: GetConfig, actions: seq<Action>, s: System) returns (s': System)
    requires Reaches(getConfig, actions, s) && s.socket == NoSocket && !s.destroyed
    ensures Reaches(getConfig, actions + [Connect, Accept(s.next), OpenEvent([])], s')
    ensures Connected(s') && s'.subs == s.subs && s'.wires[s'.socket.conn] == Resub(s.subs)
  {
    hide Reaches, IndexOk, Resub, Replay;
    var c := s.next;
    OneMoreStep(getConfig, actions, s, Connect);
    var asked := Step(getConfig, s, Connect);
    OneMoreStep(getConfig, actions + [Connect], asked, Accept(c));
    var accepted := Step(getConfig, asked, Accept(c));
    OneMoreStep(getConfig, actions + [Connect] + [Accept(c)], accepted, OpenEvent([]));
    s' := Step(getConfig, accepted, OpenEvent([]));
    assert actions + [Connect] + [Accept(c)] + [OpenEvent([])] == actions + [Connect, Accept(c), OpenEvent([])];
    assert [] + Resub(s.subs) == Resub(s.subs);
  }

  /** From every reachable state in which the client was not destroyed there is a way to an open connection
      that holds exactly the active subscriptions, with nothing in flight. */
  lemma AlwaysRecovers(getConfig: GetConfig, actions: seq<Action>, s: System) returns (more: seq<Action>, s': System)
    requires Reaches(getConfig, actions, s) && !s.destroyed
    ensures Reaches(getConfig, actions + more, s') && Settled(s') && s'.subs == s.subs
  {
    hide Reaches, Settled, Connected;
    var lose, alone := LosesSocket(getConfig, actions, s);
    var opening := [Connect, Accept(alone.next), OpenEvent([])];
    var up := Opens(getConfig, actions + lose, alone);
    var deliver;
    deliver, s' := Settles(getConfig, actions + lose + opening, up);
    more := lose + opening + deliver;
    assert actions + lose + opening + deliver == actions + more;
  }
}
