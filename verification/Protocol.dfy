// The subscription protocol as a whole: one browser client (wsClient.ts), its connections, each a FIFO
// channel that may be cut at any time, and the server's hub (hub.go, client.go), shared with any
// number of other connections that do anything.

module Protocol {
  import opened HubSpec
  import opened Subscriptions
  import opened Resubscription
  import opened WsClient

  /** Identity of a connection; every new connection gets the next number. */
  type Conn = nat

  datatype Socket = NoSocket | Socket(conn: Conn, state: ReadyState)

  /** `wires` holds, per connection of this browser that the server still reads, the messages sent and
      not yet processed. `pending` are connections the server has not accepted yet, `mine` all that
      this browser created. */
  datatype System = System(subs: seq<Sub>, socket: Socket, destroyed: bool,
                           hub: View<Conn>, wires: map<Conn, seq<Msg>>,
                           mine: set<Conn>, pending: set<Conn>, next: Conn)

  datatype Action =
    | Call(call: Msg)                     // the application subscribes or unsubscribes
    | Connect                             // connect(), also from the reconnect timer
    | Accept(conn: Conn)                  // the server registers a new connection
    | OpenEvent(calls: seq<Msg>)          // open handler; calls are those of the connect callback
    | Deliver(conn: Conn)                 // the server processes the oldest message of a connection
    | ServerDrop(conn: Conn)              // the server stops reading: unregister, lose what is in flight
    | SocketDies                          // the browser's socket changes to closed
    | CloseEvent                          // close handler
    | Destroy
    | OtherRegisters                      // a foreign connection
    | OtherSends(conn: Conn, msg: Msg)
    | OtherDrops(conn: Conn)

  ghost function Initial(): System {
    System([], NoSocket, false, View({}, map[], map[]), map[], {}, {}, 0)
  }

  ghost predicate Enabled(getConfig: GetConfig, s: System, a: Action) {
    match a
    case Call(call) => ProperCall(getConfig, s.subs, call)
    case Connect => true
    case Accept(c) => c in s.pending
    case OpenEvent(calls) =>
      && s.socket.Socket? && s.socket.state == Connecting && s.socket.conn !in s.pending && !s.destroyed
      && ProperCalls(getConfig, s.subs, calls)
    case Deliver(c) => c in s.wires && s.wires[c] != [] && c in s.hub.keys
    case ServerDrop(c) => c in s.mine && c in s.hub.clients
    case SocketDies => s.socket.Socket?
    case CloseEvent => s.socket.Socket? && s.socket.state == Closed
    case Destroy => true
    case OtherRegisters => true
    case OtherSends(c, msg) => c in s.hub.clients && c in s.hub.keys && c !in s.mine
    case OtherDrops(c) => c in s.hub.clients && c !in s.mine
  }

  /** Messages on the open socket reach the wire while the server reads it and vanish otherwise. */
  ghost function Sent(s: System, msgs: seq<Msg>): map<Conn, seq<Msg>> {
    if s.socket.Socket? && s.socket.state == Open && s.socket.conn in s.wires
    then s.wires[s.socket.conn := s.wires[s.socket.conn] + msgs]
    else s.wires
  }

  ghost function Step(getConfig: GetConfig, s: System, a: Action): System
    requires Enabled(getConfig, s, a)
  {
    match a
    case Call(call) => s.(subs := AfterCall(s.subs, call), wires := Sent(s, [call]))
    case Connect =>
      if s.destroyed || (s.socket.Socket? && s.socket.state != Closed) then s
      else s.(socket := Socket(s.next, Connecting), mine := s.mine + {s.next},
              pending := s.pending + {s.next}, next := s.next + 1)
    case Accept(c) =>
      s.(hub := Registered(s.hub, c), wires := s.wires[c := []], pending := s.pending - {c})
    case OpenEvent(calls) =>
      var up := s.(socket := Socket(s.socket.conn, Open), subs := AfterCalls(s.subs, calls));
      up.(wires := Sent(up, calls + Resub(up.subs)))
    case Deliver(c) =>
      s.(hub := Handled(getConfig, s.hub, c, s.wires[c][0]), wires := s.wires[c := s.wires[c][1..]])
    case ServerDrop(c) => s.(hub := Unregistered(s.hub, c), wires := s.wires - {c})
    case SocketDies => s.(socket := Socket(s.socket.conn, Closed))
    case CloseEvent => s.(socket := NoSocket)
    case Destroy => s.(socket := NoSocket, destroyed := true)
    case OtherRegisters => s.(hub := Registered(s.hub, s.next), next := s.next + 1)
    case OtherSends(c, msg) => s.(hub := Handled(getConfig, s.hub, c, msg))
    case OtherDrops(c) => s.(hub := Unregistered(s.hub, c))
  }

  // ----- the invariant -----

  ghost predicate Bookkeeping(getConfig: GetConfig, s: System) {
    && HubOk(getConfig, s.hub)
    && s.wires.Keys == s.hub.clients * s.mine
    && s.pending <= s.mine && s.pending !! s.hub.clients
    && (forall c :: c in s.hub.clients || c in s.mine ==> c < s.next)
    && (s.socket.Socket? ==> s.socket.conn in s.mine)
    && (s.socket.Socket? && s.socket.state == Open ==> s.socket.conn !in s.pending)
  }

  /** What the server will hold for connection c once it has processed everything in flight. */
  ghost function Eventually(getConfig: GetConfig, s: System, c: Conn): set<string>
    requires c in s.wires && c in s.hub.keys
  {
    Replay(getConfig, s.hub.keys[c], s.wires[c])
  }

  ghost predicate Synchronised(getConfig: GetConfig, s: System) {
    s.socket.Socket? && s.socket.conn in s.wires && s.socket.conn in s.hub.keys ==>
      match s.socket.state
      case Connecting => s.hub.keys[s.socket.conn] == {} && s.wires[s.socket.conn] == []
      case Open => Eventually(getConfig, s, s.socket.conn) == ServerKeys(s.subs)
      case Closed => true
  }

  ghost predicate Inv(getConfig: GetConfig, s: System) {
    Bookkeeping(getConfig, s) && Proper(getConfig, s.subs) && Synchronised(getConfig, s)
  }

  lemma InitialInv(getConfig: GetConfig)
    ensures Inv(getConfig, Initial())
  {
  }

  // ----- every step keeps it -----

  lemma StepKeepsBookkeeping(getConfig: GetConfig, s: System, a: Action)
    requires Bookkeeping(getConfig, s) && Enabled(getConfig, s, a)
    ensures Bookkeeping(getConfig, Step(getConfig, s, a))
  {
    hide HubOk, ProperCall, ProperCalls, Handled, AfterCall, AfterCalls, Registered, Unregistered;
    match a {
      case Accept(c) => RegisteredShape(getConfig, s.hub, c);
      case Deliver(c) => HandledKeepsHub(getConfig, s.hub, c, s.wires[c][0]);
      case ServerDrop(c) => UnregisteredShape(getConfig, s.hub, c);
      case OtherRegisters => RegisteredShape(getConfig, s.hub, s.next);
      case OtherSends(c, msg) => HandledKeepsHub(getConfig, s.hub, c, msg);
      case OtherDrops(c) => UnregisteredShape(getConfig, s.hub, c);
      case _ =>
    }
  }

  lemma RegisteredShape(getConfig: GetConfig, v: View<Conn>, c: Conn)
    requires HubOk(getConfig, v) && c !in v.clients
    ensures HubOk(getConfig, Registered(v, c)) && Registered(v, c).clients == v.clients + {c}
    ensures Registered(v, c).keys == v.keys[c := {}]
  {
    hide HubOk;
    RegisteredKeepsHub(getConfig, v, c);
  }

  lemma UnregisteredShape(getConfig: GetConfig, v: View<Conn>, c: Conn)
    requires HubOk(getConfig, v)
    ensures HubOk(getConfig, Unregistered(v, c)) && Unregistered(v, c).clients == v.clients - {c}
    ensures Unregistered(v, c).keys == v.keys - {c}
  {
    hide HubOk;
    UnregisteredKeepsHub(getConfig, v, c);
  }

  lemma CallStep(getConfig: GetConfig, s: System, call: Msg)
    requires Inv(getConfig, s) && Enabled(getConfig, s, Call(call))
    ensures Proper(getConfig, Step(getConfig, s, Call(call)).subs)
    ensures Synchronised(getConfig, Step(getConfig, s, Call(call)))
  {
    hide Bookkeeping, Proper, ProperCall, HandleKeys, Replay, ServerKeys, AfterCall;
    CallKeepsProper(getConfig, s.subs, call);
    var s' := Step(getConfig, s, Call(call));
    if s.socket.Socket? && s.socket.state == Open && s.socket.conn in s.wires && s.socket.conn in s.hub.keys {
      var c := s.socket.conn;
      CallKeepsSync(getConfig, s.subs, call);
      ReplayAppend(getConfig, s.hub.keys[c], s.wires[c], call);
    }
  }

  lemma OpenStep(getConfig: GetConfig, s: System, calls: seq<Msg>)
    requires Inv(getConfig, s) && Enabled(getConfig, s, OpenEvent(calls))
    ensures Proper(getConfig, Step(getConfig, s, OpenEvent(calls)).subs)
    ensures Synchronised(getConfig, Step(getConfig, s, OpenEvent(calls)))
  {
    hide Bookkeeping, Proper, ProperCalls, Replay, ServerKeys, AfterCalls, Resub;
    OpenRestores(getConfig, s.subs, calls);
    var msgs := calls + Resub(AfterCalls(s.subs, calls));
    assert [] + msgs == msgs;
  }

  lemma DeliverStep(getConfig: GetConfig, s: System, c: Conn)
    requires Inv(getConfig, s) && Enabled(getConfig, s, Deliver(c))
    ensures Synchronised(getConfig, Step(getConfig, s, Deliver(c)))
  {
    hide HubOk, Proper, Handled, HandleKeys, ServerKeys, Replay;
    HandledKeepsHub(getConfig, s.hub, c, s.wires[c][0]);
    ReplayHead(getConfig, s.hub.keys[c], s.wires[c]);
  }

  lemma OtherStep(getConfig: GetConfig, s: System, a: Action)
    requires Inv(getConfig, s) && Enabled(getConfig, s, a)
    requires !a.Call? && !a.OpenEvent? && !a.Deliver?
    ensures Step(getConfig, s, a).subs == s.subs
    ensures Synchronised(getConfig, Step(getConfig, s, a))
  {
    hide HubOk, Proper, ServerKeys, Replay, Handled, Registered, Unregistered;
    match a {
      case Accept(c) => RegisteredShape(getConfig, s.hub, c);
      case ServerDrop(c) => UnregisteredShape(getConfig, s.hub, c);
      case OtherRegisters => RegisteredShape(getConfig, s.hub, s.next);
      case OtherSends(c, msg) => HandledKeepsHub(getConfig, s.hub, c, msg);
      case OtherDrops(c) => UnregisteredShape(getConfig, s.hub, c);
      case _ =>
    }
  }

  lemma StepKeepsInv(getConfig: GetConfig, s: System, a: Action)
    requires Inv(getConfig, s) && Enabled(getConfig, s, a)
    ensures Inv(getConfig, Step(getConfig, s, a))
  {
    hide Bookkeeping, Proper, Synchronised, Enabled, Step;
    StepKeepsBookkeeping(getConfig, s, a);
    match a {
      case Call(call) => CallStep(getConfig, s, call);
      case OpenEvent(calls) => OpenStep(getConfig, s, calls);
      case Deliver(c) =>
        DeliverStep(getConfig, s, c);
        DeliverKeepsSubs(getConfig, s, c);
      case _ => OtherStep(getConfig, s, a);
    }
  }

  lemma DeliverKeepsSubs(getConfig: GetConfig, s: System, c: Conn)
    requires Enabled(getConfig, s, Deliver(c))
    ensures Step(getConfig, s, Deliver(c)).subs == s.subs
  {
  }

  // ----- all runs -----

  /** The actions can be performed in order, each enabled when its turn comes. */
  ghost predicate Possible(getConfig: GetConfig, actions: seq<Action>)
    decreases |actions|, 0
  {
    actions != [] ==>
      var init := actions[..|actions| - 1];
      Possible(getConfig, init) && Enabled(getConfig, After(getConfig, init), actions[|actions| - 1])
  }

  /** The state they lead to. */
  ghost function After(getConfig: GetConfig, actions: seq<Action>): System
    requires Possible(getConfig, actions)
    decreases |actions|, 1
  {
    if actions == [] then Initial()
    else Step(getConfig, After(getConfig, actions[..|actions| - 1]), actions[|actions| - 1])
  }

  ghost predicate Reaches(getConfig: GetConfig, actions: seq<Action>, s: System) {
    Possible(getConfig, actions) && s == After(getConfig, actions)
  }

  lemma {:induction false} AlwaysInv(getConfig: GetConfig, actions: seq<Action>, s: System)
    requires Reaches(getConfig, actions, s)
    ensures Inv(getConfig, s)
  {
    hide Inv, Enabled, Step;
    if actions == [] {
      InitialInv(getConfig);
    } else {
      var init, a := actions[..|actions| - 1], actions[|actions| - 1];
      var r := After(getConfig, init);
      AlwaysInv(getConfig, init, r);
      StepKeepsInv(getConfig, r, a);
    }
  }

  /** In every reachable state with an open socket the server still reads, replaying what is in flight
      over the server's keys for that connection gives exactly the active subscriptions. */
  lemma OpenConnectionIsSynchronised(getConfig: GetConfig, actions: seq<Action>, s: System)
    requires Reaches(getConfig, actions, s)
    requires s.socket.Socket? && s.socket.state == Open && s.socket.conn in s.hub.clients
    ensures s.socket.conn in s.wires && s.socket.conn in s.hub.keys
    ensures Replay(getConfig, s.hub.keys[s.socket.conn], s.wires[s.socket.conn]) == ServerKeys(s.subs)
  {
    hide Reaches, Proper, Replay, ServerKeys;
    AlwaysInv(getConfig, actions, s);
  }

  /** Once nothing is in flight, the hub broadcasts a stream to this browser exactly when the browser
      has it active, whatever the other connections did and however often this one was reopened. */
  lemma SettledSubscribersAreExact(getConfig: GetConfig, actions: seq<Action>, s: System, key: string)
    requires Reaches(getConfig, actions, s)
    requires s.socket.Socket? && s.socket.state == Open && s.socket.conn in s.hub.clients
    requires s.socket.conn in s.wires && s.wires[s.socket.conn] == []
    ensures key in s.hub.subs && s.socket.conn in s.hub.subs[key] <==> key in ServerKeys(s.subs)
  {
    hide ServerKeys, Proper, Reaches, Synchronised;
    OpenConnectionIsSynchronised(getConfig, actions, s);
    AlwaysInv(getConfig, actions, s);
    IndexedAs(s.hub, s.socket.conn, key);
  }

  lemma IndexedAs(v: View<Conn>, c: Conn, key: string)
    requires IndexOk(v) && c in v.clients
    ensures c in v.keys && (key in v.subs && c in v.subs[key] <==> key in v.keys[c])
  {
  }

  /** In every reachable state no other connection of this browser or anyone else is left in the index
      after the server dropped it, and no subscriber set is empty. */
  lemma IndexStaysConsistent(getConfig: GetConfig, actions: seq<Action>, s: System)
    requires Reaches(getConfig, actions, s)
    ensures IndexOk(s.hub)
    ensures forall k, c :: k in s.hub.subs && c in s.hub.subs[k] ==> c in s.hub.clients && k in s.hub.keys[c]
  {
    hide Reaches, Proper, Synchronised;
    AlwaysInv(getConfig, actions, s);
  }

  lemma ReachedIndex(getConfig: GetConfig, actions: seq<Action>, s: System)
    requires Reaches(getConfig, actions, s)
    ensures IndexOk(s.hub) && s.hub.keys.Keys == s.hub.clients
    ensures CleanConfig(getConfig) ==> KeysPrintBack(s.hub)
    ensures AllClean(s.subs)
  {
    hide Reaches, Synchronised, IndexOk, KeysPrintBack;
    AlwaysInv(getConfig, actions, s);
    KeysOfClients(s.hub);
  }

  /** In every reachable state every registered connection, this browser's or anyone's, is sent a candle
      close once for each compression it subscribes to, and otherwise not at all. */
  lemma CloseReachesSubscribersOnceAlways(getConfig: GetConfig, actions: seq<Action>, s: System,
      groups: seq<CompClients<Conn>>, market: string, symbol: string, tf: string, c: Conn, compression: SubKeys.Uint32)
    requires Reaches(getConfig, actions, s) && c in s.hub.clients && ':' !in market && ':' !in tf
    requires CloseGroups(s.hub, groups, market, symbol, tf)
    ensures c in s.hub.keys
    ensures SubKeys.SubKey(market, symbol, tf, compression) in s.hub.keys[c] <==>
            exists g :: g in groups && g.compression == compression && c in g.clients
    ensures forall g, h :: g in groups && h in groups && g.compression == h.compression ==> g == h
  {
    hide Reaches, CloseGroups, IndexOk, KeysPrintBack;
    ReachedIndex(getConfig, actions, s);
    CloseReachesSubscribersOnce(s.hub, groups, market, symbol, tf, c, compression);
  }

  /** Once nothing is in flight, this browser is sent a candle close exactly for its active
      subscriptions of the stream. */
  lemma SettledClosesAreExact(getConfig: GetConfig, actions: seq<Action>, s: System,
      groups: seq<CompClients<Conn>>, sub: Sub)
    requires Reaches(getConfig, actions, s) && Clean(sub)
    requires s.socket.Socket? && s.socket.state == Open && s.socket.conn in s.hub.clients
    requires s.socket.conn in s.wires && s.wires[s.socket.conn] == []
    requires CloseGroups(s.hub, groups, sub.market, sub.symbol, sub.tf)
    ensures sub in s.subs <==>
            exists g :: g in groups && g.compression == sub.compression && s.socket.conn in g.clients
  {
    hide Reaches, CloseGroups, IndexOk, KeysPrintBack, ServerKeys, AllClean;
    ReachedIndex(getConfig, actions, s);
    OpenConnectionIsSynchronised(getConfig, actions, s);
    CloseReachesSubscribersOnceAlways(getConfig, actions, s, groups, sub.market, sub.symbol, sub.tf,
                                      s.socket.conn, sub.compression);
    KeyActiveIff(s.subs, sub);
  }
}
