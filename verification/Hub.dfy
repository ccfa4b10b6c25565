// backend/internal/ws/hub.go and client.go: the hub and its clients, whose maps change in place. Each
// hub method holds the lock for its whole body, so it is one atomic step.

module Hub {
  import opened SubKeys
  import opened HubSpec

  class Client {
    var subKeys: set<string>

    constructor ()
      ensures subKeys == {}
    {
      subKeys := {};
    }
  }

  class Hub {
    const getConfig: GetConfig
    var clients: set<Client>
    var subs: map<string, set<Client>>

    ghost function Index(): View<Client>
      reads this, clients
    {
      View(clients, map c | c in clients :: c.subKeys, subs)
    }

    ghost predicate Valid()
      reads this, clients
    {
      HubOk(getConfig, Index())
    }

    constructor (getConfig: GetConfig)
      ensures Valid() && this.getConfig == getConfig && clients == {} && subs == map[]
    {
      this.getConfig := getConfig;
      clients, subs := {}, map[];
    }

    method Register(c: Client)
      requires Valid() && c !in clients && c.subKeys == {}
      modifies this
      ensures Valid() && Index() == Registered(old(Index()), c)
    {
      hide IndexOk, KeysPrintBack;
      RegisteredKeepsHub(getConfig, Index(), c);
      clients := clients + {c};
      assert Index() == Registered(old(Index()), c);
    }

    /** Remove the client and its membership in every subscription. */
    method Unregister(c: Client)
      requires Valid()
      modifies this
      ensures Valid() && Index() == Unregistered(old(Index()), c)
      ensures forall k :: k in subs ==> c !in subs[k]
    {
      hide IndexOk, KeysPrintBack;
      UnregisteredOk(Index(), c);
      UnregisteredKeepsHub(getConfig, Index(), c);
      clients := clients - {c};
      DropFromSubs(c);
      assert Index() == Unregistered(old(Index()), c);
    }

    method DropFromSubs(c: Client)
      modifies `subs
      ensures subs == map k | k in old(subs) && old(subs)[k] - {c} != {} :: old(subs)[k] - {c}
    {
      var todo := subs.Keys;
      while todo != {}
        invariant todo <= old(subs).Keys
        invariant forall k :: k in subs ==> k in old(subs)
        invariant forall k :: k in todo ==> k in subs && subs[k] == old(subs)[k]
        invariant forall k :: k in old(subs) && k !in todo ==> (k in subs <==> old(subs)[k] - {c} != {})
        invariant forall k :: k in subs && k !in todo ==> subs[k] == old(subs)[k] - {c}
        decreases todo
      {
        var key :| key in todo;
        var set' := subs[key] - {c};
        subs := if set' == {} then subs - {key} else subs[key := set'];
        todo := todo - {key};
      }
    }

    /** Subscribe after validation; the message handler's own checks are part of Resolve. */
    method Subscribe(c: Client, s: Sub) returns (r: Outcome)
      requires Valid() && c in clients
      modifies this, c
      ensures Valid() && clients == old(clients)
      ensures Index() == Handled(getConfig, old(Index()), c, Msg.Subscribe(s))
      ensures r == if Resolve(getConfig, s).Added? && |old(c.subKeys)| >= 20
                   then LimitExceeded else Resolve(getConfig, s)
    {
      hide HubOk, Resolve;
      assert Index().keys[c] == c.subKeys;
      HandledKeepsHub(getConfig, Index(), c, Msg.Subscribe(s));
      r := Resolve(getConfig, s);
      if !r.Added? {
        return;
      }
      var key := r.key;
      if |c.subKeys| >= MAX_SUBS_PER_CLIENT {
        return LimitExceeded;
      }
      c.subKeys := c.subKeys + {key};
      var set' := if key in subs then subs[key] else {};
      subs := subs[key := set' + {c}];
      assert Index() == Handled(getConfig, old(Index()), c, Msg.Subscribe(s));
    }

    method Unsubscribe(c: Client, s: Sub)
      requires Valid() && c in clients
      modifies this, c
      ensures Valid() && clients == old(clients)
      ensures Index() == Handled(getConfig, old(Index()), c, Msg.Unsubscribe(s))
    {
      hide HubOk, SubKey, HandleKeys;
      HandledKeepsHub(getConfig, Index(), c, Msg.Unsubscribe(s));
      var key := SubKey(s.market, s.symbol, s.tf, s.compression);
      c.subKeys := c.subKeys - {key};
      if key in subs {
        var set' := subs[key] - {c};
        subs := if set' == {} then subs - {key} else subs[key := set'];
      }
      assert Index() == Handled(getConfig, old(Index()), c, Msg.Unsubscribe(s));
    }

    /** Client.handleMessage: dispatch on the action. */
    method HandleMessage(c: Client, msg: Msg)
      requires Valid() && c in clients
      modifies this, c
      ensures Valid() && Index() == Handled(getConfig, old(Index()), c, msg)
      ensures c.subKeys == HandleKeys(getConfig, old(c.subKeys), msg)
    {
      hide HubOk, Resolve, RawKey, AddKey, RemoveKey;
      HandledKeepsHub(getConfig, Index(), c, msg);
      assert Index().keys[c] == c.subKeys;
      match msg {
        case Subscribe(s) =>
          var _ := Subscribe(c, s);
        case Unsubscribe(s) =>
          Unsubscribe(c, s);
      }
      assert c.subKeys == Index().keys[c];
    }

    /** The receivers of a candle close: one group per compression, with its subscribers. */
    method NotifyCandleClose(market: string, symbol: string, tf: string) returns (groups: seq<CompClients<Client>>)
      requires Valid() && CleanConfig(getConfig)
      ensures CloseGroups(Index(), groups, market, symbol, tf)
    {
      hide Parse, SubKey, PrintsBack, IndexOk;
      groups := [];
      var seen: set<Uint32> := {};
      var todo := subs.Keys;
      while todo != {}
        invariant todo <= subs.Keys && seen == Compressions(groups) && DistinctCompressions(groups)
        invariant forall g :: g in groups ==> var key := SubKey(market, symbol, tf, g.compression);
                    key in subs && g.clients == subs[key]
        invariant forall k :: k in subs && k !in todo && IsStream(k, market, symbol, tf) ==>
                    Parse(k).compression in seen
        decreases todo
      {
        var key :| key in todo;
        PrintedBack(key);
        var p := ParseSubKey(key);
        if p.market == market && p.symbol == symbol && p.tf == tf && p.compression !in seen {
          seen := seen + {p.compression};
          var g := CompClients(p.compression, subs[key]);
          MoreCompressions(groups, g);
          groups := groups + [g];
        }
        todo := todo - {key};
      }
    }
  }

  lemma PrintedBack(key: string)
    requires PrintsBack(key)
    ensures var p := Parse(key); p.Parsed? && key == SubKey(p.market, p.symbol, p.tf, p.compression)
  {
  }

  lemma MoreCompressions(groups: seq<CompClients<Client>>, g: CompClients<Client>)
    requires DistinctCompressions(groups) && g.compression !in Compressions(groups)
    ensures DistinctCompressions(groups + [g])
    ensures Compressions(groups + [g]) == Compressions(groups) + {g.compression}
  {
    assert g in groups + [g];
    forall i | 0 <= i < |groups| ensures groups[i].compression != g.compression {
      assert groups[i] in groups;
    }
    forall x | x in Compressions(groups) ensures x in Compressions(groups + [g]) {
      var h :| h in groups && h.compression == x;
      assert h in groups + [g];
    }
  }
}
