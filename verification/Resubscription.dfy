// frontend-chart/src/lib/wsClient.ts, the open handler: what resubscribing on a fresh connection
// restores.

module Resubscription {
  import opened HubSpec
  import opened Subscriptions

  /** The messages the open handler sends: every active subscription, in insertion order. */
  function Resub(subs: seq<Sub>): (msgs: seq<Msg>)
    ensures |msgs| == |subs| && forall i :: 0 <= i < |subs| ==> msgs[i] == Subscribe(subs[i])
  {
    seq(|subs|, i requires 0 <= i < |subs| => Subscribe(subs[i]))
  }

  lemma ResubAppend(subs: seq<Sub>, s: Sub)
    ensures Resub(subs + [s]) == Resub(subs) + [Subscribe(s)]
  {
  }

  /** Starting from keys that are all wanted, resubscribing adds the missing ones one by one; the
      limit never bites because at most 20 are wanted. */
  lemma {:induction false} ResubAdds(getConfig: GetConfig, keys: set<string>, subs: seq<Sub>, wanted: set<string>)
    requires AllAccepted(getConfig, subs) && |wanted| <= MAX_SUBS_PER_CLIENT
    requires keys <= wanted && ServerKeys(subs) <= wanted
    ensures Replay(getConfig, keys, Resub(subs)) == keys + ServerKeys(subs)
  {
    hide Accepted, RawKey, HandleKeys, Resub, ServerKeys;
    if subs == [] {
      NothingToResubscribe();
    } else {
      var init, s := subs[..|subs| - 1], subs[|subs| - 1];
      assert subs == init + [s] && Accepted(getConfig, s);
      ServerKeysAppend(init, s);
      ResubAdds(getConfig, keys, init, wanted);
      ResubAppend(init, s);
      ReplayAppend(getConfig, keys, Resub(init), Subscribe(s));
      AddsWanted(getConfig, keys + ServerKeys(init), s, wanted);
    }
  }

  lemma NothingToResubscribe()
    ensures Resub([]) == [] && ServerKeys([]) == {}
  {
  }

  lemma AddsWanted(getConfig: GetConfig, keys: set<string>, s: Sub, wanted: set<string>)
    requires Accepted(getConfig, s) && keys + {RawKey(s)} <= wanted && |wanted| <= MAX_SUBS_PER_CLIENT
    ensures HandleKeys(getConfig, keys, Subscribe(s)) == keys + {RawKey(s)}
  {
    hide Resolve, RawKey;
    if RawKey(s) !in keys {
      SubsetSize(keys + {RawKey(s)}, wanted);
      assert |keys + {RawKey(s)}| == |keys| + 1;
    }
  }

  lemma ResubRestores(getConfig: GetConfig, keys: set<string>, subs: seq<Sub>)
    requires AllAccepted(getConfig, subs) && |subs| <= MAX_SUBS_PER_CLIENT
    requires keys <= ServerKeys(subs)
    ensures Replay(getConfig, keys, Resub(subs)) == ServerKeys(subs)
  {
    ServerKeysSize(subs);
    ResubAdds(getConfig, keys, subs, ServerKeys(subs));
  }

  // ----- calls made while the connection opens -----

  /** What the connect callback may do: the active subscriptions after its calls. */
  function AfterCalls(subs: seq<Sub>, calls: seq<Msg>): seq<Sub> {
    if calls == [] then subs
    else AfterCall(AfterCalls(subs, calls[..|calls| - 1]), calls[|calls| - 1])
  }

  function AfterCall(subs: seq<Sub>, call: Msg): seq<Sub> {
    match call
    case Subscribe(s) => SetSub(subs, s)
    case Unsubscribe(s) => DeleteSub(subs, s)
  }

  /** Subscriptions the server accepts as asked, within the limit. */
  ghost predicate Proper(getConfig: GetConfig, subs: seq<Sub>) {
    AllClean(subs) && DistinctKeys(subs) && AllAccepted(getConfig, subs) && |subs| <= MAX_SUBS_PER_CLIENT
  }

  /** A caller keeps the subscriptions proper: it subscribes to what is already active, or to what the
      server accepts while fewer than 20 are active; it may unsubscribe anything. */
  ghost predicate ProperCall(getConfig: GetConfig, subs: seq<Sub>, call: Msg) {
    match call
    case Subscribe(s) => Clean(s) && (s in subs || (Accepted(getConfig, s) && |subs| < MAX_SUBS_PER_CLIENT))
    case Unsubscribe(s) => Clean(s)
  }

  lemma CallKeepsProper(getConfig: GetConfig, subs: seq<Sub>, call: Msg)
    requires Proper(getConfig, subs) && ProperCall(getConfig, subs, call)
    ensures Proper(getConfig, AfterCall(subs, call))
  {
    hide Accepted, Clean, ClientKey;
    match call {
      case Subscribe(s) =>
        SetSubKeys(subs, s);
      case Unsubscribe(s) =>
        DeleteSubKeys(subs, s);
        forall i | 0 <= i < |DeleteSub(subs, s)| ensures Accepted(getConfig, DeleteSub(subs, s)[i]) {
          assert DeleteSub(subs, s)[i] in DeleteSub(subs, s);
        }
    }
  }

  /** A message sent for a call keeps a synchronised connection synchronised. */
  lemma CallKeepsSync(getConfig: GetConfig, subs: seq<Sub>, call: Msg)
    requires Proper(getConfig, subs) && ProperCall(getConfig, subs, call)
    ensures HandleKeys(getConfig, ServerKeys(subs), call) == ServerKeys(AfterCall(subs, call))
  {
    hide Accepted, Clean, HandleKeys, ServerKeys;
    match call {
      case Subscribe(s) =>
        SubscribeKeepsSyncIff(getConfig, subs, s);
      case Unsubscribe(s) =>
        UnsubscribeKeepsSync(getConfig, subs, s);
    }
  }

  /** A message never puts an unwanted key on a connection that holds wanted keys only. */
  lemma CallKeepsWithin(getConfig: GetConfig, keys: set<string>, subs: seq<Sub>, call: Msg)
    requires Proper(getConfig, subs) && ProperCall(getConfig, subs, call) && keys <= ServerKeys(subs)
    ensures HandleKeys(getConfig, keys, call) <= ServerKeys(AfterCall(subs, call))
  {
    hide Clean, ClientKey, Resolve, RawKey;
    match call {
      case Subscribe(s) =>
        SetSubKeys(subs, s);
        assert Accepted(getConfig, s);
      case Unsubscribe(s) =>
        DeleteSubKeys(subs, s);
    }
  }

  ghost predicate ProperCalls(getConfig: GetConfig, subs: seq<Sub>, calls: seq<Msg>) {
    calls != [] ==>
      var init := calls[..|calls| - 1];
      ProperCalls(getConfig, subs, init) && ProperCall(getConfig, AfterCalls(subs, init), calls[|calls| - 1])
  }

  lemma {:induction false} CallsKeepWithin(getConfig: GetConfig, subs: seq<Sub>, calls: seq<Msg>)
    requires Proper(getConfig, subs) && ProperCalls(getConfig, subs, calls)
    ensures Proper(getConfig, AfterCalls(subs, calls))
    ensures Replay(getConfig, {}, calls) <= ServerKeys(AfterCalls(subs, calls))
  {
    hide Proper, ProperCall, HandleKeys, AfterCall, ServerKeys;
    if calls != [] {
      var init, call := calls[..|calls| - 1], calls[|calls| - 1];
      CallsKeepWithin(getConfig, subs, init);
      CallKeepsProper(getConfig, AfterCalls(subs, init), call);
      CallKeepsWithin(getConfig, Replay(getConfig, {}, init), AfterCalls(subs, init), call);
    }
  }

  /** The whole open handler: calls of the connect callback, then everything active once more. */
  lemma OpenRestores(getConfig: GetConfig, subs: seq<Sub>, calls: seq<Msg>)
    requires Proper(getConfig, subs) && ProperCalls(getConfig, subs, calls)
    ensures Proper(getConfig, AfterCalls(subs, calls))
    ensures Replay(getConfig, {}, calls + Resub(AfterCalls(subs, calls))) == ServerKeys(AfterCalls(subs, calls))
  {
    hide ProperCalls, AfterCalls, ServerKeys, Replay;
    CallsKeepWithin(getConfig, subs, calls);
    ReplayConcat(getConfig, {}, calls, Resub(AfterCalls(subs, calls)));
    ResubRestores(getConfig, Replay(getConfig, {}, calls), AfterCalls(subs, calls));
  }

  // ----- exactly when a reopened connection gets everything back -----

  lemma {:induction false} ReplaySize(getConfig: GetConfig, msgs: seq<Msg>)
    ensures |Replay(getConfig, {}, msgs)| <= MAX_SUBS_PER_CLIENT
  {
    hide Resolve, RawKey;
    if msgs != [] {
      var init, m := msgs[..|msgs| - 1], msgs[|msgs| - 1];
      ReplaySize(getConfig, init);
      var keys := Replay(getConfig, {}, init);
      if m.Subscribe? && Resolve(getConfig, m.sub).Added? {
        assert |keys + {Resolve(getConfig, m.sub).key}| <= |keys| + 1;
      } else if m.Unsubscribe? {
        SubsetSize(keys - {RawKey(m.sub)}, keys);
      }
    }
  }

  /** Every key on a freshly resubscribed connection was resolved from one of the subscriptions. */
  lemma {:induction false} ReplayedFrom(getConfig: GetConfig, subs: seq<Sub>, k: string) returns (a: Sub)
    requires k in Replay(getConfig, {}, Resub(subs))
    ensures a in subs && Resolve(getConfig, a) == Added(k)
  {
    hide Resolve;
    var init, s := subs[..|subs| - 1], subs[|subs| - 1];
    assert subs == init + [s];
    ResubAppend(init, s);
    ReplayAppend(getConfig, {}, Resub(init), Subscribe(s));
    if k in Replay(getConfig, {}, Resub(init)) {
      a := ReplayedFrom(getConfig, init, k);
      assert a in init;
    } else {
      a := s;
    }
  }

  /** A resolved key that equals a subscription's raw key comes from the same stream. */
  lemma ResolvedAs(getConfig: GetConfig, a: Sub, s: Sub)
    requires CleanConfig(getConfig) && Clean(a) && Clean(s) && Resolve(getConfig, a) == Added(RawKey(s))
    ensures a.market == s.market && a.symbol == s.symbol && a.tf == s.tf
    ensures getConfig(a.symbol, a.market).Some?
    ensures s.compression == NormalComp(a.compression, getConfig(a.symbol, a.market).value)
  {
    hide SubKeys.SubKey;
    var c := NormalComp(a.compression, getConfig(a.symbol, a.market).value);
    SubKeys.KeysInjective(a.market, a.symbol, a.tf, c, s.market, s.symbol, s.tf, s.compression);
  }

  /** A fresh connection ends up with exactly the active subscriptions if and only if the server accepts
      every one under the key it was asked with and there are at most 20 of them. */
  lemma ReopenRestoresIff(getConfig: GetConfig, subs: seq<Sub>)
    requires CleanConfig(getConfig) && AllClean(subs) && DistinctKeys(subs)
    ensures Replay(getConfig, {}, Resub(subs)) == ServerKeys(subs)
            <==> AllAccepted(getConfig, subs) && |subs| <= MAX_SUBS_PER_CLIENT
  {
    hide Resolve, RawKey, Clean, ClientKey, CleanConfig, Replay, Accepted;
    if AllAccepted(getConfig, subs) && |subs| <= MAX_SUBS_PER_CLIENT {
      ResubRestores(getConfig, {}, subs);
    }
    if Replay(getConfig, {}, Resub(subs)) == ServerKeys(subs) {
      ServerKeysExactSize(subs);
      ReplaySize(getConfig, Resub(subs));
      forall i | 0 <= i < |subs| ensures Accepted(getConfig, subs[i]) {
        RestoredIsAccepted(getConfig, subs, subs[i]);
      }
    }
  }

  lemma RestoredIsAccepted(getConfig: GetConfig, subs: seq<Sub>, s: Sub)
    requires CleanConfig(getConfig) && AllClean(subs) && s in subs
    requires Replay(getConfig, {}, Resub(subs)) == ServerKeys(subs)
    ensures Accepted(getConfig, s)
  {
    hide Resolve, RawKey, Clean, CleanConfig, Replay;
    CleanMember(subs, s);
    assert RawKey(s) in ServerKeys(subs);
    var a := ReplayedFrom(getConfig, subs, RawKey(s));
    CleanMember(subs, a);
    ResolvedAs(getConfig, a, s);
    if a.compression == 0 {
      assert RawKey(a) in ServerKeys(subs);
      var b := ReplayedFrom(getConfig, subs, RawKey(a));
      CleanMember(subs, b);
      ResolvedAs(getConfig, b, a);
    }
    assert a == s;
  }
}
