// frontend-chart/src/lib/wsClient.ts as functions: the insertion-ordered map of active subscriptions,
// and when the server's keys for a connection agree with it.

module Subscriptions {
  import opened SubKeys
  import opened HubSpec

  /** makeSubKey: the client's own key, with symbol and market the other way round. */
  function ClientKey(s: Sub): string {
    s.symbol + ":" + s.market + ":" + s.tf + ":" + Digits.Print(s.compression)
  }

  /** Position of the entry with this key, or -1. */
  function IndexOf(subs: seq<Sub>, key: string): (i: int)
    ensures -1 <= i < |subs|
    ensures i >= 0 ==> ClientKey(subs[i]) == key
    ensures i < 0 ==> forall j :: 0 <= j < |subs| ==> ClientKey(subs[j]) != key
  {
    if subs == [] then -1
    else if ClientKey(subs[|subs| - 1]) == key then |subs| - 1
    else IndexOf(subs[..|subs| - 1], key)
  }

  /** Map.set: an existing key keeps its place, a new one goes last. */
  function SetSub(subs: seq<Sub>, s: Sub): seq<Sub> {
    var i := IndexOf(subs, ClientKey(s));
    if i < 0 then subs + [s] else subs[i := s]
  }

  /** Map.delete. */
  function DeleteSub(subs: seq<Sub>, s: Sub): seq<Sub> {
    var i := IndexOf(subs, ClientKey(s));
    if i < 0 then subs else subs[..i] + subs[i + 1..]
  }

  ghost predicate DistinctKeys(subs: seq<Sub>) {
    forall i, j :: 0 <= i < j < |subs| ==> ClientKey(subs[i]) != ClientKey(subs[j])
  }

  /** Colons only in the symbol. */
  predicate Clean(s: Sub) {
    ':' !in s.market && ':' !in s.tf
  }

  ghost predicate AllClean(subs: seq<Sub>) {
    forall i :: 0 <= i < |subs| ==> Clean(subs[i])
  }

  /** The keys the server should hold for these subscriptions. */
  ghost function ServerKeys(subs: seq<Sub>): set<string> {
    set s | s in subs :: RawKey(s)
  }

  // ----- keys identify subscriptions -----

  lemma SplitLast(a: string, x: string, b: string, y: string)
    requires ':' !in x && ':' !in y && a + ":" + x == b + ":" + y
    ensures a == b && x == y
  {
    hide LastColon;
    var s := a + ":" + x;
    SplitAt(a, x, s);
    SplitAt(b, y, s);
    LastColonUnique(s, |a|);
    LastColonUnique(s, |b|);
  }

  lemma ClientKeyInjective(s: Sub, t: Sub)
    requires Clean(s) && Clean(t)
    ensures ClientKey(s) == ClientKey(t) <==> s == t
  {
    if ClientKey(s) == ClientKey(t) {
      NoColonInDigits(Digits.Print(s.compression));
      NoColonInDigits(Digits.Print(t.compression));
      SplitLast(s.symbol + ":" + s.market + ":" + s.tf, Digits.Print(s.compression),
                t.symbol + ":" + t.market + ":" + t.tf, Digits.Print(t.compression));
      SplitLast(s.symbol + ":" + s.market, s.tf, t.symbol + ":" + t.market, t.tf);
      SplitLast(s.symbol, s.market, t.symbol, t.market);
    }
  }

  lemma RawKeyInjective(s: Sub, t: Sub)
    requires Clean(s) && Clean(t)
    ensures RawKey(s) == RawKey(t) <==> s == t
  {
    hide SubKey;
    if RawKey(s) == RawKey(t) {
      KeysInjective(s.market, s.symbol, s.tf, s.compression, t.market, t.symbol, t.tf, t.compression);
    }
  }

  lemma IndexOfClean(subs: seq<Sub>, s: Sub)
    requires AllClean(subs) && Clean(s)
    ensures IndexOf(subs, ClientKey(s)) >= 0 <==> s in subs
    ensures s in subs ==> subs[IndexOf(subs, ClientKey(s))] == s
  {
    hide ClientKey;
    forall i | 0 <= i < |subs| ensures ClientKey(subs[i]) == ClientKey(s) <==> subs[i] == s {
      ClientKeyInjective(subs[i], s);
    }
  }

  // ----- what subscribe and unsubscribe do to the server's target set -----

  lemma SetSubKeys(subs: seq<Sub>, s: Sub)
    requires AllClean(subs) && Clean(s) && DistinctKeys(subs)
    ensures ServerKeys(SetSub(subs, s)) == ServerKeys(subs) + {RawKey(s)}
    ensures AllClean(SetSub(subs, s)) && DistinctKeys(SetSub(subs, s))
    ensures SetSub(subs, s) == if s in subs then subs else subs + [s]
  {
    hide RawKey, ClientKey;
    IndexOfClean(subs, s);
    if s in subs {
      var i := IndexOf(subs, ClientKey(s));
      assert subs[i := s] == subs;
    } else {
      forall k | k in ServerKeys(subs) + {RawKey(s)} ensures k in ServerKeys(subs + [s]) {
        assert s in subs + [s];
        if k != RawKey(s) {
          var t :| t in subs && RawKey(t) == k;
          assert t in subs + [s];
        }
      }
    }
  }

  lemma DeleteSubKeys(subs: seq<Sub>, s: Sub)
    requires AllClean(subs) && Clean(s) && DistinctKeys(subs)
    ensures ServerKeys(DeleteSub(subs, s)) == ServerKeys(subs) - {RawKey(s)}
    ensures AllClean(DeleteSub(subs, s)) && DistinctKeys(DeleteSub(subs, s)) && |DeleteSub(subs, s)| <= |subs|
    ensures forall t :: t in DeleteSub(subs, s) <==> t in subs && t != s
  {
    hide RawKey, ClientKey, Clean;
    IndexOfClean(subs, s);
    var rest := DeleteSub(subs, s);
    forall t ensures t in rest <==> t in subs && t != s {
      DeletedMembers(subs, s, t);
    }
    forall k ensures k in ServerKeys(rest) <==> k in ServerKeys(subs) - {RawKey(s)} {
      if k in ServerKeys(subs) {
        var t :| t in subs && RawKey(t) == k;
        CleanMember(subs, t);
        RawKeyInjective(s, t);
      }
      if k in ServerKeys(rest) {
        var t :| t in rest && RawKey(t) == k;
        CleanMember(subs, t);
        RawKeyInjective(s, t);
      }
    }
  }

  lemma CleanMember(subs: seq<Sub>, t: Sub)
    requires AllClean(subs) && t in subs
    ensures Clean(t)
  {
  }

  lemma DeletedMembers(subs: seq<Sub>, s: Sub, t: Sub)
    requires AllClean(subs) && Clean(s) && DistinctKeys(subs)
    ensures t in DeleteSub(subs, s) <==> t in subs && t != s
  {
    hide ClientKey, Clean;
    IndexOfClean(subs, s);
    var i := IndexOf(subs, ClientKey(s));
    if i >= 0 {
      var l, r := subs[..i], subs[i + 1..];
      assert subs == l + [s] + r;
      forall j | 0 <= j < |subs| && j != i ensures subs[j] != s {
        assert ClientKey(subs[j]) != ClientKey(subs[i]);
      }
      assert s !in l && s !in r;
    }
  }

  lemma ServerKeysAppend(subs: seq<Sub>, s: Sub)
    ensures ServerKeys(subs + [s]) == ServerKeys(subs) + {RawKey(s)}
  {
    hide RawKey;
    assert s in subs + [s];
    forall k | k in ServerKeys(subs) ensures k in ServerKeys(subs + [s]) {
      var t :| t in subs && RawKey(t) == k;
      assert t in subs + [s];
    }
  }

  lemma {:induction false} ServerKeysSize(subs: seq<Sub>)
    ensures |ServerKeys(subs)| <= |subs|
  {
    hide RawKey;
    if subs != [] {
      var init, s := subs[..|subs| - 1], subs[|subs| - 1];
      assert subs == init + [s];
      ServerKeysSize(init);
      assert ServerKeys(subs) == ServerKeys(init) + {RawKey(s)};
    }
  }

  lemma LastKeyIsNew(subs: seq<Sub>)
    requires AllClean(subs) && DistinctKeys(subs) && subs != []
    ensures RawKey(subs[|subs| - 1]) !in ServerKeys(subs[..|subs| - 1])
  {
    hide RawKey, ClientKey, Clean;
    var init, s := subs[..|subs| - 1], subs[|subs| - 1];
    forall t | t in init ensures RawKey(t) != RawKey(s) {
      var i :| 0 <= i < |init| && init[i] == t;
      assert ClientKey(subs[i]) != ClientKey(subs[|subs| - 1]);
      RawKeyInjective(s, t);
    }
  }

  /** Clean distinct subscriptions have as many server keys. */
  lemma {:induction false} ServerKeysExactSize(subs: seq<Sub>)
    requires AllClean(subs) && DistinctKeys(subs)
    ensures |ServerKeys(subs)| == |subs|
  {
    hide *;
    if subs == [] {
      NoServerKeys();
    } else {
      var init, s := subs[..|subs| - 1], subs[|subs| - 1];
      InitIsClean(subs);
      ServerKeysExactSize(init);
      LastKeyIsNew(subs);
      ServerKeysOfLast(subs);
      OneMoreElement(ServerKeys(init), RawKey(s));
    }
  }

  lemma NoServerKeys()
    ensures ServerKeys([]) == {}
  {
  }

  lemma ServerKeysOfLast(subs: seq<Sub>)
    requires subs != []
    ensures ServerKeys(subs) == ServerKeys(subs[..|subs| - 1]) + {RawKey(subs[|subs| - 1])}
  {
    ServerKeysAppend(subs[..|subs| - 1], subs[|subs| - 1]);
    assert subs == subs[..|subs| - 1] + [subs[|subs| - 1]];
  }

  lemma InitIsClean(subs: seq<Sub>)
    requires AllClean(subs) && DistinctKeys(subs) && subs != []
    ensures AllClean(subs[..|subs| - 1]) && DistinctKeys(subs[..|subs| - 1])
  {
    hide ClientKey, Clean;
  }

  // ----- the server's side of a connection -----

  /** The keys after the server has processed all these messages, limit and validation included. */
  ghost function Replay(getConfig: GetConfig, keys: set<string>, msgs: seq<Msg>): set<string> {
    if msgs == [] then keys
    else HandleKeys(getConfig, Replay(getConfig, keys, msgs[..|msgs| - 1]), msgs[|msgs| - 1])
  }

  lemma ReplayAppend(getConfig: GetConfig, keys: set<string>, msgs: seq<Msg>, m: Msg)
    ensures Replay(getConfig, keys, msgs + [m]) == HandleKeys(getConfig, Replay(getConfig, keys, msgs), m)
  {
    assert (msgs + [m])[..|msgs + [m]| - 1] == msgs;
  }

  lemma {:induction false} ReplayConcat(getConfig: GetConfig, keys: set<string>, a: seq<Msg>, b: seq<Msg>)
    ensures Replay(getConfig, keys, a + b) == Replay(getConfig, Replay(getConfig, keys, a), b)
  {
    hide HandleKeys;
    if b == [] {
      assert a + b == a;
    } else {
      var b' := b[..|b| - 1];
      assert (a + b)[..|a + b| - 1] == a + b';
      ReplayConcat(getConfig, keys, a, b');
    }
  }

  /** Processing the first message and then the rest is processing all of them. */
  lemma ReplayHead(getConfig: GetConfig, keys: set<string>, msgs: seq<Msg>)
    requires msgs != []
    ensures Replay(getConfig, keys, msgs) == Replay(getConfig, HandleKeys(getConfig, keys, msgs[0]), msgs[1..])
  {
    hide HandleKeys;
    assert msgs == [msgs[0]] + msgs[1..];
    ReplayConcat(getConfig, keys, [msgs[0]], msgs[1..]);
    ReplayAppend(getConfig, keys, [], msgs[0]);
    assert [] + [msgs[0]] == [msgs[0]];
  }

  /** The server accepts the subscription, under the key it was asked with. */
  predicate Accepted(getConfig: GetConfig, s: Sub) {
    Resolve(getConfig, s) == Added(RawKey(s))
  }

  ghost predicate AllAccepted(getConfig: GetConfig, subs: seq<Sub>) {
    forall i :: 0 <= i < |subs| ==> Accepted(getConfig, subs[i])
  }

  // ----- one more subscription on a synchronised connection -----

  /** From a connection whose keys match the active subscriptions, subscribing keeps them matched
      exactly when the subscription is already active, or the server accepts it under the key it was
      asked with and fewer than 20 are active. */
  lemma SubscribeKeepsSyncIff(getConfig: GetConfig, subs: seq<Sub>, s: Sub)
    requires AllClean(subs) && DistinctKeys(subs) && Clean(s) && AllAccepted(getConfig, subs)
    ensures HandleKeys(getConfig, ServerKeys(subs), Subscribe(s)) == ServerKeys(SetSub(subs, s)) <==>
            s in subs || (Accepted(getConfig, s) && |subs| < MAX_SUBS_PER_CLIENT)
  {
    hide Resolve, RawKey, Clean, ClientKey;
    SetSubKeys(subs, s);
    ServerKeysExactSize(subs);
    KeyActiveIff(subs, s);
  }

  lemma KeyActiveIff(subs: seq<Sub>, s: Sub)
    requires AllClean(subs) && Clean(s)
    ensures RawKey(s) in ServerKeys(subs) <==> s in subs
  {
    hide RawKey, Clean;
    if RawKey(s) in ServerKeys(subs) {
      var t :| t in subs && RawKey(t) == RawKey(s);
      CleanMember(subs, t);
      RawKeyInjective(s, t);
    }
  }

  lemma UnsubscribeKeepsSync(getConfig: GetConfig, subs: seq<Sub>, s: Sub)
    requires AllClean(subs) && DistinctKeys(subs) && Clean(s)
    ensures HandleKeys(getConfig, ServerKeys(subs), Unsubscribe(s)) == ServerKeys(DeleteSub(subs, s))
  {
    DeleteSubKeys(subs, s);
  }

  /** A subscription is accepted under the key it was asked with exactly when its fields are there, its
      ticker is configured, its timeframe is one of 15m, 30m, 1h, 4h or off spot also 1m, 5m, and its
      compression is a multiple of the base compression, from that up to the highest level. Compression 0
      qualifies only where the base compression is 0 itself. */
  lemma AcceptedIff(getConfig: GetConfig, s: Sub)
    requires CleanConfig(getConfig)
    ensures Accepted(getConfig, s) <==>
            && s.symbol != "" && s.market != "" && s.tf != "" && getConfig(s.symbol, s.market).Some?
            && var tc := getConfig(s.symbol, s.market).value; var base := tc.baseCompression;
               && (|| s.tf == "15m" || s.tf == "30m" || s.tf == "1h" || s.tf == "4h"
                   || (tc.market != "spot" && (s.tf == "1m" || s.tf == "5m")))
               && (if s.compression == 0 then base == 0
                   else base > 0 && s.compression % base == 0
                        && base <= s.compression <= base * tc.compressionLevels % 4_294_967_296)
  {
    hide SubKey, Parse, ValidTF, ValidCompression;
    if getConfig(s.symbol, s.market).Some? {
      TimeframeIff(s.tf, getConfig(s.symbol, s.market).value);
      CompressionIff(s.compression, getConfig(s.symbol, s.market).value);
    }
    if Resolve(getConfig, s).Added? {
      var c := NormalComp(s.compression, getConfig(s.symbol, s.market).value);
      ResolvedKeyPrintsBack(getConfig, s);
      if Accepted(getConfig, s) {
        KeysInjective(s.market, s.symbol, s.tf, c, s.market, s.symbol, s.tf, s.compression);
      }
    }
  }

  /** Unsubscribing with the four fields a subscription was granted for undoes it exactly when they name
      a compression. With compression 0 the hub files the subscription under the base compression and
      looks for it under 0, which finds it only when the base compression is 0. */
  lemma UnsubscribeUndoesIff(getConfig: GetConfig, keys: set<string>, s: Sub)
    requires CleanConfig(getConfig) && |keys| < MAX_SUBS_PER_CLIENT
    requires Resolve(getConfig, s).Added? && Resolve(getConfig, s).key !in keys && RawKey(s) !in keys
    ensures HandleKeys(getConfig, HandleKeys(getConfig, keys, Subscribe(s)), Unsubscribe(s)) == keys
            <==> s.compression != 0 || getConfig(s.symbol, s.market).value.baseCompression == 0
  {
    hide RawKey, CleanConfig;
    AcceptedIff(getConfig, s);
    hide Resolve;
    var k := Resolve(getConfig, s).key;
    assert HandleKeys(getConfig, keys, Subscribe(s)) == keys + {k};
    if k != RawKey(s) {
      assert k in keys + {k} - {RawKey(s)};
    }
  }

  /** The failing case on the seeded futures ticker: after subscribing with compression 0 and
      unsubscribing again, the connection still holds the key of compression 25. */
  lemma ZeroCompressionStays(getConfig: GetConfig)
    requires CleanConfig(getConfig)
    requires getConfig("BTCUSDT", "futures") == Some(TickerConfig("futures", 10_000_000, 25, 10))
    ensures var s := Sub("BTCUSDT", "futures", "1m", 0);
            HandleKeys(getConfig, HandleKeys(getConfig, {}, Subscribe(s)), Unsubscribe(s))
            == {SubKey("futures", "BTCUSDT", "1m", 25)}
  {
    hide SubKey, Parse;
    var s := Sub("BTCUSDT", "futures", "1m", 0);
    if SubKey("futures", "BTCUSDT", "1m", 25) == SubKey("futures", "BTCUSDT", "1m", 0) {
      KeysInjective("futures", "BTCUSDT", "1m", 25, "futures", "BTCUSDT", "1m", 0);
    }
    assert Resolve(getConfig, s) == Added(SubKey("futures", "BTCUSDT", "1m", 25));
  }
}
