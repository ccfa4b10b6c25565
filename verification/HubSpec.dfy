// backend/internal/ws/hub.go and client.go as functions: the subscription index over any kind of
// client identity, and what each message does to it. Validation follows backend/internal/api/validate.go.

module HubSpec {
  import opened Binning
  import opened SubKeys

  datatype Option<+T> = None | Some(value: T)

  datatype TickerConfig = TickerConfig(market: string, tickSize: nat, baseCompression: Uint32, compressionLevels: nat)

  /** Validator.GetConfig: symbol and market to the ticker's configuration. */
  type GetConfig = (string, string) -> Option<TickerConfig>

  datatype Sub = Sub(symbol: string, market: string, tf: string, compression: Uint32)

  datatype Msg = Subscribe(sub: Sub) | Unsubscribe(sub: Sub)

  datatype Outcome = Added(key: string) | UnknownTicker | InvalidParams | LimitExceeded

  const MAX_SUBS_PER_CLIENT := 20

  predicate ValidTF(tf: string, tc: TickerConfig) {
    tf in if tc.market == "spot" then ["15m", "30m", "1h", "4h"] else ["1m", "5m", "15m", "30m", "1h", "4h"]
  }

  /** Zero stands for the base compression; otherwise a multiple of it up to the highest level. */
  predicate ValidCompression(comp: Uint32, tc: TickerConfig) {
    if comp == 0 then true
    else if comp < tc.baseCompression then false
    else if comp > tc.baseCompression * tc.compressionLevels % UINT32 then false
    else tc.baseCompression > 0 && comp % tc.baseCompression == 0
  }

  /** Which compressions are accepted, wrap-around of the bound in 32 bits included. */
  lemma CompressionIff(comp: Uint32, tc: TickerConfig)
    ensures ValidCompression(comp, tc) <==>
            comp == 0 || (tc.baseCompression > 0 && comp % tc.baseCompression == 0 && comp >= tc.baseCompression
                          && comp <= tc.baseCompression * tc.compressionLevels % 4_294_967_296)
  {
  }

  /** While the bound fits in 32 bits, the base compression times 1, 2, ..., levels is accepted, the
      highest level included. */
  lemma MultipleIsAccepted(k: nat, tc: TickerConfig)
    requires tc.baseCompression > 0 && tc.baseCompression * tc.compressionLevels < 4_294_967_296
    requires 1 <= k <= tc.compressionLevels
    ensures k * tc.baseCompression < 4_294_967_296 && ValidCompression(k * tc.baseCompression, tc)
  {
    hide ValidCompression;
    var base, levels := tc.baseCompression, tc.compressionLevels;
    MulMonotone(k, levels, base);
    MulMonotone(1, k, base);
    Remainder(k, base);
    SmallRemainder(base * levels);
    CompressionIff(k * base, tc);
  }

  lemma Remainder(k: int, base: nat)
    requires base > 0
    ensures k * base % base == 0
  {
    IndexOfMultiple(k, base);
    DivBounds(k * base, base);
  }

  lemma SmallRemainder(n: nat)
    requires n < 4_294_967_296
    ensures n % 4_294_967_296 == n
  {
  }

  /** And 0 apart, nothing else is. */
  lemma AcceptedIsMultiple(comp: Uint32, tc: TickerConfig)
    requires tc.baseCompression > 0 && tc.baseCompression * tc.compressionLevels < 4_294_967_296
    requires ValidCompression(comp, tc) && comp != 0
    ensures comp == comp / tc.baseCompression * tc.baseCompression
    ensures 1 <= comp / tc.baseCompression <= tc.compressionLevels
  {
    hide ValidCompression;
    var base, levels := tc.baseCompression, tc.compressionLevels;
    CompressionIff(comp, tc);
    SmallRemainder(base * levels);
    WholeQuotient(comp, base);
    AtMostLevels(comp / base, levels, base);
  }

  lemma WholeQuotient(comp: nat, base: nat)
    requires base > 0 && comp % base == 0
    ensures comp == comp / base * base
  {
    DivBounds(comp, base);
  }

  lemma AtMostLevels(k: int, levels: nat, base: nat)
    requires base > 0 && 1 <= k * base <= base * levels
    ensures 1 <= k <= levels
  {
    if k > levels {
      MulMonotone(levels + 1, k, base);
    }
    if k < 1 {
      MulMonotone(k, 0, base);
    }
  }

  /** The top multiplier of the seeded futures ticker can be subscribed. */
  lemma TopLevelIsAccepted()
    ensures ValidCompression(250, TickerConfig("futures", 10_000_000, 25, 10))
    ensures !ValidCompression(275, TickerConfig("futures", 10_000_000, 25, 10))
    ensures !ValidCompression(30, TickerConfig("futures", 10_000_000, 25, 10))
  {
  }

  lemma TimeframeIff(tf: string, tc: TickerConfig)
    ensures ValidTF(tf, tc) <==>
            || tf == "15m" || tf == "30m" || tf == "1h" || tf == "4h"
            || (tc.market != "spot" && (tf == "1m" || tf == "5m"))
  {
  }

  function NormalComp(comp: Uint32, tc: TickerConfig): Uint32 {
    if comp == 0 then tc.baseCompression else comp
  }

  /** The key a subscription request resolves to, or why it is refused. */
  function Resolve(getConfig: GetConfig, s: Sub): Outcome {
    if s.symbol == "" || s.market == "" || s.tf == "" then InvalidParams else
    match getConfig(s.symbol, s.market)
    case None => UnknownTicker
    case Some(tc) =>
      if !ValidTF(s.tf, tc) || !ValidCompression(s.compression, tc) then InvalidParams
      else Added(SubKey(s.market, s.symbol, s.tf, NormalComp(s.compression, tc)))
  }

  function RawKey(s: Sub): string {
    SubKey(s.market, s.symbol, s.tf, s.compression)
  }

  // ----- the effect of a message on one connection's keys -----

  function HandleKeys(getConfig: GetConfig, keys: set<string>, msg: Msg): set<string> {
    match msg
    case Subscribe(s) =>
      var r := Resolve(getConfig, s);
      if r.Added? && |keys| < MAX_SUBS_PER_CLIENT then keys + {r.key} else keys
    case Unsubscribe(s) => keys - {RawKey(s)}
  }

  predicate Fits(s: Sub, tc: TickerConfig) {
    ValidTF(s.tf, tc) && ValidCompression(s.compression, tc)
  }

  /** What a request comes to: missing fields first, then the ticker, then timeframe and compression; a
      granted one is filed under its compression, 0 standing for the base. */
  lemma ResolveIff(getConfig: GetConfig, s: Sub)
    ensures var r := Resolve(getConfig, s); var named := s.symbol != "" && s.market != "" && s.tf != "";
            && (r == UnknownTicker <==> named && getConfig(s.symbol, s.market) == None)
            && (r == InvalidParams <==> (!named || (getConfig(s.symbol, s.market).Some?
                                                  && !Fits(s, getConfig(s.symbol, s.market).value))))
            && r != LimitExceeded
    ensures Resolve(getConfig, s).Added? ==>
              var base := if getConfig(s.symbol, s.market).Some?
                          then getConfig(s.symbol, s.market).value.baseCompression else 0;
              Resolve(getConfig, s).key
              == SubKey(s.market, s.symbol, s.tf, if s.compression == 0 then base else s.compression)
  {
    hide ValidTF, ValidCompression, SubKey;
  }

  /** A grant needs fewer than 20 keys, even for a key the connection already holds. */
  lemma SubscribeGrantsIff(getConfig: GetConfig, keys: set<string>, s: Sub)
    ensures HandleKeys(getConfig, keys, Subscribe(s))
         == if Resolve(getConfig, s).Added? && |keys| < 20 then keys + {Resolve(getConfig, s).key} else keys
  {
  }

  // ----- the index -----

  datatype View<!C(==)> = View(clients: set<C>, keys: map<C, set<string>>, subs: map<string, set<C>>)

  ghost predicate IndexOk<C>(v: View<C>) {
    && v.keys.Keys == v.clients
    && (forall c, k :: c in v.clients ==> (k in v.keys[c] <==> k in v.subs && c in v.subs[k]))
    && (forall k :: k in v.subs ==> v.subs[k] != {} && v.subs[k] <= v.clients)
    && (forall c :: c in v.clients ==> |v.keys[c]| <= 20)
  }

  ghost function Registered<C>(v: View<C>, c: C): View<C> {
    View(v.clients + {c}, v.keys[c := {}], v.subs)
  }

  ghost function Unregistered<C>(v: View<C>, c: C): View<C> {
    View(v.clients - {c}, v.keys - {c}, map k | k in v.subs && v.subs[k] - {c} != {} :: v.subs[k] - {c})
  }

  ghost function AddKey<C>(v: View<C>, c: C, key: string): View<C>
    requires c in v.keys
  {
    View(v.clients, v.keys[c := v.keys[c] + {key}],
         v.subs[key := (if key in v.subs then v.subs[key] else {}) + {c}])
  }

  ghost function RemoveKey<C>(v: View<C>, c: C, key: string): View<C>
    requires c in v.keys
  {
    View(v.clients, v.keys[c := v.keys[c] - {key}],
         if key !in v.subs then v.subs
         else if v.subs[key] - {c} == {} then v.subs - {key}
         else v.subs[key := v.subs[key] - {c}])
  }

  ghost function Handled<C>(getConfig: GetConfig, v: View<C>, c: C, msg: Msg): View<C>
    requires c in v.keys
  {
    match msg
    case Subscribe(s) =>
      var r := Resolve(getConfig, s);
      if r.Added? && |v.keys[c]| < MAX_SUBS_PER_CLIENT then AddKey(v, c, r.key) else v
    case Unsubscribe(s) => RemoveKey(v, c, RawKey(s))
  }

  lemma RegisteredOk<C>(v: View<C>, c: C)
    requires IndexOk(v) && c !in v.clients
    ensures IndexOk(Registered(v, c))
  {
    forall k | k in v.subs ensures c !in v.subs[k] {
      assert v.subs[k] <= v.clients;
    }
  }

  lemma UnregisteredOk<C>(v: View<C>, c: C)
    requires IndexOk(v)
    ensures IndexOk(Unregistered(v, c))
    ensures forall k :: k in Unregistered(v, c).subs ==> c !in Unregistered(v, c).subs[k]
  {
    var w := Unregistered(v, c);
    forall d, k | d in w.clients ensures k in w.keys[d] <==> k in w.subs && d in w.subs[k] {
      assert k in v.subs && d in v.subs[k] ==> d in v.subs[k] - {c};
    }
  }

  lemma AddKeyOk<C>(v: View<C>, c: C, key: string)
    requires IndexOk(v) && c in v.clients && |v.keys[c]| < MAX_SUBS_PER_CLIENT
    ensures IndexOk(AddKey(v, c, key))
  {
    var w := AddKey(v, c, key);
    AddKeyAgrees(v, c, key);
    AtMostOneMore(v.keys[c], key);
    forall k | k in w.subs ensures w.subs[k] != {} && w.subs[k] <= w.clients {
      assert k in v.subs || k == key;
    }
  }

  lemma AddKeyAgrees<C>(v: View<C>, c: C, key: string)
    requires IndexOk(v) && c in v.clients
    ensures var w := AddKey(v, c, key);
            forall d, k :: d in w.clients ==> (k in w.keys[d] <==> k in w.subs && d in w.subs[k])
  {
    var w := AddKey(v, c, key);
    forall d, k | d in w.clients ensures k in w.keys[d] <==> k in w.subs && d in w.subs[k] {
      assert k in v.keys[d] <==> k in v.subs && d in v.subs[k];
    }
  }

  lemma AtMostOneMore<T>(a: set<T>, x: T)
    ensures |a + {x}| <= |a| + 1
  {
    if x in a {
      assert a + {x} == a;
    } else {
      OneMoreElement(a, x);
    }
  }

  lemma RemoveKeyOk<C>(v: View<C>, c: C, key: string)
    requires IndexOk(v) && c in v.clients
    ensures IndexOk(RemoveKey(v, c, key))
  {
    var w := RemoveKey(v, c, key);
    RemoveKeyAgrees(v, c, key);
    forall k | k in w.subs ensures w.subs[k] != {} && w.subs[k] <= w.clients {
      assert k in v.subs;
    }
    SubsetSize(v.keys[c] - {key}, v.keys[c]);
  }

  lemma RemoveKeyAgrees<C>(v: View<C>, c: C, key: string)
    requires IndexOk(v) && c in v.clients
    ensures var w := RemoveKey(v, c, key);
            forall d, k :: d in w.clients ==> (k in w.keys[d] <==> k in w.subs && d in w.subs[k])
  {
    var w := RemoveKey(v, c, key);
    forall d, k | d in w.clients ensures k in w.keys[d] <==> k in w.subs && d in w.subs[k] {
      assert k in v.keys[d] <==> k in v.subs && d in v.subs[k];
      assert k in v.subs && d in v.subs[k] && d != c ==> d in v.subs[k] - {c};
    }
  }

  lemma OneMoreElement<T>(a: set<T>, x: T)
    requires x !in a
    ensures |a + {x}| == |a| + 1
  {
  }

  lemma {:induction false} SubsetSize<T>(a: set<T>, b: set<T>)
    requires a <= b
    ensures |a| <= |b|
  {
    assert b == a + (b - a);
  }

  /** Every message keeps the index consistent, acts on its own connection alone, and acts there as
      HandleKeys says. */
  lemma HandledOk<C>(getConfig: GetConfig, v: View<C>, c: C, msg: Msg)
    requires IndexOk(v) && c in v.clients
    ensures var w := Handled(getConfig, v, c, msg);
            IndexOk(w) && w.clients == v.clients && w.keys == v.keys[c := HandleKeys(getConfig, v.keys[c], msg)]
  {
    hide IndexOk, Resolve, RawKey;
    assert c in v.keys by {
      KeysOfClients(v);
    }
    match msg {
      case Subscribe(s) =>
        var r := Resolve(getConfig, s);
        if r.Added? && |v.keys[c]| < MAX_SUBS_PER_CLIENT {
          AddKeyOk(v, c, r.key);
        }
      case Unsubscribe(s) =>
        RemoveKeyOk(v, c, RawKey(s));
    }
  }

  // ----- keys that parse back to what they were printed from -----

  ghost predicate PrintsBack(key: string) {
    var p := Parse(key);
    p.Parsed? && key == SubKey(p.market, p.symbol, p.tf, p.compression)
  }

  ghost predicate KeysPrintBack<C>(v: View<C>) {
    forall k :: k in v.subs ==> PrintsBack(k)
  }

  /** Tickers are configured for colon-free markets. */
  ghost predicate CleanConfig(getConfig: GetConfig) {
    forall s, m :: getConfig(s, m).Some? ==> ':' !in m
  }

  /** What the hub keeps: a consistent index, whose keys parse back. */
  ghost predicate HubOk<C>(getConfig: GetConfig, v: View<C>) {
    IndexOk(v) && (CleanConfig(getConfig) ==> KeysPrintBack(v))
  }

  lemma ResolvedKeyPrintsBack(getConfig: GetConfig, s: Sub)
    requires CleanConfig(getConfig) && Resolve(getConfig, s).Added?
    ensures ':' !in s.market && ':' !in s.tf && PrintsBack(Resolve(getConfig, s).key)
  {
    hide SubKey, Parse;
    RoundTripIff(s.market, s.symbol, s.tf, NormalComp(s.compression, getConfig(s.symbol, s.market).value));
  }

  /** Every message keeps the index consistent and its keys parseable, and acts on its own connection
      alone, as HandleKeys says. */
  lemma HandledKeepsHub<C>(getConfig: GetConfig, v: View<C>, c: C, msg: Msg)
    requires HubOk(getConfig, v) && c in v.clients && c in v.keys
    ensures var w := Handled(getConfig, v, c, msg);
            && HubOk(getConfig, w) && w.clients == v.clients
            && w.keys == v.keys[c := HandleKeys(getConfig, v.keys[c], msg)]
  {
    hide IndexOk, Resolve, PrintsBack, RawKey;
    KeysOfClients(v);
    HandledOk(getConfig, v, c, msg);
    if CleanConfig(getConfig) && msg.Subscribe? && Resolve(getConfig, msg.sub).Added? {
      ResolvedKeyPrintsBack(getConfig, msg.sub);
    }
  }

  lemma RegisteredKeepsHub<C>(getConfig: GetConfig, v: View<C>, c: C)
    requires HubOk(getConfig, v) && c !in v.clients
    ensures HubOk(getConfig, Registered(v, c))
  {
    hide PrintsBack;
    RegisteredOk(v, c);
  }

  lemma UnregisteredKeepsHub<C>(getConfig: GetConfig, v: View<C>, c: C)
    requires HubOk(getConfig, v)
    ensures HubOk(getConfig, Unregistered(v, c))
  {
    hide PrintsBack, IndexOk;
    UnregisteredOk(v, c);
  }

  lemma KeysOfClients<C>(v: View<C>)
    requires IndexOk(v)
    ensures v.keys.Keys == v.clients
  {
  }

  // ----- who hears of a candle close -----

  /** Subscribers of one compression, as collected for a candle close. */
  datatype CompClients<!C(==)> = CompClients(compression: Uint32, clients: set<C>)

  ghost predicate IsStream(key: string, market: string, symbol: string, tf: string) {
    var p := Parse(key);
    p.Parsed? && p.market == market && p.symbol == symbol && p.tf == tf
  }

  function Compressions<C>(groups: seq<CompClients<C>>): set<Uint32> {
    set g | g in groups :: g.compression
  }

  ghost predicate DistinctCompressions<C>(groups: seq<CompClients<C>>) {
    forall i, j :: 0 <= i < j < |groups| ==> groups[i].compression != groups[j].compression
  }

  /** One group per compression, each with the subscribers of its key, and none of the stream left out. */
  ghost predicate CloseGroups<C>(v: View<C>, groups: seq<CompClients<C>>, market: string, symbol: string, tf: string) {
    && DistinctCompressions(groups)
    && (forall g :: g in groups ==> var key := SubKey(market, symbol, tf, g.compression);
          key in v.subs && g.clients == v.subs[key])
    && (forall k :: k in v.subs && IsStream(k, market, symbol, tf) ==> Parse(k).compression in Compressions(groups))
  }

  /** A candle close reaches a registered client once for every compression it subscribes to, and
      for no other. */
  lemma CloseReachesSubscribersOnce<C>(v: View<C>, groups: seq<CompClients<C>>, market: string, symbol: string,
                                       tf: string, c: C, compression: Uint32)
    requires IndexOk(v) && c in v.clients && CloseGroups(v, groups, market, symbol, tf)
    requires ':' !in market && ':' !in tf
    ensures SubKey(market, symbol, tf, compression) in v.keys[c] <==>
            exists g :: g in groups && g.compression == compression && c in g.clients
    ensures forall g, h :: g in groups && h in groups && g.compression == h.compression ==> g == h
  {
    hide SubKey, Parse;
    var key := SubKey(market, symbol, tf, compression);
    RoundTripIff(market, symbol, tf, compression);
    assert key in v.keys[c] <==> key in v.subs && c in v.subs[key];
    if key in v.subs {
      assert compression in Compressions(groups);
      var g :| g in groups && g.compression == compression;
      assert g.clients == v.subs[key];
    }
  }
}
