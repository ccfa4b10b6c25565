// backend/internal/cache/redis.go: the live cells of the open candle, kept as "bid,ask" strings with one
// decimal in a hash whose fields are bin prices with one decimal. Every trade reads a string, adds and
// writes a string back, so rounding happens once per trade.

module RedisCells {
  import opened Digits
  import opened Binning
  import Decimals
  import opened Rounding
  import opened Cells
  import opened Trades

  // ----- printing with one decimal: %.1f and FormatFloat(.., 'f', 1, 64) -----

  /** Nearest integer, ties to the even one. */
  function RoundEven(x: real): int {
    var low := x.Floor;
    var rest := x - low as real;
    if rest < 0.5 || (rest == 0.5 && low % 2 == 0) then low else low + 1
  }

  /** What a value becomes when it is printed with one decimal. */
  function Tenth(v: real): real {
    (if v < 0.0 then -RoundEven(-v * 10.0) else RoundEven(v * 10.0)) as real / 10.0
  }

  lemma TenthWithin(v: real)
    ensures -0.05 <= Tenth(v) - v <= 0.05
    ensures IsTenths(Tenth(v))
    ensures IsTenths(v) ==> Tenth(v) == v
  {
    var x := if v < 0.0 then -v * 10.0 else v * 10.0;
    var n := if v < 0.0 then -RoundEven(x) else RoundEven(x);
    assert Tenth(v) * 10.0 == n as real;
    if IsTenths(v) {
      var k := (v * 10.0).Floor;
      FloorIs(x, if v < 0.0 then -k else k);
    }
  }

  /** Of two equally near tenths the one with an even last digit. */
  lemma TiesGoToEven(v: real)
    ensures Tenth(v) - v == 0.05 || Tenth(v) - v == -0.05 ==> (Tenth(v) * 10.0).Floor % 2 == 0
  {
    hide RoundEven;
    var x := if v < 0.0 then -v * 10.0 else v * 10.0;
    var n := if v < 0.0 then -RoundEven(x) else RoundEven(x);
    HalfToEven(x);
    assert Tenth(v) * 10.0 == n as real;
    FloorIs(Tenth(v) * 10.0, n);
  }

  lemma HalfToEven(x: real)
    ensures RoundEven(x) as real - x == 0.5 || RoundEven(x) as real - x == -0.5 ==> RoundEven(x) % 2 == 0
  {
  }

  function PrintTenths(n: nat): string {
    Print(n / 10) + "." + [DigitChar(n % 10)]
  }

  function Format1(v: real): string {
    if v < 0.0 then "-" + PrintTenths(Nat(RoundEven(-v * 10.0))) else PrintTenths(Nat(RoundEven(v * 10.0)))
  }

  function Nat(n: int): nat {
    if n < 0 then 0 else n
  }

  // ----- reading: ParseFloat on plain decimals, and Split on commas -----

  predicate Signed(s: string) {
    s != "" && (s[0] == '-' || s[0] == '+')
  }

  function Unsigned(s: string): string {
    if Signed(s) then s[1..] else s
  }

  /** An optional sign, digits, and possibly a point, with at least one digit. */
  predicate IsDecimal(s: string) {
    var u := Unsigned(s);
    var dot := DotIndex(u);
    if dot < 0 then u != "" && AllDigits(u)
    else |u| > 1 && AllDigits(u[..dot]) && AllDigits(u[dot + 1..])
  }

  function DecimalValue(s: string): real
    requires IsDecimal(s)
  {
    var u := Unsigned(s);
    var dot := DotIndex(u);
    var x := if dot < 0 then Value(u) as real
             else Decimal(Value(u[..dot]), Value(u[dot + 1..]), Pow10(|u| - dot - 1));
    if s[0] == '-' then -x else x
  }

  /** ParseFloat with its error ignored. */
  function ParseOrZero(s: string): real {
    if IsDecimal(s) then DecimalValue(s) else 0.0
  }

  /** strings.Split(s, ","). */
  function Split(s: string): (parts: seq<string>)
    ensures parts != []
  {
    if s == "" then [""]
    else
      var parts := Split(s[..|s| - 1]);
      if s[|s| - 1] == ',' then parts + [""]
      else parts[..|parts| - 1] + [parts[|parts| - 1] + [s[|s| - 1]]]
  }

  /** One more character that is not a comma extends the last part. */
  lemma SplitGrows(s: string, c: char)
    requires c != ','
    ensures Split(s + [c]) == Split(s)[..|Split(s)| - 1] + [Split(s)[|Split(s)| - 1] + [c]]
  {
    assert (s + [c])[..|s + [c]| - 1] == s;
  }

  lemma {:induction false} SplitAppend(s: string, b: string)
    requires ',' !in b
    ensures Split(s + b) == Split(s)[..|Split(s)| - 1] + [Split(s)[|Split(s)| - 1] + b]
  {
    hide Split;
    if b == "" {
      assert s + b == s;
      assert Split(s)[|Split(s)| - 1] + b == Split(s)[|Split(s)| - 1];
    } else {
      var b', c := b[..|b| - 1], b[|b| - 1];
      assert c in b;
      SplitAppend(s, b');
      SplitGrows(s + b', c);
      assert s + b == s + b' + [c];
      assert Split(s)[|Split(s)| - 1] + b' + [c] == Split(s)[|Split(s)| - 1] + b;
    }
  }

  lemma SplitPair(a: string, b: string)
    requires ',' !in a && ',' !in b
    ensures Split(a + "," + b) == [a, b]
  {
    SplitAppend("", a);
    assert "" + a == a;
    var s := a + ",";
    assert s[..|s| - 1] == a;
    assert Split(s) == [a, ""];
    SplitAppend(s, b);
    assert "" + b == b;
  }

  // ----- what is printed is read back -----

  lemma {:induction false} DotAfterDigits(s: string, i: nat)
    requires i < |s| && s[i] == '.' && AllDigits(s[..i])
    ensures DotIndex(s) == i
  {
    if i > 0 {
      assert s[..i][0] == s[0] && s[1..][..i - 1] == s[..i][1..];
      DotAfterDigits(s[1..], i - 1);
    }
  }

  lemma OneDigit(d: nat)
    requires d < 10
    ensures AllDigits([DigitChar(d)]) && Value([DigitChar(d)]) == d
  {
    assert [DigitChar(d)][..0] == "";
  }

  lemma TenthsValue(n: nat)
    ensures Decimal(n / 10, n % 10, Pow10(1)) == n as real / 10.0
  {
    assert Pow10(1) == 10 * Pow10(0);
    assert n == n / 10 * 10 + n % 10;
  }

  /** Digits, a point and more digits, with or without a sign, parse to the decimal they denote. */
  lemma PartsParse(s: string, whole: string, part: string)
    requires AllDigits(whole) && AllDigits(part) && part != "" && Unsigned(s) == whole + "." + part
    ensures IsDecimal(s)
    ensures var x := Decimal(Value(whole), Value(part), Pow10(|part|));
            DecimalValue(s) == if s[0] == '-' then -x else x
  {
    hide DotIndex, Pow10, Decimal, Value;
    var u := Unsigned(s);
    assert u[|whole|] == '.' && u[..|whole|] == whole && u[|whole| + 1..] == part;
    DotAfterDigits(u, |whole|);
  }

  lemma TenthsParse(n: nat)
    ensures var s := PrintTenths(n);
            && IsDecimal(s) && DecimalValue(s) == n as real / 10.0
            && IsDecimal("-" + s) && DecimalValue("-" + s) == -(n as real / 10.0)
  {
    hide Print, Pow10, Decimal, DigitChar, Value, IsDecimal, DecimalValue;
    var whole, part := Print(n / 10), [DigitChar(n % 10)];
    var s := whole + "." + part;
    OneDigit(n % 10);
    TenthsValue(n);
    assert IsDigit(whole[0]) && s[0] == whole[0];
    assert Unsigned(s) == s;
    assert ("-" + s)[0] == '-' && Unsigned("-" + s) == s;
    PartsParse(s, whole, part);
    PartsParse("-" + s, whole, part);
  }

  /** Printing with one decimal and parsing loses what rounding to tenths loses, and nothing else. */
  lemma PrintThenParse(v: real)
    ensures IsDecimal(Format1(v)) && DecimalValue(Format1(v)) == Tenth(v)
  {
    hide IsDecimal, DecimalValue, PrintTenths;
    TenthsParse(Nat(RoundEven(if v < 0.0 then -v * 10.0 else v * 10.0)));
  }

  lemma NoCommaInNumber(v: real)
    ensures ',' !in Format1(v)
  {
    hide Print;
    var n := Nat(RoundEven(if v < 0.0 then -v * 10.0 else v * 10.0));
    var whole := Print(n / 10);
    forall c | c in whole ensures c != ',' {
      var i :| 0 <= i < |whole| && whole[i] == c;
      assert IsDigit(whole[i]);
    }
  }

  // ----- one hash -----

  type Hash = map<string, string>

  function FieldOf(price: Price): string {
    Format1(price as real / PRICE_UNIT as real)
  }

  /** What is stored for one side under a field; nothing or anything malformed counts as zero. */
  function Stored(h: Hash, field: string, side: Side): real {
    if field !in h || |Split(h[field])| != 2 then 0.0
    else match side
      case Bid => ParseOrZero(Split(h[field])[0])
      case Ask => ParseOrZero(Split(h[field])[1])
  }

  function Pair(bid: real, ask: real): string {
    Format1(bid) + "," + Format1(ask)
  }

  /** The hash after one read, add and write back. */
  function Incr(h: Hash, field: string, bidDelta: real, askDelta: real): Hash {
    h[field := Pair(Stored(h, field, Bid) + bidDelta, Stored(h, field, Ask) + askDelta)]
  }

  lemma PrintExamples()
    ensures PrintTenths(250) == "25.0" && PrintTenths(30) == "3.0"
    ensures PrintTenths(15) == "1.5" && PrintTenths(5) == "0.5"
  {
    assert Print(2) == "2" && Print(25) == Print(2) + ['5'];
    assert Print(25) == "25";
    assert Print(3) == "3" && Print(1) == "1" && Print(0) == "0";
    assert DigitChar(0) == '0' && DigitChar(5) == '5';
  }

  lemma FormatExamples()
    ensures Format1(25.0) == "25.0" && Format1(3.0) == "3.0" && Format1(1.5) == "1.5" && Format1(-0.5) == "-0.5"
  {
    hide PrintTenths;
    PrintExamples();
    FloorIs(250.0, 250);
    FloorIs(30.0, 30);
    FloorIs(15.0, 15);
    FloorIs(5.0, 5);
    assert RoundEven(250.0) == 250 && RoundEven(30.0) == 30 && RoundEven(15.0) == 15 && RoundEven(5.0) == 5;
  }

  /** A field and a value as they stand in the hash. */
  lemma HashExample()
    ensures Incr(map[], FieldOf(25 * PRICE_UNIT), 3.0, 1.5) == map["25.0" := "3.0,1.5"]
  {
    hide Format1;
    FormatExamples();
    assert (25 * PRICE_UNIT) as real / PRICE_UNIT as real == 25.0;
    assert Pair(3.0, 1.5) == "3.0,1.5";
  }

  lemma PairReadsBack(bid: real, ask: real)
    ensures Split(Pair(bid, ask)) == [Format1(bid), Format1(ask)]
    ensures ParseOrZero(Format1(bid)) == Tenth(bid) && ParseOrZero(Format1(ask)) == Tenth(ask)
  {
    hide Split, Format1, IsDecimal, DecimalValue, Tenth;
    NoCommaInNumber(bid);
    NoCommaInNumber(ask);
    SplitPair(Format1(bid), Format1(ask));
    PrintThenParse(bid);
    PrintThenParse(ask);
  }

  /** One increment replaces each side by the rounded sum and touches no other field. */
  lemma IncrAddsAndRounds(h: Hash, field: string, c: Cell, side: Side)
    ensures var after := Incr(h, field, c.bid, c.ask);
            && after.Keys == h.Keys + {field}
            && Stored(after, field, side) == Tenth(Stored(h, field, side) + Amount(c, side))
            && (forall other :: other != field ==> Stored(after, other, side) == Stored(h, other, side))
  {
    hide Split, Format1, ParseOrZero, Tenth, Pair;
    PairReadsBack(Stored(h, field, Bid) + c.bid, Stored(h, field, Ask) + c.ask);
  }

  // ----- a whole run over one hash -----

  /** The hash after these contributions, one increment each, starting from nothing. */
  function Live(cs: seq<Cell>, size: nat): Hash
    requires size > 0
  {
    if cs == [] then map[]
    else
      var c := cs[|cs| - 1];
      Incr(Live(cs[..|cs| - 1], size), FieldOf(Bin(c.price, size)), c.bid, c.ask)
  }

  /** The contributions whose bin prints as the field. */
  function OnField(cs: seq<Cell>, size: nat, field: string): seq<Cell>
    requires size > 0
  {
    if cs == [] then []
    else
      var rest, c := OnField(cs[..|cs| - 1], size, field), cs[|cs| - 1];
      if FieldOf(Bin(c.price, size)) == field then rest + [c] else rest
  }

  /** How many contributions put volume on the side. */
  function Hits(cs: seq<Cell>, side: Side): nat {
    if cs == [] then 0
    else Hits(cs[..|cs| - 1], side) + if Amount(cs[|cs| - 1], side) != 0.0 then 1 else 0
  }

  lemma HitsAppend(cs: seq<Cell>, c: Cell, side: Side)
    ensures Hits(cs + [c], side) == Hits(cs, side) + if Amount(c, side) != 0.0 then 1 else 0
  {
    assert (cs + [c])[..|cs + [c]| - 1] == cs;
  }

  /** A stored number is in tenths and off by at most 0.05 per hit. */
  ghost predicate Within(stored: real, exact: real, hits: nat) {
    IsTenths(stored) && -(0.05 * hits as real) <= stored - exact <= 0.05 * hits as real
  }

  /** Adding an amount and rounding costs at most 0.05, and nothing when the amount is zero. */
  lemma OneMoreRounding(was: real, exact: real, hits: nat, amount: real)
    requires Within(was, exact, hits)
    ensures Within(Tenth(was + amount), exact + amount, hits + if amount != 0.0 then 1 else 0)
  {
    hide Tenth, IsTenths;
    TenthWithin(was + amount);
  }

  lemma OneMoreOnField(h: Hash, mine: seq<Cell>, field: string, c: Cell, side: Side)
    requires Within(Stored(h, field, side), Total(mine, side, Everywhere), Hits(mine, side))
    ensures Within(Stored(Incr(h, field, c.bid, c.ask), field, side), Total(mine + [c], side, Everywhere),
                   Hits(mine + [c], side))
  {
    hide Within, Incr, Stored, Tenth, Total, Hits;
    IncrAddsAndRounds(h, field, c, side);
    HitsAppend(mine, c, side);
    TotalAppend(mine, c, side, Everywhere);
    OneMoreRounding(Stored(h, field, side), Total(mine, side, Everywhere), Hits(mine, side), Amount(c, side));
  }

  lemma {:induction false} DriftWithin(cs: seq<Cell>, size: nat, field: string, side: Side)
    requires size > 0
    ensures field in Live(cs, size) <==> OnField(cs, size, field) != []
    ensures var mine := OnField(cs, size, field);
            Within(Stored(Live(cs, size), field, side), Total(mine, side, Everywhere), Hits(mine, side))
  {
    if cs == [] {
      NothingStored(field, side);
    } else {
      hide Bin, FieldOf, Incr, Stored, Within, Total, Hits;
      var init, c := cs[..|cs| - 1], cs[|cs| - 1];
      DriftWithin(init, size, field, side);
      IncrAddsAndRounds(Live(init, size), FieldOf(Bin(c.price, size)), c, side);
      if FieldOf(Bin(c.price, size)) == field {
        OneMoreOnField(Live(init, size), OnField(init, size, field), field, c, side);
      }
    }
  }

  /** Every trade on a field adds at most half a tenth of error on its own side and none on the other;
      what other fields receive does not matter. */
  lemma Drift(cs: seq<Cell>, size: nat, field: string, side: Side)
    requires size > 0
    ensures field in Live(cs, size) <==> OnField(cs, size, field) != []
    ensures IsTenths(Stored(Live(cs, size), field, side))
    ensures var mine := OnField(cs, size, field);
            var e := Stored(Live(cs, size), field, side) - Total(mine, side, Everywhere);
            var bound := 0.05 * Hits(mine, side) as real;
            -bound <= e <= bound
  {
    hide Live, OnField, Stored, Total, Hits, IsTenths;
    DriftWithin(cs, size, field, side);
  }

  lemma NothingStored(field: string, side: Side)
    ensures Stored(map[], field, side) == 0.0 && IsTenths(0.0)
  {
    RoundExact(0.0);
  }

  /** With quantities in whole tenths the running rounding changes nothing. */
  lemma {:induction false} NoDriftInTenths(cs: seq<Cell>, size: nat, field: string, side: Side)
    requires size > 0 && forall c :: c in cs ==> IsTenths(Amount(c, side))
    ensures Stored(Live(cs, size), field, side) == Total(OnField(cs, size, field), side, Everywhere)
  {
    hide Bin, FieldOf, Incr, Stored, Tenth, IsTenths;
    if cs == [] {
      NothingStored(field, side);
    } else {
      var init, c := cs[..|cs| - 1], cs[|cs| - 1];
      assert c in cs;
      NoDriftInTenths(init, size, field, side);
      Drift(init, size, field, side);
      IncrAddsAndRounds(Live(init, size), FieldOf(Bin(c.price, size)), c, side);
      TenthsAdd(Stored(Live(init, size), field, side), Amount(c, side));
      TenthWithin(Stored(Live(init, size), field, side) + Amount(c, side));
      TotalAppend(OnField(init, size, field), c, side, Everywhere);
    }
  }

  // ----- fields against bins -----

  /** A bin price survives being printed as a field exactly when it is a multiple of 0.1. */
  lemma PriceSurvivesIff(bin: Price)
    ensures IsDecimal(FieldOf(bin))
    ensures DecimalValue(FieldOf(bin)) == bin as real / PRICE_UNIT as real <==> bin % TENTH == 0
  {
    hide IsDecimal, DecimalValue, Format1, IsTenths;
    var x := bin as real / PRICE_UNIT as real;
    PrintThenParse(x);
    TenthWithin(x);
    TenthsOfUnits(bin, x);
  }

  lemma TenthsOfUnits(bin: Price, x: real)
    requires x == bin as real / PRICE_UNIT as real
    ensures IsTenths(x) <==> bin % TENTH == 0
  {
    var k := bin / TENTH;
    assert bin == k * TENTH + bin % TENTH;
    assert x * 10.0 == k as real + (bin % TENTH) as real / TENTH as real;
    FloorIs(x * 10.0, k);
  }

  /** Bins at least 0.1 wide never share a field. */
  lemma WideBinsKeepApart(i: int, j: int, size: nat)
    requires size >= TENTH && i < j
    ensures FieldOf(i * size) != FieldOf(j * size)
  {
    hide IsDecimal, DecimalValue, FieldOf, Format1, Tenth;
    MulMonotone(i + 1, j, size);
    FieldValue(i * size);
    FieldValue(j * size);
    if size == TENTH {
      IndexOfMultiple(i, size);
      IndexOfMultiple(j, size);
      DivBounds(i * size, size);
      DivBounds(j * size, size);
      PriceSurvivesIff(i * size);
      PriceSurvivesIff(j * size);
    } else {
      FarApart(i * size, j * size);
    }
  }

  lemma FieldValue(p: Price)
    ensures IsDecimal(FieldOf(p)) && DecimalValue(FieldOf(p)) == Tenth(p as real / PRICE_UNIT as real)
  {
    PrintThenParse(p as real / PRICE_UNIT as real);
  }

  lemma FarApart(p: Price, q: Price)
    requires p + TENTH < q
    ensures Tenth(p as real / PRICE_UNIT as real) < Tenth(q as real / PRICE_UNIT as real)
  {
    hide Tenth, IsTenths;
    TenthWithin(p as real / PRICE_UNIT as real);
    TenthWithin(q as real / PRICE_UNIT as real);
  }

  lemma NearestField(p: Price, n: nat)
    requires p >= 0
    requires -TENTH < 2 * (p - n * TENTH) < TENTH || (2 * (p - n * TENTH) == -TENTH && n % 2 == 0)
          || (2 * (p - n * TENTH) == TENTH && n % 2 == 0)
    ensures FieldOf(p) == PrintTenths(n)
  {
    hide PrintTenths;
    var x := p as real / PRICE_UNIT as real * 10.0;
    assert x - n as real == (p - n * TENTH) as real / TENTH as real;
    var low: int := if p >= n * TENTH then n as int else n as int - 1;
    FloorIs(x, low);
  }

  /** Bin m lags m tenths by `lag` price units; that decides its field. */
  lemma LaggingField(m: nat, lag: nat, size: nat, n: nat)
    requires m * size == m * TENTH - lag
    requires 2 * lag == TENTH ==> n % 2 == 0
    requires (m == n && 2 * lag <= TENTH) || (m == n + 1 && TENTH <= 2 * lag < 3 * TENTH)
    ensures FieldOf(m * size) == PrintTenths(n)
  {
    hide FieldOf, PrintTenths;
    NearestField(m * size, n);
  }

  /** Below a width of 0.1 some two neighbouring bins do share a field. */
  lemma NarrowBinsCollide(size: nat) returns (i: nat)
    requires 0 < size < TENTH
    ensures FieldOf(i * size) == FieldOf((i + 1) * size)
  {
    hide FieldOf, PrintTenths;
    var d := TENTH - size;
    var k := Decimals.FirstLate(d);
    Decimals.Lag(k - 1, d, size);
    if 2 * ((k - 1) * d) < TENTH || k % 2 == 1 {
      i := k - 1;
      Decimals.Lag(k, d, size);
      LaggingField(k, k * d, size, k - 1);
      LaggingField(k - 1, (k - 1) * d, size, k - 1);
    } else {
      i := k - 2;
      Decimals.Lag(k - 2, d, size);
      LaggingField(k - 1, (k - 1) * d, size, k - 2);
      LaggingField(k - 2, (k - 2) * d, size, k - 2);
    }
  }

  /** With bins at least 0.1 wide a field collects exactly the trades of one bin. */
  lemma {:induction false} FieldIsBin(cs: seq<Cell>, size: nat, bin: Price, side: Side)
    requires size >= TENTH && Bin(bin, size) == bin
    ensures Total(OnField(cs, size, FieldOf(bin)), side, Everywhere) == Total(cs, side, InBin(size, bin))
    ensures Hits(OnField(cs, size, FieldOf(bin)), side) <= Hits(cs, side)
  {
    hide FieldOf;
    if cs != [] {
      var init, c := cs[..|cs| - 1], cs[|cs| - 1];
      FieldIsBin(init, size, bin, side);
      HitsAppend(OnField(init, size, FieldOf(bin)), c, side);
      TotalAppend(OnField(init, size, FieldOf(bin)), c, side, Everywhere);
      var i, j := BinIndex(c.price, size), BinIndex(bin, size);
      if i < j {
        WideBinsKeepApart(i, j, size);
      } else if j < i {
        WideBinsKeepApart(j, i, size);
      }
    }
  }

  /** The live cell of a bin against the aggregator's own rounded cell of the same trades: at most half a
      tenth apart per trade on that side, plus half a tenth for the aggregator's one rounding. */
  lemma LiveNearAggregator(cs: seq<Cell>, size: nat, snapshot: seq<Cell>, cell: Cell, side: Side)
    requires size >= TENTH && IsSnapshot(snapshot, Group(cs, size)) && cell in snapshot
    ensures FieldOf(cell.price) in Live(cs, size)
    ensures var hits := Hits(OnField(cs, size, FieldOf(cell.price)), side);
            var e := Stored(Live(cs, size), FieldOf(cell.price), side) - Amount(cell, side);
            var bound := 0.05 * (hits + 1) as real;
            -bound <= e <= bound
    ensures SideInTenths(cs, side) ==> Stored(Live(cs, size), FieldOf(cell.price), side) == Amount(cell, side)
  {
    hide FieldOf, Stored, Live, OnField;
    assert PriceOf(cell) in Prices(snapshot);
    var c :| c in cs && Bin(c.price, size) == cell.price;
    BinIdempotent(c.price, size);
    FieldIsBin(cs, size, cell.price, side);
    Drift(cs, size, FieldOf(cell.price), side);
    RoundWithin(Total(cs, side, InBin(size, cell.price)));
    OccupiedField(cs, size, c);
    if SideInTenths(cs, side) {
      NoDriftInTenths(cs, size, FieldOf(cell.price), side);
      RoundExact(Total(cs, side, InBin(size, cell.price)));
    }
  }

  ghost predicate SideInTenths(cs: seq<Cell>, side: Side) {
    forall c :: c in cs ==> IsTenths(Amount(c, side))
  }

  lemma {:induction false} OccupiedField(cs: seq<Cell>, size: nat, c: Cell)
    requires size > 0 && c in cs
    ensures OnField(cs, size, FieldOf(Bin(c.price, size))) != []
  {
    hide FieldOf, Bin;
    var init, last := cs[..|cs| - 1], cs[|cs| - 1];
    assert cs == init + [last];
    if c != last {
      OccupiedField(init, size, c);
    }
  }

  // ----- the store -----

  /** One cell as the hub reads it back. */
  datatype LiveCell = LiveCell(price: real, bid: real, ask: real)

  predicate Readable(h: Hash, field: string) {
    field in h && IsDecimal(field) && |Split(h[field])| == 2
  }

  /** The cells are those of the readable fields, each once: the field's price, what is stored for the bid
      and what is stored for the ask. */
  ghost predicate ReadFrom(cells: seq<LiveCell>, fields: seq<string>, h: Hash) {
    && (forall f :: f in fields <==> Readable(h, f))
    && (forall i, j :: 0 <= i < j < |fields| ==> fields[i] != fields[j])
    && |cells| == |fields|
    && forall i :: 0 <= i < |cells| ==>
         && Readable(h, fields[i]) && cells[i].price == DecimalValue(fields[i])
         && cells[i].bid == Stored(h, fields[i], Bid) && cells[i].ask == Stored(h, fields[i], Ask)
  }

  function ReadableFields(h: Hash): set<string> {
    set f | f in h && Readable(h, f)
  }

  lemma StoredParts(h: Hash, field: string)
    requires field in h && |Split(h[field])| == 2
    ensures Stored(h, field, Bid) == ParseOrZero(Split(h[field])[0])
    ensures Stored(h, field, Ask) == ParseOrZero(Split(h[field])[1])
  {
  }

  /** Distinct fields, all readable ones: as many as there are. */
  lemma AllReadable(h: Hash, fields: seq<string>)
    requires forall f :: f in fields <==> Readable(h, f)
    requires forall i, j :: 0 <= i < j < |fields| ==> fields[i] != fields[j]
    ensures |fields| == |ReadableFields(h)|
  {
    hide Readable;
    Sequences.MembersSize(fields);
    assert ReadableFields(h) == Sequences.Members(fields) by {
      forall f ensures f in ReadableFields(h) <==> f in Sequences.Members(fields) {
        ReadableInHash(h, f);
      }
    }
  }

  lemma ReadableInHash(h: Hash, f: string)
    ensures Readable(h, f) ==> f in h
  {
  }

  class RedisCache {
    var store: map<string, Hash>

    constructor ()
      ensures store == map[]
    {
      store := map[];
    }

    /** HGETALL of a missing key gives an empty hash. */
    function HashAt(key: string): Hash
      reads this
    {
      if key in store then store[key] else map[]
    }

    method IncrCell(key: string, priceLow: Price, bidDelta: real, askDelta: real)
      modifies this
      ensures store == old(store)[key := Incr(old(HashAt(key)), FieldOf(priceLow), bidDelta, askDelta)]
    {
      hide Split, Format1, IsDecimal, DecimalValue, FieldOf;
      var field := FieldOf(priceLow);
      var bid, ask := 0.0, 0.0;
      var hash := HashAt(key);
      if field in hash {
        var parts := Split(hash[field]);
        if |parts| == 2 {
          bid, ask := ParseOrZero(parts[0]), ParseOrZero(parts[1]);
        }
      }
      bid := bid + bidDelta;
      ask := ask + askDelta;
      store := store[key := hash[field := Format1(bid) + "," + Format1(ask)]];
    }

    /** The readable cells of a hash, each exactly once, in the order `fields` in which they came up. */
    method GetAggCells(key: string) returns (cells: seq<LiveCell>, ghost fields: seq<string>)
      ensures ReadFrom(cells, fields, HashAt(key))
      ensures |cells| == |ReadableFields(HashAt(key))|
      ensures forall f :: Readable(HashAt(key), f) ==>
                LiveCell(DecimalValue(f), Stored(HashAt(key), f, Bid), Stored(HashAt(key), f, Ask)) in cells
    {
      hide Split, IsDecimal, DecimalValue, Stored, Readable;
      var data := HashAt(key);
      cells, fields := [], [];
      var todo := data.Keys;
      while todo != {}
        invariant todo <= data.Keys
        invariant forall f :: f in todo ==> f !in fields
        invariant forall f :: f in fields <==> f in data && f !in todo && Readable(data, f)
        invariant forall i, j :: 0 <= i < j < |fields| ==> fields[i] != fields[j]
        invariant |cells| == |fields|
        invariant forall i :: 0 <= i < |cells| ==>
                    && cells[i].price == (if IsDecimal(fields[i]) then DecimalValue(fields[i]) else 0.0)
                    && cells[i].bid == Stored(data, fields[i], Bid) && cells[i].ask == Stored(data, fields[i], Ask)
        decreases todo
      {
        ghost var some := Sequences.Pick(todo);
        var field :| field in todo;
        todo := todo - {field};
        ReadableMeans(data, field);
        if !IsDecimal(field) {
          continue;
        }
        var parts := Split(data[field]);
        if |parts| != 2 {
          continue;
        }
        StoredParts(data, field);
        cells := cells + [LiveCell(DecimalValue(field), ParseOrZero(parts[0]), ParseOrZero(parts[1]))];
        fields := fields + [field];
      }
      forall f | Readable(data, f) ensures f in fields && IsDecimal(f) {
        ReadableMeans(data, f);
      }
      AllReadable(data, fields);
      forall f | Readable(data, f)
        ensures LiveCell(DecimalValue(f), Stored(data, f, Bid), Stored(data, f, Ask)) in cells
      {
        var i :| 0 <= i < |fields| && fields[i] == f;
        assert cells[i] == LiveCell(DecimalValue(f), Stored(data, f, Bid), Stored(data, f, Ask));
      }
    }
  }

  lemma ReadableMeans(h: Hash, field: string)
    ensures Readable(h, field) <==> field in h && IsDecimal(field) && |Split(h[field])| == 2
  {
    hide IsDecimal, Split;
  }

  /** The arrivals that belong to one hash: keyOf names the hash of a trade's candle. */
  function ForKey(arrivals: seq<Trade>, keyOf: Trade -> string, key: string): seq<Trade> {
    if arrivals == [] then []
    else
      var rest, t := ForKey(arrivals[..|arrivals| - 1], keyOf, key), arrivals[|arrivals| - 1];
      if keyOf(t) == key then rest + [t] else rest
  }

  lemma ForKeyAppend(arrivals: seq<Trade>, t: Trade, keyOf: Trade -> string, key: string)
    ensures ForKey(arrivals + [t], keyOf, key)
         == if keyOf(t) == key then ForKey(arrivals, keyOf, key) + [t] else ForKey(arrivals, keyOf, key)
  {
    assert (arrivals + [t])[..|arrivals + [t]| - 1] == arrivals;
  }

  lemma LiveAppend(ts: seq<Trade>, t: Trade, size: nat)
    requires size > 0
    ensures Live(AsCells(ts + [t]), size)
         == Incr(Live(AsCells(ts), size), FieldOf(Bin(t.price, size)), AsCell(t).bid, AsCell(t).ask)
  {
    hide Incr, FieldOf, Bin;
    IdsAppend(ts, t);
    var cs := AsCells(ts) + [AsCell(t)];
    assert cs[..|cs| - 1] == AsCells(ts);
  }

  /** The Redis half of the receive loop: every arrival, repeated or not, is added to its candle's hash. */
  method RecordArrivals(cache: RedisCache, arrivals: seq<Trade>, keyOf: Trade -> string, tickSize: nat, comp: nat)
    requires tickSize > 0 && comp > 0
    modifies cache
    ensures forall key :: key !in old(cache.store) ==>
              cache.HashAt(key) == Live(AsCells(ForKey(arrivals, keyOf, key)), BinSize(tickSize, comp))
    ensures forall key :: ForKey(arrivals, keyOf, key) == [] ==> cache.HashAt(key) == old(cache.HashAt(key))
  {
    hide Bin, BinSize, FieldOf, Incr, Live, ForKey;
    var size := BinSize(tickSize, comp);
    NothingRecorded(keyOf, size);
    for i := 0 to |arrivals|
      invariant forall key :: key !in old(cache.store) ==>
                  cache.HashAt(key) == Live(AsCells(ForKey(arrivals[..i], keyOf, key)), size)
      invariant forall key :: ForKey(arrivals[..i], keyOf, key) == [] ==> cache.HashAt(key) == old(cache.HashAt(key))
    {
      var t := arrivals[i];
      assert arrivals[..i + 1] == arrivals[..i] + [t];
      forall key ensures ForKey(arrivals[..i + 1], keyOf, key)
           == if keyOf(t) == key then ForKey(arrivals[..i], keyOf, key) + [t] else ForKey(arrivals[..i], keyOf, key)
      {
        ForKeyAppend(arrivals[..i], t, keyOf, key);
      }
      LiveAppend(ForKey(arrivals[..i], keyOf, keyOf(t)), t, size);
      var bin := BinPriceLow(t.price, tickSize, comp);
      var bidDelta, askDelta := 0.0, 0.0;
      if t.isBuyerMaker {
        bidDelta := t.qty;
      } else {
        askDelta := t.qty;
      }
      cache.IncrCell(keyOf(t), bin, bidDelta, askDelta);
    }
    assert arrivals[..|arrivals|] == arrivals;
  }

  lemma NothingRecorded(keyOf: Trade -> string, size: nat)
    requires size > 0
    ensures forall key :: ForKey([], keyOf, key) == []
    ensures Live(AsCells([]), size) == map[]
  {
    assert AsCells([]) == [];
  }
}
