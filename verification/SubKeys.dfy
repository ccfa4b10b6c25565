// backend/internal/ws/hub.go: subscription keys "market:symbol:tf:compression", printed and parsed.

module SubKeys {
  import opened Digits

  const UINT32 := 0x1_0000_0000

  type Uint32 = n: nat | n < UINT32

  // ----- printing -----

  /** appendU32: digits are written backwards into a ten byte buffer, which always has room. */
  method AppendU32(buf: string, n0: Uint32) returns (r: string)
    ensures r == buf + Print(n0)
  {
    if n0 == 0 {
      return buf + ['0'];
    }
    var tmp := new char[10];
    TenDigitsSuffice();
    hide Pow10, Head;
    var i := WriteDigits(tmp, n0);
    r := buf + tmp[i..];
    WholeHead(n0);
  }

  /** Fill the buffer from its end; the digits are those from i on. */
  method WriteDigits(tmp: array<char>, n0: nat) returns (i: nat)
    requires n0 < Pow10(tmp.Length)
    modifies tmp
    ensures i <= tmp.Length && tmp[i..] == Head(n0)
  {
    hide Print, Pow10, DigitChar, Head;
    var n: nat := n0;
    i := tmp.Length;
    assert Head(n0) + tmp[i..] == Head(n0);
    while n > 0
      invariant i <= tmp.Length && n < Pow10(i)
      invariant Head(n) + tmp[i..] == Head(n0)
    {
      ghost var tail := tmp[i..];
      HeadStep(n, i, tail);
      i := i - 1;
      tmp[i] := DigitChar(n % 10);
      assert tmp[i..] == [DigitChar(n % 10)] + tail;
      n := n / 10;
    }
    NoHead(tmp[i..]);
  }

  /** The digits of n still to be written. */
  ghost function Head(n: nat): string {
    if n == 0 then "" else Print(n)
  }

  lemma WholeHead(n: nat)
    requires n > 0
    ensures Head(n) == Print(n)
  {
  }

  lemma NoHead(tail: string)
    ensures Head(0) + tail == tail
  {
  }

  lemma HeadStep(n: nat, i: nat, tail: string)
    requires 0 < n < Pow10(i)
    ensures i > 0 && n / 10 < Pow10(i - 1)
    ensures Head(n) + tail == Head(n / 10) + ([DigitChar(n % 10)] + tail)
  {
    PrintStep(n);
    hide Print, DigitChar, Head;
    assert Pow10(i) == if i == 0 then 1 else 10 * Pow10(i - 1);
  }

  lemma PrintStep(n: nat)
    requires n > 0
    ensures Head(n) == Head(n / 10) + [DigitChar(n % 10)]
  {
  }

  lemma TenDigitsSuffice()
    ensures UINT32 <= Pow10(10)
  {
    assert Pow10(3) == 1000;
    assert Pow10(6) == 1000 * Pow10(3);
    assert Pow10(10) == 10000 * Pow10(6);
  }

  function SubKey(market: string, symbol: string, tf: string, compression: nat): string {
    market + ":" + symbol + ":" + tf + ":" + Print(compression)
  }

  // ----- parsing -----

  /** Index of the last colon, or -1. */
  function LastColon(s: string): (i: int)
    ensures -1 <= i < |s|
    ensures i >= 0 ==> s[i] == ':' && ':' !in s[i + 1..]
    ensures i < 0 ==> ':' !in s
  {
    if s == "" then -1
    else if s[|s| - 1] == ':' then |s| - 1
    else
      var init := s[..|s| - 1];
      var r := LastColon(init);
      assert s == init + [s[|s| - 1]];
      assert r >= 0 ==> s[r + 1..] == init[r + 1..] + [s[|s| - 1]];
      r
  }

  /** Index of the first colon, or the length. */
  function FirstColon(s: string): (i: nat)
    ensures i <= |s| && ':' !in s[..i]
    ensures i < |s| ==> s[i] == ':'
  {
    if s == "" || s[0] == ':' then 0
    else
      var r := FirstColon(s[1..]);
      assert s[..r + 1] == [s[0]] + s[1..][..r];
      r + 1
  }

  /** The digits of s read as a number with uint32 wrap-around; other characters are skipped. */
  function DigitsMod(s: string): Uint32
  {
    if s == "" then 0
    else
      var n, c := DigitsMod(s[..|s| - 1]), s[|s| - 1];
      if IsDigit(c) then (n * 10 + DigitValue(c)) % UINT32 else n
  }

  /** The digits among the characters. */
  function OnlyDigits(s: string): (r: string)
    ensures AllDigits(r)
  {
    if s == "" then ""
    else
      var rest, c := OnlyDigits(s[..|s| - 1]), s[|s| - 1];
      if '0' <= c <= '9' then rest + [c] else rest
  }

  lemma WrapStep(x: nat, d: nat)
    ensures (x % 4_294_967_296 * 10 + d) % 4_294_967_296 == (x * 10 + d) % 4_294_967_296
  {
    var q := x / 4_294_967_296;
    assert x * 10 + d == (x % 4_294_967_296 * 10 + d) + 4_294_967_296 * (q * 10);
  }

  lemma ValueGrows(digits: string, c: char)
    requires AllDigits(digits) && IsDigit(c)
    ensures Value(digits + [c]) == Value(digits) * 10 + DigitValue(c)
  {
    assert (digits + [c])[..|digits + [c]| - 1] == digits;
  }

  /** What is read is the number the digits denote, modulo 2 to the 32nd. */
  lemma {:induction false} ReadsDigits(s: string)
    ensures DigitsMod(s) == Value(OnlyDigits(s)) % 4_294_967_296
  {
    hide Value, DigitValue;
    if s == "" {
      NoDigits();
    } else {
      var rest, c := OnlyDigits(s[..|s| - 1]), s[|s| - 1];
      ReadsDigits(s[..|s| - 1]);
      if '0' <= c <= '9' {
        ValueGrows(rest, c);
        WrapStep(Value(rest), DigitValue(c));
      }
    }
  }

  lemma NoDigits()
    ensures Value("") == 0
  {
  }

  method ParseU32(s: string) returns (n: Uint32)
    ensures n == DigitsMod(s)
  {
    n := 0;
    for i := 0 to |s|
      invariant n == DigitsMod(s[..i])
    {
      assert s[..i + 1][..i] == s[..i];
      if '0' <= s[i] <= '9' {
        n := (n * 10 + DigitValue(s[i])) % UINT32;
      }
    }
    assert s[..|s|] == s;
  }

  /** Slicing past the end panics in Go; that is how a key with exactly two colons ends. */
  datatype Parsed = Parsed(market: string, symbol: string, tf: string, compression: Uint32) | Panic

  function Parse(key: string): Parsed {
    var i := LastColon(key);
    if i < 0 then Parsed("", "", "", 0) else
    var compression, rest := DigitsMod(key[i + 1..]), key[..i];
    var j := LastColon(rest);
    if j < 0 then Parsed("", "", "", compression) else
    var tf, rest2 := rest[j + 1..], rest[..j];
    var k := FirstColon(rest2);
    if k == |rest2| then Panic else Parsed(rest2[..k], rest2[k + 1..], tf, compression)
  }

  method ParseSubKey(key: string) returns (r: Parsed)
    ensures r == Parse(key)
  {
    var idx := ScanBack(key);
    if idx < 0 {
      return Parsed("", "", "", 0);
    }
    var compression := ParseU32(key[idx + 1..]);
    var rest := key[..idx];
    var idx2 := ScanBack(rest);
    if idx2 < 0 {
      return Parsed("", "", "", compression);
    }
    var tf := rest[idx2 + 1..];
    var rest2 := rest[..idx2];
    var idx3 := 0;
    while idx3 < |rest2| && rest2[idx3] != ':'
      invariant 0 <= idx3 <= |rest2| && FirstColon(rest2) == idx3 + FirstColon(rest2[idx3..])
    {
      assert rest2[idx3..][1..] == rest2[idx3 + 1..];
      idx3 := idx3 + 1;
    }
    if idx3 == |rest2| {
      return Panic;
    }
    r := Parsed(rest2[..idx3], rest2[idx3 + 1..], tf, compression);
  }

  method ScanBack(s: string) returns (idx: int)
    ensures idx == LastColon(s)
  {
    idx := |s| - 1;
    assert s[..|s|] == s;
    while idx >= 0 && s[idx] != ':'
      invariant -1 <= idx < |s| && LastColon(s) == LastColon(s[..idx + 1])
    {
      assert s[..idx + 1][..idx] == s[..idx];
      idx := idx - 1;
    }
  }

  // ----- the round trip -----

  lemma {:induction false} LastColonUnique(s: string, i: nat)
    requires i < |s| && s[i] == ':' && ':' !in s[i + 1..]
    ensures LastColon(s) == i
  {
    if i < |s| - 1 {
      var init := s[..|s| - 1];
      assert s[i + 1..] == init[i + 1..] + [s[|s| - 1]];
      LastColonUnique(init, i);
    }
  }

  lemma {:induction false} FirstColonUnique(s: string, i: nat)
    requires i < |s| && s[i] == ':' && ':' !in s[..i]
    ensures FirstColon(s) == i
  {
    if i > 0 {
      assert s[..i] == [s[0]] + s[1..][..i - 1];
      FirstColonUnique(s[1..], i - 1);
    }
  }

  lemma {:induction false} PrintedDigitsParse(s: string)
    requires AllDigits(s) && Value(s) < UINT32
    ensures DigitsMod(s) == Value(s)
  {
    if s != "" {
      PrintedDigitsParse(s[..|s| - 1]);
    }
  }

  lemma NoColonInDigits(s: string)
    requires AllDigits(s)
    ensures ':' !in s
  {
    forall i | 0 <= i < |s| ensures s[i] != ':' {
      assert IsDigit(s[i]);
    }
  }

  lemma ParsedPartsHaveNoColon(key: string)
    ensures Parse(key).Parsed? ==> ':' !in Parse(key).market && ':' !in Parse(key).tf
  {
  }

  /** Parsing undoes printing exactly for markets and timeframes without colons; the symbol may have any. */
  lemma RoundTripIff(market: string, symbol: string, tf: string, compression: Uint32)
    ensures Parse(SubKey(market, symbol, tf, compression)) == Parsed(market, symbol, tf, compression)
            <==> ':' !in market && ':' !in tf
  {
    ParsedPartsHaveNoColon(SubKey(market, symbol, tf, compression));
    if ':' !in market && ':' !in tf {
      ParsePrinted(market, symbol, tf, compression);
    }
  }

  lemma ParsePrinted(market: string, symbol: string, tf: string, compression: Uint32)
    requires ':' !in market && ':' !in tf
    ensures Parse(SubKey(market, symbol, tf, compression)) == Parsed(market, symbol, tf, compression)
  {
    var digits := Print(compression);
    var key, rest2 := SubKey(market, symbol, tf, compression), market + ":" + symbol;
    var rest := rest2 + ":" + tf;
    NoColonInDigits(digits);
    PrintedDigitsParse(digits);
    hide LastColon, FirstColon, Print, DigitsMod;
    SplitAt(rest, digits, key);
    SplitAt(rest2, tf, rest);
    SplitAt(market, symbol, rest2);
    LastColonUnique(key, |rest|);
    LastColonUnique(rest, |rest2|);
    FirstColonUnique(rest2, |market|);
  }

  lemma SplitAt(a: string, b: string, s: string)
    requires s == a + ":" + b
    ensures |a| < |s| && s[|a|] == ':' && s[..|a|] == a && s[|a| + 1..] == b
  {
  }

  lemma TwentyFive()
    ensures Print(25) == "25"
  {
    assert Print(2) == ['2'];
    assert Print(25) == Print(2) + ['5'];
  }

  /** A key as it is written and read. */
  lemma KeyExample()
    ensures SubKey("futures", "BTCUSDT", "1m", 25) == "futures:BTCUSDT:1m:25"
    ensures Parse("futures:BTCUSDT:1m:25") == Parsed("futures", "BTCUSDT", "1m", 25)
  {
    hide Print, Parse;
    TwentyFive();
    NoColonsHere();
    RoundTripIff("futures", "BTCUSDT", "1m", 25);
  }

  lemma NoColonsHere()
    ensures ':' !in "futures" && ':' !in "1m"
  {
  }

  /** Keys of colon-free markets and timeframes are injective. */
  lemma KeysInjective(m1: string, s1: string, t1: string, c1: Uint32, m2: string, s2: string, t2: string, c2: Uint32)
    requires ':' !in m1 && ':' !in t1 && ':' !in m2 && ':' !in t2
    requires SubKey(m1, s1, t1, c1) == SubKey(m2, s2, t2, c2)
    ensures m1 == m2 && s1 == s2 && t1 == t2 && c1 == c2
  {
    RoundTripIff(m1, s1, t1, c1);
    RoundTripIff(m2, s2, t2, c2);
  }

  function Colons(s: string): nat {
    if s == "" then 0 else Colons(s[..|s| - 1]) + if s[|s| - 1] == ':' then 1 else 0
  }

  lemma {:induction false} ColonsUpToLast(s: string)
    ensures LastColon(s) < 0 ==> Colons(s) == 0
    ensures LastColon(s) >= 0 ==> Colons(s) == Colons(s[..LastColon(s)]) + 1
  {
    if s != "" {
      var init := s[..|s| - 1];
      ColonsUpToLast(init);
      assert LastColon(init) >= 0 ==> s[..LastColon(init)] == init[..LastColon(init)];
    }
  }

  lemma {:induction false} NoColons(s: string)
    ensures Colons(s) == 0 <==> ':' !in s
  {
    if s != "" {
      var init := s[..|s| - 1];
      NoColons(init);
      assert s == init + [s[|s| - 1]];
    }
  }

  lemma NoFirstColon(s: string)
    ensures FirstColon(s) == |s| <==> ':' !in s
  {
    var i := FirstColon(s);
    if i < |s| {
      assert s[i] in s;
    } else {
      assert s[..i] == s;
    }
  }

  /** Parsing panics on exactly the keys with two colons. Printed keys have at least three. */
  lemma PanicIffTwoColons(key: string)
    ensures Parse(key).Panic? <==> Colons(key) == 2
  {
    ColonsUpToLast(key);
    var i := LastColon(key);
    if i >= 0 {
      var rest := key[..i];
      ColonsUpToLast(rest);
      if LastColon(rest) >= 0 {
        NoColons(rest[..LastColon(rest)]);
        NoFirstColon(rest[..LastColon(rest)]);
      }
    }
  }
}
