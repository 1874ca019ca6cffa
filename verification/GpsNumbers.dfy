/** The fixed-point numbers of TinyGPS/TinyGPS.cpp, in 32-bit unsigned arithmetic. */
module GpsNumbers {
  import opened Bytes

  predicate Digit(c: Byte) {
    0x30 <= c <= 0x39
  }

  /** The number a digit stands for. */
  function Num(c: Byte): (d: nat)
    requires Digit(c)
    ensures d <= 9
  {
    var x: int := c;
    x - 0x30
  }

  const DOT: Byte := 0x2E
  const MINUS: Byte := 0x2D

  /** How many digits text begins with. */
  function Digits(text: seq<Byte>): (n: nat)
    ensures n <= |text| && forall i :: 0 <= i < n ==> Digit(text[i])
    ensures n < |text| ==> !Digit(text[n])
  {
    if text == [] || !Digit(text[0]) then 0
    else
      var n := Digits(text[1..]);
      assert forall i :: 1 <= i < n + 1 ==> text[i] == text[1..][i - 1];
      n + 1
  }

  /** The value of a run of digits. */
  function Value(ds: seq<Byte>): nat
    requires forall d :: d in ds ==> Digit(d)
  {
    if ds == [] then 0 else 10 * Value(ds[..|ds| - 1]) + Num(ds[|ds| - 1])
  }

  function Pow10(k: nat): (p: nat)
    ensures p >= 1
  {
    if k == 0 then 1 else 10 * Pow10(k - 1)
  }

  /** The digits in front of the point, and those behind it. */
  function Whole(text: seq<Byte>): seq<Byte> {
    text[..Digits(text)]
  }

  function Fraction(text: seq<Byte>): (ds: seq<Byte>)
    ensures forall d :: d in ds ==> Digit(d)
  {
    var n := Digits(text);
    if n < |text| && text[n] == DOT then text[n + 1..][..Digits(text[n + 1..])] else []
  }

  /** gpsatol: the accumulator is 32 bits wide. */
  function Atol(text: seq<Byte>): nat {
    Value(Whole(text)) % U32
  }

  method GpsAtol(text: seq<Byte>) returns (ret: nat)
    ensures ret == Atol(text)
  {
    ret := 0;
    var i := 0;
    while i < |text| && Digit(text[i])
      invariant i <= Digits(text) && ret == Value(text[..i]) % U32
    {
      assert text[..i + 1][..i] == text[..i];
      WrapStep(Value(text[..i]), Num(text[i]));
      ret := (10 * ret + Num(text[i])) % U32;
      i := i + 1;
    }
  }

  lemma WrapStep(v: nat, d: int)
    requires 0 <= d <= 9
    ensures (10 * (v % U32) + d) % U32 == (10 * v + d) % U32
  {
    var q := v / U32;
    assert v == q * U32 + v % U32;
    assert 10 * v + d == 10 * q * U32 + (10 * (v % U32) + d);
    ModShift(10 * (v % U32) + d, 10 * q);
  }

  lemma {:induction false} ModShift(x: nat, q: nat)
    ensures (q * U32 + x) % U32 == x % U32
    decreases q
  {
    if q > 0 {
      ModShift(x, q - 1);
      assert q * U32 + x == ((q - 1) * U32 + x) + U32;
    }
  }

  // ----- degrees -----

  /** The angle ddmm.mmm in units of 1e-5 degrees, rounded down, for any number of fraction digits: dd whole
      degrees and mm.mmm / 60 of one. */
  function ExactDegrees(text: seq<Byte>): nat {
    var n, p := Value(Whole(text)), Pow10(|Fraction(text)|);
    (n / 100) * 100000 + Div(((n % 100) * p + Value(Fraction(text))) * 10000, 6 * p)
  }

  function Div(a: nat, b: nat): nat
    requires b > 0
  {
    a / b
  }

  /** What the loop over the fraction adds: digit i has weight 1000, 100, 10, 1, 0, 0 ... */
  function Weight(i: nat): nat {
    if i == 0 then 1000 else Weight(i - 1) / 10
  }

  function Weighted(ds: seq<Byte>): nat
    requires forall d :: d in ds ==> Digit(d)
  {
    if ds == [] then 0 else Weighted(ds[..|ds| - 1]) + Weight(|ds| - 1) * Num(ds[|ds| - 1])
  }

  /** parse_degrees. */
  method ParseDegrees(text: seq<Byte>) returns (r: nat)
    ensures r == Degrees(text)
  {
    var left := GpsAtol(text);
    var tenk_minutes := (left % 100) * 10000;
    var p := 0;
    while p < |text| && Digit(text[p])
      invariant p <= Digits(text)
    {
      p := p + 1;
    }
    if p < |text| && text[p] == DOT {
      var mult := 1000;
      var i := 0;
      p := p + 1;
      ghost var ds := Fraction(text);
      while p < |text| && Digit(text[p])
        invariant i <= |ds| && p == Digits(text) + 1 + i && mult == Weight(i)
        invariant tenk_minutes == (left % 100) * 10000 + Weighted(ds[..i])
      {
        assert ds[..i + 1][..i] == ds[..i];
        tenk_minutes := tenk_minutes + mult * Num(text[p]);
        mult := mult / 10;
        p := p + 1;
        i := i + 1;
      }
      assert ds[..i] == ds;
    }
    r := ((left / 100) * 100000 + tenk_minutes / 6) % U32;
  }

  /** The function parse_degrees computes. */
  function Degrees(text: seq<Byte>): nat {
    var left := Atol(text);
    ((left / 100) * 100000 + ((left % 100) * 10000 + Weighted(Fraction(text))) / 6) % U32
  }

  // ----- exactness -----

  lemma DivIs(a: nat, b: nat, q: nat)
    requires b > 0 && q * b <= a < (q + 1) * b
    ensures Div(a, b) == q
  {
    var d := a / b;
    assert d * b <= a < (d + 1) * b;
    if d < q { MulMono(d + 1, q, b); }
    if q < d { MulMono(q + 1, d, b); }
  }

  lemma MulMono(x: nat, y: nat, b: nat)
    requires x <= y
    ensures x * b <= y * b
  {
    assert y * b == x * b + (y - x) * b;
  }

  /** Up to four digits the fraction is kept exactly. */
  lemma {:induction false} WeightedShort(ds: seq<Byte>)
    requires (forall d :: d in ds ==> Digit(d)) && |ds| <= 4
    ensures Weighted(ds) == Value(ds) * Pow10(4 - |ds|)
  {
    if ds != [] {
      var k, init, d := |ds|, ds[..|ds| - 1], Num(ds[|ds| - 1]);
      WeightedShort(init);
      assert Weight(k - 1) == Pow10(4 - k) by { SmallPowers(); }
      var v, p := Value(init), Pow10(4 - k);
      assert Pow10(4 - (k - 1)) == 10 * p;
      Collect(v, p, d);
    }
  }

  lemma Collect(v: nat, p: nat, d: nat)
    ensures v * (10 * p) + p * d == (10 * v + d) * p
  {
  }

  lemma SmallPowers()
    ensures Pow10(0) == 1 && Pow10(1) == 10 && Pow10(2) == 100 && Pow10(3) == 1000 && Pow10(4) == 10000
    ensures Weight(0) == 1000 && Weight(1) == 100 && Weight(2) == 10 && Weight(3) == 1 && Weight(4) == 0
  {
    assert Pow10(2) == 10 * Pow10(1) && Pow10(3) == 10 * Pow10(2) && Pow10(4) == 10 * Pow10(3);
    assert Weight(1) == 100 && Weight(2) == Weight(1) / 10 && Weight(3) == Weight(2) / 10 && Weight(4) == Weight(3) / 10;
  }

  lemma {:induction false} WeightVanishes(i: nat)
    requires i >= 4
    ensures Weight(i) == 0
  {
    SmallPowers();
    if i > 4 { WeightVanishes(i - 1); }
  }

  /** From the fifth digit on it is cut off. */
  lemma {:induction false} WeightedLong(ds: seq<Byte>)
    requires (forall d :: d in ds ==> Digit(d)) && |ds| >= 4
    ensures var q := Pow10(|ds| - 4); Weighted(ds) * q <= Value(ds) < (Weighted(ds) + 1) * q
  {
    if |ds| == 4 {
      WeightedShort(ds);
      SmallPowers();
    } else {
      var init, d := ds[..|ds| - 1], Num(ds[|ds| - 1]);
      WeightedLong(init);
      WeightVanishes(|ds| - 1);
      OneMoreDigit(Weighted(init), Pow10(|ds| - 5), Value(init), d);
    }
  }

  lemma OneMoreDigit(w: nat, q: nat, v: nat, d: nat)
    requires w * q <= v < (w + 1) * q && d <= 9
    ensures w * (10 * q) <= 10 * v + d < (w + 1) * (10 * q)
  {
    Scale(w, q, 10);
    Scale(w + 1, q, 10);
  }

  lemma Scale(w: nat, q: nat, c: nat)
    ensures w * (c * q) == c * (w * q)
  {
  }

  lemma TenTimes(x: nat, y: nat)
    ensures 10 * (x * y) == (10 * x) * y
  {
  }

  lemma {:induction false} PowAdd(a: nat, b: nat)
    ensures Pow10(a + b) == Pow10(a) * Pow10(b)
  {
    if a > 0 {
      PowAdd(a - 1, b);
      TenTimes(Pow10(a - 1), Pow10(b));
    }
  }

  /** The weighted digits are the fraction in units of 1e-4, rounded down. */
  lemma WeightedIsFloor(ds: seq<Byte>)
    requires forall d :: d in ds ==> Digit(d)
    ensures var p := Pow10(|ds|); Weighted(ds) * p <= Value(ds) * 10000 < (Weighted(ds) + 1) * p
  {
    var k := |ds|;
    SmallPowers();
    if k <= 4 {
      WeightedShort(ds);
      PowAdd(k, 4 - k);
      ScaleShort(Weighted(ds), Pow10(k), Value(ds), Pow10(4 - k));
    } else {
      WeightedLong(ds);
      PowAdd(4, k - 4);
      ScaleLong(Weighted(ds), Pow10(k - 4), Value(ds));
    }
  }

  lemma ScaleShort(w: nat, p: nat, v: nat, r: nat)
    requires w == v * r && p * r == 10000 && p > 0
    ensures w * p <= v * 10000 < (w + 1) * p
  {
    assert (v * r) * p == v * (p * r);
    assert (w + 1) * p == w * p + p;
  }

  lemma ScaleLong(w: nat, q: nat, v: nat)
    requires w * q <= v < (w + 1) * q
    ensures w * (10000 * q) <= v * 10000 < (w + 1) * (10000 * q)
  {
    Scale(w, q, 10000);
    Scale(w + 1, q, 10000);
  }

  /** Cutting off digits before dividing by six loses nothing. */
  lemma MinutesExact(m: nat, ds: seq<Byte>)
    requires forall d :: d in ds ==> Digit(d)
    ensures Div((m * Pow10(|ds|) + Value(ds)) * 10000, 6 * Pow10(|ds|)) == (m * 10000 + Weighted(ds)) / 6
  {
    WeightedIsFloor(ds);
    FloorOfFloor(m, Pow10(|ds|), Value(ds), Weighted(ds));
  }

  lemma FloorOfFloor(m: nat, p: nat, v: nat, w: nat)
    requires p > 0 && w * p <= v * 10000 < (w + 1) * p
    ensures Div((m * p + v) * 10000, 6 * p) == (m * 10000 + w) / 6
  {
    Within(m, p, v, w);
    FloorSixth((m * p + v) * 10000, m * 10000 + w, p);
  }

  lemma FloorSixth(a: nat, t: nat, p: nat)
    requires p > 0 && t * p <= a < (t + 1) * p
    ensures Div(a, 6 * p) == t / 6
  {
    var s := t / 6;
    MulMono(6 * s, t, p);
    MulMono(t + 1, 6 * (s + 1), p);
    Regroup(s, p);
    Regroup(s + 1, p);
    DivIs(a, 6 * p, s);
  }

  lemma Regroup(s: nat, p: nat)
    ensures (6 * s) * p == s * (6 * p)
  {
  }

  lemma Within(m: nat, p: nat, v: nat, w: nat)
    requires w * p <= v * 10000 < (w + 1) * p
    ensures (m * 10000 + w) * p <= (m * p + v) * 10000 < (m * 10000 + w + 1) * p
  {
    assert (m * p + v) * 10000 == (m * 10000) * p + v * 10000;
    assert (m * 10000 + w) * p == (m * 10000) * p + w * p;
    assert (m * 10000 + w + 1) * p == (m * 10000) * p + (w + 1) * p;
  }

  /** parse_degrees is exact for precisely those terms whose exact value fits 32 bits. */
  lemma DegreesExactIff(text: seq<Byte>)
    ensures Degrees(text) == ExactDegrees(text) <==> ExactDegrees(text) < U32
  {
    var n, w := Value(Whole(text)), Weighted(Fraction(text));
    MinutesExact(n % 100, Fraction(text));
    WrapIff(n, w);
  }

  lemma WrapIff(n: nat, w: nat)
    ensures var left, exact := n % U32, n / 100 * 100000 + (n % 100 * 10000 + w) / 6;
      (left / 100 * 100000 + (left % 100 * 10000 + w) / 6) % U32 == exact <==> exact < U32
  {
    if n < U32 {
      assert n % U32 == n;
    } else {
      TooLarge(n, w);
    }
  }

  lemma TooLarge(n: nat, w: nat)
    requires n >= U32
    ensures n / 100 * 100000 + (n % 100 * 10000 + w) / 6 >= U32
  {
    assert n / 100 >= 42949672;
  }

  /** Any angle a receiver can mean, and more, is exact: whole parts up to 4294899, that is 42948 degrees. */
  lemma RealAnglesAreExact(text: seq<Byte>)
    requires Value(Whole(text)) < 4294900
    ensures Degrees(text) == ExactDegrees(text)
  {
    var n := Value(Whole(text));
    MinutesExact(n % 100, Fraction(text));
    WeightedBound(Fraction(text));
    DegreesExactIff(text);
  }

  lemma {:induction false} ValueBound(ds: seq<Byte>)
    requires forall d :: d in ds ==> Digit(d)
    ensures Value(ds) < Pow10(|ds|)
  {
    if ds != [] { ValueBound(ds[..|ds| - 1]); }
  }

  lemma WeightedBound(ds: seq<Byte>)
    requires forall d :: d in ds ==> Digit(d)
    ensures Weighted(ds) < 10000
  {
    WeightedIsFloor(ds);
    ValueBound(ds);
    var p, w, v := Pow10(|ds|), Weighted(ds), Value(ds);
    if w >= 10000 { MulMono(10000, w, p); }
  }

  // ----- hundredths -----

  /** The first two fraction digits. */
  function Hundredths(ds: seq<Byte>): nat
    requires forall d :: d in ds ==> Digit(d)
  {
    if ds == [] then 0 else 10 * Num(ds[0]) + if |ds| > 1 then Num(ds[1]) else 0
  }

  /** parse_decimal: hundredths of a signed number. */
  function Decimal(text: seq<Byte>): nat {
    var neg := text != [] && text[0] == MINUS;
    var t := if neg then text[1..] else text;
    var v := (100 * Atol(t) + Hundredths(Fraction(t))) % U32;
    if neg then (U32 - v) % U32 else v
  }

  method ParseDecimal(text: seq<Byte>) returns (r: nat)
    ensures r == Decimal(text)
  {
    hide Atol;
    hide Hundredths;
    hide Fraction;
    var isneg := text != [] && text[0] == MINUS;
    var t := if isneg then text[1..] else text;
    var a := GpsAtol(t);
    var h := TwoFractionDigits(t);
    var ret := (100 * a + h) % U32;
    r := if isneg then (U32 - ret) % U32 else ret;
  }

  method TwoFractionDigits(t: seq<Byte>) returns (h: nat)
    ensures h == Hundredths(Fraction(t))
  {
    h := 0;
    var p := 0;
    while p < |t| && Digit(t[p])
      invariant p <= Digits(t)
    {
      p := p + 1;
    }
    if p < |t| && t[p] == DOT {
      if p + 1 < |t| && Digit(t[p + 1]) {
        h := h + 10 * Num(t[p + 1]);
        if p + 2 < |t| && Digit(t[p + 2]) {
          h := h + Num(t[p + 2]);
        }
      }
    }
  }

  /** The hundredths are rounded down, for any number of fraction digits. */
  lemma HundredthsAreFloor(ds: seq<Byte>)
    requires forall d :: d in ds ==> Digit(d)
    ensures var p := Pow10(|ds|); Hundredths(ds) * p <= Value(ds) * 100 < (Hundredths(ds) + 1) * p
  {
    if |ds| >= 2 {
      LeadingDigits(ds, 2);
      PowAdd(2, |ds| - 2);
      SmallPowers();
      var q := Pow10(|ds| - 2);
      TwoDigits(ds[..2]);
      assert ds[..2][0] == ds[0] && ds[..2][1] == ds[1];
      Scale(Hundredths(ds), q, 100);
      Scale(Hundredths(ds) + 1, q, 100);
    } else if |ds| == 1 {
      SmallPowers();
      assert Value(ds) == 10 * Value([]) + Num(ds[0]) by { assert ds[..0] == []; }
    }
  }

  predicate Negative(text: seq<Byte>) {
    text != [] && text[0] == MINUS
  }

  /** A number without its sign, in hundredths, rounded down. */
  function ExactHundredths(text: seq<Byte>): nat {
    var t := if Negative(text) then text[1..] else text;
    var p := Pow10(|Fraction(t)|);
    Div((Value(Whole(t)) * p + Value(Fraction(t))) * 100, p)
  }

  /** A 32-bit pattern as a signed number. */
  function Signed(x: nat): int {
    if x < U32 / 2 then x else x - U32
  }

  function WithSign(text: seq<Byte>, m: int): int {
    if Negative(text) then -m else m
  }

  lemma HundredthsOf(n: nat, ds: seq<Byte>)
    requires forall d :: d in ds ==> Digit(d)
    ensures Div((n * Pow10(|ds|) + Value(ds)) * 100, Pow10(|ds|)) == 100 * n + Hundredths(ds)
  {
    hide Hundredths, Value, Pow10, Div;
    HundredthsAreFloor(ds);
    var p, h, v := Pow10(|ds|), Hundredths(ds), Value(ds);
    assert (100 * n + h) * p == 100 * (n * p) + h * p;
    assert (100 * n + h + 1) * p == 100 * (n * p) + (h + 1) * p;
    DivIs((n * p + v) * 100, p, 100 * n + h);
  }

  lemma HundredTimesMod(v: nat, h: nat)
    ensures (100 * (v % U32) + h) % U32 == (100 * v + h) % U32
  {
    var q := v / U32;
    assert 100 * v + h == (100 * q) * U32 + (100 * (v % U32) + h);
    ModShift(100 * (v % U32) + h, 100 * q);
  }

  /** parse_decimal in terms of the exact number. */
  lemma DecimalWraps(text: seq<Byte>)
    ensures var v := ExactHundredths(text) % U32;
      Decimal(text) == if Negative(text) then (U32 - v) % U32 else v
  {
    hide Hundredths, Value, Div, Pow10;
    var t := if Negative(text) then text[1..] else text;
    HundredthsOf(Value(Whole(t)), Fraction(t));
    HundredTimesMod(Value(Whole(t)), Hundredths(Fraction(t)));
  }

  /** Read as signed, parse_decimal is the number in hundredths, with its sign, exactly if that fits 32 bits with a
      sign; read as unsigned, a number without a sign is exact if and only if it fits 32 bits. */
  lemma DecimalExactIff(text: seq<Byte>)
    ensures var m := ExactHundredths(text);
      && (Signed(Decimal(text)) == WithSign(text, m) <==> m < U32 / 2 || (Negative(text) && m == U32 / 2))
      && (!Negative(text) ==> (Decimal(text) == m <==> m < U32))
  {
    hide Decimal, ExactHundredths;
    DecimalWraps(text);
    var m := ExactHundredths(text);
    if m < U32 { assert m % U32 == m; }
  }

  lemma TwoDigits(ds: seq<Byte>)
    requires |ds| == 2 && Digit(ds[0]) && Digit(ds[1])
    ensures Value(ds) == 10 * Num(ds[0]) + Num(ds[1])
  {
    assert ds[..1][..0] == [];
    assert Value(ds[..1]) == 10 * Value([]) + Num(ds[0]);
  }

  /** The first k digits are the value without the others. */
  lemma {:induction false} LeadingDigits(ds: seq<Byte>, k: nat)
    requires (forall d :: d in ds ==> Digit(d)) && k <= |ds|
    ensures var q := Pow10(|ds| - k); Value(ds[..k]) * q <= Value(ds) < (Value(ds[..k]) + 1) * q
    decreases |ds|
  {
    if k == |ds| {
      assert ds[..k] == ds;
    } else {
      var init := ds[..|ds| - 1];
      LeadingDigits(init, k);
      assert init[..k] == ds[..k];
      OneMoreDigit(Value(ds[..k]), Pow10(|init| - k), Value(init), Num(ds[|ds| - 1]));
    }
  }
}
