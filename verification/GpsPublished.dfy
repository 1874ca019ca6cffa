/**
 * What the parser of TinyGPS/TinyGPS.cpp publishes on concrete streams: one at each bound of GpsFields at which a
 * sentence publishes another's field, and one in which it publishes what another one has left that had failed its
 * checksum.
 */
module GpsPublished {
  import opened Bytes
  import opened GpsNumbers
  import opened GpsSpec
  import opened GpsTerms
  import opened GpsFields
  import opened GpsStreams
  import opened GpsChecksums

  // ----- the bound on what is published -----

  /** If the sentence s passes at c, it publishes its own fields and what was held. */
  predicate Told(p: Parser, s: seq<Byte>, c: Byte, clock: nat -> nat)
    requires Valid(p)
  {
    var terms := Cut(s).terms;
    var (q, passed) := Encode(Run(p, s, clock), c, clock(|s|));
    passed ==>
      Publishes(q.fix, Run(p, s, clock).fix, SentenceKind(terms), Expected(Timeless(Held(p, s, clock)), terms))
  }

  /** So does every sentence of this kind with at most n complete terms. */
  ghost predicate FieldsRight(kind: Kind, n: nat, clock: nat -> nat) {
    forall p: Parser, s: seq<Byte>, c: Byte ::
      Fresh(p) && SentenceKind(Cut(s).terms) == kind && |Cut(s).terms| <= n ==> Told(p, s, c, clock)
  }

  /** Two letters: one as the validity field, number v, the other as term number n, behind a '*'. */
  function Twin(name: seq<Byte>, v: nat, a: Byte, n: nat, b: Byte): (terms: seq<Term>)
    requires 0 < v < n
    ensures |terms| == n + 1 && terms[n].end == STAR
  {
    [Term(name, COMMA)] + Empties(v - 1) + [Term([a], COMMA)] + Empties(n - v - 1) + [Term([b], STAR)]
  }

  /** Up to the last letter, the first letter has made the sentence valid and nothing has been read. */
  lemma TwinOpens(r0: Readings, name: seq<Byte>, v: nat, a: Byte, k: nat, x: Byte, y: Byte, z: Byte, w: Byte)
    requires Shows(name) && XorAll(0, name) == x && Xor(x, COMMA) == y && Xor(y, COMMA) == x && v % 2 == 0
    requires Xor(x, a) == z && Xor(z, COMMA) == w && Xor(w, COMMA) == z
    requires Shows([a]) && 0 < v == ValidityField(KindOf(name)) && SaysGood(Label(KindOf(name), v), a) && v + 1 + k <= 256
    ensures UnderWay(r0, [Term(name, COMMA)] + Empties(v - 1) + [Term([a], COMMA)] + Empties(k),
                     Digest(KindOf(name), true, r0), KindOf(name), if k % 2 == 0 then w else z)
  {
    hide UnderWay, Xor, XorAll, KindOf, Take, IsChecksum;
    var t2 := [Term(name, COMMA)] + Empties(v - 1);
    var d := Digest(KindOf(name), false, r0);
    Begun(r0, name, v - 1, x, y);
    GoesOn(r0, t2, d, KindOf(name), x, a, z, w);
    NoChecksum(t2);
    TakeDecides(d, t2, [a]);
    TakeReads(d, t2, [a]);
    GoesOnEmpty(r0, t2 + [Term([a], COMMA)], Digest(KindOf(name), true, r0), KindOf(name), w, z, k);
  }

  // ----- what stays published meanwhile -----

  lemma RunSnoc(p: Parser, s: seq<Byte>, c: Byte, clock: nat -> nat)
    requires Valid(p)
    ensures Run(p, s + [c], clock) == Encode(Run(p, s, clock), c, clock(|s|)).0
  {
    assert (s + [c])[..|s|] == s;
  }

  lemma FixOverOne(p: Parser, s: seq<Byte>, c: Byte, clock: nat -> nat)
    requires Fresh(p) && !(Ends(c) && IsChecksum(Cut(s).terms, |Cut(s).terms|))
    ensures Run(p, s + [c], clock).fix == Run(p, s, clock).fix
  {
    hide Encode, Run, Cut, Digested, WithText;
    RunSnoc(p, s, c, clock);
    PassesExactly(p, s, c, clock);
  }

  lemma {:induction false} FixOverText(p: Parser, s: seq<Byte>, text: seq<Byte>, clock: nat -> nat)
    requires Fresh(p) && Plain(text)
    ensures Run(p, s + text, clock).fix == Run(p, s, clock).fix
  {
    hide Run, Cut;
    if text == [] {
      assert s + text == s;
    } else {
      var init := text[..|text| - 1];
      FixOverText(p, s, init, clock);
      FixOverOne(p, s + init, text[|text| - 1], clock);
      assert s + text == (s + init) + [text[|text| - 1]];
    }
  }

  /** Until a checksum term is ended, a sentence changes nothing. */
  lemma {:induction false} FixKept(p: Parser, pre: seq<Byte>, terms: seq<Term>, rest: seq<Byte>, clock: nat -> nat)
    requires Fresh(p) && PlainTerms(terms) && Plain(rest) && (terms != [] ==> AllCommas(terms[..|terms| - 1]))
    ensures Run(p, pre + Sentence(terms, rest), clock).fix == Run(p, pre, clock).fix
    decreases |terms|, |rest|
  {
    hide Run, Cut;
    var s := pre + Sentence(terms, []);
    if terms == [] {
      assert s == pre + [DOLLAR];
      FixOverOne(p, pre, DOLLAR, clock);
    } else {
      var init, t := terms[..|terms| - 1], terms[|terms| - 1];
      FixKept(p, pre, init, [], clock);
      CutSentence(pre, init, []);
      var s0 := pre + Sentence(init, []);
      assert s == s0 + t.text + [t.end];
      FixOverText(p, s0, t.text, clock);
      CutText(s0, t.text);
      FixOverOne(p, s0 + t.text, t.end, clock);
    }
    assert pre + Sentence(terms, rest) == s + rest;
    FixOverText(p, s, rest, clock);
  }

  // ----- sentences that publish something else -----

  /** A sentence that passes: what it publishes are the readings of its digest, as those of its digest's kind. */
  lemma PassesAs(p: Parser, pre: seq<Byte>, terms: seq<Term>, sum: seq<Byte>, clock: nat -> nat) returns (r: Readings)
    requires Fresh(p) && PlainTerms(terms) && |sum| == 2 && Plain(sum) && Spelled(sum) == Parity(terms)
    requires terms != [] && terms[|terms| - 1].end == STAR && AllCommas(terms[..|terms| - 1])
    requires Digested(Timeless(Run(p, pre, clock).readings), terms).good
    ensures var s, d := pre + Sentence(terms, sum), Digested(Timeless(Run(p, pre, clock).readings), terms);
      && Cut(s).terms == terms && Timeless(Held(p, s, clock)) == Timeless(Run(p, pre, clock).readings)
      && Run(p, s, clock).fix == Run(p, pre, clock).fix
      && Encode(Run(p, s, clock), RETURN, clock(|s|)).1 && Timeless(r) == d.readings
      && Encode(Run(p, s, clock), RETURN, clock(|s|)).0.fix == Publish(Run(p, pre, clock).fix, d.kind, r)
  {
    hide Encode, Run, Cut, Held, Digested, Parity, Spelled, Spell, Publish, ChecksumMatches;
    var s := pre + Sentence(terms, sum);
    SentencePasses(p, pre, terms, sum, clock);
    RunDigests(p, s, clock);
    FixKept(p, pre, terms, sum, clock);
    EncodePublishes(Run(p, s, clock), RETURN, clock(|s|));
    r := Run(p, s, clock).readings;
  }

  lemma TwinParts(name: seq<Byte>, v: nat, a: Byte, n: nat, b: Byte) returns (t4: seq<Term>)
    requires 0 < v < n
    ensures t4 == [Term(name, COMMA)] + Empties(v - 1) + [Term([a], COMMA)] + Empties(n - v - 1)
    ensures Twin(name, v, a, n, b) == t4 + [Term([b], STAR)] && |t4| == n
    ensures Twin(name, v, a, n, b)[..n] == t4
    ensures forall i :: 0 < i < n && i != v ==> Twin(name, v, a, n, b)[i] == EMPTY
  {
    t4 := [Term(name, COMMA)] + Empties(v - 1) + [Term([a], COMMA)] + Empties(n - v - 1);
  }

  /** A sentence that its first letter makes valid, and that passes as whatever its last letter makes of it. */
  lemma TwinPasses(p: Parser, name: seq<Byte>, v: nat, a: Byte, n: nat, b: Byte, x: Byte, y: Byte, z: Byte, w: Byte,
                   sum: seq<Byte>, clock: nat -> nat) returns (r: Readings)
    requires Fresh(p) && Shows(name) && XorAll(0, name) == x && Xor(x, COMMA) == y && Xor(y, COMMA) == x
    requires v % 2 == 0 && Xor(x, a) == z && Xor(z, COMMA) == w && Xor(w, COMMA) == z && Shows([a]) && Shows([b])
    requires 0 < v == ValidityField(KindOf(name)) < n <= 256 && SaysGood(Label(KindOf(name), v), a)
    requires n == 256 || !IsValidity(Label(KindOf(name), n))
    requires |sum| == 2 && Plain(sum) && Spelled(sum) == Xor(if (n - v - 1) % 2 == 0 then w else z, b)
    ensures var terms := Twin(name, v, a, n, b);
      var s := Sentence(terms, sum);
      && Cut(s).terms == terms && SentenceKind(terms) == KindOf(name)
      && Timeless(Held(p, s, clock)) == Timeless(p.readings) && Run(p, s, clock).fix == p.fix
      && Encode(Run(p, s, clock), RETURN, clock(|s|)).1
      && (n < 256 ==> Timeless(r) == Timeless(Reading(Timeless(p.readings), Label(KindOf(name), n), [b], 0)))
      && Encode(Run(p, s, clock), RETURN, clock(|s|)).0.fix ==
           Publish(p.fix, if n == 256 then KindOf([b]) else KindOf(name), r)
  {
    hide UnderWay, Xor, XorAll, KindOf, Take, IsChecksum, Parity, Digested, Run, Encode, Cut, Held, Spelled, Publish,
      Reading, SentenceKind, Twin, AllCommas, PlainTerms, Label, SaysGood, Shows, Spell;
    var r0 := Timeless(p.readings);
    var d := Digest(KindOf(name), true, r0);
    var t4 := TwinParts(name, v, a, n, b);
    var parity := if (n - v - 1) % 2 == 0 then w else z;
    TwinOpens(r0, name, v, a, n - v - 1, x, y, z, w);
    LastLetter(r0, t4, d, KindOf(name), parity, b);
    UnderWayCommas(r0, t4, d, KindOf(name), parity);
    NoChecksum(t4);
    KindAtValidity(name, v);
    TakeDecides(d, t4, [b]);
    TakeReads(d, t4, [b]);
    assert Run(p, [], clock) == p by { NothingRun(p, clock); }
    var s := Sentence(Twin(name, v, a, n, b), sum);
    assert [] + s == s;
    r := PassesAs(p, [], Twin(name, v, a, n, b), sum, clock);
  }

  lemma KindAtValidity(name: seq<Byte>, v: nat)
    requires 0 < v == ValidityField(KindOf(name))
    ensures KindOf(name) != OTHER
  {
    hide KindOf;
  }

  lemma SumsAre()
    ensures Spelled([0x31, 0x31]) == 0x11 && Spelled([0x30, 0x30]) == 0 && Spelled([0x31, 0x34]) == 0x14
    ensures Spelled([0x37, 0x44]) == 0x7D && Spelled([0x34, 0x39]) == 0x49
    ensures Plain([0x31, 0x31]) && Plain([0x30, 0x30]) && Plain([0x31, 0x34]) && Plain([0x37, 0x44])
    ensures Plain([0x34, 0x39])
  {
  }

  lemma TwinXor()
    ensures Xor(0x4B, 0x41) == 0x0A && Xor(0x0A, COMMA) == 0x26 && Xor(0x26, COMMA) == 0x0A && Xor(0x26, 0x32) == 0x14
    ensures Xor(0x56, 0x31) == 0x67 && Xor(0x4B, 0x36) == 0x7D
    ensures Xor(0x50, 0x41) == 0x11 && Xor(0x11, COMMA) == 0x3D && Xor(0x3D, COMMA) == 0x11 && Xor(0x11, 0x58) == 0x49
  {
  }

  /** A lone digit as a number in hundredths, and as an angle. */
  lemma OneDigit(c: Byte)
    requires Digit(c)
    ensures Decimal([c]) == 100 * Num(c) && Degrees([c]) == Num(c) * 10000 / 6
  {
    assert [c][1..] == [] && Digits([]) == 0 && Digits([c]) == 1;
    assert Whole([c]) == [c] && Fraction([c]) == [] && Value([]) == 0;
    assert [c][..0] == [];
    assert Value([c]) == Num(c);
    assert Atol([c]) == Num(c);
    assert Weighted([]) == 0 && Hundredths([]) == 0;
  }

  /** In a sentence of two letters, no other field than those two is given. */
  lemma TwinGives(name: seq<Byte>, v: nat, a: Byte, n: nat, b: Byte, k: nat)
    requires 0 < v < n && k < n && k != v
    ensures !Given(Twin(name, v, a, n, b), k)
  {
    var t4 := TwinParts(name, v, a, n, b);
    assert Seen([]) == [];
  }

  lemma ReadsTime(r: Readings)
    requires Timeless(r) == Timeless(Reading(Timeless(New().readings), Label(RMC, 101), [0x32], 0))
    ensures r.time == 200
  {
    OneDigit(0x32);
    hide Decimal, Degrees, Atol;
  }

  lemma ReadsLatitude(r: Readings)
    requires Timeless(r) == Timeless(Reading(Timeless(New().readings), Label(GGA, 101), [0x36], 0))
    ensures r.latitude == 10000
  {
    OneDigit(0x36);
    hide Decimal, Degrees, Atol;
  }

  lemma RmcTwin(clock: nat -> nat) returns (s: seq<Byte>, r: Readings)
    ensures s == Sentence(Twin(GPRMC, 2, 0x41, 101, 0x32), [0x31, 0x34])
    ensures Cut(s).terms == Twin(GPRMC, 2, 0x41, 101, 0x32) && SentenceKind(Cut(s).terms) == RMC
    ensures Timeless(Held(New(), s, clock)) == ZERO && Encode(Run(New(), s, clock), RETURN, clock(|s|)).1
    ensures Encode(Run(New(), s, clock), RETURN, clock(|s|)).0.fix == Publish(New().fix, RMC, r) && r.time == 200
  {
    Names();
    RmcXor();
    CommaXor();
    TwinXor();
    Letters();
    SumsAre();
    hide Xor, XorAll, KindOf, Cut, Run, Encode, Held, Spell, SentenceKind, Twin, Publish, Reading, Spelled, FromHex,
      Shows, Plain;
    r := TwinPasses(New(), GPRMC, 2, 0x41, 101, 0x32, 0x4B, 0x67, 0x0A, 0x26, [0x31, 0x34], clock);
    s := Sentence(Twin(GPRMC, 2, 0x41, 101, 0x32), [0x31, 0x34]);
    ReadsTime(r);
  }

  /** An RMC sentence of 102 complete terms: term 101 sets the time, as that of a GGA sentence. */
  lemma MistoldRmc(clock: nat -> nat) returns (s: seq<Byte>)
    ensures SentenceKind(Cut(s).terms) == RMC && |Cut(s).terms| == 102 && !Told(New(), s, RETURN, clock)
  {
    var r: Readings;
    s, r := RmcTwin(clock);
    hide Cut, Run, Encode, Held, Spell, Twin, Expected, SentenceKind, New;
    TwinTime();
  }

  lemma TwinTime()
    ensures Expected(ZERO, Twin(GPRMC, 2, 0x41, 101, 0x32)).time == 0
  {
    hide Given, Decimal, Degrees, Atol, Angle, Twin, Negate, SentenceKind;
    TwinGives(GPRMC, 2, 0x41, 101, 0x32, 1);
    TwinGives(GPRMC, 2, 0x41, 101, 0x32, 5);
    TwinGives(GPRMC, 2, 0x41, 101, 0x32, 0);
  }

  lemma GgaTwin(clock: nat -> nat) returns (s: seq<Byte>, r: Readings)
    ensures s == Sentence(Twin(GPGGA, 6, 0x31, 101, 0x36), [0x37, 0x44])
    ensures Cut(s).terms == Twin(GPGGA, 6, 0x31, 101, 0x36) && SentenceKind(Cut(s).terms) == GGA
    ensures Timeless(Held(New(), s, clock)) == ZERO && Encode(Run(New(), s, clock), RETURN, clock(|s|)).1
    ensures Encode(Run(New(), s, clock), RETURN, clock(|s|)).0.fix == Publish(New().fix, GGA, r) && r.latitude == 10000
  {
    Names();
    GgaXor();
    CommaXor();
    TwinXor();
    Letters();
    SumsAre();
    hide Xor, XorAll, KindOf, Cut, Run, Encode, Held, Spell, SentenceKind, Twin, Publish, Reading, Spelled, FromHex,
      Shows, Plain;
    r := TwinPasses(New(), GPGGA, 6, 0x31, 101, 0x36, 0x56, 0x7A, 0x67, 0x4B, [0x37, 0x44], clock);
    s := Sentence(Twin(GPGGA, 6, 0x31, 101, 0x36), [0x37, 0x44]);
    ReadsLatitude(r);
  }

  /** A GGA sentence of 102 complete terms: term 101 sets the latitude, as that of a GLL sentence. */
  lemma MistoldGga(clock: nat -> nat) returns (s: seq<Byte>)
    ensures SentenceKind(Cut(s).terms) == GGA && |Cut(s).terms| == 102 && !Told(New(), s, RETURN, clock)
  {
    var r: Readings;
    s, r := GgaTwin(clock);
    hide Cut, Run, Encode, Held, Spell, Twin, Expected, SentenceKind, New;
    TwinLatitude();
  }

  lemma TwinLatitude()
    ensures SentenceKind(Twin(GPGGA, 6, 0x31, 101, 0x36)) == GGA ==>
              Expected(ZERO, Twin(GPGGA, 6, 0x31, 101, 0x36)).latitude == 0
  {
    hide Given, Decimal, Degrees, Atol, Twin, Negate, SentenceKind, Shown;
    TwinGives(GPGGA, 6, 0x31, 101, 0x36, 2);
    TwinGives(GPGGA, 6, 0x31, 101, 0x36, 3);
  }

  /** A GLL sentence of 257 complete terms: term 256 names another kind, and no position is published. */
  lemma MistoldGll(clock: nat -> nat) returns (s: seq<Byte>)
    ensures SentenceKind(Cut(s).terms) == GLL && |Cut(s).terms| == 257 && !Told(New(), s, RETURN, clock)
  {
    Names();
    GllXor();
    CommaXor();
    TwinXor();
    hide Xor, XorAll, KindOf, Cut, Run, Encode, Held, Spell, SentenceKind, Twin;
    var sum := [0x34, 0x39];
    var r := TwinPasses(New(), GPGLL, 6, 0x41, 256, 0x58, 0x50, 0x7C, 0x11, 0x3D, sum, clock);
    s := Sentence(Twin(GPGLL, 6, 0x41, 256, 0x58), sum);
  }

  /** Sentences of a kind that can pass all publish exactly their own fields and what was held, as long as they
      have no more complete terms than the bound. */
  lemma FieldsBoundExact(kind: Kind, n: nat, clock: nat -> nat)
    requires kind == RMC || kind == GGA || kind == GLL
    ensures FieldsRight(kind, n, clock) <==> n <= PublishTerms(kind)
  {
    if n <= PublishTerms(kind) {
      forall p: Parser, s: seq<Byte>, c: Byte
        | Fresh(p) && SentenceKind(Cut(s).terms) == kind && |Cut(s).terms| <= n
        ensures Told(p, s, c, clock)
      {
        ToldUpTo(p, s, c, clock);
      }
    } else {
      var s: seq<Byte>;
      match kind
      case RMC => s := MistoldRmc(clock);
      case GGA => s := MistoldGga(clock);
      case _ => s := MistoldGll(clock);
    }
  }

  lemma ToldUpTo(p: Parser, s: seq<Byte>, c: Byte, clock: nat -> nat)
    requires Fresh(p) && |Cut(s).terms| <= PublishTerms(SentenceKind(Cut(s).terms))
    ensures Told(p, s, c, clock)
  {
    hide Encode, Run, Cut, Held, Expected, Publishes, SentenceKind, PublishTerms;
    if Encode(Run(p, s, clock), c, clock(|s|)).1 { PublishedExactly(p, s, c, clock); }
  }

  // ----- what a failed sentence leaves -----

  /** 10 February 2003, as an RMC sentence has it. */
  const DATE: seq<Byte> := [0x30, 0x31, 0x30, 0x32, 0x30, 0x33]

  /** $GPRMC,,,,,,,,,010203*00 -- the checksum should be 67. */
  function Failing(): seq<Term> {
    [Term(GPRMC, COMMA)] + Empties(8) + [Term(DATE, STAR)]
  }

  /** $GPGLL,,,,,,A*11 */
  function Good(): (terms: seq<Term>)
    ensures |terms| == 7 && terms[6].end == STAR
  {
    Saying([0x41])
  }

  lemma DateIs()
    ensures Atol(DATE) == 10203 && Shows(DATE)
  {
    assert forall i :: 0 <= i < 6 ==> Digit(DATE[i]);
    AllDigits(DATE);
    assert Whole(DATE) == DATE;
    DateValue();
  }

  lemma DateValue()
    ensures Value(DATE) == 10203
  {
    assert Value([]) == 0 && [] + [0x30] == [0x30] && [0x30] + [0x31] == [0x30, 0x31];
    ValueSnoc([], 0x30);
    ValueSnoc([0x30], 0x31);
    assert [0x30, 0x31] + [0x30] == [0x30, 0x31, 0x30] && [0x30, 0x31, 0x30] + [0x32] == [0x30, 0x31, 0x30, 0x32];
    ValueSnoc([0x30, 0x31], 0x30);
    ValueSnoc([0x30, 0x31, 0x30], 0x32);
    assert [0x30, 0x31, 0x30, 0x32] + [0x30] == [0x30, 0x31, 0x30, 0x32, 0x30];
    assert [0x30, 0x31, 0x30, 0x32, 0x30] + [0x33] == DATE;
    ValueSnoc([0x30, 0x31, 0x30, 0x32], 0x30);
    ValueSnoc([0x30, 0x31, 0x30, 0x32, 0x30], 0x33);
  }

  lemma ValueSnoc(ds: seq<Byte>, d: Byte)
    requires (forall x :: x in ds ==> Digit(x)) && Digit(d)
    ensures (forall x :: x in ds + [d] ==> Digit(x)) && Value(ds + [d]) == 10 * Value(ds) + Num(d)
  {
    assert (ds + [d])[..|ds|] == ds;
  }

  lemma {:induction false} AllDigits(text: seq<Byte>)
    requires forall i :: 0 <= i < |text| ==> Digit(text[i])
    ensures Digits(text) == |text|
  {
    if text != [] { AllDigits(text[1..]); }
  }

  lemma DateXor()
    ensures XorAll(0x67, DATE) == 0x67
  {
    hide Xor, XorAll;
    DayXor();
    YearXor();
    SixXored(0x67, 0x30, 0x31, 0x30, 0x32, 0x30, 0x33);
  }

  lemma DayXor()
    ensures Xor(0x67, 0x30) == 0x57 && Xor(0x57, 0x31) == 0x66 && Xor(0x66, 0x30) == 0x56
  {
  }

  lemma YearXor()
    ensures Xor(0x56, 0x32) == 0x64 && Xor(0x64, 0x30) == 0x54 && Xor(0x54, 0x33) == 0x67
  {
  }

  /** The failing sentence: its terms take in the date. */
  lemma FailingTerms(r0: Readings)
    requires r0 == Timeless(r0)
    ensures PlainTerms(Failing()) && Parity(Failing()) == 0x67 && Digested(r0, Failing()).readings.date == 10203
    ensures AllCommas(Failing()[..|Failing()| - 1])
  {
    Names();
    RmcXor();
    CommaXor();
    DateIs();
    DateXor();
    hide Xor, XorAll, KindOf, Parity, Digested, Atol, Take, SentenceKind, UnderWay, Shows, IsChecksum, PlainTerms,
      AllCommas, Reading;
    var t2 := [Term(GPRMC, COMMA)] + Empties(8);
    var d := Digest(RMC, false, r0);
    assert Failing()[..|Failing()| - 1] == t2;
    Begun(r0, GPRMC, 8, 0x4B, 0x67);
    UnderWayCommas(r0, t2, d, RMC, 0x67);
    LastText(r0, t2, d, RMC, 0x67, DATE);
    NoChecksum(t2);
    TakeReads(d, t2, DATE);
    ReadsDate(r0, DATE);
  }

  lemma ReadsDate(r: Readings, text: seq<Byte>)
    requires text != []
    ensures Timeless(Reading(r, Label(RMC, 9), text, 0)).date == Atol(text)
  {
    hide Atol;
  }

  lemma GoodTerms(r0: Readings)
    ensures PlainTerms(Good()) && Parity(Good()) == 0x11 && Digested(r0, Good()).good && SentenceKind(Good()) == GLL
    ensures AllCommas(Good()[..|Good()| - 1]) && |Good()| == 7
  {
    LetterXor();
    Letters();
    hide Xor, XorAll, Parity, Digested, SentenceKind, PlainTerms, AllCommas, Saying, SaysValid;
    SayingTerms(r0, [0x41]);
    OneXored(0x50, 0x41);
  }

  /** The failing sentence, with the wrong checksum, and the CR that ends it. */
  function FirstPart(): seq<Byte> {
    Sentence(Failing(), [0x30, 0x30]) + [RETURN]
  }

  /** Its checksum does not match, it does not pass and publishes nothing; but its date is held. */
  lemma FailsButHolds(p: Parser, clock: nat -> nat)
    requires Fresh(p)
    ensures var s := Sentence(Failing(), [0x30, 0x30]);
      && !ChecksumMatches(p, s, RETURN) && !Encode(Run(p, s, clock), RETURN, clock(|s|)).1
      && Run(p, FirstPart(), clock).fix == p.fix && Run(p, FirstPart(), clock).readings.date == 10203
  {
    hide Failing, Xor, Parity, Digested, Run, Encode, Cut, Held, Spell, ChecksumMatches, Take, Spelled, FromHex,
      AllCommas, PlainTerms, Plain;
    FailingTerms(Timeless(p.readings));
    FailingEnds();
    SumsAre();
    FailingHeld(p, Failing(), [0x30, 0x30], clock);
  }

  /** A sentence whose checksum does not match, and what is held behind it. */
  lemma FailingHeld(p: Parser, terms: seq<Term>, sum: seq<Byte>, clock: nat -> nat)
    requires Fresh(p) && PlainTerms(terms) && |sum| == 2 && Plain(sum) && Spelled(sum) != Parity(terms)
    requires terms != [] && terms[|terms| - 1].end == STAR && AllCommas(terms[..|terms| - 1])
    ensures var s := Sentence(terms, sum);
      && !ChecksumMatches(p, s, RETURN) && !Encode(Run(p, s, clock), RETURN, clock(|s|)).1
      && Run(p, s + [RETURN], clock).fix == p.fix
      && Timeless(Run(p, s + [RETURN], clock).readings) == Digested(Timeless(p.readings), terms).readings
  {
    hide Xor, Parity, Digested, Run, Encode, Cut, Held, Spell, ChecksumMatches, Take, Spelled;
    var s, r0 := Sentence(terms, sum), Timeless(p.readings);
    NothingRun(p, clock);
    assert [] + s == s;
    SentencePasses(p, [], terms, sum, clock);
    FixKept(p, [], terms, sum, clock);
    PassesExactly(p, s, RETURN, clock);
    RunSnoc(p, s, RETURN, clock);
    HeldOn(p, s, RETURN, clock);
    RunDigests(p, s + [RETURN], clock);
    CutSnoc(s, RETURN);
    DigestSnoc(r0, terms, Term(sum, RETURN));
    ChecksumTakesNothing(Digested(r0, terms), terms, Seen(sum));
  }

  lemma FailingEnds()
    ensures Failing() != [] && Failing()[|Failing()| - 1].end == STAR
  {
  }

  lemma HeldOn(p: Parser, s: seq<Byte>, c: Byte, clock: nat -> nat)
    requires Valid(p) && c != DOLLAR
    ensures Held(p, s + [c], clock) == Held(p, s, clock)
  {
    assert (s + [c])[..|s|] == s;
  }

  lemma ChecksumTakesNothing(d: Digest, terms: seq<Term>, text: seq<Byte>)
    requires IsChecksum(terms, |terms|)
    ensures Take(d, terms, text) == d
  {
  }

  /** An RMC sentence that fails its checksum, and a good GLL sentence behind it: the GLL sentence passes, and
      publishes the date of the one that failed. */
  lemma StaleDate(p: Parser, clock: nat -> nat) returns (s: seq<Byte>)
    requires Fresh(p)
    ensures s == FirstPart() + Sentence(Good(), [0x31, 0x31]) && SentenceKind(Cut(s).terms) == GLL
    ensures Run(p, s, clock).fix == p.fix && Encode(Run(p, s, clock), RETURN, clock(|s|)).1
    ensures Encode(Run(p, s, clock), RETURN, clock(|s|)).0.fix.values.date == 10203
  {
    hide Good, FirstPart, Parity, Digested, Run, Encode, Cut, Held, Spell, ChecksumMatches, SentenceKind, Publish,
      Spelled, FromHex, AllCommas, PlainTerms, Plain, Failing;
    FailsButHolds(p, clock);
    GoodTerms(Timeless(Run(p, FirstPart(), clock).readings));
    GoodEnds();
    s := GoodFollows(p, FirstPart(), clock);
    GllPublishesHeld(p, s, RETURN, clock);
  }

  /** The good sentence, behind anything. */
  lemma GoodFollows(p: Parser, pre: seq<Byte>, clock: nat -> nat) returns (s: seq<Byte>)
    requires Fresh(p)
    ensures s == pre + Sentence(Good(), [0x31, 0x31]) && SentenceKind(Cut(s).terms) == GLL && |Cut(s).terms| == 7
    ensures Run(p, s, clock).fix == Run(p, pre, clock).fix && Encode(Run(p, s, clock), RETURN, clock(|s|)).1
    ensures Timeless(Held(p, s, clock)) == Timeless(Run(p, pre, clock).readings)
  {
    GoodTerms(Timeless(Run(p, pre, clock).readings));
    GoodEnds();
    SumsAre();
    hide Good, Parity, Digested, Run, Encode, Cut, Held, Spell, ChecksumMatches, SentenceKind, Publish, Spelled, FromHex;
    s := pre + Sentence(Good(), [0x31, 0x31]);
    var r := PassesAs(p, pre, Good(), [0x31, 0x31], clock);
  }

  lemma GoodEnds()
    ensures Good() != [] && Good()[|Good()| - 1].end == STAR
  {
    hide Saying;
  }
}
