/**
 * Checksum texts for the parser of TinyGPS/TinyGPS.cpp: exactly which of them are judged by what they spell, and a
 * stream for each of the others that is accepted all the same.
 */
module GpsChecksums {
  import opened Bytes
  import opened GpsSpec
  import opened GpsTerms
  import opened GpsStreams

  // ----- checksum texts that are taken for a number -----

  /** $GPGLL,,,,,, and this text as the validity field, behind which the checksum begins. */
  function Saying(text: seq<Byte>): (terms: seq<Term>)
    ensures |terms| == 7 && terms[6] == Term(text, STAR)
  {
    [Term(GPGLL, COMMA)] + Empties(5) + [Term(text, STAR)]
  }

  lemma SayingTerms(r0: Readings, text: seq<Byte>)
    requires Shows(text) && text != [] && text[0] == 0x41
    ensures var terms := Saying(text);
      && PlainTerms(terms) && Parity(terms) == XorAll(0x50, text) && SentenceKind(terms) == GLL
      && Digested(r0, terms).good && SaysValid(terms) && AllCommas(terms[..6])
  {
    Names();
    GllXor();
    CommaXor();
    hide Xor, XorAll, KindOf, Parity, Digested, Take, SentenceKind, UnderWay, Shows, IsChecksum, PlainTerms, AllCommas,
      SaysValid;
    var t2 := [Term(GPGLL, COMMA)] + Empties(5);
    var d := Digest(GLL, false, r0);
    assert Saying(text)[..6] == t2;
    Begun(r0, GPGLL, 5, 0x50, 0x7C);
    UnderWayCommas(r0, t2, d, GLL, 0x50);
    LastText(r0, t2, d, GLL, 0x50, text);
    NoChecksum(t2);
    TakeDecides(d, t2, text);
    GateIsValidity(r0, Saying(text));
  }

  /** A sentence that says valid, with a checksum text that comes to its XOR. */
  lemma SayingPasses(p: Parser, text: seq<Byte>, sum: seq<Byte>, x: Byte, clock: nat -> nat)
    requires Fresh(p) && Shows(text) && text != [] && text[0] == 0x41 && Plain(sum)
    requires x == XorAll(0x50, text) == CheckValue(SecondHeld(p.buf[1], Sentence(Saying(text), sum)), Parsed(Saying(text), sum))
    ensures var s := Sentence(Saying(text), sum);
      && Cut(s) == Parsed(Saying(text), sum) && SentenceKind(Saying(text)) == GLL && Total(Cut(s), RETURN) == x
      && Encode(Run(p, s, clock), RETURN, clock(|s|)).1 && SaysValid(Saying(text))
  {
    hide Xor, XorAll, Parity, Digested, Run, Encode, Cut, Held, Spell, SentenceKind, PlainTerms, AllCommas, Saying,
      SaysValid, CheckValue, SecondHeld, Shows, ChecksumMatches;
    var s := Sentence(Saying(text), sum);
    SayingTerms(Timeless(p.readings), text);
    NothingRun(p, clock);
    assert [] + s == s;
    SentencePasses(p, [], Saying(text), sum, clock);
    ChecksumParity(Saying(text), sum);
  }

  /** A validity text that makes the XOR of the sentence x. */
  function Tuned(x: Byte): seq<Byte> {
    var b := Xor(0x11, x);
    if b < 0x80 then [0x41, 0x80, Xor(b, 0x80)] else [0x41, b]
  }

  function Number(v: bv8): Byte {
    v as int
  }

  lemma NextNumber(v: bv8)
    requires v != 255
    ensures Number(v + 1) == Number(v) + 1
  {
  }

  lemma SomeNumbers()
    ensures Number(0) == 0 && Number(0x11) == 0x11 && Number(0x80) == 0x80 && Number(0x91) == 0x91 && Number(255) == 255
  {
  }

  lemma {:induction false} Bits(x: Byte) returns (v: bv8)
    ensures Number(v) == x
  {
    SomeNumbers();
    hide Number;
    if x == 0 {
      v := 0;
    } else {
      var w := Bits(x - 1);
      NextNumber(w);
      v := w + 1;
    }
  }

  lemma RoundTrip(v: bv8)
    ensures (v as int) as bv8 == v
  {
  }

  lemma XorOf(u: bv8, v: bv8)
    ensures Xor(Number(u), Number(v)) == Number(u ^ v)
  {
    RoundTrip(u);
    RoundTrip(v);
  }

  lemma Twice(u: bv8, v: bv8)
    ensures u ^ (u ^ v) == v
  {
  }

  lemma XorTwice(a: Byte, x: Byte)
    ensures Xor(a, Xor(a, x)) == x
  {
    hide Number, Xor;
    var u := Bits(a);
    var v := Bits(x);
    XorOf(u, v);
    XorOf(u, u ^ v);
    Twice(u, v);
  }

  lemma HighBit(v: bv8)
    ensures v < 0x80 ==> v ^ 0x80 >= 0x80 && 0x91 ^ (v ^ 0x80) == 0x11 ^ v
    ensures v < 0x80 <==> Number(v) < 0x80
  {
  }

  lemma XorHigh(b: Byte)
    requires b < 0x80
    ensures Xor(b, 0x80) >= 0x80 && Xor(0x91, Xor(b, 0x80)) == Xor(0x11, b)
  {
    SomeNumbers();
    hide Number, Xor;
    var v := Bits(b);
    HighBit(v);
    HighBit(v ^ 0x80);
    XorOf(v, 0x80);
    XorOf(0x91, v ^ 0x80);
    XorOf(0x11, v);
  }

  lemma TunedText(x: Byte)
    ensures Shows(Tuned(x)) && Tuned(x) != [] && Tuned(x)[0] == 0x41 && XorAll(0x50, Tuned(x)) == x
  {
    LetterXor();
    XorTwice(0x11, x);
    assert Xor(0x11, 0x80) == 0x91;
    hide Xor, XorAll;
    var b := Xor(0x11, x);
    OneXored(0x50, 0x41);
    if b < 0x80 {
      XorHigh(b);
      var c := Xor(b, 0x80);
      XorAllSnoc(0x50, [0x41], 0x80);
      XorAllSnoc(0x50, [0x41, 0x80], c);
      assert [0x41] + [0x80] == [0x41, 0x80] && [0x41, 0x80] + [c] == Tuned(x);
    } else {
      XorAllSnoc(0x50, [0x41], b);
      assert [0x41] + [b] == Tuned(x);
    }
  }

  /** $GPGLL,,,,,,AA*8: the second digit of the checksum is missing. The XOR is 50, and 8 comes to 128 less 48. */
  lemma TruncatedPasses(p: Parser, clock: nat -> nat)
    requires Fresh(p)
    ensures var s := Sentence(Saying([0x41, 0x41]), [0x38]);
      && Cut(s) == Parsed(Saying([0x41, 0x41]), [0x38]) && Total(Cut(s), RETURN) == 0x50
      && Encode(Run(p, s, clock), RETURN, clock(|s|)).1 && SaysValid(Cut(s).terms)
  {
    TwoLetters();
    hide Xor, XorAll, Shows, Cut, Run, Encode, Spell, Saying, SaysValid, SecondHeld, Total, SentenceKind;
    SayingPasses(p, [0x41, 0x41], [0x38], 0x50, clock);
  }

  /** $GPGLL,,,,,,AA*4@: a character that is no digit. */
  lemma GarbledPasses(p: Parser, clock: nat -> nat)
    requires Fresh(p)
    ensures var s := Sentence(Saying([0x41, 0x41]), [0x34, 0x40]);
      && Cut(s) == Parsed(Saying([0x41, 0x41]), [0x34, 0x40]) && Total(Cut(s), RETURN) == 0x50
      && Encode(Run(p, s, clock), RETURN, clock(|s|)).1 && SaysValid(Cut(s).terms)
  {
    TwoLetters();
    hide Xor, XorAll, Shows, Cut, Run, Encode, Spell, Saying, SaysValid, SecondHeld, Total, SentenceKind;
    SayingPasses(p, [0x41, 0x41], [0x34, 0x40], 0x50, clock);
  }

  lemma TwoLetters()
    ensures Shows([0x41, 0x41]) && XorAll(0x50, [0x41, 0x41]) == 0x50
  {
    LetterXor();
    assert Xor(0x11, 0x41) == 0x50;
    hide Xor, XorAll;
    OneXored(0x50, 0x41);
    XorAllSnoc(0x50, [0x41], 0x41);
    assert [0x41] + [0x41] == [0x41, 0x41];
  }

  /** $GPGLL,,,,,,A0!*: no checksum at all. The XOR is 0, and so is what the 0 of A0! comes to. */
  lemma MissingPasses(p: Parser, clock: nat -> nat)
    requires Fresh(p)
    ensures var s := Sentence(Saying([0x41, 0x30, 0x21]), []);
      && Cut(s) == Parsed(Saying([0x41, 0x30, 0x21]), []) && Total(Cut(s), RETURN) == 0
      && SentenceKind(Cut(s).terms) == GLL
      && Encode(Run(p, s, clock), RETURN, clock(|s|)).1 && SaysValid(Cut(s).terms)
  {
    MissingXor();
    hide Xor, XorAll, Shows, Cut, Run, Encode, Spell, Saying, SaysValid, SecondHeld, Total, SentenceKind;
    SayingPasses(p, [0x41, 0x30, 0x21], [], 0, clock);
  }

  lemma MissingXor()
    ensures Shows([0x41, 0x30, 0x21]) && XorAll(0x50, [0x41, 0x30, 0x21]) == 0
  {
    LetterXor();
    assert Xor(0x11, 0x30) == 0x21 && Xor(0x21, 0x21) == 0;
    hide Xor, XorAll;
    OneXored(0x50, 0x41);
    XorAllSnoc(0x50, [0x41], 0x30);
    XorAllSnoc(0x50, [0x41, 0x30], 0x21);
    assert [0x41] + [0x30] == [0x41, 0x30] && [0x41, 0x30] + [0x21] == [0x41, 0x30, 0x21];
  }

  /** For every checksum text that does not begin with two hex digits there is a sentence that passes with it. */
  lemma TakenAllTheSame(p: Parser, sum: seq<Byte>, clock: nat -> nat) returns (s: seq<Byte>)
    requires Fresh(p) && Plain(sum) && !HexText(sum)
    ensures Cut(s).rest == sum && SentenceKind(Cut(s).terms) == GLL && |Cut(s).terms| == 7
    ensures Encode(Run(p, s, clock), RETURN, clock(|s|)).1 && !SumJudged(p, s, RETURN, clock)
  {
    hide Xor, XorAll, Shows, Cut, Run, Encode, Spell, Saying, SaysValid, SecondHeld, Total, Tuned, HexText,
      SentenceKind, Spells;
    if sum == [] {
      MissingPasses(p, clock);
      s := Sentence(Saying([0x41, 0x30, 0x21]), []);
    } else {
      var x := CheckValue(0, Parsed([], sum));
      TunedText(x);
      SayingPasses(p, Tuned(x), sum, x, clock);
      s := Sentence(Saying(Tuned(x)), sum);
    }
    if Spells(sum, Total(Cut(s), RETURN)) { OnlyHexSpells(sum, Total(Cut(s), RETURN)); }
  }

  /** Every sentence with this checksum text, up to the bound of its kind, passes exactly if the text begins with
      the two hex digits of its XOR and its validity field is good. */
  ghost predicate SumRight(sum: seq<Byte>, clock: nat -> nat) {
    forall p: Parser, s: seq<Byte>, c: Byte ::
      Fresh(p) && Cut(s).rest == sum && |Cut(s).terms| <= GateBound(SentenceKind(Cut(s).terms)) ==>
        SumJudged(p, s, c, clock)
  }

  /** The texts of which that is so are exactly those that begin with two hex digits. */
  lemma SumRightIff(sum: seq<Byte>, clock: nat -> nat)
    requires Plain(sum)
    ensures SumRight(sum, clock) <==> HexText(sum)
  {
    hide SumJudged, Cut, HexText, SentenceKind, Plain;
    if HexText(sum) {
      forall p: Parser, s: seq<Byte>, c: Byte
        | Fresh(p) && Cut(s).rest == sum && |Cut(s).terms| <= GateBound(SentenceKind(Cut(s).terms))
        ensures SumJudged(p, s, c, clock)
      {
        HexSumJudged(p, s, c, clock);
      }
    } else {
      var s := TakenAllTheSame(New(), sum, clock);
    }
  }
}
