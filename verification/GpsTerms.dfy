/**
 * The parser of TinyGPS/TinyGPS.cpp, seen from the terms of a sentence: which term decides whether a sentence
 * passes, and what a passing sentence publishes. Term numbers are one byte wide, and case labels are term numbers
 * moved by the kind of sentence, so a long sentence runs into the labels of another kind.
 */
module GpsTerms {
  import opened Bytes
  import opened GpsNumbers
  import opened GpsSpec

  // ----- the sentence so far -----

  /** What the complete terms of a sentence have come to. */
  datatype Digest = Digest(kind: Kind, good: bool, readings: Readings)

  function Timeless(r: Readings): Readings {
    r.(timeFix := 0, positionFix := 0)
  }

  /** Behind terms, one more term with this text. */
  function Take(d: Digest, terms: seq<Term>, text: seq<Byte>): Digest {
    var n := |terms| % 256;
    if IsChecksum(terms, |terms|) then d
    else if n == 0 then d.(kind := KindOf(text))
    else if d.kind == OTHER || text == [] then d
    else
      var tag := Label(d.kind, n);
      if IsValidity(tag) then d.(good := SaysGood(tag, text[0]))
      else d.(readings := Timeless(Reading(d.readings, tag, text, 0)))
  }

  /** r0: the readings held when the sentence began. */
  function Digested(r0: Readings, terms: seq<Term>): Digest
    decreases |terms|
  {
    if terms == [] then Digest(OTHER, false, r0)
    else
      var k := |terms| - 1;
      Take(Digested(r0, terms[..k]), terms[..k], Seen(terms[k].text))
  }

  lemma DigestSnoc(r0: Readings, terms: seq<Term>, t: Term)
    ensures Digested(r0, terms + [t]) == Take(Digested(r0, terms), terms, Seen(t.text))
  {
    assert (terms + [t])[..|terms|] == terms;
  }

  /** The readings that the parser held when the sentence began, at the last '$' or at the very start. */
  function Held(p: Parser, s: seq<Byte>, clock: nat -> nat): Readings
    requires Valid(p)
  {
    if s == [] then p.readings
    else if s[|s| - 1] == DOLLAR then Run(p, s[..|s| - 1], clock).readings
    else Held(p, s[..|s| - 1], clock)
  }

  predicate Agrees(p: Parser, d: Digest) {
    p.kind == d.kind && p.good == d.good && Timeless(p.readings) == d.readings
  }

  lemma CompletionTakes(p: Parser, d: Digest, terms: seq<Term>, text: seq<Byte>, now: nat)
    requires Valid(p) && Agrees(p, d) && CString(p.buf) == Seen(text)
    requires p.number == |terms| % 256 && p.isChecksum == IsChecksum(terms, |terms|)
    ensures Agrees(TermComplete(p, now).0, Take(d, terms, Seen(text)))
  {
    hide Decimal, Degrees, Atol, KindOf, CString, Seen, Negate, Spelled, Publish;
  }

  lemma EncodeTakes(p: Parser, d: Digest, t: Parsed, c: Byte, now: nat)
    requires Matches(p, t) && Agrees(p, d) && c != DOLLAR
    ensures Agrees(Encode(p, c, now).0, if Ends(c) then Take(d, t.terms, Seen(t.rest)) else d)
  {
    hide TermComplete, Take, Xor, WithText, Seen, CString;
    if Ends(c) {
      BufferShows(p.buf, p.offset, t.rest);
      var p1 := p.(parity := if c == COMMA then Xor(p.parity, c) else p.parity, buf := p.buf[p.offset := 0]);
      CompletionTakes(p1, d, t.terms, t.rest, now);
    }
  }

  /** Over every stream, kind, validity and readings are what the terms since the last '$' make of the readings
      held then, whatever their number. */
  lemma {:induction false} RunDigests(p: Parser, s: seq<Byte>, clock: nat -> nat)
    requires Fresh(p)
    ensures Agrees(Run(p, s, clock), Digested(Timeless(Held(p, s, clock)), Cut(s).terms))
  {
    if s != [] {
      hide Matches, Agrees, Take, TermComplete;
      var init, c := s[..|s| - 1], s[|s| - 1];
      var q, t := Run(p, init, clock), Cut(init);
      if c == DOLLAR {
        DollarAgrees(q, clock(|init|));
      } else {
        RunDigests(p, init, clock);
        RunMatches(p, init, clock);
        var r0 := Timeless(Held(p, init, clock));
        EncodeTakes(q, Digested(r0, t.terms), t, c, clock(|init|));
        if Ends(c) { DigestSnoc(r0, t.terms, Term(t.rest, c)); }
      }
    }
  }

  lemma DollarAgrees(p: Parser, now: nat)
    requires Valid(p)
    ensures Agrees(Encode(p, DOLLAR, now).0, Digest(OTHER, false, Timeless(p.readings)))
  {
  }

  // ----- when a sentence passes -----

  /** Term k is complete, not empty, and an ordinary one. */
  predicate Given(terms: seq<Term>, k: nat) {
    0 < k < |terms| && !IsChecksum(terms, k) && Seen(terms[k].text) != []
  }

  function Field(terms: seq<Term>, k: nat): seq<Byte>
    requires k < |terms|
  {
    Seen(terms[k].text)
  }

  /** c ends a checksum term that comes to the XOR of commas and non-checksum characters. */
  predicate ChecksumMatches(p: Parser, s: seq<Byte>, c: Byte)
    requires Valid(p)
  {
    var t := Cut(s);
    && Ends(c) && IsChecksum(t.terms, |t.terms|)
    && CheckValue(SecondHeld(p.buf[1], s), t) == Total(t, c)
  }

  /** The XOR of the sentence, if c ends its checksum term. */
  function Total(t: Parsed, c: Byte): Byte {
    WithText(t.terms + [Term(t.rest, c)], [])
  }

  /** Over every stream, a sentence passes exactly with a checksum that matches and the last say of its validity
      terms good; no published field changes otherwise. */
  lemma PassesExactly(p: Parser, s: seq<Byte>, c: Byte, clock: nat -> nat)
    requires Fresh(p)
    ensures var (q, passed) := Encode(Run(p, s, clock), c, clock(|s|));
      && (passed <==>
            ChecksumMatches(p, s, c) && Digested(Timeless(Held(p, s, clock)), Cut(s).terms).good)
      && (q.fix != Run(p, s, clock).fix ==> passed)
  {
    hide Encode, WithText, Cut, Run, Digested, Held, CheckValue, SecondHeld;
    RunMatches(p, s, clock);
    ChecksumIsItsText(p, s, clock);
    RunDigests(p, s, clock);
    PassesIff(Run(p, s, clock), c, clock(|s|));
    ParityOfEnd(Cut(s).terms, Cut(s).rest, c);
  }

  /** How many complete terms a sentence may have before another term than its validity field is asked. RMC and
      GGA sentences meet each other's labels at term 106, GSV sentences those of RMC at term 102; otherwise the
      term number starts over at 256, where the kind is taken anew from the text of the term. */
  function GateBound(kind: Kind): nat {
    match kind
    case GSV => 102
    case RMC => 106
    case GGA => 106
    case GLL => 258
    case OTHER => 258
  }

  /** Up to the bound the validity field decides; and the kind is the one of the first term up to term 255. */
  lemma {:induction false} GateIsValidity(r0: Readings, terms: seq<Term>)
    requires |terms| <= GateBound(SentenceKind(terms))
    ensures Digested(r0, terms).good == SaysValid(terms)
    ensures |terms| <= 256 ==> Digested(r0, terms).kind == SentenceKind(terms)
    decreases |terms|
  {
    hide KindOf, Seen, Digested, Take, SentenceKind, SaysValid, SaysGood, IsChecksum;
    if terms == [] {
      NothingDigested(r0);
    } else {
      var init, t := terms[..|terms| - 1], terms[|terms| - 1];
      assert terms == init + [t];
      KindSnoc(init, t);
      GateIsValidity(r0, init);
      DigestSnoc(r0, init, t);
      TakeDecides(Digested(r0, init), init, Seen(t.text));
      ValiditySnoc(init, t);
    }
  }

  lemma NothingDigested(r0: Readings)
    ensures Digested(r0, []) == Digest(OTHER, false, r0) && SentenceKind([]) == OTHER && !SaysValid([])
    ensures LastAlias([]) == 0
  {
  }

  lemma KindSnoc(terms: seq<Term>, t: Term)
    ensures SentenceKind(terms + [t]) == if terms == [] then KindOf(Seen(t.text)) else SentenceKind(terms)
  {
    hide KindOf, Seen;
  }

  /** What one more term does to kind and validity. */
  lemma TakeDecides(d: Digest, terms: seq<Term>, text: seq<Byte>)
    ensures var n := |terms| % 256;
      && Take(d, terms, text).kind == (if n == 0 && !IsChecksum(terms, |terms|) then KindOf(text) else d.kind)
      && Take(d, terms, text).good ==
           (if n != 0 && !IsChecksum(terms, |terms|) && d.kind != OTHER && text != [] && IsValidity(Label(d.kind, n))
            then SaysGood(Label(d.kind, n), text[0]) else d.good)
    ensures |terms| == 0 ==> !IsChecksum(terms, |terms|)
  {
    hide KindOf, Reading;
  }

  lemma ValiditySnoc(terms: seq<Term>, t: Term)
    ensures terms != [] ==>
      SaysValid(terms + [t]) ==
        if |terms| == ValidityField(SentenceKind(terms)) && !IsChecksum(terms, |terms|) && Seen(t.text) != [] then
          SaysGood(Label(SentenceKind(terms), |terms|), Seen(t.text)[0])
        else SaysValid(terms)
    ensures terms == [] ==> !SaysValid(terms + [t]) && !SaysValid(terms)
  {
    hide KindOf, Seen;
    var more := terms + [t];
    if terms != [] {
      assert more[0] == terms[0];
      var k := ValidityField(SentenceKind(terms));
      assert k < |terms| ==> more[k] == terms[k];
      assert 0 < k <= |terms| ==> more[k - 1] == terms[k - 1];
      assert more[|terms|] == t;
    }
  }

  /** A sentence passes exactly at the terminator of a checksum text that comes to its XOR, if its validity field
      is good, up to the bound of its kind; only there does a published field change. */
  lemma PublishedIffChecked(p: Parser, s: seq<Byte>, c: Byte, clock: nat -> nat)
    requires Fresh(p) && |Cut(s).terms| <= GateBound(SentenceKind(Cut(s).terms))
    ensures var (q, passed) := Encode(Run(p, s, clock), c, clock(|s|));
      && (passed <==> ChecksumMatches(p, s, c) && SaysValid(Cut(s).terms))
      && (q.fix != Run(p, s, clock).fix ==> passed)
  {
    hide ChecksumMatches, Encode, SaysValid, Digested, Cut, Run;
    PassesExactly(p, s, c, clock);
    GateIsValidity(Timeless(Held(p, s, clock)), Cut(s).terms);
  }

  /** The sentence s passes at c exactly if its checksum text begins with the two hex digits of its XOR and its
      own validity field is good. */
  predicate SumJudged(p: Parser, s: seq<Byte>, c: Byte, clock: nat -> nat)
    requires Valid(p)
  {
    var t := Cut(s);
    Encode(Run(p, s, clock), c, clock(|s|)).1 <==>
      Ends(c) && IsChecksum(t.terms, |t.terms|) && Spells(t.rest, Total(t, c)) && SaysValid(t.terms)
  }

  /** So is every sentence, up to the bound of its kind, whose checksum text begins with two hex digits. */
  lemma HexSumJudged(p: Parser, s: seq<Byte>, c: Byte, clock: nat -> nat)
    requires Fresh(p) && |Cut(s).terms| <= GateBound(SentenceKind(Cut(s).terms)) && HexText(Cut(s).rest)
    ensures SumJudged(p, s, c, clock)
  {
    hide CheckValue, Encode, SaysValid, Cut, Run, Spells, HexText, Total, SecondHeld, SentenceKind;
    PublishedIffChecked(p, s, c, clock);
    HexTextReads(SecondHeld(p.buf[1], s), Cut(s), Total(Cut(s), c));
  }

  /** A term whose label is a validity label of another kind. */
  predicate Alias(kind: Kind, k: nat) {
    kind != OTHER && k != ValidityField(kind) && IsValidity(Label(kind, k))
  }

  /** The last such term that is given, 0 if there is none. */
  function LastAlias(terms: seq<Term>): (k: nat)
    ensures k > 0 ==> Given(terms, k) && Alias(SentenceKind(terms), k)
    decreases |terms|
  {
    if terms == [] then 0
    else
      var n := |terms| - 1;
      if Given(terms, n) && Alias(SentenceKind(terms), n) then n
      else
        var k := LastAlias(terms[..n]);
        assert k > 0 ==> terms[..n][k] == terms[k] && terms[..n][k - 1] == terms[k - 1];
        k
  }

  /** For every sentence of at most 256 complete terms: whether it may pass is the say of its validity field
      exactly if no term with another kind's validity label is given, or the last such term says the same. */
  lemma GateRightIff(r0: Readings, terms: seq<Term>)
    requires |terms| <= 256
    ensures var a := LastAlias(terms);
      Digested(r0, terms).good == SaysValid(terms) <==>
        a == 0 || SaysGood(Label(SentenceKind(terms), a), Field(terms, a)[0]) == SaysValid(terms)
  {
    GateIsLastSay(r0, terms);
  }

  lemma {:induction false} GateIsLastSay(r0: Readings, terms: seq<Term>)
    requires |terms| <= 256
    ensures var a := LastAlias(terms);
      Digested(r0, terms).good ==
        if a == 0 then SaysValid(terms) else SaysGood(Label(SentenceKind(terms), a), Field(terms, a)[0])
    ensures Digested(r0, terms).kind == SentenceKind(terms)
    decreases |terms|
  {
    hide KindOf, Seen, Digested, Take, SentenceKind, SaysValid, SaysGood, IsChecksum, LastAlias, Given;
    if terms == [] {
      NothingDigested(r0);
    } else {
      var init, t := terms[..|terms| - 1], terms[|terms| - 1];
      assert terms == init + [t];
      KindSnoc(init, t);
      GateIsLastSay(r0, init);
      DigestSnoc(r0, init, t);
      TakeDecides(Digested(r0, init), init, Seen(t.text));
      ValiditySnoc(init, t);
      LastAliasSnoc(init, t);
      AliasIsLater(SentenceKind(init), LastAlias(init));
    }
  }

  lemma AliasIsLater(kind: Kind, k: nat)
    ensures k > 0 && Alias(kind, k) ==> k > ValidityField(kind)
  {
  }

  lemma LastAliasSnoc(terms: seq<Term>, t: Term)
    ensures var n, more := |terms|, terms + [t];
      && LastAlias(more) == (if Given(more, n) && Alias(SentenceKind(more), n) then n else LastAlias(terms))
      && (Given(more, n) <==> n > 0 && !IsChecksum(terms, n) && Seen(t.text) != [])
      && (LastAlias(terms) > 0 ==>
            LastAlias(terms) < n && Field(more, LastAlias(terms)) == Field(terms, LastAlias(terms)))
      && Field(more, n) == Seen(t.text)
  {
    hide Seen, KindOf;
    assert (terms + [t])[..|terms|] == terms;
    assert |terms| > 0 ==> (terms + [t])[|terms| - 1] == terms[|terms| - 1];
  }
}
