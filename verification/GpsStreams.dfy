/**
 * Sentences as streams of characters for the parser of TinyGPS/TinyGPS.cpp, and for each kind one just beyond the
 * bound of GpsTerms on which the parser goes wrong, which makes the bounds exact.
 */
module GpsStreams {
  import opened Bytes
  import opened GpsSpec
  import opened GpsTerms

  // ----- sentences as characters -----

  /** No character of the text ends a term or begins a sentence. */
  predicate Plain(text: seq<Byte>) {
    forall i :: 0 <= i < |text| ==> !Ends(text[i]) && text[i] != DOLLAR
  }

  predicate PlainTerms(terms: seq<Term>) {
    forall i :: 0 <= i < |terms| ==> Plain(terms[i].text) && Ends(terms[i].end)
  }

  function Spell(terms: seq<Term>): seq<Byte> {
    if terms == [] then [] else Spell(terms[..|terms| - 1]) + (terms[|terms| - 1].text + [terms[|terms| - 1].end])
  }

  function Sentence(terms: seq<Term>, rest: seq<Byte>): seq<Byte> {
    [DOLLAR] + Spell(terms) + rest
  }

  lemma CutSnoc(s: seq<Byte>, c: Byte)
    ensures Cut(s + [c]) ==
      if c == DOLLAR then Parsed([], [])
      else if Ends(c) then Parsed(Cut(s).terms + [Term(Cut(s).rest, c)], [])
      else Parsed(Cut(s).terms, Cut(s).rest + [c])
  {
    assert (s + [c])[..|s|] == s;
  }

  lemma {:induction false} CutText(s: seq<Byte>, text: seq<Byte>)
    requires Plain(text)
    ensures Cut(s + text) == Parsed(Cut(s).terms, Cut(s).rest + text)
  {
    if text == [] {
      assert s + text == s && Cut(s).rest + text == Cut(s).rest;
    } else {
      hide Cut;
      var init, c := text[..|text| - 1], text[|text| - 1];
      CutText(s, init);
      CutSnoc(s + init, c);
      assert s + text == s + init + [c] && Cut(s).rest + text == Cut(s).rest + init + [c];
    }
  }

  /** Whatever came before, the terms of a sentence are read back from its characters. */
  lemma {:induction false} CutSentence(pre: seq<Byte>, terms: seq<Term>, rest: seq<Byte>)
    requires PlainTerms(terms) && Plain(rest)
    ensures Cut(pre + Sentence(terms, rest)) == Parsed(terms, rest)
    decreases |terms|, |rest|
  {
    hide Cut;
    var s := pre + Sentence(terms, []);
    if terms == [] {
      assert s == pre + [DOLLAR];
      CutSnoc(pre, DOLLAR);
    } else {
      var init, t := terms[..|terms| - 1], terms[|terms| - 1];
      CutSentence(pre, init, []);
      var s0 := pre + Sentence(init, []);
      assert s == s0 + t.text + [t.end];
      CutText(s0, t.text);
      CutSnoc(s0 + t.text, t.end);
      assert init + [t] == terms && [] + t.text == t.text;
    }
    assert pre + Sentence(terms, rest) == s + rest && [] + rest == rest;
    CutText(s, rest);
  }

  lemma {:induction false} HeldBefore(p: Parser, pre: seq<Byte>, x: seq<Byte>, clock: nat -> nat)
    requires Valid(p) && DOLLAR !in x
    ensures Held(p, pre + [DOLLAR] + x, clock) == Run(p, pre, clock).readings
  {
    var s := pre + [DOLLAR] + x;
    if x == [] {
      assert s[..|s| - 1] == pre;
    } else {
      var init := x[..|x| - 1];
      assert s[..|s| - 1] == pre + [DOLLAR] + init;
      HeldBefore(p, pre, init, clock);
    }
  }

  lemma {:induction false} NoDollar(terms: seq<Term>)
    requires PlainTerms(terms)
    ensures DOLLAR !in Spell(terms)
  {
    if terms != [] { NoDollar(terms[..|terms| - 1]); }
  }

  /** A sentence with any checksum text, and how it is judged. */
  lemma SentencePasses(p: Parser, pre: seq<Byte>, terms: seq<Term>, sum: seq<Byte>, clock: nat -> nat)
    requires Fresh(p) && PlainTerms(terms) && Plain(sum)
    requires terms != [] && terms[|terms| - 1].end == STAR
    ensures var s := pre + Sentence(terms, sum);
      var matching := CheckValue(SecondHeld(p.buf[1], s), Parsed(terms, sum)) == Parity(terms);
      && Cut(s) == Parsed(terms, sum) && Timeless(Held(p, s, clock)) == Timeless(Run(p, pre, clock).readings)
      && (Encode(Run(p, s, clock), RETURN, clock(|s|)).1 <==>
            matching && Digested(Timeless(Run(p, pre, clock).readings), terms).good)
      && (ChecksumMatches(p, s, RETURN) <==> matching)
  {
    hide Encode, Run, Cut, Held, Digested, CheckValue, SecondHeld, Parity, Spell;
    var s := pre + Sentence(terms, sum);
    CutSentence(pre, terms, sum);
    NoDollar(terms);
    var x := Spell(terms) + sum;
    assert s == pre + [DOLLAR] + x;
    HeldBefore(p, pre, x, clock);
    PassesExactly(p, s, RETURN, clock);
    ChecksumParity(terms, sum);
  }

  lemma ChecksumParity(terms: seq<Term>, sum: seq<Byte>)
    requires terms != [] && terms[|terms| - 1].end == STAR
    ensures WithText(terms + [Term(sum, RETURN)], []) == Parity(terms)
  {
    ParityOfEnd(terms, sum, RETURN);
  }

  // ----- terms without text -----

  predicate AllCommas(terms: seq<Term>) {
    forall i :: 0 <= i < |terms| ==> terms[i].end == COMMA
  }

  const EMPTY := Term([], COMMA)

  function Empties(k: nat): (terms: seq<Term>)
    ensures |terms| == k && forall i :: 0 <= i < k ==> terms[i] == EMPTY
  {
    if k == 0 then [] else Empties(k - 1) + [EMPTY]
  }

  lemma ParitySnoc(terms: seq<Term>, t: Term)
    requires AllCommas(terms)
    ensures var x := XorAll(Parity(terms), t.text);
      Parity(terms + [t]) == if t.end == COMMA then Xor(x, COMMA) else x
  {
    assert (terms + [t])[..|terms|] == terms;
  }

  lemma {:induction false} ParityEmpties(terms: seq<Term>, k: nat, x: Byte, y: Byte)
    requires AllCommas(terms) && Parity(terms) == x && Xor(x, COMMA) == y && Xor(y, COMMA) == x
    ensures Parity(terms + Empties(k)) == if k % 2 == 0 then x else y
  {
    hide Parity, Xor;
    if k == 0 {
      assert terms + Empties(0) == terms;
    } else {
      ParityEmpties(terms, k - 1, x, y);
      assert terms + Empties(k) == (terms + Empties(k - 1)) + [EMPTY];
      ParitySnoc(terms + Empties(k - 1), EMPTY);
    }
  }

  /** Terms without text change nothing, until the term number starts over and an empty text counts as the
      first of the known names. */
  lemma {:induction false} DigestEmpties(r0: Readings, terms: seq<Term>, k: nat)
    requires AllCommas(terms) && 0 < |terms| && |terms| + k <= 512
    ensures var d := Digested(r0, terms);
      Digested(r0, terms + Empties(k)) ==
        if |terms| <= 256 < |terms| + k then d.(kind := RMC) else d
  {
    hide Digested, Reading;
    if k == 0 {
      assert terms + Empties(0) == terms;
    } else {
      DigestEmpties(r0, terms, k - 1);
      var init := terms + Empties(k - 1);
      assert terms + Empties(k) == init + [EMPTY];
      DigestSnoc(r0, init, EMPTY);
      assert Seen([]) == [];
    }
  }

  // ----- the bound on what decides -----

  /** The sentence s, ended by c, passes exactly if its checksum matches and its own validity field is good. */
  predicate Judged(p: Parser, s: seq<Byte>, c: Byte, clock: nat -> nat)
    requires Valid(p)
  {
    Encode(Run(p, s, clock), c, clock(|s|)).1 <==> ChecksumMatches(p, s, c) && SaysValid(Cut(s).terms)
  }

  /** So is every sentence of this kind with at most n complete terms. */
  ghost predicate GateRight(kind: Kind, n: nat, clock: nat -> nat) {
    forall p: Parser, s: seq<Byte>, c: Byte ::
      Fresh(p) && SentenceKind(Cut(s).terms) == kind && |Cut(s).terms| <= n ==> Judged(p, s, c, clock)
  }

  /** A name, terms without text, and one letter as term number n, behind a '*'. */
  function Lone(name: seq<Byte>, n: nat, letter: Byte): (terms: seq<Term>)
    requires n > 0
    ensures |terms| == n + 1 && terms[n].end == STAR
  {
    [Term(name, COMMA)] + Empties(n - 1) + [Term([letter], STAR)]
  }

  /** Characters that a term shows as they are. */
  predicate Shows(text: seq<Byte>) {
    Plain(text) && |text| < TERM && forall i :: 0 <= i < |text| ==> text[i] != 0
  }

  lemma {:induction false} StringShows(text: seq<Byte>)
    requires forall i :: 0 <= i < |text| ==> text[i] != 0
    ensures CString(text) == text
  {
    if text != [] { StringShows(text[1..]); }
  }

  lemma SeenAsIs(text: seq<Byte>)
    requires Shows(text)
    ensures Seen(text) == text
  {
    StringShows(text);
  }

  lemma XorAllSnoc(x: Byte, s: seq<Byte>, c: Byte)
    ensures XorAll(x, s + [c]) == Xor(XorAll(x, s), c)
  {
    assert (s + [c])[..|s|] == s;
  }

  lemma NameFirst(r0: Readings, name: seq<Byte>)
    requires Shows(name)
    ensures var t1 := [Term(name, COMMA)];
      && Digested(r0, t1) == Digest(KindOf(name), false, r0) && SentenceKind(t1) == KindOf(name)
      && Parity(t1) == Xor(XorAll(0, name), COMMA) && AllCommas(t1)
  {
    hide Xor, KindOf, Reading;
    SeenAsIs(name);
    var t := Term(name, COMMA);
    assert [] + [t] == [t];
    DigestSnoc(r0, [], t);
    ParitySnoc([], t);
  }

  /** A name and terms without text: x is the XOR of the name. */
  lemma Opening(r0: Readings, name: seq<Byte>, k: nat, x: Byte, y: Byte)
    requires Shows(name) && XorAll(0, name) == x && Xor(x, COMMA) == y && Xor(y, COMMA) == x && k < 511
    ensures var t2 := [Term(name, COMMA)] + Empties(k);
      && AllCommas(t2) && PlainTerms(t2) && SentenceKind(t2) == KindOf(name)
      && Parity(t2) == (if k % 2 == 0 then y else x)
      && Digested(r0, t2) == Digest(if k < 256 then KindOf(name) else RMC, false, r0)
  {
    hide Parity, Xor, Digested, KindOf;
    NameFirst(r0, name);
    ParityEmpties([Term(name, COMMA)], k, y, x);
    DigestEmpties(r0, [Term(name, COMMA)], k);
    SeenAsIs(name);
  }

  /** A sentence under way: its terms are plain and end in commas, and this is what they come to. */
  predicate UnderWay(r0: Readings, terms: seq<Term>, d: Digest, kind: Kind, parity: Byte) {
    && terms != [] && AllCommas(terms) && PlainTerms(terms) && Parity(terms) == parity
    && Digested(r0, terms) == d && SentenceKind(terms) == kind
  }

  lemma Begun(r0: Readings, name: seq<Byte>, k: nat, x: Byte, y: Byte)
    requires Shows(name) && XorAll(0, name) == x && Xor(x, COMMA) == y && Xor(y, COMMA) == x && k < 511
    ensures UnderWay(r0, [Term(name, COMMA)] + Empties(k), Digest(if k < 256 then KindOf(name) else RMC, false, r0),
                     KindOf(name), if k % 2 == 0 then y else x)
  {
    hide Digested, Parity, Xor, KindOf, SentenceKind, AllCommas, PlainTerms;
    Opening(r0, name, k, x, y);
  }

  /** One more letter, in a term that a comma ends. */
  lemma GoesOn(r0: Readings, terms: seq<Term>, d: Digest, kind: Kind, x: Byte, a: Byte, z: Byte, w: Byte)
    requires UnderWay(r0, terms, d, kind, x) && Xor(x, a) == z && Xor(z, COMMA) == w && Shows([a])
    ensures UnderWay(r0, terms + [Term([a], COMMA)], Take(d, terms, [a]), kind, w)
  {
    hide Parity, Xor, Digested, KindOf, Take, SentenceKind, XorAll;
    var t := Term([a], COMMA);
    DigestSnoc(r0, terms, t);
    SeenAsIs([a]);
    ParitySnoc(terms, t);
    OneXored(x, a);
    KindSnoc(terms, t);
  }

  /** Terms without text, short of the wrap. */
  lemma GoesOnEmpty(r0: Readings, terms: seq<Term>, d: Digest, kind: Kind, x: Byte, y: Byte, k: nat)
    requires UnderWay(r0, terms, d, kind, x) && Xor(x, COMMA) == y && Xor(y, COMMA) == x && |terms| + k <= 256
    ensures UnderWay(r0, terms + Empties(k), d, kind, if k % 2 == 0 then x else y)
  {
    hide Parity, Xor, Digested, SentenceKind;
    ParityEmpties(terms, k, x, y);
    DigestEmpties(r0, terms, k);
    KindsStay(terms, Empties(k));
  }

  /** The last text, behind which the checksum term begins. */
  lemma LastText(r0: Readings, terms: seq<Term>, d: Digest, kind: Kind, x: Byte, text: seq<Byte>)
    requires UnderWay(r0, terms, d, kind, x) && Shows(text)
    ensures var all := terms + [Term(text, STAR)];
      && PlainTerms(all) && Parity(all) == XorAll(x, text) && SentenceKind(all) == kind
      && Digested(r0, all) == Take(d, terms, text)
  {
    hide Parity, Xor, Digested, KindOf, Take, SentenceKind, XorAll;
    var t := Term(text, STAR);
    DigestSnoc(r0, terms, t);
    SeenAsIs(text);
    ParitySnoc(terms, t);
    KindSnoc(terms, t);
  }

  lemma LastLetter(r0: Readings, terms: seq<Term>, d: Digest, kind: Kind, x: Byte, b: Byte)
    requires UnderWay(r0, terms, d, kind, x) && Shows([b])
    ensures var all := terms + [Term([b], STAR)];
      && PlainTerms(all) && Parity(all) == Xor(x, b) && SentenceKind(all) == kind
      && Digested(r0, all) == Take(d, terms, [b])
  {
    hide UnderWay, Parity, Xor, Digested, KindOf, Take, SentenceKind, XorAll;
    LastText(r0, terms, d, kind, x, [b]);
    OneXored(x, b);
  }

  lemma OneXored(x: Byte, a: Byte)
    ensures XorAll(x, [a]) == Xor(x, a)
  {
    assert [] + [a] == [a];
    XorAllSnoc(x, [], a);
  }

  lemma NoChecksum(terms: seq<Term>)
    requires AllCommas(terms)
    ensures !IsChecksum(terms, |terms|)
  {
  }

  lemma KindsStay(terms: seq<Term>, more: seq<Term>)
    requires terms != []
    ensures SentenceKind(terms + more) == SentenceKind(terms)
  {
    hide KindOf;
  }

  /** What the parser looks for a validity label with at term n, behind terms without text. */
  function KindAt(name: seq<Byte>, n: nat): Kind {
    if n <= 256 then KindOf(name) else RMC
  }

  /** The letter stands where a validity label is looked up, and says good. */
  predicate LetterSaysGood(name: seq<Byte>, n: nat, letter: Byte) {
    var kind := KindAt(name, n);
    var tag := Label(kind, n % 256);
    && Shows([letter]) && ValidityField(KindOf(name)) < n < 512 && n % 256 != 0
    && kind != OTHER && IsValidity(tag) && SaysGood(tag, letter)
  }

  /** A lone letter behind terms that ask for nothing decides, if its number has a validity label. */
  lemma LoneLetterDecides(r0: Readings, name: seq<Byte>, n: nat, letter: Byte, x: Byte, y: Byte)
    requires Shows(name) && XorAll(0, name) == x && Xor(x, COMMA) == y && Xor(y, COMMA) == x
    requires n % 2 == 0 && LetterSaysGood(name, n, letter)
    ensures var terms := Lone(name, n, letter);
      && PlainTerms(terms) && SentenceKind(terms) == KindOf(name) && !SaysValid(terms)
      && Parity(terms) == Xor(x, letter) && Digested(r0, terms).good
  {
    hide UnderWay, Parity, Xor, XorAll, Digested, KindOf, Label, SaysValid, Take, SentenceKind, IsChecksum;
    var t2 := [Term(name, COMMA)] + Empties(n - 1);
    var d := Digest(KindAt(name, n), false, r0);
    Begun(r0, name, n - 1, x, y);
    LastLetter(r0, t2, d, KindOf(name), x, letter);
    NoChecksum(t2);
    TakeDecides(d, t2, [letter]);
    UnderWayKind(r0, t2, d, KindOf(name), x);
    NothingSaid(t2, Term([letter], STAR));
  }

  lemma UnderWayKind(r0: Readings, terms: seq<Term>, d: Digest, kind: Kind, x: Byte)
    requires UnderWay(r0, terms, d, kind, x)
    ensures SentenceKind(terms) == kind
  {
  }

  /** Such a sentence passes although its own validity field says nothing. */
  lemma LoneLetterPasses(p: Parser, name: seq<Byte>, n: nat, letter: Byte, x: Byte, y: Byte, sum: seq<Byte>,
                         clock: nat -> nat)
    requires Fresh(p) && Shows(name) && XorAll(0, name) == x && Xor(x, COMMA) == y && Xor(y, COMMA) == x
    requires n % 2 == 0 && LetterSaysGood(name, n, letter)
    requires |sum| == 2 && Plain(sum) && Spelled(sum) == Xor(x, letter)
    ensures var s := Sentence(Lone(name, n, letter), sum);
      && Cut(s).terms == Lone(name, n, letter) && SentenceKind(Cut(s).terms) == KindOf(name)
      && Encode(Run(p, s, clock), RETURN, clock(|s|)).1 && !SaysValid(Cut(s).terms)
      && !Judged(p, s, RETURN, clock)
  {
    hide Parity, Xor, Digested, KindOf, Encode, Cut, ChecksumMatches, Spelled, Spell, Held, SaysValid, Lone;
    var terms := Lone(name, n, letter);
    LoneLetterDecides(Timeless(p.readings), name, n, letter, x, y);
    var s := Sentence(terms, sum);
    assert [] + s == s && Run(p, [], clock) == p;
    SentencePasses(p, [], terms, sum, clock);
  }

  /** Only the first and the last term have text. */
  lemma NothingSaid(terms: seq<Term>, t: Term)
    requires terms != [] && AllCommas(terms) && forall i :: 0 < i < |terms| ==> terms[i].text == []
    requires ValidityField(SentenceKind(terms)) < |terms|
    ensures SentenceKind(terms + [t]) == SentenceKind(terms) && !SaysValid(terms + [t])
  {
    hide KindOf;
    KindSnoc(terms, t);
    assert Seen([]) == [];
    ValiditySnoc(terms, t);
  }

  // ----- the characters -----

  const NOVEL: seq<Byte> := [0x58]  // X

  lemma FiveXored(x: Byte, a: Byte, b: Byte, c: Byte, d: Byte, e: Byte)
    ensures XorAll(x, [a, b, c, d, e]) == Xor(Xor(Xor(Xor(Xor(x, a), b), c), d), e)
  {
    hide Xor;
    var s := [a, b, c, d, e];
    assert s[..4] == [a, b, c, d] && s[..4][..3] == [a, b, c];
    assert [a, b, c] == [a, b] + [c] && [a, b] == [a] + [b] && [a] == [] + [a];
    XorAllSnoc(x, [], a);
    XorAllSnoc(x, [a], b);
    XorAllSnoc(x, [a, b], c);
    assert [a, b, c, d] == [a, b, c] + [d] && s == [a, b, c, d] + [e];
    XorAllSnoc(x, [a, b, c], d);
    XorAllSnoc(x, [a, b, c, d], e);
  }

  lemma SixXored(x: Byte, a: Byte, b: Byte, c: Byte, d: Byte, e: Byte, f: Byte)
    ensures XorAll(x, [a, b, c, d, e, f]) == Xor(Xor(Xor(Xor(Xor(Xor(x, a), b), c), d), e), f)
  {
    hide Xor, XorAll;
    FiveXored(x, a, b, c, d, e);
    assert [a, b, c, d, e, f] == [a, b, c, d, e] + [f];
    XorAllSnoc(x, [a, b, c, d, e], f);
  }

  lemma RmcXor()
    ensures XorAll(0, GPRMC) == 0x4B
  {
    FiveXored(0, 0x47, 0x50, 0x52, 0x4D, 0x43);
    assert Xor(0, 0x47) == 0x47;
    assert Xor(0x47, 0x50) == 0x17;
    assert Xor(0x17, 0x52) == 0x45;
    assert Xor(0x45, 0x4D) == 0x08;
    assert Xor(0x08, 0x43) == 0x4B;
  }

  lemma GllXor()
    ensures XorAll(0, GPGLL) == 0x50
  {
    FiveXored(0, 0x47, 0x50, 0x47, 0x4C, 0x4C);
    assert Xor(0, 0x47) == 0x47;
    assert Xor(0x47, 0x50) == 0x17;
    assert Xor(0x17, 0x47) == 0x50;
    assert Xor(0x50, 0x4C) == 0x1C;
    assert Xor(0x1C, 0x4C) == 0x50;
  }

  lemma GgaXor()
    ensures XorAll(0, GPGGA) == 0x56
  {
    FiveXored(0, 0x47, 0x50, 0x47, 0x47, 0x41);
    assert Xor(0, 0x47) == 0x47;
    assert Xor(0x47, 0x50) == 0x17;
    assert Xor(0x17, 0x47) == 0x50;
    assert Xor(0x50, 0x47) == 0x17;
    assert Xor(0x17, 0x41) == 0x56;
  }

  lemma GsvXor()
    ensures XorAll(0, GPGSV) == 0x55
  {
    FiveXored(0, 0x47, 0x50, 0x47, 0x53, 0x56);
    assert Xor(0, 0x47) == 0x47;
    assert Xor(0x47, 0x50) == 0x17;
    assert Xor(0x17, 0x47) == 0x50;
    assert Xor(0x50, 0x53) == 0x03;
    assert Xor(0x03, 0x56) == 0x55;
  }

  lemma CommaXor()
    ensures Xor(0x4B, COMMA) == 0x67 && Xor(0x67, COMMA) == 0x4B && Xor(0x50, COMMA) == 0x7C && Xor(0x7C, COMMA) == 0x50
    ensures Xor(0x56, COMMA) == 0x7A && Xor(0x7A, COMMA) == 0x56 && Xor(0x55, COMMA) == 0x79 && Xor(0x79, COMMA) == 0x55
  {
  }

  lemma NovelXor()
    ensures XorAll(0, NOVEL) == 0x58 && Xor(0x58, COMMA) == 0x74 && Xor(0x74, COMMA) == 0x58
  {
    assert [] + [0x58] == NOVEL;
    XorAllSnoc(0, [], 0x58);
    assert Xor(0, 0x58) == 0x58;
  }

  lemma LetterXor()
    ensures Xor(0x4B, 0x31) == 0x7A && Xor(0x56, 0x41) == 0x17 && Xor(0x55, 0x41) == 0x14 && Xor(0x50, 0x41) == 0x11
    ensures Xor(0x58, 0x41) == 0x19
  {
  }

  lemma NotPrefix(x: seq<Byte>, y: seq<Byte>, i: nat)
    requires i < |x| && i < |y| && x[i] != y[i]
    ensures !(x <= y)
  {
  }

  lemma Names()
    ensures KindOf(GPRMC) == RMC && KindOf(GPGLL) == GLL && KindOf(GPGGA) == GGA && KindOf(GPGSV) == GSV
    ensures KindOf(NOVEL) == OTHER
    ensures Shows(GPRMC) && Shows(GPGLL) && Shows(GPGGA) && Shows(GPGSV) && Shows(NOVEL)
  {
    NotPrefix(GPGLL, GPRMC, 2);
    NotPrefix(GPGGA, GPRMC, 2);
    NotPrefix(GPGGA, GPGLL, 3);
    NotPrefix(GPGSV, GPRMC, 2);
    NotPrefix(GPGSV, GPGLL, 3);
    NotPrefix(GPGSV, GPGGA, 3);
    NotPrefix(NOVEL, GPRMC, 0);
    NotPrefix(NOVEL, GPGLL, 0);
    NotPrefix(NOVEL, GPGGA, 0);
    NotPrefix(NOVEL, GPGSV, 0);
  }

  /** At each bound: a sentence with one more complete term that passes, its own validity field being empty.
      RMC at term 106, which is the fix field of a GGA sentence; GGA at term 106 and GSV at term 102, the
      validity fields of a GLL and an RMC sentence; the others at term 258, number 2 of what an empty term 256
      has turned into an RMC sentence. */
  lemma Misjudged(kind: Kind, p: Parser, clock: nat -> nat) returns (s: seq<Byte>)
    requires Fresh(p)
    ensures SentenceKind(Cut(s).terms) == kind && |Cut(s).terms| == GateBound(kind) + 1
    ensures Encode(Run(p, s, clock), RETURN, clock(|s|)).1 && !SaysValid(Cut(s).terms)
    ensures !Judged(p, s, RETURN, clock)
  {
    Names();
    CommaXor();
    LetterXor();
    hide Xor, XorAll, KindOf, Cut, Run, Encode, Judged, SaysValid, Spell, ChecksumMatches, SentenceKind;
    match kind
    case RMC =>
      RmcXor();
      LoneLetterPasses(p, GPRMC, 106, 0x31, 0x4B, 0x67, [0x37, 0x41], clock);
      s := Sentence(Lone(GPRMC, 106, 0x31), [0x37, 0x41]);
    case GGA =>
      GgaXor();
      LoneLetterPasses(p, GPGGA, 106, 0x41, 0x56, 0x7A, [0x31, 0x37], clock);
      s := Sentence(Lone(GPGGA, 106, 0x41), [0x31, 0x37]);
    case GSV =>
      GsvXor();
      LoneLetterPasses(p, GPGSV, 102, 0x41, 0x55, 0x79, [0x31, 0x34], clock);
      s := Sentence(Lone(GPGSV, 102, 0x41), [0x31, 0x34]);
    case GLL =>
      GllXor();
      LoneLetterPasses(p, GPGLL, 258, 0x41, 0x50, 0x7C, [0x31, 0x31], clock);
      s := Sentence(Lone(GPGLL, 258, 0x41), [0x31, 0x31]);
    case OTHER =>
      NovelXor();
      LoneLetterPasses(p, NOVEL, 258, 0x41, 0x58, 0x74, [0x31, 0x39], clock);
      s := Sentence(Lone(NOVEL, 258, 0x41), [0x31, 0x39]);
  }

  const ZERO := Readings(0, 0, 0, 0, 0, 0, 0, 0, 0, 0, 0)

  /** A parser as constructed, nothing published. */
  function New(): (p: Parser)
    ensures Fresh(p)
  {
    Parser(0, false, seq(TERM, _ => 0), 0, 0, OTHER, false, ZERO, Fix(ZERO, false, false, false, false))
  }

  /** Sentences of a kind are all judged by their own validity field exactly as long as they have no more
      complete terms than the bound. */
  lemma GateBoundExact(kind: Kind, n: nat, clock: nat -> nat)
    ensures GateRight(kind, n, clock) <==> n <= GateBound(kind)
  {
    if n <= GateBound(kind) {
      forall p: Parser, s: seq<Byte>, c: Byte
        | Fresh(p) && SentenceKind(Cut(s).terms) == kind && |Cut(s).terms| <= n
        ensures Judged(p, s, c, clock)
      {
        PublishedIffChecked(p, s, c, clock);
      }
    } else {
      var s := Misjudged(kind, New(), clock);
    }
  }

  lemma NothingRun(p: Parser, clock: nat -> nat)
    requires Valid(p)
    ensures Run(p, [], clock) == p
  {
  }

  lemma UnderWayCommas(r0: Readings, terms: seq<Term>, d: Digest, kind: Kind, x: Byte)
    requires UnderWay(r0, terms, d, kind, x)
    ensures AllCommas(terms)
  {
  }

  lemma Letters()
    ensures Shows([0x41]) && Shows([0x31]) && Shows([0x32]) && Shows([0x36]) && Shows([0x58])
  {
  }
}
