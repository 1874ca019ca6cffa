/**
 * The streaming NMEA parser of TinyGPS/TinyGPS.cpp as a function from state to state, and what it means for
 * whole streams: what the state is after every stream, and what number is made of a checksum text, which should be
 * the two hex digits of the sentence's XOR (NMEA 0183, section 5.2.3) but is not checked to be hex or to be complete.
 */
module GpsSpec {
  import opened Bytes
  import opened GpsNumbers

  const COMMA: Byte := 0x2C
  const RETURN: Byte := 0x0D
  const NEWLINE: Byte := 0x0A
  const STAR: Byte := 0x2A
  const DOLLAR: Byte := 0x24
  const SOUTH: Byte := 0x53
  const WEST: Byte := 0x57
  const TERM := 15  // sizeof(_term)

  datatype Kind = GLL | GGA | RMC | GSV | OTHER

  datatype Readings = Readings(time: nat, date: nat, latitude: nat, longitude: nat, altitude: nat, speed: nat,
                               course: nat, hdop: nat, sats: nat, timeFix: nat, positionFix: nat)

  /** What the getters show. */
  datatype Fix = Fix(values: Readings, gll: bool, rmc: bool, gga: bool, gsv: bool)

  datatype Parser = Parser(parity: Byte, isChecksum: bool, buf: seq<Byte>, offset: nat, number: nat, kind: Kind,
                           good: bool, readings: Readings, fix: Fix)

  predicate Valid(p: Parser) {
    |p.buf| == TERM && p.offset < TERM && p.number < 0x100
  }

  predicate Ends(c: Byte) {
    c == COMMA || c == RETURN || c == NEWLINE || c == STAR
  }

  function Xor(a: Byte, b: Byte): Byte {
    ((a as bv8) ^ (b as bv8)) as int
  }

  /** from_hex, which does not check its argument. */
  function FromHex(c: Byte): int {
    var x: int := c;
    if 0x41 <= x <= 0x46 then x - 0x41 + 10 else if 0x61 <= x <= 0x66 then x - 0x61 + 10 else x - 0x30
  }

  /** The byte that the first two characters of the term buffer spell. */
  function Spelled(buf: seq<Byte>): Byte
    requires |buf| >= 2
  {
    (16 * FromHex(buf[0]) + FromHex(buf[1])) % 0x100
  }

  /** The characters in front of the first NUL. */
  function CString(buf: seq<Byte>): (s: seq<Byte>)
    ensures |s| <= |buf| && s == buf[..|s|] && forall i :: 0 <= i < |s| ==> s[i] != 0
    ensures |s| < |buf| ==> buf[|s|] == 0
  {
    if buf == [] || buf[0] == 0 then [] else [buf[0]] + CString(buf[1..])
  }

  const GPRMC: seq<Byte> := [0x47, 0x50, 0x52, 0x4D, 0x43]
  const GPGLL: seq<Byte> := [0x47, 0x50, 0x47, 0x4C, 0x4C]
  const GPGGA: seq<Byte> := [0x47, 0x50, 0x47, 0x47, 0x41]
  const GPGSV: seq<Byte> := [0x47, 0x50, 0x47, 0x53, 0x56]

  /** gpsstrcmp accepts every prefix of a name, so the order of the tests decides. */
  function KindOf(text: seq<Byte>): Kind {
    if text <= GPRMC then RMC
    else if text <= GPGLL then GLL
    else if text <= GPGGA then GGA
    else if text <= GPGSV then GSV
    else OTHER
  }

  /** Which texts are taken for which name: every beginning of one, those that two names share for the first of
      them that is tested. */
  lemma KindOfIff(text: seq<Byte>)
    ensures KindOf(text) == RMC <==> text <= [0x47, 0x50, 0x52, 0x4D, 0x43]
    ensures KindOf(text) == GLL <==> 3 <= |text| && text <= [0x47, 0x50, 0x47, 0x4C, 0x4C]
    ensures KindOf(text) == GGA <==> 4 <= |text| && text <= [0x47, 0x50, 0x47, 0x47, 0x41]
    ensures KindOf(text) == GSV <==> 4 <= |text| && text <= [0x47, 0x50, 0x47, 0x53, 0x56]
  {
    Parted(text, GPRMC, GPGLL, 2);
    Parted(text, GPRMC, GPGGA, 2);
    Parted(text, GPRMC, GPGSV, 2);
    Parted(text, GPGLL, GPGGA, 3);
    Parted(text, GPGLL, GPGSV, 3);
    Parted(text, GPGGA, GPGSV, 3);
  }

  /** Two names with n characters in common: texts up to these are beginnings of both, longer ones of one at most. */
  lemma Parted(text: seq<Byte>, a: seq<Byte>, b: seq<Byte>, n: nat)
    requires n < |a| && n < |b| && a[..n] == b[..n] && a[n] != b[n]
    ensures |text| <= n ==> (text <= a <==> text <= b)
    ensures |text| > n ==> !(text <= a && text <= b)
  {
    if |text| <= n {
      assert a[..|text|] == a[..n][..|text|] == b[..n][..|text|] == b[..|text|];
    }
  }

  /** The case label of a term: its number, moved by the kind of sentence. */
  function Label(kind: Kind, number: nat): nat {
    number + if kind == GGA then 200 else if kind == RMC then 100 else if kind == GLL then 300 else 0
  }

  predicate IsValidity(tag: nat) {
    tag == 102 || tag == 306 || tag == 206
  }

  /** What a validity field says. */
  predicate SaysGood(tag: nat, first: Byte) {
    if tag == 206 then first > 0x30 else first == 0x41
  }

  function Negate(x: nat): nat
    requires x < U32
  {
    (U32 - x) % U32
  }

  /** What an ordinary term with this label changes in the readings of the sentence; now is millis(). */
  function Reading(r: Readings, tag: nat, text: seq<Byte>, now: nat): Readings
    requires text != []
  {
    if tag == 101 || tag == 201 || tag == 305 then r.(time := Decimal(text), timeFix := now)
    else if tag == 103 || tag == 202 || tag == 301 then r.(latitude := Degrees(text), positionFix := now)
    else if tag == 104 || tag == 203 || tag == 302 then
      (if text[0] == SOUTH then r.(latitude := Negate(r.latitude % U32)) else r)
    else if tag == 105 || tag == 204 || tag == 303 then r.(longitude := Degrees(text))
    else if tag == 106 || tag == 205 || tag == 304 then
      (if text[0] == WEST then r.(longitude := Negate(r.longitude % U32)) else r)
    else if tag == 107 then r.(speed := Decimal(text))
    else if tag == 108 then r.(course := Decimal(text))
    else if tag == 109 then r.(date := Atol(text))
    else if tag == 207 then r.(sats := Decimal(text))
    else if tag == 208 then r.(hdop := Decimal(text))
    else if tag == 209 then r.(altitude := Decimal(text))
    else r
  }

  /** The fix after a sentence of this kind has passed. */
  function Publish(f: Fix, kind: Kind, r: Readings): Fix {
    var v := f.values.(timeFix := r.timeFix, positionFix := r.positionFix);
    match kind
    case GLL => Fix(Moving(v, r), true, f.rmc, f.gga, f.gsv)
    case RMC => Fix(Moving(v, r), f.gll, true, f.gga, f.gsv)
    case GGA =>
      Fix(v.(altitude := r.altitude, time := r.time, latitude := r.latitude, longitude := r.longitude,
             hdop := r.hdop, sats := r.sats), f.gll, f.rmc, true, f.gsv)
    case GSV => Fix(v, f.gll, f.rmc, f.gga, true)
    case OTHER => f.(values := v)
  }

  function Moving(v: Readings, r: Readings): Readings {
    v.(time := r.time, date := r.date, latitude := r.latitude, longitude := r.longitude, speed := r.speed,
       course := r.course)
  }

  /** term_complete on a NUL-terminated buffer. */
  function TermComplete(p: Parser, now: nat): (Parser, bool)
    requires Valid(p)
  {
    var text := CString(p.buf);
    if p.isChecksum then
      if Spelled(p.buf) == p.parity && p.good then (p.(fix := Publish(p.fix, p.kind, p.readings)), true)
      else (p, false)
    else if p.number == 0 then (p.(kind := KindOf(text)), false)
    else if p.kind != OTHER && text != [] then
      var tag := Label(p.kind, p.number);
      if IsValidity(tag) then (p.(good := SaysGood(tag, text[0])), false)
      else (p.(readings := Reading(p.readings, tag, text, now)), false)
    else (p, false)
  }

  /** encode: one character; the result says whether a sentence has just passed. */
  function Encode(p: Parser, c: Byte, now: nat): (r: (Parser, bool))
    requires Valid(p)
    ensures Valid(r.0)
  {
    if Ends(c) then
      var p1 := p.(parity := if c == COMMA then Xor(p.parity, c) else p.parity, buf := p.buf[p.offset := 0]);
      var (p2, ok) := TermComplete(p1, now);
      (p2.(number := (p2.number + 1) % 0x100, offset := 0, isChecksum := c == STAR), ok)
    else if c == DOLLAR then
      (p.(number := 0, offset := 0, parity := 0, kind := OTHER, isChecksum := false, good := false), false)
    else
      var p1 := if p.offset < TERM - 1 then p.(buf := p.buf[p.offset := c], offset := p.offset + 1) else p;
      (if p.isChecksum then p1 else p1.(parity := Xor(p.parity, c)), false)
  }

  // ----- reference: a sentence as a list of terms -----

  /** The characters of a term, and the one that ended it. */
  datatype Term = Term(text: seq<Byte>, end: Byte)

  /** The terms of a sentence that are complete, and the characters of the one that is not. */
  datatype Parsed = Parsed(terms: seq<Term>, rest: seq<Byte>)

  /** What has come since the last '$', cut into terms. */
  function Cut(s: seq<Byte>): Parsed {
    if s == [] then Parsed([], [])
    else
      var c, t := s[|s| - 1], Cut(s[..|s| - 1]);
      if c == DOLLAR then Parsed([], [])
      else if Ends(c) then Parsed(t.terms + [Term(t.rest, c)], [])
      else Parsed(t.terms, t.rest + [c])
  }

  /** Term number k of the sentence is the checksum: a '*' ended the one before. */
  predicate IsChecksum(terms: seq<Term>, k: nat) {
    0 < k <= |terms| && terms[k - 1].end == STAR
  }

  function XorAll(x: Byte, s: seq<Byte>): Byte {
    if s == [] then x else Xor(XorAll(x, s[..|s| - 1]), s[|s| - 1])
  }

  /** The XOR of the commas, and of the characters of all terms but checksums. */
  function Parity(terms: seq<Term>): Byte
    decreases |terms|, 0
  {
    if terms == [] then 0
    else
      var k := |terms| - 1;
      var x := WithText(terms[..k], terms[k].text);
      if terms[k].end == COMMA then Xor(x, COMMA) else x
  }

  function WithText(terms: seq<Term>, text: seq<Byte>): Byte
    decreases |terms|, 1
  {
    if IsChecksum(terms, |terms|) then Parity(terms) else XorAll(Parity(terms), text)
  }

  /** A term as the parser sees it: fourteen characters, and none behind a NUL. */
  function Seen(text: seq<Byte>): seq<Byte> {
    CString(if |text| < TERM then text else text[..TERM - 1])
  }

  /** The kind that the first term names. */
  function SentenceKind(terms: seq<Term>): Kind {
    if terms == [] then OTHER else KindOf(Seen(terms[0].text))
  }

  /** Position of the validity field. */
  function ValidityField(kind: Kind): nat {
    match kind case RMC => 2 case GLL => 6 case GGA => 6 case _ => 0
  }

  /** The sentence has its validity field, and that field is good: it begins with 'A', in a GGA sentence with a
      character above '0'. */
  predicate SaysValid(terms: seq<Term>) {
    var kind := SentenceKind(terms);
    var k := ValidityField(kind);
    && 0 < k < |terms| && !IsChecksum(terms, k)
    && Seen(terms[k].text) != []
    && (if kind == GGA then Seen(terms[k].text)[0] > 0x30 else Seen(terms[k].text)[0] == 0x41)
  }

  // ----- the parser against the reference -----

  /** The parser over a stream; clock gives millis() at each character. */
  function Run(p: Parser, s: seq<Byte>, clock: nat -> nat): (q: Parser)
    requires Valid(p)
    ensures Valid(q)
  {
    if s == [] then p else Encode(Run(p, s[..|s| - 1], clock), s[|s| - 1], clock(|s| - 1)).0
  }

  /** A parser as constructed. */
  predicate Fresh(p: Parser) {
    Valid(p) && p.parity == 0 && !p.isChecksum && p.offset == 0 && p.number == 0 && p.kind == OTHER && !p.good
  }

  /** The parser's state is what the reference says of the sentence so far. */
  predicate Matches(p: Parser, t: Parsed) {
    && Valid(p)
    && p.parity == WithText(t.terms, t.rest)
    && p.isChecksum == IsChecksum(t.terms, |t.terms|)
    && p.number == |t.terms| % 0x100
    && p.offset == (if |t.rest| < TERM then |t.rest| else TERM - 1)
    && p.buf[..p.offset] == t.rest[..p.offset]
  }

  lemma ParityOfEnd(terms: seq<Term>, text: seq<Byte>, c: Byte)
    ensures var more := terms + [Term(text, c)];
      WithText(more, []) == if c == COMMA then Xor(WithText(terms, text), c) else WithText(terms, text)
  {
    var more := terms + [Term(text, c)];
    assert more[..|more| - 1] == terms;
    assert XorAll(Parity(more), []) == Parity(more);
  }

  lemma ParityOfMore(terms: seq<Term>, text: seq<Byte>, c: Byte)
    ensures WithText(terms, text + [c]) ==
      if IsChecksum(terms, |terms|) then WithText(terms, text) else Xor(WithText(terms, text), c)
  {
    assert (text + [c])[..|text|] == text;
  }

  /** The buffer with its NUL in place shows what the reference sees of the term. */
  lemma BufferShows(buf: seq<Byte>, offset: nat, text: seq<Byte>)
    requires |buf| == TERM && offset == (if |text| < TERM then |text| else TERM - 1) && buf[..offset] == text[..offset]
    ensures CString(buf[offset := 0]) == Seen(text)
  {
    var b := buf[offset := 0];
    var seen := text[..offset];
    assert b[..offset] == seen;
    PrefixString(b, seen);
    assert |text| < TERM ==> seen == text;
  }

  lemma {:induction false} PrefixString(b: seq<Byte>, s: seq<Byte>)
    requires |s| < |b| && b[..|s|] == s && b[|s|] == 0
    ensures CString(b) == CString(s)
  {
    if s != [] && s[0] != 0 {
      assert b[0] == s[0] && b[1..][..|s| - 1] == s[1..];
      PrefixString(b[1..], s[1..]);
    }
  }

  lemma EndMatches(p: Parser, t: Parsed, c: Byte, now: nat)
    requires Matches(p, t) && Ends(c)
    ensures Matches(Encode(p, c, now).0, Parsed(t.terms + [Term(t.rest, c)], []))
  {
    hide TermComplete;
    hide Xor;
    hide WithText;
    hide Seen;
    var more := t.terms + [Term(t.rest, c)];
    ParityOfEnd(t.terms, t.rest, c);
    BufferShows(p.buf, p.offset, t.rest);
    var p1 := p.(parity := if c == COMMA then Xor(p.parity, c) else p.parity, buf := p.buf[p.offset := 0]);
    CompletionKeeps(p1, now);
  }

  lemma CompletionKeeps(p: Parser, now: nat)
    requires Valid(p)
    ensures var p' := TermComplete(p, now).0;
      Valid(p') && p'.parity == p.parity && p'.buf == p.buf && p'.number == p.number && p'.isChecksum == p.isChecksum
  {
  }

  lemma CharMatches(p: Parser, t: Parsed, c: Byte, now: nat)
    requires Matches(p, t) && !Ends(c) && c != DOLLAR
    ensures Matches(Encode(p, c, now).0, Parsed(t.terms, t.rest + [c]))
  {
    ParityOfMore(t.terms, t.rest, c);
    if p.offset < TERM - 1 {
      assert p.buf[p.offset := c][..p.offset + 1] == p.buf[..p.offset] + [c];
      assert (t.rest + [c])[..p.offset + 1] == t.rest[..p.offset] + [c];
    } else {
      assert (t.rest + [c])[..p.offset] == t.rest[..p.offset];
    }
  }

  /** Over every stream, parity, checksum flag, term number and the characters of the term are those of the
      sentence since the last '$'. */
  lemma {:induction false} RunMatches(p: Parser, s: seq<Byte>, clock: nat -> nat)
    requires Fresh(p)
    ensures Matches(Run(p, s, clock), Cut(s))
  {
    if s != [] {
      hide Matches;
      var init, c := s[..|s| - 1], s[|s| - 1];
      RunMatches(p, init, clock);
      var q := Run(p, init, clock);
      if c == DOLLAR {
        DollarMatches(q, c, clock(|init|));
      } else if Ends(c) {
        EndMatches(q, Cut(init), c, clock(|init|));
      } else {
        CharMatches(q, Cut(init), c, clock(|init|));
      }
    } else {
      assert p.buf[..0] == [];
    }
  }

  lemma DollarMatches(p: Parser, c: Byte, now: nat)
    requires Valid(p) && c == DOLLAR
    ensures Matches(Encode(p, c, now).0, Parsed([], []))
  {
    assert p.buf[..0] == [];
  }

  lemma PassesIff(p: Parser, c: Byte, now: nat)
    requires Valid(p)
    ensures var (p', passed) := Encode(p, c, now);
      && (passed <==>
            Ends(c) && p.isChecksum && p.good
            && Spelled(p.buf[p.offset := 0]) == if c == COMMA then Xor(p.parity, c) else p.parity)
      && (p'.fix != p.fix ==> passed)
  {
    hide Publish;
    hide Reading;
    hide KindOf;
  }

  // ----- what a checksum term comes to -----

  /** The second byte of the term buffer behind these terms, if it was b before them: a term of two characters or
      more leaves its own there, one character its NUL, and an empty term changes nothing. */
  function SecondBehind(b: Byte, terms: seq<Term>): Byte {
    if terms == [] then b
    else
      var text := terms[|terms| - 1].text;
      if |text| >= 2 then text[1] else if |text| == 1 then 0 else SecondBehind(b, terms[..|terms| - 1])
  }

  function Second(b: Byte, t: Parsed): Byte {
    if |t.rest| >= 2 then t.rest[1] else SecondBehind(b, t.terms)
  }

  /** That byte when the sentence began, if it was b before the stream. */
  function SecondHeld(b: Byte, s: seq<Byte>): Byte {
    if s == [] then b
    else
      var init := s[..|s| - 1];
      if s[|s| - 1] == DOLLAR then Second(SecondHeld(b, init), Cut(init)) else SecondHeld(b, init)
  }

  /** The number that term_complete makes of a checksum text: of its first two characters if it has as many, of
      one character and the NUL behind it (48 less than a digit 0), or of the NUL and what the terms before have
      left behind it. */
  function CheckValue(b: Byte, t: Parsed): Byte {
    if |t.rest| >= 2 then Spelled(t.rest)
    else if |t.rest| == 1 then (16 * FromHex(t.rest[0]) - 48) % 0x100
    else FromHex(SecondBehind(b, t.terms)) % 0x100
  }

  lemma EndSecond(p: Parser, t: Parsed, b: Byte, c: Byte, now: nat)
    requires Matches(p, t) && p.buf[1] == Second(b, t) && Ends(c)
    ensures Encode(p, c, now).0.buf[1] == Second(b, Parsed(t.terms + [Term(t.rest, c)], []))
  {
    hide TermComplete, Xor, WithText;
    var p1 := p.(parity := if c == COMMA then Xor(p.parity, c) else p.parity, buf := p.buf[p.offset := 0]);
    CompletionKeeps(p1, now);
    assert (t.terms + [Term(t.rest, c)])[..|t.terms|] == t.terms;
  }

  lemma CharSecond(p: Parser, t: Parsed, b: Byte, c: Byte, now: nat)
    requires Matches(p, t) && p.buf[1] == Second(b, t) && !Ends(c) && c != DOLLAR
    ensures Encode(p, c, now).0.buf[1] == Second(b, Parsed(t.terms, t.rest + [c]))
  {
    hide Xor, WithText;
  }

  /** Over every stream, the second byte of the term buffer is the one the terms have left. */
  lemma {:induction false} RunSecond(p: Parser, s: seq<Byte>, clock: nat -> nat)
    requires Fresh(p)
    ensures Run(p, s, clock).buf[1] == Second(SecondHeld(p.buf[1], s), Cut(s))
  {
    if s != [] {
      hide Matches, Second, Encode, TermComplete;
      var init, c := s[..|s| - 1], s[|s| - 1];
      RunSecond(p, init, clock);
      RunMatches(p, init, clock);
      var q, b := Run(p, init, clock), SecondHeld(p.buf[1], init);
      if c == DOLLAR {
        DollarSecond(q, Second(b, Cut(init)), clock(|init|));
      } else if Ends(c) {
        EndSecond(q, Cut(init), b, c, clock(|init|));
      } else {
        CharSecond(q, Cut(init), b, c, clock(|init|));
      }
    }
  }

  lemma DollarSecond(p: Parser, b: Byte, now: nat)
    requires Valid(p) && p.buf[1] == b
    ensures Encode(p, DOLLAR, now).0.buf[1] == Second(b, Parsed([], []))
  {
  }

  /** Over every stream, the number the parser would make of the term under way is a function of the characters of
      the sentence, and of the byte left before it. */
  lemma ChecksumIsItsText(p: Parser, s: seq<Byte>, clock: nat -> nat)
    requires Fresh(p)
    ensures var q := Run(p, s, clock);
      Spelled(q.buf[q.offset := 0]) == CheckValue(SecondHeld(p.buf[1], s), Cut(s))
  {
    hide Cut, Run, SecondHeld, SecondBehind, WithText, FromHex;
    RunMatches(p, s, clock);
    RunSecond(p, s, clock);
    var q, t := Run(p, s, clock), Cut(s);
    var buf := q.buf[q.offset := 0];
    if |t.rest| >= 2 {
      assert q.buf[..q.offset][0] == t.rest[..q.offset][0] && q.buf[..q.offset][1] == t.rest[..q.offset][1];
    } else if |t.rest| == 1 {
      assert q.buf[..q.offset][0] == t.rest[..q.offset][0] && buf[1] == 0;
      NulReads(FromHex(t.rest[0]));
    } else {
      assert buf[0] == 0 && buf[1] == SecondBehind(SecondHeld(p.buf[1], s), t.terms);
      NulReads(FromHex(buf[1]));
    }
  }

  lemma NulReads(x: int)
    ensures FromHex(0) == -48 && (16 * FromHex(0) + x) % 0x100 == x % 0x100
  {
  }

  /** The character c is the hex digit d. */
  predicate HexOf(c: Byte, d: nat) {
    if d < 10 then c == 0x30 + d else d < 16 && (c == 0x41 + d - 10 || c == 0x61 + d - 10)
  }

  predicate HexDigit(c: Byte) {
    0x30 <= c <= 0x39 || 0x41 <= c <= 0x46 || 0x61 <= c <= 0x66
  }

  /** A text that begins with two hex digits, as a checksum should. */
  predicate HexText(text: seq<Byte>) {
    |text| >= 2 && HexDigit(text[0]) && HexDigit(text[1])
  }

  /** A text that begins with the two hex digits of x. */
  predicate Spells(text: seq<Byte>, x: Byte) {
    |text| >= 2 && HexOf(text[0], x / 16) && HexOf(text[1], x % 16)
  }

  lemma HexValue(c: Byte, d: nat)
    requires HexDigit(c)
    ensures 0 <= FromHex(c) < 16 && (HexOf(c, d) <==> FromHex(c) == d)
  {
  }

  lemma OnlyHexSpells(text: seq<Byte>, x: Byte)
    requires Spells(text, x)
    ensures HexText(text)
  {
  }

  /** A text that begins with two hex digits is taken for x exactly if they are those of x. */
  lemma HexTextReads(b: Byte, t: Parsed, x: Byte)
    requires HexText(t.rest)
    ensures CheckValue(b, t) == x <==> Spells(t.rest, x)
  {
    hide FromHex, HexDigit, HexOf;
    HexValue(t.rest[0], x / 16);
    HexValue(t.rest[1], x % 16);
  }

  /** A checksum text is taken for x just when it is the two hex digits of x, for every x, exactly if it begins
      with two hex digits; any other text is taken for some x all the same. */
  lemma ReadRightIff(b: Byte, t: Parsed)
    ensures (forall x: Byte :: CheckValue(b, t) == x <==> Spells(t.rest, x)) <==> HexText(t.rest)
  {
    if HexText(t.rest) {
      forall x: Byte ensures CheckValue(b, t) == x <==> Spells(t.rest, x) { HexTextReads(b, t, x); }
    } else {
      var x := CheckValue(b, t);
      if Spells(t.rest, x) { OnlyHexSpells(t.rest, x); }
    }
  }

  /** Whatever the stream, and however long its sentences: no checksum match, no change. */
  lemma NoMatchNoChange(p: Parser, s: seq<Byte>, c: Byte, clock: nat -> nat)
    requires Fresh(p)
    ensures var q, t := Run(p, s, clock), Cut(s);
      var more := t.terms + [Term(t.rest, c)];
      Encode(q, c, clock(|s|)).0.fix != q.fix ==>
        Ends(c) && IsChecksum(t.terms, |t.terms|) && CheckValue(SecondHeld(p.buf[1], s), t) == WithText(more, []) && q.good
  {
    hide Encode, WithText, Cut, Run, CheckValue, SecondHeld;
    RunMatches(p, s, clock);
    ChecksumIsItsText(p, s, clock);
    PassesIff(Run(p, s, clock), c, clock(|s|));
    ParityOfEnd(Cut(s).terms, Cut(s).rest, c);
  }
}
