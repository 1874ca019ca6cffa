/**
 * What a passing sentence publishes (TinyGPS/TinyGPS.cpp): each field that one of its terms gives is the value of
 * that term, and each other one is what was held before the sentence, be that from a sentence that passed or not.
 */
module GpsFields {
  import opened Bytes
  import opened GpsNumbers
  import opened GpsSpec
  import opened GpsTerms

  /** Term number of each field, 0 for a field that the kind of sentence does not carry. The term behind an
      angle names its hemisphere. */
  datatype Layout = Layout(time: nat, latitude: nat, longitude: nat, date: nat, speed: nat, course: nat, sats: nat,
                           hdop: nat, altitude: nat)

  function LayoutOf(kind: Kind): Layout {
    match kind
    case RMC => Layout(1, 3, 5, 9, 7, 8, 0, 0, 0)
    case GGA => Layout(1, 2, 4, 0, 0, 0, 7, 8, 9)
    case GLL => Layout(5, 1, 3, 0, 0, 0, 0, 0, 0)
    case _ => Layout(0, 0, 0, 0, 0, 0, 0, 0, 0)
  }

  /** How many complete terms a sentence may have before one of them is taken for a field of another kind: the
      time or latitude of RMC, GGA and GSV sentences at term 101, otherwise the first term after the numbers
      start over at 256. */
  function OwnTerms(kind: Kind): nat {
    match kind
    case RMC => 101
    case GGA => 101
    case GSV => 101
    case _ => 257
  }

  /** The number in term k, or what was held. */
  function Shown(held: nat, terms: seq<Term>, k: nat): nat {
    if Given(terms, k) then Decimal(Field(terms, k)) else held
  }

  /** The angle in term k, or the one held; negated if the term behind it says so, in either case. */
  function Angle(held: nat, terms: seq<Term>, k: nat, negative: Byte): nat {
    var a := if Given(terms, k) then Degrees(Field(terms, k)) else held;
    if k > 0 && Given(terms, k + 1) && Field(terms, k + 1)[0] == negative then Negate(a % U32) else a
  }

  /** The readings of a sentence, field by field, given those held before it. */
  function Expected(held: Readings, terms: seq<Term>): Readings {
    var l := LayoutOf(SentenceKind(terms));
    held.(time := Shown(held.time, terms, l.time),
          date := if Given(terms, l.date) then Atol(Field(terms, l.date)) else held.date,
          latitude := Angle(held.latitude, terms, l.latitude, SOUTH),
          longitude := Angle(held.longitude, terms, l.longitude, WEST),
          altitude := Shown(held.altitude, terms, l.altitude),
          speed := Shown(held.speed, terms, l.speed),
          course := Shown(held.course, terms, l.course),
          hdop := Shown(held.hdop, terms, l.hdop),
          sats := Shown(held.sats, terms, l.sats))
  }

  // ----- one more term -----

  function PutNumber(v: nat, k: nat, n: nat, text: seq<Byte>): nat {
    if k == n then Decimal(text) else v
  }

  function PutAngle(v: nat, k: nat, n: nat, text: seq<Byte>, negative: Byte): nat
    requires text != []
  {
    if k == n then Degrees(text)
    else if k > 0 && n == k + 1 && text[0] == negative then Negate(v % U32)
    else v
  }

  /** What an ordinary term number n does to the readings, by the layout of its sentence. */
  function Put(r: Readings, l: Layout, n: nat, text: seq<Byte>): Readings
    requires text != []
  {
    r.(time := PutNumber(r.time, l.time, n, text),
       date := if l.date == n then Atol(text) else r.date,
       latitude := PutAngle(r.latitude, l.latitude, n, text, SOUTH),
       longitude := PutAngle(r.longitude, l.longitude, n, text, WEST),
       altitude := PutNumber(r.altitude, l.altitude, n, text),
       speed := PutNumber(r.speed, l.speed, n, text),
       course := PutNumber(r.course, l.course, n, text),
       hdop := PutNumber(r.hdop, l.hdop, n, text),
       sats := PutNumber(r.sats, l.sats, n, text))
  }

  /** The labels below the bound mean the sentence's own fields. */
  lemma LabelsAreOwn(r: Readings, kind: Kind, n: nat, text: seq<Byte>)
    requires 0 < n < OwnTerms(kind) && n < 256 && text != [] && kind != OTHER && r == Timeless(r)
    ensures (if IsValidity(Label(kind, n)) then r else Timeless(Reading(r, Label(kind, n), text, 0))) ==
      Put(r, LayoutOf(kind), n, text)
  {
    hide Decimal, Degrees, Atol, Negate;
  }

  lemma GivenSnoc(terms: seq<Term>, t: Term, k: nat)
    ensures var n, more := |terms|, terms + [t];
      && (k < n ==> Given(more, k) == Given(terms, k) && Field(more, k) == Field(terms, k))
      && (Given(more, n) <==> n > 0 && !IsChecksum(terms, n) && Seen(t.text) != [])
      && Field(more, n) == Seen(t.text)
  {
    hide Seen;
    var more := terms + [t];
    assert forall i :: 0 <= i < |terms| ==> more[i] == terms[i];
  }

  lemma ShownSnoc(held: nat, terms: seq<Term>, t: Term, k: nat)
    ensures Shown(held, terms + [t], k) ==
      if Given(terms + [t], |terms|) then PutNumber(Shown(held, terms, k), k, |terms|, Seen(t.text))
      else Shown(held, terms, k)
  {
    hide Decimal, Seen;
    GivenSnoc(terms, t, k);
  }

  lemma AngleSnoc(held: nat, terms: seq<Term>, t: Term, k: nat, negative: Byte)
    ensures Angle(held, terms + [t], k, negative) ==
      if Given(terms + [t], |terms|) && Seen(t.text) != [] then
        PutAngle(Angle(held, terms, k, negative), k, |terms|, Seen(t.text), negative)
      else Angle(held, terms, k, negative)
  {
    hide Degrees, Seen, Negate;
    GivenSnoc(terms, t, k);
    GivenSnoc(terms, t, k + 1);
  }

  lemma ExpectedSnoc(held: Readings, terms: seq<Term>, t: Term)
    requires terms != []
    ensures var n, more := |terms|, terms + [t];
      Expected(held, more) ==
        if Given(more, n) && Seen(t.text) != [] then
          Put(Expected(held, terms), LayoutOf(SentenceKind(terms)), n, Seen(t.text))
        else Expected(held, terms)
  {
    hide Shown, Angle, PutNumber, PutAngle, Seen, SentenceKind, LayoutOf;
    KindSnoc(terms, t);
    var l := LayoutOf(SentenceKind(terms));
    ShownSnoc(held.time, terms, t, l.time);
    ShownSnoc(held.altitude, terms, t, l.altitude);
    ShownSnoc(held.speed, terms, t, l.speed);
    ShownSnoc(held.course, terms, t, l.course);
    ShownSnoc(held.hdop, terms, t, l.hdop);
    ShownSnoc(held.sats, terms, t, l.sats);
    AngleSnoc(held.latitude, terms, t, l.latitude, SOUTH);
    AngleSnoc(held.longitude, terms, t, l.longitude, WEST);
    GivenSnoc(terms, t, l.date);
  }

  // ----- whole sentences -----

  lemma TakeReads(d: Digest, terms: seq<Term>, text: seq<Byte>)
    ensures var n := |terms| % 256;
      Take(d, terms, text).readings ==
        if IsChecksum(terms, |terms|) || n == 0 || d.kind == OTHER || text == [] || IsValidity(Label(d.kind, n)) then
          d.readings
        else Timeless(Reading(d.readings, Label(d.kind, n), text, 0))
  {
    hide KindOf, Reading;
  }

  /** Up to the bound of its kind, the readings behind a sentence are exactly those of its own terms on top of
      those held before it. */
  lemma {:induction false} ReadingsExact(held: Readings, terms: seq<Term>)
    requires held == Timeless(held) && |terms| <= OwnTerms(SentenceKind(terms))
    ensures Digested(held, terms).readings == Expected(held, terms)
    decreases |terms|
  {
    hide KindOf, Seen, Digested, Take, SentenceKind, IsChecksum, Given, Reading, Expected, Put, Label, LayoutOf;
    if terms == [] {
      NothingDigested(held);
      NothingExpected(held, terms);
    } else {
      var init, t := terms[..|terms| - 1], terms[|terms| - 1];
      assert terms == init + [t];
      KindSnoc(init, t);
      DigestSnoc(held, init, t);
      TakeReads(Digested(held, init), init, Seen(t.text));
      GivenSnoc(init, t, 0);
      if init == [] {
        NothingDigested(held);
        NothingExpected(held, terms);
      } else {
        ReadingsExact(held, init);
        ExpectedSnoc(held, init, t);
        if |init| < 256 {
          GateIsLastSay(held, init);
          OwnTerm(held, init, t);
        } else {
          if Seen(t.text) != [] { PutBeyond(Expected(held, init), SentenceKind(init), |init|, Seen(t.text)); }
        }
      }
    }
  }

  /** The step of the induction, for a term numbered below 256. */
  lemma OwnTerm(held: Readings, init: seq<Term>, t: Term)
    requires held == Timeless(held) && 0 < |init| < 256 && |init| < OwnTerms(SentenceKind(init))
    requires Digested(held, init).readings == Expected(held, init)
    requires Digested(held, init).kind == SentenceKind(init)
    ensures Take(Digested(held, init), init, Seen(t.text)).readings == Expected(held, init + [t])
  {
    hide KindOf, Seen, Digested, Take, SentenceKind, IsChecksum, Given, Reading, Put, Label, LayoutOf, OwnTerms;
    TakeReads(Digested(held, init), init, Seen(t.text));
    GivenSnoc(init, t, 0);
    ExpectedSnoc(held, init, t);
    ExpectedTimeless(held, init);
    hide Expected;
    if Seen(t.text) != [] {
      if SentenceKind(init) != OTHER {
        LabelsAreOwn(Expected(held, init), SentenceKind(init), |init|, Seen(t.text));
      } else {
        PutBeyond(Expected(held, init), OTHER, |init|, Seen(t.text));
      }
    }
  }

  lemma ExpectedTimeless(held: Readings, terms: seq<Term>)
    requires held == Timeless(held)
    ensures Expected(held, terms) == Timeless(Expected(held, terms))
  {
  }

  lemma NothingExpected(held: Readings, terms: seq<Term>)
    requires |terms| <= 1
    ensures Expected(held, terms) == held
  {
  }

  /** Terms behind the last field, and those of an unknown sentence, are no field. */
  lemma PutBeyond(r: Readings, kind: Kind, n: nat, text: seq<Byte>)
    requires n > 0 && (kind == OTHER || n > 10) && text != []
    ensures Put(r, LayoutOf(kind), n, text) == r
  {
  }

  // ----- what is published -----

  /** The fields of a moving receiver are e's, the others and the other flags stay. */
  predicate Moves(f: Readings, was: Readings, e: Readings) {
    && f.time == e.time && f.date == e.date && f.latitude == e.latitude && f.longitude == e.longitude
    && f.speed == e.speed && f.course == e.course
    && f.altitude == was.altitude && f.hdop == was.hdop && f.sats == was.sats
  }

  predicate Fixes(f: Readings, was: Readings, e: Readings) {
    && f.time == e.time && f.latitude == e.latitude && f.longitude == e.longitude
    && f.altitude == e.altitude && f.hdop == e.hdop && f.sats == e.sats
    && f.date == was.date && f.speed == was.speed && f.course == was.course
  }

  /** A sentence of this kind has published the readings e. */
  predicate Publishes(f: Fix, was: Fix, kind: Kind, e: Readings) {
    match kind
    case RMC => Moves(f.values, was.values, e) && f == was.(values := f.values, rmc := true)
    case GLL => Moves(f.values, was.values, e) && f == was.(values := f.values, gll := true)
    case GGA => Fixes(f.values, was.values, e) && f == was.(values := f.values, gga := true)
    case GSV => f == was.(values := f.values, gsv := true) && Timeless(f.values) == Timeless(was.values)
    case OTHER => f == was.(values := f.values) && Timeless(f.values) == Timeless(was.values)
  }

  /** Up to this many complete terms neither kind nor fields are taken for another's. */
  function PublishTerms(kind: Kind): nat {
    if OwnTerms(kind) < 256 then OwnTerms(kind) else 256
  }

  lemma EncodePublishes(p: Parser, c: Byte, now: nat)
    requires Valid(p) && Encode(p, c, now).1
    ensures Encode(p, c, now).0.fix == Publish(p.fix, p.kind, p.readings)
  {
    hide Publish, Reading, KindOf, Spelled, CString;
  }

  /** Whatever the kind: what the parser holds is published as that kind of sentence, with the times at which time and
      position were read. */
  lemma PassingPublishes(p: Parser, c: Byte, now: nat)
    requires Valid(p) && Encode(p, c, now).1
    ensures var f := Encode(p, c, now).0.fix;
      && Publishes(f, p.fix, p.kind, p.readings)
      && f.values.timeFix == p.readings.timeFix && f.values.positionFix == p.readings.positionFix
  {
    hide Encode;
    EncodePublishes(p, c, now);
  }

  /** A sentence that passes publishes, field by field, exactly the values of its own terms, and for what they
      do not give the readings that were held before its '$'. */
  lemma PublishedExactly(p: Parser, s: seq<Byte>, c: Byte, clock: nat -> nat)
    requires Fresh(p) && Encode(Run(p, s, clock), c, clock(|s|)).1
    requires |Cut(s).terms| <= PublishTerms(SentenceKind(Cut(s).terms))
    ensures Publishes(Encode(Run(p, s, clock), c, clock(|s|)).0.fix, Run(p, s, clock).fix, SentenceKind(Cut(s).terms),
                      Expected(Timeless(Held(p, s, clock)), Cut(s).terms))
  {
    hide Encode, Run, Cut, Held, Digested, Expected, ChecksumMatches;
    var terms, held := Cut(s).terms, Timeless(Held(p, s, clock));
    PublishedIffChecked(p, s, c, clock);
    RunDigests(p, s, clock);
    GateIsValidity(held, terms);
    ReadingsExact(held, terms);
    EncodePublishes(Run(p, s, clock), c, clock(|s|));
  }

  /** A GLL sentence carries no date, speed or course: it publishes those that were held, whoever left them. */
  lemma GllPublishesHeld(p: Parser, s: seq<Byte>, c: Byte, clock: nat -> nat)
    requires Fresh(p) && Encode(Run(p, s, clock), c, clock(|s|)).1
    requires SentenceKind(Cut(s).terms) == GLL && |Cut(s).terms| <= 256
    ensures var v, held := Encode(Run(p, s, clock), c, clock(|s|)).0.fix.values, Held(p, s, clock);
      v.date == held.date && v.speed == held.speed && v.course == held.course
  {
    hide Encode, Run, Cut, Held;
    PublishedExactly(p, s, c, clock);
  }

  // ----- signs -----

  lemma NegateSigns(x: nat)
    requires x < U32 && x != U32 / 2
    ensures Signed(Negate(x)) == -Signed(x)
  {
  }

  function Turned(x: int, minus: bool): int {
    if minus then -x else x
  }

  /** The angle shown is that of term k with its sign, minus if the term behind it begins with the letter negative;
      without term k, the one held, turned around by that letter. */
  predicate SignedAngle(shown: nat, held: nat, terms: seq<Term>, k: nat, negative: Byte) {
    var minus := Given(terms, k + 1) && Field(terms, k + 1)[0] == negative;
    && (Given(terms, k) && ExactDegrees(Field(terms, k)) < U32 / 2 ==>
          Signed(shown) == Turned(ExactDegrees(Field(terms, k)), minus))
    && (!Given(terms, k) && held < U32 && held != U32 / 2 ==>
          Signed(shown) == Turned(Signed(held), minus))
  }

  lemma AngleHasSign(held: nat, terms: seq<Term>, k: nat, negative: Byte)
    requires k > 0
    ensures SignedAngle(Angle(held, terms, k, negative), held, terms, k, negative)
  {
    hide Degrees, ExactDegrees, Negate, Signed, Seen;
    if Given(terms, k) {
      var exact := ExactDegrees(Field(terms, k));
      DegreesExactIff(Field(terms, k));
      if exact < U32 / 2 {
        assert exact % U32 == exact;
        NegateSigns(exact);
        SmallIsItself(exact);
      }
    } else if held < U32 && held != U32 / 2 {
      assert held % U32 == held;
      NegateSigns(held);
    }
  }

  lemma SmallIsItself(x: nat)
    requires x < U32 / 2
    ensures Signed(x) == x
  {
  }

  lemma WithinGate(kind: Kind)
    ensures PublishTerms(kind) <= GateBound(kind)
  {
  }

  lemma ValidKinds(terms: seq<Term>)
    requires SaysValid(terms)
    ensures SentenceKind(terms) == RMC || SentenceKind(terms) == GGA || SentenceKind(terms) == GLL
  {
    hide KindOf, Seen;
  }

  /** A passing sentence publishes its angles with the sign of their hemisphere: southern latitudes, behind which an
      'S' (53) stands, and western longitudes, 'W' (57), are negative, all others positive. */
  lemma HemispheresSign(p: Parser, s: seq<Byte>, c: Byte, clock: nat -> nat)
    requires Fresh(p) && Encode(Run(p, s, clock), c, clock(|s|)).1
    requires |Cut(s).terms| <= PublishTerms(SentenceKind(Cut(s).terms))
    ensures var v, held, terms := Encode(Run(p, s, clock), c, clock(|s|)).0.fix.values, Held(p, s, clock), Cut(s).terms;
      match SentenceKind(terms)
      case RMC => SignedAngle(v.latitude, held.latitude, terms, 3, 0x53) && SignedAngle(v.longitude, held.longitude, terms, 5, 0x57)
      case GGA => SignedAngle(v.latitude, held.latitude, terms, 2, 0x53) && SignedAngle(v.longitude, held.longitude, terms, 4, 0x57)
      case GLL => SignedAngle(v.latitude, held.latitude, terms, 1, 0x53) && SignedAngle(v.longitude, held.longitude, terms, 3, 0x57)
      case _ => false
  {
    var held, terms := Held(p, s, clock), Cut(s).terms;
    WithinGate(SentenceKind(terms));
    hide Encode, Run, Cut, Held, SentenceKind, PublishTerms, GateBound, Angle, SignedAngle, Shown, Given, Field, SaysValid,
      ChecksumMatches;
    PublishedExactly(p, s, c, clock);
    PublishedIffChecked(p, s, c, clock);
    ValidKinds(terms);
    var l := LayoutOf(SentenceKind(terms));
    if l.latitude > 0 && l.longitude > 0 {
      AngleHasSign(held.latitude, terms, l.latitude, SOUTH);
      AngleHasSign(held.longitude, terms, l.longitude, WEST);
    }
  }

  // ----- the times at which a fix was read -----

  lemma ReadingStamps(r: Readings, kind: Kind, n: nat, text: seq<Byte>, now: nat)
    requires 0 < n < OwnTerms(kind) && n < 256 && text != []
    ensures var r', l := Reading(r, Label(kind, n), text, now), LayoutOf(kind);
      kind != OTHER ==>
        && r'.timeFix == (if n == l.time then now else r.timeFix)
        && r'.positionFix == (if n == l.latitude then now else r.positionFix)
  {
    hide Decimal, Degrees, Atol, Negate;
  }

  lemma ValidityIsNoStamp(kind: Kind, n: nat)
    requires IsValidity(Label(kind, n)) && 0 < n < OwnTerms(kind)
    ensures n != LayoutOf(kind).time && n != LayoutOf(kind).latitude
  {
  }

  /** A term that is given and carries the time, or the latitude, stamps it; nothing else touches the stamps. */
  predicate Stamped(q: Readings, q': Readings, kind: Kind, n: nat, given: bool, now: nat) {
    var l := LayoutOf(kind);
    && q'.timeFix == (if given && n == l.time then now else q.timeFix)
    && q'.positionFix == (if given && n == l.latitude then now else q.positionFix)
  }

  lemma CompletionStamps(p: Parser, kind: Kind, n: nat, text: seq<Byte>, now: nat)
    requires Valid(p) && CString(p.buf) == text && p.number == n < 256 && n < OwnTerms(kind) && (n > 0 ==> p.kind == kind)
    ensures Stamped(p.readings, TermComplete(p, now).0.readings, kind, n, n > 0 && !p.isChecksum && text != [], now)
  {
    hide Reading, LayoutOf, KindOf, CString, Spelled, Publish, Label, IsValidity;
    NoFieldAtZero(kind);
    if n > 0 && !p.isChecksum && text != [] {
      ReadingStamps(p.readings, kind, n, text, now);
      if IsValidity(Label(kind, n)) { ValidityIsNoStamp(kind, n); }
      if kind == OTHER { NoFields(); }
    }
  }

  lemma NoFieldAtZero(kind: Kind)
    ensures kind != OTHER && kind != GSV ==> LayoutOf(kind).time > 0 && LayoutOf(kind).latitude > 0
  {
  }

  lemma NoFields()
    ensures LayoutOf(OTHER).time == LayoutOf(OTHER).latitude == 0
  {
  }

  /** Over every stream, up to the bound of the kind: one more character stamps the time exactly if it completes the
      sentence's own time, and the position exactly if it completes its own latitude. */
  lemma RunStamps(p: Parser, s: seq<Byte>, c: Byte, clock: nat -> nat)
    requires Fresh(p) && |Cut(s).terms| < 256 && |Cut(s).terms| < OwnTerms(SentenceKind(Cut(s).terms))
    ensures var t := Cut(s);
      var n := |t.terms|;
      Stamped(Run(p, s, clock).readings, Run(p, s + [c], clock).readings, SentenceKind(t.terms), n,
              Ends(c) && n > 0 && !IsChecksum(t.terms, n) && Seen(t.rest) != [], clock(|s|))
  {
    assert (s + [c])[..|s|] == s;
    var q, t := Run(p, s, clock), Cut(s);
    assert Run(p, s + [c], clock) == Encode(q, c, clock(|s|)).0;
    hide Run, Cut, SentenceKind, OwnTerms, TermComplete, Digested, Held, Stamped, LayoutOf, Seen, CString;
    RunMatches(p, s, clock);
    RunDigests(p, s, clock);
    GateIsLastSay(Timeless(Held(p, s, clock)), t.terms);
    EncodeStamps(q, t, c, clock(|s|));
  }

  lemma EncodeStamps(p: Parser, t: Parsed, c: Byte, now: nat)
    requires Matches(p, t) && |t.terms| < 256 && |t.terms| < OwnTerms(SentenceKind(t.terms))
    requires p.kind == SentenceKind(t.terms)
    ensures var n := |t.terms|;
      Stamped(p.readings, Encode(p, c, now).0.readings, SentenceKind(t.terms), n,
              Ends(c) && n > 0 && !IsChecksum(t.terms, n) && Seen(t.rest) != [], now)
  {
    hide SentenceKind, OwnTerms, TermComplete, LayoutOf, Xor, WithText, Seen, CString;
    if Ends(c) {
      BufferShows(p.buf, p.offset, t.rest);
      var p1 := p.(parity := if c == COMMA then Xor(p.parity, c) else p.parity, buf := p.buf[p.offset := 0]);
      CompletionStamps(p1, SentenceKind(t.terms), |t.terms|, Seen(t.rest), now);
    }
  }
}
