/** The class of TinyGPS/TinyGPS.cpp; millis() is a parameter of encode. */
module TinyGPS {
  import opened Bytes
  import opened GpsNumbers
  import opened GpsSpec

  class TinyGPS {
    const term: array<Byte>
    var parity: Byte
    var isChecksumTerm: bool
    var sentenceType: Kind
    var termNumber: nat
    var termOffset: nat
    var gpsDataGood: bool
    var readings: Readings      // the _new_ fields
    var fix: Fix                // the published fields and the ready flags

    ghost function Abs(): Parser
      reads this, term
    {
      Parser(parity, isChecksumTerm, term[..], termOffset, termNumber, sentenceType, gpsDataGood, readings, fix)
    }

    ghost predicate Valid()
      reads this, term
    {
      GpsSpec.Valid(Abs())
    }

    /** The _new_ fields start with whatever is in memory. */
    constructor (garbage: Readings)
      ensures Valid() && Fresh(Abs()) && fresh(term)
      ensures fix == Fix(INVALID, false, false, false, false)
    {
      term := new Byte[TERM](_ => 0);
      parity, isChecksumTerm, sentenceType, termNumber, termOffset := 0, false, OTHER, 0, 0;
      gpsDataGood, readings, fix := false, garbage, Fix(INVALID, false, false, false, false);
    }

    /** The string in the term buffer. */
    method Text() returns (text: seq<Byte>)
      requires Valid()
      ensures text == CString(term[..])
    {
      var i := 0;
      while i < term.Length && term[i] != 0
        invariant i <= term.Length && forall k :: 0 <= k < i ==> term[k] != 0
      {
        i := i + 1;
      }
      StringEnds(term[..], i);
      text := term[..i];
    }

    /** Processes a term that has just been completed. */
    method TermComplete(now: nat) returns (passed: bool)
      requires Valid()
      modifies this
      ensures Valid() && (Abs(), passed) == GpsSpec.TermComplete(old(Abs()), now)
    {
      hide CString;
      if isChecksumTerm {
        var checksum: int := (16 * FromHex(term[0]) + FromHex(term[1])) % 0x100;
        if checksum == parity {
          if gpsDataGood {
            fix := Publish(fix, sentenceType, readings);
            return true;
          }
        }
        return false;
      }
      var text := Text();
      if termNumber == 0 {
        sentenceType := KindOf(text);
        return false;
      }
      if sentenceType != OTHER && text != [] {
        var tag := Label(sentenceType, termNumber);
        if IsValidity(tag) {
          gpsDataGood := SaysGood(tag, text[0]);
        } else {
          TakeReading(tag, text, now);
        }
      }
      return false;
    }

    /** The cases of the switch that store a reading. */
    method TakeReading(tag: nat, text: seq<Byte>, now: nat)
      requires text != []
      modifies `readings
      ensures readings == Reading(old(readings), tag, text, now)
    {
      hide Decimal;
      hide Degrees;
      hide Atol;
      if tag == 101 || tag == 201 || tag == 305 {
        var v := ParseDecimal(text);
        readings := readings.(time := v, timeFix := now);
      } else if tag == 103 || tag == 202 || tag == 301 {
        var v := ParseDegrees(text);
        readings := readings.(latitude := v, positionFix := now);
      } else if tag == 104 || tag == 203 || tag == 302 {
        if text[0] == SOUTH {
          readings := readings.(latitude := Negate(readings.latitude % U32));
        }
      } else if tag == 105 || tag == 204 || tag == 303 {
        var v := ParseDegrees(text);
        readings := readings.(longitude := v);
      } else if tag == 106 || tag == 205 || tag == 304 {
        if text[0] == WEST {
          readings := readings.(longitude := Negate(readings.longitude % U32));
        }
      } else if tag == 109 {
        var v := GpsAtol(text);
        readings := readings.(date := v);
      } else {
        TakeDecimal(tag, text);
      }
    }

    method TakeDecimal(tag: nat, text: seq<Byte>)
      modifies `readings
      ensures readings ==
        var r, v := old(readings), Decimal(text);
        if tag == 107 then r.(speed := v)
        else if tag == 108 then r.(course := v)
        else if tag == 207 then r.(sats := v)
        else if tag == 208 then r.(hdop := v)
        else if tag == 209 then r.(altitude := v)
        else r
    {
      hide Decimal;
      var v := ParseDecimal(text);
      match tag
      case 107 => readings := readings.(speed := v);
      case 108 => readings := readings.(course := v);
      case 207 => readings := readings.(sats := v);
      case 208 => readings := readings.(hdop := v);
      case 209 => readings := readings.(altitude := v);
      case _ =>
    }

    /** One character from the receiver. */
    method Encode(c: Byte, now: nat) returns (validSentence: bool)
      requires Valid()
      modifies this, term
      ensures Valid() && (Abs(), validSentence) == GpsSpec.Encode(old(Abs()), c, now)
    {
      hide GpsSpec.TermComplete;
      hide Xor;
      validSentence := false;
      if c == COMMA || c == RETURN || c == NEWLINE || c == STAR {
        if c == COMMA {
          parity := Xor(parity, c);
        }
        if termOffset < TERM {
          term[termOffset] := 0;
          validSentence := TermComplete(now);
        }
        termNumber := (termNumber + 1) % 0x100;
        termOffset := 0;
        isChecksumTerm := c == STAR;
        return;
      } else if c == DOLLAR {
        termNumber, termOffset := 0, 0;
        parity := 0;
        sentenceType := OTHER;
        isChecksumTerm := false;
        gpsDataGood := false;
        return;
      }
      if termOffset < TERM - 1 {
        term[termOffset] := c;
        termOffset := termOffset + 1;
      }
      if !isChecksumTerm {
        parity := Xor(parity, c);
      }
    }
  }

  /** GPS_INVALID_TIME, _DATE, _ANGLE and so on. */
  const INVALID := Readings(0xFFFF_FFFF, 0, 999999999, 999999999, 999999999, 999999999, 999999999, 0, 0,
                            0xFFFF_FFFF, 0xFFFF_FFFF)

  lemma {:induction false} StringEnds(b: seq<Byte>, i: nat)
    requires i <= |b| && (forall k :: 0 <= k < i ==> b[k] != 0) && (i < |b| ==> b[i] == 0)
    ensures CString(b) == b[..i]
  {
    var n := |CString(b)|;
    assert !(n < i) && !(i < n);
  }
}
