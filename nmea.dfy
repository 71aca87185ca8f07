/**
 * NMEA 0183 position handling: the degrees-and-minutes conversion of
 * `nmea_to_decimal_degrees` and the effect of one `get_gps_data` poll on the
 * stored (latitude, longitude, altitude) triple.
 *
 * Floating point is modelled by exact `real` arithmetic, and Python's
 * `float(text)` by the partial function `parse` (`None` = `ValueError`).
 */
module Nmea {
  import opened Wrappers
  import opened Text

  /** Python's `int(x)` on a float: rounds toward zero. */
  function Trunc(x: real): (n: int)
    ensures 0.0 <= x ==> n as real <= x < n as real + 1.0
    ensures x < 0.0 ==> n as real - 1.0 < x <= n as real
  {
    if x >= 0.0 then x.Floor else -((-x).Floor)
  }

  /** `direction in ['S', 'W']`. */
  predicate IsSouthOrWest(direction: string) {
    direction == "S" || direction == "W"
  }

  /** The whole degrees of a `DDDMM.MMMM` value: `int(coordinate / 100)`. */
  function DegreesPart(coordinate: real): int {
    Trunc(coordinate / 100.0)
  }

  /** What is left once the degrees are taken off: the minutes. */
  function MinutesPart(coordinate: real): real {
    coordinate - DegreesPart(coordinate) as real * 100.0
  }

  /** `nmea_to_decimal_degrees(coordinate, direction)`, once `coordinate` is parsed. */
  function NmeaToDecimalDegrees(coordinate: real, direction: string): real {
    var decimalDegrees := DegreesPart(coordinate) as real + MinutesPart(coordinate) / 60.0;
    if IsSouthOrWest(direction) then -decimalDegrees else decimalDegrees
  }

  /**
   * For a non-negative value the minutes lie in [0, 100) and the degrees are
   * its floor divided by 100; for a negative one the minutes lie in (-100, 0].
   */
  lemma MinutesPartRange(coordinate: real)
    ensures coordinate == DegreesPart(coordinate) as real * 100.0 + MinutesPart(coordinate)
    ensures 0.0 <= coordinate ==> 0 <= DegreesPart(coordinate) && 0.0 <= MinutesPart(coordinate) < 100.0
    ensures coordinate < 0.0 ==> DegreesPart(coordinate) <= 0 && -100.0 < MinutesPart(coordinate) <= 0.0
  {
  }

  /**
   * Any value written as `degrees * 100 + minutes` with minutes in [0, 100)
   * decodes to `degrees + minutes / 60`, negated for the S and W hemispheres.
   */
  lemma DegreesMinutesDecode(degrees: nat, minutes: real, direction: string)
    requires 0.0 <= minutes < 100.0
    ensures var plain := degrees as real + minutes / 60.0;
            NmeaToDecimalDegrees(degrees as real * 100.0 + minutes, direction)
            == if IsSouthOrWest(direction) then -plain else plain
  {
    var v := degrees as real * 100.0 + minutes;
    assert v / 100.0 == degrees as real + minutes / 100.0;
    assert degrees as real <= v / 100.0 < degrees as real + 1.0;
    assert DegreesPart(v) == degrees;
  }

  /** The S/W hemispheres negate the result; every other direction string keeps it. */
  lemma HemisphereSign(coordinate: real, direction: string)
    ensures NmeaToDecimalDegrees(coordinate, direction)
         == if IsSouthOrWest(direction) then -NmeaToDecimalDegrees(coordinate, "N")
            else NmeaToDecimalDegrees(coordinate, "N")
  {
  }

  /**
   * Because `int()` truncates, the conversion is odd: a negated value decodes
   * to the negated result.
   */
  lemma {:induction false} ConversionIsOdd(coordinate: real, direction: string)
    ensures NmeaToDecimalDegrees(-coordinate, direction) == -NmeaToDecimalDegrees(coordinate, direction)
  {
    assert (-coordinate) / 100.0 == -(coordinate / 100.0);
    assert DegreesPart(-coordinate) == -DegreesPart(coordinate);
  }

  /**
   * Truncation and floor part ways on negative values: for -4916.45 `int()`
   * takes -49 degrees and -16.45 minutes, where a floor would take -50
   * degrees and 83.55 minutes. (A GGA coordinate field is never negative;
   * the sign comes from the hemisphere field.)
   */
  lemma TruncationOnNegative()
    ensures DegreesPart(-4916.45) == -49 && MinutesPart(-4916.45) == -16.45
    ensures (-4916.45 / 100.0).Floor == -50
    ensures NmeaToDecimalDegrees(-4916.45, "N") == -(49.0 + 16.45 / 60.0)
  {
    assert -4916.45 / 100.0 == -49.1645;
    assert Trunc(-49.1645) == -49;
  }

  /** The worked examples: 4916.45 N, 4916.45 S and 12311.12 W. */
  lemma ConversionExamples()
    ensures NmeaToDecimalDegrees(4916.45, "N") == 49.0 + 16.45 / 60.0
    ensures NmeaToDecimalDegrees(4916.45, "S") == -(49.0 + 16.45 / 60.0)
    ensures NmeaToDecimalDegrees(12311.12, "W") == -(123.0 + 11.12 / 60.0)
  {
    DegreesMinutesDecode(49, 16.45, "N");
    DegreesMinutesDecode(49, 16.45, "S");
    DegreesMinutesDecode(123, 11.12, "W");
  }

  /** The sentence the decoder waits for. */
  const SentencePrefix: string := "$GPGGA"

  /** `line.startswith("$GPGGA")` for the stripped line. */
  predicate IsGga(line: string) {
    StartsWith(Strip(line), SentencePrefix)
  }

  /** Index of the first GGA line, or `None` when there is none. */
  function FirstSentence(lines: seq<string>): (r: Option<nat>)
    ensures r.Some? ==> r.value < |lines| && IsGga(lines[r.value])
    ensures r.Some? ==> forall k :: 0 <= k < r.value ==> !IsGga(lines[k])
    ensures r.None? ==> forall k :: 0 <= k < |lines| ==> !IsGga(lines[k])
  {
    if |lines| == 0 then None
    else if IsGga(lines[0]) then Some(0)
    else match FirstSentence(lines[1..])
      case None => None
      case Some(i) => Some(i + 1)
  }

  /** The fields of a GGA line: the stripped line split on commas. */
  function SentenceFields(line: string): seq<string> {
    Split(Strip(line), ',')
  }

  /**
   * The guard of the update: more than nine fields, and latitude (2),
   * longitude (4) and altitude (9) non-empty. The hemispheres (3, 5) are not checked.
   */
  predicate FieldsPresent(fields: seq<string>) {
    |fields| > 9 && fields[2] != "" && fields[4] != "" && fields[9] != ""
  }

  /** The stored (latitude, longitude, altitude) list. */
  type Triple = s: seq<real> | |s| == 3 witness [0.0, 0.0, 0.0]

  /**
   * What a poll hands back: the stored triple (`Returned`), nothing because a
   * `float()` failed inside the `try` (`Swallowed`), no outcome yet because the
   * supplied lines hold no GGA line (`Pending`), or the exception of a serial
   * port that cannot be opened (`NoDevice`).
   */
  datatype GpsOutcome = Returned(fix: Triple) | Swallowed | Pending | NoDevice

  /** The stored triple after a poll, and what the poll handed back. */
  datatype PollResult = PollResult(stored: Triple, outcome: GpsOutcome)

  /** The effect of the fields of the first GGA line on the stored triple. */
  function ApplySentence(stored: Triple, fields: seq<string>, parse: string -> Option<real>): PollResult
  {
    if !FieldsPresent(fields) then PollResult(stored, Returned(stored))
    else match parse(fields[2])
      case None => PollResult(stored, Swallowed)
      case Some(latitude) =>
        var s1 := stored[0 := NmeaToDecimalDegrees(latitude, fields[3])];
        match parse(fields[4])
        case None => PollResult(s1, Swallowed)
        case Some(longitude) =>
          var s2 := s1[1 := NmeaToDecimalDegrees(longitude, fields[5])];
          match parse(fields[9])
          case None => PollResult(s2, Swallowed)
          case Some(altitude) =>
            var s3 := s2[2 := altitude];
            PollResult(s3, Returned(s3))
  }

  /** The effect of one `get_gps_data` call that reads the lines `lines`. */
  function PollGps(stored: Triple, deviceOpens: bool, lines: seq<string>, parse: string -> Option<real>): (r: PollResult)
  {
    if !deviceOpens then PollResult(stored, NoDevice)
    else match FirstSentence(lines)
      case None => PollResult(stored, Pending)
      case Some(i) => ApplySentence(stored, SentenceFields(lines[i]), parse)
  }

  /**
   * The triple always has three entries; a returned triple is the stored one;
   * the triple changes only when the device opened, a GGA line arrived and the
   * guard held; the altitude changes only when the whole update succeeded.
   */
  lemma PollGpsFrame(stored: Triple, deviceOpens: bool, lines: seq<string>, parse: string -> Option<real>)
    ensures var r := PollGps(stored, deviceOpens, lines, parse);
      && (r.outcome.Returned? ==> r.outcome.fix == r.stored)
      && (r.outcome.NoDevice? <==> !deviceOpens)
      && (r.outcome.Pending? <==> deviceOpens && FirstSentence(lines).None?)
      && (r.stored != stored ==>
            deviceOpens && FirstSentence(lines).Some?
            && FieldsPresent(SentenceFields(lines[FirstSentence(lines).value])))
      && (!r.outcome.Returned? ==> r.stored[2] == stored[2])
  {
    if deviceOpens && FirstSentence(lines).Some? {
      ApplySentenceFrame(stored, SentenceFields(lines[FirstSentence(lines).value]), parse);
    }
  }

  lemma ApplySentenceFrame(stored: Triple, fields: seq<string>, parse: string -> Option<real>)
    ensures var r := ApplySentence(stored, fields, parse);
      && (r.outcome.Returned? ==> r.outcome.fix == r.stored)
      && (r.outcome.Returned? || r.outcome.Swallowed?)
      && (r.stored != stored ==> FieldsPresent(fields))
      && (!r.outcome.Returned? ==> r.stored[2] == stored[2])
  {
  }

  /**
   * A GGA line failing the guard (an empty latitude, say) leaves the triple
   * unchanged and returns it.
   */
  lemma IncompleteSentenceKeepsFix(stored: Triple, lines: seq<string>, parse: string -> Option<real>)
    ensures FirstSentence(lines).Some? && !FieldsPresent(SentenceFields(lines[FirstSentence(lines).value])) ==>
      PollGps(stored, true, lines, parse) == PollResult(stored, Returned(stored))
  {
  }

  /**
   * A GGA line passing the guard whose three numbers parse replaces the
   * triple by the converted latitude, the converted longitude and the altitude.
   */
  lemma CompleteSentenceSetsFix(stored: Triple, lines: seq<string>, parse: string -> Option<real>)
    ensures FirstSentence(lines).Some? ==>
      var f := SentenceFields(lines[FirstSentence(lines).value]);
      FieldsPresent(f) && parse(f[2]).Some? && parse(f[4]).Some? && parse(f[9]).Some? ==>
      var fix := [ NmeaToDecimalDegrees(parse(f[2]).value, f[3]),
                   NmeaToDecimalDegrees(parse(f[4]).value, f[5]),
                   parse(f[9]).value ];
      PollGps(stored, true, lines, parse) == PollResult(fix, Returned(fix))
  {
    if FirstSentence(lines).Some? {
      var f := SentenceFields(lines[FirstSentence(lines).value]);
      if FieldsPresent(f) && parse(f[2]).Some? && parse(f[4]).Some? && parse(f[9]).Some? {
        var lat := NmeaToDecimalDegrees(parse(f[2]).value, f[3]);
        var lon := NmeaToDecimalDegrees(parse(f[4]).value, f[5]);
        var alt := parse(f[9]).value;
        assert stored[0 := lat][1 := lon][2 := alt] == [lat, lon, alt];
      }
    }
  }

  /**
   * A `float()` failure after the guard has passed: the poll hands back
   * nothing, and the entries written before the failing field stay written —
   * none when the latitude fails, the latitude when the longitude fails, and
   * both when the altitude fails.
   */
  lemma FailedParseKeepsEarlierEntries(stored: Triple, fields: seq<string>, parse: string -> Option<real>)
    requires FieldsPresent(fields)
    ensures parse(fields[2]).None? ==> ApplySentence(stored, fields, parse) == PollResult(stored, Swallowed)
    ensures parse(fields[2]).Some? && parse(fields[4]).None? ==>
      ApplySentence(stored, fields, parse)
      == PollResult([NmeaToDecimalDegrees(parse(fields[2]).value, fields[3]), stored[1], stored[2]], Swallowed)
    ensures parse(fields[2]).Some? && parse(fields[4]).Some? && parse(fields[9]).None? ==>
      ApplySentence(stored, fields, parse)
      == PollResult([NmeaToDecimalDegrees(parse(fields[2]).value, fields[3]),
                     NmeaToDecimalDegrees(parse(fields[4]).value, fields[5]), stored[2]], Swallowed)
  {
    if parse(fields[2]).Some? {
      var lat := NmeaToDecimalDegrees(parse(fields[2]).value, fields[3]);
      assert stored[0 := lat] == [lat, stored[1], stored[2]];
      if parse(fields[4]).Some? {
        var lon := NmeaToDecimalDegrees(parse(fields[4]).value, fields[5]);
        assert stored[0 := lat][1 := lon] == [lat, lon, stored[2]];
      }
    }
  }

  /**
   * Only the first GGA line counts: lines before it that are not GGA lines and
   * every line after it make no difference.
   */
  lemma {:induction false} OnlyFirstSentenceCounts(stored: Triple, before: seq<string>, line: string,
                                                   after: seq<string>, parse: string -> Option<real>)
    requires forall k :: 0 <= k < |before| ==> !IsGga(before[k])
    requires IsGga(line)
    ensures PollGps(stored, true, before + [line] + after, parse) == PollGps(stored, true, [line], parse)
  {
    var lines := before + [line] + after;
    assert lines[|before|] == line;
    assert FirstSentence(lines) == Some(|before|);
  }

  /**
   * End to end: a line that `readline()` delivers as the comma-joined fields of
   * a GGA sentence, with any white space around it (the "\r\n" an NMEA 0183
   * line ends in, say), updates the triple exactly as those fields say.
   */
  lemma DecodesSentence(stored: Triple, lead: string, fields: seq<string>, trail: string,
                        parse: string -> Option<real>)
    requires forall k :: 0 <= k < |lead| ==> IsSpace(lead[k])
    requires forall k :: 0 <= k < |trail| ==> IsSpace(trail[k])
    requires |fields| >= 1 && fields[0] == SentencePrefix
    requires forall k :: 0 <= k < |fields| ==> ',' !in fields[k]
    requires fields[|fields| - 1] != [] && !IsSpace(fields[|fields| - 1][|fields[|fields| - 1]| - 1])
    ensures PollGps(stored, true, [lead + Join(fields, ',') + trail], parse) == ApplySentence(stored, fields, parse)
  {
    var line := Join(fields, ',');
    if |fields| >= 2 {
      JoinFirstAndRest(fields, ',');
    }
    assert line[..|SentencePrefix|] == SentencePrefix;
    assert line[0] == '$';
    JoinEndsWithLastField(fields, ',');
    StripPadded(lead, line, trail);
    var padded := lead + line + trail;
    assert Strip(padded) == line;
    assert line[..|SentencePrefix|] == SentencePrefix;
    assert IsGga(padded);
    SplitJoin(fields, ',');
    assert FirstSentence([padded]) == Some(0);
  }
}
