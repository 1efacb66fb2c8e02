/** Uncompressed APRS position reports: the formatter, and the parser that reads
    them back, over exact arithmetic. */
module AprsPosition {
  import opened Common
  import opened Text

  function Magnitude(x: real): real { if x < 0.0 then -x else x }

  lemma RoundIsNear(x: real)
    ensures Magnitude(Round(x) as real - x) <= 0.5
  {
  }

  lemma RoundStaysBetween(x: real, lo: int, hi: int)
    requires lo as real <= x <= hi as real
    ensures lo <= Round(x) <= hi
  {
  }

  // ── formatting ───────────────────────────────────────────────────────────

  function DigitChar(d: int): char
    requires 0 <= d < 10
  {
    '0' + d as char
  }

  function TwoDigits(n: int): string
    requires 0 <= n < 100
  {
    [DigitChar(n / 10), DigitChar(n % 10)]
  }

  function ThreeDigits(n: int): string
    requires 0 <= n < 1000
  {
    [DigitChar(n / 100), DigitChar(n / 10 % 10), DigitChar(n % 10)]
  }

  /** `%05.2f` of a number of hundredths. */
  function Hundredths(h: int): string
    requires 0 <= h < 10000
  {
    TwoDigits(h / 100) + "." + TwoDigits(h % 100)
  }

  /** The minutes of a coordinate in hundredths; up to and including 60.00. */
  function MinutesOf(x: real): int
    requires x >= 0.0
  {
    Round((x - x.Floor as real) * 60.0 * 100.0)
  }

  /** A symbol is made two characters long. */
  function SymbolPair(symbol: string): string {
    if |symbol| == 0 then "/-" else if |symbol| == 1 then "/" + symbol else symbol[..2]
  }

  /** The symbol that is heard: the one sent, a single code in the primary table, the
      house symbol for none. */
  predicate HasSymbol(heard: string, sent: string) {
    && (|sent| == 2 ==> heard == sent) && (|sent| > 2 ==> |heard| == 2 && heard <= sent)
    && (|sent| == 1 ==> heard == ['/', sent[0]]) && (sent == "" ==> heard == "/-")
  }

  predicate InRange(lat: real, lon: real) { -90.0 <= lat <= 90.0 && -180.0 <= lon <= 180.0 }

  lemma MinutesFit(x: real)
    requires x >= 0.0
    ensures 0 <= MinutesOf(x) <= 6000
    ensures Magnitude(MinutesOf(x) as real / 6000.0 - (x - x.Floor as real)) <= 1.0 / 12000.0
  {
    var m := (x - x.Floor as real) * 60.0 * 100.0;
    RoundIsNear(m);
    RoundStaysBetween(m, 0, 6000);
  }

  function LatText(lat: real): string
    requires -90.0 <= lat <= 90.0
  {
    var a := Magnitude(lat);
    MinutesFit(a);
    TwoDigits(a.Floor) + Hundredths(MinutesOf(a)) + (if lat < 0.0 then "S" else "N")
  }

  function LonText(lon: real): string
    requires -180.0 <= lon <= 180.0
  {
    var a := Magnitude(lon);
    MinutesFit(a);
    ThreeDigits(a.Floor) + Hundredths(MinutesOf(a)) + (if lon < 0.0 then "W" else "E")
  }

  /** `formatUncompressedPosition`. */
  function FormatPosition(lat: real, lon: real, symbol: string, comment: string): string
    requires InRange(lat, lon)
  {
    "!" + LatText(lat) + [SymbolPair(symbol)[0]] + LonText(lon) + [SymbolPair(symbol)[1]]
    + (if comment != "" then "/" + comment else "")
  }

  /** The packet line around it. */
  function PacketLine(callsign: string, path: string, body: string): string {
    Upper(callsign) + ">" + path + ":" + body
  }

  // ── reading numbers ──────────────────────────────────────────────────────

  function Unsigned(s: string): string { if s != "" && (s[0] == '+' || s[0] == '-') then s[1..] else s }

  /** `strconv.Atoi` on short texts. */
  function Atoi(s: string): Option<int> {
    var digits := Unsigned(s);
    if digits == "" || !AllDigits(digits) then None
    else Some(if s[0] == '-' then -Value(digits) else Value(digits))
  }

  function PowerOfTen(n: nat): (p: int)
    ensures p >= 1
  {
    if n == 0 then 1 else 10 * PowerOfTen(n - 1)
  }

  /** `strconv.ParseFloat` on plain decimal notation. */
  function ParseDecimal(s: string): Option<real> {
    var u := Unsigned(s);
    var dot := IndexOf(u, '.');
    var whole := if dot < 0 then u else u[..dot];
    var fraction := if dot < 0 then "" else u[dot + 1..];
    if whole + fraction == "" || !AllDigits(whole + fraction) then None
    else
      var x := Value(whole + fraction) as real / PowerOfTen(|fraction|) as real;
      Some(if s[0] == '-' then -x else x)
  }

  // ── the decoder ──────────────────────────────────────────────────────────

  datatype Decoded =
    | Rejected
    | Position(symbol: string, lat: real, lon: real, course: Option<int>, comment: string)

  function Coordinate(degrees: int, minutes: real, negative: bool): real {
    var x := degrees as real + minutes / 60.0;
    if negative then -x else x
  }

  function FourDecimals(x: real): real { Round(x * 10000.0) as real / 10000.0 }

  /** What follows the symbol: an optional course, and the comment. */
  function CourseEnd(rest: string): int {
    if |rest| >= 7 && rest[0] == '/' && 0 <= IndexOf(rest[1..], '/') <= 3 then IndexOf(rest[1..], '/') + 1 else 0
  }

  function CourseOf(rest: string): Option<int> {
    if CourseEnd(rest) == 0 then None
    else
      var c := Atoi(rest[1..CourseEnd(rest)]);
      if c.Some? && 0 <= c.value <= 360 then c else None
  }

  function CommentOf(rest: string): string {
    Trim(if CourseEnd(rest) == 0 then rest else rest[CourseEnd(rest) + 1..])
  }

  /** `tryDecodeUncompressed`: DDMM.hhN, table, DDDMM.hhE, code, rest. */
  function Uncompressed(body: string): Decoded {
    if |body| < 9 || Atoi(body[..2]).None? || ParseDecimal(body[2..7]).None? then Rejected
    else if |body| < 19 || Atoi(body[9..12]).None? || ParseDecimal(body[12..17]).None? then Rejected
    else
      var lat := Coordinate(Atoi(body[..2]).value, ParseDecimal(body[2..7]).value, body[7] == 'S');
      var lon := Coordinate(Atoi(body[9..12]).value, ParseDecimal(body[12..17]).value, body[17] == 'W');
      if !InRange(lat, lon) then Rejected
      else Position([body[8], body[18]], FourDecimals(lat), FourDecimals(lon), CourseOf(body[19..]), CommentOf(body[19..]))
  }

  class StationRecord {
    var callsign: string
    var symbol: string
    var lat: real
    var lon: real
    var course: int
    var comment: string

    constructor ()
      ensures callsign == "" && symbol == "" && lat == 0.0 && lon == 0.0 && course == 0 && comment == ""
    {
      callsign, symbol, lat, lon, course, comment := "", "", 0.0, 0.0, 0, "";
    }

    /** The record gets the decoded position, or nothing but perhaps a symbol. */
    method TryDecodeUncompressed(text: string) returns (ok: bool)
      modifies `symbol, `lat, `lon, `course, `comment
      ensures ok <==> Uncompressed(text).Position?
      ensures ok ==> |text| >= 19
      ensures ok ==> Uncompressed(text) == Position(symbol, lat, lon, CourseOf(text[19..]), comment)
      ensures ok ==> course == match CourseOf(text[19..]) case Some(c) => c case None => old(course)
      ensures !ok ==> lat == old(lat) && lon == old(lon) && course == old(course) && comment == old(comment)
    {
      hide Atoi, ParseDecimal;
      var body := text;
      if |body| < 9 { return false; }
      var latDeg := Atoi(body[..2]);
      if latDeg.None? { return false; }
      var latMin := ParseDecimal(body[2..7]);
      if latMin.None? { return false; }
      var latHemi := body[7];
      body := body[8..];
      var symTable := body[0];
      body := body[1..];
      if |body| < 10 { return false; }
      assert body[0..3] == text[9..12] && body[3..8] == text[12..17] && body[10..] == text[19..];
      var lonDeg := Atoi(body[0..3]);
      if lonDeg.None? { return false; }
      var lonMin := ParseDecimal(body[3..8]);
      if lonMin.None? { return false; }
      symbol := [symTable, body[9]];
      var y := Coordinate(latDeg.value, latMin.value, latHemi == 'S');
      var x := Coordinate(lonDeg.value, lonMin.value, body[8] == 'W');
      if y < -90.0 || y > 90.0 || x < -180.0 || x > 180.0 { return false; }
      lat, lon := FourDecimals(y), FourDecimals(x);
      ReadRest(body[10..]);
      ok := true;
    }

    method ReadRest(rest: string)
      modifies `course, `comment
      ensures course == match CourseOf(rest) case Some(c) => c case None => old(course)
      ensures comment == CommentOf(rest)
    {
      var body := rest;
      if |body| >= 7 && body[0] == '/' {
        var courseEnd := IndexOf(body[1..], '/');
        if 0 <= courseEnd <= 3 {
          courseEnd := courseEnd + 1;
          var c := Atoi(body[1..courseEnd]);
          if c.Some? && 0 <= c.value <= 360 { course := c.value; }
          body := body[courseEnd + 1..];
        }
      }
      comment := Trim(body);
    }
  }

  predicate Whole(x: real) { x.Floor as real == x }

  lemma FourDecimalsAreWhole(x: real)
    ensures Whole(FourDecimals(x) * 10000.0)
  {
    assert FourDecimals(x) * 10000.0 == Round(x * 10000.0) as real;
  }

  lemma RoundedStaysBelow(x: real, top: int)
    requires -(top as real) <= x <= top as real
    ensures -(top as real) <= FourDecimals(x) <= top as real
  {
    RoundStaysBetween(x * 10000.0, -10000 * top, 10000 * top);
  }

  /** Whatever is accepted lies in the coordinate range and has four decimals. */
  lemma AcceptedIsInRange(body: string)
    ensures var d := Uncompressed(body); d.Position? ==> InRange(d.lat, d.lon)
    ensures var d := Uncompressed(body); d.Position? ==> Whole(d.lat * 10000.0) && Whole(d.lon * 10000.0)
  {
    hide Atoi, ParseDecimal, CourseOf, CommentOf, FourDecimals, Coordinate, Whole;
    if Uncompressed(body).Position? {
      var lat := Coordinate(Atoi(body[..2]).value, ParseDecimal(body[2..7]).value, body[7] == 'S');
      var lon := Coordinate(Atoi(body[9..12]).value, ParseDecimal(body[12..17]).value, body[17] == 'W');
      RoundedStaysBelow(lat, 90);
      RoundedStaysBelow(lon, 180);
      FourDecimalsAreWhole(lat);
      FourDecimalsAreWhole(lon);
    }
  }

  // ── dispatch ─────────────────────────────────────────────────────────────

  datatype Packet = NotAPosition | Heard(callsign: string, position: Decoded)

  /** `parsePositionPacketAt`. The Mic-E, object, item and Base-91 decoders are
      not part of this model: `special` is what the one in question returned. */
  function Parse(raw: string, special: Packet): Packet {
    var colon := IndexOf(raw, ':');
    if colon < 0 then NotAPosition
    else
      var header, body := raw[..colon], raw[colon + 1..];
      var arrow := IndexOf(header, '>');
      if arrow < 0 || Trim(header[..arrow]) == "" || |body| < 2 then NotAPosition
      else Dispatch(Trim(header[..arrow]), body, special)
  }

  function Dispatch(callsign: string, body: string, special: Packet): Packet
    requires |body| >= 2
  {
    var kind := body[0];
    if kind in ['\'', '`', ';', ')'] then special
    else if kind == '@' then
      if |body| < 18 then NotAPosition else Accepted(callsign, Uncompressed(body[8..]))
    else if kind in ['!', '=', '/'] then
      if |body| > 2 && !IsDigit(body[1]) && special.Heard? then special
      else Accepted(callsign, Uncompressed(body[1..]))
    else NotAPosition
  }

  function Accepted(callsign: string, d: Decoded): Packet {
    if d.Position? then Heard(callsign, d) else NotAPosition
  }

  /** No line without a colon, without an arrow before it, without a call in front or
      with fewer than two characters behind is a position. */
  lemma NotEveryLineIsAPosition(raw: string, special: Packet)
    requires ':' !in raw || '>' !in raw
    ensures Parse(raw, special) == NotAPosition
  {
    hide Trim, Dispatch;
    var colon := IndexOf(raw, ':');
    if colon >= 0 { assert '>' !in raw[..colon]; }
  }

  lemma PlainKind(callsign: string, body: string, special: Packet)
    requires |body| > 2
    ensures body[0] in ['!', '=', '/'] ==>
      Dispatch(callsign, body, special)
        == if !IsDigit(body[1]) && special.Heard? then special else Accepted(callsign, Uncompressed(body[1..]))
    ensures body[0] in ['\'', '`', ';', ')'] ==> Dispatch(callsign, body, special) == special
    ensures body[0] !in ['!', '=', '/', '@', '\'', '`', ';', ')'] ==> Dispatch(callsign, body, special) == NotAPosition
  {
    hide Uncompressed, Accepted, IsDigit;
  }

  lemma TimedKind(callsign: string, body: string, special: Packet)
    requires |body| >= 18
    ensures body[0] == '@' ==> Dispatch(callsign, body, special) == Accepted(callsign, Uncompressed(body[8..]))
  {
    hide Uncompressed, Accepted;
  }

  /** Which kinds of packet hold a plain position: `!`, `=` and `/` right behind the kind,
      and `@` behind seven characters of time. The others are not read here. */
  lemma KindsOfPackets(callsign: string, kind: char, time: string, report: string, special: Packet)
    requires |time| == 7 && |report| >= 10
    ensures kind in ['!', '=', '/'] && IsDigit(report[0]) ==>
      Dispatch(callsign, [kind] + report, special) == Accepted(callsign, Uncompressed(report))
    ensures kind in ['!', '=', '/'] && !IsDigit(report[0]) && special.Heard? ==>
      Dispatch(callsign, [kind] + report, special) == special
    ensures kind == '@' ==> Dispatch(callsign, [kind] + time + report, special) == Accepted(callsign, Uncompressed(report))
    ensures kind in ['\'', '`', ';', ')'] ==> Dispatch(callsign, [kind] + report, special) == special
    ensures kind !in ['!', '=', '/', '@', '\'', '`', ';', ')'] ==> Dispatch(callsign, [kind] + report, special) == NotAPosition
  {
    var plain, timed := [kind] + report, [kind] + time + report;
    assert plain[1..] == report && plain[0] == kind && plain[1] == report[0];
    assert timed[8..] == report && timed[0] == kind;
    hide Uncompressed, Accepted, IsDigit;
    PlainKind(callsign, plain, special);
    TimedKind(callsign, timed, special);
  }

  // ── what is sent is read ─────────────────────────────────────────────────

  lemma ValueOfTwo(n: int)
    requires 0 <= n < 100
    ensures AllDigits(TwoDigits(n)) && Value(TwoDigits(n)) == n && Atoi(TwoDigits(n)) == Some(n)
  {
    var s := TwoDigits(n);
    assert s[..1] == [s[0]] && [s[0]][..0] == "";
    assert Value([s[0]]) == n / 10;
  }

  lemma ValueOfThree(n: int)
    requires 0 <= n < 1000
    ensures AllDigits(ThreeDigits(n)) && Value(ThreeDigits(n)) == n && Atoi(ThreeDigits(n)) == Some(n)
  {
    var s := ThreeDigits(n);
    ValueOfTwo(n / 10);
    assert s[..2] == TwoDigits(n / 10);
    assert n / 10 / 10 == n / 100;
  }

  lemma ValueOfFour(h: int)
    requires 0 <= h < 10000
    ensures var all := TwoDigits(h / 100) + TwoDigits(h % 100);
      AllDigits(all) && Value(all) == h
  {
    var whole := TwoDigits(h / 100);
    var all := whole + TwoDigits(h % 100);
    ValueOfTwo(h / 100);
    ValueOfTwo(h % 100);
    assert all[..3][..2] == whole;
    assert Value(all[..3]) == 10 * (h / 100) + h % 100 / 10;
  }

  lemma PlainNumberIsParsed(whole: string, fraction: string)
    requires whole != "" && AllDigits(whole + fraction) && IsDigit(whole[0]) && '.' !in whole
    ensures ParseDecimal(whole + ['.'] + fraction)
         == Some(Value(whole + fraction) as real / PowerOfTen(|fraction|) as real)
  {
    hide IndexOf, Value, AllDigits, PowerOfTen;
    var s := whole + ['.'] + fraction;
    FirstIsUnique(whole, '.', fraction);
    assert s[..|whole|] == whole && s[|whole| + 1..] == fraction;
  }

  lemma HundredthsAreRead(h: int)
    requires 0 <= h < 10000
    ensures |Hundredths(h)| == 5 && ParseDecimal(Hundredths(h)) == Some(h as real / 100.0)
  {
    var whole, fraction := TwoDigits(h / 100), TwoDigits(h % 100);
    ValueOfFour(h);
    assert '.' !in whole by { assert forall c | c in whole :: IsDigit(c); }
    PlainNumberIsParsed(whole, fraction);
    assert PowerOfTen(2) == 10 * PowerOfTen(1) == 100;
    assert Hundredths(h) == whole + ['.'] + fraction && |fraction| == 2;
    hide ParseDecimal, Value, AllDigits, PowerOfTen, TwoDigits;
  }

  /** The coordinate as the report writes it, minutes rounded. */
  function AsWritten(x: real): real {
    var a := Magnitude(x);
    Coordinate(a.Floor, MinutesOf(a) as real / 100.0, x < 0.0)
  }

  lemma CoordinateIsClose(x: real, top: int)
    requires Magnitude(x) <= top as real
    ensures Magnitude(AsWritten(x) - x) <= 1.0 / 12000.0 && Magnitude(AsWritten(x)) <= top as real
  {
    var a := Magnitude(x);
    MinutesFit(a);
    assert a.Floor <= top;
    if a.Floor == top {
      assert a == top as real && MinutesOf(a) == 0;
    }
  }

  lemma FourDecimalsAreClose(x: real, y: real)
    requires Magnitude(y - x) <= 1.0 / 12000.0
    ensures Magnitude(FourDecimals(y) - x) <= 1.0 / 7500.0
  {
    RoundIsNear(y * 10000.0);
  }

  /** Where the pieces of a report lie. */
  lemma Pieces(d: string, m: string, h: string, table: char, e: string, n: string, g: string, code: char, tail: string)
    requires |d| == 2 && |m| == 5 && |h| == 1 && |e| == 3 && |n| == 5 && |g| == 1
    ensures var b := "!" + (d + m + h) + [table] + (e + n + g) + [code] + tail;
      && |b| >= 20 && b[0] == '!' && b[1] == d[0]
      && b[1..3] == d && b[3..8] == m && b[8] == h[0] && b[9] == table
      && b[10..13] == e && b[13..18] == n && b[18] == g[0] && b[19] == code && b[20..] == tail
  {
    var b := "!" + (d + m + h) + [table] + (e + n + g) + [code] + tail;
    assert b[20..] == tail;
  }

  /** The report, character by character. */
  lemma ReportLayout(lat: real, lon: real, symbol: string, comment: string)
    requires InRange(lat, lon)
    ensures var b := FormatPosition(lat, lon, symbol, comment);
      && |b| >= 20 && b[0] == '!' && IsDigit(b[1])
      && b[1..3] == TwoDigits(Magnitude(lat).Floor)
      && b[3..8] == Hundredths(MinutesOf(Magnitude(lat))) && b[8] == (if lat < 0.0 then 'S' else 'N')
      && b[9] == SymbolPair(symbol)[0]
      && b[10..13] == ThreeDigits(Magnitude(lon).Floor)
      && b[13..18] == Hundredths(MinutesOf(Magnitude(lon))) && b[18] == (if lon < 0.0 then 'W' else 'E')
      && b[19] == SymbolPair(symbol)[1]
      && b[20..] == if comment != "" then "/" + comment else ""
  {
    var la, lo := Magnitude(lat), Magnitude(lon);
    MinutesFit(la);
    MinutesFit(lo);
    assert 0 <= la.Floor < 100 && 0 <= lo.Floor < 1000;
    ValueOfTwo(la.Floor);
    assert IsDigit(TwoDigits(la.Floor)[0]);
    hide MinutesOf;
    Pieces(TwoDigits(la.Floor), Hundredths(MinutesOf(la)), if lat < 0.0 then "S" else "N", SymbolPair(symbol)[0],
           ThreeDigits(lo.Floor), Hundredths(MinutesOf(lo)), if lon < 0.0 then "W" else "E", SymbolPair(symbol)[1],
           if comment != "" then "/" + comment else "");
    hide TwoDigits, ThreeDigits, Hundredths, SymbolPair;
  }

  /** What the decoder makes of a body once its four numbers are known. */
  lemma PartsAreDecoded(t: string, latDeg: int, latMin: real, lonDeg: int, lonMin: real)
    requires |t| >= 19
    requires Atoi(t[..2]) == Some(latDeg) && ParseDecimal(t[2..7]) == Some(latMin)
    requires Atoi(t[9..12]) == Some(lonDeg) && ParseDecimal(t[12..17]) == Some(lonMin)
    requires InRange(Coordinate(latDeg, latMin, t[7] == 'S'), Coordinate(lonDeg, lonMin, t[17] == 'W'))
    ensures Uncompressed(t) == Position([t[8], t[18]],
      FourDecimals(Coordinate(latDeg, latMin, t[7] == 'S')),
      FourDecimals(Coordinate(lonDeg, lonMin, t[17] == 'W')),
      CourseOf(t[19..]), CommentOf(t[19..]))
  {
    hide Atoi, ParseDecimal, FourDecimals, CourseOf, CommentOf, Coordinate;
  }

  lemma ReportSlices(b: string)
    requires |b| >= 20
    ensures var t := b[1..];
      && |t| >= 19 && t[..2] == b[1..3] && t[2..7] == b[3..8] && t[9..12] == b[10..13] && t[12..17] == b[13..18]
      && t[19..] == b[20..] && t[7] == b[8] && t[8] == b[9] && t[17] == b[18] && t[18] == b[19]
  {
  }

  lemma LatNumbersAreRead(la: real)
    requires 0.0 <= la <= 90.0
    ensures 0 <= la.Floor < 100 && Atoi(TwoDigits(la.Floor)) == Some(la.Floor)
    ensures 0 <= MinutesOf(la) < 10000
    ensures ParseDecimal(Hundredths(MinutesOf(la))) == Some(MinutesOf(la) as real / 100.0)
  {
    MinutesFit(la);
    hide MinutesOf, Atoi, ParseDecimal, TwoDigits, Hundredths;
    ValueOfTwo(la.Floor);
    HundredthsAreRead(MinutesOf(la));
  }

  lemma LonNumbersAreRead(lo: real)
    requires 0.0 <= lo <= 180.0
    ensures 0 <= lo.Floor < 1000 && Atoi(ThreeDigits(lo.Floor)) == Some(lo.Floor)
    ensures 0 <= MinutesOf(lo) < 10000
    ensures ParseDecimal(Hundredths(MinutesOf(lo))) == Some(MinutesOf(lo) as real / 100.0)
  {
    MinutesFit(lo);
    hide MinutesOf, Atoi, ParseDecimal, ThreeDigits, Hundredths;
    ValueOfThree(lo.Floor);
    HundredthsAreRead(MinutesOf(lo));
  }

  lemma WrittenIsInRange(lat: real, lon: real)
    requires InRange(lat, lon)
    ensures InRange(AsWritten(lat), AsWritten(lon))
  {
    hide AsWritten;
    CoordinateIsClose(lat, 90);
    CoordinateIsClose(lon, 180);
  }

  /** A report without its data type: latitude, table, longitude, code. */
  predicate LaidOut(t: string, lat: real, lon: real)
    requires InRange(lat, lon)
  {
    MinutesFit(Magnitude(lat));
    MinutesFit(Magnitude(lon));
    && |t| >= 19
    && t[..2] == TwoDigits(Magnitude(lat).Floor)
    && t[2..7] == Hundredths(MinutesOf(Magnitude(lat))) && t[7] == (if lat < 0.0 then 'S' else 'N')
    && t[9..12] == ThreeDigits(Magnitude(lon).Floor)
    && t[12..17] == Hundredths(MinutesOf(Magnitude(lon))) && t[17] == (if lon < 0.0 then 'W' else 'E')
  }

  lemma LatPartIsRead(t: string, lat: real, lon: real)
    requires InRange(lat, lon) && LaidOut(t, lat, lon)
    ensures |t| >= 19 && Magnitude(lat) >= 0.0
    ensures var la := Magnitude(lat);
      && Atoi(t[..2]) == Some(la.Floor) && ParseDecimal(t[2..7]) == Some(MinutesOf(la) as real / 100.0)
      && Coordinate(la.Floor, MinutesOf(la) as real / 100.0, t[7] == 'S') == AsWritten(lat)
  {
    hide Atoi, ParseDecimal, MinutesOf, TwoDigits, ThreeDigits, Hundredths, Coordinate;
    LatNumbersAreRead(Magnitude(lat));
  }

  lemma LonPartIsRead(t: string, lat: real, lon: real)
    requires InRange(lat, lon) && LaidOut(t, lat, lon)
    ensures |t| >= 19 && Magnitude(lon) >= 0.0
    ensures var lo := Magnitude(lon);
      && Atoi(t[9..12]) == Some(lo.Floor) && ParseDecimal(t[12..17]) == Some(MinutesOf(lo) as real / 100.0)
      && Coordinate(lo.Floor, MinutesOf(lo) as real / 100.0, t[17] == 'W') == AsWritten(lon)
  {
    hide Atoi, ParseDecimal, MinutesOf, TwoDigits, ThreeDigits, Hundredths, Coordinate;
    LonNumbersAreRead(Magnitude(lon));
  }

  lemma LaidOutIsRead(t: string, lat: real, lon: real)
    requires InRange(lat, lon) && LaidOut(t, lat, lon)
    ensures |t| >= 19
    ensures Uncompressed(t) == Position([t[8], t[18]],
      FourDecimals(AsWritten(lat)), FourDecimals(AsWritten(lon)), CourseOf(t[19..]), CommentOf(t[19..]))
  {
    hide *;
    LatPartIsRead(t, lat, lon);
    LonPartIsRead(t, lat, lon);
    WrittenIsInRange(lat, lon);
    var la, lo := Magnitude(lat), Magnitude(lon);
    PartsAreDecoded(t, la.Floor, MinutesOf(la) as real / 100.0, lo.Floor, MinutesOf(lo) as real / 100.0);
  }

  lemma ReportIsLaidOut(lat: real, lon: real, symbol: string, comment: string)
    requires InRange(lat, lon)
    ensures |FormatPosition(lat, lon, symbol, comment)| >= 20
    ensures LaidOut(FormatPosition(lat, lon, symbol, comment)[1..], lat, lon)
  {
    ReportLayout(lat, lon, symbol, comment);
    hide FormatPosition, SymbolPair, MinutesOf, TwoDigits, ThreeDigits, Hundredths, Magnitude;
    ReportSlices(FormatPosition(lat, lon, symbol, comment));
  }

  lemma ReportIsRead(lat: real, lon: real, symbol: string, comment: string)
    requires InRange(lat, lon)
    ensures var b := FormatPosition(lat, lon, symbol, comment);
      |b| >= 20 && Uncompressed(b[1..]) == Position([b[9], b[19]],
        FourDecimals(AsWritten(lat)), FourDecimals(AsWritten(lon)), CourseOf(b[20..]), CommentOf(b[20..]))
  {
    hide *;
    ReportIsLaidOut(lat, lon, symbol, comment);
    ReportSlices(FormatPosition(lat, lon, symbol, comment));
    LaidOutIsRead(FormatPosition(lat, lon, symbol, comment)[1..], lat, lon);
  }

  /** Rounding the minutes, up to 60.00, and the four decimals together cost at
      most 1/7500 of a degree, and never push a pole or the antimeridian out of
      range. */
  lemma ReportIsDecoded(lat: real, lon: real, symbol: string, comment: string)
    requires InRange(lat, lon)
    ensures var d := Uncompressed(FormatPosition(lat, lon, symbol, comment)[1..]);
      && d.Position? && HasSymbol(d.symbol, symbol)
      && Magnitude(d.lat - lat) <= 1.0 / 7500.0 && Magnitude(d.lon - lon) <= 1.0 / 7500.0
      && d.comment == CommentOf(if comment != "" then "/" + comment else "")
  {
    hide Uncompressed, AsWritten, FourDecimals, CommentOf, CourseOf;
    ReportIsRead(lat, lon, symbol, comment);
    CoordinateIsClose(lat, 90);
    CoordinateIsClose(lon, 180);
    FourDecimalsAreClose(lat, AsWritten(lat));
    FourDecimalsAreClose(lon, AsWritten(lon));
    ReportEnds(lat, lon, symbol, comment);
    hide FormatPosition;
  }

  lemma ReportEnds(lat: real, lon: real, symbol: string, comment: string)
    requires InRange(lat, lon)
    ensures var b := FormatPosition(lat, lon, symbol, comment);
      && |b| >= 20 && HasSymbol([b[9], b[19]], symbol)
      && b[20..] == if comment != "" then "/" + comment else ""
  {
    ReportLayout(lat, lon, symbol, comment);
    var pair := SymbolPair(symbol);
    assert |pair| == 2 && HasSymbol(pair, symbol);
    assert pair == [pair[0], pair[1]];
    hide FormatPosition, SymbolPair;
  }

  /** The sent packet is accepted, under the same call and symbol, within 1/7500
      of a degree in each coordinate, whatever the other decoders would say. */
  lemma SentPositionIsHeard(callsign: string, path: string, lat: real, lon: real, symbol: string, comment: string,
                            special: Packet)
    requires InRange(lat, lon)
    requires ':' !in callsign && '>' !in callsign && Trim(callsign) != "" && ':' !in path
    ensures var p := Parse(PacketLine(callsign, path, FormatPosition(lat, lon, symbol, comment)), special);
      && p.Heard? && p.callsign == Trim(Upper(callsign)) && p.position.Position?
      && HasSymbol(p.position.symbol, symbol)
      && Magnitude(p.position.lat - lat) <= 1.0 / 7500.0
      && Magnitude(p.position.lon - lon) <= 1.0 / 7500.0
  {
    var b := FormatPosition(lat, lon, symbol, comment);
    StartsWithADigit(lat, lon, symbol, comment);
    hide *;
    ReportIsDecoded(lat, lon, symbol, comment);
    HeaderIsRead(callsign, path, b, special);
    ReportIsDispatched(Trim(Upper(callsign)), b, special);
  }

  lemma ReportIsDispatched(callsign: string, body: string, special: Packet)
    requires |body| >= 2 && body[0] == '!' && IsDigit(body[1]) && Uncompressed(body[1..]).Position?
    ensures Dispatch(callsign, body, special) == Heard(callsign, Uncompressed(body[1..]))
  {
    hide Uncompressed;
  }

  lemma StartsWithADigit(lat: real, lon: real, symbol: string, comment: string)
    requires InRange(lat, lon)
    ensures var b := FormatPosition(lat, lon, symbol, comment); |b| >= 20 && b[0] == '!' && IsDigit(b[1])
  {
    ReportLayout(lat, lon, symbol, comment);
  }

  lemma HeaderIsRead(callsign: string, path: string, body: string, special: Packet)
    requires ':' !in callsign && '>' !in callsign && Trim(callsign) != "" && ':' !in path && |body| >= 2
    ensures Parse(PacketLine(callsign, path, body), special) == Dispatch(Trim(Upper(callsign)), body, special)
  {
    var call := Upper(callsign);
    CapitalsKeepMarks(callsign);
    var header := call + ">" + path;
    var line := header + ":" + body;
    assert PacketLine(callsign, path, body) == line;
    hide Upper, Trim, Dispatch;
    FirstIsUnique(header, ':', body);
    FirstIsUnique(call, '>', path);
    assert line[..|header|] == header && line[|header| + 1..] == body && header[..|call|] == call;
  }

  lemma CapitalsKeepMarks(s: string)
    requires ':' !in s && '>' !in s && Trim(s) != ""
    ensures ':' !in Upper(s) && '>' !in Upper(s) && Trim(Upper(s)) != ""
  {
    assert forall i | 0 <= i < |s| :: IsBlank(UpperChar(s[i])) <==> IsBlank(s[i]);
    if forall c | c in s :: IsBlank(c) {
      BlankIffTrimmedAway(s);
    } else {
      BlankIffTrimmedAway(s);
      var i :| 0 <= i < |s| && !IsBlank(s[i]);
      assert Upper(s)[i] in Upper(s) && !IsBlank(Upper(s)[i]);
      BlankIffTrimmedAway(Upper(s));
    }
  }

  lemma BlankIffTrimmedAway(s: string)
    ensures Trim(s) == "" <==> forall c | c in s :: IsBlank(c)
  {
    LeftKeepsText(s);
    RightKeepsText(TrimLeft(s));
  }

  lemma {:induction false} LeftKeepsText(s: string)
    ensures (forall c | c in TrimLeft(s) :: IsBlank(c)) <==> (forall c | c in s :: IsBlank(c))
    decreases |s|
  {
    if s == "" {
    } else if IsBlank(s[0]) {
      LeftKeepsText(s[1..]);
      assert s == [s[0]] + s[1..];
    }
  }

  lemma {:induction false} RightKeepsText(s: string)
    ensures TrimRight(s) == "" <==> forall c | c in s :: IsBlank(c)
    decreases |s|
  {
    if s == "" {
    } else {
      var init, last := s[..|s| - 1], s[|s| - 1];
      assert s == init + [last];
      if IsBlank(last) { RightKeepsText(init); } else { assert last in s; }
    }
  }

  /** Where the parser sees a course at the beginning of a comment. */
  lemma CourseIsASlash(comment: string)
    requires comment != ""
    ensures var end := CourseEnd("/" + comment);
      if |comment| >= 6 && '/' in comment[..4] then 0 < end <= 4 && comment[end - 1] == '/' else end == 0
  {
    hide IndexOf;
    var i := IndexOf(comment, '/');
    assert ("/" + comment)[1..] == comment;
    if |comment| >= 6 {
      assert '/' in comment[..4] <==> 0 <= i <= 3 by {
        if 0 <= i <= 3 { assert comment[..4][i] == '/'; }
      }
    }
  }

  /** What is heard of a comment: the separator slash and the comment without its
      trailing blanks, exactly when the parser does not take its beginning for a
      course, which it does for six characters or more with a slash among the first
      four. */
  lemma CommentIsHeard(comment: string)
    requires comment != ""
    ensures CommentOf("/" + comment) == "/" + TrimRight(comment)
       <==> |comment| < 6 || '/' !in comment[..4]
  {
    CourseIsASlash(comment);
    SlashSurvives(comment);
    hide CourseEnd, Trim, TrimRight;
    var rest := "/" + comment;
    var end := CourseEnd(rest);
    if end > 0 {
      var dropped, kept := rest[..end + 1], rest[end + 1..];
      assert rest == dropped + kept && dropped[end] == '/';
      TrimmedIsShorter(dropped, kept);
    }
  }

  lemma SlashSurvives(comment: string)
    ensures Trim("/" + comment) == "/" + TrimRight(comment)
  {
    RightTrimKeepsFront("/", comment);
    assert TrimLeft("/" + comment) == "/" + comment;
  }

  lemma {:induction false} TrimmedEndsWithoutBlanks(s: string)
    ensures |TrimRight(s)| <= |s| && TrimRight(s) <= s
    ensures TrimRight(s) != "" ==> !IsBlank(TrimRight(s)[|TrimRight(s)| - 1])
    decreases |s|
  {
    if s == "" {
    } else {
      if IsBlank(s[|s| - 1]) { TrimmedEndsWithoutBlanks(s[..|s| - 1]); }
    }
  }

  /** So no comment comes back as the text that was sent. */
  lemma NoCommentComesBackUnchanged(comment: string)
    requires comment != ""
    ensures CommentOf("/" + comment) != comment
  {
    if |comment| < 6 || '/' !in comment[..4] {
      CommentIsHeard(comment);
      TrimmedEndsWithoutBlanks(comment);
      var heard := "/" + TrimRight(comment);
      assert !IsBlank(heard[|heard| - 1]);
      if IsBlank(comment[|comment| - 1]) {
        assert heard[|heard| - 1] != comment[|comment| - 1];
      } else {
        assert TrimRight(comment) == comment;
      }
    } else {
      CourseShortensTheComment(comment);
    }
  }

  lemma CourseShortensTheComment(comment: string)
    requires |comment| >= 6 && '/' in comment[..4]
    ensures |CommentOf("/" + comment)| < |comment|
  {
    CourseIsASlash(comment);
    hide CourseEnd;
    var rest := "/" + comment;
    var kept := rest[CourseEnd(rest) + 1..];
    LeftTrimShortens(kept);
    TrimmedEndsWithoutBlanks(TrimLeft(kept));
  }

  /** Text in front that ends in a non-blank survives trimming, so dropping it
      shows. */
  lemma TrimmedIsShorter(front: string, s: string)
    requires |front| >= 2 && front[0] == '/' && front[|front| - 1] == '/'
    ensures Trim(front + s) != Trim(s)
  {
    assert TrimLeft(front + s) == front + s;
    RightTrimKeepsFront(front, s);
    LeftTrimShortens(s);
    RightTrimShortens(s, TrimLeft(s));
  }

  lemma {:induction false} RightTrimKeepsFront(front: string, s: string)
    requires front != "" && !IsBlank(front[|front| - 1])
    ensures TrimRight(front + s) == front + TrimRight(s)
    decreases |s|
  {
    if s == "" {
      assert front + s == front;
    } else {
      var init := s[..|s| - 1];
      assert (front + s)[..|front + s| - 1] == front + init;
      if IsBlank(s[|s| - 1]) { RightTrimKeepsFront(front, init); }
    }
  }

  lemma {:induction false} LeftTrimShortens(s: string)
    ensures exists k | 0 <= k <= |s| :: TrimLeft(s) == s[k..]
    decreases |s|
  {
    if s != "" && IsBlank(s[0]) {
      LeftTrimShortens(s[1..]);
      var k :| 0 <= k <= |s| - 1 && TrimLeft(s[1..]) == s[1..][k..];
      assert s[1..][k..] == s[k + 1..];
    } else {
      assert s[0..] == s;
    }
  }

  /** Trimming a suffix on the right leaves no more than trimming the whole. */
  lemma {:induction false} RightTrimShortens(s: string, t: string)
    requires exists k | 0 <= k <= |s| :: t == s[k..]
    ensures |TrimRight(t)| <= |TrimRight(s)|
    decreases |t|
  {
    if t == "" {
    } else {
      var k :| 0 <= k <= |s| && t == s[k..];
      var init := s[..|s| - 1];
      assert s[|s| - 1] == t[|t| - 1];
      if IsBlank(t[|t| - 1]) {
        assert t[..|t| - 1] == init[k..];
        RightTrimShortens(init, t[..|t| - 1]);
      }
    }
  }
}
