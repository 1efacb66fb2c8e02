/** Maidenhead locators: the decoder, the ten-character encoder and the two
    shorter ones, over exact arithmetic. */
module Locator {
  import opened Text

  // ── cells ────────────────────────────────────────────────────────────────

  /** The five digits of one axis, coarse to fine. */
  datatype Digits = Digits(field: int, square: int, sub: int, ext: int, further: int)

  predicate InRadix(d: Digits) {
    0 <= d.field < 18 && 0 <= d.square < 10 && 0 <= d.sub < 24 && 0 <= d.ext < 10 && 0 <= d.further < 24
  }

  /** The number the first two, three, four and five digits write. */
  function Index2(d: Digits): int { 10 * d.field + d.square }
  function Index3(d: Digits): int { 24 * Index2(d) + d.sub }
  function Index4(d: Digits): int { 10 * Index3(d) + d.ext }
  function Index(d: Digits): int { 24 * Index4(d) + d.further }

  lemma CoarseDigitsAreFixed(d: Digits, e: Digits)
    requires InRadix(d) && InRadix(e)
    ensures Index2(d) == Index2(e) ==> d.field == e.field && d.square == e.square
    ensures Index3(d) == Index3(e) ==> Index2(d) == Index2(e) && d.sub == e.sub
    ensures Index4(d) == Index4(e) ==> Index3(d) == Index3(e) && d.ext == e.ext
    ensures Index(d) == Index(e) ==> Index4(d) == Index4(e) && d.further == e.further
  {
  }

  /** Along an axis of 180 units, the digits name the cell that holds y. */
  predicate Holds(d: Digits, y: real) {
    InRadix(d) && Index(d) as real <= 5760.0 * y < Index(d) as real + 1.0
  }

  // ── the ten-character encoder ────────────────────────────────────────────

  /** The guards against the poles and the antimeridian. */
  function Clamped(x: real, top: real): real
    requires top > 1.0
  {
    var y := if x <= 0.0 then 0.0001 else x;
    if y >= top then top - 0.0001 else y
  }

  function LonDigits(lon: real): Digits {
    var field := lon.Floor / 20;
    var lonRem := lon - (field * 20) as real;
    var square := lonRem.Floor / 2;
    var lonSub := lonRem - (square * 2) as real;
    var sub := (lonSub * 12.0).Floor;
    var lonExt := (lonSub - sub as real / 12.0) * 12.0;
    var ext := (lonExt * 10.0).Floor;
    var lonExt2 := (lonExt - ext as real / 10.0) * 10.0;
    Digits(field, square, sub, ext, (lonExt2 * 24.0).Floor)
  }

  function LatDigits(lat: real): Digits {
    var field := lat.Floor / 10;
    var latRem := lat - (field * 10) as real;
    var square := latRem.Floor;
    var latSub := latRem - square as real;
    var sub := (latSub * 24.0).Floor;
    var latExt := (latSub - sub as real / 24.0) * 24.0;
    var ext := (latExt * 10.0).Floor;
    var latExt2 := (latExt - ext as real / 10.0) * 10.0;
    Digits(field, square, sub, ext, (latExt2 * 24.0).Floor)
  }

  /** The character d places after a base; Go writes U+FFFD for what is none. */
  function Rune(base: char, d: int): char {
    var code := base as int + d;
    if 0 <= code < 0xD800 then code as char else '\U{FFFD}'
  }

  function Interleaved(lon: Digits, lat: Digits, letter: char): string {
    [Rune('A', lon.field), Rune('A', lat.field), Rune('0', lon.square), Rune('0', lat.square),
     Rune(letter, lon.sub), Rune(letter, lat.sub), Rune('0', lon.ext), Rune('0', lat.ext),
     Rune(letter, lon.further), Rune(letter, lat.further)]
  }

  function LonCell(lon: real): Digits { LonDigits(Clamped(lon + 180.0, 360.0)) }

  function LatCell(lat: real): Digits { LatDigits(Clamped(lat + 90.0, 180.0)) }

  /** `latLonToGrid` of the GPS client. */
  function TenCharacters(lat: real, lon: real): string {
    Upper(Interleaved(LonCell(lon), LatCell(lat), 'a'))
  }

  lemma LatDigitsHold(y: real)
    requires 0.0 <= y < 180.0
    ensures Holds(LatDigits(y), y)
  {
    var d := LatDigits(y);
    var latRem := y - (d.field * 10) as real;
    assert 0 <= y.Floor - 10 * d.field < 10;
    assert 0.0 <= latRem < 10.0;
    var latSub := latRem - d.square as real;
    assert 0.0 <= latSub < 1.0;
    var latExt := (latSub - d.sub as real / 24.0) * 24.0;
    assert 0.0 <= latExt < 1.0;
    var latExt2 := (latExt - d.ext as real / 10.0) * 10.0;
    assert 0.0 <= latExt2 < 1.0;
    var rest := latExt2 * 24.0 - d.further as real;
    assert 0.0 <= rest < 1.0;
    assert 5760.0 * y == Index(d) as real + rest;
  }

  lemma LonDigitsHold(x: real)
    requires 0.0 <= x < 360.0
    ensures Holds(LonDigits(x), x / 2.0)
  {
    var d := LonDigits(x);
    var lonRem := x - (d.field * 20) as real;
    assert 0 <= x.Floor - 20 * d.field < 20;
    assert 0.0 <= lonRem < 20.0;
    assert 0 <= lonRem.Floor - 2 * d.square < 2;
    var lonSub := lonRem - (d.square * 2) as real;
    assert 0.0 <= lonSub < 2.0;
    var lonExt := (lonSub - d.sub as real / 12.0) * 12.0;
    assert 0.0 <= lonExt < 1.0;
    var lonExt2 := (lonExt - d.ext as real / 10.0) * 10.0;
    assert 0.0 <= lonExt2 < 1.0;
    var rest := lonExt2 * 24.0 - d.further as real;
    assert 0.0 <= rest < 1.0;
    assert 5760.0 * (x / 2.0) == Index(d) as real + rest;
  }

  lemma FirstAndLastCell(d: Digits, y: real)
    requires Holds(d, y)
    ensures y < 1.0 / 5760.0 ==> Holds(d, 0.0)
    ensures y >= 180.0 - 1.0 / 5760.0 ==> Index(d) >= 1036799
  {
  }

  lemma LatCellHolds(lat: real)
    ensures InRadix(LatCell(lat))
    ensures -90.0 <= lat < 90.0 ==> Holds(LatCell(lat), lat + 90.0)
    ensures lat >= 90.0 ==> Index(LatCell(lat)) == 1036799
  {
    hide LatDigits, Index;
    var y := Clamped(lat + 90.0, 180.0);
    LatDigitsHold(y);
    FirstAndLastCell(LatCell(lat), y);
    RangeOfIndex(LatCell(lat));
    assert -90.0 < lat < 90.0 ==> y == lat + 90.0;
    assert lat >= 90.0 ==> y == 179.9999;
    assert lat == -90.0 ==> lat + 90.0 == 0.0;
    hide InRadix, Holds;
  }

  lemma LonCellHolds(lon: real)
    ensures InRadix(LonCell(lon))
    ensures -180.0 <= lon < 180.0 ==> Holds(LonCell(lon), (lon + 180.0) / 2.0)
    ensures lon >= 180.0 ==> Index(LonCell(lon)) == 1036799
  {
    hide LonDigits, Index;
    var x := Clamped(lon + 180.0, 360.0);
    LonDigitsHold(x);
    FirstAndLastCell(LonCell(lon), x / 2.0);
    RangeOfIndex(LonCell(lon));
    assert -180.0 < lon < 180.0 ==> x == lon + 180.0;
    assert lon >= 180.0 ==> x == 359.9999;
    assert lon == -180.0 ==> (lon + 180.0) / 2.0 == 0.0;
    hide InRadix, Holds;
  }

  /** Whatever the coordinates, the encoder writes digits of their radix, and
      inside the coordinate range those of the cell that holds the point. */
  lemma EncoderNamesTheCell(lat: real, lon: real)
    ensures InRadix(LatCell(lat)) && InRadix(LonCell(lon))
    ensures -90.0 <= lat < 90.0 ==> Holds(LatCell(lat), lat + 90.0)
    ensures -180.0 <= lon < 180.0 ==> Holds(LonCell(lon), (lon + 180.0) / 2.0)
    ensures lat >= 90.0 ==> Index(LatCell(lat)) == 1036799
    ensures lon >= 180.0 ==> Index(LonCell(lon)) == 1036799
  {
    hide *;
    LatCellHolds(lat);
    LonCellHolds(lon);
  }

  lemma WrittenInCapitals(lat: real, lon: real)
    ensures TenCharacters(lat, lon) == Interleaved(LonCell(lon), LatCell(lat), 'A')
  {
    hide LonCell, LatCell;
    EncoderNamesTheCell(lat, lon);
    var raw, out := Interleaved(LonCell(lon), LatCell(lat), 'a'), Interleaved(LonCell(lon), LatCell(lat), 'A');
    forall i | 0 <= i < 10
      ensures UpperChar(raw[i]) == out[i]
    {
    }
  }

  // ── the decoder ──────────────────────────────────────────────────────────

  datatype Position =
    | Located(lat: real, lon: real)
    | TooShort | BadField | BadSquare | BadSubsquare | BadExtended | BadFurther

  predicate Field(c: char) { 'A' <= c <= 'R' }

  predicate Square(c: char) { '0' <= c <= '9' }

  predicate Subsquare(c: char) { 'A' <= c <= 'X' }

  function GridToLatLon(text: string): Position {
    var grid := Upper(Trim(text));
    if |grid| < 4 then TooShort
    else if !Field(grid[0]) || !Field(grid[1]) then BadField
    else if !Square(grid[2]) || !Square(grid[3]) then BadSquare
    else if |grid| >= 6 && (!Subsquare(grid[4]) || !Subsquare(grid[5])) then BadSubsquare
    else if |grid| >= 8 && (!Square(grid[6]) || !Square(grid[7])) then BadExtended
    else if |grid| >= 10 && (!Subsquare(grid[8]) || !Subsquare(grid[9])) then BadFurther
    else Centre(grid)
  }

  /** How far a text gets: letters A-R, two decimals, letters A-X, two decimals, letters
      A-X, of which the last three pairs may be missing. An odd character at the end
      counts for nothing, and neither do blanks around, case, or more than ten. */
  lemma AcceptedTexts(text: string)
    ensures var grid := Upper(Trim(text));
      && (GridToLatLon(text) == TooShort <==> |grid| < 4)
      && (GridToLatLon(text).Located? <==>
            |grid| >= 4 && InRadix(ReadDigits(grid, 0)) && InRadix(ReadDigits(grid, 1)))
      && (GridToLatLon(text) == BadField <==> |grid| >= 4 && !PairIn(grid, 0, 'A', 18))
      && (GridToLatLon(text) == BadSquare <==>
            |grid| >= 4 && PairIn(grid, 0, 'A', 18) && !PairIn(grid, 2, '0', 10))
      && (GridToLatLon(text) == BadSubsquare <==>
            |grid| >= 6 && PairIn(grid, 0, 'A', 18) && PairIn(grid, 2, '0', 10) && !PairIn(grid, 4, 'A', 24))
      && (GridToLatLon(text) == BadExtended <==>
            && |grid| >= 8 && PairIn(grid, 0, 'A', 18) && PairIn(grid, 2, '0', 10) && PairIn(grid, 4, 'A', 24)
            && !PairIn(grid, 6, '0', 10))
  {
    hide Trim, Upper, Centre;
  }

  /** The pair of characters at a place are digits of a radix, counted from a base. */
  predicate PairIn(grid: string, at: nat, base: char, radix: int)
    requires at + 1 < |grid|
  {
    0 <= grid[at] as int - base as int < radix && 0 <= grid[at + 1] as int - base as int < radix
  }

  function Offset(c: char, base: char): real { (c as int - base as int) as real }

  /** The centre of the cell the first 4, 6, 8 or 10 characters name. */
  function Centre(grid: string): (p: Position)
    requires |grid| >= 4
    ensures p.Located?
  {
    var lon4 := Offset(grid[0], 'A') * 20.0 - 180.0 + Offset(grid[2], '0') * 2.0;
    var lat4 := Offset(grid[1], 'A') * 10.0 - 90.0 + Offset(grid[3], '0') * 1.0;
    if |grid| < 6 then Located(lat4 + 0.5, lon4 + 1.0)
    else
      var lon6 := lon4 + Offset(grid[4], 'A') * (5.0 / 60.0);
      var lat6 := lat4 + Offset(grid[5], 'A') * (2.5 / 60.0);
      if |grid| < 8 then Located(lat6 + 1.25 / 60.0, lon6 + 2.5 / 60.0)
      else
        var lon8 := lon6 + Offset(grid[6], '0') * (0.5 / 60.0);
        var lat8 := lat6 + Offset(grid[7], '0') * (0.25 / 60.0);
        if |grid| < 10 then Located(lat8 + 0.125 / 60.0, lon8 + 0.25 / 60.0)
        else
          var lon10 := lon8 + Offset(grid[8], 'A') * (0.5 / 60.0 / 24.0);
          var lat10 := lat8 + Offset(grid[9], 'A') * (0.25 / 60.0 / 24.0);
          Located(lat10 + 0.25 / 60.0 / 48.0, lon10 + 0.5 / 60.0 / 48.0)
  }

  /** How many characters of the text the decoder uses. */
  function Used(grid: string): int {
    if |grid| >= 10 then 10 else if |grid| >= 8 then 8 else if |grid| >= 6 then 6 else 4
  }

  /** The digits of one axis, the unused ones zero. */
  function ReadDigits(grid: string, axis: int): Digits
    requires |grid| >= 4 && 0 <= axis <= 1
  {
    var n := Used(grid);
    Digits(grid[axis] as int - 'A' as int,
           grid[2 + axis] as int - '0' as int,
           if n >= 6 then grid[4 + axis] as int - 'A' as int else 0,
           if n >= 8 then grid[6 + axis] as int - '0' as int else 0,
           if n >= 10 then grid[8 + axis] as int - 'A' as int else 0)
  }

  /** Half a cell of the decoded precision, in finest cells. */
  function HalfCell(used: int): real {
    if used >= 10 then 0.5 else if used >= 8 then 12.0 else if used >= 6 then 120.0 else 2880.0
  }

  lemma CentreInCells(text: string)
    requires GridToLatLon(text).Located?
    ensures var grid := Upper(Trim(text));
      && |grid| >= 4 && InRadix(ReadDigits(grid, 0)) && InRadix(ReadDigits(grid, 1))
      && 5760.0 * (GridToLatLon(text).lat + 90.0) == Index(ReadDigits(grid, 1)) as real + HalfCell(Used(grid))
      && 2880.0 * (GridToLatLon(text).lon + 180.0) == Index(ReadDigits(grid, 0)) as real + HalfCell(Used(grid))
  {
    hide Upper, Trim;
  }

  predicate SameFirst(d: Digits, e: Digits, used: int) {
    && d.field == e.field && d.square == e.square
    && (used >= 6 ==> d.sub == e.sub)
    && (used >= 8 ==> d.ext == e.ext)
    && (used >= 10 ==> d.further == e.further)
  }

  lemma CentreStaysInItsCell(d: Digits, e: Digits, used: int, y: real)
    requires InRadix(d) && Holds(e, y) && used in {4, 6, 8, 10}
    requires used < 10 ==> d.further == 0
    requires used < 8 ==> d.ext == 0
    requires used < 6 ==> d.sub == 0
    requires 5760.0 * y == Index(d) as real + HalfCell(used)
    ensures SameFirst(d, e, used)
  {
    CoarseDigitsAreFixed(d, e);
    var h := if used == 10 then 0 else if used == 8 then 12 else if used == 6 then 120 else 2880;
    assert Index(e) == Index(d) + h;
  }

  /** Encoding the centre of any accepted locator, at any of the four precisions,
      gives the locator's own characters back. */
  lemma CentreComesBack(text: string)
    requires GridToLatLon(text).Located?
    ensures var grid, p := Upper(Trim(text)), GridToLatLon(text);
      |grid| >= Used(grid) && TenCharacters(p.lat, p.lon)[..Used(grid)] == grid[..Used(grid)]
  {
    var grid, p := Upper(Trim(text)), GridToLatLon(text);
    CentreInCells(text);
    EncoderNamesTheCell(p.lat, p.lon);
    WrittenInCapitals(p.lat, p.lon);
    var lat, lon := LatCell(p.lat), LonCell(p.lon);
    RangeOfIndex(ReadDigits(grid, 0));
    RangeOfIndex(ReadDigits(grid, 1));
    CentreStaysInItsCell(ReadDigits(grid, 1), lat, Used(grid), p.lat + 90.0);
    CentreStaysInItsCell(ReadDigits(grid, 0), lon, Used(grid), (p.lon + 180.0) / 2.0);
    LettersComeBack(grid, lon, lat);
  }

  lemma RangeOfIndex(d: Digits)
    requires InRadix(d)
    ensures 0 <= Index(d) <= 1036799
    ensures d.further == 0 ==> Index(d) <= 1036776
    ensures d.further == 0 && d.ext == 0 ==> Index(d) <= 1036560
    ensures d.further == 0 && d.ext == 0 && d.sub == 0 ==> Index(d) <= 1031040
  {
  }

  lemma LettersComeBack(grid: string, lon: Digits, lat: Digits)
    requires |grid| >= 4 && InRadix(lon) && InRadix(lat)
    requires SameFirst(ReadDigits(grid, 0), lon, Used(grid)) && SameFirst(ReadDigits(grid, 1), lat, Used(grid))
    ensures |grid| >= Used(grid) && Interleaved(lon, lat, 'A')[..Used(grid)] == grid[..Used(grid)]
  {
    var out := Interleaved(lon, lat, 'A');
    assert out[0] == grid[0] && out[1] == grid[1] && out[2] == grid[2] && out[3] == grid[3];
    if Used(grid) >= 6 { assert out[4] == grid[4] && out[5] == grid[5]; }
    if Used(grid) >= 8 { assert out[6] == grid[6] && out[7] == grid[7]; }
    if Used(grid) >= 10 { assert out[8] == grid[8] && out[9] == grid[9]; }
  }

  lemma CapitalsAreKept(lon: Digits, lat: Digits)
    requires InRadix(lon) && InRadix(lat)
    ensures var out := Interleaved(lon, lat, 'A');
      Upper(Trim(out)) == out && ReadDigits(out, 0) == lon && ReadDigits(out, 1) == lat
  {
    var out := Interleaved(lon, lat, 'A');
    forall i | 0 <= i < 10
      ensures UpperChar(out[i]) == out[i] && !IsBlank(out[i])
    {
    }
    assert Trim(out) == out;
  }

  lemma CentreOfTheWrittenCell(lat: real, lon: real)
    ensures var p, la, lo := GridToLatLon(TenCharacters(lat, lon)), LatCell(lat), LonCell(lon);
      && p.Located?
      && 5760.0 * (p.lat + 90.0) == Index(la) as real + 0.5
      && 2880.0 * (p.lon + 180.0) == Index(lo) as real + 0.5
  {
    hide LonCell, LatCell, TenCharacters;
    EncoderNamesTheCell(lat, lon);
    WrittenInCapitals(lat, lon);
    CapitalsAreKept(LonCell(lon), LatCell(lat));
    var out := Interleaved(LonCell(lon), LatCell(lat), 'A');
    assert |out| == 10 && GridToLatLon(out).Located? by { hide Trim, Upper; }
    hide GridToLatLon, Interleaved, Upper, Trim, ReadDigits, InRadix, Index;
    CentreInCells(out);
  }

  /** For every point of the closed coordinate range the decoded centre of its
      locator lies within half a cell: 1/5760 degree of longitude, 1/11520 of
      latitude. */
  lemma CentreIsWithinHalfACell(lat: real, lon: real)
    requires -90.0 <= lat <= 90.0 && -180.0 <= lon <= 180.0
    ensures var p := GridToLatLon(TenCharacters(lat, lon));
      && p.Located?
      && -1.0 / 11520.0 <= p.lat - lat <= 1.0 / 11520.0 && -1.0 / 5760.0 <= p.lon - lon <= 1.0 / 5760.0
  {
    hide LonCell, LatCell, TenCharacters, GridToLatLon, InRadix, Index;
    EncoderNamesTheCell(lat, lon);
    CentreOfTheWrittenCell(lat, lon);
  }

  // ── the shorter encoders ─────────────────────────────────────────────────

  /** `math.Mod` of a non-negative x. */
  function Modulo(x: real, m: int): real
    requires m > 0
  {
    x - (m * (x / m as real).Floor) as real
  }

  /** `LatLonToGrid`: field and square. */
  function FourCharacters(lat: real, lon: real): string
    requires -90.0 <= lat <= 90.0 && -180.0 <= lon <= 180.0
  {
    var x, y := lon + 180.0, lat + 90.0;
    [Rune('A', (x / 20.0).Floor), Rune('A', (y / 10.0).Floor),
     Rune('0', (Modulo(x, 20) / 2.0).Floor), Rune('0', Modulo(y, 10).Floor)]
  }

  /** `maidenhead6` of the reference importer; empty outside the range. */
  function SixCharacters(lat: real, lon: real): string {
    var x, y := lon + 180.0, lat + 90.0;
    if x < 0.0 || x > 360.0 || y < 0.0 || y > 180.0 then ""
    else
      var flon, flat := (x / 20.0).Floor, (y / 10.0).Floor;
      var qlon, qlat := (x / 2.0).Floor % 10, y.Floor % 10;
      var remLon := x - (flon * 20 + qlon * 2) as real;
      var remLat := y - (flat * 10 + qlat) as real;
      var slon, slat := AtMost23((remLon * 60.0 / 5.0).Floor), AtMost23((remLat * 60.0 / 2.5).Floor);
      Upper([Rune('A', flon), Rune('A', flat), Rune('0', qlon), Rune('0', qlat), Rune('a', slon), Rune('a', slat)])
  }

  function AtMost23(n: int): int { if n > 23 then 23 else n }

  lemma FloorIs(x: real, k: int)
    requires k as real <= x < k as real + 1.0
    ensures x.Floor == k
  {
  }

  /** The coarse digits of an axis, computed directly from a point in the cell. */
  lemma CoarseDigits(d: Digits, y: real)
    requires Holds(d, y)
    ensures (y / 10.0).Floor == d.field && y.Floor == 10 * d.field + d.square
    ensures ((y - (10 * d.field + d.square) as real) * 24.0).Floor == d.sub
    ensures (y - (10 * d.field) as real).Floor == d.square
  {
    FloorIs(y / 10.0, d.field);
    FloorIs(y, 10 * d.field + d.square);
    FloorIs((y - (10 * d.field + d.square) as real) * 24.0, d.sub);
    FloorIs(y - (10 * d.field) as real, d.square);
  }

  lemma LonCoarseDigits(d: Digits, x: real)
    requires Holds(d, x / 2.0)
    ensures (x / 20.0).Floor == d.field && (Modulo(x, 20) / 2.0).Floor == d.square
    ensures (x / 2.0).Floor % 10 == d.square
    ensures ((x - (d.field * 20 + d.square * 2) as real) * 60.0 / 5.0).Floor == d.sub
  {
    CoarseDigits(d, x / 2.0);
    var field := d.field;
    assert InRadix(d);
    hide Holds, InRadix;
    assert x / 20.0 == x / 2.0 / 10.0 && 20 as real == 20.0;
    assert Modulo(x, 20) / 2.0 == x / 2.0 - (10 * field) as real;
    assert (x - (d.field * 20 + d.square * 2) as real) * 60.0 / 5.0
        == (x / 2.0 - (10 * d.field + d.square) as real) * 24.0;
  }

  lemma LatCoarseDigits(d: Digits, y: real)
    requires Holds(d, y)
    ensures (y / 10.0).Floor == d.field && Modulo(y, 10).Floor == d.square && y.Floor % 10 == d.square
    ensures ((y - (d.field * 10 + d.square) as real) * 60.0 / 2.5).Floor == d.sub
  {
    CoarseDigits(d, y);
    assert InRadix(d);
    hide Holds, InRadix;
    assert 10 as real == 10.0;
    assert Modulo(y, 10) == y - (10 * d.field) as real;
    assert (y - (d.field * 10 + d.square) as real) * 60.0 / 2.5
        == (y - (10 * d.field + d.square) as real) * 24.0;
  }

  lemma CellCoarseDigits(lat: real, lon: real)
    requires -90.0 <= lat < 90.0 && -180.0 <= lon < 180.0
    ensures var x, d := lon + 180.0, LonCell(lon);
      && (x / 20.0).Floor == d.field && (Modulo(x, 20) / 2.0).Floor == d.square
      && (x / 2.0).Floor % 10 == d.square
      && ((x - (d.field * 20 + d.square * 2) as real) * 60.0 / 5.0).Floor == d.sub < 24
    ensures var y, d := lat + 90.0, LatCell(lat);
      && (y / 10.0).Floor == d.field && Modulo(y, 10).Floor == d.square && y.Floor % 10 == d.square
      && ((y - (d.field * 10 + d.square) as real) * 60.0 / 2.5).Floor == d.sub < 24
  {
    hide LonCell, LatCell, Holds, Modulo;
    EncoderNamesTheCell(lat, lon);
    LonCoarseDigits(LonCell(lon), lon + 180.0);
    LatCoarseDigits(LatCell(lat), lat + 90.0);
  }

  lemma FourDigitsAgree(lat: real, lon: real)
    requires -90.0 <= lat < 90.0 && -180.0 <= lon < 180.0
    ensures FourCharacters(lat, lon) == TenCharacters(lat, lon)[..4]
  {
    hide LonCell, LatCell, TenCharacters, Modulo, Rune;
    WrittenInCapitals(lat, lon);
    CellCoarseDigits(lat, lon);
  }

  lemma SixDigitsAgree(lat: real, lon: real)
    requires -90.0 <= lat < 90.0 && -180.0 <= lon < 180.0
    ensures SixCharacters(lat, lon) == TenCharacters(lat, lon)[..6]
  {
    hide LonCell, LatCell, Modulo, Rune;
    CellCoarseDigits(lat, lon);
    var lo, la := LonCell(lon), LatCell(lat);
    var raw := [Rune('A', lo.field), Rune('A', la.field), Rune('0', lo.square), Rune('0', la.square),
                Rune('a', lo.sub), Rune('a', la.sub)];
    assert SixCharacters(lat, lon) == Upper(raw);
    assert raw == Interleaved(lo, la, 'a')[..6];
  }

  /** On the closed coordinate range the two shorter locators are prefixes of the
      ten-character one exactly off the north pole and the antimeridian, where
      they leave the alphabet and write the field S. */
  lemma ShorterLocatorsArePrefixes(lat: real, lon: real)
    requires -90.0 <= lat <= 90.0 && -180.0 <= lon <= 180.0
    ensures |TenCharacters(lat, lon)| == 10
    ensures FourCharacters(lat, lon) == TenCharacters(lat, lon)[..4] <==> lat < 90.0 && lon < 180.0
    ensures SixCharacters(lat, lon) == TenCharacters(lat, lon)[..6] <==> lat < 90.0 && lon < 180.0
  {
    hide TenCharacters, FourCharacters, SixCharacters;
    TenStayInTheAlphabet(lat, lon);
    if lat < 90.0 && lon < 180.0 {
      FourDigitsAgree(lat, lon);
      SixDigitsAgree(lat, lon);
    } else {
      BeyondTheAlphabet(lat, lon);
    }
  }

  /** The six-character encoder gives up outside the coordinate range. */
  lemma SixCharactersNeedTheRange(lat: real, lon: real)
    ensures SixCharacters(lat, lon) == "" <==> !(-90.0 <= lat <= 90.0 && -180.0 <= lon <= 180.0)
  {
    hide Rune;
  }

  lemma TenStayInTheAlphabet(lat: real, lon: real)
    ensures var out := TenCharacters(lat, lon);
      |out| == 10 && Field(out[0]) && Field(out[1])
  {
    hide LonCell, LatCell;
    EncoderNamesTheCell(lat, lon);
    WrittenInCapitals(lat, lon);
  }

  lemma BeyondTheAlphabet(lat: real, lon: real)
    requires -90.0 <= lat <= 90.0 && -180.0 <= lon <= 180.0
    ensures |FourCharacters(lat, lon)| == 4 && |SixCharacters(lat, lon)| == 6
    ensures lat == 90.0 ==> FourCharacters(lat, lon)[1] == 'S' && SixCharacters(lat, lon)[1] == 'S'
    ensures lon == 180.0 ==> FourCharacters(lat, lon)[0] == 'S' && SixCharacters(lat, lon)[0] == 'S'
  {
    FloorIs(180.0 / 10.0, 18);
    FloorIs(360.0 / 20.0, 18);
    hide Modulo;
  }
}
