/** What of a contact reaches the Wavelog server: the columns a PATCH carries, the
    columns only the first upload carries, and what the server then holds. */
module WavelogPayload {
  import opened Common
  import opened Text
  import opened Contact

  /** The columns of a PATCH, in the form the API gets them. */
  datatype Payload = Payload(
    call: string, band: string, mode: string, date: string, time: string,
    report: string, grid: string, name: string, qth: string, iota: string,
    cqZone: int, ituZone: int, hertz: int)

  /** The columns the first upload carries and no PATCH. */
  datatype Extras = Extras(
    submode: string, qslRcvd: string, lotwRcvd: string, eqslRcvd: string, contestAdifId: string, session: string)

  /** The server's copy of a contact, as far as it comes from the log. */
  datatype RemoteCopy = RemoteCopy(patched: Payload, extras: Extras)

  /** The canonical mode: MFSK with a submode goes by the submode. */
  function SentMode(q: Qso): string {
    if EqualFold(q.mode, "MFSK") && q.submode != "" then q.submode else q.mode
  }

  /** `StripNonDigits`. */
  function DigitsOf(s: string): (d: string)
    ensures AllDigits(d)
  {
    if s == "" then "" else (if IsDigit(s[0]) then [s[0]] else "") + DigitsOf(s[1..])
  }

  function SixDigits(time: string): string {
    var d := DigitsOf(time);
    if |d| >= 6 then d[..6] else d + Repeat('0', 6 - |d|)
  }

  /** 0, which clears the remote zone, for a text without a number that fits. */
  function ZoneNumber(zone: string): int {
    var n := Value(DigitsOf(zone));
    if n <= 0x7FFF_FFFF_FFFF_FFFF then n else 0
  }

  /** Whole hertz; 0 clears the remote frequency. */
  function Hertz(freq: real): int {
    var n := Round(freq * 1000000.0);
    if n <= 0 then 0 else n
  }

  /** `buildUpdateInput`: no country, no entity, no source, no confirmations, no
      contest, no sideband, no session and no station. */
  function PatchOf(q: Qso): Payload {
    Payload(q.call, q.band, SentMode(q), q.qsoDate, SixDigits(q.timeOn),
            q.report, q.gridSquare, q.name, q.qth, q.iota,
            ZoneNumber(q.cqZone), ZoneNumber(q.ituZone), Hertz(q.freq))
  }

  function ExtrasOf(q: Qso): Extras {
    Extras(if EqualFold(q.submode, SentMode(q)) then "" else q.submode,
           q.qslRcvd, q.lotwRcvd, q.eqslRcvd, q.contestAdifId, q.session)
  }

  /** A copy that agrees with the contact in every column. */
  function Image(q: Qso): RemoteCopy { RemoteCopy(PatchOf(q), ExtrasOf(q)) }

  // ── the first upload ─────────────────────────────────────────────────────

  /** The zone the first upload sends; unlike a PATCH it parses the whole text, and
      it sends nothing (0) for a text that is no positive number. */
  function UploadedZone(zone: string): int {
    var z := Trim(zone);
    var digits := if z != "" && z[0] == '+' then z[1..] else z;
    if digits == "" || !AllDigits(digits) then 0
    else if Value(digits) <= 0x7FFF_FFFF_FFFF_FFFF then Value(digits) else 0
  }

  /** What the server puts by itself into columns an upload leaves out, such as the
      zones it computes or the power of the station profile; `report`, one column
      for many, is None where the server takes it as sent. */
  datatype Fill = Fill(report: Option<string>, grid: string, name: string, qth: string, iota: string,
                       cqZone: int, ituZone: int, hertz: int)

  /** A server that keeps such columns empty. */
  const NOTHING := Fill(None, "", "", "", "", 0, 0, 0)

  function OrElse(sent: string, filled: string): string { if sent != "" then sent else filled }

  function NumberOrElse(sent: int, filled: int): int { if sent > 0 then sent else filled }

  /** What the first upload of a contact leaves on the server: the columns it sends,
      and the server's own values in the others. */
  function Uploaded(q: Qso, fill: Fill): RemoteCopy {
    var sent := PatchOf(q);
    RemoteCopy(
      sent.(report := if fill.report.Some? then fill.report.value else q.report,
            grid := OrElse(q.gridSquare, fill.grid), name := OrElse(q.name, fill.name),
            qth := OrElse(q.qth, fill.qth), iota := OrElse(q.iota, fill.iota),
            cqZone := NumberOrElse(UploadedZone(q.cqZone), fill.cqZone),
            ituZone := NumberOrElse(UploadedZone(q.ituZone), fill.ituZone),
            hertz := NumberOrElse(sent.hertz, fill.hertz)),
      ExtrasOf(q))
  }

  predicate ZoneTaken(zone: string, filled: int) {
    UploadedZone(zone) > 0 || filled == ZoneNumber(zone)
  }

  /** The server's own values change nothing a PATCH of the row would bring. */
  predicate TakenAsSent(q: Qso, fill: Fill) {
    && (fill.report.None? || fill.report.value == q.report)
    && (q.gridSquare != "" || fill.grid == "") && (q.name != "" || fill.name == "")
    && (q.qth != "" || fill.qth == "") && (q.iota != "" || fill.iota == "")
    && ZoneTaken(q.cqZone, fill.cqZone) && ZoneTaken(q.ituZone, fill.ituZone)
    && (Hertz(q.freq) > 0 || fill.hertz == 0)
  }

  lemma {:induction false} DigitsOfDigits(s: string)
    requires AllDigits(s)
    ensures DigitsOf(s) == s
  {
    if s == "" {
    } else {
      DigitsOfDigits(s[1..]);
    }
  }

  lemma {:induction false} DigitsInTwoParts(a: string, b: string)
    ensures DigitsOf(a + b) == DigitsOf(a) + DigitsOf(b)
  {
    if a == "" {
      assert a + b == b;
    } else {
      assert (a + b)[0] == a[0] && (a + b)[1..] == a[1..] + b;
      DigitsInTwoParts(a[1..], b);
    }
  }

  lemma {:induction false} LeftBlanksAreNoDigits(s: string)
    ensures DigitsOf(TrimLeft(s)) == DigitsOf(s)
  {
    if s != "" && IsBlank(s[0]) {
      LeftBlanksAreNoDigits(s[1..]);
    } else {
    }
  }

  lemma {:induction false} RightBlanksAreNoDigits(s: string)
    ensures DigitsOf(TrimRight(s)) == DigitsOf(s)
  {
    if s != "" && IsBlank(s[|s| - 1]) {
      var init := s[..|s| - 1];
      RightBlanksAreNoDigits(init);
      DigitsInTwoParts(init, [s[|s| - 1]]);
      assert s == init + [s[|s| - 1]];
    } else {
    }
  }

  /** A zone the first upload sends is the one a PATCH sends. */
  lemma SentZonesAgree(zone: string)
    requires UploadedZone(zone) > 0
    ensures UploadedZone(zone) == ZoneNumber(zone)
  {
    var z := Trim(zone);
    LeftBlanksAreNoDigits(zone);
    RightBlanksAreNoDigits(TrimLeft(zone));
    if z[0] == '+' {
      DigitsOfDigits(z[1..]);
      assert DigitsOf(z) == "" + DigitsOf(z[1..]) == DigitsOf(z[1..]);
    } else {
      DigitsOfDigits(z);
    }
  }

  /** After the first upload a PATCH of the same row would change nothing, and the
      copy agrees in every column, exactly when the server took it as sent. */
  lemma TakenAsSentMeansInStep(q: Qso, fill: Fill)
    ensures Settled(Uploaded(q, fill).patched, PatchOf(q)) <==> TakenAsSent(q, fill)
    ensures Uploaded(q, fill) == Image(q) <==> TakenAsSent(q, fill)
  {
    if UploadedZone(q.cqZone) > 0 { SentZonesAgree(q.cqZone); }
    if UploadedZone(q.ituZone) > 0 { SentZonesAgree(q.ituZone); }
    hide UploadedZone, ZoneNumber, SixDigits, SentMode;
  }

  /** A zone text that both readings understand alike: a positive number, or no
      digit that counts. */
  predicate PlainZone(zone: string) { UploadedZone(zone) > 0 || ZoneNumber(zone) == 0 }

  /** With a server that adds nothing, only the zones can differ. */
  lemma OnlyZonesAreReadTwice(q: Qso)
    ensures TakenAsSent(q, NOTHING) <==> PlainZone(q.cqZone) && PlainZone(q.ituZone)
  {
    hide UploadedZone, ZoneNumber, Hertz;
  }

  /** "CQ15" is sent by a PATCH and not by the first upload. */
  lemma SomeZonesAreReadTwice()
    ensures UploadedZone("CQ15") == 0 && ZoneNumber("CQ15") == 15
  {
    DigitsInTwoParts("CQ", "15");
    DigitsOfDigits("15");
    assert "CQ" + "15" == "CQ15" && DigitsOf("CQ") == "";
    assert Value("15") == 10 * Value("1") + 5 && Value("1") == 1;
    assert TrimLeft("CQ15") == "CQ15" && TrimRight("CQ15") == "CQ15";
    assert 'C' in "CQ15";
    hide DigitsOf, Value, Trim;
  }

  // ── what a PATCH leaves ──────────────────────────────────────────────────

  /** What a PATCH leaves: identity columns are overwritten but never cleared, date
      and time go together, everything else is replaced, empty values included. */
  function Patched(p: Payload, sent: Payload): Payload {
    sent.(call := if sent.call != "" then sent.call else p.call,
         band := if sent.band != "" then sent.band else p.band,
         mode := if sent.mode != "" then sent.mode else p.mode,
         date := if sent.date != "" then sent.date else p.date,
         time := if sent.date != "" then sent.time else p.time)
  }

  /** Pushing these columns again would change nothing. */
  predicate Settled(p: Payload, sent: Payload) { Patched(p, sent) == p }

  /** No identity column is empty. */
  predicate Complete(p: Payload) { p.call != "" && p.band != "" && p.mode != "" && p.date != "" }

  lemma PatchingSettles(p: Payload, sent: Payload)
    ensures Settled(Patched(p, sent), sent)
    ensures Settled(p, p)
  {
  }

  /** Settled is equality except for identity columns that were emptied. */
  lemma SettledIsEquality(p: Payload, sent: Payload)
    requires Complete(p)
    ensures Settled(p, sent) && Complete(sent) <==> p == sent
    ensures Complete(Patched(p, sent))
  {
  }

  /** Two rows send the same PATCH if they agree on the columns it carries, whatever
      country, entity, source, confirmations, contest, session and station they
      have, and whatever submode unless the mode is MFSK. */
  lemma OnlyTheseColumnsTravel(q: Qso, r: Qso)
    requires q.call == r.call && q.band == r.band && q.mode == r.mode && q.qsoDate == r.qsoDate
    requires q.timeOn == r.timeOn && q.report == r.report && q.gridSquare == r.gridSquare && q.name == r.name
    requires q.qth == r.qth && q.iota == r.iota && q.cqZone == r.cqZone && q.ituZone == r.ituZone && q.freq == r.freq
    requires EqualFold(q.mode, "MFSK") ==> q.submode == r.submode
    ensures PatchOf(q) == PatchOf(r)
  {
  }

  /** And each of them does: rows that send the same PATCH agree on every column it
      carries, up to the digits of time and zones and to whole hertz. */
  lemma EachOfThemTravels(q: Qso, r: Qso)
    requires PatchOf(q) == PatchOf(r)
    ensures q.call == r.call && q.band == r.band && SentMode(q) == SentMode(r) && q.qsoDate == r.qsoDate
    ensures q.report == r.report && q.gridSquare == r.gridSquare && q.name == r.name && q.qth == r.qth
    ensures q.iota == r.iota && ZoneNumber(q.cqZone) == ZoneNumber(r.cqZone)
    ensures ZoneNumber(q.ituZone) == ZoneNumber(r.ituZone)
    ensures SixDigits(q.timeOn) == SixDigits(r.timeOn) && Hertz(q.freq) == Hertz(r.freq)
  {
  }

  // ── which value reaches which column ─────────────────────────────────────

  /** The mode the server shows: in MFSK the submode stands for it. */
  predicate ModeShown(mode: string, q: Qso) {
    if EqualFold(q.mode, "MFSK") && q.submode != "" then mode == q.submode else q.mode != "" ==> mode == q.mode
  }

  /** The copy has the contact's values, each in its own column: the identity columns
      where the contact has one, all others in any case, empty ones included. */
  predicate Shows(p: Payload, q: Qso) {
    && (q.call != "" ==> p.call == q.call) && (q.band != "" ==> p.band == q.band) && ModeShown(p.mode, q)
    && (q.qsoDate != "" ==> p.date == q.qsoDate && p.time == SixDigits(q.timeOn))
    && p.report == q.report && p.grid == q.gridSquare && p.name == q.name && p.qth == q.qth && p.iota == q.iota
    && p.cqZone == ZoneNumber(q.cqZone) && p.ituZone == ZoneNumber(q.ituZone) && p.hertz == Hertz(q.freq)
  }

  /** That a PATCH would change nothing means that the copy shows the contact. */
  lemma SettledMeansShown(p: Payload, q: Qso)
    ensures Settled(p, PatchOf(q)) <==> Shows(p, q)
  {
    hide SixDigits, ZoneNumber, Hertz, EqualFold;
  }

  /** An identity column the contact leaves empty stays what it was. */
  lemma IdentityIsNeverCleared(p: Payload, q: Qso)
    ensures var r := Patched(p, PatchOf(q));
      && Shows(r, q)
      && (q.call == "" ==> r.call == p.call) && (q.band == "" ==> r.band == p.band)
      && (q.mode == "" && !EqualFold(q.mode, "MFSK") ==> r.mode == p.mode)
      && (q.qsoDate == "" ==> r.date == p.date && r.time == p.time)
  {
    PatchingSettles(p, PatchOf(q));
    SettledMeansShown(Patched(p, PatchOf(q)), q);
    hide SixDigits, ZoneNumber, Hertz, EqualFold;
  }

  /** What the first upload sends shows in the copy: the columns of a PATCH that are not
      empty, and the ones it alone carries. */
  lemma UploadShowsTheRow(q: Qso, fill: Fill)
    ensures var c := Uploaded(q, fill);
      && c.patched.call == q.call && c.patched.band == q.band && c.patched.date == q.qsoDate
      && ModeShown(c.patched.mode, q) && c.patched.time == SixDigits(q.timeOn)
      && (q.gridSquare != "" ==> c.patched.grid == q.gridSquare) && (q.name != "" ==> c.patched.name == q.name)
      && (q.qth != "" ==> c.patched.qth == q.qth) && (q.iota != "" ==> c.patched.iota == q.iota)
      && (fill.report.None? ==> c.patched.report == q.report)
      && (UploadedZone(q.cqZone) > 0 ==> c.patched.cqZone == UploadedZone(q.cqZone))
      && (UploadedZone(q.ituZone) > 0 ==> c.patched.ituZone == UploadedZone(q.ituZone))
      && (Hertz(q.freq) > 0 ==> c.patched.hertz == Hertz(q.freq))
      && c.extras.qslRcvd == q.qslRcvd && c.extras.lotwRcvd == q.lotwRcvd && c.extras.eqslRcvd == q.eqslRcvd
      && c.extras.contestAdifId == q.contestAdifId && c.extras.session == q.session
  {
    hide SixDigits, UploadedZone, Hertz, EqualFold;
  }

  /** The submode travels with the first upload unless it is the mode that was sent. */
  lemma SubmodeIsUploaded(q: Qso)
    ensures !EqualFold(q.mode, "MFSK") && !EqualFold(q.submode, q.mode) ==> ExtrasOf(q).submode == q.submode
    ensures EqualFold(q.mode, "MFSK") || EqualFold(q.submode, q.mode) ==> ExtrasOf(q).submode == ""
  {
  }

  lemma {:induction false} DigitsAreAllThatIsLeft(s: string)
    ensures forall c :: c in DigitsOf(s) <==> c in s && IsDigit(c)
    ensures (forall c | c in s :: !IsDigit(c)) ==> DigitsOf(s) == ""
  {
    if s == "" {
    } else {
      DigitsAreAllThatIsLeft(s[1..]);
      assert s == [s[0]] + s[1..];
    }
  }

  /** Always six digits: of a time in digits its first six, filled up with zeros. */
  lemma TimeInSixDigits(time: string)
    ensures |SixDigits(time)| == 6 && AllDigits(SixDigits(time))
    ensures AllDigits(time) && |time| >= 6 ==> SixDigits(time) == time[..6]
    ensures AllDigits(time) && |time| <= 6 ==> SixDigits(time) == time + Repeat('0', 6 - |time|)
  {
    var d := DigitsOf(time);
    if AllDigits(time) { DigitsOfDigits(time); }
    if |d| == 6 { assert Repeat('0', 0) == "" && d + "" == d && d[..6] == d; }
    assert forall c | c in SixDigits(time) :: c in d || c == '0';
    hide DigitsOf;
  }

  lemma DigitsAreNotTrimmed(zone: string)
    requires AllDigits(zone)
    ensures Trim(zone) == zone
    ensures zone != "" ==> Trim("+" + zone) == "+" + zone && Trim(" " + zone) == zone
  {
    if zone != "" {
      assert IsDigit(zone[0]) && IsDigit(zone[|zone| - 1]);
      assert (" " + zone)[1..] == zone;
    }
  }

  /** A number that does not fit is no zone. */
  lemma ZonesTooLarge(zone: string)
    requires AllDigits(zone) && Value(zone) > 0x7FFF_FFFF_FFFF_FFFF
    ensures ZoneNumber(zone) == 0 == UploadedZone(zone)
  {
    DigitsOfDigits(zone);
    DigitsAreNotTrimmed(zone);
    assert zone != "" ==> IsDigit(zone[0]);
    hide Trim, Value, DigitsOf;
  }

  /** A zone in digits is that number to both. The first upload also reads one behind a
      blank or a plus sign. */
  lemma ZonesInDigits(zone: string)
    requires AllDigits(zone) && Value(zone) <= 0x7FFF_FFFF_FFFF_FFFF
    ensures ZoneNumber(zone) == Value(zone) == UploadedZone(zone)
    ensures zone != "" ==> UploadedZone("+" + zone) == Value(zone) == UploadedZone(" " + zone)
  {
    DigitsOfDigits(zone);
    DigitsAreNotTrimmed(zone);
    assert ("+" + zone)[1..] == zone;
    assert zone != "" ==> IsDigit(zone[0]);
    assert Value("") == 0;
    hide Trim, Value, DigitsOf;
  }

  lemma {:induction false} ValueIsNoDebt(s: string)
    requires AllDigits(s)
    ensures Value(s) >= 0
  {
    if s == "" {
    } else {
      var n := |s| - 1;
      assert IsDigit(s[n]);
      ValueIsNoDebt(s[..n]);
    }
  }

  /** A text without a digit is no zone to either. */
  lemma NoDigitsNoZone(zone: string)
    requires forall c | c in zone :: !IsDigit(c)
    ensures ZoneNumber(zone) == 0 == UploadedZone(zone)
  {
    DigitsAreAllThatIsLeft(zone);
    if UploadedZone(zone) > 0 { SentZonesAgree(zone); }
    var z := Trim(zone);
    var digits := if z != "" && z[0] == '+' then z[1..] else z;
    if AllDigits(digits) { ValueIsNoDebt(digits); }
    hide DigitsOf, Trim;
  }

  /** Whole hertz, to the nearest; nothing for no frequency. */
  lemma HertzAreTheFrequency(freq: real)
    ensures freq <= 0.0 ==> Hertz(freq) == 0
    ensures freq > 0.0 ==> -0.5 <= Hertz(freq) as real - freq * 1000000.0 <= 0.5
    ensures Hertz(7.1) == 7100000
  {
  }
}
