/** Reading the index back: coverage, point lookups and the panel's verdict,
    and what an enrichment does to one row. */
module Verdicts {
  import opened Text
  import opened Contact
  import opened WorkedIndex
  import opened LogSteps

  datatype LogCoverage = LogCoverage(qsoCount: int, unresolvedDxcc: int, missingBand: int, missingMode: int)

  function ScanCoverage(rows: Rows): LogCoverage {
    LogCoverage(Scan(rows, TotalQsos), Scan(rows, NoDxcc), Scan(rows, NoBand), Scan(rows, NoMode))
  }

  /** From the maintained counters when all four are seeded, else by scanning. */
  function Coverage(log: Log): LogCoverage {
    var c := log.counters;
    if TotalQsos in c && NoDxcc in c && NoBand in c && NoMode in c
    then LogCoverage(c[TotalQsos], c[NoDxcc], c[NoBand], c[NoMode])
    else ScanCoverage(log.rows)
  }

  lemma CoverageIsTheScan(log: Log, derive: string -> string)
    requires Consistent(log, derive)
    ensures Coverage(log) == ScanCoverage(log.rows)
  {
    hide ValidRow, SqlFacts, Summarises, Scan;
    var c := log.counters;
    if TotalQsos in c && NoDxcc in c && NoBand in c && NoMode in c {
      assert c[TotalQsos] == Scan(log.rows, TotalQsos) && c[NoDxcc] == Scan(log.rows, NoDxcc);
      assert c[NoBand] == Scan(log.rows, NoBand) && c[NoMode] == Scan(log.rows, NoMode);
    }
  }

  /** The answer of a point lookup: the stored count of one aggregate is positive. */
  predicate WorkedAt(log: Log, k: Key) { k in log.index && log.index[k].count > 0 }

  /** `WorkedDXCC(…).Worked()`. */
  predicate WorkedDxcc(log: Log, dxcc: string, band: string, mode: string) {
    Trim(dxcc) != "" && WorkedAt(log, DxccKey(Trim(dxcc), Trim(band), Trim(mode)))
  }

  /** `WorkedCall(…).Worked()`. */
  predicate WorkedCall(log: Log, call: string, derive: string -> string) {
    derive(call) != "" && WorkedAt(log, CallKey(derive(call)))
  }

  /** `WorkedGrid(…).Worked()`. */
  predicate WorkedGrid(log: Log, grid: string) {
    var g := Upper(Trim(grid));
    |g| >= 4 && WorkedAt(log, GridKey(g[..4]))
  }

  /** An aggregate has a positive count exactly when some row belongs to it. */
  lemma WorkedMeansAMember(log: Log, derive: string -> string, k: Key)
    requires Consistent(log, derive)
    ensures WorkedAt(log, k) <==> exists id | id in log.rows :: k in SqlKeys(log.rows[id])
  {
    var t := SqlTable(log.rows);
    forall id | id in log.rows
      ensures t[id].keys == SqlKeys(log.rows[id])
    {
    }
    hide ValidRow, SqlFacts, SqlKeys;
    var g := Group(t, k);
    assert Lookup(log.index, k) == AggregateAt(t, k);
    assert k in log.index <==> g != {};
    if exists id | id in log.rows :: k in SqlKeys(log.rows[id]) {
      var id :| id in log.rows && k in SqlKeys(log.rows[id]);
      assert id in g;
    } else {
      assert forall id :: id !in g;
    }
    if g != {} { assert log.index[k].count == |g| && |g| > 0; }
  }

  /** A contact with this entity, and with this band and canonical mode where given. */
  predicate ContactWith(q: Qso, dxcc: string, band: string, mode: string) {
    q.dxcc == dxcc && (band == "" || q.band == band) && (mode == "" || SqlMode(q) == mode)
  }

  /** A level is worked exactly when a contact at that level is in the log. */
  lemma WorkedMeansAContactExists(log: Log, derive: string -> string, dxcc: string, band: string, mode: string)
    requires Consistent(log, derive)
    ensures WorkedDxcc(log, dxcc, band, mode) <==>
      Trim(dxcc) != "" && exists id | id in log.rows :: ContactWith(log.rows[id], Trim(dxcc), Trim(band), Trim(mode))
  {
    var d, b, m := Trim(dxcc), Trim(band), Trim(mode);
    var k := DxccKey(d, b, m);
    WorkedMeansAMember(log, derive, k);
    hide Trim, WorkedAt;
    if d != "" {
      forall id | id in log.rows
        ensures k in SqlKeys(log.rows[id]) <==> ContactWith(log.rows[id], d, b, m)
      {
        WhereClauseSelectsTheGroup(log.rows[id], derive, k);
      }
    }
  }

  /** A callsign is worked exactly when a contact with the same base call is. */
  lemma CallWorkedMeansAContactExists(log: Log, derive: string -> string, call: string)
    requires Consistent(log, derive)
    ensures WorkedCall(log, call, derive) <==>
      derive(call) != "" && exists id | id in log.rows :: derive(log.rows[id].call) == derive(call)
  {
    var k := CallKey(derive(call));
    WorkedMeansAMember(log, derive, k);
    hide WorkedAt;
    if derive(call) != "" {
      forall id | id in log.rows
        ensures k in SqlKeys(log.rows[id]) <==> derive(log.rows[id].call) == derive(call)
      {
        WhereClauseSelectsTheGroup(log.rows[id], derive, k);
      }
    }
  }

  /** The contact lies in the square the text starts with, in any case. */
  predicate InSquare(q: Qso, grid: string) {
    |grid| >= 4 && |q.gridSquare| >= 4 && EqualFold(q.gridSquare[..4], grid[..4])
  }

  lemma UpperIsFold(a: string, b: string)
    ensures Upper(a) == Upper(b) <==> EqualFold(a, b)
  {
    assert |a| == |Upper(a)| == |Lower(a)| && |b| == |Upper(b)| == |Lower(b)|;
    if Upper(a) == Upper(b) {
      forall i | 0 <= i < |a|
        ensures Lower(a)[i] == Lower(b)[i]
      {
        assert Upper(a)[i] == UpperChar(a[i]) && Upper(b)[i] == UpperChar(b[i]);
      }
    }
    if EqualFold(a, b) {
      forall i | 0 <= i < |a|
        ensures Upper(a)[i] == Upper(b)[i]
      {
        assert Lower(a)[i] == LowerChar(a[i]) && Lower(b)[i] == LowerChar(b[i]);
      }
    }
  }

  /** A locator is worked exactly when a contact in its four-character square is. */
  lemma GridWorkedMeansAContactExists(log: Log, derive: string -> string, grid: string)
    requires Consistent(log, derive)
    ensures WorkedGrid(log, grid) <==> exists id | id in log.rows :: InSquare(log.rows[id], Trim(grid))
  {
    var g := Trim(grid);
    if |g| >= 4 {
      var k := GridKey(Upper(g[..4]));
      assert Upper(g)[..4] == Upper(g[..4]);
      WorkedMeansAMember(log, derive, k);
      hide WorkedAt, Trim, EqualFold;
      forall id | id in log.rows
        ensures k in SqlKeys(log.rows[id]) <==> InSquare(log.rows[id], g)
      {
        var q := log.rows[id];
        SqlKeyMembers(q, k);
        if |q.gridSquare| >= 4 { UpperIsFold(q.gridSquare[..4], g[..4]); }
      }
    }
  }

  /** Eight digits of date and six of time. */
  predicate Dated(q: Qso) {
    |q.qsoDate| == 8 && |q.timeOn| == 6 && AllDigits(q.qsoDate + q.timeOn)
  }

  /** The moment of a contact as one number, YYYYMMDDHHMMSS. */
  function Moment(q: Qso): int
    requires Dated(q)
  {
    Value(q.qsoDate + q.timeOn)
  }

  function MembersOf(rows: Rows, k: Key): set<int> { set id | id in rows && k in SqlKeys(rows[id]) }

  predicate AllDated(rows: Rows, ids: set<int>) { forall id | id in ids :: id in rows && Dated(rows[id]) }

  /** No contact of the group is earlier than f or later than l. */
  predicate Spans(rows: Rows, ids: set<int>, f: int, l: int)
    requires AllDated(rows, ids)
  {
    f in ids && l in ids && forall id | id in ids :: Moment(rows[f]) <= Moment(rows[id]) <= Moment(rows[l])
  }

  lemma OrderOfStamps(p: Qso, q: Qso)
    requires Dated(p) && Dated(q)
    ensures Before(SqlStamp(p), SqlStamp(q)) <==> Moment(p) < Moment(q)
  {
    DigitsAreInNumericOrder(p.qsoDate + p.timeOn, q.qsoDate + q.timeOn);
  }

  lemma StampOfAMember(rows: Rows, k: Key, x: string) returns (id: int)
    requires x in Stamps(SqlTable(rows), k)
    ensures id in MembersOf(rows, k) && SqlStamp(rows[id]) == x
  {
    var t := SqlTable(rows);
    id :| id in t && k in t[id].keys && t[id].stamp == x;
  }

  lemma MemberHasAStamp(rows: Rows, k: Key, id: int)
    requires id in MembersOf(rows, k)
    ensures SqlStamp(rows[id]) in Stamps(SqlTable(rows), k) && id in Group(SqlTable(rows), k)
  {
    var t := SqlTable(rows);
    assert id in t && k in t[id].keys && t[id].stamp == SqlStamp(rows[id]);
  }

  lemma MembersAreTheGroup(rows: Rows, k: Key)
    ensures MembersOf(rows, k) == Group(SqlTable(rows), k)
  {
    var t := SqlTable(rows);
    assert t.Keys == rows.Keys;
    assert forall id | id in rows :: t[id].keys == SqlKeys(rows[id]);
    hide SqlTable, SqlKeys;
  }

  lemma StoredAggregate(log: Log, derive: string -> string, k: Key)
    requires Consistent(log, derive) && k in log.index
    ensures var a, stamps := log.index[k], Stamps(SqlTable(log.rows), k);
      && stamps != {} && a.first == First(stamps) && a.last == Last(stamps) && a.count == |MembersOf(log.rows, k)|
  {
    var t := SqlTable(log.rows);
    assert Lookup(log.index, k) == AggregateAt(t, k);
    MembersAreTheGroup(log.rows, k);
    StampsOfAGroup(t, k);
    hide SqlTable, MembersOf, Stamps, Group, ConfirmedIn, Classes, First, Last;
  }

  /** The stored numbers of an aggregate, in plain terms: how many contacts, how many of
      them confirmed, and, for an entity, which sources they came from. */
  lemma AggregateCountsItsContacts(log: Log, derive: string -> string, k: Key)
    requires Consistent(log, derive) && k in log.index
    ensures var a, members := log.index[k], MembersOf(log.rows, k);
      && a.count == |members|
      && a.confirmed == |set id | id in members && Confirmed(log.rows[id])|
      && a.mask == if k.DxccKey? then set id | id in members :: SourceMaskBit(log.rows[id].source) else {}
  {
    var rows, t := log.rows, SqlTable(log.rows);
    assert Lookup(log.index, k) == AggregateAt(t, k);
    assert log.index[k].confirmed == |ConfirmedIn(t, k)| && log.index[k].mask == MaskFor(k, Classes(t, k));
    StoredAggregate(log, derive, k);
    ConfirmedMembers(rows, derive, k);
    SourcesOfMembers(rows, derive, k);
    hide Consistent, SqlTable, MembersOf, ConfirmedIn, Classes, Confirmed, SourceMaskBit;
  }

  lemma FactsOfAMember(rows: Rows, derive: string -> string, id: int)
    requires ValidRows(rows, derive) && id in rows
    ensures var f := SqlTable(rows)[id];
      f.keys == SqlKeys(rows[id]) && f.confirmed == Confirmed(rows[id]) && f.classes == {SourceMaskBit(rows[id].source)}
  {
    ValidRowsAgree(rows[id], derive);
    hide SqlKeys, Confirmed, SourceMaskBit, SqlStamp;
  }

  lemma ConfirmedMembers(rows: Rows, derive: string -> string, k: Key)
    requires ValidRows(rows, derive)
    ensures ConfirmedIn(SqlTable(rows), k) == set id | id in MembersOf(rows, k) && Confirmed(rows[id])
  {
    assert SqlTable(rows).Keys == rows.Keys;
    hide SqlTable, SqlKeys, Confirmed, SourceMaskBit, ValidRows;
    forall id | id in rows { FactsOfAMember(rows, derive, id); }
  }

  lemma SourcesOfMembers(rows: Rows, derive: string -> string, k: Key)
    requires ValidRows(rows, derive)
    ensures Classes(SqlTable(rows), k) == set id | id in MembersOf(rows, k) :: SourceMaskBit(rows[id].source)
  {
    var t := SqlTable(rows);
    var sources := set id | id in MembersOf(rows, k) :: SourceMaskBit(rows[id].source);
    assert t.Keys == rows.Keys;
    hide SqlTable, SqlKeys, Confirmed, SourceMaskBit, ValidRows;
    forall id | id in rows { FactsOfAMember(rows, derive, id); }
    forall c
      ensures c in Classes(t, k) <==> c in sources
    {
      if c in Classes(t, k) {
        var id :| id in t && k in t[id].keys && c in t[id].classes;
        assert id in MembersOf(rows, k);
      }
      if c in sources {
        var id :| id in MembersOf(rows, k) && SourceMaskBit(rows[id].source) == c;
        assert id in t && k in t[id].keys && c in t[id].classes;
      }
    }
  }

  /** The stored edges of an aggregate are the date and time of its earliest and of
      its latest contact, as numbers. */
  lemma EdgesAreTheEarliestAndLatest(log: Log, derive: string -> string, k: Key) returns (f: int, l: int)
    requires Consistent(log, derive) && k in log.index && AllDated(log.rows, MembersOf(log.rows, k))
    ensures Spans(log.rows, MembersOf(log.rows, k), f, l)
    ensures log.index[k].first == log.rows[f].qsoDate + log.rows[f].timeOn
    ensures log.index[k].last == log.rows[l].qsoDate + log.rows[l].timeOn
    ensures log.index[k].count == |MembersOf(log.rows, k)|
  {
    var rows := log.rows;
    var stamps := Stamps(SqlTable(rows), k);
    StoredAggregate(log, derive, k);
    hide Consistent, SqlTable, SqlStamp, MembersOf, Stamps, Group, Dated, Moment, First, Last;
    f := StampOfAMember(rows, k, First(stamps));
    l := StampOfAMember(rows, k, Last(stamps));
    forall id | id in MembersOf(rows, k)
      ensures Moment(rows[f]) <= Moment(rows[id]) <= Moment(rows[l])
    {
      MemberHasAStamp(rows, k, id);
      OrderOfStamps(rows[id], rows[f]);
      OrderOfStamps(rows[l], rows[id]);
    }
  }

  datatype WorkedState = Unknown | New | Worked

  function Verdict(worked: bool, complete: bool): WorkedState {
    if worked then Worked else if complete then New else Unknown
  }

  predicate DxccComplete(c: LogCoverage) { c.unresolvedDxcc == 0 }

  function DxccVerdict(log: Log, dxcc: string): WorkedState {
    Verdict(WorkedDxcc(log, dxcc, "", ""), DxccComplete(Coverage(log)))
  }

  lemma NoneUnresolved(rows: Rows)
    ensures Scan(rows, NoDxcc) == 0 <==> forall id | id in rows :: rows[id].dxcc != ""
  {
    var s := set id | id in rows && Counts(rows[id], NoDxcc);
    forall id | id in rows && rows[id].dxcc == "" ensures id in s {}
    if forall id | id in rows :: rows[id].dxcc != "" { assert forall id :: id !in s; }
  }

  /** In every consistent log the verdict on an entity is the truth: WORKED,
      NEW and UNKNOWN each hold on exactly one condition on the rows. */
  lemma DxccVerdictIsTheTruth(log: Log, derive: string -> string, dxcc: string)
    requires Consistent(log, derive) && Trim(dxcc) != ""
    ensures var worked := exists id | id in log.rows :: log.rows[id].dxcc == Trim(dxcc);
            var resolved := forall id | id in log.rows :: log.rows[id].dxcc != "";
            && (DxccVerdict(log, dxcc) == Worked <==> worked)
            && (DxccVerdict(log, dxcc) == New <==> !worked && resolved)
            && (DxccVerdict(log, dxcc) == Unknown <==> !worked && !resolved)
  {
    EntityWorked(log, derive, dxcc);
    EntitiesResolved(log, derive);
  }

  lemma EntitiesResolved(log: Log, derive: string -> string)
    requires Consistent(log, derive)
    ensures DxccComplete(Coverage(log)) <==> forall id | id in log.rows :: log.rows[id].dxcc != ""
  {
    hide Consistent, Coverage, Scan;
    CoverageIsTheScan(log, derive);
    NoneUnresolved(log.rows);
  }

  lemma EntityWorked(log: Log, derive: string -> string, dxcc: string)
    requires Consistent(log, derive) && Trim(dxcc) != ""
    ensures WorkedDxcc(log, dxcc, "", "") <==> exists id | id in log.rows :: log.rows[id].dxcc == Trim(dxcc)
  {
    assert Trim("") == "";
    WorkedMeansAContactExists(log, derive, dxcc, "", "");
    hide Trim, Consistent, WorkedDxcc, WorkedAt;
    forall id | id in log.rows
      ensures ContactWith(log.rows[id], Trim(dxcc), "", "") <==> log.rows[id].dxcc == Trim(dxcc)
    {
    }
  }

  // ── enrichment of one row ────────────────────────────────────────────────

  /** A gap takes what was offered, anything else stays. */
  predicate FillsTheGap(before: string, offered: string, after: string) {
    after == if before == "" then offered else before
  }

  /** An enrichment fills exactly the empty columns, bumps the revision by one and
      owes a push exactly when some column was filled, and touches nothing else. */
  lemma EnrichmentFillsOnlyGaps(q: Qso, e: Enrichment)
    ensures var r := EnrichedRow(q, e);
      && FillsTheGap(q.name, e.name, r.name) && FillsTheGap(q.qth, e.qth, r.qth)
      && FillsTheGap(q.country, e.country, r.country) && FillsTheGap(q.gridSquare, e.gridSquare, r.gridSquare)
      && FillsTheGap(q.iota, e.iota, r.iota) && FillsTheGap(q.cqZone, e.cqZone, r.cqZone)
      && FillsTheGap(q.ituZone, e.ituZone, r.ituZone) && FillsTheGap(q.dxcc, e.dxcc, r.dxcc)
      && r.dxccSource == (if r.dxcc != q.dxcc then "callbook" else q.dxccSource)
      && r.wavelogRev == q.wavelogRev + (if r == q then 0 else 1)
      && (r != q ==> (r.wavelogDirty <==> q.wavelogDirty || q.wavelogId > 0))
      && r == q.(name := r.name, qth := r.qth, country := r.country, gridSquare := r.gridSquare, iota := r.iota,
                 cqZone := r.cqZone, ituZone := r.ituZone, dxcc := r.dxcc, dxccSource := r.dxccSource,
                 wavelogDirty := r.wavelogDirty, wavelogRev := r.wavelogRev)
  {}

  /** A row is left alone exactly when it offers no gap the callbook can fill,
      and a second identical call changes nothing. */
  lemma EnrichmentIsIdempotent(q: Qso, e: Enrichment)
    ensures EnrichedRow(EnrichedRow(q, e), e) == EnrichedRow(q, e)
    ensures EnrichedRow(q, e) == q <==>
      && (e.name == "" || q.name != "") && (e.qth == "" || q.qth != "") && (e.country == "" || q.country != "")
      && (e.gridSquare == "" || q.gridSquare != "") && (e.iota == "" || q.iota != "")
      && (e.cqZone == "" || q.cqZone != "") && (e.ituZone == "" || q.ituZone != "") && (e.dxcc == "" || q.dxcc != "")
  {}

  // ── edits of one row ─────────────────────────────────────────────────────

  /** The form leaves a status empty or repeats the stored one. */
  predicate LeavesAlone(stored: string, form: string) { form == "" || form == stored }

  /** An edit that repeats what the index is computed from, leaving entity and
      confirmations empty if it likes, contributes what the row contributed
      before, so the index is not touched. */
  lemma CommentEditKeepsTheHistory(stored: Qso, form: Qso, mark: bool, derive: string -> string)
    requires form.call == stored.call && form.qsoDate == stored.qsoDate && form.timeOn == stored.timeOn
    requires form.band == stored.band && form.mode == stored.mode && FilledSubmode(form) == stored.submode
    requires form.gridSquare == stored.gridSquare && form.source == stored.source
    requires LeavesAlone(stored.qslRcvd, form.qslRcvd) && LeavesAlone(stored.lotwRcvd, form.lotwRcvd)
    requires LeavesAlone(stored.eqslRcvd, form.eqslRcvd) && LeavesAlone(stored.dxcc, form.dxcc)
    ensures ContributionOf(EditedRow(stored, form, mark, derive), derive) == ContributionOf(stored, derive)
  {
    hide FilledSubmode, Trim, Upper, Lower, IsQslReceived, SourceMaskBit;
  }

  lemma FillingTheSidebandIsStable(q: Qso)
    ensures FilledSubmode(q.(submode := FilledSubmode(q))) == FilledSubmode(q)
  {
    assert Trim("LSB") == "LSB" && Trim("USB") == "USB";
    hide Trim, EqualFold;
  }

  /** Saving a freshly inserted contact unchanged leaves its contribution alone. */
  lemma ResavingAnInsertChangesNothing(q: Qso, mark: bool, derive: string -> string)
    ensures var row := InsertedRow(q, derive);
      ContributionOf(EditedRow(row, row, mark, derive), derive) == ContributionOf(row, derive)
  {
    var row := InsertedRow(q, derive);
    FillingTheSidebandIsStable(q);
    assert FilledSubmode(row) == row.submode by {
      hide Trim, EqualFold;
    }
    hide InsertedRow, EditedRow;
    CommentEditKeepsTheHistory(row, row, mark, derive);
  }

  /** An edit without an entity drops the stored one exactly when it changes the
      callsign by more than case. */
  lemma EntityFallsWithTheCallsign(stored: Qso, form: Qso, mark: bool, derive: string -> string)
    requires form.dxcc == "" && stored.dxcc != ""
    ensures EditedRow(stored, form, mark, derive).dxcc == "" <==>
              stored.call != "" && !EqualFold(stored.call, form.call)
    ensures EditedRow(stored, form, mark, derive).dxcc in {"", stored.dxcc}
  {
    hide EqualFold, FilledSubmode, NormalizeQslStatus, NormalizeDxccSource;
  }

  /** Normalising a confirmation keeps whether it is one, and leaves Y, N or nothing. */
  lemma NormalisedStatus(status: string)
    ensures NormalizeQslStatus(status) in {"Y", "N", ""}
    ensures IsQslReceived(NormalizeQslStatus(status)) <==> IsQslReceived(status)
    ensures NormalizeQslStatus(status) == "N" <==> Upper(Trim(status)) == "N"
  {
    assert Upper(Trim("Y")) == "Y" && Upper(Trim("N")) == "N" && Upper(Trim("")) == "";
  }

  /** An insert stores the contact as the form has it. It only normalises the three
      confirmations, fills in source, entity source, sideband and base call, and
      starts unsynchronized. */
  lemma InsertKeepsTheForm(q: Qso, derive: string -> string)
    ensures var r := InsertedRow(q, derive);
      && r == q.(source := r.source, dxccSource := r.dxccSource, submode := r.submode, baseCall := r.baseCall,
                 qslRcvd := r.qslRcvd, lotwRcvd := r.lotwRcvd, eqslRcvd := r.eqslRcvd,
                 wavelogDirty := r.wavelogDirty, wavelogRev := r.wavelogRev)
      && (IsQslReceived(r.qslRcvd) <==> IsQslReceived(q.qslRcvd))
      && (IsQslReceived(r.lotwRcvd) <==> IsQslReceived(q.lotwRcvd))
      && (IsQslReceived(r.eqslRcvd) <==> IsQslReceived(q.eqslRcvd))
      && (q.source != "" ==> r.source == q.source) && (q.source == "" ==> SourceMaskBit(r.source) == Manual)
      && r.baseCall == derive(q.call) && !r.wavelogDirty && r.wavelogRev == 0
      && (Trim(q.dxccSource) != "" ==> r.dxccSource == Trim(q.dxccSource))
      && (Trim(q.dxccSource) == "" ==> r.dxccSource == if Trim(q.dxcc) != "" then "explicit" else "unknown")
  {
    ManualIsPlain();
    NormalisedStatus(q.qslRcvd);
    NormalisedStatus(q.lotwRcvd);
    NormalisedStatus(q.eqslRcvd);
    hide Trim, NormalizeQslStatus, IsQslReceived, FilledSubmode, Lower, Contains;
  }

  /** A contact in single sideband that names no sideband gets the conventional one:
      the lower below 10 MHz, the upper from there on. Nothing else gets one. */
  lemma SidebandConvention(q: Qso)
    ensures FilledSubmode(q) != q.submode ==>
      EqualFold(Trim(q.mode), "SSB") && Trim(q.submode) == "" && FilledSubmode(q) in {"LSB", "USB"}
    ensures EqualFold(Trim(q.mode), "SSB") && Trim(q.submode) == "" && 0.0 < q.freq < 10.0 ==> FilledSubmode(q) == "LSB"
    ensures EqualFold(Trim(q.mode), "SSB") && Trim(q.submode) == "" && q.freq >= 10.0 ==> FilledSubmode(q) == "USB"
    ensures q.freq <= 0.0 ==> FilledSubmode(q) == q.submode
  {
    hide EqualFold, Trim;
  }

  /** A confirmation the form leaves empty stays, one it fills in replaces the stored. */
  predicate TakenOrKept(stored: string, form: string, after: string) {
    after == if form == "" then stored else form
  }

  /** An edit stores the form's columns. The confirmations and the entity stay where the
      form leaves them empty, the entity also needs the same callsign; the remote id is
      the stored one, and the revision rises by one. */
  lemma EditTakesTheForm(stored: Qso, q: Qso, mark: bool, derive: string -> string)
    ensures var r := EditedRow(stored, q, mark, derive);
      && r == q.(submode := r.submode, baseCall := r.baseCall, dxcc := r.dxcc, dxccSource := r.dxccSource,
                 qslRcvd := r.qslRcvd, lotwRcvd := r.lotwRcvd, eqslRcvd := r.eqslRcvd,
                 wavelogId := r.wavelogId, wavelogDirty := r.wavelogDirty, wavelogRev := r.wavelogRev)
      && r.submode == FilledSubmode(q) && r.baseCall == derive(q.call)
      && TakenOrKept(stored.qslRcvd, q.qslRcvd, r.qslRcvd) && TakenOrKept(stored.lotwRcvd, q.lotwRcvd, r.lotwRcvd)
      && TakenOrKept(stored.eqslRcvd, q.eqslRcvd, r.eqslRcvd)
      && (q.dxcc != "" ==> r.dxcc == q.dxcc && r.dxccSource == if q.dxccSource != "" then q.dxccSource else "explicit")
      && (q.dxcc == "" && EqualFold(stored.call, q.call) ==> TakenOrKept(stored.dxccSource, q.dxccSource, r.dxccSource))
      && (q.dxcc == "" && stored.call != "" && !EqualFold(stored.call, q.call) ==> r.dxcc == "" && r.dxccSource == "unknown")
      && r.wavelogId == stored.wavelogId && r.wavelogRev == stored.wavelogRev + 1
      && (r.wavelogDirty <==> mark || stored.wavelogDirty)
  {
    hide EqualFold, FilledSubmode;
  }

  /** Resolving the entity touches no other column but its source. */
  lemma ResolvingTouchesTheEntityOnly(q: Qso, dxcc: string)
    ensures var r := ResolvedRow(q, dxcc);
      r == q.(dxcc := r.dxcc, dxccSource := r.dxccSource) && r.dxcc == dxcc && r.dxccSource == "prefix"
  {
  }

  // ── rows outside the invariant ───────────────────────────────────────────

  /** A row that has a submode but no mode is indexed under the submode when it
      is written and under nothing when the index is rebuilt. */
  lemma SubmodeWithoutModeSplitsTheIndex(q: Qso, derive: string -> string)
    requires q.dxcc != "" && Trim(q.dxcc) == q.dxcc && q.mode == "" && q.submode != ""
    ensures var log := Step(Log(map[], map[], map[], 1), Insert(q), derive);
            && DxccKey(q.dxcc, "", q.submode) in log.index
            && DxccKey(q.dxcc, "", q.submode) !in Rebuilt(SqlTable(log.rows))
  {
    var k := DxccKey(q.dxcc, "", q.submode);
    var row := InsertedRow(q, derive);
    assert FilledSubmode(q) == q.submode by {
      assert Trim(q.mode) == "" && Lower("") == "" && |Lower("SSB")| == 3;
    }
    var c := ContributionOf(row, derive);
    var log := Step(Log(map[], map[], map[], 1), Insert(q), derive);
    var t := SqlTable(log.rows);
    assert log.rows == map[1 := row];
    KeyListMembers(c, k);
    KeyListHasNoDuplicates(c);
    SqlKeyMembers(row, k);
    hide KeyList, ContributionOf, InsertedRow;
    AppliedAt(map[], KeyList(c), DeltaFor(c, 1), t, k);
    assert k in log.index;
    assert k !in t[1].keys;
  }
}
