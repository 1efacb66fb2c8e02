/** Every write path of the log as a step on rows, worked index and coverage
    counters, and the proof that each of them — and therefore every run —
    leaves the index and the counters equal to a rebuild. */
module LogSteps {
  import opened Text
  import opened Contact
  import opened WorkedIndex

  /** The completeness counters of `worked_index_meta`. */
  datatype Counter = TotalQsos | NoDxcc | NoBand | NoMode

  type Rows = map<int, Qso>

  /** `counters` holds the seeded counters only. */
  datatype Log = Log(rows: Rows, index: Index, counters: map<Counter, int>, nextId: int)

  // ── what a log must satisfy ──────────────────────────────────────────────

  function SqlTable(rows: Rows): FactTable { map id | id in rows :: SqlFacts(rows[id]) }

  predicate Counts(q: Qso, n: Counter) {
    match n
    case TotalQsos => true
    case NoDxcc => q.dxcc == ""
    case NoBand => q.band == ""
    case NoMode => q.mode == ""
  }

  /** One counter the slow way: a pass over the table. */
  function Scan(rows: Rows, n: Counter): int { |set id | id in rows && Counts(rows[id], n)| }

  predicate ValidRows(rows: Rows, derive: string -> string) {
    forall id | id in rows :: ValidRow(rows[id], derive)
  }

  /** Valid rows, an index equal to the rebuilt one, seeded counters equal to
      the scan, and no id handed out twice. */
  ghost predicate Consistent(log: Log, derive: string -> string) {
    && ValidRows(log.rows, derive)
    && Summarises(log.index, SqlTable(log.rows))
    && (forall n | n in log.counters :: log.counters[n] == Scan(log.rows, n))
    && (forall id | id in log.rows :: id < log.nextId)
  }

  // ── index maintenance ────────────────────────────────────────────────────

  predicate Touches(c: Contribution, n: Counter) {
    match n
    case TotalQsos => true
    case NoDxcc => c.noDxcc
    case NoBand => c.noBand
    case NoMode => c.noMode
  }

  function CountersMoved(counters: map<Counter, int>, c: Contribution, sign: int): map<Counter, int> {
    map n | n in counters :: if Touches(c, n) then Max(0, counters[n] + sign) else counters[n]
  }

  function DeltaFor(c: Contribution, sign: int): Delta {
    Delta(c.stamp, sign, if c.confirmed then sign else 0, {c.source})
  }

  /** `indexQSO`: one contribution starts (+1) or stops (-1) counting. */
  function Indexed(log: Log, c: Contribution, sign: int): Log {
    log.(index := AppliedTo(log.index, KeyList(c), DeltaFor(c, sign), SqlTable(log.rows)),
         counters := CountersMoved(log.counters, c, sign))
  }

  /** `reindexQSO`, run when the row already carries its new values. */
  function Reindexed(log: Log, before: Contribution, after: Contribution): Log {
    if before == after then log else Indexed(Indexed(log, before, -1), after, 1)
  }

  /** `backfillDXCCIndex`: only the entity levels and the counters move. */
  function Backfilled(log: Log, before: Contribution, after: Contribution): Log {
    if before.dxcc != "" || after.dxcc == "" then log
    else log.(index := AppliedTo(log.index, DxccLevels(after), DeltaFor(after, 1), SqlTable(log.rows)),
              counters := CountersMoved(CountersMoved(log.counters, before, -1), after, 1))
  }

  // ── the rows each writer stores ──────────────────────────────────────────

  function NormalizeQslStatus(status: string): string {
    var s := Upper(Trim(status));
    if s == "Y" || s == "V" then "Y" else if s == "N" then "N" else ""
  }

  function NormalizeDxccSource(src: string, dxcc: string): string {
    if Trim(src) != "" then Trim(src)
    else if Trim(dxcc) != "" then "explicit"
    else "unknown"
  }

  /** `FillSSBSubmode`: the sideband convention for an SSB contact without one. */
  function FilledSubmode(q: Qso): string {
    if Trim(q.submode) != "" || !EqualFold(Trim(q.mode), "SSB") || q.freq <= 0.0 then q.submode
    else if q.freq < 10.0 then "LSB"
    else "USB"
  }

  function InsertedRow(q: Qso, derive: string -> string): Qso {
    q.(source := if q.source == "" then "manual" else q.source,
       dxccSource := NormalizeDxccSource(q.dxccSource, q.dxcc),
       qslRcvd := NormalizeQslStatus(q.qslRcvd),
       lotwRcvd := NormalizeQslStatus(q.lotwRcvd),
       eqslRcvd := NormalizeQslStatus(q.eqslRcvd),
       submode := FilledSubmode(q),
       baseCall := derive(q.call),
       wavelogDirty := false, wavelogRev := 0)
  }

  /** The row after an edit.  An entity the form left empty survives unless the
      callsign changed; the remote id is never taken from the form. */
  function EditedRow(stored: Qso, q: Qso, markDirty: bool, derive: string -> string): Qso {
    var callChanged := stored.call != "" && !EqualFold(stored.call, q.call);
    q.(submode := FilledSubmode(q),
       qslRcvd := if q.qslRcvd == "" then stored.qslRcvd else q.qslRcvd,
       lotwRcvd := if q.lotwRcvd == "" then stored.lotwRcvd else q.lotwRcvd,
       eqslRcvd := if q.eqslRcvd == "" then stored.eqslRcvd else q.eqslRcvd,
       baseCall := derive(q.call),
       dxcc := if q.dxcc != "" then q.dxcc else if callChanged then "" else stored.dxcc,
       dxccSource :=
         if q.dxcc != "" then (if q.dxccSource == "" then "explicit" else q.dxccSource)
         else if callChanged then "unknown"
         else if q.dxccSource != "" then q.dxccSource else stored.dxccSource,
       wavelogId := stored.wavelogId,
       wavelogDirty := markDirty || stored.wavelogDirty,
       wavelogRev := stored.wavelogRev + 1)
  }

  datatype Enrichment = Enrichment(
    name: string, qth: string, country: string, gridSquare: string,
    iota: string, cqZone: string, ituZone: string, dxcc: string)

  function FillIn(stored: string, offered: string): string {
    if offered != "" && stored == "" then offered else stored
  }

  predicate NothingOffered(e: Enrichment) {
    && e.name == "" && e.qth == "" && e.country == "" && e.gridSquare == ""
    && e.iota == "" && e.cqZone == "" && e.ituZone == "" && e.dxcc == ""
  }

  /** The columns after the guarded UPDATEs, before the sync bookkeeping. */
  function FilledRow(q: Qso, e: Enrichment): Qso {
    q.(name := FillIn(q.name, e.name), qth := FillIn(q.qth, e.qth), country := FillIn(q.country, e.country),
       gridSquare := FillIn(q.gridSquare, e.gridSquare), iota := FillIn(q.iota, e.iota),
       cqZone := FillIn(q.cqZone, e.cqZone), ituZone := FillIn(q.ituZone, e.ituZone),
       dxcc := FillIn(q.dxcc, e.dxcc),
       dxccSource := if e.dxcc != "" && q.dxcc == "" then "callbook" else q.dxccSource)
  }

  predicate FillsSomething(q: Qso, e: Enrichment) {
    var f := FilledRow(q, e);
    || q.name != f.name || q.qth != f.qth || q.country != f.country || q.gridSquare != f.gridSquare
    || q.iota != f.iota || q.cqZone != f.cqZone || q.ituZone != f.ituZone || q.dxcc != f.dxcc
  }

  function EnrichedRow(q: Qso, e: Enrichment): Qso {
    var f := FilledRow(q, e);
    if FillsSomething(q, e)
    then f.(wavelogDirty := f.wavelogId > 0 || f.wavelogDirty, wavelogRev := f.wavelogRev + 1)
    else f
  }

  function ResolvedRow(q: Qso, dxcc: string): Qso { q.(dxcc := dxcc, dxccSource := "prefix") }

  /** `SetWavelogIDChecked`: the remote id is stored either way; a row edited since
      the uploaded revision stays pending. A negative revision skips the check. */
  function IdAttached(q: Qso, remoteId: int, uploadedRev: int): Qso {
    q.(wavelogId := remoteId, wavelogDirty := q.wavelogDirty || (uploadedRev >= 0 && q.wavelogRev > uploadedRev))
  }

  /** `ClearWavelogDirtyIfRevision`. */
  function Acknowledged(q: Qso, rev: int): Qso {
    if q.wavelogRev == rev then q.(wavelogDirty := false) else q
  }

  /** An enrichment without data leaves every row alone. */
  lemma NothingOfferedFillsNothing(q: Qso, e: Enrichment)
    requires NothingOffered(e)
    ensures EnrichedRow(q, e) == q
  {
  }

  // ── the writers ──────────────────────────────────────────────────────────

  datatype Op =
    | Insert(q: Qso)
    | Update(id: int, q: Qso)
    | Save(id: int, q: Qso)
    | Enrich(id: int, e: Enrichment)
    | ResolveDxcc(id: int, dxcc: string)   // one row of a backfill batch
    | AttachId(id: int, remoteId: int, uploadedRev: int)
    | ClearPending(id: int, rev: int)
    | Delete(id: int)
    | Purge
    | Rebuild

  function WithRow(log: Log, id: int, q: Qso): Log { log.(rows := log.rows[id := q]) }

  function Replaced(log: Log, id: int, q: Qso, derive: string -> string): Log
    requires id in log.rows
  {
    Reindexed(WithRow(log, id, q), ContributionOf(log.rows[id], derive), ContributionOf(q, derive))
  }

  function AllCounters(rows: Rows): map<Counter, int> {
    map n | n in {TotalQsos, NoDxcc, NoBand, NoMode} :: Scan(rows, n)
  }

  function RebuiltLog(log: Log): Log {
    log.(index := Rebuilt(SqlTable(log.rows)), counters := AllCounters(log.rows))
  }

  function Step(log: Log, op: Op, derive: string -> string): Log {
    match op
    case Insert(q) =>
      var row := InsertedRow(q, derive);
      Indexed(WithRow(log, log.nextId, row).(nextId := log.nextId + 1), ContributionOf(row, derive), 1)
    case Update(id, q) =>
      if id !in log.rows then log else Replaced(log, id, EditedRow(log.rows[id], q, false, derive), derive)
    case Save(id, q) =>
      if id !in log.rows then log
      else Replaced(log, id, EditedRow(log.rows[id], q, log.rows[id].wavelogId > 0, derive), derive)
    case Enrich(id, e) =>
      if id !in log.rows then log else Replaced(log, id, EnrichedRow(log.rows[id], e), derive)
    case ResolveDxcc(id, dxcc) =>
      if Trim(dxcc) == "" || id !in log.rows || log.rows[id].dxcc != "" then log
      else
        var row := ResolvedRow(log.rows[id], dxcc);
        Backfilled(WithRow(log, id, row), ContributionOf(log.rows[id], derive), ContributionOf(row, derive))
    case AttachId(id, remoteId, uploadedRev) =>
      if id !in log.rows then log else WithRow(log, id, IdAttached(log.rows[id], remoteId, uploadedRev))
    case ClearPending(id, rev) =>
      if id !in log.rows then log else WithRow(log, id, Acknowledged(log.rows[id], rev))
    case Delete(id) =>
      if id !in log.rows then log
      else Indexed(log.(rows := log.rows - {id}), ContributionOf(log.rows[id], derive), -1)
    case Purge => RebuiltLog(log.(rows := map[]))
    case Rebuild => RebuiltLog(log)
  }

  /** What an insert needs for the stored row to satisfy the row invariant; it
      normalises the confirmations itself. */
  predicate Insertable(q: Qso) {
    && Trim(q.dxcc) == q.dxcc && Trim(q.source) == q.source && |SqlClasses(q.source)| == 1
    && (q.mode == "" ==> q.submode == "") && |q.timeOn| >= 6
  }

  /** What an edit needs; it stores the confirmations as they are. */
  predicate Storable(q: Qso) {
    && Unpadded(q) && |SqlClasses(q.source)| == 1
    && (q.mode == "" ==> q.submode == "") && |q.timeOn| >= 6
  }

  predicate Acceptable(op: Op) {
    match op
    case Insert(q) => Insertable(q)
    case Update(_, q) => Storable(q)
    case Save(_, q) => Storable(q)
    case Enrich(_, e) => Trim(e.dxcc) == e.dxcc
    case ResolveDxcc(_, dxcc) => Trim(dxcc) == dxcc
    case _ => true
  }

  function Run(log: Log, ops: seq<Op>, derive: string -> string): Log
    decreases |ops|
  {
    if ops == [] then log else Run(Step(log, ops[0], derive), ops[1..], derive)
  }

  // ── counters ─────────────────────────────────────────────────────────────

  lemma ScanWithRow(rest: Rows, id: int, q: Qso, n: Counter)
    requires id !in rest
    ensures Scan(rest[id := q], n) == Scan(rest, n) + (if Counts(q, n) then 1 else 0)
  {
    hide Counts;
    var rows := rest[id := q];
    var some := set i | i in rest && Counts(rest[i], n);
    var more := set i | i in rows && Counts(rows[i], n);
    assert more == some + (if Counts(q, n) then {id} else {});
  }

  lemma WithoutAndBack(rows: Rows, id: int)
    requires id in rows
    ensures rows == (rows - {id})[id := rows[id]]
    ensures SqlTable(rows) == SqlTable(rows - {id})[id := SqlFacts(rows[id])]
  {
    hide SqlFacts;
    var table, rest := SqlTable(rows), SqlTable(rows - {id});
    assert table.Keys == rows.Keys && rest.Keys == rows.Keys - {id};
    assert forall i | i in rest :: rest[i] == SqlFacts(rows[i]) == table[i];
  }

  lemma TableWithRow(rest: Rows, id: int, q: Qso)
    requires id !in rest
    ensures SqlTable(rest[id := q]) == SqlTable(rest)[id := SqlFacts(q)]
    ensures (rest[id := q]) - {id} == rest
  {}

  // ── one contribution in both forms ───────────────────────────────────────

  lemma ContributionFacts(q: Qso, derive: string -> string, sign: int)
    requires ValidRow(q, derive)
    ensures var c := ContributionOf(q, derive);
            && ListsKeys(KeyList(c), SqlFacts(q))
            && DeltaFor(c, sign) == DeltaOf(SqlFacts(q), sign)
            && forall n :: Touches(c, n) <==> Counts(q, n)
  {
    var c := ContributionOf(q, derive);
    KeyListHasNoDuplicates(c);
    ValidRowsAgree(q, derive);
    assert GoFacts(q, derive).keys == SqlFacts(q).keys;
    assert forall k :: k in KeyList(c) <==> k in KeySet(c);
  }

  lemma CountersFollow(rest: Rows, id: int, q: Qso, derive: string -> string, counters: map<Counter, int>)
    requires id !in rest
    ensures var c := ContributionOf(q, derive);
            && ((forall n | n in counters :: counters[n] == Scan(rest, n)) ==>
                forall n | n in counters :: CountersMoved(counters, c, 1)[n] == Scan(rest[id := q], n))
            && ((forall n | n in counters :: counters[n] == Scan(rest[id := q], n)) ==>
                forall n | n in counters :: CountersMoved(counters, c, -1)[n] == Scan(rest, n))
  {
    forall n { ScanWithRow(rest, id, q, n); }
  }

  // ── each writer keeps the log consistent ─────────────────────────────────

  /** A contribution and the facts of the row it was taken from. */
  ghost predicate Mirrors(c: Contribution, f: Facts) {
    ListsKeys(KeyList(c), f) && forall sign :: DeltaFor(c, sign) == DeltaOf(f, sign)
  }

  lemma MirrorsItsRow(q: Qso, derive: string -> string)
    requires ValidRow(q, derive)
    ensures Mirrors(ContributionOf(q, derive), SqlFacts(q))
  {
    forall sign: int { ContributionFacts(q, derive, sign); }
    ContributionFacts(q, derive, 1);
  }

  lemma InsertIndex(index: Index, rest: FactTable, id: int, c: Contribution, f: Facts)
    requires Summarises(index, rest) && id !in rest && Mirrors(c, f)
    ensures Summarises(AppliedTo(index, KeyList(c), DeltaFor(c, 1), rest[id := f]), rest[id := f])
  {
    InsertPass(index, rest, id, f, KeyList(c));
  }

  lemma DeleteIndex(index: Index, rest: FactTable, id: int, c: Contribution, f: Facts)
    requires Summarises(index, rest[id := f]) && id !in rest && Mirrors(c, f)
    ensures Summarises(AppliedTo(index, KeyList(c), DeltaFor(c, -1), rest), rest)
  {
    DeletePass(index, rest, id, f, KeyList(c));
  }

  /** Removal, run on the table that already changed, then addition. */
  lemma ReindexIndex(index: Index, rest: FactTable, id: int, c0: Contribution, f0: Facts, c1: Contribution, f1: Facts)
    requires Summarises(index, rest[id := f0]) && id !in rest && Mirrors(c0, f0) && Mirrors(c1, f1)
    ensures var now := rest[id := f1];
            Summarises(AppliedTo(AppliedTo(index, KeyList(c0), DeltaFor(c0, -1), now), KeyList(c1), DeltaFor(c1, 1), now), now)
  {
    var now := rest[id := f1];
    RemovalPassIsHalfway(index, rest, id, f0, now, KeyList(c0));
    AdditionPassFinishes(AppliedTo(index, KeyList(c0), DeltaFor(c0, -1), now), rest, id, f0, f1, KeyList(c1));
  }

  lemma RowKeepsRowsValid(rows: Rows, id: int, row: Qso, derive: string -> string)
    requires ValidRows(rows, derive) && ValidRow(row, derive)
    ensures ValidRows(rows[id := row], derive)
  {
    hide ValidRow;
  }

  lemma InsertKeeps(log: Log, row: Qso, derive: string -> string)
    requires Consistent(log, derive) && ValidRow(row, derive)
    ensures Consistent(Indexed(WithRow(log, log.nextId, row).(nextId := log.nextId + 1), ContributionOf(row, derive), 1), derive)
  {
    hide ValidRow, ContributionOf, SqlFacts;
    var id, c, f := log.nextId, ContributionOf(row, derive), SqlFacts(row);
    RowKeepsRowsValid(log.rows, id, row, derive);
    assert SqlTable(log.rows[id := row]) == SqlTable(log.rows)[id := f] by { TableWithRow(log.rows, id, row); }
    assert Mirrors(c, f) by { MirrorsItsRow(row, derive); }
    assert Summarises(AppliedTo(log.index, KeyList(c), DeltaFor(c, 1), SqlTable(log.rows[id := row])), SqlTable(log.rows[id := row])) by {
      InsertIndex(log.index, SqlTable(log.rows), id, c, f);
    }
    CountersFollow(log.rows, id, row, derive, log.counters);
  }

  lemma DeleteKeeps(log: Log, id: int, derive: string -> string)
    requires Consistent(log, derive) && id in log.rows
    ensures Consistent(Indexed(log.(rows := log.rows - {id}), ContributionOf(log.rows[id], derive), -1), derive)
  {
    hide ValidRow, ContributionOf, SqlFacts;
    var row, rest := log.rows[id], log.rows - {id};
    var c, f := ContributionOf(row, derive), SqlFacts(row);
    WithoutAndBack(log.rows, id);
    assert Mirrors(c, f) by { MirrorsItsRow(row, derive); }
    assert Summarises(AppliedTo(log.index, KeyList(c), DeltaFor(c, -1), SqlTable(rest)), SqlTable(rest)) by {
      DeleteIndex(log.index, SqlTable(rest), id, c, f);
    }
    CountersFollow(rest, id, row, derive, log.counters);
  }

  /** Equal contributions make equal facts, so skipping the write is sound. */
  lemma UnchangedContributionNeedsNoWrite(log: Log, id: int, row: Qso, derive: string -> string)
    requires Consistent(log, derive) && id in log.rows && ValidRow(row, derive)
    requires ContributionOf(log.rows[id], derive) == ContributionOf(row, derive)
    ensures Consistent(WithRow(log, id, row), derive)
  {
    hide ValidRow, ContributionOf, SqlFacts, Counts, Scan, Summarises;
    SameContributionSameFacts(log.rows[id], row, derive);
    RowKeepsRowsValid(log.rows, id, row, derive);
    SameTable(log.rows, id, row);
    forall n: Counter
      ensures Scan(log.rows[id := row], n) == Scan(log.rows, n)
    {
      SameScan(log.rows, id, row, n);
    }
    hide SqlTable, ValidRows;
  }

  lemma SameTable(rows: Rows, id: int, row: Qso)
    requires id in rows && SqlFacts(rows[id]) == SqlFacts(row)
    ensures SqlTable(rows[id := row]) == SqlTable(rows)
  {
    hide SqlFacts;
  }

  lemma SameContributionSameFacts(was: Qso, row: Qso, derive: string -> string)
    requires ValidRow(was, derive) && ValidRow(row, derive)
    requires ContributionOf(was, derive) == ContributionOf(row, derive)
    ensures SqlFacts(was) == SqlFacts(row)
    ensures forall n :: Counts(was, n) == Counts(row, n)
  {
    ValidRowsAgree(was, derive);
    ValidRowsAgree(row, derive);
    forall n ensures Counts(was, n) == Counts(row, n) {
      assert Counts(was, n) == Touches(ContributionOf(was, derive), n);
      assert Counts(row, n) == Touches(ContributionOf(row, derive), n);
    }
  }

  lemma SameScan(rows: Rows, id: int, row: Qso, n: Counter)
    requires id in rows && Counts(rows[id], n) == Counts(row, n)
    ensures Scan(rows[id := row], n) == Scan(rows, n)
  {
    var after := rows[id := row];
    var s, t := set i | i in rows && Counts(rows[i], n), set i | i in after && Counts(after[i], n);
    assert s == t;
  }

  /** `reindexQSO` after the row update reaches the rebuilt index, although its
      removal half reads the table that already changed. */
  lemma ReplaceKeeps(log: Log, id: int, row: Qso, derive: string -> string)
    requires Consistent(log, derive) && id in log.rows && ValidRow(row, derive)
    ensures Consistent(Replaced(log, id, row, derive), derive)
  {
    hide ContributionOf, Scan, SqlFacts, Counts, Touches, AppliedTo, KeyList, Summarises;
    RowKeepsRowsValid(log.rows, id, row, derive);
    var was, rest := log.rows[id], log.rows - {id};
    var before, after := ContributionOf(was, derive), ContributionOf(row, derive);
    if before == after {
      UnchangedContributionNeedsNoWrite(log, id, row, derive);
    } else {
      ReindexedRows(log, id, row, derive);
      var half := CountersMoved(log.counters, before, -1);
      assert log.rows[id := row] == rest[id := row];
      WithoutAndBack(log.rows, id);
      CountersFollow(rest, id, was, derive, log.counters);
      CountersFollow(rest, id, row, derive, half);
    }
  }

  lemma ReindexedRows(log: Log, id: int, row: Qso, derive: string -> string)
    requires ValidRows(log.rows, derive) && Summarises(log.index, SqlTable(log.rows))
    requires id in log.rows && ValidRow(row, derive)
    ensures var full := Indexed(Indexed(WithRow(log, id, row), ContributionOf(log.rows[id], derive), -1), ContributionOf(row, derive), 1);
            Summarises(full.index, SqlTable(log.rows[id := row]))
  {
    hide ValidRow, ContributionOf, SqlFacts;
    var was, rest := log.rows[id], log.rows - {id};
    var c0, c1, f0, f1 := ContributionOf(was, derive), ContributionOf(row, derive), SqlFacts(was), SqlFacts(row);
    assert Mirrors(c0, f0) by { MirrorsItsRow(was, derive); }
    assert Mirrors(c1, f1) by { MirrorsItsRow(row, derive); }
    assert SqlTable(log.rows) == SqlTable(rest)[id := f0] by { WithoutAndBack(log.rows, id); }
    assert SqlTable(log.rows[id := row]) == SqlTable(rest)[id := f1] by {
      TableWithRow(rest, id, row);
      assert log.rows[id := row] == rest[id := row];
    }
    ReindexIndex(log.index, SqlTable(rest), id, c0, f0, c1, f1);
  }

  /** The backfill's shortcut leaves exactly the log a full re-index leaves. */
  lemma BackfillIsReindex(log: Log, id: int, dxcc: string, derive: string -> string)
    requires Consistent(log, derive) && id in log.rows
    requires log.rows[id].dxcc == "" && dxcc != "" && Trim(dxcc) == dxcc
    ensures Backfilled(WithRow(log, id, ResolvedRow(log.rows[id], dxcc)), ContributionOf(log.rows[id], derive),
                       ContributionOf(ResolvedRow(log.rows[id], dxcc), derive))
         == Replaced(log, id, ResolvedRow(log.rows[id], dxcc), derive)
  {
    assert ContributionOf(log.rows[id], derive).dxcc == "" by { assert Trim("") == ""; }
    assert ContributionOf(ResolvedRow(log.rows[id], dxcc), derive).dxcc == dxcc;
    hide ValidRow, ContributionOf, SqlFacts, DxccLevels, KeyList, DeltaFor, AppliedTo, Summarises, Rebuilt;
    var was := log.rows[id];
    var row := ResolvedRow(was, dxcc);
    var c := ContributionOf(row, derive);
    var now := SqlTable(log.rows[id := row]);
    assert ValidRow(row, derive) by { LevelsAreTheNewKeys(was, dxcc, derive); }
    assert Replaced(log, id, row, derive).index == Rebuilt(now) by {
      ReplaceKeeps(log, id, row, derive);
      SummaryIsTheRebuild(Replaced(log, id, row, derive).index, now);
    }
    BackfilledIndex(log, id, dxcc, derive);
  }

  lemma BackfilledIndex(log: Log, id: int, dxcc: string, derive: string -> string)
    requires ValidRows(log.rows, derive) && Summarises(log.index, SqlTable(log.rows)) && id in log.rows
    requires log.rows[id].dxcc == "" && dxcc != "" && Trim(dxcc) == dxcc
    ensures var row := ResolvedRow(log.rows[id], dxcc);
            var c := ContributionOf(row, derive);
            var now := SqlTable(log.rows[id := row]);
            AppliedTo(log.index, DxccLevels(c), DeltaFor(c, 1), now) == Rebuilt(now)
  {
    hide ValidRow, ContributionOf, SqlFacts, DxccLevels, DeltaFor, AppliedTo, Summarises, Rebuilt;
    var was, rest := log.rows[id], log.rows - {id};
    var row := ResolvedRow(was, dxcc);
    var c, now := ContributionOf(row, derive), SqlTable(log.rows[id := row]);
    assert SqlTable(log.rows) == SqlTable(rest)[id := SqlFacts(was)] by { WithoutAndBack(log.rows, id); }
    assert now == SqlTable(rest)[id := SqlFacts(row)] by {
      TableWithRow(rest, id, row);
      assert log.rows[id := row] == rest[id := row];
    }
    BackfillPass(log.index, SqlTable(rest), id, was, dxcc, derive);
    SummaryIsTheRebuild(AppliedTo(log.index, DxccLevels(c), DeltaFor(c, 1), now), now);
  }

  lemma BackfillPass(index: Index, rest: FactTable, id: int, was: Qso, dxcc: string, derive: string -> string)
    requires id !in rest && ValidRow(was, derive) && was.dxcc == "" && dxcc != "" && Trim(dxcc) == dxcc
    requires Summarises(index, rest[id := SqlFacts(was)])
    ensures var row := ResolvedRow(was, dxcc);
            var c := ContributionOf(row, derive);
            var now := rest[id := SqlFacts(row)];
            Summarises(AppliedTo(index, DxccLevels(c), DeltaFor(c, 1), now), now)
  {
    var row := ResolvedRow(was, dxcc);
    var c, f0, f1 := ContributionOf(row, derive), SqlFacts(was), SqlFacts(row);
    var now := rest[id := f1];
    ContributionFacts(row, derive, 1);
    ContributionFacts(was, derive, 1);
    LevelsAreTheNewKeys(was, dxcc, derive);
    forall k: Key ensures Lookup(AppliedTo(index, DxccLevels(c), DeltaOf(f1, 1), now), k) == AggregateAt(now, k) {
      AppliedAt(index, DxccLevels(c), DeltaOf(f1, 1), now, k);
      GroupWithRow(rest, id, f0, k);
      if k in DxccLevels(c) { AddingReachesTheGroup(rest, id, f1, k, EdgesIn(now, k)); } else { GroupWithRow(rest, id, f1, k); }
    }
  }

  lemma LevelsAreTheNewKeys(was: Qso, dxcc: string, derive: string -> string)
    requires ValidRow(was, derive) && was.dxcc == "" && dxcc != "" && Trim(dxcc) == dxcc
    ensures var row := ResolvedRow(was, dxcc);
            var levels := DxccLevels(ContributionOf(row, derive));
            && ValidRow(row, derive)
            && NoDuplicates(levels)
            && (forall k :: k in levels <==> k in SqlFacts(row).keys && k !in SqlFacts(was).keys)
            && SqlFacts(was).keys <= SqlFacts(row).keys
            && SqlFacts(row).stamp == SqlFacts(was).stamp
            && SqlFacts(row).confirmed == SqlFacts(was).confirmed
            && SqlFacts(row).classes == SqlFacts(was).classes
  {
    assert Trim("") == "";
    hide SqlClasses, SqlStamp, SqlConfirmed, SourceMaskBit, QsoStamp, Confirmed, Upper;
  }

  lemma RebuildKeeps(log: Log, derive: string -> string)
    requires ValidRows(log.rows, derive) && forall id | id in log.rows :: id < log.nextId
    ensures Consistent(RebuiltLog(log), derive)
  {
    SummaryIsTheRebuild(Rebuilt(SqlTable(log.rows)), SqlTable(log.rows));
  }

  lemma InsertedRowIsValid(q: Qso, derive: string -> string)
    requires Insertable(q)
    ensures ValidRow(InsertedRow(q, derive), derive)
  {
    ManualIsOneClass();
    SubmodeStaysLegal(q);
    hide SqlClasses, FilledSubmode;
    assert forall s :: Trim(NormalizeQslStatus(s)) == NormalizeQslStatus(s);
  }

  lemma EditedRowIsValid(stored: Qso, q: Qso, mark: bool, derive: string -> string)
    requires Storable(q) && ValidRow(stored, derive)
    ensures ValidRow(EditedRow(stored, q, mark, derive), derive)
  {
    SubmodeStaysLegal(q);
    assert Trim("") == "";
    hide SqlClasses, FilledSubmode, Trim, EqualFold;
  }

  lemma EnrichedRowIsValid(stored: Qso, e: Enrichment, derive: string -> string)
    requires ValidRow(stored, derive) && Trim(e.dxcc) == e.dxcc
    ensures ValidRow(EnrichedRow(stored, e), derive)
  {
    hide SqlClasses, Trim;
  }

  lemma SubmodeStaysLegal(q: Qso)
    ensures (q.mode == "" ==> q.submode == "") ==> (q.mode == "" ==> FilledSubmode(q) == "")
  {
    if q.mode == "" {
      assert Trim(q.mode) == "" && Lower("") == "";
      assert |Lower("SSB")| == 3;
    }
  }

  lemma ManualIsPlain()
    ensures Lower("manual") == "manual" && Trim("manual") == "manual"
  {
  }

  lemma ManualIsOneClass()
    ensures |SqlClasses("manual")| == 1 && Trim("manual") == "manual"
  {
    ManualIsPlain();
    ContainedLetters("manual", "wsjt", 'w');
    ContainedLetters("manual", "adif", 'd');
    ContainedLetters("manual", "wavelog", 'w');
    hide Contains, Lower, Trim;
    assert SqlClasses("manual") == {Manual};
  }

  /** The sync columns are outside every contribution. */
  lemma BookkeepingKeeps(log: Log, id: int, row: Qso, derive: string -> string)
    requires Consistent(log, derive) && id in log.rows
    requires row == log.rows[id].(wavelogId := row.wavelogId, wavelogDirty := row.wavelogDirty)
    ensures ValidRow(row, derive) && Consistent(WithRow(log, id, row), derive)
  {
    hide SqlClasses, Trim;
    assert ValidRow(log.rows[id], derive);
    hide Consistent;
    UnchangedContributionNeedsNoWrite(log, id, row, derive);
  }

  lemma StepKeeps(log: Log, op: Op, derive: string -> string)
    requires Consistent(log, derive) && Acceptable(op)
    ensures Consistent(Step(log, op, derive), derive)
  {
    match op
    case Insert(q) =>
      InsertedRowIsValid(q, derive);
      InsertKeeps(log, InsertedRow(q, derive), derive);
    case Update(id, q) =>
      if id in log.rows {
        EditedRowIsValid(log.rows[id], q, false, derive);
        ReplaceKeeps(log, id, EditedRow(log.rows[id], q, false, derive), derive);
      }
    case Save(id, q) =>
      if id in log.rows {
        var mark := log.rows[id].wavelogId > 0;
        EditedRowIsValid(log.rows[id], q, mark, derive);
        ReplaceKeeps(log, id, EditedRow(log.rows[id], q, mark, derive), derive);
      }
    case Enrich(id, e) =>
      if id in log.rows {
        EnrichedRowIsValid(log.rows[id], e, derive);
        ReplaceKeeps(log, id, EnrichedRow(log.rows[id], e), derive);
      }
    case ResolveDxcc(id, dxcc) =>
      if Trim(dxcc) != "" && id in log.rows && log.rows[id].dxcc == "" {
        LevelsAreTheNewKeys(log.rows[id], dxcc, derive);
        ReplaceKeeps(log, id, ResolvedRow(log.rows[id], dxcc), derive);
        BackfillIsReindex(log, id, dxcc, derive);
      }
    case AttachId(id, remoteId, uploadedRev) =>
      if id in log.rows { BookkeepingKeeps(log, id, IdAttached(log.rows[id], remoteId, uploadedRev), derive); }
    case ClearPending(id, rev) =>
      if id in log.rows { BookkeepingKeeps(log, id, Acknowledged(log.rows[id], rev), derive); }
    case Delete(id) =>
      if id in log.rows { DeleteKeeps(log, id, derive); }
    case Purge => RebuildKeeps(log.(rows := map[]), derive);
    case Rebuild => RebuildKeeps(log, derive);
  }

  /** For every finite run of writers, the incrementally kept index is the one
      a rebuild would compute from the rows, and seeded counters are the scan. */
  lemma {:induction false} RunKeepsTheIndex(log: Log, ops: seq<Op>, derive: string -> string)
    requires Consistent(log, derive)
    requires forall i | 0 <= i < |ops| :: Acceptable(ops[i])
    ensures var end := Run(log, ops, derive);
            && Consistent(end, derive)
            && end.index == Rebuilt(SqlTable(end.rows))
    decreases |ops|
  {
    if ops == [] {
      SummaryIsTheRebuild(log.index, SqlTable(log.rows));
    } else {
      StepKeeps(log, ops[0], derive);
      RunKeepsTheIndex(Step(log, ops[0], derive), ops[1..], derive);
    }
  }
}
