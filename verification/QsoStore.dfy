/** The log database as an object: tables as maps, each transaction one method.
    Every method is tied to the step it performs and keeps the index equal to
    what a rebuild would compute. */
module QsoStore {
  import opened Common
  import opened Text
  import opened Contact
  import opened WorkedIndex
  import opened LogSteps

  /** The table of facts, read through the WHERE clause. */
  lemma FactsOfARow(rows: Rows, derive: string -> string, k: Key, id: int)
    requires ValidRows(rows, derive) && ProperKey(k) && id in rows
    ensures var f := SqlTable(rows)[id];
      (SqlMatches(rows[id], k) <==> k in f.keys) && f.stamp == SqlStamp(rows[id]) && f.classes == SqlClasses(rows[id].source)
  {
    WhereClauseSelectsTheGroup(rows[id], derive, k);
  }

  lemma StampsOfTheGroup(rows: Rows, derive: string -> string, k: Key)
    requires ValidRows(rows, derive) && ProperKey(k)
    ensures (set id | id in rows && SqlMatches(rows[id], k) :: SqlStamp(rows[id])) == Stamps(SqlTable(rows), k)
  {
    var t := SqlTable(rows);
    var stamps := set id | id in rows && SqlMatches(rows[id], k) :: SqlStamp(rows[id]);
    assert t.Keys == rows.Keys;
    hide SqlMatches, SqlTable, ValidRows, SqlStamp;
    forall x
      ensures x in stamps <==> x in Stamps(t, k)
    {
      if x in stamps {
        var id :| id in rows && SqlMatches(rows[id], k) && SqlStamp(rows[id]) == x;
        FactsOfARow(rows, derive, k, id);
        assert id in t && k in t[id].keys && t[id].stamp == x;
      }
      if x in Stamps(t, k) {
        var id :| id in t && k in t[id].keys && t[id].stamp == x;
        FactsOfARow(rows, derive, k, id);
      }
    }
  }

  lemma ClassesOfTheGroup(rows: Rows, derive: string -> string, k: Key)
    requires ValidRows(rows, derive) && ProperKey(k)
    ensures (set id, c | id in rows && SqlMatches(rows[id], k) && c in SqlClasses(rows[id].source) :: c) == Classes(SqlTable(rows), k)
  {
    var t := SqlTable(rows);
    var classes := set id, c | id in rows && SqlMatches(rows[id], k) && c in SqlClasses(rows[id].source) :: c;
    assert t.Keys == rows.Keys;
    hide SqlMatches, SqlTable, ValidRows, SqlClasses;
    forall c
      ensures c in classes <==> c in Classes(t, k)
    {
      if c in classes {
        var id :| id in rows && SqlMatches(rows[id], k) && c in SqlClasses(rows[id].source);
        FactsOfARow(rows, derive, k, id);
        assert id in t && k in t[id].keys && c in t[id].classes;
      }
      if c in Classes(t, k) {
        var id :| id in t && k in t[id].keys && c in t[id].classes;
        FactsOfARow(rows, derive, k, id);
      }
    }
  }

  /** On valid rows the removal's sub-queries read the edges of the group. */
  lemma SubQueriesReadTheGroup(rows: Rows, derive: string -> string, k: Key)
    requires ValidRows(rows, derive) && ProperKey(k)
    ensures (set id | id in rows && SqlMatches(rows[id], k) :: SqlStamp(rows[id])) == Stamps(SqlTable(rows), k)
    ensures (set id, c | id in rows && SqlMatches(rows[id], k) && c in SqlClasses(rows[id].source) :: c) == Classes(SqlTable(rows), k)
  {
    hide ValidRows, ProperKey, SqlMatches, SqlTable, Stamps, Classes, SqlStamp, SqlClasses;
    StampsOfTheGroup(rows, derive, k);
    ClassesOfTheGroup(rows, derive, k);
  }

  /** The keys of a contribution taken from a row are proper keys. */
  predicate ProperContribution(c: Contribution) { c.grid4 == "" || |c.grid4| == 4 }

  lemma RowContributionIsProper(q: Qso, derive: string -> string)
    ensures ProperContribution(ContributionOf(q, derive))
  {}

  /** The counters after the listed ones have moved once each. */
  function CountersBumped(counters: map<Counter, int>, items: seq<Counter>, delta: int): map<Counter, int> {
    map n | n in counters :: if n in items then Max(0, counters[n] + delta) else counters[n]
  }

  lemma BumpOneMore(counters: map<Counter, int>, items: seq<Counter>, i: nat, delta: int)
    requires i < |items| && forall i, j | 0 <= i < j < |items| :: items[i] != items[j]
    ensures var before := CountersBumped(counters, items[..i], delta);
            var moved := if items[i] in before then before[items[i] := Max(0, before[items[i]] + delta)] else before;
            && before.Keys == counters.Keys
            && CountersBumped(counters, items[..i + 1], delta) == moved
  {
    assert items[i] !in items[..i];
    assert items[..i + 1] == items[..i] + [items[i]];
  }

  lemma NoneListed(counters: map<Counter, int>, delta: int)
    ensures CountersBumped(counters, [], delta) == counters
  {}

  /** The statements `applyCoverageDelta` issues, one per counter touched. */
  lemma ListedCountersMove(counters: map<Counter, int>, c: Contribution, items: seq<Counter>, delta: int)
    requires items == [TotalQsos] + (if c.noDxcc then [NoDxcc] else [])
                      + (if c.noBand then [NoBand] else []) + (if c.noMode then [NoMode] else [])
    ensures forall i, j | 0 <= i < j < |items| :: items[i] != items[j]
    ensures CountersBumped(counters, items, delta) == CountersMoved(counters, c, delta)
  {
    assert forall n :: n in items <==> Touches(c, n);
    hide Touches;
  }

  /** The rows without an entity for which a batch brings one. */
  function Resolvable(rows: Rows, byId: map<int, string>): set<int> {
    set id | id in byId && byId[id] != "" && id in rows && rows[id].dxcc == ""
  }

  /** Those among some ids. */
  function Unresolved(rows: Rows, byId: map<int, string>, ids: set<int>): set<int> {
    Resolvable(rows, byId) * ids
  }

  function BackfilledRows(rows: Rows, byId: map<int, string>, ids: set<int>): Rows {
    var hits := Unresolved(rows, byId, ids);
    map id | id in rows :: if id in hits then ResolvedRow(rows[id], byId[id]) else rows[id]
  }

  lemma NothingBackfilled(rows: Rows, byId: map<int, string>)
    ensures BackfilledRows(rows, byId, {}) == rows && Unresolved(rows, byId, {}) == {}
  {
    assert forall id :: id !in Unresolved(rows, byId, {});
  }

  lemma OneMoreMember(all: set<int>, some: set<int>, x: int)
    requires x !in some
    ensures all * (some + {x}) == all * some + (if x in all then {x} else {})
    ensures |all * (some + {x})| == |all * some| + (if x in all then 1 else 0)
  {
    assert all * (some + {x}) == all * some + (if x in all then {x} else {});
  }

  lemma OneMoreBackfilled(rows: Rows, byId: map<int, string>, ids: set<int>, id: int)
    requires id !in ids && id in byId
    ensures var hit := byId[id] != "" && id in rows && rows[id].dxcc == "";
            var before, after := BackfilledRows(rows, byId, ids), BackfilledRows(rows, byId, ids + {id});
            && (hit <==> byId[id] != "" && id in before && before[id].dxcc == "")
            && after == (if hit then before[id := ResolvedRow(before[id], byId[id])] else before)
            && |Unresolved(rows, byId, ids + {id})| == |Unresolved(rows, byId, ids)| + (if hit then 1 else 0)
  {
    var hit := byId[id] != "" && id in rows && rows[id].dxcc == "";
    OneMoreMember(Resolvable(rows, byId), ids, id);
    RowsOfABatch(rows, byId, Unresolved(rows, byId, ids), id, hit);
    assert hit <==> id in Resolvable(rows, byId);
    hide Resolvable, ResolvedRow;
  }

  lemma RowsOfABatch(rows: Rows, byId: map<int, string>, some: set<int>, id: int, hit: bool)
    requires id !in some && id in byId && some <= byId.Keys && (hit ==> id in rows)
    ensures var more := some + (if hit then {id} else {});
            var before := map i | i in rows :: if i in some then ResolvedRow(rows[i], byId[i]) else rows[i];
            var after := map i | i in rows :: if i in more then ResolvedRow(rows[i], byId[i]) else rows[i];
            && (id in rows ==> before[id] == rows[id])
            && after == (if hit then before[id := ResolvedRow(rows[id], byId[id])] else before)
  {
    hide ResolvedRow;
  }

  lemma StoredRowIsValid(log: Log, id: int, derive: string -> string)
    requires Consistent(log, derive) && id in log.rows
    ensures ValidRow(log.rows[id], derive)
  {
  }

  // ── the rebuild's SELECTs ────────────────────────────────────────────────

  /** The six GROUP BY queries of the rebuild, in order. */
  datatype Level = ByCall | ByGrid | ByEntity | ByBand | ByMode | ByBandAndMode

  const LEVELS: seq<Level> := [ByCall, ByGrid, ByEntity, ByBand, ByMode, ByBandAndMode]

  /** The group one query puts a row into, if its WHERE clause lets it pass. */
  function GroupKey(q: Qso, level: Level): Option<Key> {
    match level
    case ByCall => if q.baseCall != "" then Some(CallKey(q.baseCall)) else None
    case ByGrid => if |q.gridSquare| >= 4 then Some(GridKey(Upper(q.gridSquare[..4]))) else None
    case ByEntity => if q.dxcc != "" then Some(DxccKey(q.dxcc, "", "")) else None
    case ByBand => if q.dxcc != "" && q.band != "" then Some(DxccKey(q.dxcc, q.band, "")) else None
    case ByMode => if q.dxcc != "" && q.mode != "" then Some(DxccKey(q.dxcc, "", SqlMode(q))) else None
    case ByBandAndMode =>
      if q.dxcc != "" && q.band != "" && q.mode != "" then Some(DxccKey(q.dxcc, q.band, SqlMode(q))) else None
  }

  /** The query whose groups a key belongs to. */
  function LevelOf(k: Key): Level {
    match k
    case CallKey(_) => ByCall
    case GridKey(_) => ByGrid
    case DxccKey(_, b, m) =>
      if b == "" && m == "" then ByEntity else if m == "" then ByBand else if b == "" then ByMode else ByBandAndMode
  }

  /** The queries never produce the same key twice, and together they put a row
      under exactly its keys. */
  lemma EachKeyComesFromOneQuery(q: Qso, k: Key)
    ensures forall level :: GroupKey(q, level) == Some(k) ==> level == LevelOf(k)
    ensures k in SqlKeys(q) <==> GroupKey(q, LevelOf(k)) == Some(k)
  {
    SqlKeyMembers(q, k);
  }

  function GroupIds(rows: Rows, level: Level, k: Key): set<int> {
    set id | id in rows && GroupKey(rows[id], level) == Some(k)
  }

  /** COUNT, SUM, MIN, MAX and the mask of one group. */
  function GroupRow(rows: Rows, ids: set<int>, k: Key): Aggregate
    requires ids <= rows.Keys
  {
    Aggregate(|ids|, |set id | id in ids && SqlConfirmed(rows[id])|,
              First(set id | id in ids :: SqlStamp(rows[id])), Last(set id | id in ids :: SqlStamp(rows[id])),
              MaskFor(k, set id, c | id in ids && c in SqlClasses(rows[id].source) :: c))
  }

  /** The rows one query returns. */
  function Grouped(rows: Rows, level: Level): Index {
    var keys := set id | id in rows && GroupKey(rows[id], level).Some? :: GroupKey(rows[id], level).value;
    map k | k in keys :: GroupRow(rows, GroupIds(rows, level, k), k)
  }

  lemma GroupsAreTheSpecification(rows: Rows, k: Key)
    ensures GroupIds(rows, LevelOf(k), k) == Group(SqlTable(rows), k)
  {
    forall id | id in rows
      ensures GroupKey(rows[id], LevelOf(k)) == Some(k) <==> k in SqlTable(rows)[id].keys
    {
      EachKeyComesFromOneQuery(rows[id], k);
    }
    hide GroupKey, SqlFacts, LevelOf;
  }

  lemma GroupRowIsTheAggregate(rows: Rows, k: Key)
    requires Group(SqlTable(rows), k) != {}
    ensures GroupRow(rows, Group(SqlTable(rows), k), k) == AggregateAt(SqlTable(rows), k).value
  {
    var t := SqlTable(rows);
    var ids := Group(t, k);
    forall id | id in ids
      ensures t[id].stamp == SqlStamp(rows[id]) && t[id].confirmed == SqlConfirmed(rows[id])
      ensures t[id].classes == SqlClasses(rows[id].source)
    {
    }
    hide SqlFacts, SqlStamp, SqlConfirmed, SqlClasses, First, Last;
    assert (set id | id in ids && SqlConfirmed(rows[id])) == ConfirmedIn(t, k);
    SameStampsAndClasses(rows, t, k);
  }

  lemma SameStampsAndClasses(rows: Rows, t: FactTable, k: Key)
    requires t.Keys == rows.Keys
    requires forall id | id in rows :: t[id].stamp == SqlStamp(rows[id]) && t[id].classes == SqlClasses(rows[id].source)
    ensures (set id | id in Group(t, k) :: SqlStamp(rows[id])) == Stamps(t, k)
    ensures (set id, c | id in Group(t, k) && c in SqlClasses(rows[id].source) :: c) == Classes(t, k)
  {
    hide SqlStamp, SqlClasses;
    var ids := Group(t, k);
    forall c
      ensures c in (set id, c | id in ids && c in SqlClasses(rows[id].source) :: c) <==> c in Classes(t, k)
    {
      if c in Classes(t, k) {
        var id :| id in t && k in t[id].keys && c in t[id].classes;
        assert id in ids && c in SqlClasses(rows[id].source);
      }
    }
    forall x
      ensures x in (set id | id in ids :: SqlStamp(rows[id])) <==> x in Stamps(t, k)
    {
      if x in Stamps(t, k) {
        var id :| id in t && k in t[id].keys && t[id].stamp == x;
        assert id in ids && SqlStamp(rows[id]) == x;
      }
    }
  }

  lemma KeyOfAQuery(rows: Rows, level: Level, k: Key)
    ensures k in Grouped(rows, level) <==> GroupIds(rows, level, k) != {}
  {
    hide GroupRow, GroupKey;
    var ids := GroupIds(rows, level, k);
    if ids != {} {
      ghost var _ := SomeMember(ids);
      var id :| id in ids;
      assert id in rows && GroupKey(rows[id], level).Some? && GroupKey(rows[id], level).value == k;
    }
    if k in Grouped(rows, level) {
      var id :| id in rows && GroupKey(rows[id], level).Some? && GroupKey(rows[id], level).value == k;
      assert id in ids;
    }
  }

  /** What one query contributes at a key. */
  lemma QueryAt(rows: Rows, level: Level, k: Key)
    ensures Lookup(Grouped(rows, level), k)
         == if level == LevelOf(k) then AggregateAt(SqlTable(rows), k) else None
  {
    hide GroupRow, AggregateAt, SqlFacts, LevelOf, GroupKey;
    forall id | id in rows
      ensures GroupKey(rows[id], level) == Some(k) ==> level == LevelOf(k)
    {
      EachKeyComesFromOneQuery(rows[id], k);
    }
    GroupsAreTheSpecification(rows, k);
    var ids := GroupIds(rows, level, k);
    KeyOfAQuery(rows, level, k);
    if level == LevelOf(k) {
      AggregateOfNoRows(rows, k);
      if ids != {} { GroupRowIsTheAggregate(rows, k); }
    }
  }

  /** The index after the first i queries. */
  ghost predicate QueriesDone(index: Index, rows: Rows, i: nat)
    requires i <= 6
  {
    forall k: Key :: Lookup(index, k) == (if LevelOf(k) in LEVELS[..i] then AggregateAt(SqlTable(rows), k) else None)
  }

  lemma LevelsOneMore(level: Level, i: nat)
    requires i < 6
    ensures level in LEVELS[..i + 1] <==> level in LEVELS[..i] || level == LEVELS[i]
    ensures LEVELS[i] !in LEVELS[..i]
  {
    assert LEVELS[..i + 1] == LEVELS[..i] + [LEVELS[i]];
  }

  lemma LookupInASum(a: Index, b: Index, k: Key)
    ensures Lookup(a + b, k) == if k in b then Lookup(b, k) else Lookup(a, k)
  {
  }

  lemma FoundOrNot(index: Index, k: Key)
    ensures Lookup(index, k) == None <==> k !in index
  {
  }

  lemma OneMoreQuery(index: Index, rows: Rows, i: nat)
    requires i < 6 && QueriesDone(index, rows, i)
    ensures QueriesDone(index + Grouped(rows, LEVELS[i]), rows, i + 1)
  {
    hide Grouped, AggregateAt, SqlTable, LevelOf, Lookup;
    forall k: Key
      ensures Lookup(index + Grouped(rows, LEVELS[i]), k)
           == if LevelOf(k) in LEVELS[..i + 1] then AggregateAt(SqlTable(rows), k) else None
    {
      QueryAt(rows, LEVELS[i], k);
      LevelsOneMore(LevelOf(k), i);
      LookupInASum(index, Grouped(rows, LEVELS[i]), k);
      FoundOrNot(Grouped(rows, LEVELS[i]), k);
    }
  }

  lemma AllQueriesDone(index: Index, rows: Rows)
    requires QueriesDone(index, rows, 6)
    ensures Summarises(index, SqlTable(rows))
  {
    hide AggregateAt;
    assert LEVELS[..6] == LEVELS;
    forall k: Key
      ensures LevelOf(k) in LEVELS[..6]
    {
    }
  }

  lemma AggregateOfNoRows(rows: Rows, k: Key)
    ensures AggregateAt(SqlTable(rows), k).Some? <==> Group(SqlTable(rows), k) != {}
  {
  }

  /** What a save reports: whether a push is owed, and the edit's revision. */
  datatype SaveAck = SaveAck(synced: bool, rev: int)

  /** What an enrichment reports. */
  datatype EnrichmentSync = EnrichmentSync(changed: bool, synced: bool, revision: int)

  class QsoStore {
    const derive: string -> string
    var rows: Rows
    var index: Index
    var counters: map<Counter, int>
    var nextId: int

    function View(): Log
      reads this
    {
      Log(rows, index, counters, nextId)
    }

    ghost predicate Valid()
      reads this
    {
      Consistent(View(), derive)
    }

    /** A fresh database: no rows, no index, counters not seeded yet. */
    constructor (derive: string -> string)
      ensures Valid() && this.derive == derive && View() == Log(map[], map[], map[], 1)
    {
      this.derive := derive;
      rows, index, counters, nextId := map[], map[], map[], 1;
      new;
      forall k: Key ensures Lookup(index, k) == AggregateAt(SqlTable(rows), k) {
        assert Group(SqlTable(rows), k) == {};
      }
    }

    // ── index maintenance ──────────────────────────────────────────────────

    method ApplyCountDelta(k: Key, d: Delta)
      requires ValidRows(rows, derive) && ProperKey(k)
      modifies this`index
      ensures index == WithKey(old(index), k, Moved(Lookup(old(index), k), k, d, EdgesIn(SqlTable(rows), k)))
    {
      hide First, Last, Earlier, Later, ValidRow, SqlMatches, SqlStamp, SqlClasses, SqlFacts, ProperKey;
      if k in index {
        var was := index[k];
        index := index[k := Aggregate(was.count + d.count, Max(0, was.confirmed + d.confirmed),
                                      Earlier(was.first, d.stamp), Later(was.last, d.stamp),
                                      was.mask + MaskFor(k, d.classes))];
      } else {
        index := index[k := Aggregate(d.count, d.confirmed, d.stamp, d.stamp, MaskFor(k, d.classes))];
      }
      if d.count > 0 { return; }
      if index[k].count <= 0 {
        index := index - {k};
        return;
      }
      // Re-derive edges and mask from the table as it is now.
      var stamps := set id | id in rows && SqlMatches(rows[id], k) :: SqlStamp(rows[id]);
      var classes := set id, c | id in rows && SqlMatches(rows[id], k) && c in SqlClasses(rows[id].source) :: c;
      SubQueriesReadTheGroup(rows, derive, k);
      index := index[k := index[k].(first := First(stamps), last := Last(stamps), mask := MaskFor(k, classes))];
    }

    method AddDxccLevels(c: Contribution, d: Delta)
      requires ValidRows(rows, derive)
      modifies this`index
      ensures index == AppliedTo(old(index), DxccLevels(c), d, SqlTable(rows))
    {
      if c.dxcc == "" { return; }
      var levels := [DxccKey(c.dxcc, "", "")];
      if c.band != "" { levels := levels + [DxccKey(c.dxcc, c.band, "")]; }
      if c.mode != "" { levels := levels + [DxccKey(c.dxcc, "", c.mode)]; }
      if c.band != "" && c.mode != "" { levels := levels + [DxccKey(c.dxcc, c.band, c.mode)]; }
      assert levels == DxccLevels(c);
      assert levels[..0] == [];
      assert AppliedTo(index, [], d, SqlTable(rows)) == index;
      hide SqlTable, ValidRows, DxccLevels, AppliedTo, WithKey, Moved, Lookup, EdgesIn;
      for i := 0 to |levels|
        invariant forall k | k in levels :: ProperKey(k)
        invariant index == AppliedTo(old(index), levels[..i], d, SqlTable(rows))
      {
        AppliedOneMore(old(index), levels, i, d, SqlTable(rows));
        ApplyCountDelta(levels[i], d);
      }
      assert levels[..|levels|] == levels;
    }

    method ApplyCoverageDelta(c: Contribution, delta: int)
      modifies this`counters
      ensures counters == CountersMoved(old(counters), c, delta)
    {
      var items := [TotalQsos];
      if c.noDxcc { items := items + [NoDxcc]; }
      if c.noBand { items := items + [NoBand]; }
      if c.noMode { items := items + [NoMode]; }
      ListedCountersMove(old(counters), c, items, delta);
      hide Touches, Max, CountersBumped, CountersMoved;
      NoneListed(counters, delta);
      for i := 0 to |items|
        invariant counters == CountersBumped(old(counters), items[..i], delta)
      {
        if items[i] in counters {
          counters := counters[items[i] := Max(0, counters[items[i]] + delta)];
        }
        BumpOneMore(old(counters), items, i, delta);
      }
      assert items[..|items|] == items;
    }

    method IndexQso(c: Contribution, sign: int)
      requires ValidRows(rows, derive) && ProperContribution(c)
      modifies this`index, this`counters
      ensures View() == Indexed(old(View()), c, sign)
    {
      var d := Delta(c.stamp, sign, if c.confirmed then sign else 0, {c.source});
      ghost var t := SqlTable(rows);
      ghost var calls := if c.baseCall != "" then [CallKey(c.baseCall)] else [];
      ghost var grids := if c.grid4 != "" then [GridKey(c.grid4)] else [];
      if c.baseCall != "" { ApplyCountDelta(CallKey(c.baseCall), d); }
      assert index == AppliedTo(old(index), calls, d, t);
      if c.grid4 != "" { ApplyCountDelta(GridKey(c.grid4), d); }
      AppliedInTwoParts(old(index), calls, grids, d, t);
      assert index == AppliedTo(old(index), calls + grids, d, t);
      AddDxccLevels(c, d);
      AppliedInTwoParts(old(index), calls + grids, DxccLevels(c), d, t);
      assert KeyList(c) == calls + grids + DxccLevels(c);
      ApplyCoverageDelta(c, sign);
    }

    /** `reindexQSO`: run after the row update; reloads the stored row. */
    method ReindexQso(id: int, before: Contribution)
      requires ValidRows(rows, derive) && id in rows && ProperContribution(before)
      modifies this`index, this`counters
      ensures View() == Reindexed(old(View()), before, ContributionOf(rows[id], derive))
    {
      var after := ContributionOf(rows[id], derive);
      if before == after { return; }
      RowContributionIsProper(rows[id], derive);
      hide ContributionOf, ValidRows, Indexed;
      IndexQso(before, -1);
      IndexQso(after, 1);
    }

    method BackfillDxccIndex(before: Contribution, after: Contribution)
      requires ValidRows(rows, derive)
      modifies this`index, this`counters
      ensures View() == Backfilled(old(View()), before, after)
    {
      if before.dxcc != "" || after.dxcc == "" { return; }
      ApplyCoverageDelta(before, -1);
      ApplyCoverageDelta(after, 1);
      AddDxccLevels(after, Delta(after.stamp, 1, if after.confirmed then 1 else 0, {after.source}));
    }

    method RebuildWorkedIndex()
      requires ValidRows(rows, derive) && forall id | id in rows :: id < nextId
      modifies this`index, this`counters
      ensures Valid() && View() == RebuiltLog(old(View()))
    {
      ghost var spec := RebuiltLog(View());
      RebuildKeeps(View(), derive);
      index := map[];
      for i := 0 to |LEVELS|
        invariant QueriesDone(index, rows, i)
      {
        OneMoreQuery(index, rows, i);
        index := index + Grouped(rows, LEVELS[i]);
      }
      AllQueriesDone(index, rows);
      SummaryIsTheRebuild(index, SqlTable(rows));
      counters := map n | n in {TotalQsos, NoDxcc, NoBand, NoMode} :: Scan(rows, n);
      assert View() == spec;
    }

    // ── writers ────────────────────────────────────────────────────────────

    method InsertQso(q: Qso) returns (id: int)
      requires Valid() && Insertable(q)
      modifies this
      ensures Valid() && View() == Step(old(View()), Insert(q), derive)
      ensures id == old(nextId) && id !in old(rows) && rows == old(rows)[id := InsertedRow(q, derive)]
    {
      StepKeeps(View(), Insert(q), derive);
      InsertedRowIsValid(q, derive);
      var row := InsertedRow(q, derive);
      RowKeepsRowsValid(rows, nextId, row, derive);
      RowContributionIsProper(row, derive);
      hide Consistent, ContributionOf, InsertedRow, Indexed, ValidRows;
      id := nextId;
      rows := rows[id := row];
      nextId := nextId + 1;
      IndexQso(ContributionOf(row, derive), 1);
    }

    /** Writes one changed row and follows it with the index. */
    method ReplaceRow(id: int, row: Qso)
      requires Valid() && id in rows && ValidRow(row, derive)
      modifies this`rows, this`index, this`counters
      ensures Valid() && View() == Replaced(old(View()), id, row, derive)
      ensures rows == old(rows)[id := row]
    {
      ReplaceKeeps(View(), id, row, derive);
      RowKeepsRowsValid(rows, id, row, derive);
      RowContributionIsProper(rows[id], derive);
      hide Consistent, ContributionOf, Reindexed, ValidRows, ValidRow;
      var before := ContributionOf(rows[id], derive);
      rows := rows[id := row];
      ReindexQso(id, before);
    }

    method UpdateQso(id: int, q: Qso)
      requires Valid() && Storable(q)
      modifies this
      ensures Valid() && View() == Step(old(View()), Update(id, q), derive)
      ensures rows == if id in old(rows) then old(rows)[id := EditedRow(old(rows)[id], q, false, derive)] else old(rows)
    {
      if id in rows {
        EditedRowIsValid(rows[id], q, false, derive);
        hide ValidRow, EditedRow, Replaced;
        ReplaceRow(id, EditedRow(rows[id], q, false, derive));
      }
    }

    /** The pending-sync decision is taken from the stored remote id, never from
        the form; a missing row is an error and changes nothing. */
    method SaveQso(id: int, q: Qso) returns (ack: Option<SaveAck>)
      requires Valid() && Storable(q)
      modifies this
      ensures Valid() && View() == Step(old(View()), Save(id, q), derive)
      ensures ack.Some? <==> id in old(rows)
      ensures ack.Some? ==>
        && ack.value == SaveAck(old(rows)[id].wavelogId > 0, old(rows)[id].wavelogRev + 1)
        && rows[id].wavelogId == old(rows)[id].wavelogId
        && rows[id].wavelogRev == ack.value.rev
        && (ack.value.synced ==> rows[id].wavelogDirty)
    {
      if id !in rows { return None; }
      var stored := rows[id];
      hide Consistent, ValidRow, Replaced, FilledSubmode, EqualFold, Unpadded, SqlClasses;
      StoredRowIsValid(View(), id, derive);
      EditedRowIsValid(stored, q, stored.wavelogId > 0, derive);
      var row := EditedRow(stored, q, stored.wavelogId > 0, derive);
      ReplaceRow(id, row);
      ack := Some(SaveAck(stored.wavelogId > 0, rows[id].wavelogRev));
    }

    /** Callbook enrichment: nothing to do without data; a missing row is an error
        otherwise. Fills gaps only, bumps the revision exactly when a
        column was filled and owes a push exactly when such a row is synced. */
    method EnrichQso(id: int, e: Enrichment) returns (sync: Option<EnrichmentSync>)
      requires Valid() && Trim(e.dxcc) == e.dxcc
      modifies this
      ensures Valid() && View() == Step(old(View()), Enrich(id, e), derive)
      ensures rows == if id in old(rows) then old(rows)[id := EnrichedRow(old(rows)[id], e)] else old(rows)
      ensures sync.Some? <==> id in old(rows) || NothingOffered(e)
      ensures NothingOffered(e) ==> sync == Some(EnrichmentSync(false, false, 0)) && View() == old(View())
      ensures sync.Some? && id in old(rows) ==>
        var was, now := old(rows)[id], rows[id];
        && (sync.value.changed <==> now != was)
        && (sync.value.synced <==> now != was && was.wavelogId > 0)
        && (sync.value.changed ==> sync.value.revision == now.wavelogRev == was.wavelogRev + 1)
        && (sync.value.synced ==> now.wavelogDirty)
        && (was.gridSquare != "" ==> now.gridSquare == was.gridSquare)
        && (was.dxcc != "" ==> now.dxcc == was.dxcc && now.dxccSource == was.dxccSource)
    {
      if NothingOffered(e) {
        if id in rows {
          NothingOfferedFillsNothing(rows[id], e);
          assert rows[id := rows[id]] == rows;
        }
        return Some(EnrichmentSync(false, false, 0));
      }
      if id !in rows { return None; }
      var was := rows[id];
      EnrichedRowIsValid(was, e, derive);
      hide ValidRow, Replaced;
      var changed := FillsSomething(was, e);
      var now := EnrichedRow(was, e);
      ReplaceRow(id, now);
      sync := Some(EnrichmentSync(changed, changed && was.wavelogId > 0, if changed then now.wavelogRev else 0));
    }

    /** One row of the DXCC backfill: true when the row was still unresolved. */
    method ResolveDxcc(id: int, dxcc: string) returns (updated: bool)
      requires Valid() && Trim(dxcc) == dxcc
      modifies this
      ensures Valid() && View() == Step(old(View()), Op.ResolveDxcc(id, dxcc), derive)
      ensures updated <==> dxcc != "" && id in old(rows) && old(rows)[id].dxcc == ""
      ensures rows == if updated then old(rows)[id := ResolvedRow(old(rows)[id], dxcc)] else old(rows)
    {
      StepKeeps(View(), Op.ResolveDxcc(id, dxcc), derive);
      updated := false;
      if Trim(dxcc) == "" || id !in rows || rows[id].dxcc != "" { return; }
      var was := rows[id];
      var row := ResolvedRow(was, dxcc);
      LevelsAreTheNewKeys(was, dxcc, derive);
      RowKeepsRowsValid(rows, id, row, derive);
      hide Consistent, ContributionOf, Backfilled, ValidRows;
      rows := rows[id := row];
      BackfillDxccIndex(ContributionOf(was, derive), ContributionOf(row, derive));
      updated := true;
    }

    /** `BackfillDXCC`: the whole batch, in whatever order the map yields it. */
    method BackfillDxcc(byId: map<int, string>) returns (updated: int)
      requires Valid() && forall id | id in byId :: Trim(byId[id]) == byId[id]
      modifies this
      ensures Valid()
      ensures rows == BackfilledRows(old(rows), byId, byId.Keys)
      ensures updated == |Unresolved(old(rows), byId, byId.Keys)|
    {
      hide Consistent, Trim, Step, BackfilledRows, Unresolved;
      updated := 0;
      var todo := byId.Keys;
      ghost var done: set<int> := {};
      NothingBackfilled(rows, byId);
      while todo != {}
        invariant todo + done == byId.Keys && todo !! done
        invariant Valid()
        invariant rows == BackfilledRows(old(rows), byId, done)
        invariant updated == |Unresolved(old(rows), byId, done)|
        decreases todo
      {
        ghost var _ := SomeMember(todo);
        var id :| id in todo;
        OneMoreBackfilled(old(rows), byId, done, id);
        var hit := ResolveDxcc(id, byId[id]);
        if hit { updated := updated + 1; }
        todo, done := todo - {id}, done + {id};
      }
      assert done == byId.Keys;
    }

    /** `SetWavelogIDChecked`: true when the row was edited after the upload was
        taken, and then it is pending; a missing row is an error. */
    method SetWavelogIdChecked(id: int, remoteId: int, uploadedRev: int) returns (changed: Option<bool>)
      requires Valid()
      modifies this`rows
      ensures Valid() && View() == Step(old(View()), AttachId(id, remoteId, uploadedRev), derive)
      ensures id in old(rows) ==> rows[id].wavelogId == remoteId && rows[id].wavelogRev == old(rows)[id].wavelogRev
      ensures id in old(rows) ==>
        changed == Some(uploadedRev >= 0 && old(rows)[id].wavelogRev > uploadedRev)
        && (rows[id].wavelogDirty <==> old(rows)[id].wavelogDirty || changed.value)
      ensures id !in old(rows) ==> rows == old(rows) && changed == if uploadedRev < 0 then Some(false) else None
    {
      StepKeeps(View(), AttachId(id, remoteId, uploadedRev), derive);
      hide Consistent;
      if id in rows {
        var q := rows[id];
        if uploadedRev >= 0 {
          rows := rows[id := q.(wavelogId := remoteId,
                                wavelogDirty := if q.wavelogRev > uploadedRev then true else q.wavelogDirty)];
        } else {
          rows := rows[id := q.(wavelogId := remoteId)];
        }
      }
      if uploadedRev < 0 { return Some(false); }
      if id !in rows { return None; }
      changed := Some(rows[id].wavelogRev > uploadedRev);
    }

    /** `ClearWavelogDirtyIfRevision`: an acknowledgement of another revision
        changes nothing. */
    method ClearWavelogDirtyIfRevision(id: int, rev: int)
      requires Valid()
      modifies this`rows
      ensures Valid() && View() == Step(old(View()), ClearPending(id, rev), derive)
      ensures id !in old(rows) || old(rows)[id].wavelogRev != rev ==> rows == old(rows)
      ensures id in old(rows) && old(rows)[id].wavelogRev == rev ==>
                rows == old(rows)[id := old(rows)[id].(wavelogDirty := false)]
    {
      StepKeeps(View(), ClearPending(id, rev), derive);
      hide Consistent;
      if id in rows {
        assert rows[id := rows[id]] == rows;
        if rows[id].wavelogRev == rev { rows := rows[id := rows[id].(wavelogDirty := false)]; }
      }
    }

    method DeleteQso(id: int)
      requires Valid()
      modifies this
      ensures Valid() && View() == Step(old(View()), Delete(id), derive)
      ensures rows == old(rows) - {id}
    {
      if id !in rows { return; }
      StepKeeps(View(), Delete(id), derive);
      RowContributionIsProper(rows[id], derive);
      assert ValidRows(rows - {id}, derive);
      hide Consistent, ContributionOf, Indexed, ValidRows;
      var was := ContributionOf(rows[id], derive);
      rows := rows - {id};
      IndexQso(was, -1);
    }

    method PurgeQsos()
      requires Valid()
      modifies this
      ensures Valid() && View() == Step(old(View()), Purge, derive)
      ensures rows == map[] && index == map[]
    {
      rows := map[];
      RebuildWorkedIndex();
      assert AllKeys(SqlTable(rows)) == {};
    }
  }
}
