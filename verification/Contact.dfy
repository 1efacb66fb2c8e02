/** One row of the `qsos` table, and what it contributes to the worked index
    in the two forms the program keeps in step: the Go form used by every
    incremental write and the SQL form used by the rebuild. */
module Contact {
  import opened Text

  /** A contact.  Columns no modelled operation looks into are grouped by where
      they travel: `report` holds the reports, comment, notes, power, references,
      serials, exchange and receive frequency; `session` the end time and the
      operator; `station` the own station, distance, bearing and the rest.
      `freq` is in MHz. */
  datatype Qso = Qso(
    call: string, qsoDate: string, timeOn: string, band: string, freq: real,
    mode: string, submode: string, gridSquare: string,
    name: string, qth: string, country: string, iota: string, cqZone: string, ituZone: string,
    report: string, session: string, station: string, contestId: string, contestAdifId: string,
    dxcc: string, dxccSource: string, source: string,
    qslRcvd: string, lotwRcvd: string, eqslRcvd: string,
    baseCall: string,
    wavelogId: int, wavelogDirty: bool, wavelogRev: int)

  /** The five provenance bits of `worked_dxcc.source_mask`. */
  datatype SourceClass = Manual | Wsjtx | Adif | Remote | Other

  // ── the Go form ──────────────────────────────────────────────────────────

  function SourceMaskBit(source: string): SourceClass {
    var s := Lower(Trim(source));
    if s == "" || s == "manual" || s == "form" then Manual
    else if Contains(s, "wsjt") then Wsjtx
    else if Contains(s, "adif") || s == "import" then Adif
    else if Contains(s, "wavelog") then Remote
    else Other
  }

  function CanonicalMode(mode: string, submode: string): string {
    if submode != "" then submode else mode
  }

  function Repeat(c: char, n: nat): string { seq(n, _ => c) }

  function QsoStamp(qsoDate: string, timeOn: string): string {
    qsoDate + (if |timeOn| < 6 then Repeat('0', 6 - |timeOn|) + timeOn else timeOn)
  }

  predicate IsQslReceived(status: string) {
    var s := Upper(Trim(status));
    s == "Y" || s == "V"
  }

  predicate Confirmed(q: Qso) {
    IsQslReceived(q.qslRcvd) || IsQslReceived(q.lotwRcvd) || IsQslReceived(q.eqslRcvd)
  }

  /** Everything a contact adds to the index.  Two contacts with equal
      contributions add and remove exactly the same deltas. */
  datatype Contribution = Contribution(
    baseCall: string, grid4: string, dxcc: string, band: string, mode: string,
    stamp: string, confirmed: bool, source: SourceClass,
    noDxcc: bool, noBand: bool, noMode: bool)

  /** `derive` is the callsign rule; the index needs nothing about it. */
  function ContributionOf(q: Qso, derive: string -> string): Contribution {
    Contribution(
      derive(q.call),
      if |q.gridSquare| >= 4 then Upper(q.gridSquare[..4]) else "",
      Trim(q.dxcc), q.band, CanonicalMode(q.mode, q.submode),
      QsoStamp(q.qsoDate, q.timeOn), Confirmed(q), SourceMaskBit(q.source),
      q.dxcc == "", q.band == "", q.mode == "")
  }

  /** A primary key of one of the three aggregate tables. */
  datatype Key =
    | CallKey(baseCall: string)
    | GridKey(grid4: string)
    | DxccKey(dxcc: string, band: string, mode: string)

  /** The aggregates a contribution joins, in the order they are written. */
  function DxccLevels(c: Contribution): seq<Key> {
    if c.dxcc == "" then [] else
      [DxccKey(c.dxcc, "", "")]
      + (if c.band != "" then [DxccKey(c.dxcc, c.band, "")] else [])
      + (if c.mode != "" then [DxccKey(c.dxcc, "", c.mode)] else [])
      + (if c.band != "" && c.mode != "" then [DxccKey(c.dxcc, c.band, c.mode)] else [])
  }

  function KeyList(c: Contribution): seq<Key> {
    (if c.baseCall != "" then [CallKey(c.baseCall)] else [])
    + (if c.grid4 != "" then [GridKey(c.grid4)] else [])
    + DxccLevels(c)
  }

  function KeySet(c: Contribution): set<Key> { set k | k in KeyList(c) }

  /** A contact reduced to what the aggregates are computed from. */
  datatype Facts = Facts(keys: set<Key>, stamp: string, confirmed: bool, classes: set<SourceClass>)

  function GoFacts(q: Qso, derive: string -> string): Facts {
    var c := ContributionOf(q, derive);
    Facts(KeySet(c), c.stamp, c.confirmed, {c.source})
  }

  // ── the SQL form ─────────────────────────────────────────────────────────

  /** The CASE expressions of the mask: each bit is tested on its own. */
  predicate SqlClass(source: string, bit: SourceClass) {
    var s := Lower(source);
    match bit
    case Manual => s == "" || s == "manual" || s == "form"
    case Wsjtx => Contains(s, "wsjt")
    case Adif => Contains(s, "adif") || s == "import"
    case Remote => Contains(s, "wavelog")
    case Other => s != "" && s != "manual" && s != "form" && !Contains(s, "wsjt")
                  && !Contains(s, "adif") && s != "import" && !Contains(s, "wavelog")
  }

  function SqlClasses(source: string): set<SourceClass> {
    set bit | bit in {Manual, Wsjtx, Adif, Remote, Other} && SqlClass(source, bit)
  }

  predicate SqlConfirmed(q: Qso) {
    Upper(q.qslRcvd) in {"Y", "V"} || Upper(q.lotwRcvd) in {"Y", "V"} || Upper(q.eqslRcvd) in {"Y", "V"}
  }

  /** `printf('%s%06s', …)`: the zero flag does not apply to text, so a short
      time is padded with blanks. */
  function SqlStamp(q: Qso): string {
    q.qsoDate + (if |q.timeOn| < 6 then Repeat(' ', 6 - |q.timeOn|) + q.timeOn else q.timeOn)
  }

  function SqlMode(q: Qso): string { if q.submode != "" then q.submode else q.mode }

  /** The groups the rebuild's six SELECTs put a row into. */
  function SqlKeys(q: Qso): set<Key> {
    (if q.baseCall != "" then {CallKey(q.baseCall)} else {})
    + (if |q.gridSquare| >= 4 then {GridKey(Upper(q.gridSquare[..4]))} else {})
    + (if q.dxcc != "" then {DxccKey(q.dxcc, "", "")} else {})
    + (if q.dxcc != "" && q.band != "" then {DxccKey(q.dxcc, q.band, "")} else {})
    + (if q.dxcc != "" && q.mode != "" then {DxccKey(q.dxcc, "", SqlMode(q))} else {})
    + (if q.dxcc != "" && q.band != "" && q.mode != "" then {DxccKey(q.dxcc, q.band, SqlMode(q))} else {})
  }

  function SqlFacts(q: Qso): Facts {
    Facts(SqlKeys(q), SqlStamp(q), SqlConfirmed(q), SqlClasses(q.source))
  }

  /** The WHERE clause a removal uses to re-derive the edges of one aggregate. */
  predicate SqlMatches(q: Qso, k: Key) {
    match k
    case CallKey(b) => q.baseCall == b
    case GridKey(g) => Upper(if |q.gridSquare| >= 4 then q.gridSquare[..4] else q.gridSquare) == g
    case DxccKey(d, b, m) => q.dxcc == d && (b == "" || q.band == b) && (m == "" || SqlMode(q) == m)
  }

  // ── when the two forms agree ─────────────────────────────────────────────

  /** No surrounding blanks in the columns the Go form trims and SQL does not. */
  predicate Unpadded(q: Qso) {
    && Trim(q.dxcc) == q.dxcc && Trim(q.source) == q.source
    && Trim(q.qslRcvd) == q.qslRcvd && Trim(q.lotwRcvd) == q.lotwRcvd && Trim(q.eqslRcvd) == q.eqslRcvd
  }

  /** The row invariant the index depends on. */
  predicate ValidRow(q: Qso, derive: string -> string) {
    && Unpadded(q)
    && |SqlClasses(q.source)| == 1
    && (q.mode == "" ==> q.submode == "")
    && |q.timeOn| >= 6
    && q.baseCall == derive(q.call)
  }

  /** An unpadded source falls into its Go class in SQL too, perhaps among others. */
  lemma GoClassIsASqlClass(source: string)
    requires Trim(source) == source
    ensures SourceMaskBit(source) in SqlClasses(source)
  {}

  lemma OneClassIsTheGoClass(source: string)
    requires Trim(source) == source
    ensures |SqlClasses(source)| == 1 <==> SqlClasses(source) == {SourceMaskBit(source)}
  {
    GoClassIsASqlClass(source);
    var go := SourceMaskBit(source);
    if |SqlClasses(source)| == 1 {
      assert |SqlClasses(source) - {go}| == 0;
      assert SqlClasses(source) == {go};
    }
  }

  lemma PaddingDiffers(t: string)
    requires |t| < 6
    ensures Repeat('0', 6 - |t|) + t != Repeat(' ', 6 - |t|) + t
  {
    assert (Repeat('0', 6 - |t|) + t)[0] == '0' && (Repeat(' ', 6 - |t|) + t)[0] == ' ';
  }

  lemma StampsAgree(q: Qso)
    ensures QsoStamp(q.qsoDate, q.timeOn) == SqlStamp(q) <==> |q.timeOn| >= 6
    ensures |q.timeOn| <= 6 ==> |SqlStamp(q)| == |QsoStamp(q.qsoDate, q.timeOn)| == |q.qsoDate| + 6
    ensures forall i | |q.qsoDate| <= i < |q.qsoDate| + 6 - |q.timeOn| ::
      QsoStamp(q.qsoDate, q.timeOn)[i] == '0' && SqlStamp(q)[i] == ' '
    ensures |q.timeOn| >= 6 ==> SqlStamp(q) == q.qsoDate + q.timeOn
  {
    if |q.timeOn| < 6 {
      PaddingDiffers(q.timeOn);
      var zero, blank := Repeat('0', 6 - |q.timeOn|) + q.timeOn, Repeat(' ', 6 - |q.timeOn|) + q.timeOn;
      assert (q.qsoDate + zero)[|q.qsoDate|..] == zero && (q.qsoDate + blank)[|q.qsoDate|..] == blank;
    }
  }

  /** For an unpadded row with an entity, the two forms yield the same facts
      exactly on the rows that satisfy the row invariant. */
  lemma FormsAgreeExactlyOnValidRows(q: Qso, derive: string -> string)
    requires Unpadded(q) && q.dxcc != ""
    ensures GoFacts(q, derive) == SqlFacts(q) <==> ValidRow(q, derive)
  {
    var c := ContributionOf(q, derive);
    assert c.stamp == SqlStamp(q) <==> |q.timeOn| >= 6 by { StampsAgree(q); }
    assert {c.source} == SqlClasses(q.source) <==> |SqlClasses(q.source)| == 1 by { OneClassIsTheGoClass(q.source); }
    assert KeySet(c) == SqlKeys(q) <==> ((q.mode == "" ==> q.submode == "") && q.baseCall == derive(q.call)) by { KeysAgree(q, c); }
    assert c.confirmed == SqlConfirmed(q) by {
      assert c.confirmed == Confirmed(q);
      hide ContributionOf, SqlKeys, KeySet, Trim;
    }
  }

  /** Every valid row, resolved or not, contributes the same facts in both forms. */
  lemma ValidRowsAgree(q: Qso, derive: string -> string)
    requires ValidRow(q, derive)
    ensures GoFacts(q, derive) == SqlFacts(q)
  {
    OneClassIsTheGoClass(q.source);
    KeysAgree(q, ContributionOf(q, derive));
  }

  /** Membership in the list of aggregates, read off the contribution. */
  lemma KeyListMembers(c: Contribution, k: Key)
    ensures k in KeyList(c) <==>
      match k
      case CallKey(b) => b == c.baseCall != ""
      case GridKey(g) => g == c.grid4 != ""
      case DxccKey(d, b, m) => d == c.dxcc != "" && (b == c.band || b == "") && (m == c.mode || m == "")
  {
    var calls, grids := if c.baseCall != "" then [CallKey(c.baseCall)] else [], if c.grid4 != "" then [GridKey(c.grid4)] else [];
    assert KeyList(c) == calls + grids + DxccLevels(c);
    assert k in KeyList(c) <==> k in calls || k in grids || k in DxccLevels(c);
    LevelForm(c);
  }

  lemma KeysMatch(q: Qso, c: Contribution)
    requires c.dxcc == q.dxcc && c.band == q.band && c.mode == SqlMode(q)
    requires c.grid4 == if |q.gridSquare| >= 4 then Upper(q.gridSquare[..4]) else ""
    requires (q.mode == "" ==> q.submode == "") && q.baseCall == c.baseCall
    ensures KeySet(c) == SqlKeys(q)
  {
    assert forall k :: k in KeySet(c) <==> k in KeyList(c);
    hide KeySet, KeyList, DxccLevels, SqlKeys;
    forall k
      ensures k in KeySet(c) <==> k in SqlKeys(q)
    {
      KeyListMembers(c, k);
      SqlKeyMembers(q, k);
    }
  }

  /** One key that only one of the two forms has. */
  lemma KeysDiffer(q: Qso, c: Contribution)
    requires c.dxcc == q.dxcc != "" && c.mode == SqlMode(q)
    requires (q.mode == "" && q.submode != "") || q.baseCall != c.baseCall
    ensures KeySet(c) != SqlKeys(q)
  {
    var k :=
      if q.mode == "" && q.submode != "" then DxccKey(q.dxcc, "", q.submode)
      else if c.baseCall != "" then CallKey(c.baseCall)
      else CallKey(q.baseCall);
    assert k in KeySet(c) <==> k in KeyList(c);
    hide KeySet, KeyList, DxccLevels, SqlKeys;
    KeyListMembers(c, k);
    SqlKeyMembers(q, k);
  }

  lemma KeysAgree(q: Qso, c: Contribution)
    requires c.dxcc == q.dxcc && c.band == q.band && c.mode == SqlMode(q)
    requires c.grid4 == if |q.gridSquare| >= 4 then Upper(q.gridSquare[..4]) else ""
    ensures q.dxcc != "" ==> (KeySet(c) == SqlKeys(q) <==> ((q.mode == "" ==> q.submode == "") && q.baseCall == c.baseCall))
    ensures (q.mode == "" ==> q.submode == "") && q.baseCall == c.baseCall ==> KeySet(c) == SqlKeys(q)
  {
    hide KeySet, SqlKeys;
    if (q.mode == "" ==> q.submode == "") && q.baseCall == c.baseCall {
      KeysMatch(q, c);
    } else if q.dxcc != "" {
      KeysDiffer(q, c);
    }
  }

  lemma SqlKeyMembers(q: Qso, k: Key)
    ensures k in SqlKeys(q) <==>
      match k
      case CallKey(b) => b == q.baseCall != ""
      case GridKey(g) => |q.gridSquare| >= 4 && g == Upper(q.gridSquare[..4])
      case DxccKey(d, b, m) => d == q.dxcc != "" && (b == q.band || b == "") && (m == "" || (q.mode != "" && m == SqlMode(q)))
  {}

  /** The keys the index can hold. */
  predicate ProperKey(k: Key) {
    match k
    case CallKey(b) => b != ""
    case GridKey(g) => |g| == 4
    case DxccKey(d, _, _) => d != ""
  }

  /** On valid rows the removal's WHERE clause selects exactly the rows the
      rebuild groups under that key. */
  lemma WhereClauseSelectsTheGroup(q: Qso, derive: string -> string, k: Key)
    requires ValidRow(q, derive) && ProperKey(k)
    ensures SqlMatches(q, k) <==> k in SqlKeys(q)
  {}

  predicate NoDuplicates(ks: seq<Key>) {
    forall i, j | 0 <= i < j < |ks| :: ks[i] != ks[j]
  }

  lemma JoinedWithoutDuplicates(a: seq<Key>, b: seq<Key>)
    requires NoDuplicates(a) && NoDuplicates(b) && forall k | k in a :: k !in b
    ensures NoDuplicates(a + b)
  {
    var ab := a + b;
    forall i, j | 0 <= i < j < |ab| ensures ab[i] != ab[j] {
      if i < |a| <= j {
        assert ab[i] in a && ab[j] in b;
      }
    }
  }

  /** No aggregate is written twice in one pass. */
  lemma KeyListHasNoDuplicates(c: Contribution)
    ensures NoDuplicates(KeyList(c)) && NoDuplicates(DxccLevels(c))
  {
    var calls, grids := if c.baseCall != "" then [CallKey(c.baseCall)] else [], if c.grid4 != "" then [GridKey(c.grid4)] else [];
    assert KeyList(c) == calls + grids + DxccLevels(c);
    LevelForm(c);
    hide DxccLevels;
    JoinedWithoutDuplicates(calls, grids);
    JoinedWithoutDuplicates(calls + grids, DxccLevels(c));
  }

  lemma LevelForm(c: Contribution)
    ensures NoDuplicates(DxccLevels(c))
    ensures forall k :: k in DxccLevels(c) <==>
      k.DxccKey? && k.dxcc == c.dxcc != "" && (k.band == c.band || k.band == "") && (k.mode == c.mode || k.mode == "")
  {
    if c.dxcc != "" {
      var entity, both := DxccKey(c.dxcc, "", ""), DxccKey(c.dxcc, c.band, c.mode);
      var byBand, byMode := DxccKey(c.dxcc, c.band, ""), DxccKey(c.dxcc, "", c.mode);
      if c.band != "" && c.mode != "" { assert DxccLevels(c) == [entity, byBand, byMode, both]; }
      else if c.band != "" { assert DxccLevels(c) == [entity, byBand]; }
      else if c.mode != "" { assert DxccLevels(c) == [entity, byMode]; }
      else { assert DxccLevels(c) == [entity]; }
    }
  }
}
