/** The orders contacts are listed in, and the one listing a set of contacts
    has in an order. */
module Listing {
  import opened Common
  import opened Text
  import opened Contact
  import opened LogSteps

  /** By date, start time and id (ascending or newest first), or by id descending. */
  datatype Order = Oldest | Newest | HighestId

  predicate Comes(rows: Rows, o: Order, a: int, b: int) {
    a in rows && b in rows && ComesBefore(rows[a], a, rows[b], b, o)
  }

  predicate ComesBefore(p: Qso, a: int, q: Qso, b: int, o: Order) {
    match o
    case Oldest =>
      || Before(p.qsoDate, q.qsoDate)
      || (p.qsoDate == q.qsoDate && (Before(p.timeOn, q.timeOn) || (p.timeOn == q.timeOn && a < b)))
    case Newest =>
      || Before(q.qsoDate, p.qsoDate)
      || (p.qsoDate == q.qsoDate && (Before(q.timeOn, p.timeOn) || (p.timeOn == q.timeOn && a > b)))
    case HighestId => a > b
  }

  lemma ComesIsTotal(rows: Rows, o: Order, a: int, b: int)
    requires a in rows && b in rows
    ensures a == b || Comes(rows, o, a, b) || Comes(rows, o, b, a)
  {
    BeforeTotal(rows[a].qsoDate, rows[b].qsoDate);
    BeforeTotal(rows[a].timeOn, rows[b].timeOn);
  }

  lemma ComesIsAsymmetric(rows: Rows, o: Order, a: int, b: int)
    requires Comes(rows, o, a, b)
    ensures a != b && !Comes(rows, o, b, a)
  {
    var p, q := rows[a], rows[b];
    BeforeIrreflexive(p.qsoDate);
    BeforeIrreflexive(p.timeOn);
    if Before(p.qsoDate, q.qsoDate) { BeforeAsymmetric(p.qsoDate, q.qsoDate); }
    if Before(q.qsoDate, p.qsoDate) { BeforeAsymmetric(q.qsoDate, p.qsoDate); }
    if Before(p.timeOn, q.timeOn) { BeforeAsymmetric(p.timeOn, q.timeOn); }
    if Before(q.timeOn, p.timeOn) { BeforeAsymmetric(q.timeOn, p.timeOn); }
  }

  lemma ComesIsTransitive(rows: Rows, o: Order, a: int, b: int, c: int)
    requires Comes(rows, o, a, b) && Comes(rows, o, b, c)
    ensures Comes(rows, o, a, c)
  {
    var p, q, r := rows[a], rows[b], rows[c];
    if Before(p.qsoDate, q.qsoDate) && Before(q.qsoDate, r.qsoDate) { BeforeTransitive(p.qsoDate, q.qsoDate, r.qsoDate); }
    if Before(r.qsoDate, q.qsoDate) && Before(q.qsoDate, p.qsoDate) { BeforeTransitive(r.qsoDate, q.qsoDate, p.qsoDate); }
    if Before(p.timeOn, q.timeOn) && Before(q.timeOn, r.timeOn) { BeforeTransitive(p.timeOn, q.timeOn, r.timeOn); }
    if Before(r.timeOn, q.timeOn) && Before(q.timeOn, p.timeOn) { BeforeTransitive(r.timeOn, q.timeOn, p.timeOn); }
  }

  predicate InRows(rows: Rows, ids: set<int>) { forall id | id in ids :: id in rows }

  predicate IsTop(rows: Rows, o: Order, ids: set<int>, t: int) {
    t in ids && forall id | id in ids :: id == t || Comes(rows, o, t, id)
  }

  lemma {:induction false} TopExists(rows: Rows, o: Order, ids: set<int>)
    requires InRows(rows, ids) && ids != {}
    ensures exists t :: IsTop(rows, o, ids, t)
    decreases |ids|
  {
    hide Comes;
    var x := SomeMember(ids);
    var rest := ids - {x};
    if rest == {} {
      assert ids == {x};
      assert IsTop(rows, o, ids, x);
    } else {
      TopExists(rows, o, rest);
      var s :| IsTop(rows, o, rest, s);
      ComesIsTotal(rows, o, s, x);
      var t := if Comes(rows, o, s, x) then s else x;
      forall id | id in ids ensures id == t || Comes(rows, o, t, id) {
        if t == x && id != x && id != s { ComesIsTransitive(rows, o, x, s, id); }
      }
      assert IsTop(rows, o, ids, t);
    }
  }

  lemma TopIsUnique(rows: Rows, o: Order, ids: set<int>)
    ensures forall a, b | IsTop(rows, o, ids, a) && IsTop(rows, o, ids, b) :: a == b
  {
    hide Comes;
    forall a, b | IsTop(rows, o, ids, a) && IsTop(rows, o, ids, b) ensures a == b {
      if a != b { ComesIsAsymmetric(rows, o, a, b); }
    }
  }

  function Top(rows: Rows, o: Order, ids: set<int>): (t: int)
    requires InRows(rows, ids) && ids != {}
    ensures IsTop(rows, o, ids, t)
  {
    TopExists(rows, o, ids);
    TopIsUnique(rows, o, ids);
    var t :| t in ids && IsTop(rows, o, ids, t); t
  }

  /** `SELECT … ORDER BY`: the whole listing. */
  function Ordered(rows: Rows, o: Order, ids: set<int>): (s: seq<int>)
    requires InRows(rows, ids)
    ensures |s| == |ids|
    decreases |ids|
  {
    if ids == {} then [] else
      var t := Top(rows, o, ids);
      [t] + Ordered(rows, o, ids - {t})
  }

  function Members(s: seq<int>): set<int> { set id | id in s }

  predicate Sorted(rows: Rows, o: Order, s: seq<int>) {
    forall i, j | 0 <= i < j < |s| :: Comes(rows, o, s[i], s[j])
  }

  /** A listing of `ids`: strictly in order, with exactly these members. */
  predicate IsListing(rows: Rows, o: Order, ids: set<int>, s: seq<int>) {
    Members(s) == ids && Sorted(rows, o, s)
  }

  lemma TopFirst(rows: Rows, o: Order, ids: set<int>, t: int, tail: seq<int>)
    requires IsTop(rows, o, ids, t) && IsListing(rows, o, ids - {t}, tail)
    ensures IsListing(rows, o, ids, [t] + tail)
  {
    hide Comes;
    forall i | 0 <= i < |tail| ensures Comes(rows, o, t, tail[i]) { assert tail[i] in Members(tail); }
    assert Members([t] + tail) == {t} + Members(tail);
  }

  lemma {:induction false} OrderedIsAListing(rows: Rows, o: Order, ids: set<int>)
    requires InRows(rows, ids)
    ensures IsListing(rows, o, ids, Ordered(rows, o, ids))
    decreases |ids|
  {
    if ids == {} {
      assert Members([]) == {};
    } else {
      var t := Top(rows, o, ids);
      OrderedIsAListing(rows, o, ids - {t});
      TopFirst(rows, o, ids, t, Ordered(rows, o, ids - {t}));
      hide IsListing, Comes, IsTop;
    }
  }

  lemma HeadOfAListing(rows: Rows, o: Order, ids: set<int>, s: seq<int>)
    requires IsListing(rows, o, ids, s) && s != []
    ensures IsTop(rows, o, ids, s[0])
    ensures IsListing(rows, o, ids - {s[0]}, s[1..])
  {
    hide Comes;
    assert s[0] in Members(s);
    forall id | id in ids ensures id == s[0] || Comes(rows, o, s[0], id) { assert id in s; }
    assert s == [s[0]] + s[1..];
    assert Members(s) == {s[0]} + Members(s[1..]);
    if s[0] in s[1..] {
      var k :| 0 < k < |s| && s[k] == s[0];
      ComesIsAsymmetric(rows, o, s[0], s[k]);
    }
  }

  lemma OrderedStep(rows: Rows, o: Order, ids: set<int>)
    requires InRows(rows, ids) && ids != {}
    ensures Ordered(rows, o, ids) == [Top(rows, o, ids)] + Ordered(rows, o, ids - {Top(rows, o, ids)})
  {
  }

  lemma HeadIsTop(rows: Rows, o: Order, ids: set<int>, s: seq<int>)
    requires InRows(rows, ids) && IsListing(rows, o, ids, s) && s != []
    ensures ids != {} && s[0] == Top(rows, o, ids) && |ids - {s[0]}| < |ids|
    ensures InRows(rows, ids - {s[0]}) && IsListing(rows, o, ids - {s[0]}, s[1..])
  {
    hide Comes;
    assert s[0] in Members(s);
    HeadOfAListing(rows, o, ids, s);
    TopIsUnique(rows, o, ids);
  }

  /** There is only one. */
  lemma {:induction false} ListingIsUnique(rows: Rows, o: Order, ids: set<int>, s: seq<int>)
    requires InRows(rows, ids) && IsListing(rows, o, ids, s)
    ensures s == Ordered(rows, o, ids)
    decreases |ids|
  {
    if s == [] {
      assert Members(s) == {};
    } else {
      hide *;
      HeadIsTop(rows, o, ids, s);
      OrderedStep(rows, o, ids);
      ListingIsUnique(rows, o, ids - {s[0]}, s[1..]);
      assert s == [s[0]] + s[1..];
    }
  }

  function After(rows: Rows, o: Order, ids: set<int>, cursor: int): set<int> {
    set id | id in ids && Comes(rows, o, cursor, id)
  }

  function Preceding(rows: Rows, o: Order, ids: set<int>, mark: int): set<int> {
    set id | id in ids && Comes(rows, o, id, mark)
  }

  lemma SplitAt(rows: Rows, o: Order, s: seq<int>, i: nat)
    requires Sorted(rows, o, s) && i < |s|
    ensures Preceding(rows, o, Members(s), s[i]) == Members(s[..i])
    ensures After(rows, o, Members(s), s[i]) == Members(s[i + 1..])
  {
    hide Comes;
    forall id | id in Members(s)
      ensures Comes(rows, o, id, s[i]) <==> id in s[..i]
      ensures Comes(rows, o, s[i], id) <==> id in s[i + 1..]
    {
      var j :| 0 <= j < |s| && s[j] == id;
      if j < i {
        assert s[..i][j] == id;
        ComesIsAsymmetric(rows, o, id, s[i]);
      } else if j > i {
        assert s[i + 1..][j - i - 1] == id;
        ComesIsAsymmetric(rows, o, s[i], id);
      } else if Comes(rows, o, id, id) {
        ComesIsAsymmetric(rows, o, id, id);
      }
    }
    assert Members(s[..i]) <= Members(s) && Members(s[i + 1..]) <= Members(s);
  }

  /** The members after a position are the ones a cursor there selects. */
  lemma SuffixIsWhatFollows(rows: Rows, o: Order, ids: set<int>, i: nat)
    requires InRows(rows, ids) && i < |ids|
    ensures var s := Ordered(rows, o, ids);
            && InRows(rows, After(rows, o, ids, s[i]))
            && s[i + 1..] == Ordered(rows, o, After(rows, o, ids, s[i]))
  {
    hide Comes;
    var s := Ordered(rows, o, ids);
    OrderedIsAListing(rows, o, ids);
    SplitAt(rows, o, s, i);
    ListingIsUnique(rows, o, After(rows, o, ids, s[i]), s[i + 1..]);
  }

  /** The number of members before a contact is its position. */
  lemma PositionCountsWhatPrecedes(rows: Rows, o: Order, ids: set<int>, i: nat)
    requires InRows(rows, ids) && i < |ids|
    ensures |Preceding(rows, o, ids, Ordered(rows, o, ids)[i])| == i
  {
    hide Comes;
    var s := Ordered(rows, o, ids);
    OrderedIsAListing(rows, o, ids);
    SplitAt(rows, o, s, i);
    forall a, b | 0 <= a < b < i ensures s[..i][a] != s[..i][b] { ComesIsAsymmetric(rows, o, s[a], s[b]); }
    DistinctMembers(s[..i]);
  }

  lemma {:induction false} DistinctMembers(s: seq<int>)
    requires forall i, j | 0 <= i < j < |s| :: s[i] != s[j]
    ensures |Members(s)| == |s|
  {
    if s != [] {
      var front := s[..|s| - 1];
      DistinctMembers(front);
      assert s == front + [s[|s| - 1]];
      assert Members(s) == Members(front) + {s[|s| - 1]};
      assert s[|s| - 1] !in Members(front);
    } else {
      assert Members(s) == {};
    }
  }

  // ── what the orders are ──────────────────────────────────────────────────

  /** The first contact is older: by date, then by time, then by id. */
  predicate Older(rows: Rows, a: int, b: int)
    requires a in rows && b in rows
  {
    var p, q := rows[a], rows[b];
    && !Before(q.qsoDate, p.qsoDate)
    && (p.qsoDate == q.qsoDate ==> !Before(q.timeOn, p.timeOn))
    && (p.qsoDate == q.qsoDate && p.timeOn == q.timeOn ==> a < b)
  }

  lemma OlderIsTheOrder(rows: Rows, a: int, b: int)
    requires a in rows && b in rows
    ensures Comes(rows, Oldest, a, b) <==> Older(rows, a, b)
    ensures Comes(rows, Newest, a, b) <==> Older(rows, b, a)
  {
    var p, q := rows[a], rows[b];
    BeforeTotal(p.qsoDate, q.qsoDate);
    BeforeTotal(p.timeOn, q.timeOn);
    if Before(p.qsoDate, q.qsoDate) { BeforeAsymmetric(p.qsoDate, q.qsoDate); }
    if Before(q.qsoDate, p.qsoDate) { BeforeAsymmetric(q.qsoDate, p.qsoDate); }
    if Before(p.timeOn, q.timeOn) { BeforeAsymmetric(p.timeOn, q.timeOn); }
    if Before(q.timeOn, p.timeOn) { BeforeAsymmetric(q.timeOn, p.timeOn); }
    BeforeIrreflexive(p.qsoDate);
    BeforeIrreflexive(p.timeOn);
    hide Before;
  }

  /** Of two contacts in the oldest-first listing the earlier position has the older
      one, in the newest-first listing the later position, and by id the higher comes
      first. */
  lemma ListingIsChronological(rows: Rows, ids: set<int>, i: nat, j: nat)
    requires InRows(rows, ids) && i < j < |ids|
    ensures var s := Ordered(rows, Oldest, ids); s[i] in rows && s[j] in rows && Older(rows, s[i], s[j])
    ensures var s := Ordered(rows, Newest, ids); s[i] in rows && s[j] in rows && Older(rows, s[j], s[i])
    ensures Ordered(rows, HighestId, ids)[i] > Ordered(rows, HighestId, ids)[j]
  {
    OrderedIsAListing(rows, Oldest, ids);
    OrderedIsAListing(rows, Newest, ids);
    OrderedIsAListing(rows, HighestId, ids);
    var s, t, u := Ordered(rows, Oldest, ids), Ordered(rows, Newest, ids), Ordered(rows, HighestId, ids);
    assert Comes(rows, HighestId, u[i], u[j]);
    hide Ordered, ComesBefore, Older;
    OlderIsTheOrder(rows, s[i], s[j]);
    OlderIsTheOrder(rows, t[i], t[j]);
  }

  /** For contacts with date and time in digits, older is earlier as a number. */
  lemma OlderInNumbers(rows: Rows, a: int, b: int)
    requires a in rows && b in rows && Older(rows, a, b)
    requires |rows[a].qsoDate| == |rows[b].qsoDate| && |rows[a].timeOn| == |rows[b].timeOn|
    requires AllDigits(rows[a].qsoDate + rows[a].timeOn) && AllDigits(rows[b].qsoDate + rows[b].timeOn)
    ensures Value(rows[a].qsoDate + rows[a].timeOn) <= Value(rows[b].qsoDate + rows[b].timeOn)
  {
    var p, q := rows[a], rows[b];
    var x, y := p.qsoDate + p.timeOn, q.qsoDate + q.timeOn;
    DigitsAreInNumericOrder(y, x);
    if Before(y, x) {
      if p.qsoDate == q.qsoDate {
        BeforeBehindAPrefix(p.qsoDate, q.timeOn, p.timeOn);
      } else {
        BeforeTotal(p.qsoDate, q.qsoDate);
        LongerStaysBefore(p.qsoDate, q.qsoDate, p.timeOn, q.timeOn);
        BeforeAsymmetric(x, y);
      }
    }
  }

  lemma {:induction false} LongerStaysBefore(a: string, b: string, x: string, y: string)
    requires |a| == |b| && Before(a, b)
    ensures Before(a + x, b + y)
  {
    if a[0] == b[0] {
      LongerStaysBefore(a[1..], b[1..], x, y);
      assert (a + x)[1..] == a[1..] + x && (b + y)[1..] == b[1..] + y;
    }
  }

  function Reversed(s: seq<int>): (r: seq<int>)
    ensures |r| == |s| && forall i | 0 <= i < |s| :: r[i] == s[|s| - 1 - i]
  {
    if s == [] then [] else Reversed(s[1..]) + [s[0]]
  }

  lemma Mirrored(rows: Rows, a: int, b: int)
    requires Comes(rows, Oldest, a, b)
    ensures Comes(rows, Newest, b, a)
  {
    hide ComesBefore, Older;
    OlderIsTheOrder(rows, a, b);
    OlderIsTheOrder(rows, b, a);
  }

  lemma SameMembersReversed(s: seq<int>)
    ensures Members(Reversed(s)) == Members(s)
  {
    var r := Reversed(s);
    hide Reversed;
    forall id | id in Members(s)
      ensures id in Members(r)
    {
      var i :| 0 <= i < |s| && s[i] == id;
      assert r[|s| - 1 - i] == id;
    }
  }

  lemma SortedBackwards(rows: Rows, s: seq<int>)
    requires Sorted(rows, Oldest, s)
    ensures Sorted(rows, Newest, Reversed(s))
  {
    var r := Reversed(s);
    hide Reversed, Comes;
    forall i, j | 0 <= i < j < |r|
      ensures Comes(rows, Newest, r[i], r[j])
    {
      Mirrored(rows, r[j], r[i]);
    }
  }

  /** Newest first is oldest first, read backwards. */
  lemma NewestIsOldestReversed(rows: Rows, ids: set<int>)
    requires InRows(rows, ids)
    ensures Ordered(rows, Newest, ids) == Reversed(Ordered(rows, Oldest, ids))
  {
    var s := Ordered(rows, Oldest, ids);
    OrderedIsAListing(rows, Oldest, ids);
    hide Ordered, Reversed, Sorted, Members, Comes;
    SameMembersReversed(s);
    SortedBackwards(rows, s);
    ListingIsUnique(rows, Newest, ids, Reversed(s));
  }
}
