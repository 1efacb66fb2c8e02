/** The worked index as a mathematical object: what a rebuild computes, what
    one delta does to one aggregate, and why deltas reach the rebuilt value. */
module WorkedIndex {
  import opened Common
  import opened Text
  import opened Contact

  /** One row of `worked_call`, `worked_grid` or `worked_dxcc` (`updated_utc`
      left out).  Only `worked_dxcc` has a mask; elsewhere it stays empty. */
  datatype Aggregate = Aggregate(count: int, confirmed: int, first: string, last: string, mask: set<SourceClass>)

  type Index = map<Key, Aggregate>
  type FactTable = map<int, Facts>

  function Lookup(index: Index, k: Key): Option<Aggregate> {
    if k in index then Some(index[k]) else None
  }

  // ── the specification: GROUP BY over the whole table ─────────────────────

  function Group(t: FactTable, k: Key): set<int> { set id | id in t && k in t[id].keys }

  function ConfirmedIn(t: FactTable, k: Key): set<int> { set id | id in t && k in t[id].keys && t[id].confirmed }

  function Stamps(t: FactTable, k: Key): set<string> { set id | id in t && k in t[id].keys :: t[id].stamp }

  function Classes(t: FactTable, k: Key): set<SourceClass> {
    set id, c | id in t && k in t[id].keys && c in t[id].classes :: c
  }

  function MaskFor(k: Key, classes: set<SourceClass>): set<SourceClass> {
    if k.DxccKey? then classes else {}
  }

  /** An aggregate from the group's ids, confirmed ids, stamps and classes. */
  function Summary(ids: set<int>, confirmed: set<int>, edges: Edges): Option<Aggregate> {
    if ids == {} then None
    else Some(Aggregate(|ids|, |confirmed|, edges.first, edges.last, edges.mask))
  }

  /** First and last stamp and source mask of a group. */
  datatype Edges = Edges(first: string, last: string, mask: set<SourceClass>)

  function EdgesOf(stamps: set<string>, classes: set<SourceClass>, k: Key): Edges {
    Edges(First(stamps), Last(stamps), MaskFor(k, classes))
  }

  function EdgesIn(t: FactTable, k: Key): Edges { EdgesOf(Stamps(t, k), Classes(t, k), k) }

  function AggregateAt(t: FactTable, k: Key): Option<Aggregate> {
    Summary(Group(t, k), ConfirmedIn(t, k), EdgesIn(t, k))
  }

  function AllKeys(t: FactTable): set<Key> { set id, k | id in t && k in t[id].keys :: k }

  /** The index a rebuild computes. */
  function Rebuilt(t: FactTable): Index { map k | k in AllKeys(t) && AggregateAt(t, k).Some? :: AggregateAt(t, k).value }

  ghost predicate Summarises(index: Index, t: FactTable) {
    forall k: Key :: Lookup(index, k) == AggregateAt(t, k)
  }

  /** Being a summary and being the rebuilt index are the same thing. */
  lemma SummaryIsTheRebuild(index: Index, t: FactTable)
    ensures Summarises(index, t) <==> index == Rebuilt(t)
  {
    forall k: Key ensures k in AllKeys(t) <==> Group(t, k) != {} {
      if k in AllKeys(t) {
        var id :| id in t && k in t[id].keys;
        assert id in Group(t, k);
      } else {
        var g := Group(t, k);
        assert forall id | id in g :: k in AllKeys(t);
      }
    }
    assert forall k: Key :: Lookup(Rebuilt(t), k) == AggregateAt(t, k);
    if Summarises(index, t) {
      forall k: Key ensures k in index <==> k in Rebuilt(t)
                    ensures k in index ==> index[k] == Rebuilt(t)[k]
      {
        assert Lookup(index, k) == Lookup(Rebuilt(t), k);
      }
      assert index.Keys == Rebuilt(t).Keys;
    }
  }

  // ── one delta on one aggregate ───────────────────────────────────────────

  datatype Delta = Delta(stamp: string, count: int, confirmed: int, classes: set<SourceClass>)

  /** The delta of adding (`sign == 1`) or removing (`sign == -1`) a contact. */
  function DeltaOf(f: Facts, sign: int): Delta {
    Delta(f.stamp, sign, if f.confirmed then sign else 0, f.classes)
  }

  function Max(a: int, b: int): int { if a < b then b else a }

  /** The INSERT … ON CONFLICT DO UPDATE of one aggregate row. */
  function Upserted(prior: Option<Aggregate>, k: Key, d: Delta): Aggregate {
    match prior
    case None => Aggregate(d.count, d.confirmed, d.stamp, d.stamp, MaskFor(k, d.classes))
    case Some(a) => Aggregate(a.count + d.count, Max(0, a.confirmed + d.confirmed),
                              Earlier(a.first, d.stamp), Later(a.last, d.stamp), a.mask + MaskFor(k, d.classes))
  }

  /** The aggregate after one delta.  A decrement that leaves the row alive
      takes edges and mask from `now`, re-derived from the table at that moment. */
  function Moved(prior: Option<Aggregate>, k: Key, d: Delta, now: Edges): Option<Aggregate> {
    var u := Upserted(prior, k, d);
    if d.count > 0 then Some(u)
    else if u.count <= 0 then None
    else Some(u.(first := now.first, last := now.last, mask := now.mask))
  }

  function WithKey(index: Index, k: Key, a: Option<Aggregate>): Index {
    match a
    case None => index - {k}
    case Some(v) => index[k := v]
  }

  /** One pass over the aggregates a contact joins. */
  function AppliedTo(index: Index, ks: seq<Key>, d: Delta, now: FactTable): Index
    decreases |ks|
  {
    if ks == [] then index
    else AppliedTo(WithKey(index, ks[0], Moved(Lookup(index, ks[0]), ks[0], d, EdgesIn(now, ks[0]))), ks[1..], d, now)
  }

  lemma {:induction false} AppliedAt(index: Index, ks: seq<Key>, d: Delta, now: FactTable, k: Key)
    requires NoDuplicates(ks)
    ensures Lookup(AppliedTo(index, ks, d, now), k)
         == if k in ks then Moved(Lookup(index, k), k, d, EdgesIn(now, k)) else Lookup(index, k)
    decreases |ks|
  {
    if ks == [] {
    } else {
      AppliedAt(WithKey(index, ks[0], Moved(Lookup(index, ks[0]), ks[0], d, EdgesIn(now, ks[0]))), ks[1..], d, now, k);
      assert ks[0] !in ks[1..];
      assert k in ks <==> k == ks[0] || k in ks[1..];
    }
  }

  lemma {:induction false} AppliedInTwoParts(index: Index, a: seq<Key>, b: seq<Key>, d: Delta, now: FactTable)
    ensures AppliedTo(index, a + b, d, now) == AppliedTo(AppliedTo(index, a, d, now), b, d, now)
    decreases |a|
  {
    if a == [] {
      assert a + b == b;
    } else {
      assert (a + b)[0] == a[0] && (a + b)[1..] == a[1..] + b;
      AppliedInTwoParts(WithKey(index, a[0], Moved(Lookup(index, a[0]), a[0], d, EdgesIn(now, a[0]))), a[1..], b, d, now);
    }
  }

  lemma AppliedOneMore(index: Index, ks: seq<Key>, i: nat, d: Delta, now: FactTable)
    requires i < |ks|
    ensures var done := AppliedTo(index, ks[..i], d, now);
      AppliedTo(index, ks[..i + 1], d, now) == WithKey(done, ks[i], Moved(Lookup(done, ks[i]), ks[i], d, EdgesIn(now, ks[i])))
  {
    assert ks[..i + 1] == ks[..i] + [ks[i]];
    AppliedInTwoParts(index, ks[..i], [ks[i]], d, now);
    assert [ks[i]][1..] == [];
    hide WithKey, Moved, Lookup, EdgesIn;
  }

  // ── a contact joins or leaves a group ────────────────────────────────────

  lemma GroupWithRow(rest: FactTable, id: int, f: Facts, k: Key)
    requires id !in rest
    ensures k !in f.keys ==>
      && Group(rest[id := f], k) == Group(rest, k)
      && ConfirmedIn(rest[id := f], k) == ConfirmedIn(rest, k)
      && AggregateAt(rest[id := f], k) == AggregateAt(rest, k)
    ensures k in f.keys ==>
      && Group(rest[id := f], k) == Group(rest, k) + {id}
      && ConfirmedIn(rest[id := f], k) == ConfirmedIn(rest, k) + (if f.confirmed then {id} else {})
      && Stamps(rest[id := f], k) == Stamps(rest, k) + {f.stamp}
      && Classes(rest[id := f], k) == Classes(rest, k) + f.classes
  {
    var t := rest[id := f];
    if k in f.keys {
      assert t[id] == f;
      forall c ensures c in Classes(t, k) <==> c in Classes(rest, k) + f.classes {
        if c in f.classes { assert c in t[id].classes; }
        if c in Classes(rest, k) {
          var j :| j in rest && k in rest[j].keys && c in rest[j].classes;
          assert j in t && c in t[j].classes;
        }
      }
      forall s ensures s in Stamps(t, k) <==> s in Stamps(rest, k) + {f.stamp} {
        if s in Stamps(rest, k) {
          var j :| j in rest && k in rest[j].keys && rest[j].stamp == s;
          assert j in t && t[j].stamp == s;
        }
      }
    } else {
      SameGroup(rest, id, f, k);
      assert Group(t, k) == Group(rest, k) && ConfirmedIn(t, k) == ConfirmedIn(rest, k);
    }
  }

  lemma StampsOfAGroup(t: FactTable, k: Key)
    ensures Group(t, k) == {} <==> Stamps(t, k) == {}
    ensures Group(t, k) == {} ==> ConfirmedIn(t, k) == {} && Classes(t, k) == {}
  {
    var g, s := Group(t, k), Stamps(t, k);
    forall id | id in g ensures t[id].stamp in s {}
    forall c | c in Classes(t, k) ensures g != {} {
      var id :| id in t && k in t[id].keys && c in t[id].classes;
      assert id in g;
    }
    forall c | c in ConfirmedIn(t, k) ensures c in g {}
    forall x | x in s ensures g != {} {
      var id :| id in t && k in t[id].keys && t[id].stamp == x;
      assert id in g;
    }
  }

  function Widened(e: Edges, f: Facts, k: Key): Edges {
    Edges(Earlier(e.first, f.stamp), Later(e.last, f.stamp), e.mask + MaskFor(k, f.classes))
  }

  lemma EdgesWiden(stamps: set<string>, classes: set<SourceClass>, f: Facts, k: Key)
    requires stamps != {}
    ensures EdgesOf(stamps + {f.stamp}, classes + f.classes, k) == Widened(EdgesOf(stamps, classes, k), f, k)
  {
    EdgesWithOneMore(stamps, f.stamp);
    assert MaskFor(k, classes + f.classes) == MaskFor(k, classes) + MaskFor(k, f.classes);
  }

  lemma UpsertWidens(ids: set<int>, confirmed: set<int>, e: Edges, id: int, f: Facts, k: Key, now: Edges)
    requires id !in ids && confirmed <= ids && ids != {}
    ensures Moved(Summary(ids, confirmed, e), k, DeltaOf(f, 1), now)
         == Summary(ids + {id}, confirmed + (if f.confirmed then {id} else {}), Widened(e, f, k))
  {
    hide Earlier, Later;
    assert id !in confirmed && |ids + {id}| == |ids| + 1 && |confirmed + {id}| == |confirmed| + 1;
    assert ids + {id} != {};
    hide MaskFor;
  }

  lemma UpsertStarts(confirmed: set<int>, e: Edges, id: int, f: Facts, k: Key, now: Edges)
    requires confirmed == {}
    ensures Moved(Summary({}, confirmed, e), k, DeltaOf(f, 1), now)
         == Summary({id}, confirmed + (if f.confirmed then {id} else {}), EdgesOf({f.stamp}, f.classes, k))
  {
    EdgesOfOne(f.stamp);
    assert id in {id};
  }

  /** One more member: the upsert of +1 is the summary of the larger group. */
  lemma MemberJoins(ids: set<int>, confirmed: set<int>, stamps: set<string>, classes: set<SourceClass>,
                    id: int, f: Facts, k: Key, now: Edges)
    requires id !in ids && confirmed <= ids
    requires ids == {} <==> stamps == {}
    requires ids == {} ==> classes == {}
    ensures Moved(Summary(ids, confirmed, EdgesOf(stamps, classes, k)), k, DeltaOf(f, 1), now)
         == Summary(ids + {id}, confirmed + (if f.confirmed then {id} else {}),
                    EdgesOf(stamps + {f.stamp}, classes + f.classes, k))
  {
    if ids == {} {
      UpsertStarts(confirmed, EdgesOf(stamps, classes, k), id, f, k, now);
      assert ids + {id} == {id} && stamps + {f.stamp} == {f.stamp} && classes + f.classes == f.classes;
    } else {
      UpsertWidens(ids, confirmed, EdgesOf(stamps, classes, k), id, f, k, now);
      EdgesWiden(stamps, classes, f, k);
    }
  }

  /** One member less: counts fall by one, edges come from the current table. */
  lemma MemberLeaves(ids: set<int>, confirmed: set<int>, stamps: set<string>, classes: set<SourceClass>,
                     id: int, f: Facts, k: Key, now: Edges)
    requires id !in ids && confirmed <= ids
    ensures Moved(Summary(ids + {id}, confirmed + (if f.confirmed then {id} else {}),
                          EdgesOf(stamps, classes, k)), k, DeltaOf(f, -1), now)
         == Summary(ids, confirmed, now)
  {
    hide Earlier, Later, EdgesOf;
    assert id in ids + {id};
  }

  /** Adding a member whose stamp and classes the edges already cover changes
      the counts only. */
  lemma CoveredMemberJoins(ids: set<int>, confirmed: set<int>, stamps: set<string>, classes: set<SourceClass>,
                           id: int, f: Facts, k: Key, now: Edges)
    requires id !in ids && confirmed <= ids && f.stamp in stamps && f.classes <= classes
    requires ids == {} ==> stamps == {f.stamp} && classes == f.classes
    ensures Moved(Summary(ids, confirmed, EdgesOf(stamps, classes, k)), k, DeltaOf(f, 1), now)
         == Summary(ids + {id}, confirmed + (if f.confirmed then {id} else {}), EdgesOf(stamps, classes, k))
  {
    if ids == {} {
      UpsertStarts(confirmed, EdgesOf(stamps, classes, k), id, f, k, now);
      assert ids + {id} == {id};
    } else {
      UpsertWidens(ids, confirmed, EdgesOf(stamps, classes, k), id, f, k, now);
      EdgesWiden(stamps, classes, f, k);
      assert stamps + {f.stamp} == stamps && classes + f.classes == classes;
    }
  }

  /** Adding a contact moves an aggregate to the one of the larger table. */
  lemma AddingReachesTheGroup(rest: FactTable, id: int, f: Facts, k: Key, now: Edges)
    requires id !in rest && k in f.keys
    ensures Moved(AggregateAt(rest, k), k, DeltaOf(f, 1), now) == AggregateAt(rest[id := f], k)
  {
    GroupWithRow(rest, id, f, k);
    StampsOfAGroup(rest, k);
    MemberJoins(Group(rest, k), ConfirmedIn(rest, k), Stamps(rest, k), Classes(rest, k), id, f, k, now);
  }

  /** What the index holds between the two halves of a re-index, for an
      aggregate the old contact belonged to: counts of the table without the
      contact, but edges and mask of the table that already has its new values. */
  function Halfway(rest: FactTable, now: FactTable, k: Key): Option<Aggregate> {
    Summary(Group(rest, k), ConfirmedIn(rest, k), EdgesIn(now, k))
  }

  lemma RemovingReachesHalfway(rest: FactTable, id: int, f: Facts, k: Key, now: FactTable)
    requires id !in rest && k in f.keys
    ensures Moved(AggregateAt(rest[id := f], k), k, DeltaOf(f, -1), EdgesIn(now, k)) == Halfway(rest, now, k)
  {
    GroupWithRow(rest, id, f, k);
    MemberLeaves(Group(rest, k), ConfirmedIn(rest, k), Stamps(rest[id := f], k), Classes(rest[id := f], k),
                 id, f, k, EdgesIn(now, k));
  }

  /** The second half closes the gap: the edges taken early already include
      the contact's new stamp and source. */
  lemma AddingClosesTheGap(rest: FactTable, id: int, f: Facts, k: Key, now: Edges)
    requires id !in rest
    ensures k in f.keys ==>
      Moved(Halfway(rest, rest[id := f], k), k, DeltaOf(f, 1), now) == AggregateAt(rest[id := f], k)
    ensures k !in f.keys ==> Halfway(rest, rest[id := f], k) == AggregateAt(rest[id := f], k)
  {
    GroupWithRow(rest, id, f, k);
    StampsOfAGroup(rest, k);
    if k in f.keys {
      CoveredMemberJoins(Group(rest, k), ConfirmedIn(rest, k), Stamps(rest[id := f], k), Classes(rest[id := f], k),
                         id, f, k, now);
    } else {
      SameGroup(rest, id, f, k);
    }
  }

  lemma SameGroup(rest: FactTable, id: int, f: Facts, k: Key)
    requires id !in rest && k !in f.keys
    ensures Stamps(rest[id := f], k) == Stamps(rest, k) && Classes(rest[id := f], k) == Classes(rest, k)
  {
    var t := rest[id := f];
    forall s ensures s in Stamps(t, k) <==> s in Stamps(rest, k) {
      if s in Stamps(rest, k) {
        var j :| j in rest && k in rest[j].keys && rest[j].stamp == s;
        assert j in t && t[j].stamp == s;
      }
    }
    forall c ensures c in Classes(t, k) <==> c in Classes(rest, k) {
      if c in Classes(rest, k) {
        var j :| j in rest && k in rest[j].keys && c in rest[j].classes;
        assert j in t && c in t[j].classes;
      }
    }
  }

  // ── whole passes ─────────────────────────────────────────────────────────

  ghost predicate ListsKeys(ks: seq<Key>, f: Facts) {
    NoDuplicates(ks) && forall k :: k in ks <==> k in f.keys
  }

  /** Insert: one adding pass turns the summary of the table into the summary
      of the table with the new row. */
  lemma InsertPass(index: Index, rest: FactTable, id: int, f: Facts, ks: seq<Key>)
    requires Summarises(index, rest) && id !in rest && ListsKeys(ks, f)
    ensures Summarises(AppliedTo(index, ks, DeltaOf(f, 1), rest[id := f]), rest[id := f])
  {
    var t := rest[id := f];
    forall k: Key ensures Lookup(AppliedTo(index, ks, DeltaOf(f, 1), t), k) == AggregateAt(t, k) {
      AppliedAt(index, ks, DeltaOf(f, 1), t, k);
      if k in f.keys { AddingReachesTheGroup(rest, id, f, k, EdgesIn(t, k)); } else { GroupWithRow(rest, id, f, k); }
    }
  }

  /** Delete: one removing pass, run after the row is gone. */
  lemma DeletePass(index: Index, rest: FactTable, id: int, f: Facts, ks: seq<Key>)
    requires Summarises(index, rest[id := f]) && id !in rest && ListsKeys(ks, f)
    ensures Summarises(AppliedTo(index, ks, DeltaOf(f, -1), rest), rest)
  {
    forall k: Key ensures Lookup(AppliedTo(index, ks, DeltaOf(f, -1), rest), k) == AggregateAt(rest, k) {
      AppliedAt(index, ks, DeltaOf(f, -1), rest, k);
      if k in f.keys {
        RemovingReachesHalfway(rest, id, f, k, rest);
      } else {
        GroupWithRow(rest, id, f, k);
      }
    }
  }

  /** The state between the two passes of a re-index: not the index of any
      table, but fixed key by key. */
  ghost predicate HalfMoved(index: Index, rest: FactTable, id: int, before: Facts, now: FactTable) {
    forall k: Key :: Lookup(index, k)
      == if k in before.keys then Halfway(rest, now, k) else AggregateAt(rest, k)
  }

  lemma RemovalPassIsHalfway(index: Index, rest: FactTable, id: int, before: Facts, now: FactTable, ks: seq<Key>)
    requires Summarises(index, rest[id := before]) && id !in rest && ListsKeys(ks, before)
    ensures HalfMoved(AppliedTo(index, ks, DeltaOf(before, -1), now), rest, id, before, now)
  {
    forall k: Key
      ensures Lookup(AppliedTo(index, ks, DeltaOf(before, -1), now), k)
           == if k in before.keys then Halfway(rest, now, k) else AggregateAt(rest, k)
    {
      AppliedAt(index, ks, DeltaOf(before, -1), now, k);
      if k in before.keys { RemovingReachesHalfway(rest, id, before, k, now); } else { GroupWithRow(rest, id, before, k); }
    }
  }

  lemma AdditionPassFinishes(half: Index, rest: FactTable, id: int, before: Facts, after: Facts, ks: seq<Key>)
    requires id !in rest && ListsKeys(ks, after)
    requires HalfMoved(half, rest, id, before, rest[id := after])
    ensures Summarises(AppliedTo(half, ks, DeltaOf(after, 1), rest[id := after]), rest[id := after])
  {
    var now := rest[id := after];
    forall k: Key ensures Lookup(AppliedTo(half, ks, DeltaOf(after, 1), now), k) == AggregateAt(now, k) {
      AppliedAt(half, ks, DeltaOf(after, 1), now, k);
      if k in before.keys {
        AddingClosesTheGap(rest, id, after, k, EdgesIn(now, k));
      } else if k in after.keys {
        AddingReachesTheGroup(rest, id, after, k, EdgesIn(now, k));
      } else {
        GroupWithRow(rest, id, after, k);
      }
    }
  }
}
