/** Paging through the log: the two-arm contest merge, its count, the rank of a
    contact, and keyset-paged exports, all against the one listing of the
    selected contacts. */
module ContestPages {
  import opened Common
  import opened LogSteps
  import opened Listing

  // ── scopes ───────────────────────────────────────────────────────────────

  /** First arm: rows tagged with the contest. */
  function TaggedArm(rows: Rows, contest: string): set<int> {
    set id | id in rows && rows[id].contestId == contest
  }

  /** Second arm: rows tagged only by ADIF id. */
  function AdifArm(rows: Rows, contest: string): set<int> {
    set id | id in rows && rows[id].contestAdifId == contest && (rows[id].contestId == "" || rows[id].contestId != contest)
  }

  /** `contest_id = ? OR contest_adif_id = ?`, or everything without a contest. */
  function Scope(rows: Rows, contest: string): (s: set<int>)
    ensures InRows(rows, s)
  {
    set id | id in rows && (contest == "" || rows[id].contestId == contest || rows[id].contestAdifId == contest)
  }

  lemma ArmsPartitionTheScope(rows: Rows, contest: string)
    requires contest != ""
    ensures TaggedArm(rows, contest) !! AdifArm(rows, contest)
    ensures TaggedArm(rows, contest) + AdifArm(rows, contest) == Scope(rows, contest)
  {}

  /** A contact is in a contest's scope by either of its two tags, and without a contest
      every contact is. */
  lemma WhoIsInScope(rows: Rows, contest: string, id: int)
    ensures Scope(rows, "") == rows.Keys
    ensures contest != "" ==>
      (id in Scope(rows, contest) <==> id in rows && contest in {rows[id].contestId, rows[id].contestAdifId})
  {
  }

  // ── pages ────────────────────────────────────────────────────────────────

  function Min(a: int, b: int): int { if a < b then a else b }

  function Limited(s: seq<int>, n: nat): seq<int> { s[..Min(n, |s|)] }

  /** Positions [offset, offset + limit) of a listing. */
  function Slice(s: seq<int>, offset: nat, limit: nat): seq<int> {
    s[Min(offset, |s|)..Min(offset + limit, |s|)]
  }

  /** The smaller head of two disjoint listings is the head of their union. */
  lemma MergeStep(rows: Rows, o: Order, a: set<int>, b: set<int>, la: seq<int>, lb: seq<int>, u: seq<int>)
    requires IsListing(rows, o, a, la) && IsListing(rows, o, b, lb) && IsListing(rows, o, a + b, u)
    requires a !! b && la != [] && (lb != [] ==> Comes(rows, o, la[0], lb[0]))
    ensures u != [] && u[0] == la[0]
    ensures IsListing(rows, o, a - {la[0]}, la[1..]) && IsListing(rows, o, (a - {la[0]}) + b, u[1..])
  {
    hide Comes;
    HeadOfAListing(rows, o, a, la);
    assert la[0] in Members(la);
    assert la[0] in u;
    HeadOfAListing(rows, o, a + b, u);
    if lb != [] { HeadOfAListing(rows, o, b, lb); }
    forall id | id in a + b ensures id == la[0] || Comes(rows, o, la[0], id) {
      if id in b {
        assert id in lb;
        if id != lb[0] { ComesIsTransitive(rows, o, la[0], lb[0], id); }
      }
    }
    TopIsUnique(rows, o, a + b);
    assert IsTop(rows, o, a + b, la[0]) && IsTop(rows, o, a + b, u[0]);
    assert (a + b) - {la[0]} == (a - {la[0]}) + b;
  }

  /** After taking `i` from one listing and `j` from the other, the merged part
      is a prefix of the union's listing and the rest is still to be merged. */
  ghost predicate Merging(rows: Rows, o: Order, la: seq<int>, lb: seq<int>, u: seq<int>, i: nat, j: nat, merged: seq<int>) {
    && i <= |la| && j <= |lb| && |merged| == i + j && merged <= u
    && Members(la[i..]) !! Members(lb[j..])
    && IsListing(rows, o, Members(la[i..]), la[i..])
    && IsListing(rows, o, Members(lb[j..]), lb[j..])
    && IsListing(rows, o, Members(la[i..]) + Members(lb[j..]), u[i + j..])
  }

  lemma StartMerging(rows: Rows, o: Order, a: set<int>, b: set<int>)
    requires InRows(rows, a) && InRows(rows, b) && InRows(rows, a + b) && a !! b
    ensures Merging(rows, o, Ordered(rows, o, a), Ordered(rows, o, b), Ordered(rows, o, a + b), 0, 0, [])
  {
    hide Comes, Ordered, Sorted;
    OrderedIsAListing(rows, o, a);
    OrderedIsAListing(rows, o, b);
    OrderedIsAListing(rows, o, a + b);
    var la, lb, u := Ordered(rows, o, a), Ordered(rows, o, b), Ordered(rows, o, a + b);
    assert la[0..] == la && lb[0..] == lb && u[0..] == u;
  }

  lemma TakeFirst(rows: Rows, o: Order, la: seq<int>, lb: seq<int>, u: seq<int>, i: nat, j: nat, merged: seq<int>)
    requires Merging(rows, o, la, lb, u, i, j, merged) && i < |la| && (j < |lb| ==> Comes(rows, o, la[i], lb[j]))
    ensures Merging(rows, o, la, lb, u, i + 1, j, merged + [la[i]])
  {
    hide Comes, Sorted;
    var a, b := Members(la[i..]), Members(lb[j..]);
    MergeStep(rows, o, a, b, la[i..], lb[j..], u[i + j..]);
    assert la[i..][1..] == la[i + 1..] && u[i + j..][1..] == u[i + j + 1..];
    assert Members(la[i + 1..]) == a - {la[i]} by { hide Members; }
    assert merged + [la[i]] == u[..i + j + 1] by { assert merged == u[..i + j]; }
  }

  lemma MergingIsSymmetric(rows: Rows, o: Order, la: seq<int>, lb: seq<int>, u: seq<int>, i: nat, j: nat, merged: seq<int>)
    requires Merging(rows, o, la, lb, u, i, j, merged)
    ensures Merging(rows, o, lb, la, u, j, i, merged)
  {
    hide Members, IsListing;
    assert Members(la[i..]) + Members(lb[j..]) == Members(lb[j..]) + Members(la[i..]);
  }

  lemma TakeSecond(rows: Rows, o: Order, la: seq<int>, lb: seq<int>, u: seq<int>, i: nat, j: nat, merged: seq<int>)
    requires Merging(rows, o, la, lb, u, i, j, merged) && j < |lb|
    requires i < |la| ==> la[i] in rows && lb[j] in rows && !Comes(rows, o, la[i], lb[j])
    ensures Merging(rows, o, la, lb, u, i, j + 1, merged + [lb[j]])
  {
    if i < |la| {
      assert la[i..][0] in Members(la[i..]) && lb[j..][0] in Members(lb[j..]);
      ComesIsTotal(rows, o, la[i], lb[j]);
    }
    hide Merging, Comes;
    MergingIsSymmetric(rows, o, la, lb, u, i, j, merged);
    TakeFirst(rows, o, lb, la, u, j, i, merged);
    MergingIsSymmetric(rows, o, lb, la, u, j + 1, i, merged + [lb[j]]);
  }

  lemma MergedAll(rows: Rows, o: Order, la: seq<int>, lb: seq<int>, u: seq<int>, merged: seq<int>)
    requires Merging(rows, o, la, lb, u, |la|, |lb|, merged)
    ensures merged == u
  {
    hide Comes, Sorted;
    assert Members(la[|la|..]) + Members(lb[|lb|..]) == {};
    ListingIsUnique(rows, o, {}, u[|merged|..]);
  }

  /** The two-index merge of the page: the first `fetch` of the ordered union. */
  method MergeArms(rows: Rows, o: Order, ghost a: set<int>, ghost b: set<int>, s0: seq<int>, s1: seq<int>, fetch: nat)
    returns (merged: seq<int>)
    requires InRows(rows, a) && InRows(rows, b) && InRows(rows, a + b) && a !! b
    requires s0 == Limited(Ordered(rows, o, a), fetch) && s1 == Limited(Ordered(rows, o, b), fetch)
    ensures merged == Limited(Ordered(rows, o, a + b), fetch)
  {
    ghost var la, lb, u := Ordered(rows, o, a), Ordered(rows, o, b), Ordered(rows, o, a + b);
    StartMerging(rows, o, a, b);
    ListedRowsExist(rows, o, a);
    ListedRowsExist(rows, o, b);
    hide Ordered, Comes, InRows, Merging, Limited;
    merged := [];
    var i0, i1 := 0, 0;
    while (i0 < |s0| || i1 < |s1|) && |merged| < fetch
      invariant Merging(rows, o, la, lb, u, i0, i1, merged) && i0 + i1 == |merged| <= fetch
      decreases fetch - |merged|
    {
      var next, first := Smaller(rows, o, s0, s1, i0, i1, la, lb, u, merged, fetch);
      merged := merged + [next];
      if first { i0 := i0 + 1; } else { i1 := i1 + 1; }
    }
    LimitedAt(la, fetch, i0);
    LimitedAt(lb, fetch, i1);
    MergedIsLimited(rows, o, la, lb, u, i0, i1, merged, fetch);
  }

  /** One round of the merge loop: the smaller of the two heads. */
  method Smaller(rows: Rows, o: Order, s0: seq<int>, s1: seq<int>, i0: nat, i1: nat,
                 ghost la: seq<int>, ghost lb: seq<int>, ghost u: seq<int>, ghost merged: seq<int>, ghost fetch: nat)
    returns (next: int, first: bool)
    requires s0 == Limited(la, fetch) && s1 == Limited(lb, fetch) && i0 + i1 == |merged| < fetch
    requires Merging(rows, o, la, lb, u, i0, i1, merged) && (i0 < |s0| || i1 < |s1|)
    requires (forall i | 0 <= i < |la| :: la[i] in rows) && (forall i | 0 <= i < |lb| :: lb[i] in rows)
    ensures first ==> Merging(rows, o, la, lb, u, i0 + 1, i1, merged + [next])
    ensures !first ==> Merging(rows, o, la, lb, u, i0, i1 + 1, merged + [next])
  {
    LimitedAt(la, fetch, i0);
    LimitedAt(lb, fetch, i1);
    hide Comes, Merging, Limited;
    if i0 < |s0| && (i1 >= |s1| || Comes(rows, o, s0[i0], s1[i1])) {
      TakeFirst(rows, o, la, lb, u, i0, i1, merged);
      return s0[i0], true;
    }
    TakeSecond(rows, o, la, lb, u, i0, i1, merged);
    return s1[i1], false;
  }

  lemma LimitedAt(s: seq<int>, n: nat, i: nat)
    ensures i < n ==> (i < |Limited(s, n)| <==> i < |s|) && (i < |s| ==> Limited(s, n)[i] == s[i])
  {}

  lemma MergedIsLimited(rows: Rows, o: Order, la: seq<int>, lb: seq<int>, u: seq<int>, i: nat, j: nat, merged: seq<int>, fetch: nat)
    requires Merging(rows, o, la, lb, u, i, j, merged) && |merged| <= fetch
    requires |merged| < fetch ==> i >= |la| && j >= |lb|
    ensures merged == Limited(u, fetch)
  {
    if |merged| < fetch {
      MergedAll(rows, o, la, lb, u, merged);
    } else {
      assert merged == u[..fetch];
    }
  }

  lemma ListedRowsExist(rows: Rows, o: Order, ids: set<int>)
    requires InRows(rows, ids)
    ensures forall i | 0 <= i < |Ordered(rows, o, ids)| :: Ordered(rows, o, ids)[i] in rows
  {
    hide Ordered, Comes;
    OrderedIsAListing(rows, o, ids);
    forall i | 0 <= i < |Ordered(rows, o, ids)| ensures Ordered(rows, o, ids)[i] in rows {
      assert Ordered(rows, o, ids)[i] in Members(Ordered(rows, o, ids));
    }
  }

  /** `listQSOsContestMerged`: exactly the requested slice of the ordered union. */
  method ListContestMerged(rows: Rows, limit: int, offset: nat, contest: string, orderAsc: bool) returns (page: seq<int>)
    requires contest != ""
    ensures page == if limit <= 0 then [] else
      Slice(Ordered(rows, if orderAsc then Oldest else Newest, Scope(rows, contest)), offset, limit)
  {
    hide Ordered;
    if limit <= 0 { return []; }
    var fetch: nat := limit + offset;
    var o := if orderAsc then Oldest else Newest;
    ArmsPartitionTheScope(rows, contest);
    var s0 := Limited(Ordered(rows, o, TaggedArm(rows, contest)), fetch);
    var s1 := Limited(Ordered(rows, o, AdifArm(rows, contest)), fetch);
    hide TaggedArm, AdifArm, Scope;
    var merged := MergeArms(rows, o, TaggedArm(rows, contest), AdifArm(rows, contest), s0, s1, fetch);
    SliceOfAPrefix(Ordered(rows, o, Scope(rows, contest)), merged, offset, limit);
    if offset >= |merged| { return []; }
    var end := Min(offset + limit, |merged|);
    return merged[offset..end];
  }

  lemma SliceOfAPrefix(u: seq<int>, merged: seq<int>, offset: nat, limit: nat)
    requires merged == Limited(u, offset + limit)
    ensures Slice(u, offset, limit)
         == if offset >= |merged| then [] else merged[offset..Min(offset + limit, |merged|)]
  {}

  /** `countQSOsContest`: the two arm counts add up to the size of the union. */
  method CountContest(rows: Rows, contest: string) returns (n: int)
    requires contest != ""
    ensures n == |Scope(rows, contest)|
  {
    ArmsPartitionTheScope(rows, contest);
    n := |TaggedArm(rows, contest)| + |AdifArm(rows, contest)|;
  }

  // ── rank ─────────────────────────────────────────────────────────────────

  /** `QSORank`: how many contacts in scope sort before this one. */
  function Rank(rows: Rows, id: int, contest: string): Option<int> {
    if id in Scope(rows, contest) then Some(|Preceding(rows, Newest, Scope(rows, contest), id)|) else None
  }

  /** The rank of the contact at newest-first position i is i, and only
      contacts in the list have one. */
  lemma RankIsThePosition(rows: Rows, contest: string, id: int)
    ensures var s := Ordered(rows, Newest, Scope(rows, contest));
      && (forall i | 0 <= i < |s| :: Rank(rows, s[i], contest) == Some(i))
      && (Rank(rows, id, contest).Some? <==> id in s)
  {
    var scope := Scope(rows, contest);
    var s := Ordered(rows, Newest, scope);
    OrderedIsAListing(rows, Newest, scope);
    hide Comes, Preceding;
    assert id in Members(s) <==> id in s;
    forall i | 0 <= i < |s| ensures Rank(rows, s[i], contest) == Some(i) {
      PositionCountsWhatPrecedes(rows, Newest, scope, i);
      assert s[i] in Members(s);
    }
  }

  // ── keyset paging ────────────────────────────────────────────────────────

  /** `ListQSOsPageAfterTx`: the next page strictly after the cursor. */
  function PageAfter(rows: Rows, o: Order, ids: set<int>, cursor: Option<int>, limit: nat): seq<int>
    requires InRows(rows, ids)
  {
    Limited(Ordered(rows, o, if cursor.Some? then After(rows, o, ids, cursor.value) else ids), limit)
  }

  lemma PageIsTheNextStretch(rows: Rows, o: Order, ids: set<int>, done: nat, limit: nat)
    requires InRows(rows, ids) && done <= |ids|
    ensures var s := Ordered(rows, o, ids);
            var cursor := if done == 0 then None else Some(s[done - 1]);
            PageAfter(rows, o, ids, cursor, limit) == Slice(s, done, limit)
  {
    hide Comes, After, InRows, Ordered, Limited, Slice;
    var s := Ordered(rows, o, ids);
    LimitedTail(s, done, limit);
    if done > 0 { SuffixIsWhatFollows(rows, o, ids, done - 1); }
  }

  lemma LimitedTail(s: seq<int>, done: nat, limit: nat)
    requires done <= |s|
    ensures Limited(s[done..], limit) == Slice(s, done, limit)
    ensures s[0..] == s
  {}

  predicate NoneRefused(s: seq<int>, refuses: int -> bool) { forall i | 0 <= i < |s| :: !refuses(s[i]) }

  lemma NoneRefusedAtFirst(refuses: int -> bool)
    ensures NoneRefused([], refuses)
  {}

  lemma NoneRefusedInBoth(a: seq<int>, b: seq<int>, refuses: int -> bool)
    requires NoneRefused(a, refuses) && NoneRefused(b, refuses)
    ensures NoneRefused(a + b, refuses)
  {}

  /** One page handed to the callback, up to the first refusal. */
  method Visit(page: seq<int>, refuses: int -> bool) returns (n: nat)
    ensures n <= |page| && (n < |page| ==> refuses(page[n]))
    ensures NoneRefused(page[..n], refuses)
  {
    n := 0;
    while n < |page|
      invariant n <= |page| && forall i | 0 <= i < n :: !refuses(page[i])
    {
      if refuses(page[n]) { return; }
      n := n + 1;
    }
  }

  /** `ExportQSOsSnapshot`: pages advance by cursor; every contact in scope is
      handed to the callback exactly once and in order, up to the first one the
      callback refuses. */
  method Export(rows: Rows, o: Order, ids: set<int>, pageSize: nat, refuses: int -> bool) returns (visited: seq<int>, ok: bool)
    requires InRows(rows, ids) && pageSize > 0
    ensures ok ==> visited == Ordered(rows, o, ids)
    ensures !ok ==> |visited| < |ids| && visited <= Ordered(rows, o, ids)
                    && refuses(Ordered(rows, o, ids)[|visited|])
    ensures NoneRefused(visited, refuses)
  {
    ghost var s := Ordered(rows, o, ids);
    hide Ordered;
    NoneRefusedAtFirst(refuses);
    visited := [];
    var cursor := None;
    while true
      invariant visited <= s && NoneRefused(visited, refuses)
      invariant cursor == CursorAt(visited)
      decreases |s| - |visited|
    {
      hide NoneRefused;
      var page, n := ExportPage(rows, o, ids, pageSize, refuses, visited, cursor);
      visited := visited + page[..n];
      if n < |page| { return visited, false; }
      if |page| < pageSize { break; }
      cursor := Some(page[|page| - 1]);
      assert visited[|visited| - 1] == page[|page| - 1];
    }
    return visited, true;
  }

  function CursorAt(visited: seq<int>): Option<int> {
    if visited == [] then None else Some(visited[|visited| - 1])
  }

  /** Fetches the page after the cursor and hands it to the callback. */
  method ExportPage(rows: Rows, o: Order, ids: set<int>, pageSize: nat, refuses: int -> bool,
                    ghost visited: seq<int>, cursor: Option<int>)
    returns (page: seq<int>, n: nat)
    requires InRows(rows, ids) && pageSize > 0
    requires visited <= Ordered(rows, o, ids) && NoneRefused(visited, refuses) && cursor == CursorAt(visited)
    ensures n <= |page| <= pageSize
    ensures visited + page[..n] <= Ordered(rows, o, ids) && NoneRefused(visited + page[..n], refuses)
    ensures n < |page| ==> |visited| + n < |ids| && refuses(Ordered(rows, o, ids)[|visited| + n])
    ensures n == |page| < pageSize ==> visited + page[..n] == Ordered(rows, o, ids)
  {
    ghost var s := Ordered(rows, o, ids);
    PageIsTheNextStretch(rows, o, ids, |visited|, pageSize);
    hide Ordered, PageAfter, InRows, NoneRefused;
    page := PageAfter(rows, o, ids, cursor, pageSize);
    n := Visit(page, refuses);
    NextPage(s, visited, page, n, pageSize);
    NoneRefusedInBoth(visited, page[..n], refuses);
  }

  lemma NextPage(s: seq<int>, visited: seq<int>, page: seq<int>, n: nat, limit: nat)
    requires visited <= s && page == Slice(s, |visited|, limit) && limit > 0 && n <= |page|
    ensures |visited| + |page| <= |s|
    ensures visited + page[..n] <= s
    ensures n < |page| ==> s[|visited| + n] == page[n]
    ensures |page| < limit ==> |visited| + |page| == |s|
  {
    assert visited == s[..|visited|];
    assert visited + page[..n] == s[..|visited| + n];
  }

  /** A page of `ListAllQSOs`. */
  function PageBelow(rows: Rows, lastId: int, limit: nat): seq<int> {
    Limited(Ordered(rows, HighestId, set id | id in rows && id < lastId), limit)
  }

  lemma PageBelowIsTheNextStretch(rows: Rows, done: nat, lastId: int, limit: nat)
    requires done <= |rows.Keys|
    requires done == 0 ==> forall id | id in rows :: id < lastId
    requires done > 0 ==> lastId == Ordered(rows, HighestId, rows.Keys)[done - 1]
    ensures var s := Ordered(rows, HighestId, rows.Keys);
            PageBelow(rows, lastId, limit) == Slice(s, done, limit)
  {
    var s := Ordered(rows, HighestId, rows.Keys);
    hide Ordered, Limited, Comes;
    if done > 0 {
      OrderedIsAListing(rows, HighestId, rows.Keys);
      assert s[done - 1] in Members(s);
    }
    IdsBelow(rows, lastId, if done == 0 then None else Some(lastId));
    PageIsTheNextStretch(rows, HighestId, rows.Keys, done, limit);
  }

  lemma IdsBelow(rows: Rows, lastId: int, cursor: Option<int>)
    requires cursor.None? ==> forall id | id in rows :: id < lastId
    requires cursor.Some? ==> cursor.value == lastId && lastId in rows
    ensures (set id | id in rows && id < lastId) == if cursor.Some? then After(rows, HighestId, rows.Keys, cursor.value) else rows.Keys
  {
    assert forall id | id in rows && cursor.Some? :: Comes(rows, HighestId, lastId, id) <==> lastId > id;
  }

  /** `ListAllQSOs`: id-descending keyset pages; every row exactly once. */
  method ListAll(rows: Rows, maxId: int, pageSize: nat) returns (all: seq<int>)
    requires pageSize > 0 && forall id | id in rows :: id < maxId
    ensures all == Ordered(rows, HighestId, rows.Keys)
  {
    ghost var s := Ordered(rows, HighestId, rows.Keys);
    hide Ordered, PageBelow, Slice;
    all := [];
    var lastId := maxId;
    while true
      invariant all <= s
      invariant lastId == if all == [] then maxId else all[|all| - 1]
      decreases |s| - |all|
    {
      PageBelowIsTheNextStretch(rows, |all|, lastId, pageSize);
      var page := PageBelow(rows, lastId, pageSize);
      NextPage(s, all, page, |page|, pageSize);
      if |page| == 0 { break; }
      assert page[..|page|] == page;
      all := all + page;
      if |page| < pageSize { break; }
      lastId := page[|page| - 1];
    }
  }
}
