/** Reference counting of logbook databases: a replaced database is closed at
    once, or by the last background operation that still uses it. */
module DbHolders {
  import opened Common

  /** A database handle; `closes` counts the calls of its Close. */
  class Database {
    var closes: nat

    constructor ()
      ensures closes == 0
    {
      closes := 0;
    }
  }

  class Holder {
    const db: Database
    var refs: int
    var retired: bool

    constructor (d: Database)
      ensures db == d && refs == 0 && !retired
    {
      db, refs, retired := d, 0, false;
    }
  }

  /** The function KeepDBAlive hands out. `late`: the database had already been
      closed when the hold was taken. */
  datatype Release = Release(number: nat, holder: Holder, late: bool)

  /** Those of the releases that belong to one holder. */
  function Users(all: set<Release>, h: Holder): set<Release> {
    set r | r in all && r.holder == h
  }

  lemma UsersFollow(all: set<Release>, r: Release, h: Holder)
    ensures r !in all ==> |Users(all + {r}, h)| == |Users(all, h)| + if r.holder == h then 1 else 0
    ensures r in all ==> |Users(all - {r}, h)| == |Users(all, h)| - if r.holder == h then 1 else 0
  {
    if r.holder == h {
      assert r !in all ==> Users(all + {r}, h) == Users(all, h) + {r};
      assert r in all ==> Users(all - {r}, h) == Users(all, h) - {r};
    } else {
      assert Users(all + {r}, h) == Users(all, h) == Users(all - {r}, h);
    }
  }

  datatype SwitchResult = Switched | UnknownLogbook | OpenFailed

  class App {
    var logbooks: set<string>
    var logbookName: string
    var db: Database?
    var dbHolders: map<Database, Holder>
    /** Releases handed out and not yet called: the state of their sync.Once. */
    var pending: set<Release>
    var issued: nat
    ghost var handles: set<Database>
    ghost var retired: set<Database>

    ghost predicate Valid()
      reads `dbHolders, `pending, `issued, `handles, `retired, handles, dbHolders.Values
    {
      Linked() && forall d | d in dbHolders :: dbHolders[d].refs >= 1
    }

    /** The invariant, except that a holder may be out of use for a moment. */
    ghost predicate Linked()
      reads `dbHolders, `pending, `issued, `handles, `retired, handles, dbHolders.Values
    {
      && dbHolders.Keys <= handles && retired <= handles
      && (forall d | d in dbHolders :: HolderIsFine(d))
      && (forall r | r in pending :: r.holder.db in dbHolders && ReleaseIsFine(r))
      && (forall d | d in handles :: DebtIsKept(d))
    }

    /** The logbook in use has not been retired. */
    ghost predicate CurrentIsLive()
      reads `db, `handles, `retired
    {
      db != null ==> db in handles && db !in retired
    }

    ghost predicate Held(d: Database)
      reads `pending
    {
      exists r :: r in pending && r.holder.db == d
    }

    /** A holder counts its users and remembers a close that is still owed. */
    ghost predicate HolderIsFine(d: Database)
      requires d in dbHolders
      reads `dbHolders, `pending, `retired, d, dbHolders[d]
    {
      var h := dbHolders[d];
      h.db == d && h.refs == |Users(pending, h)| && (h.retired <==> d in retired && d.closes == 0)
    }

    /** A release points to the holder in the map, and unless it was taken late its
        database is open. */
    ghost predicate ReleaseIsFine(r: Release)
      requires r.holder.db in dbHolders
      reads `dbHolders, `issued, r.holder.db
    {
      r.number < issued && dbHolders[r.holder.db] == r.holder && (!r.late ==> r.holder.db.closes == 0)
    }

    /** At most one close, only after retirement, and owed only through a holder. */
    ghost predicate DebtIsKept(d: Database)
      reads `dbHolders, `retired, d
    {
      && d.closes <= 1 && (d.closes == 1 ==> d in retired)
      && (d in retired && d.closes == 0 ==> d in dbHolders)
    }

    constructor (books: set<string>, name: string, current: Database)
      requires current.closes == 0
      ensures Valid() && CurrentIsLive() && db == current && logbookName == name && logbooks == books
      ensures dbHolders == map[] && handles == {current} && pending == {} && retired == {}
    {
      logbooks, logbookName, db, dbHolders := books, name, current, map[];
      pending, issued, handles, retired := {}, 0, {current}, {};
    }

    method HolderFor(d: Database) returns (h: Holder)
      requires Valid() && d in handles
      modifies this`dbHolders
      ensures Linked() && dbHolders == old(dbHolders)[d := h] && h.db == d
      ensures forall e | e in dbHolders && e != d :: dbHolders[e].refs >= 1
      ensures d !in old(dbHolders) ==> fresh(h)
    {
      assert DebtIsKept(d);
      if d in dbHolders {
        assert HolderIsFine(d);
        return dbHolders[d];
      }
      h := new Holder(d);
      assert Users(pending, h) == {};
      dbHolders := dbHolders[d := h];
      assert HolderIsFine(d);
      assert forall e | e in dbHolders && e != d :: old(HolderIsFine(e));
      assert forall r | r in pending :: old(ReleaseIsFine(r));
      assert forall e | e in handles :: old(DebtIsKept(e));
    }

    method AddUser(h: Holder) returns (r: Release)
      requires Linked() && h.db in dbHolders && dbHolders[h.db] == h
      modifies this`pending, this`issued, h
      ensures Linked() && h.refs == old(h.refs) + 1
      ensures r !in old(pending) && pending == old(pending) + {r}
      ensures r.holder == h && (r.late <==> h.db.closes == 1)
    {
      hide Users;
      assert HolderIsFine(h.db) && DebtIsKept(h.db);
      h.refs := h.refs + 1;
      r := Release(issued, h, h.db.closes == 1);
      assert r !in pending;
      forall e | e in dbHolders
        ensures |Users(pending + {r}, dbHolders[e])| == |Users(pending, dbHolders[e])| + if e == h.db then 1 else 0
      {
        assert old(HolderIsFine(e));
        UsersFollow(pending, r, dbHolders[e]);
      }
      issued := issued + 1;
      pending := pending + {r};
    }

    /** `KeepDBAlive`: one more user of the database; nothing to give up for a nil
        handle. */
    method KeepDBAlive(d: Database?) returns (r: Option<Release>)
      requires Valid() && (d != null ==> d in handles)
      modifies this`dbHolders, this`pending, this`issued, dbHolders.Values
      ensures Valid()
      ensures d == null ==> r == None && pending == old(pending) && dbHolders == old(dbHolders)
      ensures d != null ==> r.Some? && r.value !in old(pending) && pending == old(pending) + {r.value}
      ensures d != null ==> r.value.holder.db == d && (r.value.late <==> d.closes == 1)
      ensures d != null ==> dbHolders.Keys == old(dbHolders.Keys) + {d}
    {
      if d == null { return None; }
      var h := HolderFor(d);
      hide App.HolderIsFine, App.ReleaseIsFine, App.DebtIsKept;
      var release := AddUser(h);
      r := Some(release);
    }

    /** The map has a holder exactly for the databases in use. */
    lemma MappedIsHeld(d: Database)
      requires Valid()
      ensures d in dbHolders <==> Held(d)
    {
      if d in dbHolders {
        assert HolderIsFine(d);
        assert Users(pending, dbHolders[d]) != {};
        var r :| r in Users(pending, dbHolders[d]);
      }
    }

    /** A retired database that nobody holds was closed exactly once, and one that
        has not been retired was not closed. */
    lemma RetiredAndFreeIsClosedOnce(d: Database)
      requires Valid() && d in handles
      ensures d in retired && !Held(d) ==> d.closes == 1
      ensures d !in retired ==> d.closes == 0
    {
      MappedIsHeld(d);
      assert DebtIsKept(d);
    }

    /** Whoever took hold of an open database finds it open. */
    lemma HeldIsOpen(r: Release)
      requires Valid() && r in pending && !r.late
      ensures Held(r.holder.db) && r.holder.db.closes == 0
    {
      assert ReleaseIsFine(r);
    }

    method DropUser(r: Release)
      requires Valid() && r in pending
      modifies this`pending, r.holder
      ensures Linked() && pending == old(pending) - {r}
      ensures r.holder.refs == old(r.holder.refs) - 1 && r.holder.retired == old(r.holder.retired)
      ensures forall e | e in dbHolders && e != r.holder.db :: dbHolders[e].refs >= 1
    {
      hide Users;
      assert ReleaseIsFine(r);
      r.holder.refs := r.holder.refs - 1;
      forall e | e in dbHolders
        ensures |Users(pending - {r}, dbHolders[e])| == |Users(pending, dbHolders[e])| - if e == r.holder.db then 1 else 0
        ensures e != r.holder.db ==> dbHolders[e] != r.holder
      {
        assert old(HolderIsFine(e));
        UsersFollow(pending, r, dbHolders[e]);
      }
      pending := pending - {r};
    }

    /** A function handed out by KeepDBAlive: the first call gives up the hold, and
        the last hold on a retired database closes it. */
    method CallRelease(r: Release)
      requires Valid()
      modifies this`pending, this`dbHolders, r.holder, r.holder.db
      ensures Valid() && pending == old(pending) - {r}
      ensures r !in old(pending) ==> dbHolders == old(dbHolders) && r.holder.db.closes == old(r.holder.db.closes)
      ensures r in old(pending) ==>
                (r.holder.db.closes == old(r.holder.db.closes) + 1 <==>
                   old(r.holder.db.closes) == 0 && r.holder.db in retired && !Held(r.holder.db))
    {
      if r !in pending { return; }
      var h, d := r.holder, r.holder.db;
      assert ReleaseIsFine(r) && HolderIsFine(d) && DebtIsKept(d);
      DropUser(r);
      if h.refs == 0 {
        assert HolderIsFine(d);
        RemoveHolder(d);
      }
      MappedIsHeld(d);
    }

    /** The holder without users leaves the map, and pays its debt. */
    method RemoveHolder(d: Database)
      requires Linked() && d in dbHolders && dbHolders[d].refs == 0
      requires forall e | e in dbHolders && e != d :: dbHolders[e].refs >= 1
      requires d in handles && d.closes <= 1
      modifies this`dbHolders, d
      ensures Valid() && dbHolders == old(dbHolders) - {d}
      ensures d.closes == old(d.closes) + if old(dbHolders[d].retired) then 1 else 0
    {
      assert HolderIsFine(d) && DebtIsKept(d);
      var h := dbHolders[d];
      assert Users(pending, h) == {};
      forall r | r in pending
        ensures r.holder.db != d
      {
        assert ReleaseIsFine(r);
        assert r.holder.db == d ==> r in Users(pending, h);
      }
      dbHolders := dbHolders - {d};
      if h.retired { d.closes := d.closes + 1; }
      forall e | e in dbHolders
        ensures HolderIsFine(e)
      {
        assert old(HolderIsFine(e));
      }
      forall e | e in handles
        ensures DebtIsKept(e)
      {
        assert old(DebtIsKept(e));
      }
      forall r | r in pending
        ensures r.holder.db in dbHolders && ReleaseIsFine(r)
      {
        assert old(ReleaseIsFine(r));
      }
    }

    /** `retireDB`: closed at once when nobody holds it, else left to the last
        holder. A holder in the map always has users, so the source's own check
        for a holder without any never fires. */
    method RetireDB(d: Database)
      requires Valid() && d in handles && d !in retired
      modifies this`retired, dbHolders.Values, d
      ensures Valid() && retired == old(retired) + {d}
      ensures d.closes == if Held(d) then 0 else 1
    {
      MappedIsHeld(d);
      assert DebtIsKept(d);
      retired := retired + {d};
      if d in dbHolders {
        assert old(HolderIsFine(d));
        dbHolders[d].retired := true;
        assert dbHolders[d].refs >= 1;
      } else {
        d.closes := d.closes + 1;
      }
      forall e | e in dbHolders
        ensures HolderIsFine(e) && dbHolders[e].refs >= 1
      {
        assert old(HolderIsFine(e)) && old(dbHolders[e].refs >= 1);
        assert e != d && d in dbHolders ==> dbHolders[e] != dbHolders[d];
      }
      forall r | r in pending
        ensures ReleaseIsFine(r)
      {
        assert old(ReleaseIsFine(r));
      }
      forall e | e in handles
        ensures DebtIsKept(e)
      {
        assert old(DebtIsKept(e));
      }
    }

    /** `SwitchLogbook`: opens the replacement first; a failed switch changes
        nothing, a successful one retires the previous database and keeps the new
        one live. `replacement` is what InitDB returned, null for an error. */
    method SwitchLogbook(name: string, replacement: Database?) returns (result: SwitchResult)
      requires Valid() && CurrentIsLive()
      requires replacement != null ==> replacement !in handles && replacement.closes == 0
      modifies this`logbookName, this`db, this`handles, this`retired, dbHolders.Values
      modifies if db != null then {db} else {}
      ensures Valid() && CurrentIsLive()
      ensures result == if name !in logbooks then UnknownLogbook else if replacement == null then OpenFailed else Switched
      ensures result != Switched ==> db == old(db) && logbookName == old(logbookName) && retired == old(retired)
      ensures result == Switched ==> db == replacement && logbookName == name
      ensures result == Switched && old(db) != null ==>
                retired == old(retired) + {old(db)} && old(db).closes == if Held(old(db)) then 0 else 1
      ensures result != Switched && db != null ==> db.closes == 0
    {
      assert db != null ==> DebtIsKept(db);
      hide App.Linked, App.Held;
      if name !in logbooks { return UnknownLogbook; }
      if replacement == null { return OpenFailed; }
      if db != null { RetireDB(db); }
      KnowHandle(replacement);
      logbookName := name;
      db := replacement;
      result := Switched;
    }

    /** A handle seen for the first time. */
    ghost method KnowHandle(d: Database)
      requires Valid() && d !in handles && d.closes == 0
      modifies this`handles
      ensures Valid() && handles == old(handles) + {d} && d !in retired
    {
      handles := handles + {d};
      assert forall e | e in dbHolders :: old(HolderIsFine(e));
      assert forall r | r in pending :: old(ReleaseIsFine(r));
      assert forall e | e in old(handles) :: old(DebtIsKept(e));
    }
  }
}
