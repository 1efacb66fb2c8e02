/** Whole runs of the sync: when the promise is kept, when the whole copy agrees,
    and the histories on which either fails. */
module WavelogRuns {
  import opened Common
  import opened Contact
  import LogSteps
  import opened WavelogPayload
  import opened WavelogSync

  /** The state after the first n events. */
  function At(s: Sync, events: seq<Event>, n: nat, derive: string -> string): Sync
    requires n <= |events|
  {
    Run(s, events[..n], derive)
  }

  lemma {:induction false} RunInTwoParts(s: Sync, a: seq<Event>, b: seq<Event>, derive: string -> string)
    ensures Run(s, a + b, derive) == Run(Run(s, a, derive), b, derive)
    decreases |a|
  {
    if a == [] {
      assert a + b == b;
    } else {
      assert (a + b)[0] == a[0] && (a + b)[1..] == a[1..] + b;
      var t := Next(s, a[0], derive);
      assert Run(s, a + b, derive) == Run(t, a[1..] + b, derive) && Run(s, a, derive) == Run(t, a[1..], derive);
      hide Run, Next;
      RunInTwoParts(t, a[1..], b, derive);
    }
  }

  lemma AtNext(s: Sync, events: seq<Event>, n: nat, derive: string -> string)
    requires n < |events|
    ensures At(s, events, n + 1, derive) == Next(At(s, events, n, derive), events[n], derive)
  {
    hide Next;
    RunInTwoParts(s, events[..n], [events[n]], derive);
    assert events[..n + 1] == events[..n] + [events[n]];
    assert Run(At(s, events, n, derive), [events[n]], derive)
        == Run(Next(At(s, events, n, derive), events[n], derive), [], derive);
  }

  /** The promise holds at every moment of a run. */
  ghost predicate AlwaysAgrees(s: Sync, events: seq<Event>, derive: string -> string) {
    forall n | 0 <= n <= |events| :: Agrees(At(s, events, n, derive))
  }

  lemma {:induction false} InvWhileAgreeing(s: Sync, events: seq<Event>, n: nat, derive: string -> string)
    requires Inv(s) && n <= |events| && forall m | 0 <= m <= n :: Agrees(At(s, events, m, derive))
    ensures Inv(At(s, events, n, derive))
    decreases n
  {
    hide Inv, Agrees, LinksAnotherCopy, Next;
    if n == 0 {
      assert events[..0] == [];
    } else {
      InvWhileAgreeing(s, events, n - 1, derive);
      AtNext(s, events, n - 1, derive);
      NextKeepsTheInvariant(At(s, events, n - 1, derive), events[n - 1], derive);
    }
  }

  // ── where a copy came from ───────────────────────────────────────────────

  /** The event makes the server take the upload on the wire. */
  predicate Creates(s: Sync, e: Event) { e.ServerCreates? && s.upload.Some? && s.upload.value.phase == Sent }

  /** The event drops an upload the server has taken: its answer is lost, or the
      remote id could not be stored. */
  predicate LosesCreation(s: Sync, e: Event) { e.UploadLost? && s.upload.Some? && s.upload.value.phase.Created? }

  ghost predicate CreatesNothing(s: Sync, events: seq<Event>, from: int, to: nat, derive: string -> string)
    requires to <= |events|
  {
    forall c | 0 <= c && from < c < to :: !Creates(At(s, events, c, derive), events[c])
  }

  /** Event i lost the answer to an upload, and since then up to moment n the server
      has taken no other. */
  ghost predicate LastLoss(s: Sync, events: seq<Event>, i: nat, n: nat, derive: string -> string)
    requires n <= |events|
  {
    i < n && LosesCreation(At(s, events, i, derive), events[i]) && CreatesNothing(s, events, i, n, derive)
  }

  /** That upload. */
  function LostUpload(s: Sync, events: seq<Event>, i: nat, derive: string -> string): (u: Upload)
    requires i < |events| && LosesCreation(At(s, events, i, derive), events[i])
    ensures u.phase.Created?
  {
    At(s, events, i, derive).upload.value
  }

  /** The copy an upload leaves that the server has taken. */
  function CopyOf(u: Upload): RemoteCopy
    requires u.phase.Created?
  {
    Uploaded(u.snapshot, u.phase.fill)
  }

  /** The copy of an unlinked contact is the one it had at the start, or that of
      the upload now in flight, or that of the last lost one. */
  ghost predicate Explained(s: Sync, events: seq<Event>, n: nat, derive: string -> string)
    requires n <= |events|
  {
    var t := At(s, events, n, derive);
    t.row.wavelogId <= 0 ==>
      || (t.remote == s.remote && CreatesNothing(s, events, -1, n, derive))
      || (t.upload.Some? && t.upload.value.phase.Created? && t.remote == Some(CopyOf(t.upload.value)))
      || exists i :: LastLoss(s, events, i, n, derive) && t.remote == Some(CopyOf(LostUpload(s, events, i, derive)))
  }

  /** How one event treats the copy and the upload slot of an unlinked contact. */
  lemma UnlinkedStep(t: Sync, e: Event, derive: string -> string)
    requires Inv(t) && Next(t, e, derive).row.wavelogId <= 0
    ensures t.row.wavelogId <= 0
    ensures var u := Next(t, e, derive);
      && (Creates(t, e) ==>
            u.upload.Some? && u.upload.value.phase.Created? && u.remote == Some(CopyOf(u.upload.value)))
      && (!Creates(t, e) ==> u.remote == t.remote)
      && (!Creates(t, e) && !LosesCreation(t, e) && t.upload.Some? && t.upload.value.phase.Created? ==>
            u.upload == t.upload)
  {
    if t.row.wavelogId > 0 { LinkIsKept(t, e, derive); }
    hide PatchOf, ExtrasOf, Patched, Uploaded, LogSteps.EditedRow, LogSteps.EnrichedRow, LogSteps.FillsSomething;
  }

  lemma ExplainedNext(s: Sync, events: seq<Event>, n: nat, derive: string -> string)
    requires n < |events| && Inv(At(s, events, n, derive)) && Explained(s, events, n, derive)
    ensures Explained(s, events, n + 1, derive)
  {
    hide Next, Inv, CopyOf, At;
    var t, e := At(s, events, n, derive), events[n];
    var u := At(s, events, n + 1, derive);
    AtNext(s, events, n, derive);
    if u.row.wavelogId <= 0 {
      UnlinkedStep(t, e, derive);
      if !Creates(t, e) {
        if t.remote == s.remote && CreatesNothing(s, events, -1, n, derive) {
          assert CreatesNothing(s, events, -1, n + 1, derive);
        } else if LosesCreation(t, e) && t.remote == Some(CopyOf(t.upload.value)) {
          assert LastLoss(s, events, n, n + 1, derive);
        } else if exists i :: LastLoss(s, events, i, n, derive) && t.remote == Some(CopyOf(LostUpload(s, events, i, derive))) {
          var i :| LastLoss(s, events, i, n, derive) && t.remote == Some(CopyOf(LostUpload(s, events, i, derive)));
          assert LastLoss(s, events, i, n + 1, derive);
        }
      }
    }
  }

  lemma {:induction false} CopiesAreExplained(s: Sync, events: seq<Event>, n: nat, derive: string -> string)
    requires Initial(s) && n <= |events| && forall m | 0 <= m <= n :: Agrees(At(s, events, m, derive))
    ensures Inv(At(s, events, n, derive)) && Explained(s, events, n, derive)
    decreases n
  {
    hide Explained, Agrees, Inv;
    FreshContactsStartHonest(s);
    InvWhileAgreeing(s, events, n, derive);
    if n == 0 {
      ExplainedAtFirst(s, events, derive);
    } else {
      CopiesAreExplained(s, events, n - 1, derive);
      ExplainedNext(s, events, n - 1, derive);
    }
  }

  lemma ExplainedAtFirst(s: Sync, events: seq<Event>, derive: string -> string)
    ensures Explained(s, events, 0, derive)
  {
    assert events[..0] == [];
  }

  // ── when the promise is kept ─────────────────────────────────────────────

  /** Event k links the row at the revision of its upload because the server said
      "already there". */
  predicate LinksADuplicate(t: Sync, e: Event) {
    && e.AttachId? && e.remoteId > 0 && t.upload.Some? && t.upload.value.phase == Duplicate
    && t.row.wavelogRev == t.upload.value.rev
  }

  /** The duplicate is what an upload left whose answer was lost, and the row is out
      of step with it. */
  ghost predicate LinksALostUpload(s: Sync, events: seq<Event>, i: nat, k: nat, derive: string -> string)
    requires k < |events|
  {
    && LinksADuplicate(At(s, events, k, derive), events[k]) && LastLoss(s, events, i, k, derive)
    && !Settled(CopyOf(LostUpload(s, events, i, derive)).patched, PatchOf(At(s, events, k, derive).row))
  }

  /** The duplicate was on the server before this log sent anything, and differs. */
  ghost predicate LinksAForeignCopy(s: Sync, events: seq<Event>, k: nat, derive: string -> string)
    requires k < |events|
  {
    && LinksADuplicate(At(s, events, k, derive), events[k]) && CreatesNothing(s, events, -1, k, derive)
    && !InStep(s.remote, PatchOf(At(s, events, k, derive).row))
  }

  /** Event k links the row at the revision of its upload, which the server took. */
  predicate LinksItsUpload(t: Sync, e: Event) {
    && e.AttachId? && e.remoteId > 0 && t.upload.Some? && t.upload.value.phase.Created?
    && t.row.wavelogRev == t.upload.value.rev
  }

  /** And the server put values of its own where a PATCH of the row would bring others. */
  predicate LinksACompletedUpload(t: Sync, e: Event) {
    LinksItsUpload(t, e) && !TakenAsSent(t.upload.value.snapshot, t.upload.value.phase.fill)
  }

  ghost predicate LinksTheWrongCopyAt(s: Sync, events: seq<Event>, k: nat, derive: string -> string)
    requires k < |events|
  {
    || LinksACompletedUpload(At(s, events, k, derive), events[k])
    || LinksAForeignCopy(s, events, k, derive)
    || exists i :: LinksALostUpload(s, events, i, k, derive)
  }

  ghost predicate LinksTheWrongCopy(s: Sync, events: seq<Event>, derive: string -> string) {
    exists k | 0 <= k < |events| :: LinksTheWrongCopyAt(s, events, k, derive)
  }

  /** The row gets its own copy: it is out of step exactly if the server completed it. */
  lemma OwnCopyAtHand(t: Sync, e: Event)
    requires Inv(t) && LinksItsUpload(t, e)
    ensures LinksAnotherCopy(t, e) <==> LinksACompletedUpload(t, e)
  {
    TakenAsSentMeansInStep(t.upload.value.snapshot, t.upload.value.phase.fill);
    hide PatchOf, ExtrasOf, Uploaded, Settled, TakenAsSent;
  }

  /** In an agreeing run the two descriptions of the copy meet at the attachment. */
  lemma AnotherCopyIsTheWrongOne(s: Sync, events: seq<Event>, k: nat, derive: string -> string)
    requires Initial(s) && k < |events| && forall m | 0 <= m <= k :: Agrees(At(s, events, m, derive))
    ensures LinksAnotherCopy(At(s, events, k, derive), events[k]) <==> LinksTheWrongCopyAt(s, events, k, derive)
  {
    hide Agrees, At, Next, PatchOf, ExtrasOf, Uploaded, Settled, TakenAsSent;
    CopiesAreExplained(s, events, k, derive);
    var t := At(s, events, k, derive);
    if LinksItsUpload(t, events[k]) {
      OwnCopyAtHand(t, events[k]);
    } else if LinksADuplicate(t, events[k]) {
      OneExplanation(s, events, k, derive);
      hide CreatesNothing, LastLoss;
      if exists i :: LastLoss(s, events, i, k, derive) {
        var i :| LastLoss(s, events, i, k, derive);
        assert LinksALostUpload(s, events, i, k, derive) <==> !InStep(t.remote, PatchOf(t.row));
      }
    }
  }

  /** Without a creation the copy of an unlinked contact does not change. */
  lemma {:induction false} CopyIsKept(s: Sync, events: seq<Event>, a: nat, n: nat, derive: string -> string)
    requires a <= n <= |events| && forall m | a <= m <= n :: Inv(At(s, events, m, derive))
    requires At(s, events, n, derive).row.wavelogId <= 0
    requires forall c | a <= c < n :: !Creates(At(s, events, c, derive), events[c])
    ensures At(s, events, a, derive).row.wavelogId <= 0
    ensures At(s, events, a, derive).remote == At(s, events, n, derive).remote
    decreases n - a
  {
    hide Inv, Next, At, Creates;
    if n == a {
    } else {
      AtNext(s, events, n - 1, derive);
      UnlinkedStep(At(s, events, n - 1, derive), events[n - 1], derive);
      CopyIsKept(s, events, a, n - 1, derive);
    }
  }

  lemma LossLeavesTheCopy(s: Sync, events: seq<Event>, i: nat, k: nat, derive: string -> string)
    requires k <= |events| && LastLoss(s, events, i, k, derive)
    requires forall m | 0 <= m <= k :: Inv(At(s, events, m, derive))
    requires At(s, events, k, derive).row.wavelogId <= 0
    ensures At(s, events, k, derive).remote == Some(CopyOf(LostUpload(s, events, i, derive)))
  {
    assert HonestUpload(At(s, events, i, derive), At(s, events, i, derive).upload.value);
    hide Inv, Next, At, CopyOf;
    CopyIsKept(s, events, i, k, derive);
  }

  /** With a duplicate at hand, the explanation decides which copy it is. */
  lemma OneExplanation(s: Sync, events: seq<Event>, k: nat, derive: string -> string)
    requires Initial(s) && k < |events| && LinksADuplicate(At(s, events, k, derive), events[k])
    requires forall m | 0 <= m <= k :: Agrees(At(s, events, m, derive))
    ensures CreatesNothing(s, events, -1, k, derive) ==> At(s, events, k, derive).remote == s.remote
    ensures forall i :: LastLoss(s, events, i, k, derive) ==>
              At(s, events, k, derive).remote == Some(CopyOf(LostUpload(s, events, i, derive)))
    ensures CreatesNothing(s, events, -1, k, derive) || exists i :: LastLoss(s, events, i, k, derive)
  {
    forall m | 0 <= m <= k
      ensures Inv(At(s, events, m, derive))
    {
      hide Agrees, Inv, At, Next;
      CopiesAreExplained(s, events, m, derive);
    }
    CopiesAreExplained(s, events, k, derive);
    assert events[..0] == [] && At(s, events, 0, derive) == s;
    assert At(s, events, k, derive).row.wavelogId <= 0;
    hide Agrees, Inv, At, Next, CopyOf;
    forall i | LastLoss(s, events, i, k, derive)
      ensures At(s, events, k, derive).remote == Some(CopyOf(LostUpload(s, events, i, derive)))
    {
      LossLeavesTheCopy(s, events, i, k, derive);
    }
    if CreatesNothing(s, events, -1, k, derive) {
      CopyIsKept(s, events, 0, k, derive);
    }
  }

  /** The promise holds up to moment k and no longer. */
  ghost predicate BreaksAt(s: Sync, events: seq<Event>, k: nat, derive: string -> string)
    requires k < |events|
  {
    && !Agrees(At(s, events, k + 1, derive))
    && forall m | 0 <= m <= k :: Agrees(At(s, events, m, derive))
  }

  lemma {:induction false} FirstBreak(s: Sync, events: seq<Event>, n: nat, derive: string -> string)
    requires Agrees(s) && n <= |events| && !Agrees(At(s, events, n, derive))
    ensures exists k | 0 <= k < |events| :: BreaksAt(s, events, k, derive)
    decreases n
  {
    assert events[..0] == [] && At(s, events, 0, derive) == s;
    hide Agrees, At;
    if forall m | 0 <= m < n :: Agrees(At(s, events, m, derive)) {
      assert BreaksAt(s, events, n - 1, derive);
    } else {
      var m :| 0 <= m < n && !Agrees(At(s, events, m, derive));
      FirstBreak(s, events, m, derive);
    }
  }

  /** A break is exactly the attachment of a wrong copy. */
  lemma BreaksWhereAWrongCopyIsLinked(s: Sync, events: seq<Event>, k: nat, derive: string -> string)
    requires Initial(s) && k < |events| && forall m | 0 <= m <= k :: Agrees(At(s, events, m, derive))
    ensures Agrees(At(s, events, k + 1, derive)) <==> !LinksTheWrongCopyAt(s, events, k, derive)
  {
    FreshContactsStartHonest(s);
    hide Agrees, At, Inv, Initial, LinksAnotherCopy, LinksTheWrongCopyAt;
    InvWhileAgreeing(s, events, k, derive);
    AtNext(s, events, k, derive);
    NextKeepsTheInvariant(At(s, events, k, derive), events[k], derive);
    AnotherCopyIsTheWrongOne(s, events, k, derive);
  }

  /** Over every run of a contact that starts unlinked, the promise holds at every
      moment exactly unless the row gets linked to the wrong copy: its own upload
      with values the server put in by itself, a copy that was there before and
      differs, or one a lost answer left behind that the row is out of step with. */
  lemma PromiseHoldsUnlessTheWrongCopyIsLinked(s: Sync, events: seq<Event>, derive: string -> string)
    requires Initial(s)
    ensures AlwaysAgrees(s, events, derive) <==> !LinksTheWrongCopy(s, events, derive)
  {
    FreshContactsStartHonest(s);
    assert Agrees(s);
    hide Agrees, At, Inv, Initial, LinksTheWrongCopyAt;
    if AlwaysAgrees(s, events, derive) {
      forall k | 0 <= k < |events|
        ensures !LinksTheWrongCopyAt(s, events, k, derive)
      {
        BreaksWhereAWrongCopyIsLinked(s, events, k, derive);
        assert Agrees(At(s, events, k + 1, derive));
      }
    } else {
      var n :| 0 <= n <= |events| && !Agrees(At(s, events, n, derive));
      FirstBreak(s, events, n, derive);
      var k :| 0 <= k < |events| && BreaksAt(s, events, k, derive);
      BreaksWhereAWrongCopyIsLinked(s, events, k, derive);
    }
  }

  /** No upload the server has taken is dropped without its id. */
  ghost predicate NoCreationLost(s: Sync, events: seq<Event>, derive: string -> string) {
    forall i | 0 <= i < |events| :: !LosesCreation(At(s, events, i, derive), events[i])
  }

  /** In particular: of a contact the server has never seen, and with no lost answer,
      the promise holds exactly if the upload that gets linked was taken as sent. */
  lemma NoLostAnswerKeepsThePromise(s: Sync, events: seq<Event>, derive: string -> string)
    requires Initial(s) && s.remote == None && NoCreationLost(s, events, derive)
    ensures AlwaysAgrees(s, events, derive) <==>
      forall k | 0 <= k < |events| :: !LinksACompletedUpload(At(s, events, k, derive), events[k])
  {
    hide At, Agrees, Initial, LinksACompletedUpload;
    forall k | 0 <= k < |events|
      ensures LinksTheWrongCopyAt(s, events, k, derive) <==> LinksACompletedUpload(At(s, events, k, derive), events[k])
    {
      NoForeignCopy(s, events, k, derive);
    }
    PromiseHoldsUnlessTheWrongCopyIsLinked(s, events, derive);
  }

  /** A server that has no copy and gets none cannot call anything a duplicate. */
  lemma {:induction false} NoCopyNoDuplicate(s: Sync, events: seq<Event>, n: nat, derive: string -> string)
    requires Initial(s) && s.remote == None && n <= |events|
    requires CreatesNothing(s, events, -1, n, derive)
    ensures var t := At(s, events, n, derive);
      && t.remote == None && t.row.wavelogId <= 0 && t.wire == []
      && (t.upload.Some? ==> t.upload.value.phase == Sent)
    decreases n
  {
    if n == 0 {
      assert events[..0] == [];
    } else {
      NoCopyNoDuplicate(s, events, n - 1, derive);
      AtNext(s, events, n - 1, derive);
      hide At, Uploaded, PatchOf, Patched, LogSteps.FillsSomething;
      RowsKeepTheirLink(At(s, events, n - 1, derive).row, events[n - 1], derive);
      hide LogSteps.EditedRow, LogSteps.EnrichedRow;
    }
  }

  lemma RowsKeepTheirLink(q: Qso, e: Event, derive: string -> string)
    ensures e.LocalSave? ==> LogSteps.EditedRow(q, e.form, q.wavelogId > 0, derive).wavelogId == q.wavelogId
    ensures e.LocalEnrich? ==> LogSteps.EnrichedRow(q, e.e).wavelogId == q.wavelogId
  {
  }

  lemma NoForeignCopy(s: Sync, events: seq<Event>, k: nat, derive: string -> string)
    requires Initial(s) && s.remote == None && k < |events|
    ensures !LinksAForeignCopy(s, events, k, derive)
  {
    hide At;
    if CreatesNothing(s, events, -1, k, derive) { NoCopyNoDuplicate(s, events, k, derive); }
  }

  // ── a lost upload needs an edit to do harm ───────────────────────────────

  predicate Edits(e: Event) { e.LocalSave? || e.LocalEnrich? }

  /** Apart from edits, only an attachment and an acknowledgement touch the row. */
  lemma RowStep(t: Sync, e: Event, derive: string -> string)
    requires !Edits(e)
    ensures var row := Next(t, e, derive).row;
      || row == t.row
      || (e.AttachId? && t.upload.Some? && row == LogSteps.IdAttached(t.row, e.remoteId, t.upload.value.rev))
      || (e.Acknowledge? && |t.wire| > 0 && t.wire[0].Applied? && row == LogSteps.Acknowledged(t.row, t.wire[0].ackRev))
  {
    hide PatchOf, AfterPatch, Uploaded, LogSteps.IdAttached, LogSteps.Acknowledged;
  }

  lemma OnlyEditsChangeTheContent(t: Sync, e: Event, derive: string -> string)
    requires !Edits(e)
    ensures PatchOf(Next(t, e, derive).row) == PatchOf(t.row)
  {
    if e.AttachId? && t.upload.Some? { BookkeepingIsNotContent(t.row, e.remoteId, t.upload.value.rev); }
    if e.Acknowledge? && |t.wire| > 0 && t.wire[0].Applied? { BookkeepingIsNotContent(t.row, 0, t.wire[0].ackRev); }
    RowStep(t, e, derive);
    hide Next, PatchOf, ExtrasOf, LogSteps.IdAttached, LogSteps.Acknowledged;
  }

  ghost predicate ChangesTheContent(s: Sync, events: seq<Event>, j: nat, derive: string -> string)
    requires j < |events|
  {
    Edits(events[j]) && PatchOf(At(s, events, j + 1, derive).row) != PatchOf(At(s, events, j, derive).row)
  }

  lemma {:induction false} ChangedContentHasAnEdit(s: Sync, events: seq<Event>, a: nat, n: nat, derive: string -> string)
    requires a <= n <= |events|
    requires PatchOf(At(s, events, a, derive).row) != PatchOf(At(s, events, n, derive).row)
    ensures exists j | a <= j < n :: ChangesTheContent(s, events, j, derive)
    decreases n - a
  {
    hide At, PatchOf, Next;
    var m := n - 1;
    if PatchOf(At(s, events, m, derive).row) != PatchOf(At(s, events, n, derive).row) {
      AtNext(s, events, m, derive);
      if !Edits(events[m]) { OnlyEditsChangeTheContent(At(s, events, m, derive), events[m], derive); }
      assert ChangesTheContent(s, events, m, derive);
    } else {
      ChangedContentHasAnEdit(s, events, a, m, derive);
      var j :| a <= j < m && ChangesTheContent(s, events, j, derive);
    }
  }

  /** Where the parts of an upload come from in one event. */
  lemma UploadStep(t: Sync, e: Event, derive: string -> string)
    requires Next(t, e, derive).upload.Some?
    ensures var u := Next(t, e, derive).upload.value;
      && ((t.upload.Some? && t.upload.value.snapshot == u.snapshot) || (e.StartUpload? && t.row == u.snapshot))
      && (u.phase.Created? ==> (t.upload.Some? && t.upload.value.phase == u.phase) || e == ServerCreates(u.phase.fill))
  {
    hide PatchOf, Patched, Uploaded, AfterPatch, LogSteps.EditedRow, LogSteps.EnrichedRow, LogSteps.FillsSomething;
  }

  /** An upload carries the row as it was when it started. */
  lemma {:induction false} SnapshotWasTaken(s: Sync, events: seq<Event>, n: nat, derive: string -> string)
    requires Initial(s) && n <= |events| && At(s, events, n, derive).upload.Some?
    ensures exists a | 0 <= a < n ::
      events[a].StartUpload? && At(s, events, a, derive).row == At(s, events, n, derive).upload.value.snapshot
    decreases n
  {
    assert events[..0] == [] && At(s, events, 0, derive) == s;
    var m := n - 1;
    AtNext(s, events, m, derive);
    var t, u := At(s, events, m, derive), At(s, events, n, derive);
    UploadStep(t, events[m], derive);
    hide At, Next;
    if t.upload.Some? && t.upload.value.snapshot == u.upload.value.snapshot {
      SnapshotWasTaken(s, events, m, derive);
    } else {
      assert events[m].StartUpload? && t.row == u.upload.value.snapshot;
    }
  }

  /** Between the start of a lost upload that was taken as sent and the attachment
      some save or enrichment changed a column a PATCH carries. */
  lemma LostUploadsNeedAnEdit(s: Sync, events: seq<Event>, i: nat, k: nat, derive: string -> string)
    requires Initial(s) && k < |events| && LinksALostUpload(s, events, i, k, derive)
    ensures var u := LostUpload(s, events, i, derive);
      TakenAsSent(u.snapshot, u.phase.fill) ==>
        exists a, j | 0 <= a < i && a <= j < k ::
          && events[a].StartUpload? && At(s, events, a, derive).row == u.snapshot
          && ChangesTheContent(s, events, j, derive)
  {
    var u := LostUpload(s, events, i, derive);
    TakenAsSentMeansInStep(u.snapshot, u.phase.fill);
    PatchingSettles(PatchOf(u.snapshot), PatchOf(u.snapshot));
    if TakenAsSent(u.snapshot, u.phase.fill) {
      assert CopyOf(u).patched == PatchOf(u.snapshot);
      hide At, Next, PatchOf, ExtrasOf, Uploaded, TakenAsSent;
      SnapshotWasTaken(s, events, i, derive);
      var a :| 0 <= a < i && events[a].StartUpload? && At(s, events, a, derive).row == u.snapshot;
      ChangedContentHasAnEdit(s, events, a, k, derive);
      var j :| a <= j < k && ChangesTheContent(s, events, j, derive);
    }
  }

  // ── a server that adds nothing ───────────────────────────────────────────

  /** What an upload was completed with came with the server's acceptance. */
  lemma {:induction false} FillWasGiven(s: Sync, events: seq<Event>, n: nat, derive: string -> string)
    requires Initial(s) && n <= |events|
    requires At(s, events, n, derive).upload.Some? && At(s, events, n, derive).upload.value.phase.Created?
    ensures ServerCreates(At(s, events, n, derive).upload.value.phase.fill) in events
    decreases n
  {
    assert events[..0] == [] && At(s, events, 0, derive) == s;
    var m := n - 1;
    AtNext(s, events, m, derive);
    var t, u := At(s, events, m, derive), At(s, events, n, derive);
    UploadStep(t, events[m], derive);
    hide At, Next;
    if t.upload.Some? && t.upload.value.phase == u.upload.value.phase {
      FillWasGiven(s, events, m, derive);
    } else {
      assert events[m] == ServerCreates(u.upload.value.phase.fill);
    }
  }

  /** If the server adds nothing by itself, no answer is lost and the zones of the row
      are always plain, the promise is kept. */
  lemma PlainZonesKeepThePromise(s: Sync, events: seq<Event>, derive: string -> string)
    requires Initial(s) && s.remote == None && NoCreationLost(s, events, derive)
    requires forall e | e in events :: e.ServerCreates? ==> e.fill == NOTHING
    requires forall n | 0 <= n <= |events| ::
      PlainZone(At(s, events, n, derive).row.cqZone) && PlainZone(At(s, events, n, derive).row.ituZone)
    ensures AlwaysAgrees(s, events, derive)
  {
    hide At, Agrees, Initial, PlainZone, TakenAsSent;
    forall k | 0 <= k < |events|
      ensures !LinksACompletedUpload(At(s, events, k, derive), events[k])
    {
      if LinksItsUpload(At(s, events, k, derive), events[k]) {
        var u := At(s, events, k, derive).upload.value;
        FillWasGiven(s, events, k, derive);
        SnapshotWasTaken(s, events, k, derive);
        OnlyZonesAreReadTwice(u.snapshot);
      }
    }
    NoLostAnswerKeepsThePromise(s, events, derive);
  }

  // ── nothing pending is forgotten ─────────────────────────────────────────

  lemma {:induction false} PushStaysOwed(s: Sync, events: seq<Event>, n: nat, derive: string -> string)
    requires Initial(s) && AlwaysAgrees(s, events, derive) && n <= |events|
    requires forall i | 0 <= i < |events| :: Reliable(events[i])
    ensures PushOwed(At(s, events, n, derive))
    decreases n
  {
    FreshContactsStartHonest(s);
    hide Agrees, Inv, Next, PushOwed, Initial, Reliable;
    if n == 0 {
      assert events[..0] == [] && At(s, events, 0, derive) == s;
    } else {
      hide At;
      PushStaysOwed(s, events, n - 1, derive);
      InvWhileAgreeing(s, events, n - 1, derive);
      AtNext(s, events, n - 1, derive);
      NextOwesThePush(At(s, events, n - 1, derive), events[n - 1], derive);
    }
  }

  /** After a run online with no lost answer to a PATCH, in which no wrong copy got
      linked, a linked contact with no PATCH in flight is clean, and the server shows
      it. */
  lemma QuietMeansSynchronized(s: Sync, events: seq<Event>, derive: string -> string)
    requires Initial(s) && !LinksTheWrongCopy(s, events, derive)
    requires forall i | 0 <= i < |events| :: Reliable(events[i])
    ensures var end := Run(s, events, derive);
      end.row.wavelogId > 0 && !end.inFlight ==>
        !end.row.wavelogDirty && end.remote.Some? && Shows(end.remote.value.patched, end.row)
  {
    hide Run, Next, LinksTheWrongCopy, Initial, Reliable, Settled, Shows, PatchOf;
    PromiseHoldsUnlessTheWrongCopyIsLinked(s, events, derive);
    PushStaysOwed(s, events, |events|, derive);
    FreshContactsStartHonest(s);
    InvWhileAgreeing(s, events, |events|, derive);
    assert events[..|events|] == events;
    var end := Run(s, events, derive);
    assert Agrees(end);
    if end.remote.Some? { SettledMeansShown(end.remote.value.patched, end.row); }
  }

  // ── the columns no PATCH carries ─────────────────────────────────────────

  /** A linked contact whose copy has no empty identity column. */
  predicate LinkedTo(s: Sync, extras: Extras) {
    s.row.wavelogId > 0 && s.upload == None && s.remote.Some?
    && s.remote.value.extras == extras && Complete(s.remote.value.patched)
  }

  lemma CopyStaysComplete(s: Sync, e: Event, extras: Extras, derive: string -> string)
    requires LinkedTo(s, extras)
    ensures var remote := Next(s, e, derive).remote;
      remote.Some? && remote.value.extras == extras && Complete(remote.value.patched)
  {
    if e.ServerApplies? && |s.wire| > 0 && s.wire[0].OnWire? {
      SettledIsEquality(s.remote.value.patched, s.wire[0].content);
    }
    hide Complete, Patched, PatchOf, Uploaded, LogSteps.EditedRow, LogSteps.EnrichedRow, LogSteps.FillsSomething;
  }

  lemma LinkedNext(s: Sync, e: Event, extras: Extras, derive: string -> string)
    requires Inv(s) && LinkedTo(s, extras)
    ensures Inv(Next(s, e, derive)) && LinkedTo(Next(s, e, derive), extras)
  {
    CopyStaysComplete(s, e, extras, derive);
    LinkIsKept(s, e, derive);
    hide Inv, Complete, Next, InStep, PatchOf;
    NextKeepsTheInvariant(s, e, derive);
  }

  lemma {:induction false} LinkedRun(s: Sync, events: seq<Event>, extras: Extras, derive: string -> string)
    requires Inv(s) && LinkedTo(s, extras)
    ensures Inv(Run(s, events, derive)) && LinkedTo(Run(s, events, derive), extras)
    decreases |events|
  {
    if events == [] {
    } else {
      hide Inv, LinkedTo, Next;
      LinkedNext(s, events[0], extras, derive);
      LinkedRun(Next(s, events[0], derive), events[1..], extras, derive);
    }
  }

  /** From a linked contact whose whole copy agrees, after any run that leaves it not
      pending, the whole copy agrees again exactly when the columns no PATCH
      carries are as they were and no identity column was emptied. */
  lemma WholeCopyAgreesIffTheRestIsUnchanged(s: Sync, events: seq<Event>, derive: string -> string)
    requires Inv(s) && s.row.wavelogId > 0 && s.remote == Some(Image(s.row)) && Complete(PatchOf(s.row))
    requires !Run(s, events, derive).row.wavelogDirty
    ensures var end := Run(s, events, derive);
      end.remote == Some(Image(end.row)) <==> ExtrasOf(end.row) == ExtrasOf(s.row) && Complete(PatchOf(end.row))
  {
    hide Run, PatchOf, ExtrasOf, Patched, Complete;
    LinkedRun(s, events, ExtrasOf(s.row), derive);
    var end := Run(s, events, derive);
    SettledIsEquality(end.remote.value.patched, PatchOf(end.row));
  }

  /** Every PATCH on the wire carries this content. */
  predicate CarriesOnly(s: Sync, content: Payload) {
    forall i | 0 <= i < |s.wire| ::
      match s.wire[i]
      case OnWire(c, _) => c == content
      case Applied(c, _) => c == content
      case _ => true
  }

  lemma CopyIsUntouched(s: Sync, e: Event, content: Payload, derive: string -> string)
    requires s.upload == None && InStep(s.remote, content) && CarriesOnly(s, content)
    ensures Next(s, e, derive).remote == s.remote
  {
    hide PatchOf, Patched, LogSteps.EditedRow, LogSteps.EnrichedRow, LogSteps.FillsSomething;
  }

  lemma WireCarriesTheSame(s: Sync, e: Event, derive: string -> string)
    requires CarriesOnly(s, PatchOf(s.row)) && s.upload == None
    ensures CarriesOnly(Next(s, e, derive), PatchOf(s.row))
  {
    hide PatchOf, AfterPatch, LogSteps.EditedRow, LogSteps.EnrichedRow, LogSteps.FillsSomething;
    match e {
      case LocalSave(_, _) =>
      case LocalEnrich(_, _) =>
      case WorkerReads =>
      case ServerApplies =>
      case HandleCompletion =>
      case _ =>
    }
  }

  lemma TracelessNext(s: Sync, e: Event, content: Payload, derive: string -> string)
    requires s.row.wavelogId > 0 && s.upload == None && InStep(s.remote, content) && CarriesOnly(s, content)
    requires PatchOf(s.row) == content
    ensures var t := Next(s, e, derive);
      t.row.wavelogId > 0 && t.upload == None && t.remote == s.remote && CarriesOnly(t, content)
  {
    hide Next, PatchOf, InStep, CarriesOnly;
    LinkIsKept(s, e, derive);
    CopyIsUntouched(s, e, content, derive);
    WireCarriesTheSame(s, e, derive);
  }

  /** Edits that touch only columns no PATCH carries leave the server's copy exactly
      as it was, however often they are pushed and acknowledged. */
  lemma {:induction false} OtherColumnsNeverTravel(s: Sync, events: seq<Event>, content: Payload, derive: string -> string)
    requires s.row.wavelogId > 0 && s.upload == None && InStep(s.remote, content) && CarriesOnly(s, content)
    requires forall n | 0 <= n <= |events| :: PatchOf(At(s, events, n, derive).row) == content
    ensures Run(s, events, derive).remote == s.remote
    decreases |events|
  {
    assert events[..0] == [] && At(s, events, 0, derive) == s;
    if events == [] {
    } else {
      hide PatchOf, InStep, CarriesOnly, Next;
      var t := Next(s, events[0], derive);
      TracelessNext(s, events[0], content, derive);
      forall n | 0 <= n <= |events[1..]|
        ensures PatchOf(At(t, events[1..], n, derive).row) == content
      {
        assert events[..n + 1][0] == events[0] && events[..n + 1][1..] == events[1..][..n];
        assert At(s, events, n + 1, derive) == At(t, events[1..], n, derive);
      }
      OtherColumnsNeverTravel(t, events[1..], content, derive);
    }
  }

  // ── runs on which a promise fails ────────────────────────────────────────

  /** A callbook answer that brings only the country. */
  function CountryOnly(country: string): LogSteps.Enrichment {
    LogSteps.Enrichment("", "", country, "", "", "", "", "")
  }

  function PushCycle(country: string): seq<Event> {
    [LocalEnrich(CountryOnly(country), true), WorkerReads, ServerApplies, Acknowledge, HandleCompletion]
  }

  lemma CountryFills(q: Qso, country: string)
    requires q.country == "" && country != "" && q.wavelogId > 0 && !q.wavelogDirty
    ensures LogSteps.FillsSomething(q, CountryOnly(country))
    ensures LogSteps.EnrichedRow(q, CountryOnly(country))
         == q.(country := country, wavelogDirty := true, wavelogRev := q.wavelogRev + 1)
  {
  }

  lemma CountryIsQueued(s: Sync, country: string, derive: string -> string)
    requires s.row.wavelogId > 0 && !s.row.wavelogDirty && s.wire == [] && !s.inFlight
    requires s.row.country == "" && country != ""
    ensures var row := s.row.(country := country, wavelogDirty := true, wavelogRev := s.row.wavelogRev + 1);
      Next(s, LocalEnrich(CountryOnly(country), true), derive)
        == s.(row := row, inFlight := true, wire := [Starting(None)])
  {
    CountryFills(s.row, country);
    hide LogSteps.EnrichedRow, LogSteps.FillsSomething;
  }

  /** A worker that reads, is applied and is acknowledged, with nothing queued. */
  lemma PushGoesThrough(s: Sync, derive: string -> string)
    requires s.row.wavelogId > 0 && s.inFlight && !s.queued && s.wire == [Starting(None)]
    ensures var content, rev := PatchOf(s.row), s.row.wavelogRev;
      var t2 := s.(wire := [OnWire(content, rev)]);
      var t3 := t2.(remote := AfterPatch(s.remote, content), wire := [Applied(content, rev)]);
      var t4 := t3.(row := s.row.(wavelogDirty := false), wire := [Done]);
      && Next(s, WorkerReads, derive) == t2 && Next(t2, ServerApplies, derive) == t3
      && Next(t3, Acknowledge, derive) == t4
      && Next(t4, HandleCompletion, derive) == t4.(wire := [], inFlight := false)
  {
    hide PatchOf, AfterPatch;
  }

  /** Where the row, the copy and the wire stand after the cycle. */
  lemma CycleEnds(s: Sync, country: string, derive: string -> string)
    requires s.row.wavelogId > 0 && !s.row.wavelogDirty && s.wire == [] && !s.inFlight && !s.queued
    requires s.row.country == "" && country != ""
    ensures Run(s, PushCycle(country), derive)
         == s.(row := s.row.(country := country, wavelogRev := s.row.wavelogRev + 1),
               remote := AfterPatch(s.remote, PatchOf(s.row)))
  {
    var row := s.row.(country := country, wavelogDirty := true, wavelogRev := s.row.wavelogRev + 1);
    OnlyTheseColumnsTravel(s.row, row);
    var rev, content, es := row.wavelogRev, PatchOf(s.row), PushCycle(country);
    var t1 := s.(row := row, inFlight := true, wire := [Starting(None)]);
    var t2 := t1.(wire := [OnWire(content, rev)]);
    var t3 := t2.(remote := AfterPatch(s.remote, content), wire := [Applied(content, rev)]);
    var t4 := t3.(row := row.(wavelogDirty := false), wire := [Done]);
    hide PatchOf, AfterPatch, Next;
    CountryIsQueued(s, country, derive);
    PushGoesThrough(t1, derive);
    RunOne(s, es, 0, derive);
    RunOne(t1, es, 1, derive);
    RunOne(t2, es, 2, derive);
    RunOne(t3, es, 3, derive);
    RunOne(t4, es, 4, derive);
    assert es[0..] == es && es[5..] == [];
  }

  /** The callbook brings the country of a linked, clean contact; the row is marked
      pending, the PATCH goes out and is acknowledged, the row is clean again, and
      the server's copy is what it was. */
  lemma CountryStaysAtHome(s: Sync, country: string, derive: string -> string)
    requires Inv(s) && s.row.wavelogId > 0 && !s.row.wavelogDirty && s.wire == []
    requires s.row.country == "" && country != ""
    ensures Next(s, LocalEnrich(CountryOnly(country), true), derive).row.wavelogDirty
    ensures var end := Run(s, PushCycle(country), derive);
      && end.row.country == country && end.row.wavelogId > 0 && !end.row.wavelogDirty && !end.inFlight
      && end.remote == s.remote
  {
    CountryFills(s.row, country);
    hide Run, PatchOf, Patched;
    CycleEnds(s, country, derive);
  }

  function LostAnswer(form: Qso, fill: Fill): seq<Event> {
    [StartUpload, ServerCreates(fill), UploadLost, LocalSave(form, true), StartUpload, ServerSaysDuplicate, AttachId(7, true)]
  }

  lemma FirstUploadIsLost(s: Sync, fill: Fill, derive: string -> string)
    requires Initial(s)
    ensures Next(Next(Next(s, StartUpload, derive), ServerCreates(fill), derive), UploadLost, derive)
         == s.(remote := Some(Uploaded(s.row, fill)))
  {
    hide Uploaded;
  }

  lemma SecondUploadIsADuplicate(s: Sync, derive: string -> string)
    requires s.row.wavelogId == 0 && s.upload == None && s.remote.Some?
    ensures Next(Next(Next(s, StartUpload, derive), ServerSaysDuplicate, derive), AttachId(7, true), derive)
         == s.(row := s.row.(wavelogId := 7))
  {
    hide Uploaded;
  }

  lemma NewNameIsOutOfStep(before: Qso, fill: Fill, after: Qso)
    requires OrElse(before.name, fill.name) != after.name
    ensures !InStep(Some(Uploaded(before, fill)), PatchOf(after))
  {
  }

  /** Where that run ends. */
  lemma LostAnswerEnds(s: Sync, form: Qso, fill: Fill, derive: string -> string)
    requires Initial(s)
    ensures Run(s, LostAnswer(form, fill), derive)
         == s.(row := LogSteps.EditedRow(s.row, form, false, derive).(wavelogId := 7), remote := Some(Uploaded(s.row, fill)))
  {
    hide LogSteps.EditedRow, Uploaded;
    var row := LogSteps.EditedRow(s.row, form, false, derive);
    var t1 := Next(s, StartUpload, derive);
    var t2 := Next(t1, ServerCreates(fill), derive);
    var t3 := s.(remote := Some(Uploaded(s.row, fill)));
    var t4 := t3.(row := row);
    var t5 := Next(t4, StartUpload, derive);
    var t6 := Next(t5, ServerSaysDuplicate, derive);
    FirstUploadIsLost(s, fill, derive);
    assert Next(t3, LocalSave(form, true), derive) == t4;
    EditsKeepTheId(s.row, form, derive);
    SecondUploadIsADuplicate(t4, derive);
    var es := LostAnswer(form, fill);
    hide Next;
    RunOne(s, es, 0, derive);
    RunOne(t1, es, 1, derive);
    RunOne(t2, es, 2, derive);
    RunOne(t3, es, 3, derive);
    RunOne(t4, es, 4, derive);
    RunOne(t5, es, 5, derive);
    RunOne(t6, es, 6, derive);
    assert es[0..] == es && es[7..] == [];
  }

  lemma EditsKeepTheId(q: Qso, form: Qso, derive: string -> string)
    ensures var r := LogSteps.EditedRow(q, form, false, derive);
      r.wavelogId == q.wavelogId && r.wavelogDirty == q.wavelogDirty && r.name == form.name
  {
  }

  /** A lost answer, an edit and a second upload: the server reports the first
      copy as a duplicate, the row is linked and counts as clean, and the edit
      is on neither the wire nor the server. */
  lemma LostAnswerLosesTheEdit(s: Sync, form: Qso, fill: Fill, derive: string -> string)
    requires Initial(s) && form.name != OrElse(s.row.name, fill.name)
    ensures var end := Run(s, LostAnswer(form, fill), derive);
      && end.row.wavelogId > 0 && !end.row.wavelogDirty && end.wire == []
      && end.row.name == form.name && end.remote == Some(Uploaded(s.row, fill)) && !Agrees(end)
  {
    var row := LogSteps.EditedRow(s.row, form, false, derive).(wavelogId := 7);
    EditsKeepTheId(s.row, form, derive);
    NewNameIsOutOfStep(s.row, fill, row);
    hide Run, Uploaded, PatchOf, InStep, LogSteps.EditedRow;
    LostAnswerEnds(s, form, fill, derive);
  }
}
