/** One contact and its Wavelog copy as a step system: local edits and
    enrichments, one upload or one PATCH in flight, answers that are delayed
    or lost before or after the server applied the request. */
module WavelogSync {
  import opened Common
  import opened Contact
  import opened LogSteps
  import opened WavelogPayload

  // ── state ────────────────────────────────────────────────────────────────

  /** The life of one PATCH worker.  A form save carries the revision of its own
      edit; every other push acknowledges the revision it reads. */
  datatype Patch =
    | Starting(saved: Option<int>)
    | OnWire(content: Payload, ackRev: int)
    | Applied(content: Payload, ackRev: int)
    | Done

  /** The initial upload: sent, accepted by creating the remote copy with the
      server's own values in the columns left out, or answered as a duplicate of a
      copy that was already there. */
  datatype Phase = Sent | Created(fill: Fill) | Duplicate
  datatype Upload = Upload(snapshot: Qso, rev: int, phase: Phase)

  /** `wire` lists the PATCH workers of this contact; `inFlight` and `queued`
      are the coordinator's two map entries for it. */
  datatype Sync = Sync(row: Qso, remote: Option<RemoteCopy>, upload: Option<Upload>,
                       wire: seq<Patch>, inFlight: bool, queued: bool)

  datatype Event =
    | LocalSave(form: Qso, online: bool)
    | LocalEnrich(e: Enrichment, online: bool)
    | RetryPending
    | StartUpload
    | ServerCreates(fill: Fill)
    | ServerSaysDuplicate
    | UploadLost
    | AttachId(remoteId: int, online: bool)
    | WorkerReads
    | ServerApplies
    | PatchLost
    | Acknowledge
    | HandleCompletion

  // ── steps ────────────────────────────────────────────────────────────────

  /** Ask the coordinator for a push: start a worker, or queue behind one. */
  function Requested(s: Sync, saved: Option<int>): Sync {
    if s.inFlight then s.(queued := true)
    else s.(inFlight := true, wire := s.wire + [Starting(saved)])
  }

  /** The PATCH changes its own columns of the copy and leaves the others. */
  function AfterPatch(remote: Option<RemoteCopy>, content: Payload): Option<RemoteCopy> {
    if remote.None? then None
    else Some(remote.value.(patched := Patched(remote.value.patched, content)))
  }

  /** One event; an event that is not possible in a state leaves it alone. */
  function Next(s: Sync, e: Event, derive: string -> string): Sync {
    match e
    case LocalSave(form, online) =>
      var row := EditedRow(s.row, form, s.row.wavelogId > 0, derive);
      var saved := s.(row := row);
      if s.row.wavelogId > 0 && online then Requested(saved, Some(row.wavelogRev)) else saved
    case LocalEnrich(data, online) =>
      var filled := s.(row := EnrichedRow(s.row, data));
      if FillsSomething(s.row, data) && s.row.wavelogId > 0 && online then Requested(filled, None) else filled
    case RetryPending =>
      // The list of pending rows may be out of date by now; a contact whose
      // chain is running is skipped.
      if s.row.wavelogId > 0 && !s.inFlight then Requested(s, None) else s
    case StartUpload =>
      if s.row.wavelogId <= 0 && s.upload == None
      then s.(upload := Some(Upload(s.row, s.row.wavelogRev, Sent))) else s
    case ServerCreates(fill) =>
      if s.upload.Some? && s.upload.value.phase == Sent
      then s.(remote := Some(Uploaded(s.upload.value.snapshot, fill)), upload := Some(s.upload.value.(phase := Created(fill))))
      else s
    case ServerSaysDuplicate =>
      if s.upload.Some? && s.upload.value.phase == Sent && s.remote.Some?
      then s.(upload := Some(s.upload.value.(phase := Duplicate))) else s
    case UploadLost =>
      s.(upload := None)
    case AttachId(remoteId, online) =>
      if s.upload.Some? && s.upload.value.phase != Sent && remoteId > 0 then
        var attached := s.(row := IdAttached(s.row, remoteId, s.upload.value.rev), upload := None);
        if s.row.wavelogRev > s.upload.value.rev && online then Requested(attached, None) else attached
      else s
    case WorkerReads =>
      if |s.wire| > 0 && s.wire[0].Starting? then
        s.(wire := [if s.row.wavelogId <= 0 then Done
                    else OnWire(PatchOf(s.row), if s.wire[0].saved.Some? then s.wire[0].saved.value else s.row.wavelogRev)]
                   + s.wire[1..])
      else s
    case ServerApplies =>
      if |s.wire| > 0 && s.wire[0].OnWire?
      then s.(remote := AfterPatch(s.remote, s.wire[0].content), wire := [Applied(s.wire[0].content, s.wire[0].ackRev)] + s.wire[1..])
      else s
    case PatchLost =>
      if |s.wire| > 0 && !s.wire[0].Done? then s.(wire := [Done] + s.wire[1..]) else s
    case Acknowledge =>
      if |s.wire| > 0 && s.wire[0].Applied?
      then s.(row := Acknowledged(s.row, s.wire[0].ackRev), wire := [Done] + s.wire[1..]) else s
    case HandleCompletion =>
      if |s.wire| > 0 && s.wire[0].Done? then
        if s.queued then s.(wire := s.wire[1..] + [Starting(None)], queued := false)
        else s.(wire := s.wire[1..], inFlight := false)
      else s
  }

  function Run(s: Sync, events: seq<Event>, derive: string -> string): Sync
    decreases |events|
  {
    if events == [] then s else Run(Next(s, events[0], derive), events[1..], derive)
  }

  lemma RunOne(s: Sync, events: seq<Event>, i: nat, derive: string -> string)
    requires i < |events|
    ensures Run(s, events[i..], derive) == Run(Next(s, events[i], derive), events[i + 1..], derive)
  {
    assert events[i..][1..] == events[i + 1..];
  }

  /** A contact that was never uploaded. */
  predicate Initial(s: Sync) {
    && s.row.wavelogId == 0 && !s.row.wavelogDirty && s.row.wavelogRev >= 0
    && s.upload == None && s.wire == [] && !s.inFlight && !s.queued
  }

  // ── the invariant ────────────────────────────────────────────────────────

  predicate InStep(remote: Option<RemoteCopy>, content: Payload) {
    remote.Some? && Settled(remote.value.patched, content)
  }

  /** The promise: of a linked row that is not pending, every column a PATCH can
      bring is on the server already. */
  predicate Agrees(s: Sync) {
    s.row.wavelogId > 0 && !s.row.wavelogDirty ==> InStep(s.remote, PatchOf(s.row))
  }

  /** What a push carries: never an acknowledgement from the future, the current
      content if it acknowledges the current revision, and the current content
      while the row counts as clean. */
  predicate CarriesHonestly(row: Qso, content: Payload, ackRev: int) {
    && ackRev <= row.wavelogRev
    && (ackRev == row.wavelogRev ==> content == PatchOf(row))
    && (!row.wavelogDirty ==> content == PatchOf(row))
  }

  predicate HonestPatch(s: Sync, p: Patch) {
    match p
    case Starting(saved) => saved.Some? ==> saved.value <= s.row.wavelogRev
    case OnWire(content, ackRev) => CarriesHonestly(s.row, content, ackRev)
    case Applied(content, ackRev) => CarriesHonestly(s.row, content, ackRev) && InStep(s.remote, content)
    case Done => true
  }

  predicate HonestUpload(s: Sync, u: Upload) {
    && 0 <= u.rev <= s.row.wavelogRev
    && (u.rev == s.row.wavelogRev ==> Image(u.snapshot) == Image(s.row))
    && (u.phase.Created? ==> s.remote == Some(Uploaded(u.snapshot, u.phase.fill)))
    && (u.phase == Duplicate ==> s.remote.Some?)
  }

  predicate Inv(s: Sync) {
    && Agrees(s) && s.row.wavelogRev >= 0
    && (s.inFlight <==> |s.wire| == 1) && |s.wire| <= 1 && (s.queued ==> s.inFlight)
    && (s.row.wavelogId > 0 ==> s.remote.Some? && s.upload == None)
    && (s.row.wavelogId <= 0 ==> s.wire == [] && !s.row.wavelogDirty)
    && (forall i | 0 <= i < |s.wire| :: HonestPatch(s, s.wire[i]))
    && (s.upload.Some? ==> HonestUpload(s, s.upload.value))
  }

  /** The one event that breaks the promise: the row is linked to a copy that is out
      of step with it, with no edit since the upload to mark it pending. */
  predicate LinksAnotherCopy(s: Sync, e: Event) {
    && e.AttachId? && e.remoteId > 0 && s.upload.Some? && s.upload.value.phase != Sent
    && s.row.wavelogRev == s.upload.value.rev
    && !InStep(s.remote, PatchOf(s.row))
  }

  lemma EditsMoveTheRevision(q: Qso, form: Qso, mark: bool, e: Enrichment, derive: string -> string)
    ensures EditedRow(q, form, mark, derive).wavelogRev == q.wavelogRev + 1
    ensures EditedRow(q, form, mark, derive).wavelogId == q.wavelogId
    ensures EditedRow(q, form, mark, derive).wavelogDirty <==> mark || q.wavelogDirty
    ensures EnrichedRow(q, e).wavelogId == q.wavelogId
    ensures FillsSomething(q, e) ==>
      && EnrichedRow(q, e).wavelogRev == q.wavelogRev + 1
      && (EnrichedRow(q, e).wavelogDirty <==> q.wavelogId > 0 || q.wavelogDirty)
    ensures !FillsSomething(q, e) ==>
      && EnrichedRow(q, e).wavelogRev == q.wavelogRev
      && EnrichedRow(q, e).wavelogDirty == q.wavelogDirty
      && Image(EnrichedRow(q, e)) == Image(q)
  {
    hide SixDigits, ZoneNumber, Hertz;
  }

  lemma BookkeepingIsNotContent(q: Qso, remoteId: int, rev: int)
    ensures Image(IdAttached(q, remoteId, rev)) == Image(q)
    ensures Image(Acknowledged(q, rev)) == Image(q)
  {
    hide SixDigits, ZoneNumber, Hertz;
  }

  lemma EditKeepsTheInvariant(s: Sync, row: Qso, saved: Option<int>)
    requires Inv(s) && row.wavelogId == s.row.wavelogId && row.wavelogRev == s.row.wavelogRev + 1
    requires row.wavelogDirty <==> s.row.wavelogId > 0 || s.row.wavelogDirty
    requires saved.Some? ==> saved.value == row.wavelogRev
    ensures Inv(s.(row := row))
    ensures s.row.wavelogId > 0 ==> Inv(Requested(s.(row := row), saved))
  {
    hide PatchOf, ExtrasOf, Patched, Uploaded;
  }

  lemma LocalEventKeeps(s: Sync, e: Event, derive: string -> string)
    requires Inv(s) && (e.LocalSave? || e.LocalEnrich?)
    ensures Inv(Next(s, e, derive))
  {
    match e
    case LocalSave(form, online) =>
      var row := EditedRow(s.row, form, s.row.wavelogId > 0, derive);
      EditsMoveTheRevision(s.row, form, s.row.wavelogId > 0, Enrichment("", "", "", "", "", "", "", ""), derive);
      hide EditedRow, PatchOf, ExtrasOf;
      EditKeepsTheInvariant(s, row, Some(row.wavelogRev));
    case LocalEnrich(data, online) =>
      EditsMoveTheRevision(s.row, s.row, false, data, derive);
      hide EnrichedRow, FillsSomething, PatchOf, ExtrasOf;
      if FillsSomething(s.row, data) { EditKeepsTheInvariant(s, EnrichedRow(s.row, data), None); }
  }

  lemma UploadEventKeeps(s: Sync, e: Event, derive: string -> string)
    requires Inv(s) && (e.StartUpload? || e.ServerCreates? || e.ServerSaysDuplicate? || e.UploadLost?)
    ensures Inv(Next(s, e, derive))
  {
    hide Image, Uploaded, PatchOf, ExtrasOf, InStep;
    if s.row.wavelogId > 0 {
      assert Next(s, e, derive) == s;
    } else {
      assert s.wire == [];
    }
  }

  lemma AttachKeeps(s: Sync, e: Event, derive: string -> string)
    requires Inv(s) && e.AttachId?
    ensures Inv(Next(s, e, derive)) <==> !LinksAnotherCopy(s, e)
    ensures Agrees(Next(s, e, derive)) <==> !LinksAnotherCopy(s, e)
  {
    hide Patched, Settled, PatchOf, ExtrasOf;
    if s.upload.Some? && s.upload.value.phase != Sent && e.remoteId > 0 {
      BookkeepingIsNotContent(s.row, e.remoteId, s.upload.value.rev);
      AttachedRow(s.row, e.remoteId, s.upload.value.rev);
      hide IdAttached, InStep;
      assert s.wire == [];
    }
  }

  lemma AttachedRow(q: Qso, remoteId: int, rev: int)
    ensures var r := IdAttached(q, remoteId, rev);
      && r.wavelogId == remoteId && r.wavelogRev == q.wavelogRev
      && (r.wavelogDirty <==> q.wavelogDirty || (rev >= 0 && q.wavelogRev > rev))
  {
  }

  /** Starting, reading, dropping and finishing a PATCH touch neither row nor copy. */
  lemma WireEventKeeps(s: Sync, e: Event, derive: string -> string)
    requires Inv(s) && (e.RetryPending? || e.WorkerReads? || e.PatchLost? || e.HandleCompletion?)
    ensures Inv(Next(s, e, derive))
  {
    hide PatchOf, ExtrasOf, Image, Uploaded, InStep, HonestUpload;
  }

  lemma ApplyKeeps(s: Sync, derive: string -> string)
    requires Inv(s)
    ensures Inv(Next(s, ServerApplies, derive))
  {
    hide PatchOf, ExtrasOf, Patched, Settled, Image, Uploaded;
    if |s.wire| > 0 && s.wire[0].OnWire? {
      assert s.row.wavelogId > 0 && s.remote.Some? && s.upload == None;
      PatchingSettles(s.remote.value.patched, s.wire[0].content);
    }
  }

  lemma AcknowledgeKeeps(s: Sync, derive: string -> string)
    requires Inv(s)
    ensures Inv(Next(s, Acknowledge, derive))
  {
    hide PatchOf, ExtrasOf, InStep;
    if |s.wire| > 0 && s.wire[0].Applied? {
      BookkeepingIsNotContent(s.row, 0, s.wire[0].ackRev);
      assert s.row.wavelogId > 0 && s.upload == None;
    }
  }

  /** Every event keeps the invariant unless it links a copy that is out of step, and
      that always breaks the promise. */
  lemma NextKeepsTheInvariant(s: Sync, e: Event, derive: string -> string)
    requires Inv(s)
    ensures Inv(Next(s, e, derive)) <==> !LinksAnotherCopy(s, e)
    ensures Agrees(Next(s, e, derive)) <==> !LinksAnotherCopy(s, e)
  {
    hide Next, HonestPatch, HonestUpload, InStep, PatchOf;
    match e
    case LocalSave(_, _) => LocalEventKeeps(s, e, derive);
    case LocalEnrich(_, _) => LocalEventKeeps(s, e, derive);
    case StartUpload => UploadEventKeeps(s, e, derive);
    case ServerCreates(_) => UploadEventKeeps(s, e, derive);
    case ServerSaysDuplicate => UploadEventKeeps(s, e, derive);
    case UploadLost => UploadEventKeeps(s, e, derive);
    case AttachId(_, _) => AttachKeeps(s, e, derive);
    case ServerApplies => ApplyKeeps(s, derive);
    case Acknowledge => AcknowledgeKeeps(s, derive);
    case _ => WireEventKeeps(s, e, derive);
  }

  lemma LinkIsKept(s: Sync, e: Event, derive: string -> string)
    requires s.row.wavelogId > 0 && s.upload == None
    ensures Next(s, e, derive).row.wavelogId == s.row.wavelogId && Next(s, e, derive).upload == None
  {
    hide PatchOf, ExtrasOf, Patched, Uploaded;
  }

  /** A remote id is never lost again, whatever the forms carry. */
  lemma {:induction false} LinkIsNeverLost(s: Sync, events: seq<Event>, derive: string -> string)
    requires s.row.wavelogId > 0 && s.upload == None
    ensures Run(s, events, derive).row.wavelogId == s.row.wavelogId
    decreases |events|
  {
    if events == [] {
    } else {
      hide Next;
      LinkIsKept(s, events[0], derive);
      LinkIsNeverLost(Next(s, events[0], derive), events[1..], derive);
    }
  }

  /** A pending mark disappears only when a push of the current revision is
      acknowledged, and then every column of the PATCH is on the server. */
  lemma OnlyTheCurrentRevisionClears(s: Sync, e: Event, derive: string -> string)
    requires Inv(s) && s.row.wavelogDirty && !Next(s, e, derive).row.wavelogDirty
    ensures e == Acknowledge && s.wire == [Applied(PatchOf(s.row), s.row.wavelogRev)]
    ensures InStep(Next(s, e, derive).remote, PatchOf(Next(s, e, derive).row))
  {
    var none := Enrichment("", "", "", "", "", "", "", "");
    match e
    case LocalSave(form, _) => EditsMoveTheRevision(s.row, form, s.row.wavelogId > 0, none, derive);
    case LocalEnrich(data, _) => EditsMoveTheRevision(s.row, s.row, false, data, derive);
    case _ =>
      BookkeepingIsNotContent(s.row, 0, s.row.wavelogRev);
      hide PatchOf, ExtrasOf, Patched, Uploaded;
  }

  // ── nothing pending is forgotten ─────────────────────────────────────────

  /** Online, and no answer to a PATCH is lost. */
  predicate Reliable(e: Event) {
    match e
    case LocalSave(_, online) => online
    case LocalEnrich(_, online) => online
    case AttachId(_, online) => online
    case PatchLost => false
    case _ => true
  }

  /** The events a reliable run may have: all but a lost answer, edits and links online. */
  lemma WhatIsReliable(e: Event)
    ensures Reliable(e) <==> !e.PatchLost? && ((e.LocalSave? || e.LocalEnrich? || e.AttachId?) ==> e.online)
  {
  }

  predicate WillCarryLatest(row: Qso, p: Patch) {
    match p
    case Starting(saved) => saved.Some? ==> saved.value == row.wavelogRev
    case OnWire(_, ackRev) => ackRev == row.wavelogRev
    case Applied(_, ackRev) => ackRev == row.wavelogRev
    case Done => false
  }

  /** A pending row is being pushed at its latest revision, or a follow-up is queued. */
  predicate PushOwed(s: Sync) {
    s.row.wavelogDirty ==> |s.wire| == 1 && (s.queued || WillCarryLatest(s.row, s.wire[0]))
  }

  lemma NextOwesThePush(s: Sync, e: Event, derive: string -> string)
    requires Inv(s) && PushOwed(s) && Reliable(e)
    ensures PushOwed(Next(s, e, derive))
  {
    hide PatchOf, ExtrasOf, Patched, Uploaded;
    var none := Enrichment("", "", "", "", "", "", "", "");
    match e
    case LocalSave(form, _) =>
      EditsMoveTheRevision(s.row, form, s.row.wavelogId > 0, none, derive);
      hide EditedRow;
    case LocalEnrich(data, _) =>
      EditsMoveTheRevision(s.row, s.row, false, data, derive);
      hide EnrichedRow, FillsSomething;
    case _ =>
  }

  lemma FreshContactsStartHonest(s: Sync)
    requires Initial(s)
    ensures Inv(s) && PushOwed(s)
  {
  }

  // ── who asks for a push, and what a push brings ──────────────────────────

  /** A push was asked for: a worker starts, or, while one is on the wire, a follow-up
      waits. */
  predicate Asked(s: Sync, t: Sync, saved: Option<int>) {
    && t.inFlight
    && t.wire == s.wire + (if s.inFlight then [] else [Starting(saved)])
    && (t.queued <==> s.inFlight || s.queued)
  }

  predicate NotAsked(s: Sync, t: Sync) { t.wire == s.wire && t.inFlight == s.inFlight && t.queued == s.queued }

  /** A save asks for a push of its own revision exactly if the contact is linked and
      the program online. */
  lemma SaveAsks(s: Sync, form: Qso, online: bool, derive: string -> string)
    ensures var t := Next(s, LocalSave(form, online), derive);
      if s.row.wavelogId > 0 && online then Asked(s, t, Some(s.row.wavelogRev + 1)) else NotAsked(s, t)
  {
    hide FilledSubmode;
  }

  /** An enrichment asks exactly if it filled something in a linked contact, online. */
  lemma EnrichmentAsks(s: Sync, data: Enrichment, online: bool, derive: string -> string)
    ensures var t := Next(s, LocalEnrich(data, online), derive);
      if t.row != s.row && s.row.wavelogId > 0 && online then Asked(s, t, None) else NotAsked(s, t)
  {
    EditsMoveTheRevision(s.row, s.row, false, data, derive);
    assert !FillsSomething(s.row, data) ==> EnrichedRow(s.row, data) == s.row;
    hide EnrichedRow, FillsSomething;
  }

  /** Linking asks exactly if the row was edited since the upload, online. */
  lemma LinkingAsks(s: Sync, remoteId: int, online: bool, derive: string -> string)
    requires s.upload.Some? && s.upload.value.phase != Sent && remoteId > 0 && s.upload.value.rev >= 0
    ensures var t, edited := Next(s, Event.AttachId(remoteId, online), derive), s.row.wavelogRev > s.upload.value.rev;
      && t.row == s.row.(wavelogId := remoteId, wavelogDirty := s.row.wavelogDirty || edited)
      && t.upload == None && t.remote == s.remote
      && if edited && online then Asked(s, t, None) else NotAsked(s, t)
  {
  }

  /** A retry asks exactly for a linked contact whose chain is at rest. */
  lemma RetryAsks(s: Sync, derive: string -> string)
    ensures var t := Next(s, RetryPending, derive);
      && t.row == s.row && t.remote == s.remote && t.upload == s.upload
      && if s.row.wavelogId > 0 && !s.inFlight then Asked(s, t, None) else NotAsked(s, t)
  {
  }

  /** A worker that starts brings the row as it is then to the server, column by column,
      and can acknowledge the revision it was started for, or the one it read. */
  lemma PushShowsTheRow(s: Sync, saved: Option<int>, derive: string -> string)
    requires s.row.wavelogId > 0 && s.remote.Some? && s.wire == [Starting(saved)]
    ensures var t := Next(Next(s, WorkerReads, derive), ServerApplies, derive);
      && t.row == s.row && t.remote.Some? && Shows(t.remote.value.patched, s.row)
      && t.remote.value.extras == s.remote.value.extras
      && |t.wire| == 1 && t.wire[0].Applied? && t.wire[0].ackRev == (if saved.Some? then saved.value else s.row.wavelogRev)
  {
    IdentityIsNeverCleared(s.remote.value.patched, s.row);
    hide PatchOf, Patched, Shows;
  }

  /** Acknowledged, the contact is clean if no edit came in between; and the worker's
      place is free again, or taken by the follow-up that waited. */
  lemma AcknowledgementClears(s: Sync, content: Payload, rev: int, derive: string -> string)
    requires s.wire == [Applied(content, rev)]
    ensures var t := Next(Next(s, Acknowledge, derive), HandleCompletion, derive);
      && t.row == (if s.row.wavelogRev == rev then s.row.(wavelogDirty := false) else s.row) && t.remote == s.remote
      && t.wire == (if s.queued then [Starting(None)] else []) && !t.queued
      && (t.inFlight <==> s.queued && s.inFlight)
  {
  }

  lemma FiveEvents(s: Sync, es: seq<Event>, derive: string -> string)
    requires |es| == 5
    ensures var t2 := Next(Next(s, es[0], derive), es[1], derive);
      Run(s, es, derive) == Next(Next(Next(t2, es[2], derive), es[3], derive), es[4], derive)
  {
    hide Next;
    var t1 := Next(s, es[0], derive);
    var t2 := Next(t1, es[1], derive);
    var t3 := Next(t2, es[2], derive);
    var t4 := Next(t3, es[3], derive);
    RunOne(s, es, 0, derive);
    RunOne(t1, es, 1, derive);
    RunOne(t2, es, 2, derive);
    RunOne(t3, es, 3, derive);
    RunOne(t4, es, 4, derive);
    assert es[0..] == es && es[5..] == [];
  }

  /** A retry that nothing disturbs synchronizes the contact: the server shows the row,
      and it is clean. */
  lemma RetrySynchronizes(s: Sync, derive: string -> string)
    requires Inv(s) && s.row.wavelogId > 0 && !s.inFlight
    ensures var t := Run(s, [RetryPending, WorkerReads, ServerApplies, Acknowledge, HandleCompletion], derive);
      && t.row == s.row.(wavelogDirty := false) && t.wire == [] && !t.inFlight && !t.queued
      && t.remote.Some? && Shows(t.remote.value.patched, s.row)
  {
    assert s.wire == [] && s.remote.Some?;
    hide Next, Run, Inv, Shows;
    RetryAsks(s, derive);
    var t1 := Next(s, RetryPending, derive);
    PushShowsTheRow(t1, None, derive);
    var t2 := Next(t1, WorkerReads, derive);
    var t3 := Next(t2, ServerApplies, derive);
    QueueStays(t1, derive);
    AcknowledgementClears(t3, t3.wire[0].content, t3.wire[0].ackRev, derive);
    var t4 := Next(t3, Acknowledge, derive);
    FiveEvents(s, [RetryPending, WorkerReads, ServerApplies, Acknowledge, HandleCompletion], derive);
  }

  lemma QueueStays(s: Sync, derive: string -> string)
    ensures var t := Next(Next(s, WorkerReads, derive), ServerApplies, derive);
      t.queued == s.queued && t.inFlight == s.inFlight
  {
    hide PatchOf, Patched;
  }

  /** The plain course of an upload: sent, taken, answered. The contact is linked, and the
      copy is what was sent and what the server added. */
  lemma UploadLinksTheContact(s: Sync, fill: Fill, remoteId: int, online: bool, derive: string -> string)
    requires Initial(s) && remoteId > 0
    ensures var t := Next(Next(Next(s, StartUpload, derive), ServerCreates(fill), derive), Event.AttachId(remoteId, online), derive);
      t == s.(row := s.row.(wavelogId := remoteId), remote := Some(Uploaded(s.row, fill)))
  {
    hide Uploaded;
  }
}
