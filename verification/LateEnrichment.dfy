/** The per-contact PATCH coordinator and the late callbook answer that goes
    through it. */
module LateEnrichment {
  import opened Text
  import opened Contact
  import opened LogSteps
  import Store = QsoStore

  datatype ContactKey = ContactKey(logbook: string, localId: int, url: string)

  /** What a PATCH chain is bound to for its whole life. */
  datatype Chain = Chain(logbook: string, url: string, apiKey: string)

  /** One PATCH chain per contact; edits made meanwhile queue one follow-up. */
  class Coordinator {
    var inFlight: map<ContactKey, Chain>
    var queued: set<ContactKey>

    predicate Valid()
      reads this
    {
      queued <= inFlight.Keys
    }

    constructor ()
      ensures Valid() && inFlight == map[] && queued == {}
    {
      inFlight, queued := map[], {};
    }

    /** Starts a chain, or leaves a note for the one on the wire. */
    method RequestPush(key: ContactKey, chain: Chain) returns (start: bool)
      requires Valid()
      modifies this
      ensures Valid()
      ensures start <==> key !in old(inFlight)
      ensures inFlight == if start then old(inFlight)[key := chain] else old(inFlight)
      ensures queued == if start then old(queued) else old(queued) + {key}
    {
      if key in inFlight {
        queued := queued + {key};
        return false;
      }
      inFlight := inFlight[key := chain];
      return true;
    }

    /** A worker finished: either its chain runs once more, with the same
        binding, or the contact's entry disappears. */
    method HandleCompletion(key: ContactKey) returns (again: bool)
      requires Valid() && key in inFlight
      modifies this
      ensures Valid()
      ensures again <==> key in old(queued)
      ensures inFlight == if again then old(inFlight) else old(inFlight) - {key}
      ensures queued == old(queued) - {key}
    {
      var chain := inFlight[key];
      inFlight := inFlight - {key};
      if key !in queued { return false; }
      queued := queued - {key};
      inFlight := inFlight[key := chain];
      return true;
    }
  }

  datatype Callbook = Callbook(
    callsign: string, name: string, qth: string, country: string, grid: string,
    cqZone: string, ituZone: string, dxcc: string)

  function Offered(d: Callbook): Enrichment {
    Enrichment(d.name, d.qth, d.country, d.grid, "", d.cqZone, d.ituZone, d.dxcc)
  }

  /** The empty columns of the row took the answer's matching fields. */
  predicate FilledFrom(was: Qso, now: Qso, d: Callbook) {
    && (was.name == "" ==> now.name == d.name) && (was.qth == "" ==> now.qth == d.qth)
    && (was.country == "" ==> now.country == d.country) && (was.gridSquare == "" ==> now.gridSquare == d.grid)
    && (was.cqZone == "" ==> now.cqZone == d.cqZone) && (was.ituZone == "" ==> now.ituZone == d.ituZone)
    && (was.dxcc == "" ==> now.dxcc == d.dxcc) && now.iota == was.iota
  }

  lemma OfferedFields(q: Qso, d: Callbook)
    ensures FilledFrom(q, EnrichedRow(q, Offered(d)), d)
  {
  }

  /** The environment of a push at the moment the answer arrives. */
  datatype Link = Link(online: bool, sharedClub: bool, enabled: bool, url: string, apiKey: string)

  predicate MayPush(l: Link) { !l.sharedClub && l.enabled && l.url != "" && l.apiKey != "" && l.online }

  /** The contact just logged, waiting for its callbook answer. */
  class SavedContact {
    var savedId: int
    var savedCall: string
    var savedLogbook: string
    const store: Store.QsoStore
    const coord: Coordinator

    constructor (store: Store.QsoStore, coord: Coordinator)
      ensures this.store == store && this.coord == coord && savedId == 0 && savedCall == savedLogbook == ""
    {
      this.store, this.coord := store, coord;
      savedId, savedCall, savedLogbook := 0, "", "";
    }

    predicate Waits(call: string, data: Callbook)
      reads this
    {
      savedId != 0 && data.callsign != "" && EqualFold(call, savedCall)
    }

    predicate Elsewhere(logbook: string)
      reads this
    {
      savedLogbook != "" && savedLogbook != logbook
    }

    /** An empty callsign stands for an answer without data.
        Applies an answer at most once, only to the contact it was asked for and
        only in the logbook that contact was written to; pushes it exactly when
        it filled a column of a synced row and a push is possible and none is
        on the wire. */
    method EnrichSaved(call: string, data: Callbook, logbook: string, link: Link) returns (written: bool, started: bool)
      requires store.Valid() && coord.Valid() && Trim(data.dxcc) == data.dxcc
      modifies this, store, coord
      ensures store.Valid() && coord.Valid()
      ensures written <==> old(Waits(call, data)) && !old(Elsewhere(logbook))
                           && (old(savedId) in old(store.rows) || NothingOffered(Offered(data)))
      ensures store.View() ==
        if written then Step(old(store.View()), Enrich(old(savedId), Offered(data)), store.derive) else old(store.View())
      ensures written && old(savedId) in old(store.rows) ==>
        FilledFrom(old(store.rows)[old(savedId)], store.rows[old(savedId)], data)
      ensures savedId == 0 != old(savedId) ==> savedCall == "" && savedLogbook == ""
      ensures savedId != 0 ==> savedCall == old(savedCall) && savedLogbook == old(savedLogbook)
      ensures savedId == if written || (old(Waits(call, data)) && old(Elsewhere(logbook))) then 0 else old(savedId)
      ensures var key := ContactKey(logbook, old(savedId), link.url);
        var owed := written && old(savedId) in old(store.rows)
                    && link.online && !link.sharedClub && link.enabled && link.url != "" && link.apiKey != ""
                    && store.rows[old(savedId)] != old(store.rows)[old(savedId)]
                    && old(store.rows)[old(savedId)].wavelogId > 0;
        && (started <==> owed && key !in old(coord.inFlight))
        && (started ==> coord.inFlight == old(coord.inFlight)[key := Chain(logbook, link.url, link.apiKey)]
                        && coord.queued == old(coord.queued))
        && (!owed ==> coord.inFlight == old(coord.inFlight) && coord.queued == old(coord.queued))
        && (owed && !started ==> coord.queued == old(coord.queued) + {key} && coord.inFlight == old(coord.inFlight))
    {
      written, started := false, false;
      if savedId == 0 || data.callsign == "" || !EqualFold(call, savedCall) { return; }
      if savedLogbook != "" && savedLogbook != logbook {
        savedId, savedCall, savedLogbook := 0, "", "";
        return;
      }
      hide Step, EnrichedRow, FilledFrom, Consistent, NothingOffered;
      var sync := store.EnrichQso(savedId, Offered(data));
      if sync.None? { return; }
      if savedId in old(store.rows) { OfferedFields(old(store.rows)[savedId], data); }
      var id := savedId;
      savedId, savedCall, savedLogbook := 0, "", "";
      written := true;
      if !sync.value.changed || !sync.value.synced || !MayPush(link) { return; }
      started := coord.RequestPush(ContactKey(logbook, id, link.url), Chain(logbook, link.url, link.apiKey));
    }
  }
}
