/** Saving the configuration: credentials go to the secrets store, the YAML file
    gets a copy without them. Encryption is the identity, and replacing a file
    either happens or fails as a whole. */
module SecretsSave {

  datatype Key = Qrz | HamQth | QrzRu | Dxc | Wavelog(id: string)

  /** The entry's name in the store. */
  function KeyText(k: Key): string {
    match k
    case Qrz => "qrz.pass"
    case HamQth => "hamqth.pass"
    case QrzRu => "qrzru.pass"
    case Dxc => "dxc.login"
    case Wavelog(id) => "wavelog." + id + ".apikey"
  }

  /** The names under which a stored credential is found again. */
  lemma EntryNames(id: string)
    ensures KeyText(Qrz) == "qrz.pass" && KeyText(HamQth) == "hamqth.pass" && KeyText(QrzRu) == "qrzru.pass"
    ensures KeyText(Dxc) == "dxc.login" && KeyText(Wavelog(id)) == "wavelog." + id + ".apikey"
  {
  }

  lemma FirstLetter(k: Key)
    ensures |KeyText(k)| > 0 && (KeyText(k)[0] == 'w' <==> k.Wavelog?)
  {
  }

  /** Two credentials never share an entry. */
  lemma KeyTextsDiffer(a: Key, b: Key)
    requires KeyText(a) == KeyText(b)
    ensures a == b
  {
    FirstLetter(a);
    FirstLetter(b);
    if a.Wavelog? {
      assert a.id == KeyText(a)[8..|KeyText(a)| - 7];
      assert b.id == KeyText(b)[8..|KeyText(b)| - 7];
    }
  }

  datatype Logbook = NoWavelog(other: string) | WithWavelog(apiKey: string, other: string)

  datatype Settings = Settings(
    qrz: string, hamqth: string, qrzru: string, dxc: string, logbooks: map<string, Logbook>)

  type Entries = map<Key, string>

  const FIXED: set<Key> := {Qrz, HamQth, QrzRu, Dxc}

  /** The keys Save looks at: the fixed four, and one per logbook. */
  function LiveKeys(s: Settings): set<Key> { FIXED + set id | id in s.logbooks :: Wavelog(id) }

  /** Whether the settings have a field for the credential. */
  predicate HasField(s: Settings, k: Key) {
    match k
    case Wavelog(id) => id in s.logbooks && s.logbooks[id].WithWavelog?
    case _ => true
  }

  /** The live credential; empty without a field. */
  function Value(s: Settings, k: Key): string {
    match k
    case Qrz => s.qrz
    case HamQth => s.hamqth
    case QrzRu => s.qrzru
    case Dxc => s.dxc
    case Wavelog(id) => if HasField(s, k) then s.logbooks[id].apiKey else ""
  }

  // ── what saving and loading compute ──────────────────────────────────────

  /** One entry brought in line with its live field. */
  function Synced(e: Entries, k: Key, value: string): Entries {
    if value == "" then e - {k} else e[k := value]
  }

  /** The entries after the keys in `done` have been synced. */
  function Target(e: Entries, s: Settings, done: set<Key>): Entries {
    map k | k in e.Keys + done && (k in done ==> Value(s, k) != "") :: if k in done then Value(s, k) else e[k]
  }

  lemma TargetOneMore(e: Entries, s: Settings, done: set<Key>, k: Key)
    ensures Target(e, s, done + {k}) == Synced(Target(e, s, done), k, Value(s, k))
  {
  }

  lemma TargetOfNothing(e: Entries, s: Settings)
    ensures Target(e, s, {}) == e
  {
  }

  function SavedEntries(e: Entries, s: Settings): Entries { Target(e, s, LiveKeys(s)) }

  function ScrubbedBook(b: Logbook): Logbook { if b.WithWavelog? then b.(apiKey := "") else b }

  /** The copy that goes to the YAML file when a store is attached. */
  function Scrubbed(s: Settings): Settings {
    Settings("", "", "", "", map id | id in s.logbooks :: ScrubbedBook(s.logbooks[id]))
  }

  function Found(e: Entries, k: Key, plain: string): string { if k in e then e[k] else plain }

  function AppliedBook(e: Entries, id: string, b: Logbook): Logbook {
    if b.WithWavelog? then b.(apiKey := Found(e, Wavelog(id), b.apiKey)) else b
  }

  /** The settings after ApplySecrets, with the logbooks in `done` handled. */
  function AppliedTo(s: Settings, e: Entries, done: set<string>): Settings {
    Settings(Found(e, Qrz, s.qrz), Found(e, HamQth, s.hamqth), Found(e, QrzRu, s.qrzru), Found(e, Dxc, s.dxc),
             map id | id in s.logbooks ::
               if id in done then AppliedBook(e, id, s.logbooks[id]) else s.logbooks[id])
  }

  function Applied(s: Settings, e: Entries): Settings { AppliedTo(s, e, s.logbooks.Keys) }

  /** The entries after ApplySecrets has looked at the keys in `done`: a plaintext
      field overwrites its entry. */
  function Migrated(e: Entries, s: Settings, done: set<Key>): Entries {
    map k | k in e.Keys + done && (k !in e ==> Value(s, k) != "") ::
      if k in done && Value(s, k) != "" then Value(s, k) else e[k]
  }

  lemma MigratedOneMore(e: Entries, s: Settings, done: set<Key>, k: Key)
    ensures Migrated(e, s, {}) == e
    ensures Migrated(e, s, done + {k}) == Overwritten(Migrated(e, s, done), k, Value(s, k))
    ensures k !in done ==> forall plain :: Found(Migrated(e, s, done), k, plain) == Found(e, k, plain)
  {
  }

  /** The fields ApplySecrets has handled while some logbooks remain. */
  function FieldsWithout(s: Settings, ids: set<string>): set<Key> {
    FIXED + set id | id in s.logbooks && id !in ids && s.logbooks[id].WithWavelog? :: Wavelog(id)
  }

  lemma NoBookYet(s: Settings)
    ensures FieldsWithout(s, s.logbooks.Keys) == FIXED
  {
  }

  lemma AllBooksDone(s: Settings)
    ensures FieldsWithout(s, {}) == Fields(s)
  {
    forall k | k in FieldsWithout(s, {})
      ensures k in Fields(s)
    {
      assert k in LiveKeys(s);
    }
  }

  lemma OneBookMore(s: Settings, e: Entries, ids: set<string>, id: string)
    requires id in ids && ids <= s.logbooks.Keys
    ensures var before, after := AppliedTo(s, e, s.logbooks.Keys - ids), AppliedTo(s, e, s.logbooks.Keys - (ids - {id}));
      && before.logbooks.Keys == s.logbooks.Keys && before.logbooks[id] == s.logbooks[id]
      && after == before.(logbooks := before.logbooks[id := AppliedBook(e, id, s.logbooks[id])])
    ensures var added := if s.logbooks[id].WithWavelog? then {Wavelog(id)} else {};
      FieldsWithout(s, ids - {id}) == FieldsWithout(s, ids) + added
    ensures Wavelog(id) !in FieldsWithout(s, ids)
  {
  }

  function Overwritten(e: Entries, k: Key, plain: string): Entries {
    if plain != "" then e[k := plain] else e
  }

  // ── what a maintainer relies on ──────────────────────────────────────────

  /** After a successful save, loading both files and applying the secrets gives
      back the whole configuration, whatever the store held before. */
  lemma SaveThenLoadRestores(e: Entries, s: Settings)
    ensures Applied(Scrubbed(s), SavedEntries(e, s)) == s
  {
    var saved, t := SavedEntries(e, s), Applied(Scrubbed(s), SavedEntries(e, s));
    assert FIXED <= LiveKeys(s);
    forall id | id in s.logbooks
      ensures t.logbooks[id] == s.logbooks[id]
    {
      assert Wavelog(id) in LiveKeys(s);
    }
    assert t.logbooks.Keys == s.logbooks.Keys;
  }

  /** The credentials the settings have a field for. */
  function Fields(s: Settings): set<Key> { set k | k in LiveKeys(s) && HasField(s, k) }

  /** What a start finds at a credential when the YAML file still holds `before`
      and the secrets file already the entries of the new save. */
  function ReloadedBetween(before: Settings, e: Entries, s: Settings, k: Key): string {
    Value(Applied(before, SavedEntries(e, s)), k)
  }

  /** What a start found there before the save. */
  function ReloadedBefore(before: Settings, e: Entries, k: Key): string { Value(Applied(before, e), k) }

  /** The moment between the two writes, credential by credential: nothing without a
      field in the old file; else the new value if it is not empty; for one that is
      now empty what the old file says; for a dropped logbook the old entry or,
      without one, what the old file says. */
  lemma BetweenTheWrites(before: Settings, e: Entries, s: Settings, k: Key)
    ensures ReloadedBefore(before, e, k) == if HasField(before, k) then Found(e, k, Value(before, k)) else ""
    ensures ReloadedBetween(before, e, s, k)
         == if !HasField(before, k) then ""
            else if k !in LiveKeys(s) then Found(e, k, Value(before, k))
            else if Value(s, k) != "" then Value(s, k)
            else Value(before, k)
  {
    if !k.Wavelog? {
      assert k in FIXED;
    } else if HasField(before, k) {
      assert Applied(before, e).logbooks[k.id] == AppliedBook(e, k.id, before.logbooks[k.id]);
    } else if k.id in before.logbooks {
      assert Applied(before, e).logbooks[k.id] == before.logbooks[k.id];
    }
  }

  /** A start between the writes finds every credential as the new settings have
      it. One without a field counts as empty, in a file as in the settings. */
  ghost predicate AllNew(before: Settings, e: Entries, s: Settings) {
    forall k: Key :: ReloadedBetween(before, e, s, k) == Value(s, k)
  }

  /** A start between the writes finds every credential as a start before the save
      would have. */
  ghost predicate AllOld(before: Settings, e: Entries, s: Settings) {
    forall k: Key :: ReloadedBetween(before, e, s, k) == ReloadedBefore(before, e, k)
  }

  /** What the new settings add is empty where the old file has no field for it. */
  predicate AddsNothing(before: Settings, s: Settings) {
    forall k | k in Fields(s) && k !in Fields(before) :: Value(s, k) == ""
  }

  /** The condition for one credential to be found new. */
  predicate IsNew(before: Settings, e: Entries, s: Settings, k: Key) {
    if k !in Fields(before) then Value(s, k) == ""
    else if k in LiveKeys(s) then Value(s, k) == "" ==> Value(before, k) == ""
    else Found(e, k, Value(before, k)) == ""
  }

  /** Everything is new exactly when no cleared credential is still in plaintext in
      the old file, no dropped logbook has a credential left, and no credential is
      set that the old file has no field for. */
  lemma AllNewIff(before: Settings, e: Entries, s: Settings)
    ensures AllNew(before, e, s) <==>
      && AddsNothing(before, s)
      && forall k | k in Fields(before) ::
           if k in LiveKeys(s) then Value(s, k) == "" ==> Value(before, k) == "" else Found(e, k, Value(before, k)) == ""
  {
    forall k: Key
      ensures ReloadedBetween(before, e, s, k) == Value(s, k) <==> IsNew(before, e, s, k)
    {
      BetweenTheWrites(before, e, s, k);
      FieldsAreKeys(before, k);
      if k !in LiveKeys(s) { NoValueWithoutAKey(s, k); }
    }
    hide ReloadedBetween, Found, LiveKeys, Value, HasField;
    if AllNew(before, e, s) {
      forall k | k in Fields(before) || k in Fields(s)
        ensures IsNew(before, e, s, k)
      {
        assert ReloadedBetween(before, e, s, k) == Value(s, k);
      }
    } else {
      var k: Key :| ReloadedBetween(before, e, s, k) != Value(s, k);
      assert !IsNew(before, e, s, k);
      if k !in Fields(s) { NoValueWithoutAField(s, k); }
    }
  }

  /** The condition for one credential to be found old. */
  predicate IsOld(before: Settings, e: Entries, s: Settings, k: Key) {
    k in Fields(before) && k in LiveKeys(s) ==>
      Found(e, k, Value(before, k)) == if Value(s, k) != "" then Value(s, k) else Value(before, k)
  }

  /** Everything is old exactly when the save changes no credential the old file has
      a field for, except by clearing one whose entry the old file repeats. */
  lemma AllOldIff(before: Settings, e: Entries, s: Settings)
    ensures AllOld(before, e, s) <==> forall k | k in Fields(before) && k in LiveKeys(s) ::
      Found(e, k, Value(before, k)) == if Value(s, k) != "" then Value(s, k) else Value(before, k)
  {
    forall k: Key
      ensures ReloadedBetween(before, e, s, k) == ReloadedBefore(before, e, k) <==> IsOld(before, e, s, k)
    {
      BetweenTheWrites(before, e, s, k);
      FieldsAreKeys(before, k);
    }
    hide ReloadedBetween, ReloadedBefore, Found, LiveKeys, Value, HasField;
    if AllOld(before, e, s) {
      forall k | k in Fields(before)
        ensures IsOld(before, e, s, k)
      {
        assert ReloadedBetween(before, e, s, k) == ReloadedBefore(before, e, k);
      }
    } else {
      var k: Key :| ReloadedBetween(before, e, s, k) != ReloadedBefore(before, e, k);
      assert !IsOld(before, e, s, k);
    }
  }

  /** A credential the save adds where the old file has no field is in the secrets
      file all the same. A start between the writes does not see it, and the save
      after that start keeps it exactly when the old file lacks the whole logbook:
      a logbook the file has without Wavelog clears the entry. */
  lemma AddedCredentialSurvivesIff(before: Settings, e: Entries, s: Settings, k: Key)
    requires Value(s, k) != "" && k !in Fields(before)
    ensures var mid := SavedEntries(e, s);
            var loaded, entries := Applied(before, mid), Migrated(mid, before, Fields(before));
      && Found(mid, k, "") == Value(s, k) && ReloadedBetween(before, e, s, k) == ""
      && (Found(SavedEntries(entries, loaded), k, "") == Value(s, k) <==> k !in LiveKeys(before))
  {
    FieldsAreKeys(before, k);
    BetweenTheWrites(before, e, s, k);
    var mid := SavedEntries(e, s);
    var loaded, entries := Applied(before, mid), Migrated(mid, before, Fields(before));
    if k !in LiveKeys(s) { NoValueWithoutAKey(s, k); }
    assert k in mid && mid[k] == Value(s, k);
    assert loaded.logbooks.Keys == before.logbooks.Keys;
    assert LiveKeys(loaded) == LiveKeys(before);
    assert k in entries && entries[k] == mid[k];
    assert Value(loaded, k) == "";
    hide LiveKeys, Value, Fields, Applied, Migrated;
  }

  lemma FieldsAreKeys(s: Settings, k: Key)
    ensures k in Fields(s) <==> HasField(s, k)
  {
    if k.Wavelog? {
      if k.id in s.logbooks { assert Wavelog(k.id) in LiveKeys(s); }
    } else {
      assert k in FIXED;
    }
  }

  lemma NoValueWithoutAField(s: Settings, k: Key)
    requires k !in Fields(s)
    ensures Value(s, k) == ""
  {
    FieldsAreKeys(s, k);
  }

  lemma NoValueWithoutAKey(s: Settings, k: Key)
    requires k !in LiveKeys(s)
    ensures Value(s, k) == ""
  {
    assert forall id | id in s.logbooks :: Wavelog(id) in LiveKeys(s);
  }

  /** The first failing input: the first save after a migration. The old file still
      holds both passwords in plaintext, one is cleared and one changed; between
      the writes a start finds the cleared one back and the other one new. */
  lemma ClearedPlaintextComesBack()
    ensures var before := Settings("old1", "old2", "", "", map[]);
      var e: Entries := map[Qrz := "old1", HamQth := "old2"];
      var s := Settings("", "new2", "", "", map[]);
      && ReloadedBetween(before, e, s, Qrz) == "old1" != Value(s, Qrz)
      && ReloadedBetween(before, e, s, HamQth) == "new2" != ReloadedBefore(before, e, HamQth)
      && !AllNew(before, e, s) && !AllOld(before, e, s)
  {
    var before := Settings("old1", "old2", "", "", map[]);
    var e: Entries := map[Qrz := "old1", HamQth := "old2"];
    var s := Settings("", "new2", "", "", map[]);
    BetweenTheWrites(before, e, s, Qrz);
    BetweenTheWrites(before, e, s, HamQth);
    assert Qrz in FIXED && HamQth in FIXED;
    assert Qrz in Fields(before) && HamQth in Fields(before);
    hide ReloadedBetween, ReloadedBefore;
  }

  /** The second: a dropped logbook keeps its key while another password is new. */
  lemma DroppedLogbookKeepsItsKey()
    ensures var before := Settings("", "", "", "", map["home" := WithWavelog("", "")]);
      var e: Entries := map[Qrz := "old", Wavelog("home") := "key"];
      var s := Settings("new", "", "", "", map[]);
      && ReloadedBetween(before, e, s, Wavelog("home")) == "key" != Value(s, Wavelog("home"))
      && ReloadedBetween(before, e, s, Qrz) == "new" != ReloadedBefore(before, e, Qrz)
      && !AllNew(before, e, s) && !AllOld(before, e, s)
  {
    var before := Settings("", "", "", "", map["home" := WithWavelog("", "")]);
    var e: Entries := map[Qrz := "old", Wavelog("home") := "key"];
    var s := Settings("new", "", "", "", map[]);
    assert Wavelog("home") !in LiveKeys(s);
    BetweenTheWrites(before, e, s, Qrz);
    BetweenTheWrites(before, e, s, Wavelog("home"));
    assert Qrz in FIXED && Wavelog("home") in LiveKeys(before);
    assert Qrz in Fields(before) && Wavelog("home") in Fields(before);
    hide ReloadedBetween, ReloadedBefore;
  }

  /** The third: the first key of a logbook next to a new password. The key is not
      found although the password is new, and the next save deletes it. */
  lemma AddedKeyIsNotFound()
    ensures var before := Settings("old", "", "", "", map["home" := NoWavelog("")]);
      var e: Entries := map[Qrz := "old"];
      var s := Settings("new", "", "", "", map["home" := WithWavelog("key", "")]);
      var mid := SavedEntries(e, s);
      && ReloadedBetween(before, e, s, Qrz) == "new" != ReloadedBefore(before, e, Qrz)
      && ReloadedBetween(before, e, s, Wavelog("home")) == "" != Value(s, Wavelog("home"))
      && !AllNew(before, e, s) && !AllOld(before, e, s)
      && Wavelog("home") in mid
      && Found(SavedEntries(Migrated(mid, before, Fields(before)), Applied(before, mid)), Wavelog("home"), "") != "key"
  {
    var before := Settings("old", "", "", "", map["home" := NoWavelog("")]);
    var e: Entries := map[Qrz := "old"];
    var s := Settings("new", "", "", "", map["home" := WithWavelog("key", "")]);
    BetweenTheWrites(before, e, s, Qrz);
    BetweenTheWrites(before, e, s, Wavelog("home"));
    FieldsAreKeys(before, Wavelog("home"));
    AddedCredentialSurvivesIff(before, e, s, Wavelog("home"));
    assert Qrz in FIXED && Wavelog("home") in LiveKeys(before);
    hide ReloadedBetween, ReloadedBefore, SavedEntries, Migrated, Applied;
  }

  /** A plaintext field that contradicts its entry. */
  predicate Contradicted(s: Settings, e: Entries, k: Key) {
    HasField(s, k) && k in e && Value(s, k) != "" && Value(s, k) != e[k]
  }

  /** After ApplySecrets field and entry agree exactly when the plaintext did not
      contradict the entry. Otherwise the field has the entry's former value and
      the entry the plaintext. */
  lemma ApplyAgreesUnlessContradicted(s: Settings, e: Entries, k: Key)
    requires k in Fields(s)
    ensures var t, f := Applied(s, e), Migrated(e, s, Fields(s));
      Value(t, k) == Found(f, k, "") <==> !Contradicted(s, e, k)
    ensures Contradicted(s, e, k) ==>
      Value(Applied(s, e), k) == e[k] && Found(Migrated(e, s, Fields(s)), k, "") == Value(s, k)
  {
  }

  /** And then the next save undoes the migration: the plaintext is in neither
      file. */
  lemma NextSaveUndoesTheMigration(s: Settings, e: Entries, k: Key)
    requires k in Fields(s) && Contradicted(s, e, k) && e[k] != ""
    ensures var t, f := Applied(s, e), Migrated(e, s, Fields(s));
      && Found(f, k, "") == Value(s, k)
      && Found(SavedEntries(f, t), k, "") == e[k] != Value(s, k)
      && Value(Scrubbed(t), k) == ""
  {
    var t := Applied(s, e);
    assert t.logbooks.Keys == s.logbooks.Keys;
    assert LiveKeys(t) == LiveKeys(s);
  }

  // ── the store ────────────────────────────────────────────────────────────

  /** `secrets.enc` on disk. */
  datatype SecretsFile = Missing | Sealed(entries: Entries) | Unreadable

  /** What loading it yields: an unreadable file counts as empty. */
  function Reloaded(f: SecretsFile): Entries { if f.Sealed? then f.entries else map[] }

  class Store {
    var data: Entries
    var dirty: bool
    var corrupted: bool
    var file: SecretsFile

    /** A clean store is what reloading its file would give. */
    predicate Valid()
      reads this
    {
      !dirty ==> Reloaded(file) == data
    }

    /** `Load`. */
    constructor (onDisk: SecretsFile)
      ensures Valid() && !dirty && data == Reloaded(onDisk) && file == onDisk && corrupted == onDisk.Unreadable?
    {
      data, dirty, corrupted, file := Reloaded(onDisk), false, onDisk.Unreadable?, onDisk;
    }

    /** `Set`. Go reads a missing entry as empty. */
    method Set(k: Key, value: string)
      requires Valid()
      modifies `data, `dirty
      ensures Valid() && data == if Found(old(data), k, "") != value then old(data)[k := value] else old(data)
      ensures dirty <==> old(dirty) || data != old(data)
    {
      if Found(data, k, "") != value {
        assert data[k := value] != data by {
          assert k in data ==> data[k] != value;
        }
        data := data[k := value];
        dirty := true;
      }
    }

    method Delete(k: Key)
      requires Valid()
      modifies `data, `dirty
      ensures Valid() && data == old(data) - {k}
      ensures dirty <==> old(dirty) || k in old(data)
    {
      if k in data {
        data := data - {k};
        dirty := true;
      } else {
        assert data - {k} == data;
      }
    }

    /** `Save`: either step of the replacement may fail, and then nothing changes. */
    method Save() returns (ok: bool)
      requires Valid()
      modifies `file, `dirty
      ensures Valid()
      ensures ok ==> !dirty && file == Sealed(data)
      ensures !ok ==> file == old(file) && dirty == old(dirty)
    {
      ok := *;
      if ok {
        file := Sealed(data);
        dirty := false;
      }
    }
  }

  // ── the configuration ────────────────────────────────────────────────────

  datatype SaveResult = Saved | SecretsFailed | WriteFailed

  class Config {
    var qrz: string
    var hamqth: string
    var qrzru: string
    var dxc: string
    var logbooks: map<string, Logbook>
    const secrets: Store?
    /** `config.yaml` on disk. */
    var yaml: Settings

    constructor (s: Settings, store: Store?, onDisk: Settings)
      ensures Live() == s && secrets == store && yaml == onDisk
    {
      qrz, hamqth, qrzru, dxc, logbooks := s.qrz, s.hamqth, s.qrzru, s.dxc, s.logbooks;
      secrets, yaml := store, onDisk;
    }

    function Live(): Settings
      reads this
    {
      Settings(qrz, hamqth, qrzru, dxc, logbooks)
    }

    /** The closure in syncSecretsToStore. */
    method Sync(store: Store, k: Key, value: string)
      requires store.Valid()
      modifies store`data, store`dirty
      ensures store.Valid() && store.data == Synced(old(store.data), k, value)
      ensures !store.dirty ==> !old(store.dirty) && store.data == old(store.data)
    {
      if value == "" {
        if k in store.data { store.Delete(k); } else { assert store.data - {k} == store.data; }
        return;
      }
      if k !in store.data || store.data[k] != value {
        store.Set(k, value);
      } else {
        assert store.data[k := value] == store.data;
      }
    }

    method SyncFixed(store: Store)
      requires store.Valid()
      modifies store`data, store`dirty
      ensures store.Valid() && store.data == Target(old(store.data), Live(), FIXED)
      ensures !store.dirty ==> !old(store.dirty) && store.data == old(store.data)
    {
      ghost var e, s := store.data, Live();
      hide Target, Synced;
      TargetOfNothing(e, s);
      Sync(store, Qrz, qrz);
      TargetOneMore(e, s, {}, Qrz);
      Sync(store, HamQth, hamqth);
      TargetOneMore(e, s, {Qrz}, HamQth);
      Sync(store, QrzRu, qrzru);
      TargetOneMore(e, s, {Qrz, HamQth}, QrzRu);
      Sync(store, Dxc, dxc);
      TargetOneMore(e, s, {Qrz, HamQth, QrzRu}, Dxc);
      assert {} + {Qrz} == {Qrz} && {Qrz} + {HamQth} == {Qrz, HamQth};
      assert {Qrz, HamQth} + {QrzRu} == {Qrz, HamQth, QrzRu} && {Qrz, HamQth, QrzRu} + {Dxc} == FIXED;
    }

    /** `syncSecretsToStore`: the entries follow the live fields; true only when the
        file holds them. A failed write leaves the store dirty and its file as it
        was, and a store that is dirty from an earlier failure is written again. */
    method SyncSecretsToStore(store: Store) returns (ok: bool)
      requires store.Valid()
      modifies store
      ensures store.Valid() && store.data == SavedEntries(old(store.data), Live())
      ensures ok ==> !store.dirty && Reloaded(store.file) == store.data
      ensures !ok ==> store.dirty && store.file == old(store.file)
    {
      ghost var e, s := store.data, Live();
      SyncFixed(store);
      var ids := logbooks.Keys;
      ghost var done := FIXED;
      while ids != {}
        invariant ids <= logbooks.Keys && Live() == s && store.Valid() && store.file == old(store.file)
        invariant done == FIXED + set id | id in logbooks.Keys - ids :: Wavelog(id)
        invariant store.data == Target(e, s, done)
      {
        hide Target, Synced;
        var id :| id in ids;
        var value := "";
        if logbooks[id].WithWavelog? { value := logbooks[id].apiKey; }
        Sync(store, Wavelog(id), value);
        TargetOneMore(e, s, done, Wavelog(id));
        done := done + {Wavelog(id)};
        ids := ids - {id};
      }
      assert logbooks.Keys - {} == logbooks.Keys && done == LiveKeys(s);
      if !store.dirty { return true; }
      ok := store.Save();
    }

    /** `Save`. The live fields never change; the YAML file is replaced only after
        the credentials are safe, so no order of failures loses them. */
    method Save() returns (result: SaveResult)
      requires secrets != null ==> secrets.Valid()
      modifies `yaml, secrets
      ensures secrets != null ==> secrets.Valid() && secrets.data == SavedEntries(old(secrets.data), Live())
      ensures result == Saved ==> yaml == if secrets == null then Live() else Scrubbed(Live())
      ensures result != Saved ==> yaml == old(yaml)
      ensures result == SecretsFailed ==> secrets != null && secrets.dirty && secrets.file == old(secrets.file)
      ensures result != SecretsFailed && secrets != null ==>
                !secrets.dirty && Reloaded(secrets.file) == SavedEntries(old(secrets.data), Live())
    {
      if secrets != null {
        var ok := SyncSecretsToStore(secrets);
        if !ok { return SecretsFailed; }
      }
      var copy := ScrubbedCopy();
      var written: bool := *;
      if !written { return WriteFailed; }
      yaml := copy;
      result := Saved;
    }

    /** `scrubbedCopy`. */
    method ScrubbedCopy() returns (copy: Settings)
      ensures copy == if secrets == null then Live() else Scrubbed(Live())
    {
      var books: map<string, Logbook> := map[];
      var ids := logbooks.Keys;
      while ids != {}
        invariant ids <= logbooks.Keys && books.Keys == logbooks.Keys - ids
        invariant forall id | id in books ::
          books[id] == if secrets == null then logbooks[id] else ScrubbedBook(logbooks[id])
      {
        var id :| id in ids;
        var lb := logbooks[id];
        if lb.WithWavelog? && secrets != null { lb := lb.(apiKey := ""); }
        books := books[id := lb];
        ids := ids - {id};
      }
      copy := Live().(logbooks := books);
      if secrets != null { copy := Settings("", "", "", "", books); }
    }

    /** One field in ApplySecrets: the entry wins, a contradicting plaintext
        replaces the entry and is written out at once. */
    method ApplyField(store: Store, k: Key, plain: string) returns (field: string)
      requires store.Valid()
      modifies store
      ensures store.Valid() && field == Found(old(store.data), k, plain)
      ensures store.data == Overwritten(old(store.data), k, plain)
    {
      if k in store.data {
        field := store.data[k];
        if plain != "" && plain != field {
          store.Set(k, plain);
          var _ := store.Save();
        } else {
          assert store.data[k := field] == store.data;
        }
      } else {
        if plain != "" { store.Set(k, plain); }
        field := plain;
      }
    }

    method ApplyFixed(store: Store)
      requires store.Valid()
      modifies store, `qrz, `hamqth, `qrzru, `dxc
      ensures store.Valid() && store.data == Migrated(old(store.data), old(Live()), FIXED)
      ensures Live() == AppliedTo(old(Live()), old(store.data), {})
    {
      ghost var e, s := store.data, Live();
      hide Migrated, Overwritten, Found;
      MigratedOneMore(e, s, {}, Qrz);
      MigratedOneMore(e, s, {Qrz}, HamQth);
      MigratedOneMore(e, s, {Qrz, HamQth}, QrzRu);
      MigratedOneMore(e, s, {Qrz, HamQth, QrzRu}, Dxc);
      assert {} + {Qrz} == {Qrz} && {Qrz} + {HamQth} == {Qrz, HamQth};
      assert {Qrz, HamQth} + {QrzRu} == {Qrz, HamQth, QrzRu} && {Qrz, HamQth, QrzRu} + {Dxc} == FIXED;
      qrz := ApplyField(store, Qrz, qrz);
      hamqth := ApplyField(store, HamQth, hamqth);
      qrzru := ApplyField(store, QrzRu, qrzru);
      dxc := ApplyField(store, Dxc, dxc);
      assert logbooks == AppliedTo(s, e, {}).logbooks;
    }

    /** `ApplySecrets`, with every write free to fail. */
    method ApplySecrets()
      requires secrets != null ==> secrets.Valid()
      modifies secrets, `qrz, `hamqth, `qrzru, `dxc, `logbooks
      ensures secrets == null ==> Live() == old(Live())
      ensures secrets != null ==> secrets.Valid()
      ensures secrets != null ==> Live() == Applied(old(Live()), old(secrets.data))
      ensures secrets != null ==> secrets.data == Migrated(old(secrets.data), old(Live()), Fields(old(Live())))
    {
      if secrets == null { return; }
      ghost var e, s := secrets.data, Live();
      ApplyFixed(secrets);
      var ids := logbooks.Keys;
      ghost var done := FIXED;
      NoBookYet(s);
      assert s.logbooks.Keys - ids == {};
      hide FieldsWithout, AppliedTo, Migrated;
      while ids != {}
        invariant ids <= s.logbooks.Keys && secrets.Valid()
        invariant Live() == AppliedTo(s, e, s.logbooks.Keys - ids)
        invariant done == FieldsWithout(s, ids)
        invariant secrets.data == Migrated(e, s, done)
      {
        var id :| id in ids;
        ids := ApplyBook(ids, id, e, s, done);
        if s.logbooks[id].WithWavelog? { done := done + {Wavelog(id)}; }
      }
      AllBooksDone(s);
      assert s.logbooks.Keys - {} == s.logbooks.Keys;
      var _ := secrets.Save();
    }

    /** The body of the loop over the logbooks. */
    method ApplyBook(ids: set<string>, id: string, ghost e: Entries, ghost s: Settings, ghost done: set<Key>)
      returns (rest: set<string>)
      requires secrets != null && secrets.Valid() && id in ids && ids <= s.logbooks.Keys
      requires Live() == AppliedTo(s, e, s.logbooks.Keys - ids) && done == FieldsWithout(s, ids)
      requires secrets.data == Migrated(e, s, done)
      modifies secrets, `logbooks
      ensures rest == ids - {id} && secrets.Valid()
      ensures Live() == AppliedTo(s, e, s.logbooks.Keys - rest)
      ensures var d := if s.logbooks[id].WithWavelog? then done + {Wavelog(id)} else done;
        d == FieldsWithout(s, rest) && secrets.data == Migrated(e, s, d)
    {
      rest := ids - {id};
      OneBookMore(s, e, ids, id);
      MigratedOneMore(e, s, done, Wavelog(id));
      hide Migrated, Overwritten, Found, AppliedTo, FieldsWithout;
      var lb := logbooks[id];
      if lb.NoWavelog? {
        assert logbooks[id := lb] == logbooks;
        return;
      }
      var key := ApplyField(secrets, Wavelog(id), lb.apiKey);
      lb := lb.(apiKey := key);
      logbooks := logbooks[id := lb];
    }
  }
}
