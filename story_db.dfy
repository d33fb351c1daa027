/** The IndexedDB helper: one database `SillyTavernStoryLibraryDB` (version 1)
    holding one object store `stories` whose key path is `id`. The connection
    is opened on first use and cached for the rest of the session. Each
    exported operation first obtains the connection and then performs one
    atomic request on the store, which is modelled as a map from id to record.

    Whether `indexedDB.open` succeeds is up to the browser: every operation
    takes it as the parameter `canOpen`, consulted only while no connection
    is cached. */
module StoryDb {
  import opened Records

  const DbName := "SillyTavernStoryLibraryDB"
  const StoreName := "stories"
  const DbVersion := 1

  class StoryDB {
    /** The module-level `db`: set once a connection has been opened. */
    var handle: bool
    /** Whether the database already holds the `stories` object store. */
    var storeExists: bool
    /** The contents of the object store, by key. */
    var records: map<string, Story>

    ghost predicate Valid()
      reads this
    {
      && (handle ==> storeExists)
      && (!storeExists ==> records == map[])
      && KeyedById(records)
    }

    /** The state at page load: no cached connection; whatever an earlier
        session left in the browser's database. */
    constructor (storeExists: bool, persisted: map<string, Story>)
      requires storeExists || persisted == map[]
      requires KeyedById(persisted)
      ensures Valid()
      ensures !handle && this.storeExists == storeExists && records == persisted
    {
      handle := false;
      this.storeExists := storeExists;
      records := persisted;
    }

    /** `initDB`: a cached connection is returned without reopening; otherwise
        the database is opened, the `stories` store created if it is absent,
        and the connection cached. A failed open caches nothing, so the next
        call tries again. */
    method InitDB(canOpen: bool) returns (ok: bool)
      requires Valid()
      modifies this
      ensures Valid()
      ensures ok == (old(handle) || canOpen)
      ensures handle == ok
      ensures storeExists == (old(storeExists) || ok)
      ensures records == old(records)
      ensures old(handle) ==> unchanged(this)
    {
      if handle {
        return true;
      }
      if !canOpen {
        return false;
      }
      if !storeExists {
        // onupgradeneeded: create the store with key path `id`
        storeExists := true;
      }
      handle := true;
      ok := true;
    }

    /** `saveStory`: `put` inserts the record or replaces the one with its id. */
    method Save(story: Story, canOpen: bool) returns (ok: bool)
      requires Valid()
      modifies this
      ensures Valid()
      ensures ok == (old(handle) || canOpen) && handle == ok
      ensures storeExists == (old(storeExists) || ok)
      ensures records == if ok then old(records)[story.id := story] else old(records)
    {
      ok := InitDB(canOpen);
      if ok {
        records := records[story.id := story];
      }
    }

    /** `getStory`: the stored record, or nothing when the id is absent; a
        missing id is an ordinary answer, not a failure. */
    method Get(id: string, canOpen: bool) returns (ok: bool, r: Option<Story>)
      requires Valid()
      modifies this
      ensures Valid()
      ensures ok == (old(handle) || canOpen) && handle == ok
      ensures storeExists == (old(storeExists) || ok)
      ensures records == old(records)
      ensures r == if ok && id in records then Some(records[id]) else None
      ensures r.Some? ==> r.value.id == id
    {
      ok := InitDB(canOpen);
      r := if ok && id in records then Some(records[id]) else None;
    }

    /** `getAllStories`: every stored record exactly once. */
    method GetAll(canOpen: bool) returns (ok: bool, r: seq<Story>)
      requires Valid()
      modifies this
      ensures Valid()
      ensures ok == (old(handle) || canOpen) && handle == ok
      ensures storeExists == (old(storeExists) || ok)
      ensures records == old(records)
      ensures ok ==> Lists(r, records)
      ensures !ok ==> r == []
    {
      ok := InitDB(canOpen);
      r := [];
      if !ok {
        return;
      }
      var rest := records.Keys;
      while rest != {}
        invariant rest <= records.Keys
        invariant |r| + |rest| == |records|
        invariant forall i :: 0 <= i < |r| ==> r[i].id in records && records[r[i].id] == r[i] && r[i].id !in rest
        invariant forall i, j :: 0 <= i < j < |r| ==> r[i].id != r[j].id
        decreases rest
      {
        var k :| k in rest;
        r := r + [records[k]];
        rest := rest - {k};
      }
    }

    /** `deleteStory`: removes that key and nothing else; an absent id is a no-op. */
    method Delete(id: string, canOpen: bool) returns (ok: bool)
      requires Valid()
      modifies this
      ensures Valid()
      ensures ok == (old(handle) || canOpen) && handle == ok
      ensures storeExists == (old(storeExists) || ok)
      ensures records == if ok then old(records) - {id} else old(records)
    {
      ok := InitDB(canOpen);
      if ok {
        records := records - {id};
      }
    }

    /** `clearAllStories` */
    method Clear(canOpen: bool) returns (ok: bool)
      requires Valid()
      modifies this
      ensures Valid()
      ensures ok == (old(handle) || canOpen) && handle == ok
      ensures storeExists == (old(storeExists) || ok)
      ensures records == if ok then map[] else old(records)
    {
      ok := InitDB(canOpen);
      if ok {
        records := map[];
      }
    }
  }

  /** What a caller can rely on from the contracts alone: saving twice keeps
      one entry, deleting an absent id changes nothing, and after a clear the
      full listing is empty. */
  method StoreContractsInUse(db: StoryDB, s: Story, canOpen: bool)
    requires db.Valid() && db.handle
    modifies db
  {
    var ok := db.Save(s, canOpen);
    var before := db.records;
    ok := db.Save(s, canOpen);
    assert db.records == before && db.records[s.id] == s;
    var got;
    ok, got := db.Get(s.id, canOpen);
    assert got == Some(s);
    if "absent" !in db.records {
      before := db.records;
      ok := db.Delete("absent", canOpen);
      assert db.records == before;
    }
    ok := db.Clear(canOpen);
    var all;
    ok, all := db.GetAll(canOpen);
    assert all == [];
  }
}
