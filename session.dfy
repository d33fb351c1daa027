/** The add-on's page state and the handlers that change it: the loaded
    library, the record on display, the chosen import mode, and the handlers
    for loading, deleting, saving, importing and exporting. Each handler is
    proved against the functions that specify it. */
module Session {
  import opened Records
  import opened Archive
  import opened Merge
  import opened LibraryIndex
  import opened Editing
  import opened StoryDb

  /** What submitting the create / edit form leads to. */
  datatype SaveOutcome =
    | Invalid              // empty title or content: nothing is saved
    | Saved(story: Story)  // the record written to the store
    | SaveFailed           // the database could not be opened

  class Session {
    /** The database helper module. */
    const db: StoryDB
    /** `allStories`: the library as last loaded, newest first. */
    var allStories: seq<Story>
    /** `currentStory`: the record on display, if any. */
    var currentStory: Option<Story>
    /** `currentImportMode` */
    var importMode: Mode

    ghost predicate Valid()
      reads this, db
    {
      db.Valid()
    }

    /** The state when the page script starts. */
    constructor (db: StoryDB)
      requires db.Valid()
      ensures Valid()
      ensures this.db == db && allStories == [] && currentStory == None && importMode == Append
    {
      this.db := db;
      allStories := [];
      currentStory := None;
      importMode := Append;
    }

    /** `initStoryLibrary`: load every record and order them newest first. A
        failed load leaves the previous library in place. When some id's second
        part is not a plain digit string the order is left unspecified (the
        listing order is kept). */
    method InitStoryLibrary(canOpen: bool) returns (ok: bool)
      requires Valid()
      modifies this, db
      ensures Valid()
      ensures ok == (old(db.handle) || canOpen) && db.handle == ok
      ensures db.records == old(db.records)
      ensures ok ==> Lists(allStories, db.records)
      ensures ok && (forall k :: k in db.records ==> HasNumericKey(k)) ==> NewestFirst(allStories)
      ensures !ok ==> allStories == old(allStories)
      ensures currentStory == old(currentStory) && importMode == old(importMode)
    {
      var listing;
      ok, listing := db.GetAll(canOpen);
      if ok {
        if AllNumeric(listing) {
          allStories := SortNewestFirst(listing);
          PermutedListing(listing, allStories, db.records);
        } else {
          allStories := listing;
        }
      }
    }

    /** `loadStory`: a found record goes on display and is returned; an
        absent id (or an unavailable database) changes nothing and yields
        `null`. */
    method LoadStory(id: string, canOpen: bool) returns (r: Option<Story>)
      requires Valid()
      modifies this, db
      ensures Valid()
      ensures db.records == old(db.records) && db.handle == (old(db.handle) || canOpen)
      ensures r == if db.handle && id in db.records then Some(db.records[id]) else None
      ensures currentStory == if r.Some? then r else old(currentStory)
      ensures r.Some? ==> r.value.id == id
      ensures allStories == old(allStories) && importMode == old(importMode)
    {
      var ok;
      ok, r := db.Get(id, canOpen);
      if r.Some? {
        currentStory := r;
      }
    }

    /** `deleteLocalStory`: after confirmation, remove the record's id from
        the store and reload the library. */
    method DeleteLocalStory(story: Story, confirmed: bool, canOpen: bool) returns (ok: bool)
      requires Valid()
      modifies this, db
      ensures Valid()
      ensures ok == (confirmed && (old(db.handle) || canOpen))
      ensures db.handle == (old(db.handle) || (confirmed && canOpen))
      ensures db.records == if ok then old(db.records) - {story.id} else old(db.records)
      ensures ok ==> Lists(allStories, db.records) && story.id !in db.records
      ensures ok && (forall k :: k in db.records ==> HasNumericKey(k)) ==> NewestFirst(allStories)
      ensures !ok ==> allStories == old(allStories)
      ensures currentStory == old(currentStory) && importMode == old(importMode)
    {
      if !confirmed {
        return false;
      }
      ok := db.Delete(story.id, canOpen);
      if ok {
        var reloaded := InitStoryLibrary(canOpen);
      }
    }

    /** The form's submit handler: an invalid form writes nothing; otherwise
        the built record is saved. The view refresh a second later is a
        separate `InitStoryLibrary`. */
    method SubmitEdit(editing: Option<Story>, form: Form, now: nat, canOpen: bool) returns (outcome: SaveOutcome)
      requires Valid()
      modifies db
      ensures Valid()
      ensures var built := BuildStory(editing, form, now);
        && (built.None? ==> outcome == Invalid && unchanged(db))
        && db.handle == (old(db.handle) || (built.Some? && canOpen))
        && (built.Some? && (old(db.handle) || canOpen) ==>
              outcome == Saved(built.value) && db.records == old(db.records)[built.value.id := built.value])
        && (built.Some? && !(old(db.handle) || canOpen) ==>
              outcome == SaveFailed && db.records == old(db.records))
    {
      var built := BuildStory(editing, form, now);
      if built.None? {
        return Invalid;
      }
      var ok := db.Save(built.value, canOpen);
      outcome := if ok then Saved(built.value) else SaveFailed;
    }

    /** `triggerZipImport`: remember which import button was pressed. */
    method TriggerZipImport(mode: Mode)
      modifies this
      ensures importMode == mode
      ensures allStories == old(allStories) && currentStory == old(currentStory)
    {
      importMode := mode;
    }

    /** `handleZipImport`: the import proceeds in the order of the handler —
        the checks on the archive, the clear (replace mode) or the snapshot of
        ids and titles (append mode), then one write per admitted story file
        — and ends with the store and report `ZipImport` specifies. */
    method HandleZipImport(input: ZipInput, confirmed: bool, canOpen: bool) returns (report: ImportReport)
      requires Valid()
      modifies db
      ensures Valid()
      ensures var e := ZipImport(importMode, confirmed, input, old(db.handle), canOpen, old(db.records));
        report == e.report && db.records == e.records
      ensures db.handle == (old(db.handle) || (confirmed && input.Zip? && StoryFiles(input.files) != [] && canOpen))
    {
      if input.NoFile? || !confirmed {
        return Cancelled;
      }
      if input.NotAZip? {
        return Failed(UnreadableZip);
      }
      if |StoryFiles(input.files)| == 0 {
        return Failed(NoStoryFiles);
      }
      report := ImportArchive(input.files, canOpen);
    }

    /** `handleZipImport` once the archive has story files: clear the store
        (replace mode) or take the snapshot (append mode), then write. */
    method ImportArchive(archive: seq<ArchiveFile>, canOpen: bool) returns (report: ImportReport)
      requires Valid() && StoryFiles(archive) != []
      modifies db
      ensures Valid()
      ensures var e := ZipImport(importMode, true, Zip(archive), old(db.handle), canOpen, old(db.records));
        report == e.report && db.records == e.records
      ensures db.handle == (old(db.handle) || canOpen)
    {
      ghost var m := db.records;
      var files := StoryFiles(archive);
      if importMode == Replace {
        var ok := db.Clear(canOpen);
        if !ok {
          return Failed(StoreUnavailable);
        }
        report := WriteStories(files, false, {}, {}, canOpen);
      } else {
        var ok, existing := db.GetAll(canOpen);
        if !ok {
          return Failed(StoreUnavailable);
        }
        var ids := set i | 0 <= i < |existing| :: existing[i].id;
        var titles := set i | 0 <= i < |existing| :: existing[i].title;
        SnapshotOfListing(existing, m);
        report := WriteStories(files, true, ids, titles, canOpen);
      }
    }

    /** The loop of `handleZipImport`: read each story file in order, skip it
        when filtering and its id or title is in the snapshot, otherwise write
        it; stop at the first file that is not a story record. */
    method WriteStories(files: seq<ArchiveFile>, filter: bool, ids: set<string>, titles: set<string>,
                        canOpen: bool)
      returns (report: ImportReport)
      requires db.Valid() && db.handle
      modifies db
      ensures db.Valid() && db.handle
      ensures var e := WriteEffect(files, filter, ids, titles, old(db.records));
        report == e.report && db.records == e.records
    {
      ghost var base := db.records;
      var added, skipped := 0, 0;
      ghost var read: seq<Story> := [];
      ghost var written: seq<Story> := [];
      var i := 0;
      while i < |files|
        invariant 0 <= i <= |files|
        invariant db.Valid() && db.handle
        invariant Decode(files[..i]) == Decoded(read, true)
        invariant written == Selected(read, filter, ids, titles)
        invariant db.records == PutAll(base, written)
        invariant added == |written| && skipped == |read| - |written|
        decreases |files| - i
      {
        if !files[i].entry.StoryDoc? {
          DecodeStops(files, i);
          assert |read| == i;
          return Failed(BadStoryFile(files[i].path));
        }
        var s := files[i].entry.story;
        DecodeSnoc(files, i, s);
        SelectedSnoc(read, s, filter, ids, titles);
        read := read + [s];
        if filter && !Admitted(s, ids, titles) {
          skipped := skipped + 1;
        } else {
          PutAllSnoc(base, written, s);
          var ok := db.Save(s, canOpen);
          written := written + [s];
          added := added + 1;
        }
        i := i + 1;
      }
      assert files[..i] == files;
      assert Decode(files) == Decoded(read, true);
      report := Imported(added, skipped);
    }

    /** `handleZipExport`: list the store and package it; an empty library
        (or an unavailable database) produces no archive. The archive's story
        files read back to exactly the stored records. */
    method HandleZipExport(canOpen: bool, iso: string) returns (backup: Option<Backup>)
      requires Valid()
      modifies db
      ensures Valid()
      ensures db.records == old(db.records) && db.handle == (old(db.handle) || canOpen)
      ensures backup.Some? <==> db.handle && db.records != map[]
      ensures backup.Some? ==>
        && backup.value.fileName == BackupFileName(iso)
        && HasIndex(backup.value.files)
        && Decode(StoryFiles(backup.value.files)).complete
        && PutAll(map[], Decode(StoryFiles(backup.value.files)).stories) == db.records
        && exists xs :: Lists(xs, db.records) && backup.value.files == ArchiveOf(xs)
    {
      var ok, xs := db.GetAll(canOpen);
      if !ok {
        return None;
      }
      assert xs == [] <==> db.records == map[] by {
        if db.records != map[] {
          var k :| k in db.records;
          assert |xs| == |db.records| > 0;
        }
      }
      backup := Export(xs, iso);
      if backup.Some? {
        ExportDecodeRoundTrip(xs);
        ExportHasIndex(xs);
        ListedRebuild(xs, db.records);
      }
    }
  }
}
