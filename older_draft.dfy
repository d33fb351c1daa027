/** The older replace-only import handler: it insists on the manifest
    `data/index.json`, empties the store, then writes every story file in
    order, counting the writes. */
module OlderDraft {
  import opened Records
  import opened Archive
  import opened Merge
  import opened StoryDb

  /** The `change` handler of the archive file input. */
  method DraftZipImport(db: StoryDB, input: ZipInput, confirmed: bool, canOpen: bool) returns (report: ImportReport)
    requires db.Valid()
    modifies db
    ensures db.Valid()
    ensures var e := DraftImport(confirmed, input, old(db.handle), canOpen, old(db.records));
      report == e.report && db.records == e.records
    ensures db.handle == (old(db.handle) || (confirmed && input.Zip? && HasIndex(input.files) && canOpen))
  {
    if input.NoFile? || !confirmed {
      return Cancelled;
    }
    if input.NotAZip? {
      return Failed(UnreadableZip);
    }
    if !HasIndex(input.files) {
      return Failed(MissingIndex);
    }
    var ok := db.Clear(canOpen);
    if !ok {
      return Failed(StoreUnavailable);
    }
    report := WriteAll(db, StoryFiles(input.files), canOpen);
  }

  /** The handler's loop: parse and `put` each story file, stopping at the
      first one that is not a story record. */
  method WriteAll(db: StoryDB, files: seq<ArchiveFile>, canOpen: bool) returns (report: ImportReport)
    requires db.Valid() && db.handle
    modifies db
    ensures db.Valid() && db.handle
    ensures var e := WriteEffect(files, false, {}, {}, old(db.records));
      report == e.report && db.records == e.records
  {
    ghost var base := db.records;
    ghost var read: seq<Story> := [];
    var count := 0;
    var i := 0;
    while i < |files|
      invariant 0 <= i <= |files|
      invariant db.Valid() && db.handle
      invariant Decode(files[..i]) == Decoded(read, true)
      invariant db.records == PutAll(base, read)
      invariant count == |read|
      decreases |files| - i
    {
      if !files[i].entry.StoryDoc? {
        DecodeStops(files, i);
        assert |read| == i;
        return Failed(BadStoryFile(files[i].path));
      }
      var s := files[i].entry.story;
      DecodeSnoc(files, i, s);
      PutAllSnoc(base, read, s);
      var ok := db.Save(s, canOpen);
      read := read + [s];
      count := count + 1;
      i := i + 1;
    }
    assert files[..i] == files;
    assert Decode(files) == Decoded(read, true);
    report := Imported(count, 0);
  }
}
