/** What a bulk import does to the store, as functions of the store before it:
    the current importer with its append and replace modes, and the older
    replace-only importer. The handlers that perform these imports one write
    at a time are proved against these functions. */
module Merge {
  import opened Records
  import opened Archive

  datatype Mode = Append | Replace

  datatype ImportError =
    | UnreadableZip                 // JSZip.loadAsync rejected the file
    | NoStoryFiles                  // no file under data/stories matches /.json$/
    | MissingIndex                  // data/index.json absent (older importer only)
    | StoreUnavailable              // the database could not be opened
    | BadStoryFile(path: string)    // a story document that is not a record

  /** What the handler reports. `Cancelled` covers both "no file chosen" and
      "the user declined the confirmation". */
  datatype ImportReport = Cancelled | Imported(added: nat, skipped: nat) | Failed(error: ImportError)

  datatype ImportEffect = ImportEffect(report: ImportReport, records: map<string, Story>)

  /** The pre-import snapshot: the ids and titles of the records in the store. */
  function IdsOf(m: map<string, Story>): set<string> {
    set k | k in m :: m[k].id
  }

  function TitlesOf(m: map<string, Story>): set<string> {
    set k | k in m :: m[k].title
  }

  /** Append mode writes a record only when neither its id nor its title
      occurs in the snapshot. */
  predicate Admitted(s: Story, ids: set<string>, titles: set<string>) {
    s.id !in ids && s.title !in titles
  }

  /** The records append mode writes: every admitted record, in archive
      order, and nothing else. */
  function AdmittedOf(xs: seq<Story>, ids: set<string>, titles: set<string>): (r: seq<Story>)
    ensures |r| <= |xs|
    ensures forall x :: x in r <==> x in xs && Admitted(x, ids, titles)
    ensures |r| == CountIf(xs, (s: Story) => Admitted(s, ids, titles))
    ensures SubsequenceOf(r, xs)
  {
    Keep(xs, (s: Story) => Admitted(s, ids, titles))
  }

  /** The records a write loop writes: the admitted ones when filtering
      (append mode), all of them otherwise. */
  function Selected(xs: seq<Story>, filter: bool, ids: set<string>, titles: set<string>): seq<Story> {
    if filter then AdmittedOf(xs, ids, titles) else xs
  }

  /** The write phase of an import: read the story files `sf` in order, write
      the selected records over the store `base`, and stop at the first
      document that is not a record. */
  function WriteEffect(sf: seq<ArchiveFile>, filter: bool, ids: set<string>, titles: set<string>,
                       base: map<string, Story>): (e: ImportEffect)
    ensures e.report.Imported? || (e.report.Failed? && e.report.error.BadStoryFile?)
    ensures e.report.Imported? ==> e.report.added + e.report.skipped == |sf| && (!filter ==> e.report.skipped == 0)
    ensures e.report.Failed? ==>
      var k := |Decode(sf).stories|;
      k < |sf| && !sf[k].entry.StoryDoc? && e.report.error.path == sf[k].path
    ensures base.Keys <= e.records.Keys
  {
    var d := Decode(sf);
    var written := Selected(d.stories, filter, ids, titles);
    var r := PutAll(base, written);
    if d.complete then ImportEffect(Imported(|written|, |d.stories| - |written|), r)
    else ImportEffect(Failed(BadStoryFile(sf[|d.stories|].path)), r)
  }

  /** The effect of `handleZipImport` on the store and what it reports.
      `handle` says whether a connection is already cached and `canOpen`
      whether opening one would succeed. Replace mode clears the store and
      writes every record; append mode writes over the store the records
      whose id and title are both absent from the snapshot. */
  function ZipImport(mode: Mode, confirmed: bool, input: ZipInput, handle: bool, canOpen: bool,
                     m: map<string, Story>): (e: ImportEffect)
    ensures e.report.Cancelled? || (e.report.Failed? && !e.report.error.BadStoryFile?) ==> e.records == m
    ensures e.report.Imported? ==>
      && input.Zip? && confirmed
      && e.report.added + e.report.skipped == |StoryFiles(input.files)| > 0
      && (mode == Replace ==> e.report.skipped == 0)
    ensures e.report != Failed(MissingIndex)
  {
    if input.NoFile? || !confirmed then ImportEffect(Cancelled, m)
    else if input.NotAZip? then ImportEffect(Failed(UnreadableZip), m)
    else
      var sf := StoryFiles(input.files);
      if sf == [] then ImportEffect(Failed(NoStoryFiles), m)
      else if !(handle || canOpen) then ImportEffect(Failed(StoreUnavailable), m)
      else if mode == Replace then WriteEffect(sf, false, {}, {}, map[])
      else WriteEffect(sf, true, IdsOf(m), TitlesOf(m), m)
  }

  /** The effect of the older replace-only import handler. */
  function DraftImport(confirmed: bool, input: ZipInput, handle: bool, canOpen: bool,
                       m: map<string, Story>): (e: ImportEffect)
    ensures e.report.Cancelled? || (e.report.Failed? && !e.report.error.BadStoryFile?) ==> e.records == m
    ensures e.report.Imported? ==>
      input.Zip? && confirmed && HasIndex(input.files) && e.report == Imported(|StoryFiles(input.files)|, 0)
    ensures e.report != Failed(NoStoryFiles)
  {
    if input.NoFile? || !confirmed then ImportEffect(Cancelled, m)
    else if input.NotAZip? then ImportEffect(Failed(UnreadableZip), m)
    else if !HasIndex(input.files) then ImportEffect(Failed(MissingIndex), m)
    else if !(handle || canOpen) then ImportEffect(Failed(StoreUnavailable), m)
    else WriteEffect(StoryFiles(input.files), false, {}, {}, map[])
  }

  // ----- helpers for the handlers' loops -----

  lemma AdmittedCons(x: Story, xs: seq<Story>, ids: set<string>, titles: set<string>)
    ensures AdmittedOf([x] + xs, ids, titles) == (if Admitted(x, ids, titles) then [x] else []) + AdmittedOf(xs, ids, titles)
  {
    KeepCons(x, xs, (s: Story) => Admitted(s, ids, titles));
  }

  lemma AdmittedSnoc(xs: seq<Story>, x: Story, ids: set<string>, titles: set<string>)
    ensures AdmittedOf(xs + [x], ids, titles)
         == AdmittedOf(xs, ids, titles) + (if Admitted(x, ids, titles) then [x] else [])
  {
    KeepSnoc(xs, x, (s: Story) => Admitted(s, ids, titles));
  }

  lemma SelectedSnoc(xs: seq<Story>, x: Story, filter: bool, ids: set<string>, titles: set<string>)
    ensures Selected(xs + [x], filter, ids, titles)
         == Selected(xs, filter, ids, titles) + (if filter && !Admitted(x, ids, titles) then [] else [x])
  {
    AdmittedSnoc(xs, x, ids, titles);
  }

  /** Reading a completely readable prefix and then the rest. */
  lemma {:induction false} DecodeAppend(a: seq<ArchiveFile>, b: seq<ArchiveFile>)
    requires Decode(a).complete
    ensures Decode(a + b) == Decoded(Decode(a).stories + Decode(b).stories, Decode(b).complete)
    decreases |a|
  {
    if a == [] {
      assert a + b == b;
    } else {
      assert a[0].entry.StoryDoc?;
      var s := a[0].entry.story;
      var ra, rb := Decode(a[1..]), Decode(a[1..] + b);
      assert Decode(a) == Decoded([s] + ra.stories, ra.complete);
      assert (a + b)[0] == a[0] && (a + b)[1..] == a[1..] + b;
      assert Decode(a + b) == Decoded([s] + rb.stories, rb.complete);
      DecodeAppend(a[1..], b);
      ConsAppend(s, ra.stories, Decode(b).stories);
    }
  }

  lemma ConsAppend(s: Story, xs: seq<Story>, ys: seq<Story>)
    ensures [s] + (xs + ys) == ([s] + xs) + ys
  {
  }

  lemma DecodeSnoc(fs: seq<ArchiveFile>, i: nat, s: Story)
    requires i < |fs| && Decode(fs[..i]).complete && fs[i].entry == StoryDoc(s)
    ensures Decode(fs[..i + 1]) == Decoded(Decode(fs[..i]).stories + [s], true)
  {
    assert fs[..i + 1] == fs[..i] + [fs[i]];
    DecodeAppend(fs[..i], [fs[i]]);
  }

  lemma DecodeStops(fs: seq<ArchiveFile>, i: nat)
    requires i < |fs| && Decode(fs[..i]).complete && !fs[i].entry.StoryDoc?
    ensures Decode(fs) == Decoded(Decode(fs[..i]).stories, false)
  {
    assert fs == fs[..i] + fs[i..];
    DecodeAppend(fs[..i], fs[i..]);
  }

  /** The snapshot sets computed from a listing of the store. */
  lemma SnapshotOfListing(xs: seq<Story>, m: map<string, Story>)
    requires Lists(xs, m) && KeyedById(m)
    ensures (set i | 0 <= i < |xs| :: xs[i].id) == IdsOf(m) == m.Keys
    ensures (set i | 0 <= i < |xs| :: xs[i].title) == TitlesOf(m)
  {
    ListedRebuild(xs, m);
    assert IdsOf(m) == m.Keys;
    TitlesOfListing(xs, m);
  }

  lemma TitlesOfListing(xs: seq<Story>, m: map<string, Story>)
    requires Lists(xs, m) && (set i | 0 <= i < |xs| :: xs[i].id) == m.Keys
    ensures (set i | 0 <= i < |xs| :: xs[i].title) == TitlesOf(m)
  {
    forall t | t in TitlesOf(m) ensures t in set i | 0 <= i < |xs| :: xs[i].title {
      var k :| k in m && m[k].title == t;
      var i :| 0 <= i < |xs| && xs[i].id == k;
      assert xs[i].title == t;
    }
  }

  // ----- properties -----

  /** An archive without story files is turned away before anything is
      cleared or written. */
  lemma EmptyArchiveRejected(mode: Mode, files: seq<ArchiveFile>, handle: bool, canOpen: bool,
                             m: map<string, Story>)
    requires StoryFiles(files) == []
    ensures ZipImport(mode, true, Zip(files), handle, canOpen, m) == ImportEffect(Failed(NoStoryFiles), m)
  {
  }

  /** Replace mode: the store ends up holding exactly the archive's records,
      written in order (a later record with a repeated id wins); nothing is
      skipped and every story file counts as added. */
  lemma ReplaceImportResult(files: seq<ArchiveFile>, handle: bool, canOpen: bool, m: map<string, Story>)
    requires ZipImport(Replace, true, Zip(files), handle, canOpen, m).report.Imported?
    ensures var e := ZipImport(Replace, true, Zip(files), handle, canOpen, m);
      var sf := StoryFiles(files);
      var xs := Decode(sf).stories;
      && |xs| == |sf|
      && (forall i :: 0 <= i < |sf| ==> sf[i].entry == StoryDoc(xs[i]))
      && e.report == Imported(|sf|, 0)
      && e.records == PutAll(map[], xs)
  {
  }

  /** Replace mode with a bad document part-way: the old records are gone and
      the store holds only the records written before the failure. */
  lemma ReplaceFailureNoRollback(files: seq<ArchiveFile>, handle: bool, canOpen: bool, m: map<string, Story>)
    requires ZipImport(Replace, true, Zip(files), handle, canOpen, m).report.Failed?
    requires ZipImport(Replace, true, Zip(files), handle, canOpen, m).report.error.BadStoryFile?
    ensures var sf := StoryFiles(files);
      var k := |Decode(sf).stories|;
      && k < |sf| && !sf[k].entry.StoryDoc?
      && Decode(sf[..k]) == Decoded(Decode(sf).stories, true)
      && ZipImport(Replace, true, Zip(files), handle, canOpen, m).records == PutAll(map[], Decode(sf[..k]).stories)
  {
    var sf := StoryFiles(files);
    assert sf != [] && (handle || canOpen);
    assert ZipImport(Replace, true, Zip(files), handle, canOpen, m) == WriteEffect(sf, false, {}, {}, map[]);
    assert !Decode(sf).complete;
    DecodePrefixComplete(sf, |Decode(sf).stories|);
  }

  /** The records read before the first bad document are a complete decode
      of the files before it. */
  lemma {:induction false} DecodePrefixComplete(fs: seq<ArchiveFile>, k: nat)
    requires k == |Decode(fs).stories|
    ensures Decode(fs[..k]) == Decoded(Decode(fs).stories, true)
    decreases k
  {
    if k > 0 {
      assert fs[..k][1..] == fs[1..][..k - 1];
      DecodePrefixComplete(fs[1..], k - 1);
    }
  }

  /** Writing records whose ids are all new leaves every old record alone. */
  lemma PutAllKeepsOld(m: map<string, Story>, ws: seq<Story>)
    requires forall w :: w in ws ==> w.id !in m
    ensures forall k :: k in m ==> k in PutAll(m, ws) && PutAll(m, ws)[k] == m[k]
  {
    forall k | k in m ensures PutAll(m, ws)[k] == m[k] {
      PutAllLast(m, ws, k);
    }
  }

  /** Append mode, the skip rule: a record of the archive is written exactly
      when neither its id nor its title was in the store before the import;
      records that were in the store are never changed; and each new key holds
      the last written record carrying it. */
  lemma AppendSkipRule(files: seq<ArchiveFile>, handle: bool, canOpen: bool, m: map<string, Story>)
    requires KeyedById(m)
    requires StoryFiles(files) != [] && (handle || canOpen)
    ensures var r := ZipImport(Append, true, Zip(files), handle, canOpen, m).records;
      var xs := Decode(StoryFiles(files)).stories;
      var written := AdmittedOf(xs, m.Keys, TitlesOf(m));
      && (forall x :: x in written <==> x in xs && x.id !in m && x.title !in TitlesOf(m))
      && r == PutAll(m, written)
      && (forall k :: k in m ==> k in r && r[k] == m[k])
      && (forall k :: k in r && k !in m ==>
            exists i :: 0 <= i < |written| && written[i] == r[k]
              && forall j :: i < j < |written| ==> written[j].id != k)
  {
    var xs := Decode(StoryFiles(files)).stories;
    assert IdsOf(m) == m.Keys;
    var written := AdmittedOf(xs, m.Keys, TitlesOf(m));
    var r := PutAll(m, written);
    assert ZipImport(Append, true, Zip(files), handle, canOpen, m).records == r;
    NewIdsWrite(m, written);
  }

  /** Writing records whose ids are all new keeps every old record, and each
      added key holds the last record written under it. */
  lemma NewIdsWrite(m: map<string, Story>, ws: seq<Story>)
    requires forall w :: w in ws ==> w.id !in m
    ensures var r := PutAll(m, ws);
      && (forall k :: k in m ==> k in r && r[k] == m[k])
      && (forall k :: k in r && k !in m ==>
            exists i :: 0 <= i < |ws| && ws[i] == r[k] && forall j :: i < j < |ws| ==> ws[j].id != k)
  {
    PutAllKeepsOld(m, ws);
    var r := PutAll(m, ws);
    forall k | k in r && k !in m
      ensures exists i :: 0 <= i < |ws| && ws[i] == r[k] && forall j :: i < j < |ws| ==> ws[j].id != k
    {
      PutAllLast(m, ws, k);
    }
  }

  /** Append mode counts: every story file is either added or skipped, and
      the number added is the number of records written. */
  lemma AppendCounts(files: seq<ArchiveFile>, handle: bool, canOpen: bool, m: map<string, Story>)
    requires ZipImport(Append, true, Zip(files), handle, canOpen, m).report.Imported?
    ensures var rep := ZipImport(Append, true, Zip(files), handle, canOpen, m).report;
      && rep.added + rep.skipped == |StoryFiles(files)|
      && rep.added == |AdmittedOf(Decode(StoryFiles(files)).stories, IdsOf(m), TitlesOf(m))|
  {
  }

  /** Append-importing an archive made of story documents only. */
  lemma AppendOfDocuments(xs: seq<Story>, m: map<string, Story>)
    requires xs != []
    ensures var w := AdmittedOf(xs, IdsOf(m), TitlesOf(m));
      ZipImport(Append, true, Zip(Documents(xs)), true, true, m)
        == ImportEffect(Imported(|w|, |xs| - |w|), PutAll(m, w))
  {
    StoryFilesOfDocuments(xs);
    DecodeDocuments(xs);
    assert ZipImport(Append, true, Zip(Documents(xs)), true, true, m)
        == WriteEffect(Documents(xs), true, IdsOf(m), TitlesOf(m), m);
  }

  /** The snapshot is taken once, before the loop: two new records sharing a
      title are both written, although the second one's title is in the store
      by the time it is read. */
  lemma SnapshotNotUpdated(a: Story, b: Story)
    requires a.id != b.id && a.title == b.title
    ensures ZipImport(Append, true, Zip([StoryFileOf(a), StoryFileOf(b)]), true, true, map[])
         == ImportEffect(Imported(2, 0), map[a.id := a, b.id := b])
  {
    var m: map<string, Story> := map[];
    assert IdsOf(m) == {} && TitlesOf(m) == {};
    var w := AdmittedOf([a, b], IdsOf(m), TitlesOf(m));
    assert w == [a, b] by {
      AdmittedCons(b, [], {}, {});
      AdmittedCons(a, [b], {}, {});
      assert [a] + [b] == [a, b] && [b] + [] == [b];
    }
    assert PutAll(m, w) == map[a.id := a, b.id := b] by {
      PutAllSnoc(m, [a], b);
      PutAllSnoc(m, [], a);
      assert [] + [a] == [a] && [a] + [b] == [a, b];
    }
    assert Documents([a, b]) == [StoryFileOf(a), StoryFileOf(b)];
    AppendOfDocuments([a, b], m);
  }

  /** With one record `o` in the store, an append import of a record with
      `o`'s id, one with `o`'s title and one with neither adds only the last
      and skips two. */
  lemma AppendSkipsOnIdOrTitle(o: Story, a: Story, b: Story, c: Story)
    requires a.id == o.id && b.title == o.title
    requires c.id != o.id && c.title != o.title
    ensures ZipImport(Append, true, Zip([StoryFileOf(a), StoryFileOf(b), StoryFileOf(c)]), true, true, map[o.id := o])
         == ImportEffect(Imported(1, 2), map[o.id := o, c.id := c])
  {
    var m := map[o.id := o];
    SingletonSnapshot(o);
    OnlyNewAdmitted(o, a, b, c);
    assert PutAll(m, [c]) == m[c.id := c] by {
      PutAllSnoc(m, [], c);
      assert [] + [c] == [c];
    }
    assert Documents([a, b, c]) == [StoryFileOf(a), StoryFileOf(b), StoryFileOf(c)];
    AppendOfDocuments([a, b, c], m);
  }

  lemma OnlyNewAdmitted(o: Story, a: Story, b: Story, c: Story)
    requires a.id == o.id && b.title == o.title
    requires c.id != o.id && c.title != o.title
    ensures AdmittedOf([a, b, c], {o.id}, {o.title}) == [c]
  {
    var ids, titles := {o.id}, {o.title};
    AdmittedCons(c, [], ids, titles);
    AdmittedCons(b, [c], ids, titles);
    AdmittedCons(a, [b, c], ids, titles);
    assert [a] + [b, c] == [a, b, c] && [b] + [c] == [b, c] && [c] + [] == [c];
  }

  lemma SingletonSnapshot(s: Story)
    ensures IdsOf(map[s.id := s]) == {s.id} && TitlesOf(map[s.id := s]) == {s.title}
  {
    assert map[s.id := s].Keys == {s.id};
  }

  /** Export followed by a replace import into any store `target` reproduces
      the exported store: the same ids with the same records, every record
      counted as added, whatever `target` held before. */
  lemma ExportThenReplaceRoundTrip(xs: seq<Story>, m: map<string, Story>, iso: string, handle: bool, canOpen: bool,
                                   target: map<string, Story>)
    requires KeyedById(m) && Lists(xs, m) && (handle || canOpen)
    requires Export(xs, iso).Some?
    ensures var input := Zip(Export(xs, iso).value.files);
      && ZipImport(Replace, true, input, handle, canOpen, target) == ImportEffect(Imported(|m|, 0), m)
      && DraftImport(true, input, handle, canOpen, target) == ImportEffect(Imported(|m|, 0), m)
  {
    var files := ArchiveOf(xs);
    assert Export(xs, iso).value.files == files;
    ReplaceOfExport(xs, m);
    ExportHasIndex(xs);
    assert ZipImport(Replace, true, Zip(files), handle, canOpen, target)
        == WriteEffect(StoryFiles(files), false, {}, {}, map[]);
    assert DraftImport(true, Zip(files), handle, canOpen, target)
        == WriteEffect(StoryFiles(files), false, {}, {}, map[]);
  }

  /** The write phase of a replace import of an exported archive. */
  lemma ReplaceOfExport(xs: seq<Story>, m: map<string, Story>)
    requires Lists(xs, m) && xs != []
    ensures StoryFiles(ArchiveOf(xs)) != []
    ensures WriteEffect(StoryFiles(ArchiveOf(xs)), false, {}, {}, map[]) == ImportEffect(Imported(|m|, 0), m)
  {
    var sf := StoryFiles(ArchiveOf(xs));
    ExportDecodeRoundTrip(xs);
    assert Decode(sf) == Decoded(xs, true);
    assert |sf| >= |xs| > 0;
    ListedRebuild(xs, m);
  }

  /** The two importers agree on every archive that carries both a manifest
      and at least one story file. */
  lemma DraftAgreesWithReplace(files: seq<ArchiveFile>, confirmed: bool, handle: bool, canOpen: bool,
                               m: map<string, Story>)
    requires HasIndex(files) && StoryFiles(files) != []
    ensures DraftImport(confirmed, Zip(files), handle, canOpen, m)
         == ZipImport(Replace, confirmed, Zip(files), handle, canOpen, m)
  {
  }

  /** Where they differ: with a manifest but no story files the older importer
      empties the store and reports nothing imported, while the current one
      rejects the archive and keeps the store. */
  lemma DraftEmptiesOnStoryless(files: seq<ArchiveFile>, handle: bool, canOpen: bool, m: map<string, Story>)
    requires HasIndex(files) && StoryFiles(files) == [] && (handle || canOpen)
    ensures DraftImport(true, Zip(files), handle, canOpen, m) == ImportEffect(Imported(0, 0), map[])
    ensures ZipImport(Replace, true, Zip(files), handle, canOpen, m) == ImportEffect(Failed(NoStoryFiles), m)
  {
  }

  /** The older importer requires the manifest: without `data/index.json` it
      fails before clearing anything. */
  lemma DraftMissingIndexKeepsStore(files: seq<ArchiveFile>, handle: bool, canOpen: bool, m: map<string, Story>)
    requires !HasIndex(files)
    ensures DraftImport(true, Zip(files), handle, canOpen, m) == ImportEffect(Failed(MissingIndex), m)
  {
  }
}
