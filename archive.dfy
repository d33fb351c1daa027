/** The backup archive: a zip holding `data/index.json` (the manifest) and one
    document per record at `data/stories/<id>.json`. An archive is the list of
    its files in zip order; the text of each document is abstracted to what
    `JSON.parse` makes of it. */
module Archive {
  import opened Records
  import opened Text

  /** What parsing one document of the archive yields. */
  datatype Entry =
    | StoryDoc(story: Story)              // a story record
    | ManifestDoc(index: seq<Summary>)    // the manifest array
    | Unreadable                          // not JSON, not readable as text, or not a story record

  datatype ArchiveFile = ArchiveFile(path: string, entry: Entry)

  /** The file handed to the import handler: none chosen, something
      `JSZip.loadAsync` rejects, or a zip with its files. */
  datatype ZipInput = NoFile | NotAZip | Zip(files: seq<ArchiveFile>)

  const DataRoot := "data/"
  const StoriesRoot := "data/stories/"
  const IndexPath := "data/index.json"
  const BackupPrefix := "SillyTavern-Stories-Backup-"

  /** `/.json$/.test(rel)`: the dot is not escaped, so any character other
      than a line terminator may stand before `json`. */
  predicate MatchesJsonPattern(rel: string) {
    |rel| >= 5 && rel[|rel| - 4..] == "json" && !IsLineTerminator(rel[|rel| - 5])
  }

  /** Selected by `zip.folder('data').folder('stories').file(/.json$/)`: a file
      under `data/stories/` whose path relative to that folder matches. */
  predicate IsStoryFile(path: string) {
    StoriesRoot <= path && MatchesJsonPattern(path[|StoriesRoot|..])
  }

  /** The story files of an archive: every file whose path matches, in zip
      order, and nothing else. */
  function StoryFiles(files: seq<ArchiveFile>): (r: seq<ArchiveFile>)
    ensures |r| <= |files|
    ensures forall f :: f in r <==> f in files && IsStoryFile(f.path)
    ensures |r| == CountIf(files, (f: ArchiveFile) => IsStoryFile(f.path))
    ensures SubsequenceOf(r, files)
  {
    Keep(files, (f: ArchiveFile) => IsStoryFile(f.path))
  }

  /** `zip.folder('data').file('index.json')` finds a file. */
  predicate HasIndex(files: seq<ArchiveFile>) {
    exists i :: 0 <= i < |files| && files[i].path == IndexPath
  }

  /** The stories read from `files` in order, stopping at the first document
      that does not parse to a story record, and whether every one did. A
      manifest found among the story files parses, but `put` rejects it for
      lacking the `id` key, which aborts the import just the same. */
  datatype Decoded = Decoded(stories: seq<Story>, complete: bool)

  function Decode(files: seq<ArchiveFile>): (d: Decoded)
    ensures |d.stories| <= |files|
    ensures d.complete ==> |d.stories| == |files|
    ensures forall i :: 0 <= i < |d.stories| ==> files[i].entry == StoryDoc(d.stories[i])
    ensures !d.complete ==> |d.stories| < |files| && !files[|d.stories|].entry.StoryDoc?
  {
    if files == [] then Decoded([], true)
    else match files[0].entry
      case StoryDoc(s) =>
        var rest := Decode(files[1..]);
        Decoded([s] + rest.stories, rest.complete)
      case _ => Decoded([], false)
  }

  // ----- export -----

  /** `({ id, title, author, tags }) => ({ id, title, author, tags })` */
  function Summarize(s: Story): Summary {
    Summary(s.id, s.title, s.author, s.tags)
  }

  function Manifest(xs: seq<Story>): (r: seq<Summary>)
    ensures |r| == |xs|
  {
    seq(|xs|, i requires 0 <= i < |xs| => Summarize(xs[i]))
  }

  function StoryPath(id: string): string {
    StoriesRoot + id + ".json"
  }

  function StoryFileOf(s: Story): ArchiveFile {
    ArchiveFile(StoryPath(s.id), StoryDoc(s))
  }

  /** One full document per record, in listing order. */
  function Documents(xs: seq<Story>): (r: seq<ArchiveFile>)
    ensures |r| == |xs|
    ensures forall i :: 0 <= i < |xs| ==> r[i] == StoryFileOf(xs[i])
  {
    if xs == [] then [] else [StoryFileOf(xs[0])] + Documents(xs[1..])
  }

  /** The files `handleZipExport` adds, in order: the manifest, then one full
      document per record. */
  function ArchiveOf(xs: seq<Story>): (r: seq<ArchiveFile>)
    ensures |r| == |xs| + 1
    ensures r[0].path == IndexPath && r[0].entry == ManifestDoc(Manifest(xs))
    ensures forall i :: 0 <= i < |xs| ==> r[i + 1] == StoryFileOf(xs[i])
  {
    [ArchiveFile(IndexPath, ManifestDoc(Manifest(xs)))] + Documents(xs)
  }

  /** `new Date().toISOString().slice(0, 19).replace(/[-:T]/g, "")` */
  function Timestamp(iso: string): (r: string)
    ensures |r| <= 19
    ensures forall i :: 0 <= i < |r| ==> r[i] != '-' && r[i] != ':' && r[i] != 'T'
  {
    StripSeparators(if |iso| <= 19 then iso else iso[..19])
  }

  function StripSeparators(s: string): (r: string)
    ensures |r| <= |s|
    ensures forall i :: 0 <= i < |r| ==> r[i] != '-' && r[i] != ':' && r[i] != 'T'
  {
    if s == [] then []
    else (if s[0] in "-:T" then [] else [s[0]]) + StripSeparators(s[1..])
  }

  /** `SillyTavern-Stories-Backup-${timestamp}.zip` */
  function BackupFileName(iso: string): (r: string)
    ensures BackupPrefix <= r && r[|r| - 4..] == ".zip"
    ensures |r| <= |BackupPrefix| + 19 + 4
  {
    BackupPrefix + Timestamp(iso) + ".zip"
  }

  datatype Backup = Backup(fileName: string, files: seq<ArchiveFile>)

  /** The export of the records `getAllStories` listed; an empty library
      produces no archive (the handler only warns). */
  function Export(xs: seq<Story>, iso: string): (r: Option<Backup>)
    ensures r.None? <==> xs == []
    ensures r.Some? ==> r.value.files == ArchiveOf(xs) && r.value.fileName == BackupFileName(iso)
  {
    if xs == [] then None else Some(Backup(BackupFileName(iso), ArchiveOf(xs)))
  }

  // ----- properties -----

  /** The manifest has one entry per exported record, in the same order, and
      the i-th story document is that entry's record in full, stored under
      the entry's id. */
  lemma ManifestMatchesDocuments(xs: seq<Story>)
    ensures var files := ArchiveOf(xs);
      && files[0].path == IndexPath
      && files[0].entry.ManifestDoc?
      && |files[0].entry.index| == |xs|
      && forall i :: 0 <= i < |xs| ==>
           var e := files[0].entry.index[i];
           && e == Summary(xs[i].id, xs[i].title, xs[i].author, xs[i].tags)
           && files[i + 1] == ArchiveFile(StoriesRoot + e.id + ".json", StoryDoc(xs[i]))
  {
  }

  /** The pattern's dot is not escaped: a file under `data/stories/` whose
      name ends in `json` after any character other than a line terminator is
      taken as a story file (`notes_json`, `xjson`), while a name of at most
      four characters never is. */
  lemma PatternDotIsWildcard(name: string, c: char)
    requires !IsLineTerminator(c)
    ensures IsStoryFile(StoriesRoot + name + [c] + "json")
    ensures |name| <= 4 ==> !IsStoryFile(StoriesRoot + name)
  {
    var p := StoriesRoot + name + [c] + "json";
    assert p[|StoriesRoot|..] == name + [c] + "json";
    assert (StoriesRoot + name)[|StoriesRoot|..] == name;
  }

  /** Every document `handleZipExport` writes is picked up by the importer's
      story-file pattern, and the manifest is not. */
  lemma StoryPathSelected(id: string)
    ensures IsStoryFile(StoryPath(id))
    ensures !IsStoryFile(IndexPath)
  {
    var p := StoryPath(id);
    assert p[|StoriesRoot|..] == id + ".json";
    assert !(StoriesRoot <= IndexPath) by {
      assert StoriesRoot[5] != IndexPath[5];
    }
  }

  lemma StoryFilesOfDocuments(xs: seq<Story>)
    ensures StoryFiles(Documents(xs)) == Documents(xs)
  {
    var docs := Documents(xs);
    forall i | 0 <= i < |docs| ensures IsStoryFile(docs[i].path) {
      StoryPathSelected(xs[i].id);
    }
    KeepAll(docs, (f: ArchiveFile) => IsStoryFile(f.path));
  }

  lemma {:induction false} DecodeDocuments(xs: seq<Story>)
    ensures Decode(Documents(xs)) == Decoded(xs, true)
  {
    if xs != [] {
      DecodeDocuments(xs[1..]);
      assert Documents(xs)[1..] == Documents(xs[1..]);
      assert [xs[0]] + xs[1..] == xs;
    }
  }

  /** Codec round trip: the story files of an exported archive, read back in
      order, are exactly the exported records. */
  lemma ExportDecodeRoundTrip(xs: seq<Story>)
    ensures Decode(StoryFiles(ArchiveOf(xs))) == Decoded(xs, true)
  {
    var docs := Documents(xs);
    var files := ArchiveOf(xs);
    assert files[1..] == docs;
    StoryPathSelected("");
    assert StoryFiles(files) == StoryFiles(files[1..]);
    StoryFilesOfDocuments(xs);
    DecodeDocuments(xs);
  }

  /** The exported archive carries the manifest the older importer insists on. */
  lemma ExportHasIndex(xs: seq<Story>)
    ensures HasIndex(ArchiveOf(xs))
  {
    assert ArchiveOf(xs)[0].path == IndexPath;
  }

  /** `Date.prototype.toISOString` output: `YYYY-MM-DDTHH:mm:ss` then more. */
  predicate IsIsoTimestamp(iso: string) {
    && |iso| >= 19
    && iso[4] == '-' && iso[7] == '-' && iso[10] == 'T' && iso[13] == ':' && iso[16] == ':'
    && AllDigits(iso[..4]) && AllDigits(iso[5..7]) && AllDigits(iso[8..10])
    && AllDigits(iso[11..13]) && AllDigits(iso[14..16]) && AllDigits(iso[17..19])
  }

  lemma {:induction false} StripDigits(s: string)
    requires AllDigits(s)
    ensures StripSeparators(s) == s
  {
    if s != [] {
      StripDigits(s[1..]);
      assert [s[0]] + s[1..] == s;
    }
  }

  lemma {:induction false} StripConcat(a: string, b: string)
    ensures StripSeparators(a + b) == StripSeparators(a) + StripSeparators(b)
  {
    if a == [] {
      assert a + b == b;
    } else {
      assert (a + b)[1..] == a[1..] + b;
      StripConcat(a[1..], b);
    }
  }

  /** Stripping `iso[lo..19]` where digits `iso[lo..hi]` are followed by a
      separator: the digits, then whatever stripping the rest gives. */
  lemma StripChunk(iso: string, lo: nat, hi: nat)
    requires lo <= hi < 19 <= |iso|
    requires AllDigits(iso[lo..hi]) && iso[hi] in "-:T"
    ensures StripSeparators(iso[lo..19]) == iso[lo..hi] + StripSeparators(iso[hi + 1..19])
  {
    assert iso[lo..19] == iso[lo..hi] + ([iso[hi]] + iso[hi + 1..19]);
    StripConcat(iso[lo..hi], [iso[hi]] + iso[hi + 1..19]);
    StripDigits(iso[lo..hi]);
    assert ([iso[hi]] + iso[hi + 1..19])[1..] == iso[hi + 1..19];
  }

  /** Stripping the first nineteen characters of an ISO timestamp leaves
      its six digit groups. */
  lemma StripIso(iso: string)
    requires IsIsoTimestamp(iso)
    ensures StripSeparators(iso[..19])
         == iso[..4] + (iso[5..7] + (iso[8..10] + (iso[11..13] + (iso[14..16] + iso[17..19]))))
  {
    assert iso[..19] == iso[0..19] && iso[0..4] == iso[..4];
    StripChunk(iso, 0, 4);
    StripChunk(iso, 5, 7);
    StripChunk(iso, 8, 10);
    StripChunk(iso, 11, 13);
    StripChunk(iso, 14, 16);
    StripDigits(iso[17..19]);
  }

  /** For a well-formed ISO timestamp the backup name carries its fourteen
      digits `YYYYMMDDHHmmss`. */
  lemma BackupNameOfIso(iso: string)
    requires IsIsoTimestamp(iso)
    ensures Timestamp(iso) == iso[..4] + iso[5..7] + iso[8..10] + iso[11..13] + iso[14..16] + iso[17..19]
    ensures |Timestamp(iso)| == 14 && AllDigits(Timestamp(iso))
    ensures BackupFileName(iso) == BackupPrefix + Timestamp(iso) + ".zip"
  {
    assert Timestamp(iso) == StripSeparators(iso[..19]) by {
      if |iso| == 19 { assert iso[..19] == iso; }
    }
    StripIso(iso);
    Regroup(iso[..4], iso[5..7], iso[8..10], iso[11..13], iso[14..16], iso[17..19]);
  }

  /** Six digit groups read left to right. */
  lemma Regroup(a: string, b: string, c: string, d: string, e: string, f: string)
    requires AllDigits(a) && AllDigits(b) && AllDigits(c) && AllDigits(d) && AllDigits(e) && AllDigits(f)
    ensures a + (b + (c + (d + (e + f)))) == a + b + c + d + e + f
    ensures AllDigits(a + b + c + d + e + f)
  {
    var r := a + b + c + d + e + f;
    forall i | 0 <= i < |r| ensures IsDigit(r[i]) {
      if i < |a| { assert r[i] == a[i]; }
      else if i < |a + b| { assert r[i] == b[i - |a|]; }
      else if i < |a + b + c| { assert r[i] == c[i - |a + b|]; }
      else if i < |a + b + c + d| { assert r[i] == d[i - |a + b + c|]; }
      else if i < |a + b + c + d + e| { assert r[i] == e[i - |a + b + c + d|]; }
      else { assert r[i] == f[i - |a + b + c + d + e|]; }
    }
  }
}
