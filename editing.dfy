/** Building the record the create / edit form submits: the validation, the
    id, the default author and the parsing of the comma-separated tag field. */
module Editing {
  import opened Records
  import opened Text
  import LibraryIndex

  /** The author stored when the author field is left empty. */
  const DefaultAuthor := "\U{672C}\U{5730}\U{7528}\U{6237}"

  /** The four text fields of the form, as the user submits them. */
  datatype Form = Form(title: string, author: string, tagsText: string, content: string)

  /** `map(t => t.trim()).filter(Boolean)`: trim every piece, drop the empty ones. */
  function Tidy(pieces: seq<string>): (r: seq<string>)
    ensures |r| <= |pieces|
    ensures forall i :: 0 <= i < |r| ==> r[i] != "" && IsTrimmed(r[i])
    ensures (forall i :: 0 <= i < |pieces| ==> ',' !in pieces[i]) ==> forall i :: 0 <= i < |r| ==> ',' !in r[i]
  {
    if pieces == [] then []
    else
      var t := Trim(pieces[0]);
      TrimIsTrimmed(pieces[0]);
      TrimInside(pieces[0]);
      (if t == "" then [] else [t]) + Tidy(pieces[1..])
  }

  lemma TrimIsTrimmed(s: string)
    ensures IsTrimmed(Trim(s))
  {
    var a := TrimStart(s);
    var r := TrimEnd(a);
    if r != [] {
      assert r[0] == a[0];
    }
  }

  lemma TrimInside(s: string)
    ensures forall c :: c in Trim(s) ==> c in s
  {
    var a := TrimStart(s);
    var r := TrimEnd(a);
    forall c | c in r ensures c in s {
      var i :| 0 <= i < |r| && r[i] == c;
      assert a[i] == c;
      assert s[|s| - |a| + i] == c;
    }
  }

  /** `tagsText.split(',').map(t => t.trim()).filter(Boolean)`: the tags are the
      trimmed, non-empty pieces between commas, in order. */
  function ParseTags(tagsText: string): (r: seq<string>)
    ensures forall i :: 0 <= i < |r| ==> r[i] != "" && IsTrimmed(r[i]) && ',' !in r[i]
  {
    Tidy(SplitCommas(tagsText))
  }

  /** Tags that survive being shown in the form and parsed again. */
  predicate WellFormedTags(tags: seq<string>) {
    forall i :: 0 <= i < |tags| ==> tags[i] != "" && IsTrimmed(tags[i]) && ',' !in tags[i]
  }

  lemma TrimAfterLead(lead: string, t: string)
    requires lead == "" || lead == " "
    requires t != "" && IsTrimmed(t) && ',' !in t
    ensures Trim(lead + t) == t
    ensures ',' !in lead + t
  {
    if lead == " " {
      assert (lead + t)[1..] == t;
    } else {
      assert lead + t == t;
    }
    assert TrimStart(t) == t;
  }

  lemma TidyCons(p: string, rest: seq<string>)
    ensures Tidy([p] + rest) == (if Trim(p) == "" then [] else [Trim(p)]) + Tidy(rest)
  {
    assert ([p] + rest)[1..] == rest;
  }

  lemma CommaSpaceSplit(lead: string, t: string, rest: string)
    requires ',' !in lead + t
    ensures SplitCommas(lead + (t + ", " + rest)) == [lead + t] + SplitCommas(" " + rest)
  {
    assert lead + (t + ", " + rest) == (lead + t) + "," + (" " + rest);
    SplitAtComma(lead + t, " " + rest);
  }

  /** The last tag of the joined text. */
  lemma LastTag(lead: string, t: string)
    requires lead == "" || lead == " "
    requires t != "" && IsTrimmed(t) && ',' !in t
    ensures Tidy(SplitCommas(lead + t)) == [t]
  {
    TrimAfterLead(lead, t);
    SplitNoComma(lead + t);
    TidyCons(lead + t, []);
    assert [lead + t] + [] == [lead + t];
  }

  /** A tag followed by `, ` and more tags parses to that tag, then the rest. */
  lemma JoinedStep(lead: string, t: string, tail: seq<string>)
    requires lead == "" || lead == " "
    requires t != "" && IsTrimmed(t) && ',' !in t
    requires tail != []
    ensures Tidy(SplitCommas(lead + Join([t] + tail, ", ")))
         == [t] + Tidy(SplitCommas(" " + Join(tail, ", ")))
  {
    TrimAfterLead(lead, t);
    var rest := Join(tail, ", ");
    var pieces := SplitCommas(" " + rest);
    assert ([t] + tail)[1..] == tail;
    assert Join([t] + tail, ", ") == t + ", " + rest;
    CommaSpaceSplit(lead, t, rest);
    TidyCons(lead + t, pieces);
  }

  lemma {:induction false} ParseJoined(tags: seq<string>, lead: string)
    requires lead == "" || lead == " "
    requires tags != [] && WellFormedTags(tags)
    ensures Tidy(SplitCommas(lead + Join(tags, ", "))) == tags
    decreases |tags|
  {
    var t := tags[0];
    if |tags| == 1 {
      LastTag(lead, t);
      assert Join(tags, ", ") == t;
      assert tags == [t];
    } else {
      var tail := tags[1..];
      assert [t] + tail == tags;
      JoinedStep(lead, t, tail);
      assert WellFormedTags(tail) by {
        forall i | 0 <= i < |tail| ensures tail[i] != "" && IsTrimmed(tail[i]) && ',' !in tail[i] {
          assert tail[i] == tags[i + 1];
        }
      }
      ParseJoined(tail, " ");
    }
  }

  /** The edit form shows the tags as `tags.join(', ')`; parsing that text
      gives back the same tags whenever each is non-empty, already trimmed and
      free of commas. */
  lemma TagsRoundTrip(tags: seq<string>)
    requires WellFormedTags(tags)
    ensures ParseTags(Join(tags, ", ")) == tags
  {
    if tags == [] {
      assert Tidy([""]) == [] + Tidy([]);
    } else {
      ParseJoined(tags, "");
      assert "" + Join(tags, ", ") == Join(tags, ", ");
    }
  }

  /** The id a record gets: kept when editing; when creating, `story-<now>`,
      whose sort key is the creation time. */
  function NewId(editing: Option<Story>, now: nat): (r: string)
    ensures editing.Some? ==> r == editing.value.id
    ensures editing.None? ==> LibraryIndex.HasNumericKey(r) && LibraryIndex.SortKey(r) == now
  {
    if editing.Some? then editing.value.id
    else
      LibraryIndex.CreatedIdKey(now);
      "story-" + DecimalString(now)
  }

  /** The submit handler: an empty title or content is refused (nothing is
      saved); otherwise the record to save. `editing` is the record the form
      was opened on, `now` the clock reading in milliseconds. */
  function BuildStory(editing: Option<Story>, form: Form, now: nat): (r: Option<Story>)
    ensures r.None? <==> form.title == "" || form.content == ""
    ensures r.Some? ==>
      && r.value.id == NewId(editing, now)
      && r.value.title == form.title && r.value.content == form.content
      && r.value.author == (if form.author == "" then DefaultAuthor else form.author)
      && r.value.author != ""
      && r.value.tags == ParseTags(form.tagsText) && WellFormedTags(r.value.tags)
  {
    if form.title == "" || form.content == "" then None
    else
      Some(Story(NewId(editing, now), form.title,
                 if form.author == "" then DefaultAuthor else form.author,
                 ParseTags(form.tagsText), form.content))
  }

  /** The form as the edit dialog pre-fills it for `s`. */
  function FormOf(s: Story): Form {
    Form(s.title, s.author, Join(s.tags, ", "), s.content)
  }

  /** Opening a record for editing and submitting the form unchanged saves
      the same record under the same id, provided its fields are ones the
      form could have produced. */
  lemma UnchangedEditIsIdentity(s: Story, now: nat)
    requires s.title != "" && s.content != "" && s.author != ""
    requires WellFormedTags(s.tags)
    ensures BuildStory(Some(s), FormOf(s), now) == Some(s)
  {
    TagsRoundTrip(s.tags);
  }

  /** A newly created record sorts before every record created earlier. */
  lemma CreatedSortsFirst(form: Form, now: nat, earlier: nat)
    requires form.title != "" && form.content != ""
    requires earlier <= now
    ensures var r := BuildStory(None, form, now);
      && r.Some?
      && LibraryIndex.HasNumericKey(r.value.id)
      && LibraryIndex.HasNumericKey("story-" + DecimalString(earlier))
      && LibraryIndex.SortKey("story-" + DecimalString(earlier)) <= LibraryIndex.SortKey(r.value.id) == now
  {
    var id := "story-" + DecimalString(now);
    assert BuildStory(None, form, now).value.id == id;
    LibraryIndex.CreatedIdKey(now);
    LibraryIndex.CreatedIdKey(earlier);
  }

  /** Parsing splits off the text before the first comma as one piece. */
  lemma ParseCons(a: string, b: string)
    requires ',' !in a
    ensures ParseTags(a + "," + b) == (if Trim(a) == "" then [] else [Trim(a)]) + ParseTags(b)
  {
    SplitAtComma(a, b);
    TidyCons(a, SplitCommas(b));
  }

  /** Text without commas is one piece: one tag, or none when it is blank. */
  lemma ParseSingle(a: string)
    requires ',' !in a
    ensures ParseTags(a) == if Trim(a) == "" then [] else [Trim(a)]
  {
    SplitNoComma(a);
    TidyCons(a, []);
  }
}
