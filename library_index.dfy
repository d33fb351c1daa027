/** The in-memory library: the records loaded from the store, ordered newest
    first by the number in their id, the tag and title-search filter, and the
    list of tag buttons. */
module LibraryIndex {
  import opened Records
  import opened Text

  // ----- ordering -----

  /** The text after the first '-', up to the next '-' or the end. */
  function AfterFirstDash(s: string): (r: string)
    requires '-' in s
    ensures |r| < |s|
  {
    if s[0] == '-' then s[1..] else AfterFirstDash(s[1..])
  }

  function UpToDash(s: string): (r: string)
    ensures '-' !in r && r <= s
  {
    if s == [] || s[0] == '-' then [] else [s[0]] + UpToDash(s[1..])
  }

  /** `id.split('-')[1]`: absent when the id has no '-'. */
  function SecondPart(id: string): (r: Option<string>)
    ensures r.Some? ==> '-' !in r.value
  {
    if '-' in id then Some(UpToDash(AfterFirstDash(id))) else None
  }

  /** Ids whose sort key this model covers: the second part is missing, empty
      or made of decimal digits. Other parts are left out, both those that
      make the comparator return NaN and those JavaScript still reads as
      numbers (`1.5`, `0x10`, `1e3`, `Infinity`, digits with spaces around). */
  predicate HasNumericKey(id: string) {
    SecondPart(id).None? || AllDigits(SecondPart(id).value)
  }

  /** `(id.split('-')[1] || 0)` as a number. */
  function SortKey(id: string): nat
    requires HasNumericKey(id)
  {
    match SecondPart(id)
    case None => 0
    case Some(p) => DigitsValue(p)
  }

  predicate AllNumeric(xs: seq<Story>) {
    forall i :: 0 <= i < |xs| ==> HasNumericKey(xs[i].id)
  }

  /** Non-increasing by sort key: newest first. */
  predicate NewestFirst(xs: seq<Story>) {
    AllNumeric(xs) && forall i, j :: 0 <= i < j < |xs| ==> SortKey(xs[i].id) >= SortKey(xs[j].id)
  }

  function Insert(x: Story, ys: seq<Story>): (r: seq<Story>)
    requires HasNumericKey(x.id) && NewestFirst(ys)
    ensures multiset(r) == multiset(ys) + multiset{x}
    ensures NewestFirst(r)
  {
    if ys == [] || SortKey(x.id) >= SortKey(ys[0].id) then
      InsertFront(x, ys);
      [x] + ys
    else
      var rest := Insert(x, ys[1..]);
      assert ys == [ys[0]] + ys[1..];
      InsertBehind(x, ys, rest);
      [ys[0]] + rest
  }

  lemma InsertFront(x: Story, ys: seq<Story>)
    requires HasNumericKey(x.id) && NewestFirst(ys)
    requires ys == [] || SortKey(x.id) >= SortKey(ys[0].id)
    ensures NewestFirst([x] + ys)
  {
    var r := [x] + ys;
    forall i, j | 0 <= i < j < |r| ensures SortKey(r[i].id) >= SortKey(r[j].id) {
      if i == 0 && j > 1 {
        assert r[j] == ys[j - 1];
      }
    }
  }

  lemma InsertBehind(x: Story, ys: seq<Story>, rest: seq<Story>)
    requires HasNumericKey(x.id) && NewestFirst(ys) && ys != []
    requires SortKey(x.id) < SortKey(ys[0].id)
    requires NewestFirst(rest) && multiset(rest) == multiset(ys[1..]) + multiset{x}
    ensures NewestFirst([ys[0]] + rest)
  {
    var r := [ys[0]] + rest;
    forall z | z in rest ensures HasNumericKey(z.id) && SortKey(z.id) <= SortKey(ys[0].id) {
      assert z in multiset(rest);
      if z != x {
        assert z in ys[1..];
        var k :| 0 <= k < |ys[1..]| && ys[1..][k] == z;
        assert ys[k + 1] == z;
      }
    }
    forall i, j | 0 <= i < j < |r| ensures SortKey(r[i].id) >= SortKey(r[j].id) {
      assert r[j] == rest[j - 1];
      if i > 0 {
        assert r[i] == rest[i - 1];
      } else {
        assert r[j] in rest;
      }
    }
  }

  /** `allStories.sort((a, b) => key(b) - key(a))`: a stable insertion sort
      that places each record before those with an equal or smaller key. */
  function SortNewestFirst(xs: seq<Story>): (r: seq<Story>)
    requires AllNumeric(xs)
    ensures NewestFirst(r)
    ensures multiset(r) == multiset(xs)
  {
    if xs == [] then []
    else
      assert xs == [xs[0]] + xs[1..];
      Insert(xs[0], SortNewestFirst(xs[1..]))
  }

  /** A record created at time `now` gets id `story-<now>`, whose sort key is
      `now`: the newest creation comes first. */
  lemma CreatedIdKey(now: nat)
    ensures HasNumericKey("story-" + DecimalString(now))
    ensures SortKey("story-" + DecimalString(now)) == now
  {
    var id := "story-" + DecimalString(now);
    var d := DecimalString(now);
    assert id[5..] == "-" + d;
    assert id == "story" + ("-" + d);
    AfterDashOf("story", d);
    assert '-' !in d by {
      forall k | 0 <= k < |d| ensures d[k] != '-' { assert IsDigit(d[k]); }
    }
    UpToDashNoDash(d);
    DecimalRoundTrip(now);
  }

  lemma {:induction false} AfterDashOf(a: string, b: string)
    requires '-' !in a
    ensures '-' in a + ("-" + b) && AfterFirstDash(a + ("-" + b)) == b
  {
    if a != [] {
      assert (a + ("-" + b))[1..] == a[1..] + ("-" + b);
      AfterDashOf(a[1..], b);
    }
  }

  lemma {:induction false} UpToDashNoDash(s: string)
    requires '-' !in s
    ensures UpToDash(s) == s
  {
    if s != [] {
      UpToDashNoDash(s[1..]);
      assert [s[0]] + s[1..] == s;
    }
  }

  /** A reordering of a listing of the store is still a listing of it: the
      sorted library holds every stored record exactly once. */
  lemma PermutedListing(xs: seq<Story>, ys: seq<Story>, m: map<string, Story>)
    requires Lists(xs, m) && multiset(ys) == multiset(xs)
    ensures Lists(ys, m)
  {
    assert |ys| == |multiset(ys)| == |multiset(xs)| == |xs|;
    forall i | 0 <= i < |ys| ensures ys[i].id in m && m[ys[i].id] == ys[i] {
      assert ys[i] in multiset(xs);
    }
    forall i, j | 0 <= i < j < |ys| ensures ys[i].id != ys[j].id {
      if ys[i].id == ys[j].id {
        assert ys[i] == m[ys[i].id] == ys[j];
        OccursTwice(ys, i, j);
        MultiplicityTwo(xs, ys[i]);
        assert false;
      }
    }
  }

  lemma OccursTwice(ys: seq<Story>, i: nat, j: nat)
    requires i < j < |ys| && ys[i] == ys[j]
    ensures multiset(ys)[ys[i]] >= 2
  {
    assert ys == ys[..i] + [ys[i]] + ys[i + 1..j] + [ys[j]] + ys[j + 1..];
  }

  /** In a listing every record occurs once. */
  lemma MultiplicityTwo(xs: seq<Story>, x: Story)
    requires forall i, j :: 0 <= i < j < |xs| ==> xs[i].id != xs[j].id
    ensures multiset(xs)[x] <= 1
  {
    if xs != [] {
      assert xs == [xs[0]] + xs[1..];
      MultiplicityTwo(xs[1..], x);
      if xs[0] == x {
        assert x !in xs[1..] by {
          forall k | 0 <= k < |xs[1..]| ensures xs[1..][k] != x {
            assert xs[1..][k] == xs[k + 1];
          }
        }
      }
    }
  }

  // ----- filtering -----

  /** The tag button state selects a tag: set, not `'all'`, and not empty. */
  predicate TagSelects(activeTag: Option<string>) {
    activeTag.Some? && activeTag.value != "all" && activeTag.value != ""
  }

  function TagFilter(activeTag: Option<string>): Story -> bool {
    (s: Story) => !TagSelects(activeTag) || activeTag.value in s.tags
  }

  function TitleFilter(term: string): Story -> bool {
    (s: Story) => term == "" || Contains(ToLower(s.title), term)
  }

  /** The records the search box shows: those carrying the selected tag (if
      any) whose lower-cased title contains the lower-cased search term (if
      any). */
  function Shown(activeTag: Option<string>, search: string): Story -> bool {
    (s: Story) =>
      && (TagSelects(activeTag) ==> activeTag.value in s.tags)
      && (search != "" ==> Contains(ToLower(s.title), ToLower(search)))
  }

  /** `handleSearchAndFilter`: the tag filter, then the lower-cased title
      search, each applied only when set. The result keeps the library's
      order, holds a record exactly when it is shown, and holds as many as
      there are positions of shown records, so none is dropped. */
  function FilterStories(xs: seq<Story>, activeTag: Option<string>, search: string): (r: seq<Story>)
    ensures SubsequenceOf(r, xs)
    ensures forall x :: x in r <==>
      && x in xs
      && (TagSelects(activeTag) ==> activeTag.value in x.tags)
      && (search != "" ==> Contains(ToLower(x.title), ToLower(search)))
    ensures |r| == CountIf(xs, Shown(activeTag, search))
  {
    var term := ToLower(search);
    var tf, sf, shown := TagFilter(activeTag), TitleFilter(term), Shown(activeTag, search);
    if TagSelects(activeTag) && term != "" then
      KeepKeep(xs, tf, sf, shown);
      Keep(Keep(xs, tf), sf)
    else if TagSelects(activeTag) then
      KeepSame(xs, tf, shown);
      Keep(xs, tf)
    else if term != "" then
      KeepSame(xs, sf, shown);
      Keep(xs, sf)
    else
      KeepAll(xs, shown);
      xs
  }

  lemma LowerFoo()
    ensures ToLower("foo") == "foo"
    ensures Contains(ToLower("Foo"), "foo") && Contains(ToLower("Foobar"), "foo")
  {
    assert ToLower("Foo") == "foo";
    assert "foo" <= "foo"[0..];
    var fb := ToLower("Foobar");
    assert fb[..3] == "foo";
    assert "foo" <= fb[0..];
  }

  /** Three records tagged a / b / a,b titled Foo / Bar / Foobar: tag "a"
      with search "foo" keeps Foo and Foobar, both of which carry the tag and
      contain the term once lower-cased. */
  lemma FilterExample()
    ensures var foo := Story("story-1", "Foo", "", ["a"], "1");
      var bar := Story("story-2", "Bar", "", ["b"], "2");
      var foobar := Story("story-3", "Foobar", "", ["a", "b"], "3");
      FilterStories([foo, bar, foobar], Some("a"), "foo") == [foo, foobar]
  {
    var foo := Story("story-1", "Foo", "", ["a"], "1");
    var bar := Story("story-2", "Bar", "", ["b"], "2");
    var foobar := Story("story-3", "Foobar", "", ["a", "b"], "3");
    ExampleByTag(foo, bar, foobar);
    ExampleByTitle(foo, foobar);
    assert TagSelects(Some("a")) && ToLower("foo") == "foo" != "";
  }

  lemma ExampleByTag(foo: Story, bar: Story, foobar: Story)
    requires "a" in foo.tags && "a" !in bar.tags && "a" in foobar.tags
    ensures Keep([foo, bar, foobar], TagFilter(Some("a"))) == [foo, foobar]
  {
    var p := TagFilter(Some("a"));
    assert p(foo) && !p(bar) && p(foobar);
    KeepCons(foobar, [], p);
    KeepCons(bar, [foobar], p);
    KeepCons(foo, [bar, foobar], p);
    assert [foo] + [bar, foobar] == [foo, bar, foobar];
    assert [bar] + [foobar] == [bar, foobar];
  }

  lemma ExampleByTitle(foo: Story, foobar: Story)
    requires foo.title == "Foo" && foobar.title == "Foobar"
    ensures Keep([foo, foobar], TitleFilter("foo")) == [foo, foobar]
  {
    LowerFoo();
    var q := TitleFilter("foo");
    assert q(foo) && q(foobar);
    KeepCons(foobar, [], q);
    KeepCons(foo, [foobar], q);
  }

  // ----- tag buttons -----

  /** `allStories.flatMap(story => story.tags || [])` */
  function AllTags(xs: seq<Story>): seq<string> {
    if xs == [] then [] else xs[0].tags + AllTags(xs[1..])
  }

  lemma {:induction false} AllTagsMembership(xs: seq<Story>, t: string)
    ensures t in AllTags(xs) <==> exists i :: 0 <= i < |xs| && t in xs[i].tags
  {
    if xs != [] {
      AllTagsMembership(xs[1..], t);
      if t in AllTags(xs[1..]) {
        var i :| 0 <= i < |xs[1..]| && t in xs[1..][i].tags;
        assert xs[i + 1] == xs[1..][i];
      }
      if exists i :: 0 <= i < |xs| && t in xs[i].tags {
        var i :| 0 <= i < |xs| && t in xs[i].tags;
        if i > 0 { assert xs[1..][i - 1] == xs[i]; }
      }
    }
  }

  /** The position of the first occurrence of `t` in `xs`. */
  function FirstIndex(xs: seq<string>, t: string): (k: nat)
    requires t in xs
    ensures k < |xs| && xs[k] == t
    ensures forall j :: 0 <= j < k ==> xs[j] != t
  {
    if xs[0] == t then 0 else 1 + FirstIndex(xs[1..], t)
  }

  /** `r` lists strings of `xs` in the order of their first occurrences there. */
  predicate InFirstOccurrenceOrder(r: seq<string>, xs: seq<string>) {
    && (forall i :: 0 <= i < |r| ==> r[i] in xs)
    && forall i, j :: 0 <= i < j < |r| ==> FirstIndex(xs, r[i]) < FirstIndex(xs, r[j])
  }

  /** A `Set` built from `xs` iterated in insertion order: each string not in
      `seen` once, ordered by where it first occurs in `xs`. */
  function Distinct(xs: seq<string>, seen: set<string>): (r: seq<string>)
    ensures forall t :: t in r <==> t in xs && t !in seen
    ensures forall i, j :: 0 <= i < j < |r| ==> r[i] != r[j]
    ensures xs != [] && xs[0] !in seen ==> r != [] && r[0] == xs[0]
    ensures InFirstOccurrenceOrder(r, xs)
  {
    if xs == [] then []
    else if xs[0] in seen then
      var rest := Distinct(xs[1..], seen);
      ShiftedOrder(xs, rest);
      rest
    else
      var rest := Distinct(xs[1..], seen + {xs[0]});
      ShiftedOrder(xs, rest);
      HeadThenShifted(xs, rest);
      [xs[0]] + rest
  }

  /** Strings found after the head keep their relative first-occurrence order
      when the head is put back. */
  lemma ShiftedOrder(xs: seq<string>, rest: seq<string>)
    requires xs != [] && forall t :: t in rest ==> t in xs[1..] && t != xs[0]
    requires InFirstOccurrenceOrder(rest, xs[1..])
    ensures InFirstOccurrenceOrder(rest, xs)
  {
    forall t | t in rest ensures t in xs && FirstIndex(xs, t) == 1 + FirstIndex(xs[1..], t) {
      assert xs == [xs[0]] + xs[1..];
    }
  }

  lemma HeadThenShifted(xs: seq<string>, rest: seq<string>)
    requires xs != [] && forall t :: t in rest ==> t in xs[1..] && t != xs[0]
    requires InFirstOccurrenceOrder(rest, xs)
    ensures InFirstOccurrenceOrder([xs[0]] + rest, xs)
  {
    var r := [xs[0]] + rest;
    forall i | 0 <= i < |r| ensures r[i] in xs {
      if i > 0 { assert r[i] == rest[i - 1]; }
    }
    forall i, j | 0 <= i < j < |r| ensures FirstIndex(xs, r[i]) < FirstIndex(xs, r[j]) {
      var b := rest[j - 1];
      assert r[j] == b && b in rest;
      AfterHead(xs, b);
      if i > 0 {
        assert r[i] == rest[i - 1];
      } else {
        assert r[i] == xs[0];
      }
    }
  }

  /** A string other than the head first occurs after it. */
  lemma AfterHead(xs: seq<string>, t: string)
    requires xs != [] && t in xs[1..] && t != xs[0]
    ensures t in xs && FirstIndex(xs, xs[0]) == 0 < FirstIndex(xs, t)
  {
    assert xs == [xs[0]] + xs[1..];
  }

  /** `new Set(['all', ...allStories.flatMap(story => story.tags || [])])` */
  function TagList(xs: seq<Story>): (r: seq<string>)
    ensures |r| >= 1 && r[0] == "all"
  {
    Distinct(["all"] + AllTags(xs), {})
  }

  /** The tag list starts with `'all'`, repeats nothing, and holds exactly
      `'all'` and every tag of every record. */
  lemma TagListSpec(xs: seq<Story>)
    ensures var r := TagList(xs);
      && |r| >= 1 && r[0] == "all"
      && (forall i, j :: 0 <= i < j < |r| ==> r[i] != r[j])
      && InFirstOccurrenceOrder(r, ["all"] + AllTags(xs))
      && forall t :: t in r <==> t == "all" || exists i :: 0 <= i < |xs| && t in xs[i].tags
  {
    forall t ensures t in AllTags(xs) <==> exists i :: 0 <= i < |xs| && t in xs[i].tags {
      AllTagsMembership(xs, t);
    }
  }
}
