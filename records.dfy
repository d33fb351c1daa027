/** The story record and the facts every part of the library shares about a
    collection of records keyed by their `id`. */
module Records {

  datatype Option<+T> = None | Some(value: T)

  /** One library entry. A record read from an archive that lacks `tags` is
      represented with `tags == []`. The tag filter and the tag list treat a
      missing field and an empty list alike; the display and the edit dialog,
      which join the tags, do not (see the README). */
  datatype Story = Story(id: string, title: string, author: string, tags: seq<string>, content: string)

  /** The manifest projection `{id, title, author, tags}` (content left out). */
  datatype Summary = Summary(id: string, title: string, author: string, tags: seq<string>)

  /** The object store's key path is `id`: every record sits under its own id. */
  ghost predicate KeyedById(m: map<string, Story>) {
    forall k :: k in m ==> m[k].id == k
  }

  /** `xs` lists the records of `m`, each exactly once. */
  ghost predicate Lists(xs: seq<Story>, m: map<string, Story>) {
    && |xs| == |m|
    && (forall i :: 0 <= i < |xs| ==> xs[i].id in m && m[xs[i].id] == xs[i])
    && (forall i, j :: 0 <= i < j < |xs| ==> xs[i].id != xs[j].id)
  }

  // ----- order-preserving filtering -----

  /** `s` occurs in `xs` with the relative order kept. */
  predicate SubsequenceOf<T(==)>(s: seq<T>, xs: seq<T>) {
    if s == [] then true
    else if xs == [] then false
    else if s[0] == xs[0] then SubsequenceOf(s[1..], xs[1..])
    else SubsequenceOf(s, xs[1..])
  }

  /** How many elements of `xs` satisfy `p`, counting repeats. */
  function CountIf<T>(xs: seq<T>, p: T -> bool): (n: nat)
    ensures n <= |xs|
  {
    if xs == [] then 0 else (if p(xs[0]) then 1 else 0) + CountIf(xs[1..], p)
  }

  /** `Array.prototype.filter`: an order-preserving subsequence made only of
      elements satisfying `p`, as long as the number of positions of `xs`
      holding one, so every such position is kept. */
  function Keep<T(==,!new)>(xs: seq<T>, p: T -> bool): (r: seq<T>)
    ensures |r| <= |xs|
    ensures forall x :: x in r <==> x in xs && p(x)
    ensures |r| == CountIf(xs, p)
    ensures SubsequenceOf(r, xs)
  {
    if xs == [] then []
    else
      var rest := Keep(xs[1..], p);
      if p(xs[0]) then [xs[0]] + rest
      else
        SkipHead(rest, xs);
        rest
  }

  lemma KeepCons<T(!new)>(x: T, xs: seq<T>, p: T -> bool)
    ensures Keep([x] + xs, p) == if p(x) then [x] + Keep(xs, p) else Keep(xs, p)
  {
    assert ([x] + xs)[1..] == xs;
  }

  lemma {:induction false} KeepSnoc<T(!new)>(xs: seq<T>, x: T, p: T -> bool)
    ensures Keep(xs + [x], p) == Keep(xs, p) + (if p(x) then [x] else [])
  {
    if xs == [] {
      assert [] + [x] == [x];
      KeepCons(x, [], p);
    } else {
      assert (xs + [x])[1..] == xs[1..] + [x];
      KeepSnoc(xs[1..], x, p);
    }
  }

  /** Filtering by two predicates in turn is filtering by their conjunction. */
  lemma {:induction false} KeepKeep<T(!new)>(xs: seq<T>, p: T -> bool, q: T -> bool, pq: T -> bool)
    requires forall x :: pq(x) == (p(x) && q(x))
    ensures Keep(Keep(xs, p), q) == Keep(xs, pq)
  {
    if xs != [] {
      KeepKeep(xs[1..], p, q, pq);
      if p(xs[0]) {
        KeepCons(xs[0], Keep(xs[1..], p), q);
      }
    }
  }

  /** Filters that agree on every element give the same result. */
  lemma {:induction false} KeepSame<T(!new)>(xs: seq<T>, p: T -> bool, q: T -> bool)
    requires forall x :: p(x) == q(x)
    ensures Keep(xs, p) == Keep(xs, q)
  {
    if xs != [] {
      KeepSame(xs[1..], p, q);
    }
  }

  /** Filtering a sequence whose every element passes keeps all of it. */
  lemma {:induction false} KeepAll<T(!new)>(xs: seq<T>, p: T -> bool)
    requires forall i :: 0 <= i < |xs| ==> p(xs[i])
    ensures Keep(xs, p) == xs
  {
    if xs != [] {
      KeepAll(xs[1..], p);
      assert [xs[0]] + xs[1..] == xs;
    }
  }

  lemma {:induction false} SkipHead<T>(s: seq<T>, xs: seq<T>)
    requires xs != [] && SubsequenceOf(s, xs[1..])
    ensures SubsequenceOf(s, xs)
    decreases |xs|, 0
  {
    if s != [] && s[0] == xs[0] {
      SubsequenceTail(s, xs[1..]);
    }
  }

  lemma {:induction false} SubsequenceTail<T>(s: seq<T>, xs: seq<T>)
    requires s != [] && SubsequenceOf(s, xs)
    ensures SubsequenceOf(s[1..], xs)
    decreases |xs|, 1
  {
    if s[0] == xs[0] {
      if s[1..] != [] { SkipHead(s[1..], xs); }
    } else {
      SubsequenceTail(s, xs[1..]);
      SkipHead(s[1..], xs);
    }
  }

  lemma SubsequenceRefl<T>(xs: seq<T>)
    ensures SubsequenceOf(xs, xs)
  {
    if xs != [] { SubsequenceRefl(xs[1..]); }
  }

  lemma {:induction false} SubsequenceTrans<T>(a: seq<T>, b: seq<T>, c: seq<T>)
    requires SubsequenceOf(a, b) && SubsequenceOf(b, c)
    ensures SubsequenceOf(a, c)
    decreases |c|
  {
    if a != [] {
      if b[0] == c[0] {
        if a[0] == b[0] {
          SubsequenceTrans(a[1..], b[1..], c[1..]);
        } else {
          SubsequenceTrans(a, b[1..], c[1..]);
          SkipHead(a, c);
        }
      } else {
        SubsequenceTrans(a, b, c[1..]);
        SkipHead(a, c);
      }
    }
  }

  /** `m` after writing each record of `xs` in turn, each replacing whatever
      was stored under its id. */
  function PutAll(m: map<string, Story>, xs: seq<Story>): (r: map<string, Story>)
    ensures r.Keys == m.Keys + set i | 0 <= i < |xs| :: xs[i].id
    decreases |xs|
  {
    if xs == [] then m else PutAll(m[xs[0].id := xs[0]], xs[1..])
  }

  lemma {:induction false} PutAllKeyed(m: map<string, Story>, xs: seq<Story>)
    requires KeyedById(m)
    ensures KeyedById(PutAll(m, xs))
    decreases |xs|
  {
    if xs != [] {
      PutAllKeyed(m[xs[0].id := xs[0]], xs[1..]);
    }
  }

  /** Writing the records one at a time is writing the prefix and then the next one. */
  lemma {:induction false} PutAllSnoc(m: map<string, Story>, xs: seq<Story>, x: Story)
    ensures PutAll(m, xs + [x]) == PutAll(m, xs)[x.id := x]
    decreases |xs|
  {
    if xs != [] {
      assert (xs + [x])[1..] == xs[1..] + [x];
      PutAllSnoc(m[xs[0].id := xs[0]], xs[1..], x);
    }
  }

  /** Every key either came from `m` or holds the last record written under it. */
  lemma {:induction false} PutAllLast(m: map<string, Story>, xs: seq<Story>, k: string)
    requires k in PutAll(m, xs)
    ensures (exists i :: 0 <= i < |xs| && xs[i].id == k && PutAll(m, xs)[k] == xs[i]
                 && forall j :: i < j < |xs| ==> xs[j].id != k)
         || (k in m && PutAll(m, xs)[k] == m[k] && forall j :: 0 <= j < |xs| ==> xs[j].id != k)
    decreases |xs|
  {
    if xs != [] {
      var m' := m[xs[0].id := xs[0]];
      PutAllLast(m', xs[1..], k);
      if exists i :: 0 <= i < |xs[1..]| && xs[1..][i].id == k && PutAll(m', xs[1..])[k] == xs[1..][i]
                 && forall j :: i < j < |xs[1..]| ==> xs[1..][j].id != k {
        var i :| 0 <= i < |xs[1..]| && xs[1..][i].id == k && PutAll(m', xs[1..])[k] == xs[1..][i]
                 && forall j :: i < j < |xs[1..]| ==> xs[1..][j].id != k;
        assert xs[i + 1].id == k;
      } else if xs[0].id == k {
        assert forall j :: 0 < j < |xs| ==> xs[j].id != k by {
          forall j | 0 < j < |xs| ensures xs[j].id != k {
            assert xs[1..][j - 1] == xs[j];
          }
        }
      } else {
        forall j | 0 <= j < |xs| ensures xs[j].id != k {
          if j > 0 { assert xs[1..][j - 1] == xs[j]; }
        }
      }
    }
  }

  /** Writing every listed record of `m` into an empty store rebuilds `m`:
      the store-level half of the export / replace-import round trip. */
  lemma ListedRebuild(xs: seq<Story>, m: map<string, Story>)
    requires Lists(xs, m)
    ensures PutAll(map[], xs) == m
  {
    var r := PutAll(map[], xs);
    var ids := set i | 0 <= i < |xs| :: xs[i].id;
    assert ids <= m.Keys;
    IdsCardinality(xs);
    SubsetSameSize(ids, m.Keys);
    assert r.Keys == m.Keys;
    forall k | k in r ensures r[k] == m[k] {
      ListedValue(xs, m, k);
    }
    SameEntries(r, m);
  }

  /** Two maps with the same keys and the same value at each key are equal. */
  lemma SameEntries<K, V>(a: map<K, V>, b: map<K, V>)
    requires a.Keys == b.Keys && forall k :: k in a ==> a[k] == b[k]
    ensures a == b
  {
    assert forall k :: k in a <==> k in b;
  }

  lemma ListedValue(xs: seq<Story>, m: map<string, Story>, k: string)
    requires Lists(xs, m) && k in PutAll(map[], xs)
    ensures k in m && PutAll(map[], xs)[k] == m[k]
  {
    PutAllLast(map[], xs, k);
    var i :| 0 <= i < |xs| && xs[i].id == k && PutAll(map[], xs)[k] == xs[i];
  }

  lemma {:induction false} IdsCardinality(xs: seq<Story>)
    requires forall i, j :: 0 <= i < j < |xs| ==> xs[i].id != xs[j].id
    ensures |set i | 0 <= i < |xs| :: xs[i].id| == |xs|
  {
    if xs != [] {
      var n := |xs| - 1;
      IdsCardinality(xs[..n]);
      var front := set i | 0 <= i < n :: xs[..n][i].id;
      var all := set i | 0 <= i < |xs| :: xs[i].id;
      assert front == set i | 0 <= i < n :: xs[i].id by {
        forall i | 0 <= i < n ensures xs[..n][i] == xs[i] { }
      }
      assert all == front + {xs[n].id};
      assert xs[n].id !in front;
    }
  }

  lemma SubsetSameSize<T>(a: set<T>, b: set<T>)
    requires a <= b && |a| == |b|
    ensures a == b
  {
    if a != b {
      assert !(b <= a);
      var x :| x in b && x !in a;
      assert a <= b - {x};
      SubsetNoLarger(a, b - {x});
      assert false;
    }
  }

  lemma SubsetNoLarger<T>(a: set<T>, c: set<T>)
    requires a <= c
    ensures |a| <= |c|
    decreases a
  {
    if a != {} {
      var y :| y in a;
      SubsetNoLarger(a - {y}, c - {y});
    }
  }
}
