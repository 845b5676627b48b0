/** Tag names of the form `<package>@<version>` and their ordering by version
    (`get_version` and `sort_tags` in src/git.rs). */
module Tags {
  import opened Wrappers
  import opened Strings
  import opened SemVer

  /** The two halves `get_version` reads out of a tag. */
  datatype TagAndVersion = TagAndVersion(package: string, version: string)

  /** `get_version`: the version is the last `@`-separated piece of the tag and
      the package is `@` followed by the second piece. A tag without `@` has no
      second piece and the source's `unwrap` panics, hence the precondition. */
  function GetVersion(tag: string): (r: TagAndVersion)
    requires '@' in tag
    ensures |r.package| >= 1 && r.package[0] == '@' && '@' !in r.package[1..]
    ensures '@' !in r.version && |r.version| < |tag|
  {
    var parts := Split(tag, '@');
    SplitCount(tag, '@');
    SplitFree(tag, '@');
    LastPiece(tag, '@');
    assert ("@" + parts[1])[1..] == parts[1];
    TagAndVersion("@" + parts[1], parts[|parts| - 1])
  }

  /** The version is the text after the last `@`, and the package is `@`
      followed by the text between the first `@` and the next one. */
  lemma GetVersionPieces(tag: string)
    requires '@' in tag
    ensures var r := GetVersion(tag);
      IsLastPiece(tag, '@', r.version) && |r.version| < |tag| &&
      |r.package| >= 1 && r.package[0] == '@' && IsSecondPiece(tag, '@', r.package[1..])
  {
    var parts := Split(tag, '@');
    LastPiece(tag, '@');
    SecondPiece(tag, '@');
    assert GetVersion(tag).package[1..] == parts[1];
  }

  /** A scoped package tag `@<scope>@<version>` splits back into its package
      `@<scope>` and its version, when neither part holds another `@`. */
  lemma GetVersionOfTag(scope: string, version: string)
    requires '@' !in scope && '@' !in version
    ensures '@' in "@" + scope + "@" + version
    ensures GetVersion("@" + scope + "@" + version) == TagAndVersion("@" + scope, version)
  {
    var tag := "@" + scope + "@" + version;
    var parts := ["", scope, version];
    assert Join(parts[2..], "@") == version;
    assert Join(parts[1..], "@") == scope + "@" + version;
    assert Join(parts, "@") == tag;
    assert forall k | 0 <= k < 3 :: '@' !in parts[k];
    assert "@" == ['@'];
    SplitJoin(parts, '@');
    assert tag[0] == '@';
  }

  /** The version a tag carries, when its last piece parses. */
  function TagVersion(tag: string): Option<Version>
  {
    if '@' in tag then Parse(GetVersion(tag).version) else None
  }

  /** A tag with the version parsed from it, the pairs `sort_tags` sorts. */
  type Tagged = (string, Version)

  /** The `filter_map` step of `sort_tags`: each tag whose version parses, paired
      with that version, in input order. */
  function Versioned(tags: seq<string>): (r: seq<Tagged>)
    ensures |r| <= |tags|
  {
    if tags == [] then []
    else
      var v := TagVersion(tags[0]);
      (if v.Some? then [(tags[0], v.value)] else []) + Versioned(tags[1..])
  }

  /** The tags of a list of pairs (the final `map` of `sort_tags`). */
  function Names(ps: seq<Tagged>): (r: seq<string>)
    ensures |r| == |ps|
  {
    if ps == [] then [] else [ps[0].0] + Names(ps[1..])
  }

  lemma {:induction false} NamesAt(ps: seq<Tagged>)
    ensures forall k | 0 <= k < |ps| :: Names(ps)[k] == ps[k].0
  {
    if ps != [] {
      NamesAt(ps[1..]);
    }
  }

  /** Inserts `p` into a version-sorted list ahead of the first entry it does not
      rank above, so that it lands before the entries of equal precedence. */
  function InsertByVersion(p: Tagged, ps: seq<Tagged>): (r: seq<Tagged>)
    ensures multiset(r) == multiset(ps) + multiset{p}
  {
    if ps == [] then [p]
    else if Le(p.1, ps[0].1) then [p] + ps
    else
      assert ps == [ps[0]] + ps[1..];
      [ps[0]] + InsertByVersion(p, ps[1..])
  }

  /** A stable sort by version (Rust's `sort_by` is stable). */
  function SortByVersion(ps: seq<Tagged>): (r: seq<Tagged>)
    ensures multiset(r) == multiset(ps)
  {
    if ps == [] then []
    else
      assert ps == [ps[0]] + ps[1..];
      InsertByVersion(ps[0], SortByVersion(ps[1..]))
  }

  /** `sort_tags`: the tags whose version parses, ascending by version precedence.
      Every tag must contain `@`, since `get_version` is applied to each. */
  function SortTags(tags: seq<string>): (r: seq<string>)
    requires forall t | t in tags :: '@' in t
    ensures |r| <= |tags|
  {
    var sorted := SortByVersion(Versioned(tags));
    assert |sorted| == |multiset(sorted)| == |Versioned(tags)|;
    Names(sorted)
  }

  ghost predicate Sorted(ps: seq<Tagged>)
  {
    forall i, j | 0 <= i < j < |ps| :: Le(ps[i].1, ps[j].1)
  }

  /** The pairs of `ps` whose version has the precedence of `v`, in order. */
  function WithPrecedence(ps: seq<Tagged>, v: Version): seq<Tagged>
  {
    if ps == [] then []
    else (if SamePrecedence(ps[0].1, v) then [ps[0]] else []) + WithPrecedence(ps[1..], v)
  }

  /** The tags of `tags` whose version parses to the precedence of `v`, in order. */
  function TagsWithPrecedence(tags: seq<string>, v: Version): seq<string>
  {
    if tags == [] then []
    else
      var w := TagVersion(tags[0]);
      (if w.Some? && SamePrecedence(w.value, v) then [tags[0]] else []) + TagsWithPrecedence(tags[1..], v)
  }

  // ---------------------------------------------------------------------------

  /** Each pair holds the version its tag parses to. */
  ghost predicate Consistent(ps: seq<Tagged>)
  {
    forall k | 0 <= k < |ps| :: TagVersion(ps[k].0) == Some(ps[k].1)
  }

  lemma {:induction false} VersionedPairs(tags: seq<string>)
    ensures Consistent(Versioned(tags))
  {
    if tags != [] {
      VersionedPairs(tags[1..]);
      var v := TagVersion(tags[0]);
      var head: seq<Tagged> := if v.Some? then [(tags[0], v.value)] else [];
      assert Versioned(tags) == head + Versioned(tags[1..]);
    }
  }

  lemma {:induction false} VersionedCount(tags: seq<string>, t: string)
    ensures multiset(Names(Versioned(tags)))[t] == if TagVersion(t).Some? then multiset(tags)[t] else 0
  {
    if tags != [] {
      VersionedCount(tags[1..], t);
      VersionedCons(tags);
      var head := if TagVersion(tags[0]).Some? then [tags[0]] else [];
      assert multiset(Names(Versioned(tags))) == multiset(head) + multiset(Names(Versioned(tags[1..])));
      assert tags == [tags[0]] + tags[1..];
      assert multiset(tags) == multiset([tags[0]]) + multiset(tags[1..]);
    }
  }

  lemma VersionedCons(tags: seq<string>)
    requires tags != []
    ensures Names(Versioned(tags)) ==
      (if TagVersion(tags[0]).Some? then [tags[0]] else []) + Names(Versioned(tags[1..]))
  {
    var v := TagVersion(tags[0]);
    var head: seq<Tagged> := if v.Some? then [(tags[0], v.value)] else [];
    assert Versioned(tags) == head + Versioned(tags[1..]);
    NamesAppend(head, Versioned(tags[1..]));
  }

  lemma {:induction false} NamesAppend(a: seq<Tagged>, b: seq<Tagged>)
    ensures Names(a + b) == Names(a) + Names(b)
  {
    if a == [] {
      assert a + b == b;
    } else {
      assert (a + b)[0] == a[0];
      assert (a + b)[1..] == a[1..] + b;
      NamesAppend(a[1..], b);
    }
  }

  /** Reordering pairs reorders their tags the same way. */
  lemma {:induction false} InsertNames(p: Tagged, ps: seq<Tagged>)
    ensures multiset(Names(InsertByVersion(p, ps))) == multiset(Names(ps)) + multiset{p.0}
  {
    if ps != [] {
      assert ps == [ps[0]] + ps[1..];
      NamesAppend([ps[0]], ps[1..]);
      if Le(p.1, ps[0].1) {
        NamesAppend([p], ps);
      } else {
        InsertNames(p, ps[1..]);
        NamesAppend([ps[0]], InsertByVersion(p, ps[1..]));
      }
    }
  }

  lemma {:induction false} SortNames(ps: seq<Tagged>)
    ensures multiset(Names(SortByVersion(ps))) == multiset(Names(ps))
  {
    if ps != [] {
      var sorted := SortByVersion(ps[1..]);
      assert SortByVersion(ps) == InsertByVersion(ps[0], sorted);
      SortNames(ps[1..]);
      InsertNames(ps[0], sorted);
      assert Names(ps) == [ps[0].0] + Names(ps[1..]);
    }
  }

  lemma {:induction false} WithPrecedenceAppend(a: seq<Tagged>, b: seq<Tagged>, v: Version)
    ensures WithPrecedence(a + b, v) == WithPrecedence(a, v) + WithPrecedence(b, v)
  {
    if a == [] {
      assert a + b == b;
    } else {
      assert (a + b)[0] == a[0];
      assert (a + b)[1..] == a[1..] + b;
      WithPrecedenceAppend(a[1..], b, v);
    }
  }

  lemma {:induction false} InsertSorted(p: Tagged, ps: seq<Tagged>)
    requires Sorted(ps)
    ensures Sorted(InsertByVersion(p, ps))
  {
    if ps == [] {
      assert InsertByVersion(p, ps) == [p];
    } else if Le(p.1, ps[0].1) {
      forall k | 0 <= k < |ps|
        ensures Le(p.1, ps[k].1)
      {
        if k > 0 {
          LeTrans(p.1, ps[0].1, ps[k].1);
        }
      }
      SortedCons(p, ps);
    } else {
      LeTotal(p.1, ps[0].1);
      InsertSorted(p, ps[1..]);
      InsertAbove(ps[0], p, ps[1..]);
      SortedCons(ps[0], InsertByVersion(p, ps[1..]));
    }
  }

  /** An entry at or below every entry of a sorted sequence can go in front. */
  lemma SortedCons(q: Tagged, qs: seq<Tagged>)
    requires Sorted(qs)
    requires forall k | 0 <= k < |qs| :: Le(q.1, qs[k].1)
    ensures Sorted([q] + qs)
  {
    var r := [q] + qs;
    forall i, j | 0 <= i < j < |r|
      ensures Le(r[i].1, r[j].1)
    {
      assert r[j] == qs[j - 1];
      if i > 0 {
        assert r[i] == qs[i - 1];
      }
    }
  }

  /** Inserting an entry at or above `q` into entries at or above `q` keeps
      them all at or above `q`. */
  lemma InsertAbove(q: Tagged, p: Tagged, qs: seq<Tagged>)
    requires Le(q.1, p.1)
    requires forall k | 0 <= k < |qs| :: Le(q.1, qs[k].1)
    ensures forall j | 0 <= j < |InsertByVersion(p, qs)| :: Le(q.1, InsertByVersion(p, qs)[j].1)
  {
    var rest := InsertByVersion(p, qs);
    forall j | 0 <= j < |rest|
      ensures Le(q.1, rest[j].1)
    {
      assert rest[j] in multiset(rest);
      if rest[j] != p {
        assert rest[j] in multiset(qs);
        var k :| 0 <= k < |qs| && qs[k] == rest[j];
      }
    }
  }

  lemma {:induction false} SortSorted(ps: seq<Tagged>)
    ensures Sorted(SortByVersion(ps))
  {
    if ps != [] {
      SortSorted(ps[1..]);
      InsertSorted(ps[0], SortByVersion(ps[1..]));
    }
  }

  /** Two entries of different precedence cannot both have the precedence of `v`. */
  lemma SwapSingles(p: Tagged, q: Tagged, v: Version)
    requires Compare(q.1, p.1) == Less
    ensures WithPrecedence([q], v) + WithPrecedence([p], v) == WithPrecedence([p], v) + WithPrecedence([q], v)
  {
    CompareEqual(q.1, p.1);
    if SamePrecedence(p.1, v) {
      assert !SamePrecedence(q.1, v);
      assert WithPrecedence([q], v) == [];
    } else {
      assert WithPrecedence([p], v) == [];
    }
  }

  /** Inserting `p` puts it in front of the entries of its own precedence. */
  lemma {:induction false} InsertStable(p: Tagged, ps: seq<Tagged>, v: Version)
    requires Sorted(ps)
    ensures WithPrecedence(InsertByVersion(p, ps), v) == WithPrecedence([p], v) + WithPrecedence(ps, v)
  {
    if ps == [] {
      assert WithPrecedence([], v) == [];
    } else if Le(p.1, ps[0].1) {
      assert InsertByVersion(p, ps) == [p] + ps;
      WithPrecedenceAppend([p], ps, v);
    } else {
      var q, rest := ps[0], InsertByVersion(p, ps[1..]);
      assert InsertByVersion(p, ps) == [q] + rest;
      assert Sorted(ps[1..]);
      InsertStable(p, ps[1..], v);
      WithPrecedenceAppend([q], rest, v);
      WithPrecedenceAppend([q], ps[1..], v);
      assert ps == [q] + ps[1..];
      CompareFlip(p.1, q.1);
      SwapSingles(p, q, v);
    }
  }

  lemma {:induction false} SortStable(ps: seq<Tagged>, v: Version)
    ensures WithPrecedence(SortByVersion(ps), v) == WithPrecedence(ps, v)
  {
    if ps != [] {
      SortStep(ps, v);
      SortStable(ps[1..], v);
      WithPrecedenceAppend([ps[0]], ps[1..], v);
      assert ps == [ps[0]] + ps[1..];
    }
  }

  /** One step of the insertion sort keeps the first entry ahead of the later
      entries of its precedence. */
  lemma SortStep(ps: seq<Tagged>, v: Version)
    requires ps != []
    ensures WithPrecedence(SortByVersion(ps), v) == WithPrecedence([ps[0]], v) + WithPrecedence(SortByVersion(ps[1..]), v)
  {
    SortSorted(ps[1..]);
    InsertStable(ps[0], SortByVersion(ps[1..]), v);
  }

  lemma {:induction false} WithPrecedenceNames(tags: seq<string>, v: Version)
    ensures Names(WithPrecedence(Versioned(tags), v)) == TagsWithPrecedence(tags, v)
  {
    if tags != [] {
      var w := TagVersion(tags[0]);
      var head: seq<Tagged> := if w.Some? then [(tags[0], w.value)] else [];
      WithPrecedenceAppend(head, Versioned(tags[1..]), v);
      NamesAppend(WithPrecedence(head, v), WithPrecedence(Versioned(tags[1..]), v));
      WithPrecedenceNames(tags[1..], v);
    }
  }

  lemma {:induction false} NamesWithPrecedence(ps: seq<Tagged>, v: Version)
    requires Consistent(ps)
    ensures TagsWithPrecedence(Names(ps), v) == Names(WithPrecedence(ps, v))
  {
    if ps != [] {
      assert Names(ps)[1..] == Names(ps[1..]);
      NamesWithPrecedence(ps[1..], v);
      var head: seq<Tagged> := if SamePrecedence(ps[0].1, v) then [ps[0]] else [];
      NamesAppend(head, WithPrecedence(ps[1..], v));
    }
  }

  lemma SortedConsistent(tags: seq<string>)
    ensures Consistent(SortByVersion(Versioned(tags)))
  {
    var ps := Versioned(tags);
    var r := SortByVersion(ps);
    VersionedPairs(tags);
    forall k | 0 <= k < |r|
      ensures TagVersion(r[k].0) == Some(r[k].1)
    {
      PairFrom(ps, r, k);
    }
  }

  lemma PairFrom(ps: seq<Tagged>, r: seq<Tagged>, k: int)
    requires Consistent(ps) && multiset(r) == multiset(ps) && 0 <= k < |r|
    ensures TagVersion(r[k].0) == Some(r[k].1)
  {
    assert r[k] in multiset(ps);
    var j :| 0 <= j < |ps| && ps[j] == r[k];
  }

  // ---------------------------------------------------------------------------
  // What `sort_tags` promises

  /** The output holds exactly the input tags whose version parses, each as often
      as in the input; so it is a sub-multiset of the input and invents nothing. */
  lemma SortTagsContents(tags: seq<string>)
    requires forall t | t in tags :: '@' in t
    ensures forall t :: multiset(SortTags(tags))[t] == if TagVersion(t).Some? then multiset(tags)[t] else 0
    ensures multiset(SortTags(tags)) <= multiset(tags)
    ensures forall t :: t in SortTags(tags) <==> t in tags && TagVersion(t).Some?
  {
    SortTagsCount(tags);
    var r := SortTags(tags);
    forall t
      ensures t in r <==> t in tags && TagVersion(t).Some?
    {
      assert t in r <==> t in multiset(r);
      assert t in tags <==> t in multiset(tags);
    }
  }

  lemma SortTagsCount(tags: seq<string>)
    requires forall t | t in tags :: '@' in t
    ensures forall t :: multiset(SortTags(tags))[t] == if TagVersion(t).Some? then multiset(tags)[t] else 0
  {
    SortNames(Versioned(tags));
    forall t
      ensures multiset(SortTags(tags))[t] == if TagVersion(t).Some? then multiset(tags)[t] else 0
    {
      VersionedCount(tags, t);
    }
  }

  /** Every output tag has a version, and the output is non-decreasing in version precedence. */
  lemma SortTagsSorted(tags: seq<string>)
    requires forall t | t in tags :: '@' in t
    ensures forall k | 0 <= k < |SortTags(tags)| :: TagVersion(SortTags(tags)[k]).Some?
    ensures forall i, j | 0 <= i < j < |SortTags(tags)| ::
      Le(TagVersion(SortTags(tags)[i]).value, TagVersion(SortTags(tags)[j]).value)
  {
    SortSorted(Versioned(tags));
    SortedConsistent(tags);
    NamesAt(SortByVersion(Versioned(tags)));
  }

  /** The sort is stable: the tags of any one precedence keep their input order. */
  lemma SortTagsStable(tags: seq<string>, v: Version)
    requires forall t | t in tags :: '@' in t
    ensures TagsWithPrecedence(SortTags(tags), v) == TagsWithPrecedence(tags, v)
  {
    var ps := Versioned(tags);
    SortedConsistent(tags);
    NamesWithPrecedence(SortByVersion(ps), v);
    SortStable(ps, v);
    WithPrecedenceNames(tags, v);
  }
}
