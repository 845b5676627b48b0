/** Choosing the commit ranges of a package's releases
    (`get_commit_latest_range` and `get_all_tag_range` in src/git.rs).
    The repository is an abstract value: its tag names, the commit each tag
    peels to, the revision walk from each commit, the commits that can be looked
    up, and whether a commit has a parent. */
module Ranges {
  import opened Wrappers
  import opened SemVer
  import opened Tags

  /** A commit id, as the hexadecimal hash the source formats it to. */
  type CommitId = string

  /** What a commit lookup yields: its message (absent when it is not valid
      UTF-8), its author name (optional) and its time in seconds. */
  datatype CommitData = CommitData(message: Option<string>, author: Option<string>, time: int)

  datatype Repo = Repo(
    tagNames: seq<string>,
    tagTarget: map<string, CommitId>,
    walk: CommitId -> seq<CommitId>,
    commits: map<CommitId, CommitData>,
    hasParent: CommitId -> bool)

  /** The error kinds the core reports. */
  datatype ErrorKind = Git | NoTags

  /** A release: the tag, the commit it points at, and where its history ends. */
  datatype CommitRange = CommitRange(latestTag: string, start: CommitId, end: CommitId)

  /** The tags that start with the package name, in repository order. */
  function WithPrefix(names: seq<string>, prefix: string): seq<string>
  {
    if names == [] then []
    else (if prefix <= names[0] then [names[0]] else []) + WithPrefix(names[1..], prefix)
  }

  /** `WithPrefix` keeps only tags of the input that start with the prefix... */
  lemma {:induction false} WithPrefixMembers(names: seq<string>, prefix: string)
    ensures forall t | t in WithPrefix(names, prefix) :: t in names && prefix <= t
  {
    if names != [] {
      WithPrefixMembers(names[1..], prefix);
    }
  }

  /** ... and keeps every one of them. */
  lemma {:induction false} InWithPrefix(names: seq<string>, prefix: string, t: string)
    requires t in names && prefix <= t
    ensures t in WithPrefix(names, prefix)
  {
    if names[0] != t {
      InWithPrefix(names[1..], prefix, t);
    }
  }

  /** Every tag of the package has an `@`, which `get_version` needs; it holds
      whenever the package name itself has one (see `PrefixWithAt`). */
  predicate Splittable(repo: Repo, packageName: string)
  {
    forall k | 0 <= k < |repo.tagNames| && packageName <= repo.tagNames[k] :: '@' in repo.tagNames[k]
  }

  /** The package's tags that carry a version, oldest version first. */
  function PackageTags(repo: Repo, packageName: string): seq<string>
    requires Splittable(repo, packageName)
  {
    SplittableTags(repo, packageName);
    SortTags(WithPrefix(repo.tagNames, packageName))
  }

  lemma SplittableTags(repo: Repo, packageName: string)
    requires Splittable(repo, packageName)
    ensures forall t | t in WithPrefix(repo.tagNames, packageName) :: '@' in t
  {
    WithPrefixMembers(repo.tagNames, packageName);
    forall t | t in WithPrefix(repo.tagNames, packageName)
      ensures '@' in t
    {
      var k :| 0 <= k < |repo.tagNames| && repo.tagNames[k] == t;
    }
  }

  /** Whether the revision walk from `c` starts with `c` itself, as a revision
      walk pushed at one commit does. */
  predicate WalkStartsAt(repo: Repo, c: CommitId)
  {
    |repo.walk(c)| > 0 && repo.walk(c)[0] == c
  }

  /** `get_commit_latest_range`. With two or more tags the range runs from the
      newest tag to the one before it. With one tag the end is the first commit
      of a revision walk pushed at the start. A tag that does not resolve, or an
      empty walk, is a `Git` error. */
  function GetCommitLatestRange(repo: Repo, packageName: string): (r: Result<CommitRange, ErrorKind>)
    requires Splittable(repo, packageName)
    ensures r.Err? ==> (r.error == NoTags <==> |PackageTags(repo, packageName)| == 0)
    ensures r.Ok? ==> var tags := PackageTags(repo, packageName);
      |tags| >= 1 && r.value.latestTag == tags[|tags| - 1] &&
      r.value.latestTag in repo.tagTarget && r.value.start == repo.tagTarget[r.value.latestTag]
    ensures r.Ok? && |PackageTags(repo, packageName)| >= 2 ==> var tags := PackageTags(repo, packageName);
      tags[|tags| - 2] in repo.tagTarget && r.value.end == repo.tagTarget[tags[|tags| - 2]]
    ensures r.Ok? && |PackageTags(repo, packageName)| == 1 ==>
      |repo.walk(r.value.start)| > 0 && r.value.end == repo.walk(r.value.start)[0]
    ensures var tags := PackageTags(repo, packageName);
      r.Ok? <==> (|tags| >= 1 && tags[|tags| - 1] in repo.tagTarget &&
        (|tags| >= 2 ==> tags[|tags| - 2] in repo.tagTarget) &&
        (|tags| == 1 ==> |repo.walk(repo.tagTarget[tags[0]])| > 0))
  {
    var tags := PackageTags(repo, packageName);
    var len := |tags|;
    if len == 0 then Err(NoTags)
    else if len == 1 then
      if tags[0] !in repo.tagTarget then Err(Git)
      else
        var start := repo.tagTarget[tags[0]];
        var walk := repo.walk(start);
        if |walk| == 0 then Err(Git) else Ok(CommitRange(tags[0], start, walk[0]))
    else
      var start, end := tags[len - 1], tags[len - 2];
      if start !in repo.tagTarget || end !in repo.tagTarget then Err(Git)
      else Ok(CommitRange(start, repo.tagTarget[start], repo.tagTarget[end]))
  }

  /** The ranges `get_all_tag_range` builds from version-sorted tags that all
      resolve: range `i` runs from the `i`-th newest tag to the one before it,
      newest first, so the oldest tag gets no range of its own. */
  function TagRanges(tags: seq<string>, target: map<string, CommitId>): (r: seq<CommitRange>)
    requires |tags| >= 1
    requires forall k | 0 <= k < |tags| :: tags[k] in target
    ensures |r| == |tags| - 1
    ensures |r| > 0 ==> r[0].latestTag == tags[|tags| - 1] && r[|r| - 1].end == target[tags[0]]
    ensures forall i | 0 <= i < |r| - 1 :: r[i].end == r[i + 1].start
    ensures forall i | 0 <= i < |r| :: r[i].latestTag in target && r[i].start == target[r[i].latestTag]
  {
    var n := |tags|;
    seq(n - 1, i requires 0 <= i < n - 1 =>
      CommitRange(tags[n - 1 - i], target[tags[n - 1 - i]], target[tags[n - 2 - i]]))
  }

  /** The loop of `get_all_tag_range`, over the version-sorted tags. With at
      least one tag the body runs only while `len >= 2`, so the source's arms
      for no tag and for one tag are not reached and are not modelled. */
  method RangesOf(tags: seq<string>, target: map<string, CommitId>) returns (r: Result<seq<CommitRange>, ErrorKind>)
    requires |tags| >= 1
    ensures r.Ok? <==> (|tags| == 1 || forall k | 0 <= k < |tags| :: tags[k] in target)
    ensures r.Err? ==> r.error == Git
    ensures r.Ok? && |tags| == 1 ==> r.value == []
    ensures r.Ok? && |tags| >= 2 ==> (forall k | 0 <= k < |tags| :: tags[k] in target) && r.value == TagRanges(tags, target)
  {
    var len := |tags|;
    var crList: seq<CommitRange> := [];
    var index := 0;
    while |crList| < len - 1
      invariant index == |crList| <= len - 1
      invariant forall k | len - index <= k < len :: tags[k] in target
      invariant index > 0 ==> tags[len - 1 - index] in target
      invariant forall i | 0 <= i < index ::
        crList[i] == CommitRange(tags[len - 1 - i], target[tags[len - 1 - i]], target[tags[len - 2 - i]])
    {
      var start, end := tags[len - index - 1], tags[len - index - 2];
      if start !in target || end !in target {
        return Err(Git);
      }
      crList := crList + [CommitRange(start, target[start], target[end])];
      index := index + 1;
    }
    r := Ok(crList);
  }

  /** `get_all_tag_range`. The loop bound `len - 1` is a `usize` subtraction.
      The model follows a build with overflow checks, where it panics for a
      package without tags, so at least one tag is required. (Without overflow
      checks it wraps, and the first pass of the loop returns `NoTags`.) */
  method GetAllTagRange(repo: Repo, packageName: string) returns (r: Result<seq<CommitRange>, ErrorKind>)
    requires Splittable(repo, packageName)
    requires |PackageTags(repo, packageName)| >= 1
    ensures var tags := PackageTags(repo, packageName);
      r.Ok? <==> (|tags| == 1 || forall k | 0 <= k < |tags| :: tags[k] in repo.tagTarget)
    ensures r.Err? ==> r.error == Git
    ensures r.Ok? && |PackageTags(repo, packageName)| == 1 ==> r.value == []
    ensures r.Ok? && |PackageTags(repo, packageName)| >= 2 ==>
      r.value == TagRanges(PackageTags(repo, packageName), repo.tagTarget)
  {
    var tags := PackageTags(repo, packageName);
    r := RangesOf(tags, repo.tagTarget);
  }

  /** A package name that carries the scope's `@` makes every tag of the
      package splittable. */
  lemma PrefixWithAt(repo: Repo, packageName: string)
    requires '@' in packageName
    ensures Splittable(repo, packageName)
  {
    forall k | 0 <= k < |repo.tagNames| && packageName <= repo.tagNames[k]
      ensures '@' in repo.tagNames[k]
    {
      var j :| 0 <= j < |packageName| && packageName[j] == '@';
      assert repo.tagNames[k][j] == '@';
    }
  }

  /** `NoTags` is reported exactly when no tag of the package carries a
      version that parses. */
  lemma NoTagsIffUnversioned(repo: Repo, packageName: string)
    requires Splittable(repo, packageName)
    ensures GetCommitLatestRange(repo, packageName) == Err(NoTags) <==>
      forall t | t in repo.tagNames && packageName <= t :: TagVersion(t).None?
  {
    SplittableTags(repo, packageName);
    EmptyIffUnversioned(WithPrefix(repo.tagNames, packageName));
    NoTagsIffEmpty(repo, packageName);
    PrefixedTags(repo, packageName);
  }

  lemma NoTagsIffEmpty(repo: Repo, packageName: string)
    requires Splittable(repo, packageName)
    ensures GetCommitLatestRange(repo, packageName) == Err(NoTags) <==> |PackageTags(repo, packageName)| == 0
  {
  }

  lemma PrefixedTags(repo: Repo, packageName: string)
    ensures (forall t | t in repo.tagNames && packageName <= t :: TagVersion(t).None?) <==>
      (forall t | t in WithPrefix(repo.tagNames, packageName) :: TagVersion(t).None?)
  {
    WithPrefixMembers(repo.tagNames, packageName);
    forall t | t in repo.tagNames && packageName <= t
      ensures t in WithPrefix(repo.tagNames, packageName)
    {
      InWithPrefix(repo.tagNames, packageName, t);
    }
  }

  /** Sorting leaves no tag exactly when none of them carries a version. */
  lemma EmptyIffUnversioned(names: seq<string>)
    requires forall t | t in names :: '@' in t
    ensures |SortTags(names)| == 0 <==> forall t | t in names :: TagVersion(t).None?
  {
    SortTagsContents(names);
    var tags := SortTags(names);
    if |tags| > 0 {
      assert tags[0] in tags;
    }
  }


  /** Each sorted tag is one of the input tags and carries a version. */
  lemma SortedElement(names: seq<string>, k: int)
    requires forall t | t in names :: '@' in t
    requires 0 <= k < |SortTags(names)|
    ensures SortTags(names)[k] in names && TagVersion(SortTags(names)[k]).Some?
  {
    SortTagsContents(names);
    assert SortTags(names)[k] in SortTags(names);
  }

  /** Every tag with a version is at or below the newest sorted tag. */
  lemma AtMostLast(tags: seq<string>, names: seq<string>, t: string)
    requires forall t | t in names :: '@' in t
    requires tags == SortTags(names) && |tags| >= 1
    requires t in names && TagVersion(t).Some?
    ensures TagVersion(tags[|tags| - 1]).Some?
    ensures Le(TagVersion(t).value, TagVersion(tags[|tags| - 1]).value)
  {
    var n := |tags|;
    SortedMember(names, t);
    SortTagsSorted(names);
    var k :| 0 <= k < n && tags[k] == t;
    if k == n - 1 {
      LeRefl(TagVersion(t).value);
    }
  }

  /** With a release found, the range starts at the package's newest tag: no
      other tag of the package has a higher version. */
  lemma LatestRangeIsNewest(repo: Repo, packageName: string)
    requires Splittable(repo, packageName)
    requires GetCommitLatestRange(repo, packageName).Ok?
    ensures var cr := GetCommitLatestRange(repo, packageName).value;
      cr.latestTag in repo.tagNames && packageName <= cr.latestTag &&
      cr.latestTag in repo.tagTarget && cr.start == repo.tagTarget[cr.latestTag] &&
      TagVersion(cr.latestTag).Some? &&
      forall t | t in repo.tagNames && packageName <= t && TagVersion(t).Some? ::
        Le(TagVersion(t).value, TagVersion(cr.latestTag).value)
  {
    LatestRangeStart(repo, packageName);
    LatestTagMember(repo, packageName);
    LatestTagMax(repo, packageName);
  }

  lemma LatestTagMember(repo: Repo, packageName: string)
    requires Splittable(repo, packageName)
    requires GetCommitLatestRange(repo, packageName).Ok?
    ensures var cr := GetCommitLatestRange(repo, packageName).value;
      cr.latestTag in repo.tagNames && packageName <= cr.latestTag && TagVersion(cr.latestTag).Some?
  {
    LatestRangeStart(repo, packageName);
    SortedTagMember(repo, packageName, |PackageTags(repo, packageName)| - 1);
    WithPrefixMembers(repo.tagNames, packageName);
  }

  lemma LatestTagMax(repo: Repo, packageName: string)
    requires Splittable(repo, packageName)
    requires GetCommitLatestRange(repo, packageName).Ok?
    ensures var cr := GetCommitLatestRange(repo, packageName).value;
      TagVersion(cr.latestTag).Some? &&
      forall t | t in repo.tagNames && packageName <= t && TagVersion(t).Some? ::
        Le(TagVersion(t).value, TagVersion(cr.latestTag).value)
  {
    LatestRangeStart(repo, packageName);
    SortedTagMember(repo, packageName, |PackageTags(repo, packageName)| - 1);
    forall t | t in repo.tagNames && packageName <= t && TagVersion(t).Some?
      ensures Le(TagVersion(t).value, TagVersion(GetCommitLatestRange(repo, packageName).value.latestTag).value)
    {
      InWithPrefix(repo.tagNames, packageName, t);
      LastTagMax(repo, packageName, t);
    }
  }

  /** Where a found range starts: at the newest of the sorted tags. */
  lemma LatestRangeStart(repo: Repo, packageName: string)
    requires Splittable(repo, packageName)
    requires GetCommitLatestRange(repo, packageName).Ok?
    ensures var tags := PackageTags(repo, packageName);
      var cr := GetCommitLatestRange(repo, packageName).value;
      |tags| >= 1 && cr.latestTag == tags[|tags| - 1] &&
      cr.latestTag in repo.tagTarget && cr.start == repo.tagTarget[cr.latestTag]
  {
  }

  /** Where a found range ends when there are two or more tags: at the one
      before the newest. */
  lemma LatestRangeStop(repo: Repo, packageName: string)
    requires Splittable(repo, packageName)
    requires GetCommitLatestRange(repo, packageName).Ok?
    requires |PackageTags(repo, packageName)| >= 2
    ensures var tags := PackageTags(repo, packageName);
      var cr := GetCommitLatestRange(repo, packageName).value;
      tags[|tags| - 2] in repo.tagTarget && cr.end == repo.tagTarget[tags[|tags| - 2]]
  {
  }

  /** Each of the package's sorted tags is a tag of the package with a version. */
  lemma SortedTagMember(repo: Repo, packageName: string, k: int)
    requires Splittable(repo, packageName)
    requires 0 <= k < |PackageTags(repo, packageName)|
    ensures PackageTags(repo, packageName)[k] in WithPrefix(repo.tagNames, packageName)
    ensures TagVersion(PackageTags(repo, packageName)[k]).Some?
  {
    SplittableTags(repo, packageName);
    SortedElement(WithPrefix(repo.tagNames, packageName), k);
  }

  /** The newest sorted tag is at or above every tag of the package. */
  lemma LastTagMax(repo: Repo, packageName: string, t: string)
    requires Splittable(repo, packageName)
    requires |PackageTags(repo, packageName)| >= 1
    requires t in WithPrefix(repo.tagNames, packageName) && TagVersion(t).Some?
    ensures var tags := PackageTags(repo, packageName);
      TagVersion(tags[|tags| - 1]).Some? && Le(TagVersion(t).value, TagVersion(tags[|tags| - 1]).value)
  {
    SplittableTags(repo, packageName);
    AtMostLast(PackageTags(repo, packageName), WithPrefix(repo.tagNames, packageName), t);
  }

  /** A tag that carries a version survives sorting. */
  lemma SortedMember(names: seq<string>, t: string)
    requires forall t | t in names :: '@' in t
    requires t in names && TagVersion(t).Some?
    ensures t in SortTags(names)
  {
    SortTagsContents(names);
  }

  /** Every sorted tag but the newest is at or below the one before the newest. */
  lemma BelowSecond(tags: seq<string>, names: seq<string>, k: int)
    requires forall t | t in names :: '@' in t
    requires tags == SortTags(names) && 0 <= k < |tags| - 1
    ensures TagVersion(tags[k]).Some? && TagVersion(tags[|tags| - 2]).Some?
    ensures Le(TagVersion(tags[k]).value, TagVersion(tags[|tags| - 2]).value)
  {
    SortTagsSorted(names);
    if k == |tags| - 2 {
      LeRefl(TagVersion(tags[k]).value);
    }
  }

  /** With two or more tags, the range ends at the commit of the tag just
      below the newest one, a tag of the package with a version. */
  lemma LatestRangeEnd(repo: Repo, packageName: string)
    requires Splittable(repo, packageName)
    requires GetCommitLatestRange(repo, packageName).Ok?
    requires |PackageTags(repo, packageName)| >= 2
    ensures var tags := PackageTags(repo, packageName);
      var cr := GetCommitLatestRange(repo, packageName).value;
      var prev := tags[|tags| - 2];
      prev in repo.tagTarget && cr.end == repo.tagTarget[prev] &&
      prev in repo.tagNames && packageName <= prev && TagVersion(prev).Some?
  {
    LatestRangeStop(repo, packageName);
    PrevTagMember(repo, packageName);
  }

  /** The range starts at the newest sorted tag, and the tag it ends at is at
      or above every sorted tag before that one. (That it is at or below that one follows
      from `LatestRangeIsNewest`, and that every tag of the package with a
      version is a sorted tag is `PackageTagsComplete`.) */
  lemma LatestRangeEndIsNext(repo: Repo, packageName: string)
    requires Splittable(repo, packageName)
    requires |PackageTags(repo, packageName)| >= 2
    requires GetCommitLatestRange(repo, packageName).Ok?
    ensures var tags := PackageTags(repo, packageName);
      var prev := tags[|tags| - 2];
      TagVersion(prev).Some? &&
      GetCommitLatestRange(repo, packageName).value.latestTag == tags[|tags| - 1] &&
      forall k | 0 <= k < |tags| - 1 ::
        TagVersion(tags[k]).Some? && Le(TagVersion(tags[k]).value, TagVersion(prev).value)
  {
    LatestRangeStart(repo, packageName);
    PrevTagMax(repo, packageName);
  }

  /** Every tag of the package that carries a version is one of the sorted tags. */
  lemma PackageTagsComplete(repo: Repo, packageName: string)
    requires Splittable(repo, packageName)
    ensures forall t | t in repo.tagNames && packageName <= t && TagVersion(t).Some? ::
      t in PackageTags(repo, packageName)
  {
    SplittableTags(repo, packageName);
    forall t | t in repo.tagNames && packageName <= t && TagVersion(t).Some?
      ensures t in PackageTags(repo, packageName)
    {
      InWithPrefix(repo.tagNames, packageName, t);
      SortedMember(WithPrefix(repo.tagNames, packageName), t);
    }
  }

  lemma PrevTagMember(repo: Repo, packageName: string)
    requires Splittable(repo, packageName)
    requires |PackageTags(repo, packageName)| >= 2
    ensures var tags := PackageTags(repo, packageName);
      var prev := tags[|tags| - 2];
      prev in repo.tagNames && packageName <= prev && TagVersion(prev).Some?
  {
    SortedTagMember(repo, packageName, |PackageTags(repo, packageName)| - 2);
    WithPrefixMembers(repo.tagNames, packageName);
  }

  lemma PrevTagMax(repo: Repo, packageName: string)
    requires Splittable(repo, packageName)
    requires |PackageTags(repo, packageName)| >= 2
    ensures var tags := PackageTags(repo, packageName);
      var prev := tags[|tags| - 2];
      TagVersion(prev).Some? &&
      forall k | 0 <= k < |tags| - 1 :: TagVersion(tags[k]).Some? && Le(TagVersion(tags[k]).value, TagVersion(prev).value)
  {
    SplittableTags(repo, packageName);
    AllBelowSecond(PackageTags(repo, packageName), WithPrefix(repo.tagNames, packageName));
  }

  lemma AllBelowSecond(tags: seq<string>, names: seq<string>)
    requires forall t | t in names :: '@' in t
    requires tags == SortTags(names) && |tags| >= 2
    ensures TagVersion(tags[|tags| - 2]).Some?
    ensures forall k | 0 <= k < |tags| - 1 :: TagVersion(tags[k]).Some? && Le(TagVersion(tags[k]).value, TagVersion(tags[|tags| - 2]).value)
  {
    BelowSecond(tags, names, 0);
    forall k | 0 <= k < |tags| - 1
      ensures TagVersion(tags[k]).Some? && Le(TagVersion(tags[k]).value, TagVersion(tags[|tags| - 2]).value)
    {
      BelowSecond(tags, names, k);
    }
  }

  /** The ranges `get_all_tag_range` returns name the package's tags from the
      newest version down. */
  lemma AllRangesNewestFirst(repo: Repo, packageName: string)
    requires Splittable(repo, packageName)
    requires |PackageTags(repo, packageName)| >= 2
    requires forall k | 0 <= k < |PackageTags(repo, packageName)| :: PackageTags(repo, packageName)[k] in repo.tagTarget
    ensures var r := TagRanges(PackageTags(repo, packageName), repo.tagTarget);
      (forall i | 0 <= i < |r| :: r[i].latestTag in repo.tagNames && packageName <= r[i].latestTag) &&
      (forall i | 0 <= i < |r| :: TagVersion(r[i].latestTag).Some?) &&
      (forall i, j | 0 <= i < j < |r| :: Le(TagVersion(r[j].latestTag).value, TagVersion(r[i].latestTag).value))
  {
    var names := WithPrefix(repo.tagNames, packageName);
    var tags := PackageTags(repo, packageName);
    var r := TagRanges(tags, repo.tagTarget);
    SplittableTags(repo, packageName);
    RangeTags(tags, names, repo.tagTarget);
    WithPrefixMembers(repo.tagNames, packageName);
    forall i | 0 <= i < |r|
      ensures r[i].latestTag in repo.tagNames && packageName <= r[i].latestTag
    {
      assert r[i].latestTag in names;
    }
  }

  lemma RangeTags(tags: seq<string>, names: seq<string>, target: map<string, CommitId>)
    requires forall t | t in names :: '@' in t
    requires tags == SortTags(names) && |tags| >= 2
    requires forall k | 0 <= k < |tags| :: tags[k] in target
    ensures var r := TagRanges(tags, target);
      (forall i | 0 <= i < |r| :: r[i].latestTag in names && TagVersion(r[i].latestTag).Some?) &&
      (forall i, j | 0 <= i < j < |r| :: Le(TagVersion(r[j].latestTag).value, TagVersion(r[i].latestTag).value))
  {
    var r := TagRanges(tags, target);
    RangeTagsMembers(tags, names, target);
    SortTagsSorted(names);
    forall i, j | 0 <= i < j < |r|
      ensures Le(TagVersion(r[j].latestTag).value, TagVersion(r[i].latestTag).value)
    {
      RangeAt(tags, target, i);
      RangeAt(tags, target, j);
    }
  }

  lemma RangeTagsMembers(tags: seq<string>, names: seq<string>, target: map<string, CommitId>)
    requires forall t | t in names :: '@' in t
    requires tags == SortTags(names) && |tags| >= 2
    requires forall k | 0 <= k < |tags| :: tags[k] in target
    ensures var r := TagRanges(tags, target);
      forall i | 0 <= i < |r| :: r[i].latestTag in names && TagVersion(r[i].latestTag).Some?
  {
    var n := |tags|;
    var r := TagRanges(tags, target);
    SortTagsContents(names);
    forall i | 0 <= i < |r|
      ensures r[i].latestTag in names && TagVersion(r[i].latestTag).Some?
    {
      RangeAt(tags, target, i);
      assert tags[n - 1 - i] in tags;
    }
  }

  lemma RangeAt(tags: seq<string>, target: map<string, CommitId>, i: int)
    requires |tags| >= 1
    requires forall k | 0 <= k < |tags| :: tags[k] in target
    requires 0 <= i < |tags| - 1
    ensures TagRanges(tags, target)[i].latestTag == tags[|tags| - 1 - i]
  {
  }
}
