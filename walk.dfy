/** Collecting the commits of a release by walking the history from its start
    commit (`latest_commits` and `full_commits` in src/git.rs). */
module Walk {
  import opened Wrappers
  import opened Tags
  import opened Ranges

  /** A commit as the changelog sees it: its message, its hash, its author's
      name if it has one, and its time in seconds. */
  datatype Commit = Commit(message: string, hash: CommitId, author: Option<string>, datetime: int)

  /** The commits of one release, under the tag that starts it. */
  datatype TagAndCommit = TagAndCommit(tag: string, commitList: seq<Commit>)

  /** The ids of a walk that name a commit that can be looked up; the others
      are skipped without an error. */
  function Findable(ids: seq<CommitId>, commits: map<CommitId, CommitData>): (r: seq<CommitId>)
    ensures forall k | 0 <= k < |r| :: r[k] in commits
    ensures |r| <= |ids|
  {
    if ids == [] then []
    else (if ids[0] in commits then [ids[0]] else []) + Findable(ids[1..], commits)
  }

  lemma {:induction false} FindableFrom(ids: seq<CommitId>, commits: map<CommitId, CommitData>)
    ensures forall id | id in Findable(ids, commits) :: id in ids
  {
    if ids != [] {
      FindableFrom(ids[1..], commits);
    }
  }

  /** The walk cut just before the first occurrence of `end`. */
  function TakeUntil(ids: seq<CommitId>, end: CommitId): (r: seq<CommitId>)
    ensures r <= ids
    ensures end !in r
    ensures |r| < |ids| ==> ids[|r|] == end
  {
    if ids == [] || ids[0] == end then [] else [ids[0]] + TakeUntil(ids[1..], end)
  }

  /** The ids the loop keeps for a range: the walk stops before `end` unless
      `end` is a root commit, in which case the whole walk is kept. */
  function Walked(repo: Repo, cr: CommitRange): (r: seq<CommitId>)
    ensures r <= Findable(repo.walk(cr.start), repo.commits)
    ensures repo.hasParent(cr.end) ==> cr.end !in r
  {
    var ids := Findable(repo.walk(cr.start), repo.commits);
    if repo.hasParent(cr.end) then TakeUntil(ids, cr.end) else ids
  }

  function ToCommit(id: CommitId, data: CommitData): Commit
    requires data.message.Some?
  {
    Commit(data.message.value, id, data.author, data.time)
  }

  /** The commits for the kept ids; a message that cannot be read fails the
      whole walk. */
  function CommitsOf(commits: map<CommitId, CommitData>, ids: seq<CommitId>): Result<seq<Commit>, ErrorKind>
    requires forall k | 0 <= k < |ids| :: ids[k] in commits
  {
    if forall k | 0 <= k < |ids| :: commits[ids[k]].message.Some? then
      Ok(seq(|ids|, k requires 0 <= k < |ids| => ToCommit(ids[k], commits[ids[k]])))
    else Err(Git)
  }

  function RangeCommits(repo: Repo, cr: CommitRange): (r: Result<seq<Commit>, ErrorKind>)
    ensures r.Ok? ==> |r.value| == |Walked(repo, cr)|
    ensures r.Ok? ==> forall k | 0 <= k < |r.value| :: r.value[k].hash == Walked(repo, cr)[k]
    ensures r.Err? ==> r.error == Git
    ensures r.Ok? <==> forall k | 0 <= k < |Walked(repo, cr)| :: repo.commits[Walked(repo, cr)[k]].message.Some?
    ensures r.Ok? ==> forall k | 0 <= k < |r.value| ::
      r.value[k] == ToCommit(Walked(repo, cr)[k], repo.commits[Walked(repo, cr)[k]])
  {
    CommitsOf(repo.commits, Walked(repo, cr))
  }

  /** The loop shared by `latest_commits` and `full_commits`. */
  method WalkRange(repo: Repo, cr: CommitRange) returns (r: Result<seq<Commit>, ErrorKind>)
    ensures r == RangeCommits(repo, cr)
  {
    var endIsFirstCommit := !repo.hasParent(cr.end);
    var walk := repo.walk(cr.start);
    var commits: seq<Commit> := [];
    var i := 0;
    ghost var kept: seq<CommitId> := [];
    assert walk[..0] == [];
    assert |CommitsOf(repo.commits, []).value| == 0;
    while i < |walk|
      invariant 0 <= i <= |walk|
      invariant kept == Findable(walk[..i], repo.commits)
      invariant !endIsFirstCommit ==> cr.end !in kept
      invariant CommitsOf(repo.commits, kept) == Ok(commits)
    {
      var id := walk[i];
      FindableSplit(walk, i, repo.commits);
      if id in repo.commits {
        if cr.end == id && !endIsFirstCommit {
          StopAtEnd(repo, cr, i, kept);
          return Ok(commits);
        }
        var data := repo.commits[id];
        if data.message.None? {
          UnreadableAt(repo, cr, i, kept);
          return Err(Git);
        }
        CommitsOfSnoc(repo.commits, kept, commits, id);
        commits := commits + [Commit(data.message.value, id, data.author, data.time)];
        kept := kept + [id];
      }
      i := i + 1;
    }
    assert walk[..i] == walk;
    if !endIsFirstCommit {
      TakeUntilAbsent(kept, cr.end);
    }
    r := Ok(commits);
  }

  /** Meeting the end commit, when it has a parent, ends the walk with the
      ids kept so far. */
  lemma StopAtEnd(repo: Repo, cr: CommitRange, i: int, kept: seq<CommitId>)
    requires 0 <= i < |repo.walk(cr.start)| && repo.walk(cr.start)[i] == cr.end
    requires cr.end in repo.commits && repo.hasParent(cr.end)
    requires kept == Findable(repo.walk(cr.start)[..i], repo.commits) && cr.end !in kept
    ensures Walked(repo, cr) == kept
  {
    var walk := repo.walk(cr.start);
    var after := Findable(walk[i..], repo.commits);
    FindableSplit(walk, i, repo.commits);
    TakeUntilAppend(kept, after, cr.end);
    assert after[0] == cr.end;
    assert TakeUntil(after, cr.end) == [];
    assert kept + [] == kept;
  }

  /** A kept commit whose message cannot be read fails the walk. */
  lemma UnreadableAt(repo: Repo, cr: CommitRange, i: int, kept: seq<CommitId>)
    requires 0 <= i < |repo.walk(cr.start)|
    requires repo.walk(cr.start)[i] in repo.commits && repo.commits[repo.walk(cr.start)[i]].message.None?
    requires repo.hasParent(cr.end) ==> repo.walk(cr.start)[i] != cr.end && cr.end !in kept
    requires kept == Findable(repo.walk(cr.start)[..i], repo.commits)
    ensures RangeCommits(repo, cr) == Err(Git)
  {
    var walk := repo.walk(cr.start);
    var id := walk[i];
    var after := Findable(walk[i + 1..], repo.commits);
    FindableSplit(walk, i, repo.commits);
    assert Findable(walk, repo.commits) == (kept + [id]) + after;
    if repo.hasParent(cr.end) {
      TakeUntilAppend(kept + [id], after, cr.end);
    }
    assert Walked(repo, cr)[|kept|] == id;
  }

  /** What `latest_commits` yields: the newest tag of the package with the
      commits of its release, newest first. */
  function LatestCommitsOf(repo: Repo, packageName: string): Result<(string, seq<Commit>), ErrorKind>
    requires Splittable(repo, packageName)
  {
    match GetCommitLatestRange(repo, packageName)
    case Err(e) => Err(e)
    case Ok(cr) =>
      match RangeCommits(repo, cr)
      case Err(e) => Err(e)
      case Ok(cs) => Ok((cr.latestTag, cs))
  }

  /** `latest_commits`: the latest range, then the walk over it. */
  method LatestCommits(repo: Repo, packageName: string) returns (r: Result<(string, seq<Commit>), ErrorKind>)
    requires Splittable(repo, packageName)
    ensures r == LatestCommitsOf(repo, packageName)
  {
    var range := GetCommitLatestRange(repo, packageName);
    if range.Err? {
      return Err(range.error);
    }
    var commits := WalkRange(repo, range.value);
    if commits.Err? {
      return Err(commits.error);
    }
    r := Ok((range.value.latestTag, commits.value));
  }

  /** The commits of each range, in the order of the ranges; any walk that
      fails fails the whole list. */
  function CommitsPerRange(repo: Repo, crs: seq<CommitRange>): Result<seq<TagAndCommit>, ErrorKind>
  {
    if forall i | 0 <= i < |crs| :: RangeCommits(repo, crs[i]).Ok? then
      Ok(seq(|crs|, i requires 0 <= i < |crs| => TagAndCommit(crs[i].latestTag, RangeCommits(repo, crs[i]).value)))
    else Err(Git)
  }

  /** The loop of `full_commits` over the ranges of `get_all_tag_range`. */
  method WalkRanges(repo: Repo, crs: seq<CommitRange>) returns (r: Result<seq<TagAndCommit>, ErrorKind>)
    ensures r == CommitsPerRange(repo, crs)
  {
    var commitList: seq<TagAndCommit> := [];
    var index := 0;
    while index < |crs|
      invariant 0 <= index <= |crs| && |commitList| == index
      invariant forall j | 0 <= j < index ::
        RangeCommits(repo, crs[j]).Ok? && commitList[j] == TagAndCommit(crs[j].latestTag, RangeCommits(repo, crs[j]).value)
    {
      var cr := crs[index];
      var commits := WalkRange(repo, cr);
      if commits.Err? {
        assert commits.error == Git;
        return Err(commits.error);
      }
      commitList := commitList + [TagAndCommit(cr.latestTag, commits.value)];
      index := index + 1;
    }
    assert CommitsPerRange(repo, crs).value == commitList;
    r := Ok(commitList);
  }

  /** `full_commits`: every range of the package, newest first, each with the
      commits of its release. */
  method FullCommits(repo: Repo, packageName: string) returns (r: Result<seq<TagAndCommit>, ErrorKind>)
    requires Splittable(repo, packageName)
    requires |PackageTags(repo, packageName)| >= 1
    ensures var tags := PackageTags(repo, packageName);
      |tags| >= 2 && (exists k | 0 <= k < |tags| :: tags[k] !in repo.tagTarget) ==> r == Err(Git)
    ensures |PackageTags(repo, packageName)| == 1 ==> r == Ok([])
    ensures var tags := PackageTags(repo, packageName);
      |tags| >= 2 && (forall k | 0 <= k < |tags| :: tags[k] in repo.tagTarget) ==>
        r == CommitsPerRange(repo, TagRanges(tags, repo.tagTarget))
  {
    var ranges := GetAllTagRange(repo, packageName);
    if ranges.Err? {
      return Err(ranges.error);
    }
    assert |CommitsPerRange(repo, []).value| == 0;
    r := WalkRanges(repo, ranges.value);
  }

  /** The walk-termination rule, on the commits a range yields: they follow
      the walk (less the commits that cannot be looked up) in order; when the
      end commit has a parent they stop just before it and never include it;
      when it has none, or never occurs, nothing is cut. */
  lemma WalkCut(repo: Repo, cr: CommitRange)
    requires RangeCommits(repo, cr).Ok?
    ensures var cs := RangeCommits(repo, cr).value;
      var ids := Findable(repo.walk(cr.start), repo.commits);
      |cs| <= |ids| &&
      (forall k | 0 <= k < |cs| :: cs[k].hash == ids[k] && cs[k].hash in repo.walk(cr.start)) &&
      (repo.hasParent(cr.end) ==> (forall k | 0 <= k < |cs| :: cs[k].hash != cr.end) && (|cs| < |ids| ==> ids[|cs|] == cr.end)) &&
      (!repo.hasParent(cr.end) ==> |cs| == |ids|) &&
      (cr.end !in ids ==> |cs| == |ids|)
  {
    var cs := RangeCommits(repo, cr).value;
    var ids := Findable(repo.walk(cr.start), repo.commits);
    var kept := Walked(repo, cr);
    assert |cs| == |kept|;
    assert forall k | 0 <= k < |cs| :: cs[k].hash == kept[k];
    assert kept <= ids;
    if cr.end !in ids && repo.hasParent(cr.end) {
      TakeUntilAbsent(ids, cr.end);
    }
    FindableFrom(repo.walk(cr.start), repo.commits);
    forall k | 0 <= k < |cs|
      ensures cs[k].hash == ids[k] && cs[k].hash in repo.walk(cr.start)
    {
      assert ids[k] in ids;
    }
    if repo.hasParent(cr.end) {
      forall k | 0 <= k < |cs|
        ensures cs[k].hash != cr.end
      {
        assert kept[k] in kept;
      }
    }
  }

  /** The other side of the asymmetry: a root end commit that the walk reaches
      and that can be looked up is itself one of the release's commits. */
  lemma RootEndIncluded(repo: Repo, cr: CommitRange)
    requires RangeCommits(repo, cr).Ok?
    requires !repo.hasParent(cr.end) && cr.end in repo.walk(cr.start) && cr.end in repo.commits
    ensures exists k | 0 <= k < |RangeCommits(repo, cr).value| :: RangeCommits(repo, cr).value[k].hash == cr.end
  {
    var ids := Findable(repo.walk(cr.start), repo.commits);
    FindableKeeps(repo.walk(cr.start), repo.commits, cr.end);
    var k :| 0 <= k < |ids| && ids[k] == cr.end;
    assert RangeCommits(repo, cr).value[k].hash == cr.end;
  }

  /** A commit of the walk that can be looked up is kept by `Findable`. */
  lemma {:induction false} FindableKeeps(ids: seq<CommitId>, commits: map<CommitId, CommitData>, id: CommitId)
    requires id in ids && id in commits
    ensures id in Findable(ids, commits)
  {
    if ids[0] != id {
      FindableKeeps(ids[1..], commits, id);
    }
  }

  /** Commit reading only fails with `Git`, so `latest_commits` reports
      `NoTags` exactly when no tag of the package carries a version. */
  lemma LatestCommitsNoTags(repo: Repo, packageName: string)
    requires Splittable(repo, packageName)
    ensures LatestCommitsOf(repo, packageName) == Err(NoTags) <==>
      forall t | t in repo.tagNames && packageName <= t :: TagVersion(t).None?
  {
    NoTagsIffUnversioned(repo, packageName);
    LatestCommitsError(repo, packageName);
  }

  lemma LatestCommitsError(repo: Repo, packageName: string)
    requires Splittable(repo, packageName)
    ensures LatestCommitsOf(repo, packageName) == Err(NoTags) <==> GetCommitLatestRange(repo, packageName) == Err(NoTags)
  {
    var range := GetCommitLatestRange(repo, packageName);
    if range.Ok? {
      assert RangeCommits(repo, range.value).Err? ==> RangeCommits(repo, range.value).error == Git;
    }
  }

  /** With a single tag, the range ends at the first commit of a walk from the
      tag's own commit, which is that commit: when it has a parent, the release
      has no commits at all. */
  lemma OneTagNoCommits(repo: Repo, packageName: string)
    requires Splittable(repo, packageName)
    requires |PackageTags(repo, packageName)| == 1
    requires PackageTags(repo, packageName)[0] in repo.tagTarget
    requires var start := repo.tagTarget[PackageTags(repo, packageName)[0]];
      WalkStartsAt(repo, start) && start in repo.commits && repo.hasParent(start)
    ensures LatestCommitsOf(repo, packageName) == Ok((PackageTags(repo, packageName)[0], []))
  {
    var tag := PackageTags(repo, packageName)[0];
    OneTagRange(repo, packageName);
    EmptyFromStart(repo, tag, repo.tagTarget[tag]);
  }

  /** A range whose end is its own start commit yields no commit, unless that
      commit is a root. */
  lemma EmptyFromStart(repo: Repo, tag: string, start: CommitId)
    requires WalkStartsAt(repo, start) && start in repo.commits && repo.hasParent(start)
    ensures RangeCommits(repo, CommitRange(tag, start, start)) == Ok([])
  {
    var walk := repo.walk(start);
    assert walk == [walk[0]] + walk[1..];
    FindableAppend([walk[0]], walk[1..], repo.commits);
    assert [walk[0]][1..] == [];
    assert Findable(walk, repo.commits)[0] == start;
    assert Walked(repo, CommitRange(tag, start, start)) == [];
    assert |RangeCommits(repo, CommitRange(tag, start, start)).value| == 0;
  }

  lemma OneTagRange(repo: Repo, packageName: string)
    requires Splittable(repo, packageName)
    requires |PackageTags(repo, packageName)| == 1
    requires PackageTags(repo, packageName)[0] in repo.tagTarget
    requires WalkStartsAt(repo, repo.tagTarget[PackageTags(repo, packageName)[0]])
    ensures var tag := PackageTags(repo, packageName)[0];
      var start := repo.tagTarget[tag];
      GetCommitLatestRange(repo, packageName) == Ok(CommitRange(tag, start, start))
  {
  }

  lemma CommitsOfSnoc(commits: map<CommitId, CommitData>, ids: seq<CommitId>, cs: seq<Commit>, id: CommitId)
    requires forall k | 0 <= k < |ids| :: ids[k] in commits
    requires CommitsOf(commits, ids) == Ok(cs)
    requires id in commits && commits[id].message.Some?
    ensures CommitsOf(commits, ids + [id]) == Ok(cs + [ToCommit(id, commits[id])])
  {
    var ids' := ids + [id];
    assert forall k | 0 <= k < |ids'| :: commits[ids'[k]].message.Some? by {
      forall k | 0 <= k < |ids'|
        ensures commits[ids'[k]].message.Some?
      {
        if k < |ids| {
          assert ids'[k] == ids[k];
        }
      }
    }
    assert CommitsOf(commits, ids').value == cs + [ToCommit(id, commits[id])];
  }

  lemma FindableSplit(walk: seq<CommitId>, i: int, commits: map<CommitId, CommitData>)
    requires 0 <= i < |walk|
    ensures Findable(walk, commits) == Findable(walk[..i], commits) + Findable(walk[i..], commits)
    ensures Findable(walk[..i + 1], commits) == Findable(walk[..i], commits) + Findable([walk[i]], commits)
    ensures Findable(walk[i..], commits) == Findable([walk[i]], commits) + Findable(walk[i + 1..], commits)
    ensures Findable([walk[i]], commits) == if walk[i] in commits then [walk[i]] else []
  {
    assert [walk[i]][1..] == [];
    FindableAppend(walk[..i], walk[i..], commits);
    assert walk[..i] + walk[i..] == walk;
    FindableAppend(walk[..i], [walk[i]], commits);
    assert walk[..i] + [walk[i]] == walk[..i + 1];
    FindableAppend([walk[i]], walk[i + 1..], commits);
    assert [walk[i]] + walk[i + 1..] == walk[i..];
  }

  /** Skipping commits that cannot be looked up keeps the walk's order. */
  lemma {:induction false} FindableAppend(a: seq<CommitId>, b: seq<CommitId>, commits: map<CommitId, CommitData>)
    ensures Findable(a + b, commits) == Findable(a, commits) + Findable(b, commits)
  {
    if a == [] {
      assert a + b == b;
    } else {
      assert (a + b)[1..] == a[1..] + b;
      FindableAppend(a[1..], b, commits);
    }
  }

  lemma {:induction false} TakeUntilAppend(a: seq<CommitId>, b: seq<CommitId>, end: CommitId)
    requires end !in a
    ensures TakeUntil(a + b, end) == a + TakeUntil(b, end)
  {
    if a == [] {
      assert a + b == b;
    } else {
      assert (a + b)[1..] == a[1..] + b;
      TakeUntilAppend(a[1..], b, end);
    }
  }

  lemma TakeUntilAbsent(ids: seq<CommitId>, end: CommitId)
    requires end !in ids
    ensures TakeUntil(ids, end) == ids
  {
  }
}
