/** Building the markdown changelog of each package from its latest release
    (src/changelog.rs). */
module Changelog {
  import opened Wrappers
  import opened Strings
  import opened Ranges
  import opened Walk

  /** The packages a changelog is built for, in output order. */
  const PackageList: seq<string> := ["utils", "layout", "form", "table", "field", "card", "descriptions"]

  /** The npm scope the package tags start with. */
  const ScopePrefix: string := "@ant-design/pro-"

  /** The tag prefix of one package. */
  function TagPrefix(package: string): (r: string)
    ensures '@' in r
  {
    assert (ScopePrefix + package)[0] == '@';
    ScopePrefix + package
  }

  /** The latest release of a package: its tag and its commits. */
  function Release(repo: Repo, package: string): Result<(string, seq<Commit>), ErrorKind>
  {
    PrefixWithAt(repo, TagPrefix(package));
    LatestCommitsOf(repo, TagPrefix(package))
  }

  /** A conventional-commit header for the package, such as `fix(layout)`. */
  function Header(kind: string, package: string): string
  {
    kind + "(" + package + ")"
  }

  /** Whether a commit belongs in the package's changelog: its message starts,
      case-sensitively, with `fix(package)` or `feat(package)`. */
  predicate Qualifies(message: string, package: string)
  {
    Header("fix", package) <= message || Header("feat", package) <= message
  }

  /** A changelog line: the message's first line, then a markdown link to the
      author's GitHub profile. */
  function RenderLine(message: string, id: string): (r: string)
    ensures FirstLine(message) <= r
  {
    FirstLine(message) + " [@" + id + "](https://github.com/" + id + ")"
  }

  predicate AllAuthored(commits: seq<Commit>)
  {
    forall k | 0 <= k < |commits| :: commits[k].author.Some?
  }

  /** The commits that make it into the changelog, in commit order. */
  function Qualifying(package: string, commits: seq<Commit>): (r: seq<Commit>)
    ensures |r| <= |commits|
  {
    if commits == [] then []
    else
      var last := commits[|commits| - 1];
      Qualifying(package, commits[..|commits| - 1]) + (if Qualifies(last.message, package) then [last] else [])
  }

  /** Each qualifying commit is kept as often as it occurs, and no other
      commit is kept. */
  lemma {:induction false} QualifyingCount(package: string, commits: seq<Commit>)
    ensures forall c ::
      multiset(Qualifying(package, commits))[c] == if Qualifies(c.message, package) then multiset(commits)[c] else 0
    decreases |commits|
  {
    if commits != [] {
      var init, last := commits[..|commits| - 1], commits[|commits| - 1];
      assert commits == init + [last];
      QualifyingCount(package, init);
    }
  }

  /** The lines `get_change_log` builds from a release's commits, when each
      author's login is `login(author)`. */
  function ChangeLines(package: string, commits: seq<Commit>, login: string -> string): (r: seq<string>)
    requires AllAuthored(commits)
  {
    if commits == [] then []
    else
      var last := commits[|commits| - 1];
      ChangeLines(package, commits[..|commits| - 1], login) +
        (if Qualifies(last.message, package) then [RenderLine(last.message, login(last.author.value))] else [])
  }

  /** The authors whose login the changelog of these commits needs. */
  function Authors(package: string, commits: seq<Commit>): set<string>
    requires AllAuthored(commits)
  {
    if commits == [] then {}
    else
      var last := commits[|commits| - 1];
      Authors(package, commits[..|commits| - 1]) + (if Qualifies(last.message, package) then {last.author.value} else {})
  }

  /** The authors whose login the changelogs of all these packages need (a
      package whose release cannot be built adds none). */
  ghost function AuthorsOf(repo: Repo, packages: seq<string>): set<string>
  {
    if packages == [] then {}
    else
      var last := packages[|packages| - 1];
      AuthorsOf(repo, packages[..|packages| - 1]) +
        (if Releasable(repo, last) then Authors(last, Release(repo, last).value.1) else {})
  }

  /** Whether `get_change_log` can run for a package: the release is found
      and every one of its commits has an author. */
  predicate Releasable(repo: Repo, package: string)
  {
    Release(repo, package).Ok? && AllAuthored(Release(repo, package).value.1)
  }

  /** The entry `get_change_logs` emits for a package. */
  function Entry(repo: Repo, login: string -> string, package: string): string
    requires Releasable(repo, package)
  {
    Join(ChangeLines(package, Release(repo, package).value.1, login), "\n")
  }

  /** The entries `entry` gives for these packages, in order. */
  function Entries(entry: string --> string, packages: seq<string>): seq<string>
    requires forall p | p in packages :: entry.requires(p)
  {
    if packages == [] then []
    else Entries(entry, packages[..|packages| - 1]) + [entry(packages[|packages| - 1])]
  }

  /** A changelog generator over one repository, with a cache from commit
      author to GitHub login so that each author is looked up at most once.
      The lookup itself, a GitHub API request, is the function `login`. */
  class Changelogs {
    const repo: Repo
    const login: string -> string
    var authorGithubMap: map<string, string>
    /** The authors looked up so far, in order. */
    ghost var lookups: seq<string>

    ghost predicate Valid()
      reads this
    {
      (forall i, j | 0 <= i < j < |lookups| :: lookups[i] != lookups[j]) &&
      authorGithubMap.Keys == set a | a in lookups &&
      forall a | a in authorGithubMap :: authorGithubMap[a] == login(a)
    }

    constructor(repo: Repo, login: string -> string)
      ensures Valid()
      ensures this.repo == repo && this.login == login
      ensures authorGithubMap == map[] && lookups == []
    {
      this.repo := repo;
      this.login := login;
      authorGithubMap := map[];
      lookups := [];
    }

    /** `get_github_user_id`: the author's login, from the cache when it is
        there and from a lookup, which is then cached, when it is not. */
    method GetGithubUserId(author: string) returns (id: string)
      requires Valid()
      modifies this
      ensures Valid()
      ensures id == login(author)
      ensures authorGithubMap == old(authorGithubMap)[author := id]
      ensures lookups == if author in old(authorGithubMap) then old(lookups) else old(lookups) + [author]
    {
      if author !in authorGithubMap {
        var body := login(author);
        authorGithubMap := authorGithubMap[author := body];
        lookups := lookups + [author];
      }
      id := authorGithubMap[author];
    }

    /** `get_change_log`: the changelog lines of a package's latest release.
        The source unwraps the release and every commit's author, so both are
        required. */
    method GetChangeLog(package: string) returns (changelogList: seq<string>)
      requires Valid()
      requires Releasable(repo, package)
      modifies this
      ensures Valid()
      ensures changelogList == ChangeLines(package, Release(repo, package).value.1, login)
      ensures authorGithubMap.Keys == old(authorGithubMap).Keys + Authors(package, Release(repo, package).value.1)
      ensures forall a | a in old(authorGithubMap) :: a in authorGithubMap && authorGithubMap[a] == old(authorGithubMap)[a]
      ensures old(lookups) <= lookups
    {
      PrefixWithAt(repo, TagPrefix(package));
      var release := LatestCommits(repo, TagPrefix(package));
      changelogList := ChangeLogOf(package, release.value.1);
    }

    /** The loop of `get_change_log` over the release's commits. */
    method ChangeLogOf(package: string, commitList: seq<Commit>) returns (changelogList: seq<string>)
      requires Valid() && AllAuthored(commitList)
      modifies this
      ensures Valid()
      ensures changelogList == ChangeLines(package, commitList, login)
      ensures authorGithubMap.Keys == old(authorGithubMap).Keys + Authors(package, commitList)
      ensures forall a | a in old(authorGithubMap) :: authorGithubMap[a] == old(authorGithubMap)[a]
      ensures old(lookups) <= lookups
    {
      changelogList := [];
      var i := 0;
      ghost var done: seq<Commit> := [];
      while i < |commitList|
        invariant 0 <= i <= |commitList| && done == commitList[..i]
        invariant AllAuthored(done)
        invariant Valid()
        invariant changelogList == ChangeLines(package, done, login)
        invariant authorGithubMap.Keys == old(authorGithubMap).Keys + Authors(package, done)
        invariant old(lookups) <= lookups
      {
        var commit := commitList[i];
        var message := commit.message;
        var author := commit.author.value;
        AuthorsSnoc(package, done, commit);
        ChangeLinesSnoc(package, done, commit, login);
        if Qualifies(message, package) {
          var githubUserId := GetGithubUserId(author);
          changelogList := changelogList + [RenderLine(message, githubUserId)];
        }
        assert commitList[..i + 1] == done + [commit];
        done := done + [commit];
        i := i + 1;
      }
      assert commitList[..i] == commitList;
    }

    /** `get_change_logs`: one entry per package of `PackageList`, in that
        order, each the package's lines joined with newlines. */
    method GetChangeLogs() returns (mdPackages: seq<string>)
      requires Valid()
      requires forall p | p in PackageList :: Releasable(repo, p)
      modifies this
      ensures Valid()
      ensures |mdPackages| == |PackageList|
      ensures forall k | 0 <= k < |PackageList| :: mdPackages[k] == Entry(repo, login, PackageList[k])
      ensures forall a | a in old(authorGithubMap) :: a in authorGithubMap && authorGithubMap[a] == old(authorGithubMap)[a]
      ensures old(lookups) <= lookups
      ensures authorGithubMap.Keys == old(authorGithubMap).Keys + AuthorsOf(repo, PackageList)
    {
      mdPackages := ChangeLogsOf(PackageList);
    }

    /** The loop of `get_change_logs` over a list of packages. */
    method ChangeLogsOf(packages: seq<string>) returns (mdPackages: seq<string>)
      requires Valid()
      requires forall p | p in packages :: Releasable(repo, p)
      modifies this
      ensures Valid()
      ensures |mdPackages| == |packages|
      ensures forall k | 0 <= k < |packages| :: mdPackages[k] == Entry(repo, login, packages[k])
      ensures forall a | a in old(authorGithubMap) :: a in authorGithubMap && authorGithubMap[a] == old(authorGithubMap)[a]
      ensures old(lookups) <= lookups
      ensures authorGithubMap.Keys == old(authorGithubMap).Keys + AuthorsOf(repo, packages)
    {
      mdPackages := [];
      var k := 0;
      ghost var entry := p requires Releasable(repo, p) => Entry(repo, login, p);
      while k < |packages|
        invariant 0 <= k <= |packages| && |mdPackages| == k
        invariant Valid()
        invariant mdPackages == Entries(entry, packages[..k])
        invariant forall a | a in old(authorGithubMap) :: a in authorGithubMap && authorGithubMap[a] == old(authorGithubMap)[a]
        invariant old(lookups) <= lookups
        invariant authorGithubMap.Keys == old(authorGithubMap).Keys + AuthorsOf(repo, packages[..k])
      {
        var package := packages[k];
        var md := GetChangeLog(package);
        AuthorsOfStep(repo, packages, k);
        EntriesStep(entry, packages, k);
        mdPackages := mdPackages + [Join(md, "\n")];
        k := k + 1;
      }
      assert packages[..k] == packages;
      EntriesIndex(entry, packages);
    }
  }

  lemma {:induction false} EntriesIndex(entry: string --> string, packages: seq<string>)
    requires forall p | p in packages :: entry.requires(p)
    ensures |Entries(entry, packages)| == |packages|
    ensures forall k | 0 <= k < |packages| :: Entries(entry, packages)[k] == entry(packages[k])
  {
    if packages != [] {
      var init := packages[..|packages| - 1];
      assert forall p | p in init :: p in packages;
      EntriesIndex(entry, init);
    }
  }

  lemma EntriesStep(entry: string --> string, packages: seq<string>, k: nat)
    requires k < |packages| && forall p | p in packages :: entry.requires(p)
    ensures Entries(entry, packages[..k + 1]) == Entries(entry, packages[..k]) + [entry(packages[k])]
  {
    assert packages[..k + 1][..k] == packages[..k];
  }

  /** One package more in `get_change_logs`' loop adds its release's authors. */
  lemma AuthorsOfStep(repo: Repo, packages: seq<string>, k: nat)
    requires k < |packages| && Releasable(repo, packages[k])
    ensures AuthorsOf(repo, packages[..k + 1]) ==
      AuthorsOf(repo, packages[..k]) + Authors(packages[k], Release(repo, packages[k]).value.1)
  {
    assert packages[..k + 1][..k] == packages[..k];
  }

  lemma ChangeLinesSnoc(package: string, commits: seq<Commit>, c: Commit, login: string -> string)
    requires AllAuthored(commits) && c.author.Some?
    ensures AllAuthored(commits + [c])
    ensures ChangeLines(package, commits + [c], login) == ChangeLines(package, commits, login) +
      (if Qualifies(c.message, package) then [RenderLine(c.message, login(c.author.value))] else [])
  {
    assert (commits + [c])[..|commits|] == commits;
  }

  lemma AuthorsSnoc(package: string, commits: seq<Commit>, c: Commit)
    requires AllAuthored(commits) && c.author.Some?
    ensures AllAuthored(commits + [c])
    ensures Authors(package, commits + [c]) ==
      Authors(package, commits) + (if Qualifies(c.message, package) then {c.author.value} else {})
  {
    assert (commits + [c])[..|commits|] == commits;
  }

  // ---------------------------------------------------------------------------
  // What the changelog lines are

  /** Filtering commits distributes over concatenation: the qualifying commits
      keep their relative order. */
  lemma {:induction false} QualifyingAppend(package: string, a: seq<Commit>, b: seq<Commit>)
    ensures Qualifying(package, a + b) == Qualifying(package, a) + Qualifying(package, b)
    decreases |b|
  {
    if b == [] {
      assert a + b == a;
    } else {
      var init, last := b[..|b| - 1], b[|b| - 1];
      var ab := a + b;
      var tail := if Qualifies(last.message, package) then [last] else [];
      assert ab[..|ab| - 1] == a + init;
      assert ab[|ab| - 1] == last;
      assert Qualifying(package, ab) == Qualifying(package, a + init) + tail;
      assert Qualifying(package, b) == Qualifying(package, init) + tail;
      QualifyingAppend(package, a, init);
    }
  }

  /** The changelog has one line per qualifying commit, in commit order, and
      line `k` renders the `k`-th qualifying commit with its author's login. */
  lemma {:induction false} ChangeLinesQualifying(package: string, commits: seq<Commit>, login: string -> string)
    requires AllAuthored(commits)
    ensures AllAuthored(Qualifying(package, commits))
    ensures var q := Qualifying(package, commits);
      var lines := ChangeLines(package, commits, login);
      |lines| == |q| &&
      forall k | 0 <= k < |q| ::
        Qualifies(q[k].message, package) && lines[k] == RenderLine(q[k].message, login(q[k].author.value))
    decreases |commits|
  {
    if commits != [] {
      var init := commits[..|commits| - 1];
      assert AllAuthored(init) by {
        forall k | 0 <= k < |init|
          ensures init[k].author.Some?
        {
          assert init[k] == commits[k];
        }
      }
      ChangeLinesQualifying(package, init, login);
    }
  }

  /** A rendered line is the message's first line followed by the author
      link; it holds no line break when the login holds none. */
  lemma RenderLineShape(message: string, id: string)
    ensures var line := RenderLine(message, id);
      FirstLine(message) <= message && FirstLine(message) <= line &&
      line[|FirstLine(message)|..] == " [@" + id + "](https://github.com/" + id + ")" &&
      ('\n' !in id ==> '\n' !in line)
  {
    FirstLineIsPrefix(message);
  }

  /** A package's entry splits back into its lines at the newlines that join
      them, when no login holds a line break. */
  lemma EntrySplits(package: string, commits: seq<Commit>, login: string -> string)
    requires AllAuthored(commits)
    requires forall a :: '\n' !in login(a)
    requires |ChangeLines(package, commits, login)| >= 1
    ensures Split(Join(ChangeLines(package, commits, login), "\n"), '\n') == ChangeLines(package, commits, login)
  {
    var lines := ChangeLines(package, commits, login);
    var q := Qualifying(package, commits);
    ChangeLinesQualifying(package, commits, login);
    forall k | 0 <= k < |lines|
      ensures '\n' !in lines[k]
    {
      RenderLineShape(q[k].message, login(q[k].author.value));
    }
    assert "\n" == ['\n'];
    SplitJoin(lines, '\n');
  }

  /** A message that does not start with `f` qualifies for no package. */
  lemma NoLeadingF(message: string, package: string)
    requires message == [] || message[0] != 'f'
    ensures !Qualifies(message, package)
  {
    assert Header("fix", package)[0] == 'f' && Header("feat", package)[0] == 'f';
  }

  /** Subjects scoped to the package qualify, with either kind. */
  lemma ScopeExamples()
    ensures Qualifies("fix(layout): correct overflow", "layout")
    ensures Qualifies("feat(table): add column search", "table")
  {
    assert Header("fix", "layout") == "fix(layout)";
    assert "fix(layout): correct overflow"[..11] == "fix(layout)";
    assert Header("feat", "table") == "feat(table)";
    assert "feat(table): add column search"[..11] == "feat(table)";
  }

  /** Another package's scope, a capitalised kind and an unscoped kind do not. */
  lemma ScopeCounterexamples()
    ensures !Qualifies("fix(layout): correct overflow", "table")
    ensures !Qualifies("Fix(layout): correct overflow", "layout")
    ensures forall k | 0 <= k < |PackageList| :: !Qualifies("chore: bump deps", PackageList[k])
  {
    forall k | 0 <= k < |PackageList|
      ensures !Qualifies("chore: bump deps", PackageList[k])
    {
      NoLeadingF("chore: bump deps", PackageList[k]);
    }
    assert "fix(layout): correct overflow"[4] != "fix(table)"[4];
    NoLeadingF("Fix(layout): correct overflow", "layout");
  }
}
