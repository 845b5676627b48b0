# pro-changelog: tag ordering, release ranges and changelog filtering

This project is a Dafny model of the core of `pro-changelog`, a changelog generator for the
`@ant-design/pro-*` monorepo. Each package of the monorepo is tagged on its own, with tags
like `@ant-design/pro-layout@1.2.3`. The model covers five parts:

- **Tag parsing and ordering** (`tags.dfy`, `semver.dfy`). `get_version` splits a tag at `@`.
  `sort_tags` drops the tags whose last `@`-piece is not a semantic version and stably sorts the
  rest by version precedence. Versions follow the grammar and the precedence rules (section 11)
  of Semantic Versioning 2.0.0.
- **Release ranges** (`ranges.dfy`). `get_commit_latest_range` picks the newest tag of a package
  and the tag before it. `get_all_tag_range` builds one range per pair of neighbouring tags,
  newest first.
- **The commit walk** (`walk.dfy`). `latest_commits` and `full_commits` walk the history from a
  range's start commit. They stop just before the end commit, unless the end commit has no
  parent. In that case the end commit is kept and the walk goes on.
- **The changelog** (`changelog.dfy`). The `Changelogs` object keeps a cache from commit author to
  GitHub login. `get_change_log` keeps the commits whose message starts with `fix(<package>)` or
  `feat(<package>)` and renders one markdown line for each. `get_change_logs` does this for seven
  fixed packages.
- **Helpers** (`strings.dfy`, `wrappers.dfy`). Rust's `split`, `join` and "first line of a
  message", plus `Option` and `Result`.

The repository is an abstract value (`Ranges.Repo`) with these parts: its tag names, the commit
each tag points at, the revision walk from each commit, the commits that can be looked up (message,
author, time), and whether a commit has a parent. The GitHub user lookup is a function
`login: string -> string` given to the `Changelogs` constructor.

Some behaviours of the code that a reader might not expect, all modelled as written:

- `get_all_tag_range` returns `len - 1` ranges, so the oldest tag gets no range of its own.
- With a single tag, the latest range ends at the first commit of a walk pushed at the start,
  which is the start commit itself. If that commit has a parent, the release has no commits
  (`Walk.OneTagNoCommits`). It does not run back to the root.
- The scope test is an exact, case-sensitive prefix test on the whole message.
- There is no deduplication by commit hash, no pull-request or commit link, and no `## <tag>`
  heading.
- `changelog.rs` calls `all_commits`, which `git.rs` does not define. Its use matches the
  signature of `latest_commits`, so it is modelled as `latest_commits` (`Walk.LatestCommitsOf`).

## Model

| member | source | states |
|---|---|---|
| `Strings.SplitCount` | src/git.rs:99-102 | a split has two or more pieces exactly when the delimiter occurs, so piece 1 of a tag exists exactly when the tag holds an `@` |
| `Tags.GetVersion` | src/git.rs:98-105 | the package is `@` followed by an `@`-free piece; the version holds no `@` and is shorter than the tag |
| `Tags.GetVersionPieces` | src/git.rs:98-105 | the version is the text after the last `@`, the package is `@` followed by the text between the first and second `@`; a tag needs an `@` (the `unwrap` on piece 1) |
| `Tags.GetVersionOfTag` | src/git.rs:98-105 | `@scope@version` splits back into package `@scope` and version `version` |
| `SemVer.FormatThenParse` | src/git.rs:113 | every well-formed version parses back from its canonical spelling |
| `SemVer.ParseThenFormat` | src/git.rs:113 | whatever parses is well formed (64-bit numbers, valid identifiers) and is exactly the canonical spelling of the parsed version |
| `SemVer.CompareEqual` | src/git.rs:119 | two versions have equal precedence exactly when they differ at most in build metadata |
| `SemVer.LeTotal` | src/git.rs:119 | any two versions are comparable by precedence |
| `SemVer.LeTrans` | src/git.rs:119 | the precedence order is transitive |
| `Tags.SortTags` | src/git.rs:110-122 | no more tags come out than go in |
| `Tags.SortTagsContents` | src/git.rs:110-122 | the output holds exactly the input tags whose version parses, each as often as in the input; a sub-multiset of the input; unparseable tags are dropped |
| `Tags.SortTagsSorted` | src/git.rs:119-121 | every output tag has a version and the output is non-decreasing in version precedence |
| `Tags.SortTagsStable` | src/git.rs:119 | the sort is stable: tags of equal precedence keep their input order |
| `Ranges.WithPrefixMembers` | src/git.rs:131-136 | the package filter keeps only input tags that start with the package name |
| `Ranges.InWithPrefix` | src/git.rs:131-136 | the package filter keeps every input tag that starts with the package name |
| `Ranges.PackageTagsComplete` | src/git.rs:131-136 | every tag of the package that carries a version is among the sorted tags |
| `Ranges.PrefixWithAt` | src/git.rs:131-136 | a package name containing `@` makes every tag of the package safe for `get_version` |
| `Ranges.GetCommitLatestRange` | src/git.rs:125-178 | a range is found exactly when the package has a sorted tag, the newest sorted tag resolves, so does the second-newest when there are two or more, and with one tag the walk from its commit is not empty; an error is `NoTags` exactly when the package has no sorted tag; a found range has the newest sorted tag as `latest_tag` and starts at its commit; it ends at the second-newest tag's commit when there are two or more tags, and at the first commit of the walk from the start when there is one |
| `Ranges.NoTagsIffUnversioned` | src/git.rs:137-140 | `NoTags` is returned exactly when no tag of the package carries a parseable version |
| `Ranges.LatestRangeIsNewest` | src/git.rs:139-146 | a found range starts at a tag of the package, at that tag's commit, and no tag of the package has a higher version; `latest_tag` is the start tag |
| `Ranges.LatestRangeEnd` | src/git.rs:142 | with two or more tags, the range ends at the commit of the second-newest sorted tag, a tag of the package with a version |
| `Ranges.LatestRangeEndIsNext` | src/git.rs:139-143 | with two or more tags, the end tag is at or above every sorted tag except the newest |
| `Ranges.TagRanges` | src/git.rs:204-246 | exactly `len - 1` ranges; the first starts at the newest tag, the last ends at the oldest tag's commit; each range ends where the next starts; each starts at its tag's commit |
| `Ranges.RangesOf` | src/git.rs:204-246 | the loop succeeds exactly when one tag is given or every tag resolves; it yields `[]` for one tag and `TagRanges` otherwise; failure is `Git` |
| `Ranges.GetAllTagRange` | src/git.rs:188-249 | the same for the package's sorted tags; at least one tag is required, since `len - 1` underflows otherwise |
| `Ranges.AllRangesNewestFirst` | src/git.rs:206-211 | the ranges name tags of the package with versions, in non-increasing version order |
| `Walk.Findable` | src/git.rs:283 | the ids kept from the walk all name commits that can be looked up, and there are no more of them than in the walk |
| `Walk.TakeUntil` | src/git.rs:286-289 | a prefix of the walk without `end`, followed in the walk by `end` when it is shorter |
| `Walk.Walked` | src/git.rs:276-289 | the ids kept for a range are a prefix of the findable walk and, when `end` has a parent, never include `end` |
| `Walk.RangeCommits` | src/git.rs:283-303 | succeeds exactly when every kept commit's message can be read; then one commit per kept id, in order, each with that id as its hash and the commit's message, author and time; every failure is `Git` |
| `Walk.WalkRange` | src/git.rs:276-303 | the walk loop returns the commits of `RangeCommits`: the findable walk, cut before `end` only when `end` has a parent, or `Git` when a kept message cannot be read |
| `Walk.WalkCut` | src/git.rs:276-289 | the commits follow the walk in order; with a parent, `end` is never included and the cut is just before it; with no parent, or if `end` never occurs, nothing is cut |
| `Walk.RootEndIncluded` | src/git.rs:276-289 | a root end commit that the walk reaches is one of the release's commits |
| `Walk.LatestCommits` | src/git.rs:267-306 | `latest_commits` is the latest range followed by the walk over it, with its errors |
| `Walk.LatestCommitsNoTags` | src/git.rs:267-270 | `latest_commits` reports `NoTags` exactly when no tag of the package carries a version |
| `Walk.OneTagNoCommits` | src/git.rs:141-157 | with one tag whose commit has a parent, the latest release is that tag with no commits |
| `Walk.EmptyFromStart` | src/git.rs:286-289 | a range that ends at its own non-root start commit yields no commits |
| `Walk.WalkRanges` | src/git.rs:318-360 | `full_commits`' loop yields one `TagAndCommit` per range, in range order, or fails when any walk fails |
| `Walk.FullCommits` | src/git.rs:313-363 | `full_commits` yields `[]` for one tag, `Git` if a tag does not resolve, otherwise the commits of each range newest first |
| `Changelog.TagPrefix` | src/changelog.rs:64 | the tag prefix `@ant-design/pro-<package>` contains `@` |
| `Changelog.Qualifying` | src/changelog.rs:70-72 | the kept commits are no more than the commits |
| `Changelog.QualifyingCount` | src/changelog.rs:70-72 | a commit is kept iff its message starts with `fix(<package>)` or `feat(<package>)`, as often as it occurs |
| `Changelog.QualifyingAppend` | src/changelog.rs:66-81 | the kept commits follow commit order |
| `Changelog.ChangeLinesQualifying` | src/changelog.rs:66-83 | one line per qualifying commit, in order; line `k` renders the `k`-th qualifying commit with its author's login |
| `Changelog.RenderLine` | src/changelog.rs:73-78 | a line starts with the message's first line |
| `Changelog.RenderLineShape` | src/changelog.rs:73-78 | a line is the message's first line followed by ` [@id](https://github.com/id)`, with no line break when the login has none |
| `Changelog.EntrySplits` | src/changelog.rs:101 | a package's entry splits back into its lines at the joining newlines |
| `Changelog.NoLeadingF` | src/changelog.rs:70-72 | a message that does not start with a lower-case `f` qualifies for no package |
| `Changelog.ScopeExamples` | src/changelog.rs:70-72 | `fix(layout): …` qualifies for `layout` and `feat(table): …` for `table` |
| `Changelog.ScopeCounterexamples` | src/changelog.rs:70-72 | `fix(layout): …` does not qualify for `table`; `Fix(layout)` and `chore:` subjects qualify for no package |
| `Changelog.Changelogs.constructor` | src/changelog.rs:20-28 | a new generator starts with an empty author cache |
| `Changelog.Changelogs.GetGithubUserId` | src/changelog.rs:30-59 | returns the author's login and caches it; a cached author causes no lookup and leaves the cache unchanged; other entries are kept |
| `Changelog.Changelogs.ChangeLogOf` | src/changelog.rs:66-83 | the loop yields `ChangeLines`; the cache gains exactly the authors of qualifying commits and keeps its old entries |
| `Changelog.Changelogs.GetChangeLog` | src/changelog.rs:60-84 | the lines of the package's latest release; every commit must have an author; the cache only grows |
| `Changelog.Changelogs.ChangeLogsOf` | src/changelog.rs:98-102 | one entry per package, in order, each the package's lines joined with newlines; the cache gains exactly the authors of the qualifying commits of every package's release (`AuthorsOf`) and keeps its old entries |
| `Changelog.Changelogs.GetChangeLogs` | src/changelog.rs:86-105 | one entry for each of the seven fixed packages, in list order; the cache gains exactly the authors of their qualifying commits and keeps its old entries |

The cache's `Valid()` predicate says that the authors looked up so far are distinct. Their set is
the set of cache keys, and every cached login is the lookup's answer. Every method keeps `Valid()`
and only extends the lookup history, so one `Changelogs` object looks up each author at most once.

## Left out

- `diff`, `latest_diff` and `full_diff` (src/git.rs:76-93, 181-187, 251-265): libgit2 tree diffs and the formatting of diff statistics.
- Repository access (`Repository::open`, `tag_names`, `revparse_single`, `peel_to_commit`, `find_object`, `find_commit`): replaced by the fields of `Ranges.Repo`. Tag names that are not UTF-8 (dropped by `filter_map(|x| x)`) are not in the list. In the walk loops of `latest_commits` and `full_commits`, a revision-walk error is treated like a commit that cannot be looked up, and both are skipped. In `get_commit_latest_range` (one tag) the model takes the first id of a walk without errors: there an error as the first walk item gives `Git`, and an id that `find_object` cannot find panics at its `unwrap`; neither is modelled.
- The conversion of commit times to `DateTime<Utc>` (src/git.rs:294-296, 341-343): the time stays an integer number of seconds.
- The GitHub request and the `GITHUB_TOKEN` read (src/changelog.rs:35-50): the lookup is the total function `login`, so a failed request (a panic in the source) is not modelled. The `repo` path and the HTTP `client` fields become the `Repo` value and `login`.
- The `println!` in `get_change_logs` (src/changelog.rs:100).
- src/npm.rs and src/main.rs are not part of this model. The first is registry HTTP calls, prompts, process spawning and file reads; the second is a fixed entry point.
- `SemVer.Compare` ignores build metadata, as section 11 of Semantic Versioning 2.0.0 and the `Ord` of the `semver` 0.x crates do. The `semver` crates from 1.0 on break such ties on build metadata, so there two tags that differ only in build metadata may sort differently. The crate version the source uses is not shown.
- `SemVer.Parse` follows the Semantic Versioning 2.0.0 grammar with 64-bit numeric parts. It does not reproduce any lenience or error detail of the `semver` crate, whose code is not shown.
- `Changelog.Changelogs.GetChangeLog` requires the release to be found and every commit to have an author, because the source panics on both `unwrap`s. Panics themselves are not modelled.
