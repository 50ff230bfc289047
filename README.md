# github-metrics: repository ids and the stale pull-request report, in Dafny

This project models two pieces of the `github-metrics` tools and proves properties about them.

- **`ParseRepoID`** (githubmetrics/parse.go) splits an `"owner/repo"` string on `/`. It accepts the input only when there are exactly two pieces and neither is empty. Module `RepoId` models it together with Go's `strings.Split`, which returns one more piece than there are separators, so that `Split("", "/")` is `[""]`. `strings.Join` is modelled as Split's inverse.
- **`main` of `list-open-prs-org`** (cmd/list-open-prs-org/main.go) runs in four steps:
  1. It pages through the organisation's repositories.
  2. For each repository, it pages through the open pull requests.
  3. It keeps every pull request older than three weeks, tagged with its repository's name (`PRWithRepo`).
  4. It sorts what it kept by creation time.

  The module is split as follows:
  - Module `Paging` models the paginated listing endpoints. A listing is a function from page number to response, where a response is either an error or a page of items together with `NextPage`.
  - Module `StalePrs` models the nested loops as imperative methods (`CollectRepoStale`, `CollectReposStale`, `CollectStale`). Each method is proved against specification functions:
    - `Fetch` and `Requests` describe one cursor loop;
    - `Harvest` gives the order in which the whole run examines pull requests, and which error comes first;
    - `Stale` is the age filter.
  - `SortByCreatedAt` sorts an `array` in place. It is proved to leave the array ordered by creation time and to be a permutation of its input.
  - `ListOpenPrsOrg` is `main` without the final table.

- Module `Results` holds the `Result`/`Option` types and the fail-fast concatenation of results that the loops use.
- Module `Scenario` works one organisation through the whole report.

Conventions of the model:

- Times and durations are whole seconds.
- The wall clock is a parameter, `now`.
- A listing error, on which the Go code panics, becomes a `Failure` result carrying the error (`RepoListFailed` / `PrListFailed`). Nothing is sorted or reported in that case.
- Termination of the loops rests on one assumption about the server, `Paging.Forward`. It says that a `NextPage` other than 0 always lies after the page that returned it and never past the last page.

## Model

| member | source | states |
|---|---|---|
| RepoId.Split | githubmetrics/parse.go:11 | `strings.Split` on one separator: one more piece than there are separators, and no piece contains the separator |
| RepoId.JoinSplit | githubmetrics/parse.go:11 | joining the pieces of a split with the separator gives back the input, so no character is lost or moved |
| RepoId.SplitJoin | githubmetrics/parse.go:11 | splitting a join of separator-free pieces gives back exactly those pieces |
| RepoId.ParseRepoID | githubmetrics/parse.go:10-17 | succeeds exactly when the input has one `/` that is neither first nor last; on success `owner + "/" + repo` is the input, and both are non-empty and free of `/`; on error both strings are empty and the message is the fixed format error |
| RepoId.FormatThenParse | githubmetrics/parse.go:11-15 | any non-empty, slash-free owner and repository written as `owner/repo` parse back to themselves with no error |
| RepoId.RejectedInputs | githubmetrics/parse.go:11-13 | `""`, `"/"`, `"a/"`, `"/b"` and `"a/b/c"` are rejected with the format error and empty strings |
| Paging.Fetch | cmd/list-open-prs-org/main.go:90-107 | the cursor loop from a starting page: a failing request ends it with that request's error; otherwise the page's items come first, then those of the page named by `NextPage`, and `NextPage` 0 ends it |
| Paging.Requests | cmd/list-open-prs-org/main.go:90-107 | the pages the cursor loop requests: the first is the starting page, and there are no more requests than pages from there to the last |
| Paging.RequestsNotBefore | cmd/list-open-prs-org/main.go:90-107 | no request asks for a page before the one the loop started at |
| Paging.RequestsStrictlyIncrease | cmd/list-open-prs-org/main.go:90-107 | the requested page numbers strictly increase, so no page is requested twice |
| Paging.RequestLogStep | cmd/list-open-prs-org/main.go:111-114 | the requests made so far, plus the current one, are a prefix of the whole request sequence, and all of it once the current request fails or returns `NextPage` 0 |
| Paging.RequestsFollowNextPage | cmd/list-open-prs-org/main.go:90-107 | every request but the last was answered with a `NextPage` other than 0, and the next request asks for exactly that page; the last request failed or returned `NextPage` 0 |
| Paging.RequestsStep | cmd/list-open-prs-org/main.go:103-106 | the loop stops after a failure or after `NextPage` 0, and otherwise requests `NextPage` next |
| Paging.FetchSucceedsIffAllServed | cmd/list-open-prs-org/main.go:90-107 | the loop yields items exactly when every page it requests is served without error |
| Paging.FetchConcatenatesRequestedPages | cmd/list-open-prs-org/main.go:90-107 | on success the loop yields the items of the requested pages, concatenated in request order |
| Paging.FetchFailsWithLastRequest | cmd/list-open-prs-org/main.go:91-94 | on failure the error is the one returned by the last request made |
| StalePrs.IsStale | cmd/list-open-prs-org/main.go:97-98 | a pull request is kept when its age at `now`, its creation time subtracted from `now`, is strictly greater than the cutoff |
| StalePrs.AgeCutoffBoundary | cmd/list-open-prs-org/main.go:19 | the cutoff is 1,814,400 seconds and the test is strict: exactly three weeks old is dropped, one second older is kept |
| StalePrs.CreatedBefore | cmd/list-open-prs-org/main.go:118 | the sort comparator: the first entry's pull request was created strictly before the second's |
| StalePrs.Tag | cmd/list-open-prs-org/main.go:99 | one tagged entry per pull request |
| StalePrs.TagEntries | cmd/list-open-prs-org/main.go:99 | entry `k` of the tagged list is pull request `k`, wrapped with the repository's name |
| StalePrs.TagConcat | cmd/list-open-prs-org/main.go:96-101 | tagging a concatenation of pages is the concatenation of the tagged pages |
| StalePrs.TagMember | cmd/list-open-prs-org/main.go:83-84 | each tagged entry carries the repository's name and one of the repository's pull requests |
| StalePrs.TagFetchPrepend | cmd/list-open-prs-org/main.go:90-107 | tagging commutes with prepending one page to the rest of a listing, error or not |
| StalePrs.TagFetch | cmd/list-open-prs-org/main.go:91-99 | one repository's listing: a failure becomes the wrapped `PrListFailed` error; on success every pull request is wrapped with the repository's name, in listing order |
| StalePrs.HarvestRepos | cmd/list-open-prs-org/main.go:83-109 | the repositories of one page in listing order: the tagged pull requests of each repository in turn, or the error of the first repository whose listing fails |
| StalePrs.Harvest | cmd/list-open-prs-org/main.go:77-115 | the whole run from a repository page: a failing repository listing gives `RepoListFailed`; otherwise the page's repositories are examined, then the page named by `NextPage` unless it is 0; the first error in call order wins |
| StalePrs.Stale | cmd/list-open-prs-org/main.go:96-101 | the filter keeps no more entries than it is given, and every entry it keeps is older than the cutoff |
| StalePrs.StaleConcat | cmd/list-open-prs-org/main.go:96-101 | filtering distributes over concatenation, so the relative order of kept entries is the examination order |
| StalePrs.StaleCounts | cmd/list-open-prs-org/main.go:97-100 | the filter keeps every copy of an entry older than the cutoff and drops every copy of any other entry |
| StalePrs.AppendStale | cmd/list-open-prs-org/main.go:96-101 | the loop over one page appends exactly the filtered tagged page to the accumulated list |
| StalePrs.CollectRepoStale | cmd/list-open-prs-org/main.go:85-107 | for one repository: if its listing fails, aborts with the wrapped error; otherwise appends the filtered tagged pull requests of all its pages in order; the pages requested are exactly those of the cursor loop |
| StalePrs.PullPageStep | cmd/list-open-prs-org/main.go:90-107 | one pull-request page: a failure aborts; `NextPage` 0 ends the repository; otherwise the following pages come after this one |
| StalePrs.CollectReposStale | cmd/list-open-prs-org/main.go:83-109 | for one page of repositories, in listing order: the first failing pull-request listing aborts the run; otherwise the result is the accumulated list followed by the filtered tagged pull requests of every repository |
| StalePrs.RepoStep | cmd/list-open-prs-org/main.go:83-107 | one repository of a page: a failing listing aborts; otherwise its tagged pull requests come before those of the remaining repositories |
| StalePrs.CollectStale | cmd/list-open-prs-org/main.go:71-115 | the nested loops yield exactly the filtered examination sequence, or the first error in call order; the repository pages requested are a prefix of the cursor's requests, and all of them on success |
| StalePrs.RepoPageStep | cmd/list-open-prs-org/main.go:77-114 | one repository page: a listing failure aborts; otherwise its repositories' pull requests come next, then those of the page named by `NextPage`, unless that is 0 |
| StalePrs.InsertIntoPrefix | cmd/list-open-prs-org/main.go:117-119 | one insertion step: the first `i + 1` entries become sorted and hold the same entries as before, and nothing after them moves |
| StalePrs.SinkEntry | cmd/list-open-prs-org/main.go:117-119 | the old `a[i]` moves left to position `j`: every entry it passed was created strictly later and its new left neighbour was not; entries before `j` stay in place, those it passed each shift one place right, nothing past `i` moves, and the array is only permuted |
| StalePrs.Swap | cmd/list-open-prs-org/main.go:117-119 | exchanging two entries leaves every other entry in place and the multiset of entries unchanged |
| StalePrs.SortByCreatedAt | cmd/list-open-prs-org/main.go:117-119 | in-place sort: afterwards no entry was created before an entry ahead of it, and the array holds the same multiset of entries |
| StalePrs.ListOpenPrsOrg | cmd/list-open-prs-org/main.go:71-119 | the run fails exactly when some listing call fails, with that call's error; otherwise it reports a creation-ordered permutation of the filtered examined entries |
| StalePrs.HarvestReposConcat | cmd/list-open-prs-org/main.go:83-109 | examining the repositories of two lists in turn is examining their concatenation |
| StalePrs.HarvestReposSucceedsIff | cmd/list-open-prs-org/main.go:83-94 | the loop over repositories succeeds exactly when every repository's pull-request listing succeeds |
| StalePrs.HarvestFollowsRepoListing | cmd/list-open-prs-org/main.go:77-115 | a failing repository listing aborts the run; otherwise the examined pull requests are those of the concatenated repository listing, repository by repository |
| StalePrs.HarvestReposOrigin | cmd/list-open-prs-org/main.go:83-99 | every examined entry names a listed repository and holds one of that repository's listed pull requests |
| StalePrs.ReportedEntryOrigin | cmd/list-open-prs-org/main.go:71-119 | every reported entry is older than the cutoff, names a repository of the organisation's listing, and holds one of that repository's open pull requests |
| StalePrs.EmptyRepoPageFollowsNextPage | cmd/list-open-prs-org/main.go:111-114 | a repository page without repositories still follows its `NextPage` |
| StalePrs.RepoWithoutPrsContributesNothing | cmd/list-open-prs-org/main.go:83-107 | a repository without open pull requests contributes nothing |
| Scenario.AcmeExamined | cmd/list-open-prs-org/main.go:83-107 | for a two-repository organisation, the run examines the pull requests of the first repository in listing order and nothing from the empty one |
| Scenario.AcmeStale | cmd/list-open-prs-org/main.go:97-100 | pull requests 25 and 22 days old pass the filter; one 10 days old does not |
| Scenario.AcmeReport | cmd/list-open-prs-org/main.go:117-119 | any creation-ordered permutation of the filtered entries is exactly the oldest entry followed by the newer one |

## Left out

- OAuth client construction, `GITHUB_TOKEN`, `readArgs` and its usage panic: environment and command-line I/O (cmd/list-open-prs-org/main.go:21-37).
- `printTable`: terminal rendering through tablewriter, RFC 1123 formatting and durafmt durations are foreign formatting libraries (cmd/list-open-prs-org/main.go:44-62, 121).
- `log.Println("Looking in repo", …)`: a progress message with no effect on the result.
- The request options (`Type: "all"`, `State: "open"`, `PerPage: 100`) are fixed per listing and are absorbed into the abstract listings, which stand for the server's answers to those requests.
- The loops are proved to terminate under `Paging.Forward`: every `NextPage` other than 0 lies after the page that returned it and within the listing. A server that jumps back to a page already requested would make the Go loops run forever. `Forward` also excludes servers that jump back to a page not yet requested, for example 0 → 5 → 3 with page 3 answering `NextPage` 0. The Go loop ends on those, and the model does not cover them.
- StalePrs.IsStale: the source calls `time.Now()` once per pull request. The model uses one `now` for the whole run, with times in whole seconds. `Round(time.Second)` is therefore the identity, and sub-second rounding at the boundary, `Duration` saturation and clock changes during the run are not modelled.
- StalePrs.CreatedBefore: compares creation times in whole seconds, while `time.Time.Before` compares at nanosecond resolution. A pull request whose `CreatedAt` is nil, which would make the comparator panic, is not represented.
- StalePrs.SortByCreatedAt: an insertion sort stands in for the algorithm behind `sort.Slice`. The insertion sort happens to be stable, but its contract, like `sort.Slice`, promises only the ordering and the permutation. The order of entries created in the same second is left open.
- The panics become `Failure` results, so a partially built `oldPrs` is discarded and nothing is printed.
- cmd/load-prs/main.go and cmd/list-open-prs/main.go are not part of this model. They repeat the same pagination pattern around SQLite storage and table output.
