/** The body of `main` in cmd/list-open-prs-org/main.go: page through an organisation's
    repositories, page through each repository's open pull requests, keep those older than
    three weeks tagged with their repository's name, and sort what was kept by creation time.
    Times are whole seconds; the wall clock is the parameter `now`. */
module StalePrs {
  import opened Results
  import opened Paging

  const Hour: int := 60 * 60

  /** `ageCutoff`: three weeks. */
  const AgeCutoff: int := 3 * 7 * 24 * Hour

  datatype Repository = Repository(name: string)

  /** The fields of a listed pull request that the command reads; `createdAt` in seconds. */
  datatype PullRequest = PullRequest(number: int, author: string, title: string, createdAt: int)

  /** `PRWithRepo`: a pull request and the name of the repository it was listed under. */
  datatype PRWithRepo = PRWithRepo(pr: PullRequest, repo: string)

  /** The value `main` panics with: the error of `Repositories.ListByOrg`, or the error of
      `PullRequests.List` wrapped as "failed to list PR's". */
  datatype Abort = RepoListFailed(cause: ApiError) | PrListFailed(cause: ApiError)

  /** The two endpoints, for the organisation named on the command line: its repositories
      (type "all", 100 per page) and, for each repository name, its open pull requests
      (100 per page). */
  datatype Org = Org(repos: Listing<Repository>, pulls: string -> Listing<PullRequest>)

  ghost predicate Valid(org: Org)
  {
    Forward(org.repos) && forall name :: Forward(org.pulls(name))
  }

  /** The age of a pull request at time `now`, rounded to the second. */
  function Age(pr: PullRequest, now: int): int
  {
    now - pr.createdAt
  }

  /** The filter `age > ageCutoff`. */
  predicate IsStale(pr: PullRequest, now: int)
  {
    Age(pr, now) > AgeCutoff
  }

  /** The comparator of `sort.Slice`: `a` was created strictly before `b`. */
  predicate CreatedBefore(a: PRWithRepo, b: PRWithRepo)
  {
    a.pr.createdAt < b.pr.createdAt
  }

  /** No entry was created strictly before an entry that precedes it. */
  predicate SortedByCreation(s: seq<PRWithRepo>)
  {
    forall i, j :: 0 <= i < j < |s| ==> !CreatedBefore(s[j], s[i])
  }

  /** The pull requests of one repository, each wrapped with the repository's name. */
  function Tag(name: string, prs: seq<PullRequest>): (r: seq<PRWithRepo>)
    ensures |r| == |prs|
  {
    if prs == [] then []
    else Tag(name, prs[..|prs| - 1]) + [PRWithRepo(prs[|prs| - 1], name)]
  }

  /** Entry `k` of the tagged list is pull request `k`, tagged with the name. */
  lemma {:induction false} TagEntries(name: string, prs: seq<PullRequest>)
    ensures forall k :: 0 <= k < |prs| ==> Tag(name, prs)[k] == PRWithRepo(prs[k], name)
    decreases |prs|
  {
    if prs != [] {
      TagEntries(name, prs[..|prs| - 1]);
    }
  }

  lemma {:induction false} TagConcat(name: string, a: seq<PullRequest>, b: seq<PullRequest>)
    ensures Tag(name, a + b) == Tag(name, a) + Tag(name, b)
    decreases |b|
  {
    if b == [] {
      assert a + b == a;
    } else {
      var c := a + b;
      assert c[..|c| - 1] == a + b[..|b| - 1];
      assert c[|c| - 1] == b[|b| - 1];
      TagConcat(name, a, b[..|b| - 1]);
    }
  }

  /** Each tagged entry holds one of the given pull requests and the given name. */
  lemma {:induction false} TagMember(name: string, prs: seq<PullRequest>, e: PRWithRepo)
    requires e in Tag(name, prs)
    ensures e.repo == name && e.pr in prs
    decreases |prs|
  {
    var init := prs[..|prs| - 1];
    if e in Tag(name, init) {
      TagMember(name, init, e);
      assert init <= prs;
    }
  }

  /** The listing of one repository's open pull requests, tagged, or the wrapped error. */
  function TagFetch(name: string, fetched: Result<seq<PullRequest>, ApiError>): Result<seq<PRWithRepo>, Abort>
  {
    match fetched
    case Success(prs) => Success(Tag(name, prs))
    case Failure(e) => Failure(PrListFailed(e))
  }

  /** The tagged open pull requests of `repos`, repository by repository in listing order, or
      the first listing error. */
  function HarvestRepos(pulls: string -> Listing<PullRequest>, repos: seq<Repository>): Result<seq<PRWithRepo>, Abort>
    requires forall name :: Forward(pulls(name))
  {
    if repos == [] then Success([])
    else Then(TagFetch(repos[0].name, Fetch(pulls(repos[0].name), 0)), HarvestRepos(pulls, repos[1..]))
  }

  /** Every pull request the command examines from repository page `page` on, in the order it
      examines them (repository page, repository, pull-request page, position in the page),
      each tagged with its repository; or the first error, in the order the calls are made. */
  function Harvest(org: Org, page: nat): Result<seq<PRWithRepo>, Abort>
    requires Valid(org) && page <= org.repos.pageCount
    decreases org.repos.pageCount - page
  {
    match org.repos.fetch(page)
    case Failure(e) => Failure(RepoListFailed(e))
    case Success(p) =>
      Then(HarvestRepos(org.pulls, p.items),
           if p.nextPage == 0 then Success([]) else Harvest(org, p.nextPage))
  }

  /** The entries that pass the age filter, in their original order. */
  function Stale(entries: seq<PRWithRepo>, now: int): (r: seq<PRWithRepo>)
    ensures |r| <= |entries|
    ensures forall k :: 0 <= k < |r| ==> IsStale(r[k].pr, now)
  {
    if entries == [] then []
    else
      var last := entries[|entries| - 1];
      Stale(entries[..|entries| - 1], now) + (if IsStale(last.pr, now) then [last] else [])
  }

  /** The filter distributes over concatenation. */
  lemma {:induction false} StaleConcat(a: seq<PRWithRepo>, b: seq<PRWithRepo>, now: int)
    ensures Stale(a + b, now) == Stale(a, now) + Stale(b, now)
    decreases |b|
  {
    if b != [] {
      var c := a + b;
      assert c[..|c| - 1] == a + b[..|b| - 1];
      assert c[|c| - 1] == b[|b| - 1];
      StaleConcat(a, b[..|b| - 1], now);
    } else {
      assert a + b == a;
    }
  }

  /** The loop over one page of pull requests: append to `acc`, tagged with `name`, each one
      that passes the age filter, in page order. */
  method AppendStale(acc: seq<PRWithRepo>, name: string, items: seq<PullRequest>, now: int)
    returns (out: seq<PRWithRepo>)
    ensures out == acc + Stale(Tag(name, items), now)
  {
    out := acc;
    for k := 0 to |items|
      invariant out == acc + Stale(Tag(name, items[..k]), now)
    {
      var entry := PRWithRepo(items[k], name);
      ghost var done := Tag(name, items[..k]);
      assert items[..k + 1][..k] == items[..k];
      assert Tag(name, items[..k + 1]) == done + [entry];
      assert (done + [entry])[..k] == done;
      if IsStale(entry.pr, now) {
        out := out + [entry];
      }
    }
    assert items[..|items|] == items;
  }

  /** The inner loop of `main` for one repository: list its open pull requests page by page
      from the first, append each one that passes the age filter to `oldPrs`, tagged with
      `name`, and stop after the page whose `NextPage` is 0; a listing error aborts.
      `requested` records the page number of every request made. */
  method CollectRepoStale(prs: Listing<PullRequest>, name: string, now: int, oldPrs: seq<PRWithRepo>)
    returns (r: Result<seq<PRWithRepo>, Abort>, ghost requested: seq<nat>)
    requires Forward(prs)
    ensures Fetch(prs, 0).Failure? ==> r == Failure(PrListFailed(Fetch(prs, 0).error))
    ensures Fetch(prs, 0).Success? ==> r == Success(oldPrs + Stale(Tag(name, Fetch(prs, 0).value), now))
    ensures requested == Requests(prs, 0)
  {
    var acc := oldPrs;
    ghost var examined: seq<PRWithRepo> := [];
    var page: nat := 0;
    requested := [];
    PrependEmpty(TagFetch(name, Fetch(prs, 0)));
    while true
      invariant page <= prs.pageCount
      invariant Requests(prs, 0) == requested + Requests(prs, page)
      invariant acc == oldPrs + Stale(examined, now)
      invariant TagFetch(name, Fetch(prs, 0)) == Prepend(examined, TagFetch(name, Fetch(prs, page)))
      decreases prs.pageCount - page
    {
      var resp := prs.fetch(page);
      PullPageStep(name, prs, page, examined);
      requested := requested + [page];
      if resp.Failure? {
        return Failure(PrListFailed(resp.error)), requested;
      }
      var items := resp.value.items;
      var next := resp.value.nextPage;
      StaleAppend(oldPrs, examined, Tag(name, items), now);
      acc := AppendStale(acc, name, items, now);
      examined := examined + Tag(name, items);
      if next == 0 {
        return Success(acc), requested;
      }
      page := next;
    }
  }

  /** One page of the inner loop, after the entries already examined: a failure aborts with
      the wrapped error; otherwise the page's tagged pull requests follow those examined, and the
      following pages follow them. */
  lemma PullPageStep(name: string, prs: Listing<PullRequest>, page: nat, examined: seq<PRWithRepo>)
    requires Forward(prs) && page <= prs.pageCount
    ensures prs.fetch(page).Failure? ==>
      && Requests(prs, page) == [page]
      && Prepend(examined, TagFetch(name, Fetch(prs, page))) == Failure(PrListFailed(prs.fetch(page).error))
    ensures prs.fetch(page).Success? && prs.fetch(page).value.nextPage == 0 ==>
      && Requests(prs, page) == [page]
      && Prepend(examined, TagFetch(name, Fetch(prs, page))) ==
         Success(examined + Tag(name, prs.fetch(page).value.items))
    ensures prs.fetch(page).Success? && prs.fetch(page).value.nextPage != 0 ==>
      && page < prs.fetch(page).value.nextPage <= prs.pageCount
      && Requests(prs, page) == [page] + Requests(prs, prs.fetch(page).value.nextPage)
      && Prepend(examined, TagFetch(name, Fetch(prs, page))) ==
         Prepend(examined + Tag(name, prs.fetch(page).value.items),
                 TagFetch(name, Fetch(prs, prs.fetch(page).value.nextPage)))
  {
    RequestsStep(prs, page);
    if prs.fetch(page).Success? {
      var p := prs.fetch(page).value;
      if p.nextPage != 0 {
        TagFetchPrepend(name, p.items, Fetch(prs, p.nextPage));
        PrependPrepend(examined, Tag(name, p.items), TagFetch(name, Fetch(prs, p.nextPage)));
      }
    }
  }

  /** `StaleConcat` in the form the accumulating loops use: filtering more examined entries
      appends their survivors to the accumulated list. */
  lemma StaleAppend(acc: seq<PRWithRepo>, examined: seq<PRWithRepo>, more: seq<PRWithRepo>, now: int)
    ensures acc + Stale(examined + more, now) == (acc + Stale(examined, now)) + Stale(more, now)
  {
    StaleConcat(examined, more, now);
  }

  /** The nested pagination loops of `main` up to the sort: `oldPrs` is every examined pull
      request that passes the age filter, in examination order; any listing error aborts.
      `repoRequests` records the page number of every repository listing request made. */
  method CollectStale(org: Org, now: int) returns (r: Result<seq<PRWithRepo>, Abort>, ghost repoRequests: seq<nat>)
    requires Valid(org)
    ensures Harvest(org, 0).Failure? ==> r == Failure(Harvest(org, 0).error)
    ensures Harvest(org, 0).Success? ==> r == Success(Stale(Harvest(org, 0).value, now))
    ensures repoRequests <= Requests(org.repos, 0)
    ensures r.Success? ==> repoRequests == Requests(org.repos, 0)
  {
    var oldPrs: seq<PRWithRepo> := [];
    ghost var examined: seq<PRWithRepo> := [];
    var reposPage: nat := 0;
    repoRequests := [];
    PrependEmpty(Harvest(org, 0));
    while true
      invariant reposPage <= org.repos.pageCount
      invariant Requests(org.repos, 0) == repoRequests + Requests(org.repos, reposPage)
      invariant oldPrs == Stale(examined, now)
      invariant Harvest(org, 0) == Prepend(examined, Harvest(org, reposPage))
      decreases org.repos.pageCount - reposPage
    {
      var repoResp := org.repos.fetch(reposPage);
      RepoPageStep(org, reposPage, examined);
      RequestLogStep(org.repos, 0, repoRequests, reposPage);
      repoRequests := repoRequests + [reposPage];
      if repoResp.Failure? {
        return Failure(RepoListFailed(repoResp.error)), repoRequests;
      }
      var found := CollectReposStale(org.pulls, repoResp.value.items, now, oldPrs);
      if found.Failure? {
        return found, repoRequests;
      }
      ghost var harvested := HarvestRepos(org.pulls, repoResp.value.items).value;
      StaleConcat(examined, harvested, now);
      examined := examined + harvested;
      oldPrs := found.value;
      if repoResp.value.nextPage == 0 {
        return Success(oldPrs), repoRequests;
      }
      reposPage := repoResp.value.nextPage;
    }
  }

  /** One page of the repository listing, after the entries already examined: a failure of the
      listing or of one of the page's repositories aborts; otherwise the pull requests of the
      page's repositories come next, then the following pages. */
  lemma RepoPageStep(org: Org, page: nat, examined: seq<PRWithRepo>)
    requires Valid(org) && page <= org.repos.pageCount
    ensures org.repos.fetch(page).Failure? ==>
      && Requests(org.repos, page) == [page]
      && Prepend(examined, Harvest(org, page)) == Failure(RepoListFailed(org.repos.fetch(page).error))
    ensures org.repos.fetch(page).Success? && HarvestRepos(org.pulls, org.repos.fetch(page).value.items).Failure? ==>
      Prepend(examined, Harvest(org, page)) == HarvestRepos(org.pulls, org.repos.fetch(page).value.items)
    ensures org.repos.fetch(page).Success? && org.repos.fetch(page).value.nextPage == 0 ==>
      && Requests(org.repos, page) == [page]
      && (HarvestRepos(org.pulls, org.repos.fetch(page).value.items).Success? ==>
          Prepend(examined, Harvest(org, page)) ==
          Success(examined + HarvestRepos(org.pulls, org.repos.fetch(page).value.items).value))
    ensures org.repos.fetch(page).Success? && org.repos.fetch(page).value.nextPage != 0 ==>
      && page < org.repos.fetch(page).value.nextPage <= org.repos.pageCount
      && Requests(org.repos, page) == [page] + Requests(org.repos, org.repos.fetch(page).value.nextPage)
      && (HarvestRepos(org.pulls, org.repos.fetch(page).value.items).Success? ==>
          Prepend(examined, Harvest(org, page)) ==
          Prepend(examined + HarvestRepos(org.pulls, org.repos.fetch(page).value.items).value,
                  Harvest(org, org.repos.fetch(page).value.nextPage)))
  {
    RequestsStep(org.repos, page);
    if org.repos.fetch(page).Success? {
      var p := org.repos.fetch(page).value;
      var here := HarvestRepos(org.pulls, p.items);
      if here.Success? {
        if p.nextPage == 0 {
          assert here.value + [] == here.value;
        } else {
          PrependPrepend(examined, here.value, Harvest(org, p.nextPage));
        }
      }
    }
  }

  /** The `for _, repo := range repos` loop over one page of repositories: for each in turn,
      collect its stale open pull requests after `oldPrs`; the first listing error aborts. */
  method CollectReposStale(pulls: string -> Listing<PullRequest>, repos: seq<Repository>, now: int,
                           oldPrs: seq<PRWithRepo>) returns (r: Result<seq<PRWithRepo>, Abort>)
    requires forall name :: Forward(pulls(name))
    ensures HarvestRepos(pulls, repos).Failure? ==> r == Failure(HarvestRepos(pulls, repos).error)
    ensures HarvestRepos(pulls, repos).Success? ==> r == Success(oldPrs + Stale(HarvestRepos(pulls, repos).value, now))
  {
    var acc := oldPrs;
    ghost var examined: seq<PRWithRepo> := [];
    PrependEmpty(HarvestRepos(pulls, repos));
    for i := 0 to |repos|
      invariant acc == oldPrs + Stale(examined, now)
      invariant HarvestRepos(pulls, repos) == Prepend(examined, HarvestRepos(pulls, repos[i..]))
    {
      var name := repos[i].name;
      RepoStep(pulls, repos, i, examined);
      var found, _ := CollectRepoStale(pulls(name), name, now, acc);
      if found.Failure? {
        return found;
      }
      ghost var tagged := Tag(name, Fetch(pulls(name), 0).value);
      StaleAppend(oldPrs, examined, tagged, now);
      examined := examined + tagged;
      acc := found.value;
    }
    assert repos[|repos|..] == [];
    PrependNothing(examined, HarvestRepos(pulls, repos[|repos|..]));
    return Success(acc);
  }

  /** One repository, after the entries already examined: a failing pull-request listing aborts
      with the wrapped error; otherwise its tagged pull requests come next, then those of the
      remaining repositories. */
  lemma RepoStep(pulls: string -> Listing<PullRequest>, repos: seq<Repository>, i: nat, examined: seq<PRWithRepo>)
    requires forall name :: Forward(pulls(name))
    requires i < |repos|
    ensures Fetch(pulls(repos[i].name), 0).Failure? ==>
      Prepend(examined, HarvestRepos(pulls, repos[i..])) ==
      Failure(PrListFailed(Fetch(pulls(repos[i].name), 0).error))
    ensures Fetch(pulls(repos[i].name), 0).Success? ==>
      Prepend(examined, HarvestRepos(pulls, repos[i..])) ==
      Prepend(examined + Tag(repos[i].name, Fetch(pulls(repos[i].name), 0).value),
              HarvestRepos(pulls, repos[i + 1..]))
  {
    assert repos[i..][1..] == repos[i + 1..];
    var fetched := TagFetch(repos[i].name, Fetch(pulls(repos[i].name), 0));
    if fetched.Success? {
      PrependPrepend(examined, fetched.value, HarvestRepos(pulls, repos[i + 1..]));
    }
  }

  /** The first `n` entries of `a` are in creation order. */
  ghost predicate SortedPrefix(a: array<PRWithRepo>, n: int)
    reads a
    requires 0 <= n <= a.Length
  {
    SortedByCreation(a[..n])
  }

  /** One step of the sort: move `a[i]` left past every earlier entry created after it. */
  method InsertIntoPrefix(a: array<PRWithRepo>, i: int)
    requires 0 <= i < a.Length
    requires SortedPrefix(a, i)
    modifies a
    ensures SortedPrefix(a, i + 1)
    ensures multiset(a[..i + 1]) == old(multiset(a[..i + 1]))
    ensures forall k :: i < k < a.Length ==> a[k] == old(a[k])
    ensures multiset(a[..]) == old(multiset(a[..]))
  {
    var j := SinkEntry(a, i);
    ghost var s := a[..i + 1];
    forall p, q | 0 <= p < q < |s| ensures !CreatedBefore(s[q], s[p]) {
      assert s[p] == a[p] && s[q] == a[q];
      if q == j && p < j - 1 {
        assert a[p].pr.createdAt <= a[j - 1].pr.createdAt;
      }
    }
    PrefixMultiset(a[..], old(a[..]), i + 1);
  }

  /** The loop of `InsertIntoPrefix`: swap `a[i]` with its left neighbour while that neighbour was
      created after it. The old `a[i]` stops at position `j`, where it is not older than its left
      neighbour and is strictly older than every entry it passed; the entries before `j` stay, the
      ones it passed each move one place right, and nothing past `i` moves. */
  method SinkEntry(a: array<PRWithRepo>, i: int) returns (j: int)
    requires 0 <= i < a.Length
    requires SortedPrefix(a, i)
    modifies a
    ensures 0 <= j <= i
    ensures j == 0 || !CreatedBefore(a[j], a[j - 1])
    ensures forall p, q :: 0 <= p < q <= i && p != j && q != j ==> a[p].pr.createdAt <= a[q].pr.createdAt
    ensures forall q :: j < q <= i ==> a[j].pr.createdAt < a[q].pr.createdAt
    ensures a[j] == old(a[i])
    ensures forall k :: 0 <= k < j ==> a[k] == old(a[k])
    ensures forall k :: j < k <= i ==> a[k] == old(a[k - 1])
    ensures forall k :: i < k < a.Length ==> a[k] == old(a[k])
    ensures multiset(a[..]) == old(multiset(a[..]))
  {
    j := i;
    while j > 0 && CreatedBefore(a[j], a[j - 1])
      invariant 0 <= j <= i
      invariant forall p, q :: 0 <= p < q <= i && p != j && q != j ==> a[p].pr.createdAt <= a[q].pr.createdAt
      invariant forall q :: j < q <= i ==> a[j].pr.createdAt < a[q].pr.createdAt
      invariant a[j] == old(a[i])
      invariant forall k :: 0 <= k < j ==> a[k] == old(a[k])
      invariant forall k :: j < k <= i ==> a[k] == old(a[k - 1])
      invariant forall k :: i < k < a.Length ==> a[k] == old(a[k])
      invariant multiset(a[..]) == old(multiset(a[..]))
    {
      Swap(a, j - 1, j);
      j := j - 1;
    }
  }

  /** Exchange two entries of `a`, leaving the others where they are. */
  method Swap(a: array<PRWithRepo>, x: int, y: int)
    requires 0 <= x < y < a.Length
    modifies a
    ensures a[x] == old(a[y]) && a[y] == old(a[x])
    ensures forall k :: 0 <= k < a.Length && k != x && k != y ==> a[k] == old(a[k])
    ensures multiset(a[..]) == old(multiset(a[..]))
  {
    a[x], a[y] := a[y], a[x];
  }

  /** Two sequences with the same elements and the same tail from `n` on have the same elements
      before `n`. */
  lemma PrefixMultiset(s: seq<PRWithRepo>, t: seq<PRWithRepo>, n: nat)
    requires multiset(s) == multiset(t) && n <= |s| == |t|
    requires forall k :: n <= k < |s| ==> s[k] == t[k]
    ensures multiset(s[..n]) == multiset(t[..n])
  {
    assert s[n..] == t[n..];
    assert s == s[..n] + s[n..];
    assert t == t[..n] + t[n..];
    forall x ensures multiset(s[..n])[x] == multiset(t[..n])[x] {
      assert multiset(s)[x] == multiset(s[..n])[x] + multiset(s[n..])[x];
      assert multiset(t)[x] == multiset(t[..n])[x] + multiset(t[n..])[x];
    }
  }

  /** `sort.Slice(oldPrs, less)` with `less` = `CreatedBefore`: reorders the entries in place so
      that creation times never decrease. `sort.Slice` promises no order among entries created at
      the same second, and neither does this contract, although the insertion sort below happens
      to keep them in place. */
  method SortByCreatedAt(a: array<PRWithRepo>)
    modifies a
    ensures SortedByCreation(a[..])
    ensures multiset(a[..]) == old(multiset(a[..]))
  {
    var i := 0;
    while i < a.Length
      invariant 0 <= i <= a.Length
      invariant SortedPrefix(a, i)
      invariant multiset(a[..]) == old(multiset(a[..]))
    {
      InsertIntoPrefix(a, i);
      i := i + 1;
    }
  }

  /** `main` without the final `printTable`: the stale open pull requests of every repository of
      the organisation, sorted by creation time, or the first listing error, in which case
      nothing is sorted or printed. */
  method ListOpenPrsOrg(org: Org, now: int) returns (r: Result<seq<PRWithRepo>, Abort>)
    requires Valid(org)
    ensures r.Failure? <==> Harvest(org, 0).Failure?
    ensures r.Failure? ==> r.error == Harvest(org, 0).error
    ensures r.Success? ==>
      && SortedByCreation(r.value)
      && multiset(r.value) == multiset(Stale(Harvest(org, 0).value, now))
  {
    var collected, _ := CollectStale(org, now);
    if collected.Failure? {
      return collected;
    }
    var oldPrs := collected.value;
    var a := new PRWithRepo[|oldPrs|](k requires 0 <= k < |oldPrs| => oldPrs[k]);
    assert a[..] == oldPrs;
    SortByCreatedAt(a);
    r := Success(a[..]);
  }

  /** The cutoff is 1,814,400 seconds and the comparison is strict: a pull request exactly
      three weeks old is dropped, one a second older is kept. */
  lemma AgeCutoffBoundary(pr: PullRequest, now: int)
    ensures AgeCutoff == 1814400
    ensures Age(pr, now) == AgeCutoff ==> !IsStale(pr, now)
    ensures Age(pr, now) == AgeCutoff + 1 ==> IsStale(pr, now)
  {
  }

  /** The filter keeps every copy of an entry that passes it and drops every copy of one that
      does not. */
  lemma {:induction false} StaleCounts(entries: seq<PRWithRepo>, now: int)
    ensures forall e ::
      multiset(Stale(entries, now))[e] == if IsStale(e.pr, now) then multiset(entries)[e] else 0
    decreases |entries|
  {
    if entries != [] {
      var init := entries[..|entries| - 1];
      var last := entries[|entries| - 1];
      StaleCounts(init, now);
      assert entries == init + [last];
    }
  }

  lemma {:induction false} HarvestReposConcat(pulls: string -> Listing<PullRequest>, a: seq<Repository>, b: seq<Repository>)
    requires forall name :: Forward(pulls(name))
    ensures HarvestRepos(pulls, a + b) == Then(HarvestRepos(pulls, a), HarvestRepos(pulls, b))
    decreases |a|
  {
    if a == [] {
      assert a + b == b;
      ThenEmpty(HarvestRepos(pulls, b));
    } else {
      assert (a + b)[1..] == a[1..] + b;
      HarvestReposConcat(pulls, a[1..], b);
      ThenAssociative(TagFetch(a[0].name, Fetch(pulls(a[0].name), 0)), HarvestRepos(pulls, a[1..]), HarvestRepos(pulls, b));
    }
  }

  /** Listing the pull requests of some repositories succeeds exactly when the listing of each
      of them does. */
  lemma {:induction false} HarvestReposSucceedsIff(pulls: string -> Listing<PullRequest>, repos: seq<Repository>)
    requires forall name :: Forward(pulls(name))
    ensures HarvestRepos(pulls, repos).Success? <==>
      forall i :: 0 <= i < |repos| ==> Fetch(pulls(repos[i].name), 0).Success?
    decreases |repos|
  {
    if repos != [] {
      HarvestReposSucceedsIff(pulls, repos[1..]);
      assert forall i :: 1 <= i < |repos| ==> repos[i] == repos[1..][i - 1];
    }
  }

  /** Whatever the interleaving, the examined pull requests are those of the repositories the
      whole repository listing returns, in listing order; and a failing repository listing
      always aborts the run. */
  lemma {:induction false} HarvestFollowsRepoListing(org: Org, page: nat)
    requires Valid(org) && page <= org.repos.pageCount
    ensures Fetch(org.repos, page).Failure? ==> Harvest(org, page).Failure?
    ensures Fetch(org.repos, page).Success? ==>
      Harvest(org, page) == HarvestRepos(org.pulls, Fetch(org.repos, page).value)
    decreases org.repos.pageCount - page
  {
    match org.repos.fetch(page)
    case Failure(_) =>
    case Success(p) =>
      if p.nextPage == 0 {
        ThenNothing(HarvestRepos(org.pulls, p.items));
      } else {
        HarvestFollowsRepoListing(org, p.nextPage);
        var rest := Fetch(org.repos, p.nextPage);
        if rest.Success? {
          HarvestReposConcat(org.pulls, p.items, rest.value);
        }
      }
  }

  /** Every examined entry carries the name of a repository that was listed, and its pull
      request is one of those listed for that repository. */
  lemma {:induction false} HarvestReposOrigin(pulls: string -> Listing<PullRequest>, repos: seq<Repository>, e: PRWithRepo)
    requires forall name :: Forward(pulls(name))
    requires HarvestRepos(pulls, repos).Success? && e in HarvestRepos(pulls, repos).value
    ensures exists repo :: repo in repos && repo.name == e.repo
    ensures Fetch(pulls(e.repo), 0).Success? && e.pr in Fetch(pulls(e.repo), 0).value
    decreases |repos|
  {
    var name := repos[0].name;
    var first := TagFetch(name, Fetch(pulls(name), 0));
    var rest := HarvestRepos(pulls, repos[1..]);
    assert first.Success? && rest.Success?;
    if e in first.value {
      TagMember(name, Fetch(pulls(name), 0).value, e);
      assert repos[0] in repos;
    } else {
      assert e in rest.value;
      HarvestReposOrigin(pulls, repos[1..], e);
      var repo :| repo in repos[1..] && repo.name == e.repo;
      assert repo in repos;
    }
  }

  /** What the command reports: each entry of the output of a successful run is older than the
      cutoff, names a repository of the organisation's listing, and holds one of that
      repository's listed open pull requests. */
  lemma ReportedEntryOrigin(org: Org, now: int, out: seq<PRWithRepo>, e: PRWithRepo)
    requires Valid(org) && Harvest(org, 0).Success?
    requires multiset(out) == multiset(Stale(Harvest(org, 0).value, now))
    requires e in out
    ensures IsStale(e.pr, now)
    ensures Fetch(org.repos, 0).Success?
    ensures exists repo :: repo in Fetch(org.repos, 0).value && repo.name == e.repo
    ensures Fetch(org.pulls(e.repo), 0).Success? && e.pr in Fetch(org.pulls(e.repo), 0).value
  {
    var all := Harvest(org, 0).value;
    StaleCounts(all, now);
    assert multiset(out)[e] > 0;
    assert e in all;
    HarvestFollowsRepoListing(org, 0);
    HarvestReposOrigin(org.pulls, Fetch(org.repos, 0).value, e);
  }

  /** A repository page with no repositories still follows its `NextPage`. */
  lemma EmptyRepoPageFollowsNextPage(org: Org, page: nat)
    requires Valid(org) && page <= org.repos.pageCount
    requires org.repos.fetch(page).Success? && org.repos.fetch(page).value.items == []
    requires org.repos.fetch(page).value.nextPage != 0
    ensures Harvest(org, page) == Harvest(org, org.repos.fetch(page).value.nextPage)
  {
    ThenEmpty(Harvest(org, org.repos.fetch(page).value.nextPage));
  }

  /** A repository without open pull requests contributes nothing. */
  lemma RepoWithoutPrsContributesNothing(pulls: string -> Listing<PullRequest>, repos: seq<Repository>)
    requires forall name :: Forward(pulls(name))
    requires repos != [] && Fetch(pulls(repos[0].name), 0) == Success([])
    ensures HarvestRepos(pulls, repos) == HarvestRepos(pulls, repos[1..])
  {
    assert Tag(repos[0].name, []) == [];
    ThenEmpty(HarvestRepos(pulls, repos[1..]));
  }

  lemma TagFetchPrepend(name: string, items: seq<PullRequest>, rest: Result<seq<PullRequest>, ApiError>)
    ensures TagFetch(name, Prepend(items, rest)) == Prepend(Tag(name, items), TagFetch(name, rest))
  {
    if rest.Success? {
      TagConcat(name, items, rest.value);
    }
  }
}
