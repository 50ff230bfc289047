/** A worked run of the organisation report: organisation `acme` lists the repositories
    `widgets` and `gadgets` on one page; `widgets` has open pull requests #1, #2 and #3,
    created 25, 10 and 22 days ago; `gadgets` has none. */
module Scenario {
  import opened Results
  import opened Paging
  import opened StalePrs

  const Day: int := 24 * 60 * 60
  const Now: int := 100 * Day

  const Pr1: PullRequest := PullRequest(1, "ann", "first", Now - 25 * Day)
  const Pr2: PullRequest := PullRequest(2, "bob", "second", Now - 10 * Day)
  const Pr3: PullRequest := PullRequest(3, "cy", "third", Now - 22 * Day)

  /** A listing with a single page whose `NextPage` is 0. */
  function OnePage<T>(items: seq<T>): (l: Listing<T>)
    ensures Forward(l)
  {
    Listing(p => Success(Page(items, 0)), 1)
  }

  function Acme(): (org: Org)
    ensures Valid(org)
  {
    Org(OnePage([Repository("widgets"), Repository("gadgets")]),
        name => if name == "widgets" then OnePage([Pr1, Pr2, Pr3]) else OnePage([]))
  }

  const W1: PRWithRepo := PRWithRepo(Pr1, "widgets")
  const W2: PRWithRepo := PRWithRepo(Pr2, "widgets")
  const W3: PRWithRepo := PRWithRepo(Pr3, "widgets")

  /** The run examines #1, #2 and #3 of `widgets`, in that order, and nothing else. */
  lemma AcmeExamined()
    ensures Harvest(Acme(), 0) == Success([W1, W2, W3])
  {
    var org := Acme();
    var widgets := Fetch(org.pulls("widgets"), 0);
    assert widgets == Success([Pr1, Pr2, Pr3]);
    assert Fetch(org.pulls("gadgets"), 0) == Success([]);
    assert [Pr1, Pr2, Pr3][..2] == [Pr1, Pr2];
    assert [Pr1, Pr2][..1] == [Pr1];
    assert [Pr1][..0] == [];
    assert Tag("widgets", [Pr1]) == [W1];
    assert Tag("widgets", [Pr1, Pr2]) == [W1, W2];
    assert Tag("widgets", [Pr1, Pr2, Pr3]) == [W1, W2, W3];
    assert Tag("gadgets", []) == [];
    var repos := [Repository("widgets"), Repository("gadgets")];
    assert repos[1..][1..] == [];
    assert HarvestRepos(org.pulls, repos[1..][1..]) == Success([]);
    assert repos[1..][0].name == "gadgets";
    assert TagFetch("gadgets", Success([])) == Success([]);
    ThenEmpty(HarvestRepos(org.pulls, repos[1..][1..]));
    assert HarvestRepos(org.pulls, repos[1..]) == Success([]);
    assert repos[0].name == "widgets";
    assert TagFetch("widgets", widgets) == Success([W1, W2, W3]);
    assert [W1, W2, W3] + [] == [W1, W2, W3];
    assert HarvestRepos(org.pulls, repos) == Success([W1, W2, W3]);
    ThenNothing(HarvestRepos(org.pulls, repos));
  }

  /** Of those, #1 (25 days) and #3 (22 days) are past the cutoff, #2 (10 days) is not. */
  lemma AcmeStale()
    ensures Stale([W1, W2, W3], Now) == [W1, W3]
  {
    assert [W1, W2, W3][..2] == [W1, W2];
    assert [W1, W2][..1] == [W1];
    assert [W1][..0] == [];
    assert Stale([W1], Now) == [W1];
    assert Stale([W1, W2], Now) == [W1];
  }

  /** A successful run of the report prints #1 and then #3 of `widgets`. */
  lemma AcmeReport(out: seq<PRWithRepo>)
    requires SortedByCreation(out)
    requires multiset(out) == multiset(Stale(Harvest(Acme(), 0).value, Now))
    ensures out == [W1, W3]
  {
    AcmeExamined();
    AcmeStale();
    assert multiset(out) == multiset{W1, W3};
    assert |out| == 2;
    assert out == [out[0], out[1]];
    assert multiset{out[0], out[1]} == multiset{W1, W3};
    assert !CreatedBefore(out[1], out[0]);
  }
}
