/** The older GithubOps class of src/GithubOps.ts. It reads `curr.user.login` and
    `required_status_checks.contexts` without guards, so a missing object is a TypeError
    rather than `reify`'s error, and a missing `contexts` array is an empty set. */
module GithubOpsLegacy {
  import opened Results
  import Seqs
  import GitOps
  import opened Api
  import GithubOps

  /** `listPrs`: the open pull requests `login` authored; a search item whose `user` is
      null throws a TypeError. */
  function ListPrs(repo: GitOps.RepoRef, login: string, items: seq<SearchItem>): (r: Result<seq<PrInfo>, GithubError>)
    ensures r.Ok? <==> forall i :: 0 <= i < |items| ==> items[i].user.Some?
    ensures r.Err? ==> r.error == TypeError
    ensures r.Ok? ==>
      r.value == Convert(Seqs.Filter(items, AuthoredBy(login)), SearchUser, PrInfoOf(repo), TypeError).value
  {
    var r := ListPrsWith(repo, login, items, TypeError);
    if r.Ok? then ListPrsSelects(repo, login, items, TypeError); r else r
  }

  /** `new Set(contexts)`, where a null or undefined `contexts` gives the empty set. */
  function ContextsOrNone(contexts: Nullable<seq<string>>): (r: set<string>)
    ensures forall c :: c in r <==> contexts.Present? && c in contexts.value
  {
    match contexts
    case Present(cs) => ContextSet(cs)
    case _ => {}
  }

  /** `listChecks` against the protection of `master`: a missing `required_status_checks`
      is a TypeError, raised before the status sha is described. */
  function ListChecks(checks: Option<RequiredStatusChecks>, status: CombinedStatus,
                      described: Option<DescribedCommit>): (r: Result<CheckInfo, GithubError>)
    ensures r == Err(TypeError) <==> checks.None?
    ensures r == Err(ShaNotFound(status.sha)) <==> checks.Some? && described.None?
    ensures r.Ok? ==> r.value.sha == status.sha && r.value.commit == described.value
    ensures r.Ok? ==> r.value.state == status.state
    ensures r.Ok? ==> |r.value.statuses| == |status.statuses|
    ensures r.Ok? ==> forall i :: 0 <= i < |status.statuses| ==>
      (r.value.statuses[i].required <==>
        checks.value.contexts.Present? && status.statuses[i].context in checks.value.contexts.value)
      && CopiedFrom(r.value.statuses[i], status.statuses[i])
  {
    match checks
    case None => Err(TypeError)
    case Some(c) => ChecksWith(ContextsOrNone(c.contexts), status, described)
  }

  /** When the protection lists no contexts, the newer revision fails where the older one
      marks every status as not required. */
  lemma MissingContextsDiffer(contexts: Nullable<seq<string>>, status: CombinedStatus, d: DescribedCommit)
    requires !contexts.Present?
    ensures GithubOps.ListChecks(Some(RequiredStatusChecks(contexts)), status, Some(d)) == Err(FalsyValue)
    ensures var r := ListChecks(Some(RequiredStatusChecks(contexts)), status, Some(d));
      r.Ok? && forall i :: 0 <= i < |r.value.statuses| ==> !r.value.statuses[i].required
  {
  }

  /** `listMerged`: the merged pull requests of one page of closed ones, the given user's
      only when a user is given; a pull request whose `user` is null throws a TypeError. */
  function ListMerged(repo: GitOps.RepoRef, user: Option<string>, respond: nat -> seq<PullItem>): (r: Result<seq<MergedPrInfo>, GithubError>)
    ensures var items := respond(if Truthy(user) then 100 else 40);
      r.Ok? <==> forall i :: 0 <= i < |items| ==> items[i].user.Some?
    ensures r.Err? ==> r.error == TypeError
    ensures r.Ok? ==>
      r.value == Convert(Seqs.Filter(respond(PageSize(user)), MergedPullFor(user)), PullUser, MergedInfoOf(repo), TypeError).value
  {
    var r := ListMergedWith(repo, user, respond, TypeError);
    if r.Ok? then ListMergedSelects(repo, user, respond, TypeError); r else r
  }
}
