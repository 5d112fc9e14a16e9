/** Response shapes of the hosting service's REST API, and the post-processing that both
    revisions of the GithubOps class (src/github-ops.ts and the older src/GithubOps.ts) do
    alike. The revisions differ in what they throw when a field is missing, so the error
    each one raises is a parameter here. */
module Api {
  import opened Results
  import opened Text
  import Seqs
  import GitOps

  /** What the GithubOps operations throw. */
  datatype GithubError =
    | FalsyValue                 // `reify`: "got a falsy value"
    | TypeError                  // a property read on null/undefined, or spreading a non-iterable
    | ShaNotFound(sha: string)   // "Could not find sha <sha> in git log"
    | FailedToCreatePr           // "Failed to create PR"
    | FalsyIssueNumber           // "Falsy issue number"

  /** `Boolean(s)` for a string that may be missing. */
  predicate Truthy(s: Option<string>)
  {
    s.Some? && s.value != ""
  }

  const PullUrlPrefix: string := "https://github.com/"

  /** The web address the operations give a pull request. */
  function PullUrl(repo: GitOps.RepoRef, number: nat): string
  {
    PullUrlPrefix + repo.owner + "/" + repo.name + "/pull/" + Decimal(number)
  }

  /** Within one repository the address names the pull request: different numbers never
      share an address. */
  lemma PullUrlInjective(repo: GitOps.RepoRef, m: nat, n: nat)
    requires PullUrl(repo, m) == PullUrl(repo, n)
    ensures m == n
  {
    var base := PullUrlPrefix + repo.owner + "/" + repo.name + "/pull/";
    assert PullUrl(repo, m) == base + Decimal(m);
    assert PullUrl(repo, n) == base + Decimal(n);
    assert Decimal(m) == PullUrl(repo, m)[|base|..];
    assert Decimal(n) == PullUrl(repo, n)[|base|..];
    DecimalRoundTrip(m);
    DecimalRoundTrip(n);
  }

  /** `items.map(curr => ({ user: <login of curr.user>, ... }))`: every item becomes a record
      carrying its author's login; an item whose `user` is null throws `missing`. */
  function Convert<I, P>(items: seq<I>, userOf: I -> Option<string>, info: (I, string) -> P,
                         missing: GithubError): (r: Result<seq<P>, GithubError>)
    ensures r.Ok? <==> forall i :: 0 <= i < |items| ==> userOf(items[i]).Some?
    ensures r.Err? ==> r.error == missing
    ensures r.Ok? ==> |r.value| == |items|
    ensures r.Ok? ==> forall i :: 0 <= i < |items| ==> r.value[i] == info(items[i], userOf(items[i]).value)
  {
    if |items| == 0 then Ok([])
    else match userOf(items[0])
      case None => Err(missing)
      case Some(login) =>
        var rest :- Convert(items[1..], userOf, info, missing);
        Ok([info(items[0], login)] + rest)
  }

  /** Selecting among the converted records is converting the selected response items,
      when the selection reads the same on a record and on the item it came from. */
  lemma {:induction false} ConvertThenSelect<I(!new), P(!new)>(
    items: seq<I>, userOf: I -> Option<string>, info: (I, string) -> P, missing: GithubError,
    keep: P -> bool, pick: I -> bool)
    requires Convert(items, userOf, info, missing).Ok?
    requires forall it :: userOf(it).Some? ==> keep(info(it, userOf(it).value)) == pick(it)
    ensures Convert(Seqs.Filter(items, pick), userOf, info, missing).Ok?
    ensures Seqs.Filter(Convert(items, userOf, info, missing).value, keep)
         == Convert(Seqs.Filter(items, pick), userOf, info, missing).value
  {
    if |items| > 0 {
      var rest := Convert(items[1..], userOf, info, missing);
      var converted := Convert(items, userOf, info, missing).value;
      assert converted == [info(items[0], userOf(items[0]).value)] + rest.value;
      assert converted[1..] == rest.value;
      ConvertThenSelect(items[1..], userOf, info, missing, keep, pick);
    }
  }

  /** An item of the search response `listPrs` reads; `user` is its author's login, `None`
      when the item's `user` is null. */
  datatype SearchItem = SearchItem(user: Option<string>, title: string, number: nat, updatedAt: string)

  datatype PrInfo = PrInfo(user: string, title: string, url: string, updatedAt: string, number: nat)

  function SearchUser(it: SearchItem): Option<string>
  {
    it.user
  }

  /** The record `listPrs` makes of a search item of `repo` and its author's login. */
  function PrInfoOf(repo: GitOps.RepoRef): (SearchItem, string) -> PrInfo
  {
    (it: SearchItem, login: string) => PrInfo(login, it.title, PullUrl(repo, it.number), it.updatedAt, it.number)
  }

  function OwnedBy(login: string): PrInfo -> bool
  {
    (p: PrInfo) => p.user == login
  }

  function AuthoredBy(login: string): SearchItem -> bool
  {
    (it: SearchItem) => it.user == Some(login)
  }

  /** `listPrs` for the authenticated `login`: convert every item, then keep the records
      whose author is `login`, in response order. */
  function ListPrsWith(repo: GitOps.RepoRef, login: string, items: seq<SearchItem>,
                       missing: GithubError): (r: Result<seq<PrInfo>, GithubError>)
    ensures r.Ok? <==> forall i :: 0 <= i < |items| ==> items[i].user.Some?
    ensures r.Err? ==> r.error == missing
    ensures r.Ok? ==> forall i :: 0 <= i < |r.value| ==> r.value[i].user == login
  {
    var infos :- Convert(items, SearchUser, PrInfoOf(repo), missing);
    Ok(Seqs.Filter(infos, OwnedBy(login)))
  }

  /** `listPrs` answers exactly the response items `login` authored, converted, in response order. */
  lemma ListPrsSelects(repo: GitOps.RepoRef, login: string, items: seq<SearchItem>, missing: GithubError)
    requires ListPrsWith(repo, login, items, missing).Ok?
    ensures Convert(Seqs.Filter(items, AuthoredBy(login)), SearchUser, PrInfoOf(repo), missing).Ok?
    ensures ListPrsWith(repo, login, items, missing).value
         == Convert(Seqs.Filter(items, AuthoredBy(login)), SearchUser, PrInfoOf(repo), missing).value
  {
    ConvertThenSelect(items, SearchUser, PrInfoOf(repo), missing, OwnedBy(login), AuthoredBy(login));
  }

  /** An item of the closed-pull-request listing `listMerged` reads. */
  datatype PullItem = PullItem(user: Option<string>, title: string, number: nat, mergedAt: Option<string>)

  datatype MergedPrInfo = MergedPrInfo(user: string, title: string, url: string, mergedAt: Option<string>, number: nat)

  function PullUser(it: PullItem): Option<string>
  {
    it.user
  }

  /** The record `listMerged` makes of a pull request of `repo` and its author's login. */
  function MergedInfoOf(repo: GitOps.RepoRef): (PullItem, string) -> MergedPrInfo
  {
    (it: PullItem, login: string) => MergedPrInfo(login, it.title, PullUrl(repo, it.number), it.mergedAt, it.number)
  }

  function IsMerged(p: MergedPrInfo): bool
  {
    Truthy(p.mergedAt)
  }

  function MergedBy(login: string): MergedPrInfo -> bool
  {
    (p: MergedPrInfo) => p.user == login
  }

  /** What `listMerged` keeps of a record: merged, and by `user` when one is given. */
  function MergedFor(user: Option<string>): MergedPrInfo -> bool
  {
    (p: MergedPrInfo) => Truthy(p.mergedAt) && (Truthy(user) ==> p.user == user.value)
  }

  /** The same selection read on a response item. */
  function MergedPullFor(user: Option<string>): PullItem -> bool
  {
    (it: PullItem) => Truthy(it.mergedAt) && (Truthy(user) ==> it.user == user)
  }

  /** `per_page`: 100 when a user is given, 40 otherwise. */
  function PageSize(user: Option<string>): (n: nat)
  {
    if Truthy(user) then 100 else 40
  }

  /** `listMerged`: ask for a page of `PageSize(user)` closed pull requests (`respond` is
      the service's answer to that page size), convert every item, keep those with a
      truthy `mergedAt`, and then, when a user is given, those by that user. */
  function ListMergedWith(repo: GitOps.RepoRef, user: Option<string>, respond: nat -> seq<PullItem>,
                          missing: GithubError): (r: Result<seq<MergedPrInfo>, GithubError>)
    ensures var items := respond(if Truthy(user) then 100 else 40);
      r.Ok? <==> forall i :: 0 <= i < |items| ==> items[i].user.Some?
    ensures r.Err? ==> r.error == missing
    ensures r.Ok? ==> forall i :: 0 <= i < |r.value| ==> Truthy(r.value[i].mergedAt)
    ensures r.Ok? && Truthy(user) ==> forall i :: 0 <= i < |r.value| ==> r.value[i].user == user.value
  {
    var infos :- Convert(respond(PageSize(user)), PullUser, MergedInfoOf(repo), missing);
    var merged := Seqs.Filter(infos, IsMerged);
    if Truthy(user) then Ok(Seqs.Filter(merged, MergedBy(user.value))) else Ok(merged)
  }

  /** `listMerged` answers exactly the merged pull requests of the page, by the given user
      when there is one, converted, in response order. */
  lemma ListMergedSelects(repo: GitOps.RepoRef, user: Option<string>, respond: nat -> seq<PullItem>,
                          missing: GithubError)
    requires ListMergedWith(repo, user, respond, missing).Ok?
    ensures var items := respond(PageSize(user));
      Convert(Seqs.Filter(items, MergedPullFor(user)), PullUser, MergedInfoOf(repo), missing).Ok?
      && ListMergedWith(repo, user, respond, missing).value
         == Convert(Seqs.Filter(items, MergedPullFor(user)), PullUser, MergedInfoOf(repo), missing).value
  {
    var items := respond(PageSize(user));
    var infos := Convert(items, PullUser, MergedInfoOf(repo), missing).value;
    var merged := Seqs.Filter(infos, IsMerged);
    if Truthy(user) {
      assert ListMergedWith(repo, user, respond, missing).value == Seqs.Filter(merged, MergedBy(user.value));
      Seqs.FilterFilter(infos, IsMerged, MergedBy(user.value), MergedFor(user));
    } else {
      assert ListMergedWith(repo, user, respond, missing).value == merged;
      Seqs.FilterFilter(infos, IsMerged, IsMerged, MergedFor(user));
      Seqs.FilterAll(merged, IsMerged);
    }
    SameSelection(repo, user);
    ConvertThenSelect(items, PullUser, MergedInfoOf(repo), missing, MergedFor(user), MergedPullFor(user));
  }

  lemma SameSelection(repo: GitOps.RepoRef, user: Option<string>)
    ensures forall it :: PullUser(it).Some? ==>
      MergedFor(user)(MergedInfoOf(repo)(it, PullUser(it).value)) == MergedPullFor(user)(it)
  {
  }

  /** One entry of a combined commit status. */
  datatype CommitStatus = CommitStatus(context: string, state: string, createdAt: string, updatedAt: string)

  /** The combined status of the current branch's head. */
  datatype CombinedStatus = CombinedStatus(statuses: seq<CommitStatus>, state: string, sha: string)

  datatype CheckStatusInfo = CheckStatusInfo(context: string, required: bool, state: string, createdAt: string, updatedAt: string)

  /** What `describeCommit` finds for a sha in the local history. */
  datatype DescribedCommit = DescribedCommit(ordinal: int, hash: string, message: string)

  datatype CheckInfo = CheckInfo(statuses: seq<CheckStatusInfo>, state: string, sha: string, commit: DescribedCommit)

  /** `required_status_checks` of the main branch's protection. */
  datatype RequiredStatusChecks = RequiredStatusChecks(contexts: Nullable<seq<string>>)

  /** `new Set(contexts)`. */
  function ContextSet(contexts: seq<string>): set<string>
  {
    set c | c in contexts
  }

  /** `info` carries the context, state and timestamps of `status` unchanged. */
  predicate CopiedFrom(info: CheckStatusInfo, status: CommitStatus)
  {
    && info.context == status.context
    && info.state == status.state
    && info.createdAt == status.createdAt
    && info.updatedAt == status.updatedAt
  }

  /** The statuses with `required` set when the context is one of the required ones. */
  function MarkRequired(statuses: seq<CommitStatus>, required: set<string>): (r: seq<CheckStatusInfo>)
    ensures |r| == |statuses|
    ensures forall i :: 0 <= i < |r| ==>
      (r[i].required <==> statuses[i].context in required) && CopiedFrom(r[i], statuses[i])
  {
    if |statuses| == 0 then []
    else
      var s := statuses[0];
      [CheckStatusInfo(s.context, s.context in required, s.state, s.createdAt, s.updatedAt)]
        + MarkRequired(statuses[1..], required)
  }

  /** `listChecks` once the required contexts are known: mark the statuses, then fail when
      the status sha is not in the local history. */
  function ChecksWith(required: set<string>, status: CombinedStatus,
                      described: Option<DescribedCommit>): (r: Result<CheckInfo, GithubError>)
    ensures r.Err? <==> described.None?
    ensures r.Err? ==> r.error == ShaNotFound(status.sha)
    ensures r.Ok? ==> r.value.sha == status.sha && r.value.state == status.state
    ensures r.Ok? ==> r.value.commit == described.value
    ensures r.Ok? ==> |r.value.statuses| == |status.statuses|
    ensures r.Ok? ==> forall i :: 0 <= i < |status.statuses| ==>
      (r.value.statuses[i].required <==> status.statuses[i].context in required)
      && CopiedFrom(r.value.statuses[i], status.statuses[i])
  {
    var statuses := MarkRequired(status.statuses, required);
    match described
    case None => Err(ShaNotFound(status.sha))
    case Some(d) => Ok(CheckInfo(statuses, status.state, status.sha, d))
  }
}
