/** The GithubOps class of src/github-ops.ts: `reify`, the check-run grouping of
    `getChecks`, and the post-processing of `listPrs`, `listChecks`, `listMerged` and
    `createPr`. Every service response is an input. */
module GithubOps {
  import opened Results
  import opened Text
  import Seqs
  import GitOps
  import opened Api

  /** `reify`: a value that is neither null nor undefined, or "got a falsy value". */
  function Reify<T>(t: Nullable<T>): (r: Result<T, GithubError>)
    ensures r.Ok? <==> t.Present?
    ensures r.Ok? ==> r.value == t.value
    ensures r.Err? ==> r.error == FalsyValue
  {
    match t
    case Present(v) => Ok(v)
    case _ => Err(FalsyValue)
  }

  /** A check run of the pull request's head, as the service lists it. */
  datatype CheckRun = CheckRun(
    name: string,
    status: string,
    conclusion: Option<string>,
    startedAt: Option<string>,
    htmlUrl: Option<string>,
    summary: Option<string>)

  datatype Check =
    | Failing(name: string, url: Option<string>, summary: Option<string>)
    | Passing(name: string)
    | Pending(name: string, startedAt: Option<string>, url: Option<string>)

  function IsPendingRun(cr: CheckRun): bool
  {
    cr.status != "completed"
  }

  function IsPassingRun(cr: CheckRun): bool
  {
    cr.status == "completed" && cr.conclusion == Some("success")
  }

  function IsFailingRun(cr: CheckRun): bool
  {
    cr.status == "completed" && cr.conclusion != Some("success")
  }

  function PendingOf(cr: CheckRun): Check
  {
    Pending(cr.name, cr.startedAt, cr.htmlUrl)
  }

  function PassingOf(cr: CheckRun): Check
  {
    Passing(cr.name)
  }

  function FailingOf(cr: CheckRun): Check
  {
    Failing(cr.name, cr.htmlUrl, cr.summary)
  }

  /** The one bucket a run belongs to: not completed is pending, completed with success is
      passing, completed with any other conclusion (none included) is failing. */
  function Classify(cr: CheckRun): (c: Check)
    ensures c.name == cr.name
    ensures c.Pending? <==> cr.status != "completed"
    ensures c.Passing? <==> cr.status == "completed" && cr.conclusion == Some("success")
    ensures c.Failing? <==> cr.status == "completed" && cr.conclusion != Some("success")
    ensures c.Pending? ==> c.startedAt == cr.startedAt && c.url == cr.htmlUrl
    ensures c.Failing? ==> c.url == cr.htmlUrl && c.summary == cr.summary
  {
    if IsPendingRun(cr) then PendingOf(cr)
    else if IsPassingRun(cr) then PassingOf(cr)
    else FailingOf(cr)
  }

  function IsPending(c: Check): bool
  {
    c.Pending?
  }

  function IsPassing(c: Check): bool
  {
    c.Passing?
  }

  function IsFailing(c: Check): bool
  {
    c.Failing?
  }

  /** The position of a check's bucket in `getChecks`' answer. */
  function Rank(c: Check): nat
  {
    match c
    case Pending(_, _, _) => 0
    case Passing(_) => 1
    case Failing(_, _, _) => 2
  }

  /** Each of the three filter-and-map passes is the classification of the runs, filtered
      to that bucket. */
  lemma Buckets(runs: seq<CheckRun>)
    ensures Seqs.Map(Seqs.Filter(runs, IsPendingRun), PendingOf) == Seqs.Filter(Seqs.Map(runs, Classify), IsPending)
    ensures Seqs.Map(Seqs.Filter(runs, IsPassingRun), PassingOf) == Seqs.Filter(Seqs.Map(runs, Classify), IsPassing)
    ensures Seqs.Map(Seqs.Filter(runs, IsFailingRun), FailingOf) == Seqs.Filter(Seqs.Map(runs, Classify), IsFailing)
  {
    Seqs.MapFilter(runs, IsPendingRun, PendingOf, Classify, IsPending);
    Seqs.MapFilter(runs, IsPassingRun, PassingOf, Classify, IsPassing);
    Seqs.MapFilter(runs, IsFailingRun, FailingOf, Classify, IsFailing);
  }

  /** The three passes of `getChecks`. */
  function PendingChecks(runs: seq<CheckRun>): seq<Check>
  {
    Seqs.Map(Seqs.Filter(runs, IsPendingRun), PendingOf)
  }

  function PassingChecks(runs: seq<CheckRun>): seq<Check>
  {
    Seqs.Map(Seqs.Filter(runs, IsPassingRun), PassingOf)
  }

  function FailingChecks(runs: seq<CheckRun>): seq<Check>
  {
    Seqs.Map(Seqs.Filter(runs, IsFailingRun), FailingOf)
  }

  /** Together the three passes hold every classified run exactly as often as it occurs. */
  lemma PassesPermute(runs: seq<CheckRun>)
    ensures multiset(PendingChecks(runs) + PassingChecks(runs) + FailingChecks(runs))
         == multiset(Seqs.Map(runs, Classify))
  {
    var cs := Seqs.Map(runs, Classify);
    Buckets(runs);
    OneBucketEach();
    Seqs.FilterPartition(cs, IsPending, IsPassing, IsFailing);
  }

  /** Every check is in exactly one bucket. */
  lemma OneBucketEach()
    ensures forall c :: (IsPending(c) || IsPassing(c) || IsFailing(c)) && !(IsPending(c) && IsPassing(c))
                        && !(IsPending(c) && IsFailing(c)) && !(IsPassing(c) && IsFailing(c))
  {
  }

  /** Pending checks, then passing ones, then failing ones, are in bucket order. */
  lemma RanksAscend(a: seq<Check>, b: seq<Check>, c: seq<Check>)
    requires forall i :: 0 <= i < |a| ==> IsPending(a[i])
    requires forall i :: 0 <= i < |b| ==> IsPassing(b[i])
    requires forall i :: 0 <= i < |c| ==> IsFailing(c[i])
    ensures forall i, j :: 0 <= i < j < |a + b + c| ==> Rank((a + b + c)[i]) <= Rank((a + b + c)[j])
  {
    var s := a + b + c;
    forall i | 0 <= i < |s|
      ensures Rank(s[i]) == if i < |a| then 0 else if i < |a| + |b| then 1 else 2
    {
      if i < |a| {
        assert s[i] == a[i];
      } else if i < |a| + |b| {
        assert s[i] == b[i - |a|];
      } else {
        assert s[i] == c[i - |a| - |b|];
      }
    }
  }

  /** `getChecks`: the pending runs, then the passing ones, then the failing ones. The
      answer is a rearrangement of the classified runs, grouped by bucket. */
  function GetChecks(runs: seq<CheckRun>): (r: seq<Check>)
    ensures |r| == |runs|
    ensures multiset(r) == multiset(Seqs.Map(runs, Classify))
    ensures forall i, j :: 0 <= i < j < |r| ==> Rank(r[i]) <= Rank(r[j])
  {
    PassesPermute(runs);
    Buckets(runs);
    RanksAscend(PendingChecks(runs), PassingChecks(runs), FailingChecks(runs));
    assert |multiset(Seqs.Map(runs, Classify))| == |runs|;
    PendingChecks(runs) + PassingChecks(runs) + FailingChecks(runs)
  }

  /** `getChecks` is the three buckets of the classified runs, one after another. */
  lemma GetChecksIsBuckets(runs: seq<CheckRun>)
    ensures var cs := Seqs.Map(runs, Classify);
      GetChecks(runs) == Seqs.Filter(cs, IsPending) + Seqs.Filter(cs, IsPassing) + Seqs.Filter(cs, IsFailing)
  {
    Buckets(runs);
  }

  /** Each bucket of `getChecks`' answer lists its runs in the order the service gave them. */
  lemma GetChecksStable(runs: seq<CheckRun>)
    ensures Seqs.Filter(GetChecks(runs), IsPending) == Seqs.Filter(Seqs.Map(runs, Classify), IsPending)
    ensures Seqs.Filter(GetChecks(runs), IsPassing) == Seqs.Filter(Seqs.Map(runs, Classify), IsPassing)
    ensures Seqs.Filter(GetChecks(runs), IsFailing) == Seqs.Filter(Seqs.Map(runs, Classify), IsFailing)
  {
    var cs := Seqs.Map(runs, Classify);
    GetChecksIsBuckets(runs);
    OneBucket(Seqs.Filter(cs, IsPending), Seqs.Filter(cs, IsPassing), Seqs.Filter(cs, IsFailing));
  }

  /** Filtering three uniform buckets to one bucket gives that bucket back. */
  lemma OneBucket(a: seq<Check>, b: seq<Check>, c: seq<Check>)
    requires forall i :: 0 <= i < |a| ==> IsPending(a[i])
    requires forall i :: 0 <= i < |b| ==> IsPassing(b[i])
    requires forall i :: 0 <= i < |c| ==> IsFailing(c[i])
    ensures Seqs.Filter(a + b + c, IsPending) == a
    ensures Seqs.Filter(a + b + c, IsPassing) == b
    ensures Seqs.Filter(a + b + c, IsFailing) == c
  {
    Part(a, b, c, IsPending, true, false, false);
    Part(a, b, c, IsPassing, false, true, false);
    Part(a, b, c, IsFailing, false, false, true);
  }

  /** Filtering `a + b + c` when each part either wholly passes the test or wholly fails it. */
  lemma Part(a: seq<Check>, b: seq<Check>, c: seq<Check>, p: Check -> bool, inA: bool, inB: bool, inC: bool)
    requires forall i :: 0 <= i < |a| ==> p(a[i]) == inA
    requires forall i :: 0 <= i < |b| ==> p(b[i]) == inB
    requires forall i :: 0 <= i < |c| ==> p(c[i]) == inC
    ensures Seqs.Filter(a + b + c, p) == (if inA then a else []) + (if inB then b else []) + (if inC then c else [])
  {
    Seqs.FilterConcat3(a, b, c, p);
    if inA { Seqs.FilterAll(a, p); } else { Seqs.FilterNone(a, p); }
    if inB { Seqs.FilterAll(b, p); } else { Seqs.FilterNone(b, p); }
    if inC { Seqs.FilterAll(c, p); } else { Seqs.FilterNone(c, p); }
  }

  /** `listPrs`: the open pull requests `login` authored; a search item without a user
      makes `reify` throw. */
  function ListPrs(repo: GitOps.RepoRef, login: string, items: seq<SearchItem>): (r: Result<seq<PrInfo>, GithubError>)
    ensures r.Ok? <==> forall i :: 0 <= i < |items| ==> items[i].user.Some?
    ensures r.Err? ==> r.error == FalsyValue
    ensures r.Ok? ==> r.value == Convert(Seqs.Filter(items, AuthoredBy(login)), SearchUser, PrInfoOf(repo), FalsyValue).value
  {
    var r := ListPrsWith(repo, login, items, FalsyValue);
    if r.Ok? then ListPrsSelects(repo, login, items, FalsyValue); r else r
  }

  /** The contexts `listChecks` reads: `required_status_checks?.contexts`. */
  function RequiredContexts(checks: Option<RequiredStatusChecks>): Nullable<seq<string>>
  {
    match checks
    case None => Undefined
    case Some(c) => c.contexts
  }

  /** `listChecks`: `reify` the main branch's required contexts first, then mark each
      status required when its context is one of them, then describe the status sha. */
  function ListChecks(checks: Option<RequiredStatusChecks>, status: CombinedStatus,
                      described: Option<DescribedCommit>): (r: Result<CheckInfo, GithubError>)
    ensures r == Err(FalsyValue) <==> checks.None? || !checks.value.contexts.Present?
    ensures r.Err? && r != Err(FalsyValue) ==> r == Err(ShaNotFound(status.sha))
    ensures r == Err(ShaNotFound(status.sha)) <==>
      checks.Some? && checks.value.contexts.Present? && described.None?
    ensures r.Ok? ==> r.value.sha == status.sha && r.value.commit == described.value
    ensures r.Ok? ==> r.value.state == status.state
    ensures r.Ok? ==> |r.value.statuses| == |status.statuses|
    ensures r.Ok? ==> forall i :: 0 <= i < |status.statuses| ==>
      (r.value.statuses[i].required <==> status.statuses[i].context in checks.value.contexts.value)
      && CopiedFrom(r.value.statuses[i], status.statuses[i])
  {
    var contexts :- Reify(RequiredContexts(checks));
    ChecksWith(ContextSet(contexts), status, described)
  }

  /** `listMerged`: the merged pull requests of one page of closed ones, the given user's
      only when a user is given; a pull request without a user makes `reify` throw. */
  function ListMerged(repo: GitOps.RepoRef, user: Option<string>, respond: nat -> seq<PullItem>): (r: Result<seq<MergedPrInfo>, GithubError>)
    ensures var items := respond(if Truthy(user) then 100 else 40);
      r.Ok? <==> forall i :: 0 <= i < |items| ==> items[i].user.Some?
    ensures r.Err? ==> r.error == FalsyValue
    ensures r.Ok? ==>
      r.value == Convert(Seqs.Filter(respond(PageSize(user)), MergedPullFor(user)), PullUser, MergedInfoOf(repo), FalsyValue).value
  {
    var r := ListMergedWith(repo, user, respond, FalsyValue);
    if r.Ok? then ListMergedSelects(repo, user, respond, FalsyValue); r else r
  }

  /** One entry of the `errors` array of a rejected creation. */
  datatype ApiErrorEntry = ApiErrorEntry(resource: Option<string>, message: Nullable<string>)

  /** What creating a pull request answered: its number, or a rejection whose `errors`
      array may be missing. */
  datatype CreateResponse = Created(number: nat) | Rejected(errors: Option<seq<ApiErrorEntry>>)

  /** The label update `createPr` ends with. */
  datatype LabelUpdate = LabelUpdate(issueNumber: nat, labels: seq<string>)

  const AlreadyExists: string := "A pull request already exists"

  /** `String(v)` for a message that may be null or undefined. */
  function MessageText(m: Nullable<string>): string
  {
    match m
    case Null => "null"
    case Undefined => "undefined"
    case Present(s) => s
  }

  /** The test `createPr` applies to each error entry. */
  predicate SaysAlreadyExists(e: ApiErrorEntry)
  {
    e.resource == Some("PullRequest") && Contains(MessageText(e.message), AlreadyExists)
  }

  /** `createPr`: a created pull request gets the configured labels. A rejection is
      rethrown as "Failed to create PR" unless an entry says the pull request already
      exists, and then no issue number was obtained, so "Falsy issue number" is thrown.
      A rejection without an `errors` array cannot be spread and throws a TypeError. */
  function CreatePr(resp: CreateResponse, labels: seq<string>): (r: Result<LabelUpdate, GithubError>)
    ensures r.Ok? <==> resp.Created?
    ensures r.Ok? ==> r.value == LabelUpdate(resp.number, labels)
    ensures r == Err(TypeError) <==> resp.Rejected? && resp.errors.None?
    ensures r == Err(FalsyIssueNumber) <==>
      resp.Rejected? && resp.errors.Some? && exists i :: 0 <= i < |resp.errors.value| && SaysAlreadyExists(resp.errors.value[i])
    ensures r == Err(FailedToCreatePr) <==>
      resp.Rejected? && resp.errors.Some? && forall i :: 0 <= i < |resp.errors.value| ==> !SaysAlreadyExists(resp.errors.value[i])
  {
    match resp
    case Created(n) => Ok(LabelUpdate(n, labels))
    case Rejected(None) => Err(TypeError)
    case Rejected(Some(errors)) =>
      if exists i :: 0 <= i < |errors| && SaysAlreadyExists(errors[i]) then Err(FalsyIssueNumber)
      else Err(FailedToCreatePr)
  }

  /** A rejection that says the pull request already exists still fails, and never reaches
      the label update. */
  lemma AlreadyExistingPrFails(resource: string, prefix: string, suffix: string, labels: seq<string>)
    requires resource == "PullRequest"
    ensures CreatePr(Rejected(Some([ApiErrorEntry(Some(resource), Present(prefix + AlreadyExists + suffix))])), labels)
         == Err(FalsyIssueNumber)
  {
    ContainsInfix(prefix, AlreadyExists, suffix);
    var e := ApiErrorEntry(Some(resource), Present(prefix + AlreadyExists + suffix));
    assert SaysAlreadyExists([e][0]);
  }
}
