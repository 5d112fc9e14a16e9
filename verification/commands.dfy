/** The command logic of src/main.ts: the `format` column helper, `prIsUpToDate`, the
    `submit` guard chain, the `upload` sequence with its bounded wait, and the head
    indication `status` prints. Every `getCurrentPr` answer, the local branch facts and
    the command-line arguments are inputs; the calls the commands make are results. */
module Commands {
  import opened Results
  import opened Text
  import GitOps

  /** How many times `upload --submit` looks for its commit on the pull request. */
  const MaxPolls: nat := 5

  /** `format(s, n)`: `s.substr(0, n)` when `s` is longer than `n`, else `s.padEnd(n)`.
      A negative `n` gives `""`, as `substr` clamps a negative length to zero. */
  function Format(s: string, n: int): (r: string)
    ensures n >= 0 ==> |r| == n
    ensures n < 0 ==> r == ""
    ensures |s| > n ==> r <= s
    ensures |s| <= n ==> r[..|s|] == s && forall i :: |s| <= i < |r| ==> r[i] == ' '
  {
    if |s| > n then s[..if n < 0 then 0 else n] else s + Spaces(n - |s|)
  }

  /** Formatting an already formatted column changes nothing. */
  lemma FormatIdempotent(s: string, n: int)
    ensures Format(Format(s, n), n) == Format(s, n)
  {
  }

  /** A value that already fills the column is shown as it is. */
  lemma FormatExact(s: string)
    ensures Format(s, |s|) == s
  {
  }

  /** The head commit of a pull request; `ordinal` is its distance from the local tip
      (0 = the tip, negative = not in local history). */
  datatype CommitInfo = CommitInfo(ordinal: int, abbreviatedOid: string, message: string)

  /** What `getCurrentPr` reports about the current branch's pull request. The check
      summaries come from the hosting service and are taken as given. */
  datatype CurrentPr = CurrentPr(
    number: int,
    title: string,
    url: string,
    mergeabilityStatus: string,
    lastCommit: Option<CommitInfo>,
    foundFailingRequiredChecks: bool,
    checksArePositive: bool,
    hasRequiredStatusChecks: bool)

  /** What the commands throw. */
  datatype Failure =
    | MissingLastCommit   // "Failed to retreive information about the PR's latest commit"
    | NotReflected        // "uploaded commit was not shown on the PR so the PR was not submitted"
    | WriteRejected       // `updatePrTitle` or `createPr` rejected, and `upload` rethrows it

  /** `prIsUpToDate`: the PR's head commit is the local tip; throws when the PR has no
      head commit information. */
  function PrIsUpToDate(pr: CurrentPr): (r: Result<bool, Failure>)
    ensures r.Err? <==> pr.lastCommit.None?
    ensures r.Err? ==> r.error == MissingLastCommit
    ensures r.Ok? ==> (r.value <==> pr.lastCommit.value.ordinal == 0)
  {
    match pr.lastCommit
    case None => Err(MissingLastCommit)
    case Some(c) => Ok(c.ordinal == 0)
  }

  /** The messages after which `submit` returns without acting. */
  datatype Notice =
    | NoPrFound        // "No PR was found for the current branch"
    | NotPushed        // "You have local changes that were not pushed to the PR"
    | MergeConflicts   // "This PR is blocked by merge conflicts"
    | FailingChecks    // "This PR is blocked by failing checks"

  datatype SubmitOutcome =
    | Stopped(stop: GitOps.Stop)         // `stopMe`: the process exits
    | Reported(notice: Notice)
    | Threw(failure: Failure)
    | Merged(prNumber: int)              // merge requested, then a switch to the main branch
    | AutoMergeRequested(prNumber: int)  // a `#automerge` comment requested

  /** The local checks of `submit` and `upload` pass: not on the main branch, and for
      `submit` no uncommitted changes. */
  predicate Local(onMainBranch: bool, changedFiles: seq<string>)
  {
    !onMainBranch && changedFiles == []
  }

  /** The PR's head commit is known and is the local tip. */
  predicate UpToDate(pr: CurrentPr)
  {
    pr.lastCommit.Some? && pr.lastCommit.value.ordinal == 0
  }

  /** Every guard of `submit` after the local checks passes for `pr`. */
  predicate ReadyToSubmit(pr: CurrentPr)
  {
    && UpToDate(pr)
    && pr.mergeabilityStatus != "CONFLICTING"
    && !pr.foundFailingRequiredChecks
  }

  /** `submit`: the first failing guard decides; merging needs positive checks or no
      required checks at all, and otherwise `#automerge` is requested. */
  function Submit(onMainBranch: bool, changedFiles: seq<string>, pr: Option<CurrentPr>): (r: SubmitOutcome)
    ensures r.Stopped? <==> !Local(onMainBranch, changedFiles)
    ensures onMainBranch ==> r == Stopped(GitOps.OnMainBranch)
    ensures !onMainBranch && changedFiles != [] ==> r == Stopped(GitOps.UncommittedChanges)
    ensures r == Reported(NoPrFound) <==> Local(onMainBranch, changedFiles) && pr.None?
    ensures r == Threw(MissingLastCommit) <==>
      Local(onMainBranch, changedFiles) && pr.Some? && pr.value.lastCommit.None?
    ensures r.Threw? ==> r == Threw(MissingLastCommit)
    ensures r == Reported(NotPushed) <==>
      Local(onMainBranch, changedFiles) && pr.Some? && pr.value.lastCommit.Some?
      && pr.value.lastCommit.value.ordinal != 0
    ensures r == Reported(MergeConflicts) <==>
      Local(onMainBranch, changedFiles) && pr.Some? && UpToDate(pr.value)
      && pr.value.mergeabilityStatus == "CONFLICTING"
    ensures r == Reported(FailingChecks) <==>
      Local(onMainBranch, changedFiles) && pr.Some? && UpToDate(pr.value)
      && pr.value.mergeabilityStatus != "CONFLICTING" && pr.value.foundFailingRequiredChecks
    ensures r.Merged? <==>
      Local(onMainBranch, changedFiles) && pr.Some? && ReadyToSubmit(pr.value)
      && (pr.value.checksArePositive || !pr.value.hasRequiredStatusChecks)
    ensures r.AutoMergeRequested? <==>
      Local(onMainBranch, changedFiles) && pr.Some? && ReadyToSubmit(pr.value)
      && !pr.value.checksArePositive && pr.value.hasRequiredStatusChecks
    ensures r.Merged? || r.AutoMergeRequested? ==> r.prNumber == pr.value.number
  {
    if onMainBranch then Stopped(GitOps.OnMainBranch)
    else match GitOps.NoUncommittedChanges(changedFiles)
    case Some(stop) => Stopped(stop)
    case None =>
      match pr
      case None => Reported(NoPrFound)
      case Some(p) =>
        match PrIsUpToDate(p)
        case Err(e) => Threw(e)
        case Ok(upToDate) =>
          if !upToDate then Reported(NotPushed)
          else if p.mergeabilityStatus == "CONFLICTING" then Reported(MergeConflicts)
          else if p.foundFailingRequiredChecks then Reported(FailingChecks)
          else if p.checksArePositive || !p.hasRequiredStatusChecks then Merged(p.number)
          else AutoMergeRequested(p.number)
  }

  /** Failing required checks block the merge even when the checks are also reported positive. */
  lemma FailingChecksBlockMerge(onMainBranch: bool, changedFiles: seq<string>, pr: CurrentPr)
    requires pr.foundFailingRequiredChecks
    ensures !Submit(onMainBranch, changedFiles, Some(pr)).Merged?
    ensures !Submit(onMainBranch, changedFiles, Some(pr)).AutoMergeRequested?
  {
  }

  /** A PR without head-commit information makes `submit` throw, which is not the
      "not pushed" message a PR with a stale head gets. */
  lemma MissingCommitIsNotStale(changedFiles: seq<string>, pr: CurrentPr)
    requires changedFiles == []
    ensures pr.lastCommit.None? ==> Submit(false, changedFiles, Some(pr)) == Threw(MissingLastCommit)
    ensures pr.lastCommit.Some? && pr.lastCommit.value.ordinal != 0
      ==> Submit(false, changedFiles, Some(pr)) == Reported(NotPushed)
  {
  }

  /** A call `upload` makes. */
  datatype Effect =
    | Pushed(args: seq<string>)                    // `git push` with these arguments
    | TitleUpdated(prNumber: int, title: string)
    | PrCreated(title: string)
    | SubmitStarted                                // `submit()` is started, not awaited

  datatype Ending = Done | Halted(stop: GitOps.Stop) | Failed(failure: Failure)

  /** What `upload` did: the calls in order, how it ended, and how many times it polled. */
  datatype UploadRun = UploadRun(effects: seq<Effect>, ending: Ending, polls: nat)

  /** `p?.lastCommit?.ordinal === 0`. */
  predicate Reflected(p: Option<CurrentPr>)
  {
    p.Some? && UpToDate(p.value)
  }

  /** The wait loop from attempt `from` on: the first attempt whose lookup shows the
      pushed commit at the PR's head, if any within `MaxPolls` attempts. */
  function FirstReflected(poll: nat -> Option<CurrentPr>, from: nat): (r: Option<nat>)
    requires from <= MaxPolls
    ensures r.Some? ==> from <= r.value < MaxPolls && Reflected(poll(r.value))
    ensures r.Some? ==> forall j :: from <= j < r.value ==> !Reflected(poll(j))
    ensures r.None? ==> forall j :: from <= j < MaxPolls ==> !Reflected(poll(j))
    decreases MaxPolls - from
  {
    if from == MaxPolls then None
    else if Reflected(poll(from)) then Some(from)
    else FirstReflected(poll, from + 1)
  }

  /** The title write `upload` makes: rename the PR found after the push, or create one. */
  function TitleWrite(afterPush: Option<CurrentPr>, title: string): Effect
  {
    if afterPush.Some? then TitleUpdated(afterPush.value.number, title) else PrCreated(title)
  }

  /** `upload` after the push decision: with a title, update the current PR's title or
      create a PR, which may reject; then with `--submit` wait for the push to show and
      start `submit`. `rejected` is whether the title write rejects. */
  function AfterPush(pushed: seq<Effect>, title: string, submit: bool, afterPush: Option<CurrentPr>,
                     rejected: bool, poll: nat -> Option<CurrentPr>): (r: UploadRun)
    ensures r.polls <= MaxPolls
    ensures |r.effects| >= |pushed| && r.effects[..|pushed|] == pushed
    ensures forall i :: |pushed| <= i < |r.effects| ==> !r.effects[i].Pushed?
    ensures title == "" ==> r == UploadRun(pushed, Done, 0)
    ensures title != "" ==> |r.effects| > |pushed| && r.effects[|pushed|] == TitleWrite(afterPush, title)
    ensures r.ending == Failed(WriteRejected) <==> title != "" && rejected
    ensures title != "" && !submit && !rejected ==> |r.effects| == |pushed| + 1 && r.ending == Done && r.polls == 0
    ensures title != "" && submit ==>
      (r.ending == Failed(NotReflected) <==> !rejected && forall j :: 0 <= j < MaxPolls ==> !Reflected(poll(j)))
    ensures title != "" && submit && r.ending.Done? ==>
      && r.polls >= 1 && Reflected(poll(r.polls - 1))
      && (forall j :: 0 <= j < r.polls - 1 ==> !Reflected(poll(j)))
      && |r.effects| == |pushed| + 2 && r.effects[|pushed| + 1] == SubmitStarted
    ensures r.ending == Failed(WriteRejected) ==> r.polls == 0
    ensures r.ending == Failed(NotReflected) ==> r.polls == MaxPolls
    ensures r.ending.Failed? ==> |r.effects| == |pushed| + 1
    ensures !r.ending.Halted? && r.ending != Failed(MissingLastCommit)
  {
    if title == "" then UploadRun(pushed, Done, 0)
    else
      var written := pushed + [TitleWrite(afterPush, title)];
      if rejected then UploadRun(written, Failed(WriteRejected), 0)
      else if !submit then UploadRun(written, Done, 0)
      else match FirstReflected(poll, 0)
        case Some(i) => UploadRun(written + [SubmitStarted], Done, i + 1)
        case None => UploadRun(written, Failed(NotReflected), MaxPolls)
  }

  /** `!pr || !prIsUpToDate(pr)`: whether `upload` pushes, or the failure `prIsUpToDate` throws. */
  function NeedsPush(first: Option<CurrentPr>): (r: Result<bool, Failure>)
    ensures r.Err? <==> first.Some? && first.value.lastCommit.None?
    ensures r.Err? ==> r.error == MissingLastCommit
    ensures r.Ok? ==> (r.value <==> first.None? || first.value.lastCommit.value.ordinal != 0)
  {
    match first
    case None => Ok(true)
    case Some(p) =>
      match PrIsUpToDate(p)
      case Err(e) => Err(e)
      case Ok(upToDate) => Ok(!upToDate)
  }

  /** Whether a run began with a push. */
  predicate PushedFirst(r: UploadRun)
  {
    |r.effects| > 0 && r.effects[0].Pushed?
  }

  /** `upload`: not on the main branch; push unless the PR exists and is up to date (a PR
      without head-commit information throws); then `AfterPush`. `first` and `afterPush`
      are the two `getCurrentPr` answers, `rejected` whether the title write rejects, and
      `poll(i)` the answer at wait attempt `i`. */
  function Upload(onMainBranch: bool, changedFiles: seq<string>, branch: string, title: string,
                  submit: bool, first: Option<CurrentPr>, afterPush: Option<CurrentPr>,
                  rejected: bool, poll: nat -> Option<CurrentPr>): (r: UploadRun)
    ensures r.polls <= MaxPolls
    ensures onMainBranch ==> r == UploadRun([], Halted(GitOps.OnMainBranch), 0)
    ensures r.ending == Failed(MissingLastCommit) <==>
      !onMainBranch && first.Some? && first.value.lastCommit.None?
    ensures r.ending == Failed(MissingLastCommit) ==> r.effects == [] && r.polls == 0
    ensures PushedFirst(r) <==>
      !onMainBranch && changedFiles == []
      && (first.None? || (first.value.lastCommit.Some? && first.value.lastCommit.value.ordinal != 0))
    ensures PushedFirst(r) ==> r.effects[0] == Pushed(["--set-upstream", "origin", branch])
    ensures forall i :: 1 <= i < |r.effects| ==> !r.effects[i].Pushed?
    ensures r.ending == Halted(GitOps.UncommittedChanges) <==>
      !onMainBranch && changedFiles != []
      && (first.None? || (first.value.lastCommit.Some? && first.value.lastCommit.value.ordinal != 0))
    ensures r.ending.Halted? ==> r.effects == []
  {
    if onMainBranch then UploadRun([], Halted(GitOps.OnMainBranch), 0)
    else match NeedsPush(first)
      case Err(e) => UploadRun([], Failed(e), 0)
      case Ok(mustPush) =>
        if !mustPush then AfterPush([], title, submit, afterPush, rejected, poll)
        else match GitOps.Push(changedFiles, branch)
          case Err(stop) => UploadRun([], Halted(stop), 0)
          case Ok(args) => AfterPush([Pushed(args)], title, submit, afterPush, rejected, poll)
  }

  /** Once `upload` gets past the push, an empty title ends it, and otherwise it writes
      the title exactly once: a rename when a PR is found, a creation when none is. A
      rejected write ends the run there, before any lookup. */
  lemma UploadWritesTitle(changedFiles: seq<string>, branch: string, title: string, submit: bool,
                          first: Option<CurrentPr>, afterPush: Option<CurrentPr>, rejected: bool,
                          poll: nat -> Option<CurrentPr>)
    requires NeedsPush(first).Ok?
    requires NeedsPush(first).value ==> changedFiles == []
    ensures var r := Upload(false, changedFiles, branch, title, submit, first, afterPush, rejected, poll);
      var k := if NeedsPush(first).value then 1 else 0;
      && (title == "" ==> r.ending == Done && |r.effects| == k)
      && (title != "" ==> |r.effects| > k && r.effects[k] == TitleWrite(afterPush, title))
      && (title != "" && rejected ==> r.ending == Failed(WriteRejected) && r.polls == 0 && |r.effects| == k + 1)
  {
  }

  /** With `--submit` and an accepted title write, `upload` fails exactly when none of the
      five lookups shows the pushed commit at the PR's head, and otherwise starts `submit`
      after the first that does; a rejected write fails before any lookup. */
  lemma UploadSubmitWaits(changedFiles: seq<string>, branch: string, title: string,
                          first: Option<CurrentPr>, afterPush: Option<CurrentPr>, rejected: bool,
                          poll: nat -> Option<CurrentPr>)
    requires NeedsPush(first).Ok?
    requires NeedsPush(first).value ==> changedFiles == []
    requires title != ""
    ensures var r := Upload(false, changedFiles, branch, title, true, first, afterPush, rejected, poll);
      && (r.ending == Failed(WriteRejected) <==> rejected)
      && (r.ending == Failed(NotReflected) <==> !rejected && forall j :: 0 <= j < MaxPolls ==> !Reflected(poll(j)))
      && (r.ending == Done <==> !rejected && exists j :: 0 <= j < MaxPolls && Reflected(poll(j)))
      && (r.ending == Done ==> r.effects[|r.effects| - 1] == SubmitStarted && Reflected(poll(r.polls - 1)))
  {
  }

  /** Where a PR's head commit sits relative to the local tip, as `status` shows it. */
  datatype Head = NotInHistory | Behind(k: nat)

  function HeadOf(ordinal: int): Head
  {
    if ordinal < 0 then NotInHistory else Behind(ordinal)
  }

  /** The `status` head indication: nothing for a commit outside local history,
      `HEAD: ` for the tip and `HEAD~k: ` for `k` commits back. */
  function HeadIndication(ordinal: int): (r: string)
    ensures ordinal < 0 <==> r == ""
    ensures ordinal == 0 <==> r == "HEAD: "
    ensures ordinal > 0 ==> |r| >= 8 && r[..5] == "HEAD~" && EndsWith(r, ": ")
  {
    if ordinal < 0 then ""
    else "HEAD" + (if ordinal == 0 then "" else "~" + Decimal(ordinal)) + ": "
  }

  /** Reads a head indication back; `None` for text `HeadIndication` never produces. */
  function ParseHeadIndication(s: string): (r: Option<Head>)
  {
    if s == "" then Some(NotInHistory)
    else if s == "HEAD: " then Some(Behind(0))
    else if |s| >= 8 && s[..5] == "HEAD~" && s[|s| - 2..] == ": "
      && Canonical(s[5..|s| - 2]) && s[5] != '0'
    then Some(Behind(ParseDecimal(s[5..|s| - 2])))
    else None
  }

  /** Every head indication reads back as the position it was made from. */
  lemma HeadIndicationRoundTrip(ordinal: int)
    ensures ParseHeadIndication(HeadIndication(ordinal)) == Some(HeadOf(ordinal))
  {
    if ordinal > 0 {
      var s := HeadIndication(ordinal);
      var d := Decimal(ordinal);
      assert s == "HEAD~" + d + ": ";
      assert s[5..|s| - 2] == d;
      DecimalRoundTrip(ordinal);
    }
  }

  /** Everything that reads as a head indication is the indication of that position. */
  lemma ParseHeadIndicationExact(s: string, h: Head)
    requires ParseHeadIndication(s) == Some(h)
    ensures h.NotInHistory? ==> HeadIndication(-1) == s
    ensures h.Behind? ==> HeadIndication(h.k) == s
  {
    if |s| >= 8 && s != "HEAD: " && s != "" {
      var d := s[5..|s| - 2];
      ParseDecimalRoundTrip(d);
      assert s == "HEAD~" + d + ": ";
    }
  }

  /** Two commit positions never share a head indication. */
  lemma HeadIndicationInjective(a: int, b: int)
    requires HeadIndication(a) == HeadIndication(b)
    ensures HeadOf(a) == HeadOf(b)
  {
    HeadIndicationRoundTrip(a);
    HeadIndicationRoundTrip(b);
  }
}
