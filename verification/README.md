# dcc, modelled in Dafny

dcc is a command-line helper for working with pull requests on GitHub. This project
models its pure logic: the parts that can be stated as functions once every answer from
git and from the hosting service is an input.

- **Remote-listing parser** (`GitOps.getRepo`, module `GitOps`). It reads the output of
  `git remote -v` and works out which repository the working copy belongs to. Of each
  non-empty line it keeps the second tab field, then the text between the first and
  second `:` of that, then the text before the first space, and it cuts that at `/`. So
  `host:owner/na:me.git` gives the name `na`. Every entry must end in `.git`, and all entries must name one repository. The
  errors come in a fixed order. `noUncommittedChanges` and `push` are modelled in the
  same module.
- **Command logic of `main.ts`** (module `Commands`):
  - the `format` column helper;
  - `prIsUpToDate`;
  - the `submit` guard chain, which ends in a stop, a message, a merge, or a
    `#automerge` comment;
  - the `upload` sequence (push, title update or PR creation, then a bounded wait of at
    most five lookups before `submit` starts);
  - the `HEAD~k: ` indication printed by `status`.
- **Post-processing of REST responses**. This covers the current `github-ops.ts`
  (module `GithubOps`) and the older `GithubOps.ts` (module `GithubOpsLegacy`):
  - `reify`;
  - the PENDING/PASSING/FAILING grouping of check runs;
  - the `required` flag of `listChecks`;
  - the order-preserving filters of `listPrs` and `listMerged`;
  - the error handling of `createPr`.

  What the two revisions share is in module `Api`. Where they differ:
  - a missing field throws `reify`'s "got a falsy value" in the newer revision and a
    TypeError in the older one, so that error is a parameter in `Api`;
  - the older `listChecks` turns a missing `contexts` array into an empty required set
    instead of throwing;
  - the older `listChecks` reads the protection of a hard-coded `master`, and the newer
    one reads the protection of the configured main branch.

Supporting modules:
- `Results`: `Option`, a `Nullable` for values that may be null or undefined, and `Result`.
- `Text`: JavaScript's one-character `split`, `endsWith`, `includes`, `padEnd` spaces,
  and decimal rendering.
- `Seqs`: order-preserving `filter` and `map`.

Each `split` is characterised by a round trip with `join`. Each filter is related to an
independent selection of the raw response. Each guard chain is stated as
if-and-only-if conditions on its inputs.

Three behaviours of the code shape the model:
- When the PR has no head-commit information, `prIsUpToDate` throws
  (`Failed to retreive information about the PR's latest commit`).
- `submit` reads three booleans from the PR record: `foundFailingRequiredChecks`,
  `checksArePositive` and `hasRequiredStatusChecks`. It merges when
  `checksArePositive || !hasRequiredStatusChecks` and otherwise requests auto-merge.
- When `foundFailingRequiredChecks` holds, `submit` prints "This PR is blocked by failing
  checks" and returns.

`main.ts` imports the class from `GithubOps.ts`, but it calls `updatePrTitle`, `merge` and
`addPrComment`, which only the class in `github-ops.ts` defines. The `upload` model therefore
follows the newer `createPr`. The older one's extra calls are listed under "Left out".

## Model

| member | source | states |
|---|---|---|
| Text.Split | src/GitOps.ts:40-41 | JavaScript's `split` on one character: there is always at least one piece; no piece contains the separator; there is a single piece iff the separator does not occur |
| GitOps.ParseLine | src/GitOps.ts:41 | a line fails with the missing-tab-field error iff it has no tab; it fails with the missing-colon-field error iff it has a tab and its second tab field has no `:`; there is no other failure; a parsed line contains `:`; the owner and name it yields contain no tab, colon, space or slash |
| GitOps.ParseRemoteLine | src/GitOps.ts:36-43 | a line `remote<TAB>host:owner/name <tail>` yields exactly the entry `{owner, name}` |
| GitOps.ParseLineNoTab | src/GitOps.ts:41 | a line without a tab fails: `split('\t')[1]` is undefined |
| GitOps.ParseNoSlashLine | src/GitOps.ts:41-43 | a line `remote<TAB>host:path <tail>` whose path holds no `/` yields the path as owner and no name, because `split('/')[1]` is undefined |
| GitOps.ParseLines | src/GitOps.ts:40-42 | the lines parse iff every non-empty line parses; empty lines are skipped; a failure is the error of the first non-empty line that does not parse |
| GitOps.ParseLinesEntries | src/GitOps.ts:40-43 | there is one entry per non-empty line, in line order, and each entry is that line's parse |
| GitOps.StripSuffixes | src/GitOps.ts:45-51 | succeeds iff every entry has a name ending in `.git`; each result is its entry with exactly the four-character `.git` removed; otherwise the error is that of the first entry without a name or without `.git` |
| GitOps.Agreeing | src/GitOps.ts:57-66 | the adjacent-pair loop succeeds iff all entries are equal; it then returns the first entry, and otherwise reports the first adjacent pair that differs |
| GitOps.SingleRepo | src/GitOps.ts:53-66 | "No repo found" iff there are no entries; success iff there are entries and all are equal, returning the first; otherwise the first differing adjacent pair is reported |
| GitOps.GetRepo | src/GitOps.ts:34-67 | on success some line is non-empty, and every non-empty line parses to the returned owner and to its name followed by `.git` |
| GitOps.GetRepoComplete | src/GitOps.ts:34-67 | conversely, if some line is non-empty and every non-empty line names `owner/name.git`, the answer is `{owner, name}` |
| GitOps.GetRepoParseFirst | src/GitOps.ts:40-48 | the first non-empty line that does not parse decides `getRepo`'s error, even when an earlier line lacks `.git`: the whole listing is parsed before any suffix is checked |
| GitOps.GetRepoNoRepo | src/GitOps.ts:40-55 | the answer is "No repo found" iff the output consists of line breaks only |
| GitOps.GetRepoSuffixFirst | src/GitOps.ts:45-64 | when every line parses but one entry lacks `.git`, the answer is the suffix error and not a disagreement error: the suffix loop runs first |
| GitOps.GetRepoDisagree | src/GitOps.ts:57-64 | two non-empty lines that parse to different entries give "More than one repo" |
| GitOps.GetRepoFetchPush | src/GitOps.ts:34-67 | the usual fetch line plus push line for `owner/name.git` gives `{owner, name}` |
| GitOps.ParseHttpsLine | src/GitOps.ts:41-43 | an `https://` remote yields an empty owner and an empty name, because the `//` is what follows the first colon |
| GitOps.GetRepoHttps | src/GitOps.ts:40-48 | a listing of one `https://` remote fails with the `.git` error on an empty name |
| GitOps.GetRepoNoSlash | src/GitOps.ts:40-47 | a listing of one such remote fails on the missing name: `endsWith` is read from an undefined name |
| GitOps.NoUncommittedChanges | src/GitOps.ts:17-22 | stops iff the diff summary lists at least one file |
| GitOps.Push | src/GitOps.ts:24-32 | pushes iff there are no changed files, with `--set-upstream origin <branch>`; otherwise stops on uncommitted changes |
| Commands.Format | src/main.ts:36-42 | for `n >= 0` the result has length exactly `n`; it is a prefix of `s` when `s` is longer, and otherwise `s` followed by spaces; a negative width gives `""` |
| Commands.FormatIdempotent | src/main.ts:36-42 | formatting a formatted value to the same width changes nothing |
| Commands.FormatExact | src/main.ts:36-42 | a value exactly as wide as the column is unchanged |
| Commands.PrIsUpToDate | src/main.ts:78-84 | fails iff `lastCommit` is absent; otherwise it is true iff the head commit's ordinal is 0 |
| Commands.Submit | src/main.ts:86-122 | the first failing guard decides, each outcome stated as an iff on the guards before it: it stops iff it is on the main branch (first) or there are uncommitted changes; "No PR was found" iff the local checks pass and there is no PR; it throws iff the PR lacks head-commit information; "not pushed" iff the head ordinal is not 0; "merge conflicts" iff the PR is up to date and CONFLICTING; "failing checks" iff it is up to date, not CONFLICTING and has failing required checks; it requests the merge iff all those guards pass and either `checksArePositive` holds or `hasRequiredStatusChecks` does not; otherwise it requests `#automerge` |
| Commands.FailingChecksBlockMerge | src/main.ts:108-121 | failing required checks prevent both the merge and the `#automerge` comment, even when `checksArePositive` is also true |
| Commands.MissingCommitIsNotStale | src/main.ts:78-101 | a PR without head-commit information makes `submit` throw, while a PR with a non-zero ordinal gets the "not pushed" message |
| Commands.FirstReflected | src/main.ts:160-170 | the wait loop finds the first attempt below five whose lookup shows ordinal 0, and none is found iff no attempt below five shows it |
| Commands.NeedsPush | src/main.ts:139-143 | `upload` pushes iff there is no PR or its head ordinal is not 0; it throws iff the PR lacks head-commit information |
| Commands.AfterPush | src/main.ts:145-172 | an empty title ends the run; otherwise the title is written once, as a rename of the PR found or as a creation; a rejected write ends the run with that failure before any lookup; with `--submit` and an accepted write it fails iff none of the five lookups shows the commit, and otherwise starts `submit` after the first that does; at most five lookups |
| Commands.Upload | src/main.ts:136-173 | on the main branch nothing happens; it throws before any push iff a PR exists without head-commit information; the run starts with a push iff no PR exists or the PR is not up to date, and there are no changed files; uncommitted changes stop the push; `upload` itself never pushes a second time; at most five lookups |
| Commands.UploadWritesTitle | src/main.ts:145-154 | past the push, an empty title ends `upload`; any other title is written exactly once, right after the push if there was one; a rejected write ends `upload` right there |
| Commands.UploadSubmitWaits | src/main.ts:149-172 | with `--submit`, `upload` fails with the rejection iff the title write rejects; otherwise it fails iff none of the five lookups shows the pushed commit, and it starts `submit` iff one does, after that lookup |
| Commands.HeadIndication | src/main.ts:185-189 | `""` iff the ordinal is negative; `HEAD: ` iff it is 0; otherwise `HEAD~` followed by `: ` |
| Commands.HeadIndicationRoundTrip | src/main.ts:186-189 | every head indication reads back as the position it was made from (not in history, or `k` back) |
| Commands.ParseHeadIndicationExact | src/main.ts:186-189 | everything that reads as a head indication is the indication of that position |
| Commands.HeadIndicationInjective | src/main.ts:186-189 | two commit positions never share a head indication |
| Api.PullUrlInjective | src/github-ops.ts:104 | within one repository, different pull request numbers give different addresses |
| Api.Convert | src/github-ops.ts:101-110 | converting the items succeeds iff every item has a user; each record is built from its item and that item's login, in order; otherwise the revision's missing-user error is thrown |
| Api.ConvertThenSelect | src/github-ops.ts:101-112 | filtering the converted records gives the conversion of the filtered response items |
| Api.ListPrsWith | src/github-ops.ts:95-113 | fails iff some item has no user; every record returned is by the authenticated login |
| Api.ListPrsSelects | src/github-ops.ts:101-112 | the answer is exactly the response items the login authored, converted, in response order |
| Seqs.FilterKeepsOrder | src/github-ops.ts:112 | `filter`, as `listPrs` and `listMerged` use it, keeps the items it selects in their original order: its result is a subsequence of its input |
| Seqs.FilterKeepsCopies | src/github-ops.ts:188-192 | `filter` keeps every copy of each item it selects, as often as the input holds it |
| Api.ListMergedWith | src/github-ops.ts:163-194 | the page asked for has 100 items with a user given and 40 without; it fails iff an item of that page has no user; every record has a truthy `mergedAt`; with a user given, every record is that user's |
| Api.ListMergedSelects | src/github-ops.ts:175-193 | the answer is exactly the merged items of the page, and that user's when a user is given, converted, in response order |
| Api.MarkRequired | src/github-ops.ts:146-153 | one entry per status, in order; `required` is set iff the context is among the required contexts; the context, state, `createdAt` and `updatedAt` are copied |
| Api.ChecksWith | src/github-ops.ts:146-160 | fails with "Could not find sha" iff the status sha cannot be described; otherwise one entry per status, in order, with its context, state and timestamps copied and `required` set iff its context is required, together with the combined state, the sha and the described commit |
| GithubOps.Reify | src/github-ops.ts:41-46 | returns the value unchanged iff it is neither null nor undefined; otherwise "got a falsy value" |
| GithubOps.Classify | src/github-ops.ts:77-85 | a run that is not completed is pending and keeps its `started_at` and `html_url`; a completed run with conclusion `success` is passing; any other completed run is failing and keeps its `html_url` and `output.summary`; the name is kept in every case |
| GithubOps.GetChecks | src/github-ops.ts:77-87 | the answer is a rearrangement of the classified runs with the same length, in which all pending checks come before all passing checks, and those before all failing checks |
| GithubOps.GetChecksIsBuckets | src/github-ops.ts:77-87 | the answer is the pending, passing and failing classified runs, concatenated |
| GithubOps.GetChecksStable | src/github-ops.ts:77-87 | within each bucket the checks keep the order the service listed the runs in |
| GithubOps.ListPrs | src/github-ops.ts:95-113 | fails with "got a falsy value" iff some item has no user; otherwise the answer is the items the login authored, converted, in response order |
| GithubOps.ListChecks | src/github-ops.ts:130-161 | missing required contexts fail with "got a falsy value", before the sha is looked up; otherwise an unknown sha fails; on success each status keeps its context, state and timestamps and is required iff its context is among the required contexts; the combined state and sha are returned |
| GithubOps.ListMerged | src/github-ops.ts:163-194 | fails with "got a falsy value" iff an item of the page has no user; otherwise the answer is the merged items, and the given user's when one is given, converted, in response order |
| GithubOps.CreatePr | src/github-ops.ts:200-241 | labels are applied iff the PR was created; a rejection with an "already exists" entry for `PullRequest` ends in "Falsy issue number"; any other rejection ends in "Failed to create PR"; a rejection without an `errors` array throws a TypeError |
| GithubOps.AlreadyExistingPrFails | src/github-ops.ts:215-233 | a rejection whose message contains "A pull request already exists" never reaches the label update |
| GithubOpsLegacy.ListPrs | src/GithubOps.ts:13-44 | fails with a TypeError iff some item has no user; otherwise the answer is the items the login authored, converted, in response order |
| GithubOpsLegacy.ContextsOrNone | src/GithubOps.ts:66 | the required set is the listed contexts, and it is empty when `contexts` is null or undefined |
| GithubOpsLegacy.ListChecks | src/GithubOps.ts:50-81 | a missing `required_status_checks` is a TypeError, raised before the sha is looked up; an unknown sha fails; on success each status keeps its context, state and timestamps and is required iff `contexts` is present and lists its context; the combined state and sha are returned |
| GithubOpsLegacy.MissingContextsDiffer | src/GithubOps.ts:66-73 | without `contexts` the older revision marks every status not required, where the newer one fails |
| GithubOpsLegacy.ListMerged | src/GithubOps.ts:83-117 | page size 100 with a user and 40 without; it fails with a TypeError iff an item has no user; otherwise the answer is the merged items, and the given user's when one is given, in response order |

## Left out

- The command-line wiring: yargs commands, help text, `launch`'s `chdir`, and the reading of `~/.dccrc.json` and `package.json`. This is plumbing and file I/O.
- Every Octokit, GraphQL and simple-git call. Their answers are inputs: the remote-listing text, the changed-file list, the branch name, the PR record, the check-run, status and pull-request lists, the branch protection, the described commit, and the creation response. `merge`, `addPrComment`, `updatePrTitle`, `getUser` and `getBranch` are calls here. `listOngoing` and `listClosed` only print what `listPrs` and `listMerged` return, so they are not modelled. `pending` prints the files `gitOps.getChangedFiles('origin/master')` lists (src/main.ts:71-76); that call is not modelled.
- `catchUp` (src/main.ts:53-58) is outside the modelled core. It is a guard chain of its own: `notOnMainBranch`, `noUncommittedChanges`, then `fetch` and `merge` from `origin`.
- src/gql.ts is not part of this model, and the PR record `submit` and `upload` read is an input. The src/gql.ts in this repository does not match src/main.ts:
  - its `getCurrentPr` returns only `{ number, url }` (src/gql.ts:50);
  - it does not export the `CurrentPrInfo` type that src/main.ts:16 imports;
  - its constructor takes three arguments, where src/main.ts:30 passes two.

  `lastCommit`, `mergeabilityStatus` and the three check booleans therefore come from a revision of the lookup that is not in the repository. The model takes them as given, uninterpreted. With the src/gql.ts shown, every PR found lacks `lastCommit`, so `prIsUpToDate` would throw for each of them.
- `stopMe`'s printing and `process.exit`. A stop is a result value (`Stopped`, `Halted`).
- The timers between upload attempts. Only the bound of five attempts is kept.
- All printing. The one exception is the head-indication string of `status`.
- GitOps.GetRepo: the `typeof r !== 'string'` guard. The output is a string by construction.
- Commands.Upload: `submit()` is started without being awaited, so its outcome is not part of `upload`'s result. The model records only that it was started (`SubmitStarted`).
- Commands.Format: lengths count Dafny characters, not JavaScript's UTF-16 code units.
- Api.PullUrl and Commands.HeadIndication: numbers are rendered as plain decimals. JavaScript's exponent form for numbers of 1e21 and above is not modelled.
- Commands.Upload and Commands.Submit: every call other than `upload`'s title write is assumed to succeed. This covers:
  - `git push`;
  - every `getCurrentPr` lookup, including the `getRepo` it makes first;
  - `merge`, `switchToMainBranch` and `addPrComment`.

  In the code a rejection of any of these makes the command throw at that point. An effect or outcome of the model (`Pushed`, `Merged`, `AutoMergeRequested`) records that the call was made, not that it succeeded. So `Commands.UploadWritesTitle`'s "written right after the push" holds when the push resolves.
- Api.ListPrsWith and Api.ListMergedWith: the records carry only the fields the result interfaces declare. `body`, `createdAt`, `state` and `branch` are copied through unchanged, so they are left out.
- GithubOps.ListChecks: `branch.data.protection` is assumed present. Without it, `protection.required_status_checks` would throw first.
- The older `GithubOps.createPr` (src/GithubOps.ts:119-135). It awaits `pulls.create`, so a rejection propagates, which `Commands.Upload`'s `rejected` input covers. Before that it starts `noUncommittedChanges()` and `push()` without awaiting them. The model leaves this second push attempt out, because its timing relative to the rest of `upload` is not determined. The claim that `upload` never pushes twice holds for the newer `createPr` only.
- Commands.Upload: the title write's outcome is one input, `rejected`. What the rejection carries is the service's error and is not modelled.
- Commands.Submit and Commands.Upload: `gitOps.notOnMainBranch()`, `mainBranch`, `switchToMainBranch`, `getChangedFiles`, `fetch`, `merge` and `describeCommit` are not defined in src/GitOps.ts. The model assumes `notOnMainBranch()` stops the process the way `stopMe` does when the current branch is the main branch.
- The older `GithubOps.getCurrentPr`. It is an empty stub.
- eslint.config.js and src/dcc-config.ts. They are tool configuration and a schema whose parsing lives in a library.
