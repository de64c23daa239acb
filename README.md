# MOSS scan orchestration, modelled in Dafny

MOSS finds the recently pushed repositories of a set of GitHub organizations,
clones each one into its own temporary directory, runs gitleaks on it and
gathers one result record per repository. This project models the logic of
`cmd/moss/main.go` with its I/O replaced by inputs, and proves what that logic
guarantees.

- `types.dfy` (`MossTypes`): repositories, findings, the per-repository result
  record (`GitleaksRepoResult`), Option/Result for Go's nil values and errors.
- `strings.dfy` (`Strings`): `strings.Replace(s, old, new, 1)` and
  `strings.Split(s, "/")[0]`.
- `discovery.dfy` (`Discovery`): `get_org_repos`. The hosting API is the
  organization's list of pages; the clock is the cutoff time.
- `credentials.dfy` (`Credentials`): building the org-to-token map from the
  `PAT_<org>` environment variables.
- `scan.dfy` (`Scan`): `scan_repo`, with the outcome of every external step
  (temporary directory, `git clone`, `gitleaks`, reading and parsing the report)
  supplied by an `Environment` value, plus the clone URL and argument building.
- `aggregation.dfy` (`Aggregation`): the org loop that fills `all_repos`, the
  dispatch of one scan per repository and the collection loop, run in sequence.

How the model reads the behaviour of the code:

- Discovery ends in one of three ways. `Repos` when a live repository pushed
  before the cutoff is met. `ApiError` when a page request fails; what was
  gathered is dropped. `NeverStops` when every page was fetched without either:
  the loop has no other exit and the API answers every later page with an empty
  list. The model assumes that those later requests all succeed; under that
  assumption the source requests pages forever. A request there that failed
  (for example on the API's rate limit) would end the walk as `ApiError`, and
  the org would be skipped. The model returns `NeverStops` with the
  repositories held so far, and a run whose discovery never stops ends as
  `DiscoveryNeverEnds`.
- Page requests go through `Discovery.Fetch`. The client leaves a zero page
  number out of the request, and the API then serves its first page. The source
  starts at `page := 0`, so its first two requests both receive page 1 (see
  Findings).
- The collection loop receives before it compares the count. With no
  repository dispatched, no goroutine will ever send, and the receive cannot
  return. The Go runtime then stops the process with "fatal error: all
  goroutines are asleep - deadlock!", so no report is written. The model's
  `CollectResults` returns `Blocked` there, and `Run` ends as `CollectionBlocks`
  exactly when discovery ended and found no repository.
- A gitleaks report holding JSON `null` parses without error into a nil slice.
  The record then has neither findings nor an error (`NullReportRecordsNeither`).
- The goroutines and the channel are sequential in the model. Every dispatched
  scan runs to completion and its one send is gathered. The channel is the
  multiset of the sends. Each receive takes an arbitrary element, because the
  arrival order is not determined.
- Go's iteration over the token map visits each key once in an unspecified
  order: `KeysInSomeOrder` picks an arbitrary order, and the properties of the
  org loop hold for any order.

## Model

| member | source | states |
|---|---|---|
| `Discovery.GetOrgRepos` | cmd/moss/main.go:104-139 | The loop's outcome is the walk over the answers to page cursors 0, 1, 2, and so on. The cursors it requests are 0, 1, 2, ... in order, each once. When it returns a result or an error, the last cursor requested is the first page that ends the walk: the pages before it did not end it, and no later page is requested. When it finds neither, every page the API has was requested. |
| `Discovery.KeptOnPageIsLivePrefix` | cmd/moss/main.go:123-132 | On one page, the loop keeps exactly the non-archived repositories before the first non-archived repository pushed strictly before the cutoff. It stops exactly when such a repository exists. Archived repositories are skipped before the age test, so a stale archived repository never ends the walk. |
| `Discovery.WalkKeepsOnlyRecentLive` | cmd/moss/main.go:123-131 | No returned repository is archived. Every returned repository was pushed at or after the cutoff, so a push exactly at the cutoff is kept. |
| `Discovery.WalkOverOkPages` | cmd/moss/main.go:115-137 | Suppose no request fails. Then the result is the per-page rule applied to all fetched pages concatenated in fetch order: repositories on the stopping page before the stale one are kept, and nothing after it. The walk stops exactly when that concatenation holds a live stale repository. |
| `Discovery.WalkFailsAtFirstError` | cmd/moss/main.go:117-121 | Discovery fails with error `e` exactly when some page request fails with `e` and every earlier page was fetched without meeting a stale repository. The error outcome carries no repositories. |
| `Discovery.FirstPageFetchedTwice` | cmd/moss/main.go:114-136 | Cursors 0 and 1 both receive the API's first page. When that page has no live stale repository, what it keeps is gathered twice, in front of the rest of the walk. |
| `Discovery.DuplicatedRepository` | cmd/moss/main.go:114-136 | Take a first page holding one recent repository and a second page holding one stale repository. Discovery returns the recent repository twice, although the API lists it once. |
| `Discovery.CorrectedPagingListsEachRepoOnce` | cmd/moss/main.go:114-136 | When paging starts at page 1, no repository is returned more often than the API's pages list it. |
| `Credentials.ResolvePats` | cmd/moss/main.go:168-177 | An org has an entry in the token map exactly when it is configured and `PAT_<org>` is non-empty in the environment, and the entry holds that value. Orgs that are not configured never appear. |
| `Credentials.PatEnvNameInjective` | cmd/moss/main.go:170 | Different orgs are looked up under different variable names. |
| `Strings.ReplaceFirstAbsent` | cmd/moss/main.go:48 | `strings.Replace(s, old, new, 1)` leaves `s` unchanged when `old` does not occur in it. |
| `Strings.ReplaceFirstPresent` | cmd/moss/main.go:48 | `strings.Replace(s, old, new, 1)` replaces the first occurrence of `old` with `new`, and keeps everything before and after it. |
| `Strings.OrgOf` | cmd/moss/main.go:191-192 | The org name is the prefix of the full name up to its first `/`. It contains no `/`, and it is the whole name when the name has no `/`. |
| `Strings.OrgOfFullName` | cmd/moss/main.go:191-192 | For a full name `owner/name` whose owner has no `/`, the org name is `owner`. |
| `Scan.ScanOutcome` | cmd/moss/main.go:30-35 | The result record takes the repository's name, URL and privacy, and the org passed in. A record with an error carries no findings. |
| `Scan.ScanRepo` | cmd/moss/main.go:28-102 | Every path sends exactly one record, the scan outcome. The subprocesses started are: none when the temporary directory fails, the clone alone when the clone fails, and otherwise the clone followed by gitleaks. |
| `Scan.ScanSucceedsIffEveryStepSucceeds` | cmd/moss/main.go:36-101 | The record has no error exactly when all five steps succeed. Then it carries the findings parsed from the report that gitleaks wrote in the workspace. |
| `Scan.NullReportRecordsNeither` | cmd/moss/main.go:90-101 | When every step succeeds and the report is JSON `null`, the record carries neither findings nor an error. |
| `Scan.WorkspaceFailureRecorded` | cmd/moss/main.go:37-43 | A failed `os.MkdirTemp` becomes the record's error, with no findings, and no subprocess is started. |
| `Scan.CloneFailureRecorded` | cmd/moss/main.go:47-56 | A failed clone becomes the record's error, with no findings, and gitleaks is never started. |
| `Scan.GitleaksFailureRecorded` | cmd/moss/main.go:58-75 | After a successful clone, a failed gitleaks run becomes the record's error, with no findings. The subprocesses started are the clone and then gitleaks. |
| `Scan.ReportReadFailureRecorded` | cmd/moss/main.go:83-90 | When both subprocesses succeed but the report cannot be read, the read error becomes the record's error, with no findings. |
| `Scan.ReportParseFailureRecorded` | cmd/moss/main.go:90-97 | When the report is read but does not parse, the parse error becomes the record's error, with no findings. |
| `Scan.AuthCloneUrlEmbedsToken` | cmd/moss/main.go:47-48 | The authenticated clone URL replaces only the first `https://` with `https://<pat>@`. A URL without `https://` is used unchanged. |
| `Scan.AuthCloneUrlOfHttpsUrl` | cmd/moss/main.go:47-48 | For `https://<rest>`, the clone URL is `https://<pat>@<rest>`. |
| `Scan.OutputPathIsolated` | cmd/moss/main.go:37-58 | The report path `dir/__gitleaks.json` lies inside the workspace. Different workspaces get different report paths. |
| `Scan.GitleaksTargetsWorkspace` | cmd/moss/main.go:58-63 | gitleaks scans the workspace and reads the shared rule file. It writes its report to the workspace's report path and exits 0 whether or not it finds secrets. |
| `Aggregation.GatherRepos` | cmd/moss/main.go:178-187 | Visiting the orgs in any map order, `all_repos` is the concatenation of the orgs' discovery results. An org whose discovery fails is skipped. The run hangs when some org's discovery never returns. |
| `Aggregation.GatherCollectsEveryOrg` | cmd/moss/main.go:180-187 | The run hangs exactly when some visited org's discovery never ends. Otherwise a repository is in `all_repos` exactly when a visited org's successful discovery returned it. |
| `Aggregation.GatherCoversPats` | cmd/moss/main.go:180-187 | The same for an order that visits exactly the orgs holding a token. An org without a token contributes no repository. |
| `Aggregation.KeysInSomeOrder` | cmd/moss/main.go:180 | The map iteration visits every org of the token map exactly once. |
| `Aggregation.DispatchScans` | cmd/moss/main.go:188-195 | One scan is dispatched per repository, and it sends exactly one result. That scan uses the org taken from the full name and that org's token, which is empty when the map has no entry for it. |
| `Aggregation.CollectResults` | cmd/moss/main.go:196-206 | The loop completes exactly when at least `max(n, 1)` results were sent. It then has received exactly that many, each of them sent. Otherwise it blocks after receiving everything sent. |
| `Aggregation.ScanAll` | cmd/moss/main.go:188-206 | With n > 0 repositories, collection completes with exactly n results, and they are the n sent results, each once. With none, it blocks on its first receive. |
| `Aggregation.Run` | cmd/moss/main.go:167-206 | The end-to-end run: token map, discovery over the tokened orgs, one scan per repository, and collection. The run blocks, and the Go runtime aborts it as deadlocked, exactly when discovery ended with no repository. Otherwise it collects one result per discovered repository. |

## Findings

| source | as written | input that shows it | evidently intended | confidence | as-written member | corrected member |
|---|---|---|---|---|---|---|
| cmd/moss/main.go:114 | Paging starts at `page := 0`. The client omits a zero page number and the API serves page 1, so the next request, for page 1, fetches the first page a second time. | Page 1 holds one recent repository R and page 2 holds one live repository pushed before the cutoff. Discovery returns `[R, R]`, and R is cloned and scanned twice. | Start at page 1, so each page is fetched once. | High, given the hosting API's rule that a missing page number means page 1; not executed | `Discovery.DuplicatedRepository` | `Discovery.CorrectedPagingListsEachRepoOnce` |

`Discovery.GetOrgRepos`, and the run built on it, keep the source's paging from
0, because they model the code as written.

## Left out

- The GitHub client, the OAuth2 token source and the `ListByOrg` call: the API is the per-org list of pages in `Aggregation.Api`. The token reaches the API only as an argument. The requested sort order is an API promise, not something the model assumes.
- Wall-clock time and `AddDate`: the cutoff is an integer parameter, and timestamps are integers compared with a strict `<`, as `Before` is. `get_org_repos` reads `time.Now()` on each call, so in the source each org gets its own, slightly later, cutoff. `Aggregation.GatherRepos` and `Aggregation.Run` use one cutoff for every org.
- `os.MkdirTemp`, running `git` and `gitleaks`, `os.ReadFile` and `json.Unmarshal`: their outcomes are the fields of `Scan.Environment`. Findings are opaque records.
- Goroutines and the channel: scans run one after another, and the channel is a multiset of sends. Interleavings and a scan that hangs forever are not modelled. A scan in the model always finishes.
- Logging and the zerolog setup; `check_gitleaks_conf` (a file read followed by `log.Fatal`); config loading through `conf.getConfig`; `json_output` and writing `output.json`. These are I/O, or code defined outside `main.go`.
- Nil values in the repository fields the API returns (`*repo.Name` and the others): every field of `Repo` is present.
- Discovery past the last page: once every page has been fetched without an error or a stale repository, the source requests empty pages forever. The model stops there with `NeverStops`. It assumes that every request past the last page succeeds with an empty list. A failed request there would instead end that org's discovery with an error, and the run would skip the org.
- The Go runtime's deadlock abort: `Aggregation.Run` reports `CollectionBlocks` where the process exits with a fatal deadlock error and writes no report.
