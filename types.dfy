/** Values shared by every part of the scan pipeline: repositories as the
    hosting API describes them, the external tool's findings, the per-repository
    result record, and the Option/Result wrappers used for Go's `(value, error)`
    returns and nil-able fields. */
module MossTypes {

  datatype Option<+T> = None | Some(value: T)

  /** An error value as returned by a Go call; only its message is kept. */
  datatype Error = Error(message: string)

  datatype Result<+T> = Ok(value: T) | Err(error: Error)

  /** A repository descriptor as returned by the hosting API's
      "list repositories by organization" call. `pushedAt` is the time of the
      last push, in any fixed unit (only the order of timestamps matters). */
  datatype Repo = Repo(
    name: string,
    fullName: string,
    url: string,
    cloneUrl: string,
    isPrivate: bool,
    archived: bool,
    pushedAt: int)

  /** One record of the secret-detection tool's report. Its schema belongs to
      the tool; the pipeline passes it through untouched. */
  datatype Finding = Finding(fields: map<string, string>)

  /** `GitleaksRepoResult`: the outcome of scanning one repository.
      `results == None` is Go's nil slice (never set, or set from a JSON
      `null` report); `err == None` is a nil error. */
  datatype RepoResult = RepoResult(
    repository: string,
    url: string,
    isPrivate: bool,
    org: string,
    results: Option<seq<Finding>>,
    err: Option<Error>)

  /** Reading a Go `map[string]string` (or the process environment through
      `os.Getenv`): a missing key reads as the empty string. */
  function LookupOrEmpty(m: map<string, string>, key: string): (v: string)
    ensures key in m ==> v == m[key]
    ensures key !in m ==> v == ""
  {
    if key in m then m[key] else ""
  }
}
