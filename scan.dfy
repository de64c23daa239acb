/** The scan executor (`scan_repo`): make a workspace, clone the repository
    into it with the token embedded in the clone URL, run gitleaks on it, read
    and parse gitleaks' report. The first step that fails ends the scan, and
    exactly one result record is sent for the repository on every path.

    The operating system is an input: `Environment` holds what each external
    step returns (the temporary directory, the exit of each subprocess, the
    report file's bytes, the parsed findings). */
module Scan {
  import opened MossTypes
  import opened Strings

  type Bytes = seq<bv8>

  /** A subprocess invocation: the program and its argument list. */
  datatype Command = Command(program: string, args: seq<string>)

  datatype Environment = Environment(
    mkdirTemp: Result<string>,                  // `os.MkdirTemp`: the new directory or an error
    run: Command -> Option<Error>,              // `cmd.Run()`: nil or the error of a subprocess
    readFile: string -> Result<Bytes>,          // `os.ReadFile`
    unmarshal: Bytes -> Result<Option<seq<Finding>>>)  // `json.Unmarshal` into a findings slice;
                                                       // a JSON `null` leaves the slice nil (`None`)

  const HttpsScheme: string := "https://"

  /** The clone URL with the token as credential: the first `https://` becomes
      `https://<pat>@`. */
  function AuthCloneUrl(cloneUrl: string, pat: string): string
  {
    ReplaceFirst(cloneUrl, HttpsScheme, HttpsScheme + pat + "@")
  }

  function CloneCommand(cloneUrl: string, pat: string, dir: string): Command
  {
    Command("git", ["clone", AuthCloneUrl(cloneUrl, pat), dir])
  }

  /** Where gitleaks writes its report: inside the workspace. */
  function OutputPath(dir: string): string
  {
    dir + "/__gitleaks.json"
  }

  function GitleaksCommand(dir: string, glConfPath: string): Command
  {
    Command("gitleaks", ["detect", "-v", "--no-git", "-f=json", "--exit-code=0",
                         "-r=" + OutputPath(dir), "-c=" + glConfPath, dir])
  }

  /** The steps after the workspace is made, in order; the first failure wins. */
  function StepsOutcome(repo: Repo, pat: string, glConfPath: string, env: Environment): Result<Option<seq<Finding>>>
  {
    match env.mkdirTemp
    case Err(e) => Err(e)
    case Ok(dir) =>
      match env.run(CloneCommand(repo.cloneUrl, pat, dir))
      case Some(e) => Err(e)
      case None =>
        match env.run(GitleaksCommand(dir, glConfPath))
        case Some(e) => Err(e)
        case None =>
          match env.readFile(OutputPath(dir))
          case Err(e) => Err(e)
          case Ok(bytes) => env.unmarshal(bytes)
  }

  /** The record `scan_repo` sends. The identity fields are the repository's
      and the organization passed in; a record with an error carries no
      findings. (A record without an error may carry none either, when the
      report is JSON `null`: see `NullReportRecordsNeither`.) */
  function ScanOutcome(repo: Repo, pat: string, orgname: string, glConfPath: string, env: Environment): (r: RepoResult)
    ensures r.repository == repo.name && r.url == repo.url && r.isPrivate == repo.isPrivate && r.org == orgname
    ensures r.err.Some? ==> r.results.None?
  {
    var base := RepoResult(repo.name, repo.url, repo.isPrivate, orgname, None, None);
    match StepsOutcome(repo, pat, glConfPath, env)
    case Ok(findings) => base.(results := findings)
    case Err(e) => base.(err := Some(e))
  }

  /** The subprocesses a scan runs: none if the workspace cannot be made, the
      clone alone if it fails, otherwise the clone and then gitleaks. */
  function CommandsRun(repo: Repo, pat: string, glConfPath: string, env: Environment): seq<Command>
  {
    match env.mkdirTemp
    case Err(_) => []
    case Ok(dir) =>
      if env.run(CloneCommand(repo.cloneUrl, pat, dir)).Some? then [CloneCommand(repo.cloneUrl, pat, dir)]
      else [CloneCommand(repo.cloneUrl, pat, dir), GitleaksCommand(dir, glConfPath)]
  }

  /** `scan_repo`. `sent` is what the scan sends on the results channel; `ran`
      the subprocesses it starts, in order. */
  method ScanRepo(repo: Repo, pat: string, orgname: string, glConfPath: string, env: Environment)
    returns (sent: seq<RepoResult>, ran: seq<Command>)
    ensures sent == [ScanOutcome(repo, pat, orgname, glConfPath, env)]
    ensures ran == CommandsRun(repo, pat, glConfPath, env)
  {
    var result := RepoResult(repo.name, repo.url, repo.isPrivate, orgname, None, None);
    sent, ran := [], [];
    var made := env.mkdirTemp;
    if made.Err? {
      result := result.(err := Some(made.error));
      sent := sent + [result];
      return;
    }
    var dir := made.value;
    var cloneCmd := CloneCommand(repo.cloneUrl, pat, dir);
    ran := ran + [cloneCmd];
    var cloneErr := env.run(cloneCmd);
    if cloneErr.Some? {
      result := result.(err := cloneErr);
      sent := sent + [result];
      return;
    }
    var glCmd := GitleaksCommand(dir, glConfPath);
    ran := ran + [glCmd];
    var glErr := env.run(glCmd);
    if glErr.Some? {
      result := result.(err := glErr);
      sent := sent + [result];
      return;
    }
    var resultFile := env.readFile(OutputPath(dir));
    if resultFile.Err? {
      result := result.(err := Some(resultFile.error));
      sent := sent + [result];
      return;
    }
    var parsed := env.unmarshal(resultFile.value);
    if parsed.Err? {
      result := result.(err := Some(parsed.error));
      sent := sent + [result];
      return;
    }
    result := result.(results := parsed.value, err := None);
    sent := sent + [result];
  }

  // ---------------------------------------------------------------------
  // Properties of the scan.

  /** A scan succeeds exactly when every step succeeds, and then carries the
      parsed findings of the report gitleaks wrote inside the workspace. */
  lemma ScanSucceedsIffEveryStepSucceeds(repo: Repo, pat: string, orgname: string, glConfPath: string, env: Environment)
    ensures var r := ScanOutcome(repo, pat, orgname, glConfPath, env);
            r.err.None? <==>
              && env.mkdirTemp.Ok?
              && env.run(CloneCommand(repo.cloneUrl, pat, env.mkdirTemp.value)).None?
              && env.run(GitleaksCommand(env.mkdirTemp.value, glConfPath)).None?
              && env.readFile(OutputPath(env.mkdirTemp.value)).Ok?
              && env.unmarshal(env.readFile(OutputPath(env.mkdirTemp.value)).value).Ok?
    ensures var r := ScanOutcome(repo, pat, orgname, glConfPath, env);
            r.err.None? ==>
              r.results == env.unmarshal(env.readFile(OutputPath(env.mkdirTemp.value)).value).value
  {
  }

  /** A report holding JSON `null` parses without error into a nil slice, so
      the record carries neither findings nor an error. */
  lemma NullReportRecordsNeither(repo: Repo, pat: string, orgname: string, glConfPath: string, env: Environment)
    requires env.mkdirTemp.Ok?
    requires env.run(CloneCommand(repo.cloneUrl, pat, env.mkdirTemp.value)).None?
    requires env.run(GitleaksCommand(env.mkdirTemp.value, glConfPath)).None?
    requires env.readFile(OutputPath(env.mkdirTemp.value)).Ok?
    requires env.unmarshal(env.readFile(OutputPath(env.mkdirTemp.value)).value) == Ok(None)
    ensures ScanOutcome(repo, pat, orgname, glConfPath, env).err == None
    ensures ScanOutcome(repo, pat, orgname, glConfPath, env).results == None
  {
  }

  /** A workspace that cannot be made is recorded as the scan's error, with no
      findings, and no subprocess is started. */
  lemma WorkspaceFailureRecorded(repo: Repo, pat: string, orgname: string, glConfPath: string, env: Environment, e: Error)
    requires env.mkdirTemp == Err(e)
    ensures ScanOutcome(repo, pat, orgname, glConfPath, env).err == Some(e)
    ensures ScanOutcome(repo, pat, orgname, glConfPath, env).results == None
    ensures CommandsRun(repo, pat, glConfPath, env) == []
  {
  }

  /** A failed clone is recorded as the scan's error, with no findings, and
      gitleaks is never started. */
  lemma CloneFailureRecorded(repo: Repo, pat: string, orgname: string, glConfPath: string, env: Environment, e: Error)
    requires env.mkdirTemp.Ok?
    requires env.run(CloneCommand(repo.cloneUrl, pat, env.mkdirTemp.value)) == Some(e)
    ensures ScanOutcome(repo, pat, orgname, glConfPath, env).err == Some(e)
    ensures ScanOutcome(repo, pat, orgname, glConfPath, env).results == None
    ensures forall c :: c in CommandsRun(repo, pat, glConfPath, env) ==> c.program == "git"
  {
  }

  /** After a successful clone, a failed gitleaks run is recorded as the
      scan's error, with no findings; both subprocesses were started. */
  lemma GitleaksFailureRecorded(repo: Repo, pat: string, orgname: string, glConfPath: string, env: Environment, e: Error)
    requires env.mkdirTemp.Ok?
    requires env.run(CloneCommand(repo.cloneUrl, pat, env.mkdirTemp.value)).None?
    requires env.run(GitleaksCommand(env.mkdirTemp.value, glConfPath)) == Some(e)
    ensures ScanOutcome(repo, pat, orgname, glConfPath, env).err == Some(e)
    ensures ScanOutcome(repo, pat, orgname, glConfPath, env).results == None
    ensures CommandsRun(repo, pat, glConfPath, env) ==
              [CloneCommand(repo.cloneUrl, pat, env.mkdirTemp.value), GitleaksCommand(env.mkdirTemp.value, glConfPath)]
  {
  }

  /** After both subprocesses succeed, a report that cannot be read is
      recorded as the scan's error, with no findings. */
  lemma ReportReadFailureRecorded(repo: Repo, pat: string, orgname: string, glConfPath: string, env: Environment, e: Error)
    requires env.mkdirTemp.Ok?
    requires env.run(CloneCommand(repo.cloneUrl, pat, env.mkdirTemp.value)).None?
    requires env.run(GitleaksCommand(env.mkdirTemp.value, glConfPath)).None?
    requires env.readFile(OutputPath(env.mkdirTemp.value)) == Err(e)
    ensures ScanOutcome(repo, pat, orgname, glConfPath, env).err == Some(e)
    ensures ScanOutcome(repo, pat, orgname, glConfPath, env).results == None
  {
  }

  /** A report that is read but does not parse is recorded as the scan's
      error, with no findings, even if parsing filled part of the slice. */
  lemma ReportParseFailureRecorded(repo: Repo, pat: string, orgname: string, glConfPath: string, env: Environment, e: Error)
    requires env.mkdirTemp.Ok?
    requires env.run(CloneCommand(repo.cloneUrl, pat, env.mkdirTemp.value)).None?
    requires env.run(GitleaksCommand(env.mkdirTemp.value, glConfPath)).None?
    requires env.readFile(OutputPath(env.mkdirTemp.value)).Ok?
    requires env.unmarshal(env.readFile(OutputPath(env.mkdirTemp.value)).value) == Err(e)
    ensures ScanOutcome(repo, pat, orgname, glConfPath, env).err == Some(e)
    ensures ScanOutcome(repo, pat, orgname, glConfPath, env).results == None
  {
  }

  /** The token is embedded as the clone credential: the first `https://` of
      the clone URL is followed by `<pat>@`, and nothing else changes; a URL
      without `https://` is used as it is. */
  lemma AuthCloneUrlEmbedsToken(cloneUrl: string, pat: string)
    ensures (forall i :: !OccursAt(cloneUrl, HttpsScheme, i)) ==> AuthCloneUrl(cloneUrl, pat) == cloneUrl
    ensures forall i :: FirstOccurrence(cloneUrl, HttpsScheme, i) ==>
              AuthCloneUrl(cloneUrl, pat) == cloneUrl[..i] + HttpsScheme + pat + "@" + cloneUrl[i + |HttpsScheme|..]
  {
    if forall i :: !OccursAt(cloneUrl, HttpsScheme, i) {
      ReplaceFirstAbsent(cloneUrl, HttpsScheme, HttpsScheme + pat + "@");
    }
    forall i | FirstOccurrence(cloneUrl, HttpsScheme, i)
      ensures AuthCloneUrl(cloneUrl, pat) == cloneUrl[..i] + HttpsScheme + pat + "@" + cloneUrl[i + |HttpsScheme|..]
    {
      ReplaceFirstPresent(cloneUrl, HttpsScheme, HttpsScheme + pat + "@", i);
    }
  }

  /** The usual case, a URL that starts with `https://`. */
  lemma AuthCloneUrlOfHttpsUrl(rest: string, pat: string)
    ensures AuthCloneUrl(HttpsScheme + rest, pat) == HttpsScheme + pat + "@" + rest
  {
  }

  /** gitleaks' report lies inside the workspace, and scans in different
      workspaces write to different report paths. */
  lemma OutputPathIsolated(dir: string, other: string)
    ensures OutputPath(dir)[..|dir| + 1] == dir + "/"
    ensures OutputPath(dir) == OutputPath(other) ==> dir == other
  {
    assert OutputPath(dir)[..|dir| + 1] == dir + "/";
    if OutputPath(dir) == OutputPath(other) {
      assert |dir| == |other|;
      assert dir == OutputPath(dir)[..|dir|] == OutputPath(other)[..|other|] == other;
    }
  }

  /** gitleaks is pointed at the workspace, reads the shared rule file, writes
      its JSON report to the workspace's report path, and exits successfully
      whether or not secrets are found. */
  lemma GitleaksTargetsWorkspace(dir: string, glConfPath: string)
    ensures var c := GitleaksCommand(dir, glConfPath);
            && c.program == "gitleaks"
            && c.args[|c.args| - 1] == dir
            && "-r=" + OutputPath(dir) in c.args
            && "-c=" + glConfPath in c.args
            && "--exit-code=0" in c.args
  {
  }
}
