/** The orchestration in `main`: discovery over every organization that has a
    token, one scan dispatched per discovered repository, and the loop that
    collects the scans' results.

    The goroutines and the channel are modelled sequentially: the dispatch
    loop runs each scan to completion and gathers what it sends, and the
    channel is the multiset of everything sent, from which each receive takes
    an arbitrary element (arrival order is not determined). */
module Aggregation {
  import opened MossTypes
  import opened Strings
  import opened Discovery
  import opened Scan
  import opened Credentials

  /** The hosting API: the pages it serves for an organization and a token. */
  type Api = (string, string) -> seq<PageResult>

  function OrgDiscovery(api: Api, org: string, pat: string, cutoff: int): Discovered
  {
    Walk(Requests(api(org, pat)), cutoff)
  }

  /** The repositories a finished discovery contributes to the run. */
  function Contributed(d: Discovered): seq<Repo>
  {
    if d.Repos? then d.repos else []
  }

  function PrependSome(xs: seq<Repo>, rest: Option<seq<Repo>>): Option<seq<Repo>>
  {
    match rest
    case None => None
    case Some(ys) => Some(xs + ys)
  }

  /** `all_repos` after the loop over the organizations in `order`; `None` when
      some organization's discovery never returns, so the loop never ends. */
  function GatherSpec(order: seq<string>, pats: map<string, string>, api: Api, cutoff: int): Option<seq<Repo>>
    requires forall o :: o in order ==> o in pats
  {
    if order == [] then Some([])
    else
      var d := OrgDiscovery(api, order[0], pats[order[0]], cutoff);
      if d.NeverStops? then None
      else PrependSome(Contributed(d), GatherSpec(order[1..], pats, api, cutoff))
  }

  /** The loop over `pats` that fills `all_repos`. `order` is the order in which
      Go's map iteration happens to visit the organizations: each key once, in
      any order. An organization whose discovery fails is skipped. */
  method GatherRepos(order: seq<string>, pats: map<string, string>, api: Api, cutoff: int)
    returns (allRepos: Option<seq<Repo>>)
    requires forall o :: o in order <==> o in pats
    requires forall i, j :: 0 <= i < j < |order| ==> order[i] != order[j]
    ensures allRepos == GatherSpec(order, pats, api, cutoff)
  {
    var all: seq<Repo> := [];
    assert order[0..] == order;
    PrependSomeTwice([], [], GatherSpec(order, pats, api, cutoff));
    for i := 0 to |order|
      invariant GatherSpec(order, pats, api, cutoff) == PrependSome(all, GatherSpec(order[i..], pats, api, cutoff))
    {
      var org := order[i];
      var pat := pats[org];
      assert order[i..][1..] == order[i + 1..];
      var repos, _ := GetOrgRepos(api(org, pat), cutoff);
      assert repos == OrgDiscovery(api, org, pat, cutoff);
      if repos.NeverStops? {
        // The source would keep requesting empty pages here forever.
        return None;
      }
      if repos.ApiError? {
        PrependSomeTwice(all, [], GatherSpec(order[i + 1..], pats, api, cutoff));
        continue;
      }
      PrependSomeTwice(all, repos.repos, GatherSpec(order[i + 1..], pats, api, cutoff));
      all := all + repos.repos;
    }
    assert order[|order|..] == [];
    assert all + [] == all;
    return Some(all);
  }

  /** The run's repositories come from the organizations iterated over, and
      only from those whose discovery succeeded; every repository they
      returned is included. The run hangs exactly when some organization's
      discovery never ends. */
  lemma {:induction false} GatherCollectsEveryOrg(order: seq<string>, pats: map<string, string>, api: Api, cutoff: int)
    requires forall o :: o in order ==> o in pats
    ensures GatherSpec(order, pats, api, cutoff).None? <==>
            exists o :: o in order && OrgDiscovery(api, o, pats[o], cutoff).NeverStops?
    ensures GatherSpec(order, pats, api, cutoff).Some? ==>
            forall r :: r in GatherSpec(order, pats, api, cutoff).value <==>
              exists o :: o in order && r in Contributed(OrgDiscovery(api, o, pats[o], cutoff))
  {
    if order != [] {
      var rest := order[1..];
      GatherCollectsEveryOrg(rest, pats, api, cutoff);
      assert forall o :: o in order <==> o == order[0] || o in rest;
    }
  }

  /** The same, for an order that visits exactly the keys of `pats`: the run's
      repositories are those of the organizations that have a token. */
  lemma GatherCoversPats(order: seq<string>, pats: map<string, string>, api: Api, cutoff: int)
    requires forall o :: o in order <==> o in pats
    ensures GatherSpec(order, pats, api, cutoff).None? <==>
            exists o :: o in pats && OrgDiscovery(api, o, pats[o], cutoff).NeverStops?
    ensures GatherSpec(order, pats, api, cutoff).Some? ==>
            forall r :: r in GatherSpec(order, pats, api, cutoff).value <==>
              exists o :: o in pats && r in Contributed(OrgDiscovery(api, o, pats[o], cutoff))
  {
    GatherCollectsEveryOrg(order, pats, api, cutoff);
  }

  /** The result of the scan dispatched for `repo`: its organization is the
      part of its full name before the first `/`, and its token is that
      organization's entry in `pats` (empty when there is none). */
  function DispatchedOutcome(repo: Repo, pats: map<string, string>, glConfPath: string, env: Environment): RepoResult
  {
    var org := OrgOf(repo.fullName);
    ScanOutcome(repo, LookupOrEmpty(pats, org), org, glConfPath, env)
  }

  /** The dispatch loop: one scan per repository. `envs[i]` is what the
      operating system does during the scan of `allRepos[i]`. */
  method DispatchScans(allRepos: seq<Repo>, pats: map<string, string>, glConfPath: string, envs: seq<Environment>)
    returns (sent: seq<RepoResult>)
    requires |envs| == |allRepos|
    ensures |sent| == |allRepos|
    ensures forall i :: 0 <= i < |allRepos| ==> sent[i] == DispatchedOutcome(allRepos[i], pats, glConfPath, envs[i])
  {
    sent := [];
    for i := 0 to |allRepos|
      invariant |sent| == i
      invariant forall k :: 0 <= k < i ==> sent[k] == DispatchedOutcome(allRepos[k], pats, glConfPath, envs[k])
    {
      var repo := allRepos[i];
      var orgname := OrgOf(repo.fullName);
      var pat := LookupOrEmpty(pats, orgname);
      var out, _ := ScanRepo(repo, pat, orgname, glConfPath, envs[i]);
      sent := sent + out;
    }
  }

  /** How the collection loop ends: with the results received, or blocked on a
      receive that no scan will ever answer. In Go, once every other goroutine
      has finished, such a receive makes the runtime abort the process with
      "all goroutines are asleep - deadlock!", before any report is written. */
  datatype Collection = Complete(results: seq<RepoResult>) | Blocked(received: seq<RepoResult>)

  /** The collection loop over the channel holding `channel`, for `n` dispatched
      repositories. It receives before it compares the count with `n`, so it
      takes at least one result even when `n == 0`. */
  method CollectResults(channel: multiset<RepoResult>, n: nat) returns (c: Collection, collected: nat)
    ensures var want := if n == 0 then 1 else n;
            (c.Complete? <==> want <= |channel|)
            && (c.Complete? ==> collected == |c.results| == want && multiset(c.results) <= channel)
            && (c.Blocked? ==> multiset(c.received) == channel && collected == |channel|)
  {
    var pending := channel;
    collected := 0;
    var finalResults: seq<RepoResult> := [];
    while true
      invariant multiset(finalResults) + pending == channel
      invariant collected == |finalResults|
      invariant collected == 0 || collected < n
      decreases |pending|
    {
      if pending == multiset{} {
        // Nothing is left to send: the receive never returns (the Go runtime
        // aborts the process once no other goroutine is left).
        return Blocked(finalResults), collected;
      }
      var repoResult :| repoResult in pending;
      pending := pending - multiset{repoResult};
      finalResults := finalResults + [repoResult];
      collected := collected + 1;
      if collected >= n {
        break;
      }
    }
    c := Complete(finalResults);
  }

  /** Dispatch followed by collection. With at least one repository the run
      collects exactly one result per repository, each scan's result once;
      with none it blocks on its first receive. */
  method ScanAll(allRepos: seq<Repo>, pats: map<string, string>, glConfPath: string, envs: seq<Environment>)
    returns (c: Collection, sent: seq<RepoResult>)
    requires |envs| == |allRepos|
    ensures |sent| == |allRepos|
    ensures forall i :: 0 <= i < |allRepos| ==> sent[i] == DispatchedOutcome(allRepos[i], pats, glConfPath, envs[i])
    ensures c.Complete? <==> |allRepos| > 0
    ensures c.Complete? ==> |c.results| == |allRepos| && multiset(c.results) == multiset(sent)
    ensures c.Blocked? ==> c.received == []
  {
    sent := DispatchScans(allRepos, pats, glConfPath, envs);
    var collected;
    c, collected := CollectResults(multiset(sent), |allRepos|);
    if c.Blocked? {
      assert |multiset(c.received)| == 0;
    } else {
      assert |multiset(c.results)| == |multiset(sent)|;
      MultisetSubEqual(multiset(c.results), multiset(sent));
    }
  }

  /** The keys of `m`, each once, in an order the model leaves open (Go's map
      iteration order is unspecified). */
  method KeysInSomeOrder(m: map<string, string>) returns (order: seq<string>)
    ensures forall o :: o in order <==> o in m
    ensures forall i, j :: 0 <= i < j < |order| ==> order[i] != order[j]
  {
    order := [];
    var remaining := m.Keys;
    while remaining != {}
      invariant remaining <= m.Keys
      invariant forall o :: o in order <==> o in m && o !in remaining
      invariant forall i, j :: 0 <= i < j < |order| ==> order[i] != order[j]
      decreases |remaining|
    {
      var o :| o in remaining;
      order := order + [o];
      remaining := remaining - {o};
    }
  }

  /** How a whole run ends. */
  datatype RunOutcome =
    | DiscoveryNeverEnds              // some organization's discovery loop never returns
    | CollectionBlocks                // no repository was dispatched; the first receive never returns,
                                      // and the Go runtime aborts the process as deadlocked
    | Collected(results: seq<RepoResult>)

  /** `main` from the token map to `final_results`. The configuration (`orgs`,
      the cutoff, the gitleaks rule file) and the environment are inputs;
      `scanEnv(i)` is what the operating system does during the `i`th scan. */
  method Run(orgs: seq<string>, env: map<string, string>, api: Api, cutoff: int,
             glConfPath: string, scanEnv: nat -> Environment)
    returns (outcome: RunOutcome, pats: map<string, string>, allRepos: seq<Repo>, sent: seq<RepoResult>)
    ensures forall org :: org in pats <==> org in orgs && LookupOrEmpty(env, PatEnvName(org)) != ""
    ensures outcome.DiscoveryNeverEnds? <==> exists o :: o in pats && OrgDiscovery(api, o, pats[o], cutoff).NeverStops?
    ensures !outcome.DiscoveryNeverEnds? ==>
              forall r :: r in allRepos <==> exists o :: o in pats && r in Contributed(OrgDiscovery(api, o, pats[o], cutoff))
    ensures outcome.CollectionBlocks? <==> !outcome.DiscoveryNeverEnds? && allRepos == []
    ensures |sent| == |allRepos|
    ensures forall i :: 0 <= i < |allRepos| ==> sent[i] == DispatchedOutcome(allRepos[i], pats, glConfPath, scanEnv(i))
    ensures outcome.Collected? ==> |outcome.results| == |allRepos| && multiset(outcome.results) == multiset(sent)
  {
    pats := ResolvePats(orgs, env);
    var order := KeysInSomeOrder(pats);
    var gathered := GatherRepos(order, pats, api, cutoff);
    GatherCoversPats(order, pats, api, cutoff);
    if gathered.None? {
      return DiscoveryNeverEnds, pats, [], [];
    }
    allRepos := gathered.value;
    var envs := seq(|allRepos|, i requires 0 <= i => scanEnv(i));
    var c;
    c, sent := ScanAll(allRepos, pats, glConfPath, envs);
    if c.Blocked? {
      return CollectionBlocks, pats, allRepos, sent;
    }
    outcome := Collected(c.results);
  }

  lemma PrependSomeTwice(xs: seq<Repo>, ys: seq<Repo>, rest: Option<seq<Repo>>)
    ensures PrependSome(xs, PrependSome(ys, rest)) == PrependSome(xs + ys, rest)
    ensures PrependSome([], rest) == rest
    ensures PrependSome(xs, rest).None? <==> rest.None?
  {
    match rest
    case None =>
    case Some(zs) =>
      assert xs + (ys + zs) == xs + ys + zs;
      assert [] + zs == zs;
  }

  lemma MultisetSubEqual<T>(a: multiset<T>, b: multiset<T>)
    requires a <= b && |a| == |b|
    ensures a == b
  {
    var d := b - a;
    assert a + d == b;
    assert |d| == 0;
  }
}
