/** Credential resolution in `main`: each configured organization's access
    token is read from the environment variable `PAT_<org>`; organizations
    whose variable is unset or empty are skipped. */
module Credentials {
  import opened MossTypes

  /** The name of the environment variable holding `org`'s token. */
  function PatEnvName(org: string): string
  {
    "PAT_" + org
  }

  /** Builds the `pats` map from the configured organizations `orgs`. */
  method ResolvePats(orgs: seq<string>, env: map<string, string>) returns (pats: map<string, string>)
    ensures forall org :: org in pats <==> org in orgs && LookupOrEmpty(env, PatEnvName(org)) != ""
    ensures forall org :: org in pats ==> pats[org] == LookupOrEmpty(env, PatEnvName(org))
  {
    pats := map[];
    for i := 0 to |orgs|
      invariant forall org :: org in pats <==> org in orgs[..i] && LookupOrEmpty(env, PatEnvName(org)) != ""
      invariant forall org :: org in pats ==> pats[org] == LookupOrEmpty(env, PatEnvName(org))
    {
      var org := orgs[i];
      var pat := LookupOrEmpty(env, PatEnvName(org));
      assert orgs[..i + 1] == orgs[..i] + [org];
      if pat == "" {
        continue;
      }
      pats := pats[org := pat];
    }
    assert orgs[..|orgs|] == orgs;
  }

  /** Distinct organizations are looked up under distinct variable names, so no
      organization can pick up another's token. */
  lemma PatEnvNameInjective(a: string, b: string)
    ensures PatEnvName(a) == PatEnvName(b) ==> a == b
  {
    assert PatEnvName(a)[4..] == a;
    assert PatEnvName(b)[4..] == b;
  }
}
