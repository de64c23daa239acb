/** The two Go string operations the pipeline relies on:
    `strings.Replace(s, old, new, 1)` and `strings.Split(s, "/")[0]`. */
module Strings {

  /** `pat` occurs in `s` starting at index `i`. */
  predicate OccursAt(s: string, pat: string, i: int)
  {
    0 <= i && i + |pat| <= |s| && s[i..i + |pat|] == pat
  }

  /** `i` is the first index at which `pat` occurs in `s`. */
  predicate FirstOccurrence(s: string, pat: string, i: int)
  {
    OccursAt(s, pat, i) && forall j :: 0 <= j < i ==> !OccursAt(s, pat, j)
  }

  lemma OccursAtTail(s: string, pat: string, i: int)
    requires |s| > 0 && 1 <= i
    ensures OccursAt(s, pat, i) <==> OccursAt(s[1..], pat, i - 1)
  {
  }

  /** `strings.Replace(s, pat, rep, 1)` for a non-empty `pat`. */
  function ReplaceFirst(s: string, pat: string, rep: string): string
    requires pat != []
    decreases |s|
  {
    if |s| < |pat| then s
    else if s[..|pat|] == pat then rep + s[|pat|..]
    else [s[0]] + ReplaceFirst(s[1..], pat, rep)
  }

  /** Without an occurrence of `pat`, `s` comes back unchanged. */
  lemma {:induction false} ReplaceFirstAbsent(s: string, pat: string, rep: string)
    requires pat != []
    requires forall i :: !OccursAt(s, pat, i)
    ensures ReplaceFirst(s, pat, rep) == s
    decreases |s|
  {
    if |s| >= |pat| {
      assert !OccursAt(s, pat, 0);
      forall i ensures !OccursAt(s[1..], pat, i) {
        if 0 <= i { OccursAtTail(s, pat, i + 1); }
      }
      ReplaceFirstAbsent(s[1..], pat, rep);
      assert [s[0]] + s[1..] == s;
    }
  }

  lemma FirstOccurrenceTail(s: string, pat: string, i: int)
    requires FirstOccurrence(s, pat, i) && 1 <= i
    ensures |pat| <= |s| && s[..|pat|] != pat
    ensures FirstOccurrence(s[1..], pat, i - 1)
  {
    assert !OccursAt(s, pat, 0);
    forall j | 0 <= j < i - 1 ensures !OccursAt(s[1..], pat, j) {
      OccursAtTail(s, pat, j + 1);
    }
    OccursAtTail(s, pat, i);
  }

  /** Only the first occurrence of `pat` is replaced by `rep`. */
  lemma {:induction false} ReplaceFirstPresent(s: string, pat: string, rep: string, i: int)
    requires pat != []
    requires FirstOccurrence(s, pat, i)
    ensures ReplaceFirst(s, pat, rep) == s[..i] + rep + s[i + |pat|..]
    decreases |s|
  {
    if i == 0 {
      assert s[..|pat|] == pat;
      assert s[..0] == [];
    } else {
      FirstOccurrenceTail(s, pat, i);
      var tail := ReplaceFirst(s[1..], pat, rep);
      assert ReplaceFirst(s, pat, rep) == [s[0]] + tail;
      ReplaceFirstPresent(s[1..], pat, rep, i - 1);
      SpliceAfterHead(s, rep, i, |pat|);
    }
  }

  lemma SpliceAfterHead(s: string, rep: string, i: int, k: int)
    requires 1 <= i && 0 <= k && i + k <= |s|
    ensures [s[0]] + (s[1..][..i - 1] + rep + s[1..][i - 1 + k..]) == s[..i] + rep + s[i + k..]
  {
  }

  /** `strings.Split(fullName, "/")[0]`: the part of `fullName` before its
      first `/`, or all of it when it has none. */
  function OrgOf(fullName: string): (org: string)
    ensures '/' !in org
    ensures |org| <= |fullName| && fullName[..|org|] == org
    ensures |org| < |fullName| ==> fullName[|org|] == '/'
  {
    if fullName == [] || fullName[0] == '/' then [] else [fullName[0]] + OrgOf(fullName[1..])
  }

  /** Splitting off the owner of an `owner/name` full name gives the owner back. */
  lemma {:induction false} OrgOfFullName(owner: string, name: string)
    requires '/' !in owner
    ensures OrgOf(owner + "/" + name) == owner
  {
    var full := owner + "/" + name;
    assert full[..|owner|] == owner;
    assert full[|owner|] == '/';
  }
}
