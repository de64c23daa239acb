/** Repository discovery for one organization (`get_org_repos`): pages of
    repositories are requested from the hosting API, archived repositories are
    skipped, and the first live repository pushed before the cutoff ends the walk.

    The hosting API is an input: `host` is the organization's list of pages as
    the API serves them, `host[0]` being page 1. The clock is an input too:
    `cutoff` is the value of `now - daysago` days. */
module Discovery {
  import opened MossTypes

  /** The answer to one page request. */
  datatype PageResult = PageErr(err: Error) | PageOk(repos: seq<Repo>)

  /** How a discovery walk ends.
      - `Repos`: a stale repository was met; these are the repositories kept.
      - `ApiError`: a page request failed; nothing gathered before is returned.
      - `NeverStops`: every page that exists was fetched without an error or a
        stale repository. From here on the API only answers with empty pages,
        and the source keeps requesting them forever; `gathered` is what it
        holds while it spins. This assumes that no request past the last page
        fails: one that did (a rate limit, say) would end the walk with an
        error instead. */
  datatype Discovered = Repos(repos: seq<Repo>) | ApiError(err: Error) | NeverStops(gathered: seq<Repo>)

  /** The hosting API's answer to a request for page cursor `page`. The client
      leaves a zero page number out of the request and the API then serves its
      first page, so cursors 0 and 1 get the same answer; past the last page the
      API answers with an empty list (the model assumes those requests succeed). */
  function Fetch(host: seq<PageResult>, page: nat): PageResult
  {
    var p := if page == 0 then 1 else page;
    if p <= |host| then host[p - 1] else PageOk([])
  }

  /** The answers to the requests for cursors `page`, `page + 1`, ..., `|host|`:
      every request that can still return something other than an empty page. */
  function RequestsFrom(host: seq<PageResult>, page: nat): (rs: seq<PageResult>)
    ensures |rs| == if page <= |host| then |host| + 1 - page else 0
    ensures forall k :: 0 <= k < |rs| ==> rs[k] == Fetch(host, page + k)
    decreases |host| + 1 - page
  {
    if page > |host| then [] else [Fetch(host, page)] + RequestsFrom(host, page + 1)
  }

  /** The answers the source's loop receives, starting from `page := 0`. */
  function Requests(host: seq<PageResult>): seq<PageResult>
  {
    RequestsFrom(host, 0)
  }

  /** A repository that ends the walk: live (not archived) and pushed strictly
      before the cutoff. */
  predicate StopsWalk(r: Repo, cutoff: int)
  {
    !r.archived && r.pushedAt < cutoff
  }

  predicate HasStale(rs: seq<Repo>, cutoff: int)
  {
    exists i :: 0 <= i < |rs| && StopsWalk(rs[i], cutoff)
  }

  /** What the inner loop over one page appends: live repositories up to the
      first stale one. */
  function KeptOnPage(rs: seq<Repo>, cutoff: int): seq<Repo>
  {
    if rs == [] then []
    else if rs[0].archived then KeptOnPage(rs[1..], cutoff)
    else if rs[0].pushedAt < cutoff then []
    else [rs[0]] + KeptOnPage(rs[1..], cutoff)
  }

  /** Adds repositories gathered earlier in front of the outcome of the rest of a walk. */
  function Prepend(earlier: seq<Repo>, d: Discovered): Discovered
  {
    match d
    case Repos(rs) => Repos(earlier + rs)
    case ApiError(e) => ApiError(e)
    case NeverStops(g) => NeverStops(earlier + g)
  }

  /** The outcome of receiving `pages` in order, as the source's loop does. */
  function Walk(pages: seq<PageResult>, cutoff: int): Discovered
  {
    if pages == [] then NeverStops([])
    else match pages[0]
      case PageErr(e) => ApiError(e)
      case PageOk(rs) =>
        if HasStale(rs, cutoff) then Repos(KeptOnPage(rs, cutoff))
        else Prepend(KeptOnPage(rs, cutoff), Walk(pages[1..], cutoff))
  }

  /** The repositories a walk hands back or holds. */
  function Gathered(d: Discovered): seq<Repo>
  {
    match d
    case Repos(rs) => rs
    case ApiError(_) => []
    case NeverStops(g) => g
  }

  /** `get_org_repos` with the network and the clock abstracted away.
      `requested` lists the page cursors passed to the API, in request order. */
  method GetOrgRepos(host: seq<PageResult>, cutoff: int) returns (d: Discovered, requested: seq<nat>)
    ensures d == Walk(Requests(host), cutoff)
    ensures requested == seq(|requested|, k => k)
    ensures !d.NeverStops? ==> 1 <= |requested| <= |host| + 1
                               && Walk(Requests(host)[..|requested| - 1], cutoff).NeverStops?
                               && d == Walk(Requests(host)[..|requested|], cutoff)
    ensures d.NeverStops? ==> |requested| == |host| + 1
  {
    ghost var requests := Requests(host);
    var orgRepos: seq<Repo> := [];
    var page: nat := 0;
    requested := [];
    while page <= |host|
      invariant page <= |host| + 1
      invariant requested == seq(page, k => k)
      invariant Walk(requests[..page], cutoff) == NeverStops(orgRepos)
    {
      var response := Fetch(host, page);
      requested := requested + [page];
      WalkNextPage(requests, page, cutoff);
      if response.PageErr? {
        d := ApiError(response.err);
        WalkStopped(requests, page, cutoff);
        return;
      }
      var repos := response.repos;
      ghost var before := orgRepos;
      var sawOlder := false;
      for i := 0 to |repos|
        invariant before + KeptOnPage(repos, cutoff) == orgRepos + KeptOnPage(repos[i..], cutoff)
        invariant !HasStale(repos[..i], cutoff)
      {
        var repo := repos[i];
        assert repos[i..] == [repo] + repos[i + 1..];
        assert repos[..i + 1] == repos[..i] + [repo];
        if repo.archived {
          continue;
        }
        if repo.pushedAt < cutoff {
          sawOlder := true;
          break;
        }
        orgRepos := orgRepos + [repo];
      }
      assert sawOlder == HasStale(repos, cutoff) by {
        if !sawOlder { assert repos[..|repos|] == repos; }
      }
      WalkOnePage(repos, cutoff);
      if sawOlder {
        d := Repos(orgRepos);
        WalkStopped(requests, page, cutoff);
        return;
      }
      page := page + 1;
    }
    assert requests[..page] == requests;
    d := NeverStops(orgRepos);
  }

  /** One more page: the walk over the first `page + 1` answers extends the
      walk over the first `page`. */
  lemma WalkNextPage(requests: seq<PageResult>, page: nat, cutoff: int)
    requires page < |requests|
    ensures var w := Walk(requests[..page], cutoff);
            Walk(requests[..page + 1], cutoff) ==
              if w.NeverStops? then Prepend(w.gathered, Walk([requests[page]], cutoff)) else w
  {
    assert requests[..page + 1] == requests[..page] + [requests[page]];
    WalkAppend(requests[..page], [requests[page]], cutoff);
  }

  /** A walk that has ended by page `page` ignores every later answer. */
  lemma WalkStopped(requests: seq<PageResult>, page: nat, cutoff: int)
    requires page < |requests|
    requires !Walk(requests[..page + 1], cutoff).NeverStops?
    ensures Walk(requests, cutoff) == Walk(requests[..page + 1], cutoff)
  {
    assert requests[..page + 1] + requests[page + 1..] == requests;
    WalkAppend(requests[..page + 1], requests[page + 1..], cutoff);
  }

  lemma WalkOnePage(rs: seq<Repo>, cutoff: int)
    ensures Walk([PageOk(rs)], cutoff) == if HasStale(rs, cutoff) then Repos(KeptOnPage(rs, cutoff))
                                          else NeverStops(KeptOnPage(rs, cutoff))
  {
  }

  /** A walk over `a + b` ends inside `a` if the walk over `a` ends there, and
      otherwise continues over `b` with what `a` gathered in front. */
  lemma {:induction false} WalkAppend(a: seq<PageResult>, b: seq<PageResult>, cutoff: int)
    ensures Walk(a + b, cutoff) == if Walk(a, cutoff).NeverStops? then Prepend(Gathered(Walk(a, cutoff)), Walk(b, cutoff)) else Walk(a, cutoff)
  {
    if a == [] {
      assert a + b == b;
      match Walk(b, cutoff)
      case Repos(rs) => assert [] + rs == rs;
      case ApiError(_) =>
      case NeverStops(g) => assert [] + g == g;
    } else {
      assert (a + b)[1..] == a[1..] + b;
      WalkAppend(a[1..], b, cutoff);
      match a[0]
      case PageErr(_) =>
      case PageOk(rs) =>
        if !HasStale(rs, cutoff) {
          PrependTwice(KeptOnPage(rs, cutoff), Gathered(Walk(a[1..], cutoff)), Walk(b, cutoff));
        }
    }
  }

  lemma PrependTwice(xs: seq<Repo>, ys: seq<Repo>, d: Discovered)
    ensures Prepend(xs, Prepend(ys, d)) == Prepend(xs + ys, d)
  {
  }

  // ---------------------------------------------------------------------
  // What a walk returns, stated independently of the loop.

  /** The live (non-archived) repositories of `rs`, in order. */
  function NonArchived(rs: seq<Repo>): (live: seq<Repo>)
    ensures forall r :: r in live ==> r in rs && !r.archived
  {
    if rs == [] then []
    else if rs[0].archived then NonArchived(rs[1..])
    else [rs[0]] + NonArchived(rs[1..])
  }

  /** The index of the first repository that ends the walk, or `|rs|` if none does. */
  function FirstStop(rs: seq<Repo>, cutoff: int): (k: nat)
    ensures k <= |rs|
    ensures forall j :: 0 <= j < k ==> !StopsWalk(rs[j], cutoff)
    ensures k < |rs| ==> StopsWalk(rs[k], cutoff)
  {
    if rs == [] then 0
    else if StopsWalk(rs[0], cutoff) then 0
    else 1 + FirstStop(rs[1..], cutoff)
  }

  /** The inner loop keeps exactly the live repositories that come before the
      first live repository pushed before the cutoff; archived repositories are
      skipped before the age test, so a stale archived one never ends the walk. */
  lemma {:induction false} KeptOnPageIsLivePrefix(rs: seq<Repo>, cutoff: int)
    ensures KeptOnPage(rs, cutoff) == NonArchived(rs[..FirstStop(rs, cutoff)])
    ensures HasStale(rs, cutoff) <==> FirstStop(rs, cutoff) < |rs|
  {
    if rs != [] {
      KeptOnPageIsLivePrefix(rs[1..], cutoff);
      if !StopsWalk(rs[0], cutoff) {
        var k := FirstStop(rs[1..], cutoff);
        assert rs[..k + 1] == [rs[0]] + rs[1..][..k];
        assert rs[..k + 1][1..] == rs[1..][..k];
        if HasStale(rs, cutoff) {
          var i :| 0 <= i < |rs| && StopsWalk(rs[i], cutoff);
          assert StopsWalk(rs[1..][i - 1], cutoff);
        }
      }
    }
  }

  /** Every repository a walk returns or holds is live and was pushed at or
      after the cutoff (the age test is strict, so the cutoff itself is kept). */
  lemma {:induction false} WalkKeepsOnlyRecentLive(pages: seq<PageResult>, cutoff: int)
    ensures forall r :: r in Gathered(Walk(pages, cutoff)) ==> !r.archived && r.pushedAt >= cutoff
  {
    if pages != [] {
      WalkKeepsOnlyRecentLive(pages[1..], cutoff);
      if pages[0].PageOk? {
        var rs := pages[0].repos;
        KeptOnPageIsLivePrefix(rs, cutoff);
        var k := FirstStop(rs, cutoff);
        forall r | r in KeptOnPage(rs, cutoff) ensures !r.archived && r.pushedAt >= cutoff {
          var j :| 0 <= j < k && rs[..k][j] == r;
          assert !StopsWalk(rs[j], cutoff);
        }
      }
    }
  }

  /** The repositories of every successfully fetched page, in fetch order. */
  function Flatten(pages: seq<PageResult>): seq<Repo>
  {
    if pages == [] then []
    else (if pages[0].PageOk? then pages[0].repos else []) + Flatten(pages[1..])
  }

  predicate AllOk(pages: seq<PageResult>)
  {
    forall k :: 0 <= k < |pages| ==> pages[k].PageOk?
  }

  lemma {:induction false} KeptOnPageAppend(a: seq<Repo>, b: seq<Repo>, cutoff: int)
    ensures HasStale(a + b, cutoff) <==> HasStale(a, cutoff) || HasStale(b, cutoff)
    ensures KeptOnPage(a + b, cutoff) == if HasStale(a, cutoff) then KeptOnPage(a, cutoff)
                                         else KeptOnPage(a, cutoff) + KeptOnPage(b, cutoff)
  {
    if a == [] {
      assert a + b == b;
    } else {
      assert (a + b)[1..] == a[1..] + b;
      KeptOnPageAppend(a[1..], b, cutoff);
      assert HasStale(a, cutoff) <==> StopsWalk(a[0], cutoff) || HasStale(a[1..], cutoff) by {
        if HasStale(a, cutoff) && !StopsWalk(a[0], cutoff) {
          var i :| 0 <= i < |a| && StopsWalk(a[i], cutoff);
          assert StopsWalk(a[1..][i - 1], cutoff);
        }
        if HasStale(a[1..], cutoff) {
          var i :| 0 <= i < |a[1..]| && StopsWalk(a[1..][i], cutoff);
          assert StopsWalk(a[i + 1], cutoff);
        }
      }
      assert HasStale(a + b, cutoff) <==> StopsWalk(a[0], cutoff) || HasStale(a[1..] + b, cutoff) by {
        var ab := a + b;
        if HasStale(ab, cutoff) && !StopsWalk(a[0], cutoff) {
          var i :| 0 <= i < |ab| && StopsWalk(ab[i], cutoff);
          assert StopsWalk(ab[1..][i - 1], cutoff);
        }
        if HasStale(ab[1..], cutoff) {
          var i :| 0 <= i < |ab[1..]| && StopsWalk(ab[1..][i], cutoff);
          assert StopsWalk(ab[i + 1], cutoff);
        }
        assert StopsWalk(a[0], cutoff) ==> StopsWalk(ab[0], cutoff);
      }
    }
  }

  /** When no request fails, discovery returns the live repositories that come,
      in fetch order over all pages, before the first live repository pushed
      before the cutoff; no repository after it is returned. */
  lemma {:induction false} WalkOverOkPages(pages: seq<PageResult>, cutoff: int)
    requires AllOk(pages)
    ensures Walk(pages, cutoff) == if HasStale(Flatten(pages), cutoff)
                                   then Repos(KeptOnPage(Flatten(pages), cutoff))
                                   else NeverStops(KeptOnPage(Flatten(pages), cutoff))
  {
    if pages == [] {
    } else {
      var rs := pages[0].repos;
      assert AllOk(pages[1..]) by {
        forall k | 0 <= k < |pages[1..]| ensures pages[1..][k].PageOk? { assert pages[k + 1].PageOk?; }
      }
      WalkOverOkPages(pages[1..], cutoff);
      KeptOnPageAppend(rs, Flatten(pages[1..]), cutoff);
    }
  }

  /** The walk never stopped within the first `k` pages: each was fetched
      successfully and had no live repository pushed before the cutoff. */
  predicate ContinuesPast(pages: seq<PageResult>, k: int, cutoff: int)
    requires 0 <= k <= |pages|
  {
    forall j :: 0 <= j < k ==> pages[j].PageOk? && !HasStale(pages[j].repos, cutoff)
  }

  /** Discovery fails with `e` exactly when some page request fails with `e` and
      every earlier page was fetched without meeting a stale repository. What
      was gathered before the failure is discarded. */
  lemma {:induction false} WalkFailsAtFirstError(pages: seq<PageResult>, cutoff: int, e: Error)
    ensures Walk(pages, cutoff) == ApiError(e) <==>
            exists k :: 0 <= k < |pages| && pages[k] == PageErr(e) && ContinuesPast(pages, k, cutoff)
  {
    if pages != [] {
      WalkFailsAtFirstError(pages[1..], cutoff, e);
      if Walk(pages, cutoff) == ApiError(e) && pages[0].PageOk? {
        var k :| 0 <= k < |pages[1..]| && pages[1..][k] == PageErr(e) && ContinuesPast(pages[1..], k, cutoff);
        assert pages[k + 1] == PageErr(e);
        assert ContinuesPast(pages, k + 1, cutoff) by {
          forall j | 0 <= j < k + 1 ensures pages[j].PageOk? && !HasStale(pages[j].repos, cutoff) {
            if j > 0 { assert pages[j] == pages[1..][j - 1]; }
          }
        }
      }
      if exists k :: 0 <= k < |pages| && pages[k] == PageErr(e) && ContinuesPast(pages, k, cutoff) {
        var k :| 0 <= k < |pages| && pages[k] == PageErr(e) && ContinuesPast(pages, k, cutoff);
        if k > 0 {
          assert pages[1..][k - 1] == PageErr(e);
          assert ContinuesPast(pages[1..], k - 1, cutoff) by {
            forall j | 0 <= j < k - 1 ensures pages[1..][j].PageOk? && !HasStale(pages[1..][j].repos, cutoff) {
              assert pages[1..][j] == pages[j + 1];
            }
          }
        }
      }
    }
  }

  // ---------------------------------------------------------------------
  // Paging from cursor 0.

  lemma {:induction false} KeptOnPageWithin(rs: seq<Repo>, cutoff: int)
    ensures multiset(KeptOnPage(rs, cutoff)) <= multiset(rs)
  {
    if rs != [] {
      KeptOnPageWithin(rs[1..], cutoff);
      assert rs == [rs[0]] + rs[1..];
    }
  }

  /** A walk never returns a repository more often than the fetched pages list it. */
  lemma {:induction false} WalkGatheredWithin(pages: seq<PageResult>, cutoff: int)
    ensures multiset(Gathered(Walk(pages, cutoff))) <= multiset(Flatten(pages))
  {
    if pages != [] {
      WalkGatheredWithin(pages[1..], cutoff);
      if pages[0].PageOk? {
        KeptOnPageWithin(pages[0].repos, cutoff);
        var rest := Walk(pages[1..], cutoff);
        if !HasStale(pages[0].repos, cutoff) && !rest.ApiError? {
          assert Gathered(Walk(pages, cutoff)) == KeptOnPage(pages[0].repos, cutoff) + Gathered(rest);
        }
      }
    }
  }

  /** As written, the loop's first two requests (cursors 0 and 1) both get the
      API's first page. When that page is fetched successfully and holds no
      stale repository, the repositories it keeps are gathered twice. */
  lemma FirstPageFetchedTwice(host: seq<PageResult>, cutoff: int)
    requires |host| >= 1 && host[0].PageOk? && !HasStale(host[0].repos, cutoff)
    ensures Requests(host)[0] == Requests(host)[1] == host[0]
    ensures var kept := KeptOnPage(host[0].repos, cutoff);
            Walk(Requests(host), cutoff) == Prepend(kept + kept, Walk(RequestsFrom(host, 2), cutoff))
  {
    var r := Requests(host);
    var kept := KeptOnPage(host[0].repos, cutoff);
    assert r[1..] == RequestsFrom(host, 1);
    assert r[1..][1..] == RequestsFrom(host, 2);
    PrependTwice(kept, kept, Walk(RequestsFrom(host, 2), cutoff));
  }

  /** A concrete instance: one recent repository on page 1 and a stale one on
      page 2. The API lists the recent repository once; discovery returns it twice. */
  lemma DuplicatedRepository(recent: Repo, stale: Repo, cutoff: int)
    requires !recent.archived && recent.pushedAt >= cutoff && StopsWalk(stale, cutoff)
    ensures var host := [PageOk([recent]), PageOk([stale])];
            Walk(Requests(host), cutoff) == Repos([recent, recent])
            && !(multiset(Gathered(Walk(Requests(host), cutoff))) <= multiset(Flatten(host)))
  {
    var host := [PageOk([recent]), PageOk([stale])];
    assert !HasStale([recent], cutoff);
    assert StopsWalk([stale][0], cutoff);
    assert HasStale([stale], cutoff);
    assert [recent][1..] == [];
    FirstPageFetchedTwice(host, cutoff);
    assert RequestsFrom(host, 2)[0] == PageOk([stale]);
    assert Flatten(host) == [recent, stale] by {
      assert host[1..] == [PageOk([stale])];
      assert host[1..][1..] == [];
      assert Flatten(host[1..]) == [stale] + [];
    }
    assert multiset([recent, recent])[recent] == 2;
    assert multiset([recent, stale])[recent] == 1;
  }

  /** Requests starting at cursor 1 receive exactly the API's pages, in order. */
  lemma RequestsFromFirstPage(host: seq<PageResult>)
    ensures RequestsFrom(host, 1) == host
  {
  }

  /** With paging started at page 1, discovery returns no repository more often
      than the API lists it. */
  lemma CorrectedPagingListsEachRepoOnce(host: seq<PageResult>, cutoff: int)
    ensures multiset(Gathered(Walk(RequestsFrom(host, 1), cutoff))) <= multiset(Flatten(host))
  {
    RequestsFromFirstPage(host);
    WalkGatheredWithin(host, cutoff);
  }
}
