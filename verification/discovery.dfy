/** Listing-page link discovery for one job type (`crawlJobList`). Pages 1, 2, 3, ... are
    loaded in turn and their links collected until a navigation fails, a page has no links,
    or the page-index cap is reached. */
module Discovery {
  import opened Wrappers
  import opened Records

  /** The cap the loop compares against. The test `pageIndex++ > 200` reads the index of the
      page just collected, so the loop stops after page 201, not page 200. */
  const CapIndex: nat := 200

  /** The last page the loop can request. */
  const LastPage: nat := CapIndex + 1

  /** Loading listing page `p` of a job type: `None` when navigation fails or times out,
      otherwise the anchor targets of the listing items, in page order. */
  type ListFetch = (string, nat) -> Option<seq<string>>

  /** Page `p` loaded and listed at least one link, so the loop goes on past it (cap aside). */
  predicate PageOk(fetch: ListFetch, jobType: string, p: nat) {
    fetch(jobType, p).Some? && |fetch(jobType, p).value| > 0
  }

  /** The links of page `p`, none when it failed to load. */
  function LinksOf(fetch: ListFetch, jobType: string, p: nat): seq<string> {
    fetch(jobType, p).GetOr([])
  }

  /** Each link paired with the job type it was listed under. */
  function Tag(links: seq<string>, jobType: string): (r: seq<JobLink>)
    ensures |r| == |links|
    ensures forall i :: 0 <= i < |r| ==> r[i] == JobLink(links[i], jobType)
  {
    seq(|links|, i requires 0 <= i < |links| => JobLink(links[i], jobType))
  }

  /** Reference result: the tagged links of pages `lo` .. `hi - 1`, in page order. */
  function Span(fetch: ListFetch, jobType: string, lo: nat, hi: nat): seq<JobLink>
    decreases hi
  {
    if hi <= lo then [] else Span(fetch, jobType, lo, hi - 1) + Tag(LinksOf(fetch, jobType, hi - 1), jobType)
  }

  /** The outcome of one discovery run: the collected links and the pages requested, in order. */
  datatype Discovery = Discovery(links: seq<JobLink>, requested: seq<nat>)

  /** The loop entered with `pageIndex == p`. Whatever the pages hold, the pages requested are
      `p, p + 1, ..., k` for some `k <= LastPage`; every page before `k` was loaded and listed
      links; `k` is the first that failed or was empty, or is `LastPage`; and the links are
      those of every page that was collected, in order. */
  function DiscoverFrom(fetch: ListFetch, jobType: string, p: nat): (r: Discovery)
    requires 1 <= p <= LastPage
    decreases LastPage - p
    ensures 1 <= |r.requested| <= LastPage - p + 1
    ensures forall i :: 0 <= i < |r.requested| ==> r.requested[i] == p + i
    ensures forall q :: p <= q < p + |r.requested| - 1 ==> PageOk(fetch, jobType, q)
    ensures var k := p + |r.requested| - 1;
            && (k == LastPage || !PageOk(fetch, jobType, k))
            && r.links == Span(fetch, jobType, p, if PageOk(fetch, jobType, k) then k + 1 else k)
  {
    match fetch(jobType, p)
    case None => Discovery([], [p])
    case Some(links) =>
      if |links| == 0 then Discovery([], [p])
      else if p > CapIndex then Discovery(Tag(links, jobType), [p])
      else
        var rest := DiscoverFrom(fetch, jobType, p + 1);
        SpanPrepend(fetch, jobType, p, p + |rest.requested| + (if PageOk(fetch, jobType, p + |rest.requested|) then 1 else 0));
        Discovery(Tag(links, jobType) + rest.links, [p] + rest.requested)
  }

  /** Pages `lo` .. `hi - 1` are page `lo` followed by pages `lo + 1` .. `hi - 1`. */
  lemma {:induction false} SpanPrepend(fetch: ListFetch, jobType: string, lo: nat, hi: nat)
    requires lo < hi
    ensures Span(fetch, jobType, lo, hi) == Tag(LinksOf(fetch, jobType, lo), jobType) + Span(fetch, jobType, lo + 1, hi)
    decreases hi
  {
    if hi - 1 > lo {
      SpanPrepend(fetch, jobType, lo, hi - 1);
    }
  }

  /** `crawlJobList(jobType)`: the loop started at page 1. It always stops, and the pages it
      requests are 1, 2, ..., k for some k no larger than 201. */
  function Discover(fetch: ListFetch, jobType: string): (r: Discovery)
    ensures 1 <= |r.requested| <= LastPage
    ensures forall i :: 0 <= i < |r.requested| ==> r.requested[i] == i + 1
  {
    DiscoverFrom(fetch, jobType, 1)
  }

  /** If page `m` is the first that fails to load or lists nothing, exactly pages 1 .. m are
      requested (the requested pages are always 1, 2, ... in order) and the result is the links of pages 1 .. m - 1; no later page is asked for. */
  lemma StopsAtFirstBadPage(fetch: ListFetch, jobType: string, m: nat)
    requires 1 <= m <= LastPage
    requires forall q :: 1 <= q < m ==> PageOk(fetch, jobType, q)
    requires !PageOk(fetch, jobType, m)
    ensures |Discover(fetch, jobType).requested| == m
    ensures Discover(fetch, jobType).links == Span(fetch, jobType, 1, m)
  {
    var r := Discover(fetch, jobType);
    var k: nat := |r.requested|;
    assert k < m ==> PageOk(fetch, jobType, k);
    assert k > m ==> PageOk(fetch, jobType, m);
  }

  /** When every page lists links, the run requests pages 1 .. 201 and keeps all their links:
      page 201 is still collected because the cap compares the index before incrementing it. */
  lemma CapIsPage201(fetch: ListFetch, jobType: string)
    requires forall q :: 1 <= q <= LastPage ==> PageOk(fetch, jobType, q)
    ensures |Discover(fetch, jobType).requested| == LastPage
    ensures Discover(fetch, jobType).links == Span(fetch, jobType, 1, 202)
  {
    var r := Discover(fetch, jobType);
    var k: nat := |r.requested|;
    assert k < LastPage ==> PageOk(fetch, jobType, k);
  }

  /** A link is collected from pages `lo` .. `hi - 1` exactly when one of those pages lists it,
      and it carries the requested job type. */
  lemma {:induction false} SpanMembership(fetch: ListFetch, jobType: string, lo: nat, hi: nat, l: JobLink)
    ensures l in Span(fetch, jobType, lo, hi)
            <==> l.jobType == jobType && exists q :: lo <= q < hi && l.link in LinksOf(fetch, jobType, q)
    decreases hi
  {
    if hi > lo {
      SpanMembership(fetch, jobType, lo, hi - 1, l);
      var last := Tag(LinksOf(fetch, jobType, hi - 1), jobType);
      assert l in last <==> l.jobType == jobType && l.link in LinksOf(fetch, jobType, hi - 1) by {
        if l.jobType == jobType && l.link in LinksOf(fetch, jobType, hi - 1) {
          var i :| 0 <= i < |LinksOf(fetch, jobType, hi - 1)| && LinksOf(fetch, jobType, hi - 1)[i] == l.link;
          assert last[i] == l;
        }
      }
    }
  }

  /** Every discovered link is tagged with the job type it was discovered for and is listed on
      one of the pages 1 .. 201. */
  lemma DiscoveredLinksTagged(fetch: ListFetch, jobType: string, l: JobLink)
    requires l in Discover(fetch, jobType).links
    ensures l.jobType == jobType
    ensures exists q :: 1 <= q <= LastPage && l.link in LinksOf(fetch, jobType, q)
  {
    var r := Discover(fetch, jobType);
    var k := |r.requested|;
    SpanMembership(fetch, jobType, 1, if PageOk(fetch, jobType, k) then k + 1 else k, l);
  }
}
