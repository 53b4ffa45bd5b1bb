/** Crawl orchestration (`crawlAll`): job types in the order given, then each type's discovered
    links in discovery order. Every link whose detail page loads yields a record, which is
    appended to the output and then upserted; a link that fails is skipped and the run goes on. */
module Crawl {
  import opened Wrappers
  import opened Records
  import opened Extraction
  import opened Discovery
  import opened Store

  /** The collaborators of a run: listing and detail page loads, the extraction closure
      (`SiteExtract` for the site), and whether the store accepts the upsert of a record
      (`false` models an upsert that throws). */
  datatype Env = Env(
    listFetch: ListFetch,
    detailFetch: DetailFetch,
    extract: DetailPage -> DetailFields,
    persists: JobRecord -> bool)

  /** The state a run threads along: the records returned so far and the store. */
  datatype Run = Run(output: seq<JobRecord>, table: Table)

  /** One iteration of the inner loop: crawl the link's detail page; on failure nothing
      changes, on success the record is appended and then, if the store accepts it, upserted. */
  function Visit(env: Env, run: Run, link: string, jobType: string): (r: Run)
    ensures env.detailFetch(link).None? ==> r == run
    ensures env.detailFetch(link).Some? ==>
              var rec := Assemble(link, jobType, env.extract(env.detailFetch(link).value));
              && r.output == run.output + [rec]
              && r.table == if env.persists(rec) then Upsert(run.table, rec) else run.table
  {
    match CrawlDetail(env.detailFetch, env.extract, link, jobType)
    case None => run
    case Some(rec) => Run(run.output + [rec], if env.persists(rec) then Upsert(run.table, rec) else run.table)
  }

  /** The inner loop over one job type's discovered links, in order. */
  function VisitAll(env: Env, run: Run, links: seq<JobLink>, jobType: string): (r: Run)
    ensures run.output <= r.output && |r.output| <= |run.output| + |links|
    decreases |links|
  {
    if links == [] then run
    else VisitAll(env, Visit(env, run, links[0].link, jobType), links[1..], jobType)
  }

  /** The outer loop over job types, in order. */
  function CrawlTypes(env: Env, run: Run, jobTypes: seq<string>): (r: Run)
    ensures run.output <= r.output
    decreases |jobTypes|
  {
    if jobTypes == [] then run
    else
      var jt := jobTypes[0];
      CrawlTypes(env, VisitAll(env, run, Discover(env.listFetch, jt).links, jt), jobTypes[1..])
  }


  /** Reference output for some links: the successfully extracted records, in link order. */
  function Extracted(env: Env, links: seq<JobLink>, jobType: string): seq<JobRecord>
    decreases |links|
  {
    if links == [] then []
    else
      var head := match CrawlDetail(env.detailFetch, env.extract, links[0].link, jobType)
                  case None => []
                  case Some(rec) => [rec];
      head + Extracted(env, links[1..], jobType)
  }

  /** Reference output of a whole run: each job type's extracted records, types in order. */
  function Expected(env: Env, jobTypes: seq<string>): seq<JobRecord>
    decreases |jobTypes|
  {
    if jobTypes == [] then []
    else Extracted(env, Discover(env.listFetch, jobTypes[0]).links, jobTypes[0]) + Expected(env, jobTypes[1..])
  }

  /** The records of `recs` whose upsert succeeds, in order. */
  function Persisted(env: Env, recs: seq<JobRecord>): seq<JobRecord>
    decreases |recs|
  {
    if recs == [] then []
    else (if env.persists(recs[0]) then [recs[0]] else []) + Persisted(env, recs[1..])
  }

  lemma {:induction false} PersistedAppend(env: Env, a: seq<JobRecord>, b: seq<JobRecord>)
    ensures Persisted(env, a + b) == Persisted(env, a) + Persisted(env, b)
    decreases |a|
  {
    if a == [] {
      assert a + b == b;
    } else {
      assert (a + b)[0] == a[0];
      assert (a + b)[1..] == a[1..] + b;
      PersistedAppend(env, a[1..], b);
    }
  }

  lemma {:induction false} ExtractedAppend(env: Env, a: seq<JobLink>, b: seq<JobLink>, jobType: string)
    ensures Extracted(env, a + b, jobType) == Extracted(env, a, jobType) + Extracted(env, b, jobType)
    decreases |a|
  {
    if a == [] {
      assert a + b == b;
    } else {
      assert (a + b)[0] == a[0];
      assert (a + b)[1..] == a[1..] + b;
      ExtractedAppend(env, a[1..], b, jobType);
    }
  }

  /** The inner loop appends exactly the extracted records, in link order. */
  lemma {:induction false} VisitAllOutput(env: Env, run: Run, links: seq<JobLink>, jobType: string)
    ensures VisitAll(env, run, links, jobType).output == run.output + Extracted(env, links, jobType)
    decreases |links|
  {
    if links != [] {
      var step := Visit(env, run, links[0].link, jobType);
      VisitAllOutput(env, step, links[1..], jobType);
    }
  }

  /** The store after one link: the records it extracted, as far as accepted, upserted. */
  lemma VisitTable(env: Env, run: Run, link: JobLink, jobType: string)
    ensures Visit(env, run, link.link, jobType).table == UpsertAll(run.table, Persisted(env, Extracted(env, [link], jobType)))
  {
    ExtractedSingle(env, link, jobType);
    match CrawlDetail(env.detailFetch, env.extract, link.link, jobType)
    case None =>
      assert Persisted(env, []) == [];
    case Some(rec) =>
      assert [rec][1..] == [];
      assert Persisted(env, [rec]) == if env.persists(rec) then [rec] else [];
      UpsertAllShort(run.table, rec, rec);
  }

  /** The inner loop upserts exactly the extracted records the store accepts, in order. */
  lemma {:induction false} VisitAllTable(env: Env, run: Run, links: seq<JobLink>, jobType: string)
    ensures VisitAll(env, run, links, jobType).table
            == UpsertAll(run.table, Persisted(env, Extracted(env, links, jobType)))
    decreases |links|
  {
    if links != [] {
      var step := Visit(env, run, links[0].link, jobType);
      var head := Extracted(env, [links[0]], jobType);
      var rest := Extracted(env, links[1..], jobType);
      assert links == [links[0]] + links[1..];
      ExtractedAppend(env, [links[0]], links[1..], jobType);
      VisitTable(env, run, links[0], jobType);
      VisitAllTable(env, step, links[1..], jobType);
      PersistedAppend(env, head, rest);
      UpsertAllAppend(run.table, Persisted(env, head), Persisted(env, rest));
    }
  }

  /** The outer loop appends each job type's extracted records, types in order. */
  lemma {:induction false} CrawlTypesOutput(env: Env, run: Run, jobTypes: seq<string>)
    ensures CrawlTypes(env, run, jobTypes).output == run.output + Expected(env, jobTypes)
    decreases |jobTypes|
  {
    if jobTypes != [] {
      var jt := jobTypes[0];
      var links := Discover(env.listFetch, jt).links;
      var step := VisitAll(env, run, links, jt);
      var first := Extracted(env, links, jt);
      var later := Expected(env, jobTypes[1..]);
      assert CrawlTypes(env, run, jobTypes) == CrawlTypes(env, step, jobTypes[1..]);
      assert Expected(env, jobTypes) == first + later;
      VisitAllOutput(env, run, links, jt);
      CrawlTypesOutput(env, step, jobTypes[1..]);
      ConcatAssoc(run.output, first, later);
    }
  }

  lemma ConcatAssoc(a: seq<JobRecord>, b: seq<JobRecord>, c: seq<JobRecord>)
    ensures (a + b) + c == a + (b + c)
  {
  }

  /** The outer loop upserts the accepted records of the reference output, in order. */
  lemma {:induction false} CrawlTypesTable(env: Env, run: Run, jobTypes: seq<string>)
    ensures CrawlTypes(env, run, jobTypes).table == UpsertAll(run.table, Persisted(env, Expected(env, jobTypes)))
    decreases |jobTypes|
  {
    if jobTypes != [] {
      var jt := jobTypes[0];
      var links := Discover(env.listFetch, jt).links;
      var first := Extracted(env, links, jt);
      var later := Expected(env, jobTypes[1..]);
      VisitAllTable(env, run, links, jt);
      CrawlTypesTable(env, VisitAll(env, run, links, jt), jobTypes[1..]);
      PersistedAppend(env, first, later);
      UpsertAllAppend(run.table, Persisted(env, first), Persisted(env, later));
    }
  }

  /** `crawlAll(jobTypes)` against a store holding `table` beforehand. It returns exactly the
      successfully extracted records, job types in order and links in discovery order within
      a type; the store ends up as the old store with exactly the accepted records upserted in
      that same order, and so stays keyed by link. */
  function CrawlAll(env: Env, jobTypes: seq<string>, table: Table): (r: Run)
    ensures r.output == Expected(env, jobTypes)
    ensures r.table == UpsertAll(table, Persisted(env, Expected(env, jobTypes)))
    ensures Keyed(table) ==> Keyed(r.table)
  {
    UpsertAllKeepsKeyed(table, Persisted(env, Expected(env, jobTypes)));
    CrawlTypesOutput(env, Run([], table), jobTypes);
    CrawlTypesTable(env, Run([], table), jobTypes);
    CrawlTypes(env, Run([], table), jobTypes)
  }

  /** A record is extracted from some links exactly when one of them crawls to it. */
  lemma {:induction false} ExtractedMembership(env: Env, links: seq<JobLink>, jobType: string, rec: JobRecord)
    ensures rec in Extracted(env, links, jobType)
            <==> exists i :: 0 <= i < |links| && CrawlDetail(env.detailFetch, env.extract, links[i].link, jobType) == Some(rec)
    decreases |links|
  {
    if links != [] {
      ExtractedMembership(env, links[1..], jobType, rec);
      assert forall i :: 1 <= i < |links| ==> links[i] == links[1..][i - 1];
      if exists i :: 0 <= i < |links| && CrawlDetail(env.detailFetch, env.extract, links[i].link, jobType) == Some(rec) {
        var i :| 0 <= i < |links| && CrawlDetail(env.detailFetch, env.extract, links[i].link, jobType) == Some(rec);
        if i > 0 {
          assert links[1..][i - 1] == links[i];
        }
      }
    }
  }

  /** A record of the reference output comes from one of the job types. */
  lemma {:induction false} ExpectedMembership(env: Env, jobTypes: seq<string>, rec: JobRecord)
    ensures rec in Expected(env, jobTypes)
            <==> exists k :: 0 <= k < |jobTypes| && rec in Extracted(env, Discover(env.listFetch, jobTypes[k]).links, jobTypes[k])
    decreases |jobTypes|
  {
    if jobTypes != [] {
      ExpectedMembership(env, jobTypes[1..], rec);
      if exists k :: 0 <= k < |jobTypes| && rec in Extracted(env, Discover(env.listFetch, jobTypes[k]).links, jobTypes[k]) {
        var k :| 0 <= k < |jobTypes| && rec in Extracted(env, Discover(env.listFetch, jobTypes[k]).links, jobTypes[k]);
        if k > 0 {
          assert jobTypes[1..][k - 1] == jobTypes[k];
        }
      }
      if rec in Expected(env, jobTypes[1..]) {
        var k :| 0 <= k < |jobTypes[1..]| && rec in Extracted(env, Discover(env.listFetch, jobTypes[1..][k]).links, jobTypes[1..][k]);
        assert jobTypes[1..][k] == jobTypes[k + 1];
      }
    }
  }

  /** Every record `crawlAll` returns was discovered for one of the requested job types, carries
      that type and its discovered link, and holds the fields extracted from its detail page. */
  lemma OutputProvenance(env: Env, jobTypes: seq<string>, table: Table, rec: JobRecord)
    requires rec in CrawlAll(env, jobTypes, table).output
    ensures exists k :: 0 <= k < |jobTypes| && rec.jobType == jobTypes[k]
                        && JobLink(rec.link, jobTypes[k]) in Discover(env.listFetch, jobTypes[k]).links
    ensures env.detailFetch(rec.link).Some?
            && DetailsOf(rec) == env.extract(env.detailFetch(rec.link).value)
  {
    ExpectedMembership(env, jobTypes, rec);
    var k :| 0 <= k < |jobTypes| && rec in Extracted(env, Discover(env.listFetch, jobTypes[k]).links, jobTypes[k]);
    var links := Discover(env.listFetch, jobTypes[k]).links;
    ExtractedMembership(env, links, jobTypes[k], rec);
    var i :| 0 <= i < |links| && CrawlDetail(env.detailFetch, env.extract, links[i].link, jobTypes[k]) == Some(rec);
    DiscoveredLinksTagged(env.listFetch, jobTypes[k], links[i]);
    assert links[i] == JobLink(rec.link, jobTypes[k]);
  }

  /** Failures are isolated: every discovered link whose detail page loads is in the output,
      whatever happened to the links and job types around it. */
  lemma OutputComplete(env: Env, jobTypes: seq<string>, table: Table, k: nat, i: nat)
    requires k < |jobTypes|
    requires i < |Discover(env.listFetch, jobTypes[k]).links|
    requires env.detailFetch(Discover(env.listFetch, jobTypes[k]).links[i].link).Some?
    ensures var l := Discover(env.listFetch, jobTypes[k]).links[i];
            Assemble(l.link, jobTypes[k], env.extract(env.detailFetch(l.link).value))
            in CrawlAll(env, jobTypes, table).output
  {
    var links := Discover(env.listFetch, jobTypes[k]).links;
    var rec := Assemble(links[i].link, jobTypes[k], env.extract(env.detailFetch(links[i].link).value));
    assert CrawlDetail(env.detailFetch, env.extract, links[i].link, jobTypes[k]) == Some(rec);
    ExtractedMembership(env, links, jobTypes[k], rec);
    ExpectedMembership(env, jobTypes, rec);
  }

  /** A link whose detail page fails contributes nothing and cuts nothing short: the output
      is that of the links before it followed by that of the links after it. */
  lemma FailedLinkSkipped(env: Env, links: seq<JobLink>, jobType: string, i: nat)
    requires i < |links| && env.detailFetch(links[i].link).None?
    ensures Extracted(env, links, jobType) == Extracted(env, links[..i], jobType) + Extracted(env, links[i + 1..], jobType)
  {
    assert links == links[..i] + ([links[i]] + links[i + 1..]);
    ExtractedAppend(env, links[..i], [links[i]] + links[i + 1..], jobType);
    assert ([links[i]] + links[i + 1..])[1..] == links[i + 1..];
  }

  /** A record whose upsert fails was already appended: it stays in the output, and the
      store is left as it was. */
  lemma UpsertFailureKeepsOutput(env: Env, run: Run, link: string, jobType: string)
    requires env.detailFetch(link).Some?
    requires !env.persists(CrawlDetail(env.detailFetch, env.extract, link, jobType).value)
    ensures Visit(env, run, link, jobType)
            == Run(run.output + [CrawlDetail(env.detailFetch, env.extract, link, jobType).value], run.table)
  {
  }

  /** With a store that accepts everything, every extracted record is upserted. */
  lemma {:induction false} PersistedAll(env: Env, recs: seq<JobRecord>)
    requires forall rec :: env.persists(rec)
    ensures Persisted(env, recs) == recs
    decreases |recs|
  {
    if recs != [] {
      PersistedAll(env, recs[1..]);
      assert env.persists(recs[0]);
      assert recs == [recs[0]] + recs[1..];
    }
  }

  /** One link extracts to its record, or to nothing when its detail page fails. */
  lemma ExtractedSingle(env: Env, l: JobLink, jobType: string)
    ensures Extracted(env, [l], jobType)
            == if env.detailFetch(l.link).Some? then [CrawlDetail(env.detailFetch, env.extract, l.link, jobType).value] else []
  {
    assert [l][1..] == [];
  }

  /** Three links whose middle detail page fails extract to the first and third records. */
  lemma ThreeLinksMiddleFails(env: Env, la: JobLink, lb: JobLink, lc: JobLink, jobType: string)
    requires env.detailFetch(la.link).Some? && env.detailFetch(lb.link).None? && env.detailFetch(lc.link).Some?
    ensures Extracted(env, [la, lb, lc], jobType)
            == [CrawlDetail(env.detailFetch, env.extract, la.link, jobType).value,
                CrawlDetail(env.detailFetch, env.extract, lc.link, jobType).value]
  {
    assert [la, lb, lc] == [la] + ([lb] + [lc]);
    ExtractedSingle(env, la, jobType);
    ExtractedSingle(env, lb, jobType);
    ExtractedSingle(env, lc, jobType);
    ExtractedAppend(env, [lb], [lc], jobType);
    ExtractedAppend(env, [la], [lb] + [lc], jobType);
  }

  /** Links A, B, C of one job type whose B detail page fails: the inner loop appends the
      records of A and C in that order, and an empty store ends up holding exactly A and C. */
  lemma OneFailingLinkScenario(env: Env, a: string, b: string, c: string)
    requires env.detailFetch(a).Some? && env.detailFetch(b).None? && env.detailFetch(c).Some?
    requires forall rec :: env.persists(rec)
    ensures var run := VisitAll(env, Run([], map[]), [JobLink(a, "1"), JobLink(b, "1"), JobLink(c, "1")], "1");
            && |run.output| == 2
            && run.output[0].link == a && run.output[0].jobType == "1"
            && run.output[1].link == c && run.output[1].jobType == "1"
            && run.table.Keys == {a, c}
  {
    var ra := CrawlDetail(env.detailFetch, env.extract, a, "1").value;
    var rc := CrawlDetail(env.detailFetch, env.extract, c, "1").value;
    MiddleFailureRun(env, JobLink(a, "1"), JobLink(b, "1"), JobLink(c, "1"), "1");
    UpsertAllShort(map[], ra, rc);
  }

  /** The inner loop over three links whose middle detail page fails, with a store that
      accepts everything: the first and third records are returned and upserted. */
  lemma MiddleFailureRun(env: Env, la: JobLink, lb: JobLink, lc: JobLink, jobType: string)
    requires env.detailFetch(la.link).Some? && env.detailFetch(lb.link).None? && env.detailFetch(lc.link).Some?
    requires forall rec :: env.persists(rec)
    ensures var recs := [CrawlDetail(env.detailFetch, env.extract, la.link, jobType).value,
                         CrawlDetail(env.detailFetch, env.extract, lc.link, jobType).value];
            var run := VisitAll(env, Run([], map[]), [la, lb, lc], jobType);
            run.output == recs && run.table == UpsertAll(map[], recs)
  {
    var recs := [CrawlDetail(env.detailFetch, env.extract, la.link, jobType).value,
                 CrawlDetail(env.detailFetch, env.extract, lc.link, jobType).value];
    ThreeLinksMiddleFails(env, la, lb, lc, jobType);
    VisitAllOutput(env, Run([], map[]), [la, lb, lc], jobType);
    VisitAllTable(env, Run([], map[]), [la, lb, lc], jobType);
    PersistedAll(env, recs);
  }

  /** A run over one job type is the inner loop over that type's discovered links. */
  lemma CrawlOneType(env: Env, jobType: string, table: Table)
    ensures CrawlAll(env, [jobType], table)
            == VisitAll(env, Run([], table), Discover(env.listFetch, jobType).links, jobType)
  {
    var step := VisitAll(env, Run([], table), Discover(env.listFetch, jobType).links, jobType);
    assert [jobType][1..] == [];
    assert CrawlTypes(env, step, []) == step;
  }
}
