/** The read view (`searchFilterPaginate`): a filter composed from optional keyword, location
    and job type, applied to the stored rows, followed by skip/take pagination and a result
    envelope carrying the unpaginated count and the number of pages. */
module Search {
  import opened Wrappers
  import opened Text
  import opened Records
  import opened Store

  const DefaultPage: int := 1
  const DefaultLimit: int := 10

  /** The filtering arguments of a search. */
  datatype Criteria = Criteria(keyword: Option<string>, location: Option<string>, jobType: Option<string>)

  /** The query arguments; an absent page or limit takes its default. */
  datatype SearchQuery = SearchQuery(page: Option<int>, limit: Option<int>, criteria: Criteria)

  /** The result envelope `{ total, page, limit, totalPages, data }`. */
  datatype SearchResult = SearchResult(total: nat, page: int, limit: int, totalPages: nat, data: seq<JobRecord>)

  /** A string argument constrains the search only when it is truthy: present and non-empty. */
  predicate Given(arg: Option<string>) {
    arg.Some? && arg.value != ""
  }

  /** The `where` clause: the keyword case-insensitively in the title or in the company name,
      the location case-insensitively in the location, the job type equal, each only when
      given, all conjoined. */
  predicate Matches(q: Criteria, rec: JobRecord) {
    && (Given(q.keyword) ==> ContainsIgnoringCase(rec.title, q.keyword.value)
                             || ContainsIgnoringCase(rec.company, q.keyword.value))
    && (Given(q.location) ==> ContainsIgnoringCase(rec.location, q.location.value))
    && (Given(q.jobType) ==> rec.jobType == q.jobType.value)
  }

  /** The `where` object as built: a key is present only when its argument is truthy.
      `keyword` stands for the `OR` of the title and company conditions. */
  datatype Where = Where(keyword: Option<string>, location: Option<string>, jobType: Option<string>)

  /** Building `where` from the arguments: each key is set exactly when its argument is
      truthy, and then holds that argument. */
  function BuildWhere(c: Criteria): (w: Where)
    ensures w.keyword.Some? <==> Given(c.keyword)
    ensures w.location.Some? <==> Given(c.location)
    ensures w.jobType.Some? <==> Given(c.jobType)
    ensures w.keyword.Some? ==> w.keyword == c.keyword
    ensures w.location.Some? ==> w.location == c.location
    ensures w.jobType.Some? ==> w.jobType == c.jobType
  {
    Where(if Given(c.keyword) then c.keyword else None,
          if Given(c.location) then c.location else None,
          if Given(c.jobType) then c.jobType else None)
  }

  /** How the store reads a `where` object: an absent key imposes nothing, `contains` with
      `mode: 'insensitive'` ignores case, `OR` needs one of its conditions, and the keys are
      conjoined. */
  predicate Satisfies(w: Where, rec: JobRecord) {
    && (w.keyword.Some? ==> ContainsIgnoringCase(rec.title, w.keyword.value)
                            || ContainsIgnoringCase(rec.company, w.keyword.value))
    && (w.location.Some? ==> ContainsIgnoringCase(rec.location, w.location.value))
    && (w.jobType.Some? ==> rec.jobType == w.jobType.value)
  }

  /** The built `where` object selects exactly the rows the filter's criteria describe. */
  lemma WhereMatches(c: Criteria, rec: JobRecord)
    ensures Satisfies(BuildWhere(c), rec) <==> Matches(c, rec)
  {
  }

  /** The matching rows, in the rows' own order. */
  function Filter(rows: seq<JobRecord>, q: Criteria): (r: seq<JobRecord>)
    ensures |r| <= |rows|
    ensures forall rec :: rec in r <==> rec in rows && Matches(q, rec)
    decreases |rows|
  {
    if rows == [] then []
    else
      var rest := Filter(rows[..|rows| - 1], q);
      var last := rows[|rows| - 1];
      assert rows == rows[..|rows| - 1] + [last];
      if Matches(q, last) then rest + [last] else rest
  }

  /** Filtering keeps the rows' order: it distributes over concatenation. */
  lemma {:induction false} FilterAppend(a: seq<JobRecord>, b: seq<JobRecord>, q: Criteria)
    ensures Filter(a + b, q) == Filter(a, q) + Filter(b, q)
    decreases |b|
  {
    if b == [] {
      assert a + b == a;
    } else {
      var b' := b[..|b| - 1];
      assert (a + b)[..|a + b| - 1] == a + b';
      assert (a + b)[|a + b| - 1] == b[|b| - 1];
      FilterAppend(a, b', q);
    }
  }

  /** With no truthy argument the filter imposes nothing and every row is returned. */
  lemma {:induction false} NoArgumentsMatchAll(rows: seq<JobRecord>, q: Criteria)
    requires !Given(q.keyword) && !Given(q.location) && !Given(q.jobType)
    ensures Filter(rows, q) == rows
    decreases |rows|
  {
    if rows != [] {
      NoArgumentsMatchAll(rows[..|rows| - 1], q);
      assert rows == rows[..|rows| - 1] + [rows[|rows| - 1]];
    }
  }

  /** `Math.ceil(n / d)` for a count `n` and a positive divisor: the least number of pages of
      `d` rows that holds `n` rows, so `0` for `n == 0`. */
  function CeilDiv(n: nat, d: int): (r: nat)
    requires d >= 1
    ensures (r - 1) * d < n <= r * d
  {
    var q := (n + d - 1) / d;
    var m := (n + d - 1) % d;
    assert n + d - 1 == q * d + m && 0 <= m < d;
    assert (q - 1) * d == q * d - d;
    q
  }

  /** No matches give no pages; 25 matches at 10 per page give 3 pages. */
  lemma CeilDivExamples(d: int)
    requires d >= 1
    ensures CeilDiv(0, d) == 0
    ensures CeilDiv(25, 10) == 3
  {
    var r := CeilDiv(0, d);
    assert r > 0 ==> r * d >= d;
    var s := CeilDiv(25, 10);
    assert (s - 1) * 10 < 25 <= s * 10;
  }

  function Min(a: int, b: int): int {
    if a <= b then a else b
  }

  /** Prisma's `skip`/`take` on an ordered result: drop `skip` rows, keep at most `take`. */
  function SkipTake(matched: seq<JobRecord>, skip: nat, take: nat): (r: seq<JobRecord>)
    ensures |r| == if skip >= |matched| then 0 else Min(take, |matched| - skip)
    ensures forall i :: 0 <= i < |r| ==> r[i] == matched[skip + i]
  {
    matched[Min(skip, |matched|)..Min(skip + take, |matched|)]
  }

  /** The rows skipped before a page: `(page - 1) * limit`. */
  function Offset(page: int, limit: int): nat
    requires page >= 1 && limit >= 1
  {
    (page - 1) * limit
  }

  /** `findMany({ where, skip: (page - 1) * limit, take: limit })` together with
      `count({ where })`. The page is the slice of the matching rows that starts after the
      skipped ones and holds at most `limit` of them; the total is the unpaginated count;
      the page count is the least number of pages of `limit` rows holding every match. */
  function Search(rows: seq<JobRecord>, q: SearchQuery): (r: SearchResult)
    requires q.page.GetOr(DefaultPage) >= 1 && q.limit.GetOr(DefaultLimit) >= 1
    ensures r.page == q.page.GetOr(DefaultPage) && r.limit == q.limit.GetOr(DefaultLimit)
    ensures r.total == |Filter(rows, q.criteria)|
    ensures (r.totalPages - 1) * r.limit < r.total <= r.totalPages * r.limit
    ensures |r.data| <= r.limit
    ensures |r.data| == if Offset(r.page, r.limit) >= r.total then 0
                        else Min(r.limit, r.total - Offset(r.page, r.limit))
    ensures forall i :: 0 <= i < |r.data| ==> r.data[i] == Filter(rows, q.criteria)[Offset(r.page, r.limit) + i]
  {
    var page := q.page.GetOr(DefaultPage);
    var limit := q.limit.GetOr(DefaultLimit);
    var matched := Filter(rows, q.criteria);
    SearchResult(|matched|, page, limit, CeilDiv(|matched|, limit), SkipTake(matched, Offset(page, limit), limit))
  }

  /** Every matching row is on exactly the page its position says: row `i` of the matches is
      item `i % limit` of page `i / limit + 1`. */
  lemma PagesCoverMatches(rows: seq<JobRecord>, c: Criteria, limit: int, i: nat)
    requires limit >= 1
    requires i < |Filter(rows, c)|
    ensures var r := Search(rows, SearchQuery(Some(i / limit + 1), Some(limit), c));
            i % limit < |r.data| && r.data[i % limit] == Filter(rows, c)[i]
  {
    PageOfIndex(i, limit);
  }

  /** Index `i` sits `i % limit` rows into page `i / limit + 1`. */
  lemma PageOfIndex(i: nat, limit: int)
    requires limit >= 1
    ensures Offset(i / limit + 1, limit) + i % limit == i
    ensures i % limit < limit
  {
    assert Offset(i / limit + 1, limit) == (i / limit) * limit;
  }

  /** A page past the last one is empty; the last page of a non-empty result is not. */
  lemma PageBounds(rows: seq<JobRecord>, q: SearchQuery)
    requires q.page.GetOr(DefaultPage) >= 1 && q.limit.GetOr(DefaultLimit) >= 1
    ensures var r := Search(rows, q);
            (r.page > r.totalPages ==> r.data == [])
            && (r.total > 0 && r.page == r.totalPages ==> |r.data| >= 1)
  {
    var r := Search(rows, q);
    var off := Offset(r.page, r.limit);
    OffsetPastPages(r.page, r.limit, r.totalPages);
  }

  /** The rows before page `page` are at least `pages * limit` once `page` is past `pages`,
      and exactly `(pages - 1) * limit` on page `pages` itself. */
  lemma OffsetPastPages(page: int, limit: int, pages: nat)
    requires page >= 1 && limit >= 1
    ensures page > pages ==> Offset(page, limit) >= pages * limit
    ensures page == pages ==> Offset(page, limit) == (pages - 1) * limit
  {
    if page > pages {
      var extra := page - 1 - pages;
      assert Offset(page, limit) == pages * limit + extra * limit;
    }
  }

  /** Twelve matches, five per page: the second page is full and there are three pages. */
  lemma SecondPageOfTwelve(rows: seq<JobRecord>, c: Criteria)
    requires |Filter(rows, c)| == 12
    ensures |Search(rows, SearchQuery(Some(2), Some(5), c)).data| == 5
    ensures Search(rows, SearchQuery(Some(2), Some(5), c)).totalPages == 3
  {
    var r := Search(rows, SearchQuery(Some(2), Some(5), c));
    assert (r.totalPages - 1) * 5 < 12 <= r.totalPages * 5;
  }

  /** The keyword finds a row by its title or by its company name, and misses a row whose
      title and company name both lack it regardless of case. */
  lemma KeywordMatchesTitleOrCompany(c: Criteria, rec: JobRecord)
    requires Given(c.keyword) && !Given(c.location) && !Given(c.jobType)
    ensures Contains(rec.title, c.keyword.value) ==> Matches(c, rec)
    ensures Contains(rec.company, c.keyword.value) ==> Matches(c, rec)
    ensures (!ContainsIgnoringCase(rec.title, c.keyword.value)
             && !ContainsIgnoringCase(rec.company, c.keyword.value)) ==> !Matches(c, rec)
  {
    if Contains(rec.title, c.keyword.value) {
      ExactImpliesIgnoringCase(rec.title, c.keyword.value);
    }
    if Contains(rec.company, c.keyword.value) {
      ExactImpliesIgnoringCase(rec.company, c.keyword.value);
    }
  }

  /** No two rows share a link. */
  predicate DistinctLinks(rows: seq<JobRecord>) {
    forall i, j :: 0 <= i < j < |rows| ==> rows[i].link != rows[j].link
  }

  /** The links of some rows. */
  function LinkSet(rows: seq<JobRecord>): set<string> {
    set rec | rec in rows :: rec.link
  }

  /** Rows with distinct links have as many links as rows. */
  lemma {:induction false} DistinctLinkCount(rows: seq<JobRecord>)
    requires DistinctLinks(rows)
    ensures |LinkSet(rows)| == |rows|
    decreases |rows|
  {
    if rows != [] {
      var p := rows[..|rows| - 1];
      var x := rows[|rows| - 1];
      assert rows == p + [x];
      assert DistinctLinks(p) by {
        assert forall i :: 0 <= i < |p| ==> p[i] == rows[i];
      }
      DistinctLinkCount(p);
      forall rec | rec in p
        ensures rec.link != x.link
      {
        var i :| 0 <= i < |p| && p[i] == rec;
        assert rows[i] == rec;
      }
      assert LinkSet(rows) == LinkSet(p) + {x.link};
    }
  }

  /** Filtering rows with distinct links leaves rows with distinct links. */
  lemma {:induction false} FilterDistinct(rows: seq<JobRecord>, c: Criteria)
    requires DistinctLinks(rows)
    ensures DistinctLinks(Filter(rows, c))
    decreases |rows|
  {
    if rows != [] {
      var p := rows[..|rows| - 1];
      var x := rows[|rows| - 1];
      assert rows == p + [x];
      assert DistinctLinks(p) by {
        assert forall i :: 0 <= i < |p| ==> p[i] == rows[i];
      }
      FilterDistinct(p, c);
      var rest := Filter(p, c);
      forall rec | rec in rest
        ensures rec.link != x.link
      {
        var i :| 0 <= i < |p| && p[i] == rec;
        assert rows[i] == rec;
      }
    }
  }

  /** `rows` is a listing of the stored table (`findMany` over the whole table): no two rows
      share a link, each row is the entry stored under its link, and every stored entry
      appears, under its own link. */
  predicate IsListing(rows: seq<JobRecord>, table: Table) {
    && DistinctLinks(rows)
    && (forall i :: 0 <= i < |rows| ==> rows[i].link in table && table[rows[i].link] == rows[i])
    && (forall k :: k in table ==> table[k].link == k && table[k] in rows)
  }

  /** Searching a listing of the store returns stored records that match the query, and the
      total is the number of stored records that match it. */
  lemma ResultsComeFromStore(rows: seq<JobRecord>, table: Table, q: SearchQuery)
    requires IsListing(rows, table)
    requires q.page.GetOr(DefaultPage) >= 1 && q.limit.GetOr(DefaultLimit) >= 1
    ensures forall rec :: rec in Search(rows, q).data
              ==> rec.link in table && table[rec.link] == rec && Matches(q.criteria, rec)
    ensures forall k :: k in table && Matches(q.criteria, table[k]) ==> table[k] in Filter(rows, q.criteria)
    ensures Search(rows, q).total == |set k | k in table && Matches(q.criteria, table[k])|
  {
    var r := Search(rows, q);
    var f := Filter(rows, q.criteria);
    forall rec | rec in r.data
      ensures rec.link in table && table[rec.link] == rec && Matches(q.criteria, rec)
    {
      var i :| 0 <= i < |r.data| && r.data[i] == rec;
      assert rec in f;
      var j :| 0 <= j < |rows| && rows[j] == rec;
    }
    var matching := set k | k in table && Matches(q.criteria, table[k]);
    assert LinkSet(f) == matching by {
      forall k | k in matching
        ensures k in LinkSet(f)
      {
        assert table[k] in f;
      }
      forall k | k in LinkSet(f)
        ensures k in matching
      {
        var rec :| rec in f && rec.link == k;
        var j :| 0 <= j < |rows| && rows[j] == rec;
      }
    }
    FilterDistinct(rows, q.criteria);
    DistinctLinkCount(f);
  }
}
