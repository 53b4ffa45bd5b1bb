/** The persisted job table as a map from `link` to the stored record, and the upsert the
    crawl issues for each extracted record (create when absent, overwrite wholesale otherwise). */
module Store {
  import opened Wrappers
  import opened Records

  type Table = map<string, JobRecord>

  /** The store's invariant: `link` is the unique key, so every entry sits under its own link. */
  predicate Keyed(table: Table) {
    forall k :: k in table ==> table[k].link == k
  }

  /** `upsert({ where: { link }, update: record, create: record })`: afterwards the key maps to
      the new record, replacing whatever was there, and every other key is untouched. */
  function Upsert(table: Table, rec: JobRecord): (r: Table)
    ensures r.Keys == table.Keys + {rec.link}
    ensures r[rec.link] == rec
    ensures forall k :: k in table && k != rec.link ==> r[k] == table[k]
  {
    table[rec.link := rec]
  }

  /** Upserting the same record twice is upserting it once. */
  lemma UpsertIdempotent(table: Table, rec: JobRecord)
    ensures Upsert(Upsert(table, rec), rec) == Upsert(table, rec)
  {
  }

  /** Two upserts for one link leave exactly one entity, holding the second record's fields. */
  lemma UpsertLastWins(table: Table, a: JobRecord, b: JobRecord)
    requires a.link == b.link
    ensures Upsert(Upsert(table, a), b) == Upsert(table, b)
    ensures |Upsert(Upsert(table, a), b)| == |table| + (if a.link in table then 0 else 1)
  {
  }

  /** The position of the last record in `recs` whose link is `k`. */
  function LastIndex(recs: seq<JobRecord>, k: string): (r: Option<nat>)
    ensures r.Some? ==> r.value < |recs| && recs[r.value].link == k
                        && forall j :: r.value < j < |recs| ==> recs[j].link != k
    ensures r.None? ==> forall i :: 0 <= i < |recs| ==> recs[i].link != k
  {
    if recs == [] then None
    else if recs[|recs| - 1].link == k then Some(|recs| - 1)
    else LastIndex(recs[..|recs| - 1], k)
  }

  /** The last record in `recs` whose link is `k`. */
  function LastFor(recs: seq<JobRecord>, k: string): (r: Option<JobRecord>)
    ensures r.Some? ==> r.value in recs && r.value.link == k
    ensures r.Some? ==> exists i :: 0 <= i < |recs| && recs[i] == r.value
                                    && forall j :: i < j < |recs| ==> recs[j].link != k
    ensures r.None? ==> forall i :: 0 <= i < |recs| ==> recs[i].link != k
  {
    match LastIndex(recs, k)
    case None => None
    case Some(i) => Some(recs[i])
  }

  /** The upserts of `recs` issued one after another, in order. */
  function UpsertFold(table: Table, recs: seq<JobRecord>): Table {
    if recs == [] then table
    else Upsert(UpsertFold(table, recs[..|recs| - 1]), recs[|recs| - 1])
  }

  /** Upserting `recs` in order: each key of the result holds the last record upserted for it,
      and keys no record touched keep their old entry. */
  function UpsertAll(table: Table, recs: seq<JobRecord>): (r: Table)
    ensures forall k :: LastFor(recs, k).Some? ==> k in r && r[k] == LastFor(recs, k).value
    ensures forall k :: LastFor(recs, k).None? ==> (k in r <==> k in table)
    ensures forall k :: LastFor(recs, k).None? && k in table ==> r[k] == table[k]
  {
    UpsertFoldLastWins(table, recs);
    UpsertFold(table, recs)
  }

  lemma {:induction false} UpsertFoldLastWins(table: Table, recs: seq<JobRecord>)
    ensures var r := UpsertFold(table, recs);
            && (forall k :: LastFor(recs, k).Some? ==> k in r && r[k] == LastFor(recs, k).value)
            && (forall k :: LastFor(recs, k).None? ==> (k in r <==> k in table))
            && (forall k :: LastFor(recs, k).None? && k in table ==> r[k] == table[k])
    decreases |recs|
  {
    if recs != [] {
      UpsertFoldLastWins(table, recs[..|recs| - 1]);
      forall k {
        LastForPeel(recs, k);
      }
    }
  }

  /** `LastFor` one step from the end: the final record if its link is `k`, else the answer
      for the records before it. */
  function LastForStep(recs: seq<JobRecord>, k: string): Option<JobRecord>
    requires recs != []
  {
    if recs[|recs| - 1].link == k then Some(recs[|recs| - 1]) else LastFor(recs[..|recs| - 1], k)
  }

  lemma LastForPeel(recs: seq<JobRecord>, k: string)
    requires recs != []
    ensures LastFor(recs, k) == LastForStep(recs, k)
  {
    assert LastIndex(recs, k) == if recs[|recs| - 1].link == k then Some(|recs| - 1)
                                 else LastIndex(recs[..|recs| - 1], k);
  }

  /** Upserting one record and two records, spelled out. */
  lemma UpsertAllShort(table: Table, x: JobRecord, y: JobRecord)
    ensures UpsertAll(table, [x]) == Upsert(table, x)
    ensures UpsertAll(table, [x, y]) == Upsert(Upsert(table, x), y)
  {
    UpsertFoldShort(table, x, y);
  }

  lemma UpsertFoldShort(table: Table, x: JobRecord, y: JobRecord)
    ensures UpsertFold(table, [x]) == Upsert(table, x)
    ensures UpsertFold(table, [x, y]) == Upsert(Upsert(table, x), y)
  {
    assert [x][..0] == [] && [x, y][..1] == [x];
  }

  /** Upserts keep the store keyed by link. */
  lemma UpsertAllKeepsKeyed(table: Table, recs: seq<JobRecord>)
    ensures Keyed(table) ==> Keyed(UpsertAll(table, recs))
  {
    var r := UpsertAll(table, recs);
    forall k | k in r && Keyed(table)
      ensures r[k].link == k
    {
      if LastFor(recs, k).None? {
        assert k in table;
      }
    }
  }

  /** Upserting `a` and then `b` is upserting `a + b`. */
  lemma UpsertAllAppend(table: Table, a: seq<JobRecord>, b: seq<JobRecord>)
    ensures UpsertAll(UpsertAll(table, a), b) == UpsertAll(table, a + b)
  {
    UpsertFoldAppend(table, a, b);
  }

  lemma {:induction false} UpsertFoldAppend(table: Table, a: seq<JobRecord>, b: seq<JobRecord>)
    ensures UpsertFold(UpsertFold(table, a), b) == UpsertFold(table, a + b)
    decreases |b|
  {
    if b == [] {
      assert a + b == a;
    } else {
      UpsertFoldAppend(table, a, b[..|b| - 1]);
      assert (a + b)[..|a + b| - 1] == a + b[..|b| - 1];
    }
  }

  /** The keys after upserting `recs`: the old keys plus the links of `recs`. */
  lemma UpsertAllKeys(table: Table, recs: seq<JobRecord>)
    ensures UpsertAll(table, recs).Keys == table.Keys + set rec | rec in recs :: rec.link
  {
    var r := UpsertAll(table, recs);
    forall k
      ensures k in r <==> k in table || k in set rec | rec in recs :: rec.link
    {
      if LastFor(recs, k).Some? {
        assert LastFor(recs, k).value in recs;
      } else {
        assert k !in set rec | rec in recs :: rec.link;
      }
    }
  }
}
