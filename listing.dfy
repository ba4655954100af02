/**
 * The list branch of the `get_results` HTTP function: turn every stored
 * entity into a summary row, sort the rows by `analyzedAt` with the newest
 * first, keep the first `limit` of them and report how many were kept.  The
 * entities are an input: querying Table Storage is not modelled.
 */
module Listing {
  import opened Common
  import opened Strings
  import StableSort

  /** A stored entity, with the columns the listing reads; `summary` is the stored JSON text. */
  datatype Entity = Entity(rowKey: string, fileName: string, analyzedAt: string, summary: string)

  /** One element of `results`. */
  datatype Row = Row(id: string, fileName: string, analyzedAt: string, summary: string)

  /** The response body `{"count": ..., "results": ...}`. */
  datatype Listing = Listing(count: nat, results: seq<Row>)

  /** `int(req.params.get("limit", "10"))` when the parameter is absent. */
  const DefaultLimit := 10

  function RowOf(e: Entity): Row {
    Row(e.rowKey, e.fileName, e.analyzedAt, e.summary)
  }

  function RowsOf(entities: seq<Entity>): (rows: seq<Row>)
    ensures |rows| == |entities|
  {
    seq(|entities|, i requires 0 <= i < |entities| => RowOf(entities[i]))
  }

  /** The sort key `lambda x: x["analyzedAt"]`, compared as Python compares strings. */
  predicate AnalyzedAtLeq(a: Row, b: Row) {
    StrLeq(a.analyzedAt, b.analyzedAt)
  }

  lemma AnalyzedAtLeqTotalPreorder()
    ensures StableSort.TotalPreorder(AnalyzedAtLeq)
  {
    forall a: Row, b: Row ensures AnalyzedAtLeq(a, b) || AnalyzedAtLeq(b, a) {
      StrLeqTotal(a.analyzedAt, b.analyzedAt);
    }
    forall a: Row, b: Row, c: Row | AnalyzedAtLeq(a, b) && AnalyzedAtLeq(b, c) ensures AnalyzedAtLeq(a, c) {
      StrLeqTransitive(a.analyzedAt, b.analyzedAt, c.analyzedAt);
    }
  }

  /** The rows sorted newest first, then `results[:limit]`. */
  function ListingOf(entities: seq<Entity>, limit: int): Listing {
    var results := StableSort.SlicePrefix(StableSort.SortDesc(RowsOf(entities), AnalyzedAtLeq), limit);
    Listing(|results|, results)
  }

  /**
   * The list branch, with `limit` the parsed query parameter (None when the
   * request has none).
   */
  method ListResults(entities: seq<Entity>, limitParam: Option<int>) returns (r: Listing)
    ensures r == ListingOf(entities, limitParam.GetOr(DefaultLimit))
    ensures r.count == |r.results|
  {
    var limit := limitParam.GetOr(DefaultLimit);
    var results: seq<Row> := [];
    for i := 0 to |entities|
      invariant results == RowsOf(entities[..i])
    {
      results := results + [RowOf(entities[i])];
    }
    assert entities[..|entities|] == entities;
    results := StableSort.SortDesc(results, AnalyzedAtLeq);
    results := StableSort.SlicePrefix(results, limit);
    r := Listing(|results|, results);
  }

  /**
   * For a non-negative limit the listing holds min(limit, number of entities)
   * rows, newest first, drawn without repetition from the rows of the stored
   * entities, and no entity left out is newer than one listed; `count` is the
   * number of rows.
   */
  lemma ListingNewestFirst(entities: seq<Entity>, limit: int)
    requires limit >= 0
    ensures var r := ListingOf(entities, limit);
      && r.count == |r.results| == Min(limit, |entities|)
      && (forall i, j :: 0 <= i < j < |r.results| ==> StrLeq(r.results[j].analyzedAt, r.results[i].analyzedAt))
      && (forall x :: x in r.results ==> x in RowsOf(entities))
      && multiset(r.results) <= multiset(RowsOf(entities))
      && (forall e, x :: e in entities && RowOf(e) !in r.results && x in r.results ==>
            StrLeq(e.analyzedAt, x.analyzedAt))
  {
    var rows := RowsOf(entities);
    var r := ListingOf(entities, limit);
    assert && StableSort.Descending(r.results, AnalyzedAtLeq)
           && (forall x :: x in r.results ==> x in rows)
           && multiset(r.results) <= multiset(rows)
           && (forall e, x :: e in rows && e !in r.results && x in r.results ==> AnalyzedAtLeq(e, x)) by {
      AnalyzedAtLeqTotalPreorder();
      StableSort.TopSelection(rows, limit, AnalyzedAtLeq);
    }
    forall i, j | 0 <= i < j < |r.results| ensures StrLeq(r.results[j].analyzedAt, r.results[i].analyzedAt) {
      assert AnalyzedAtLeq(r.results[j], r.results[i]);
    }
    forall e, x | e in entities && RowOf(e) !in r.results && x in r.results
      ensures StrLeq(e.analyzedAt, x.analyzedAt)
    {
      var k :| 0 <= k < |entities| && entities[k] == e;
      assert rows[k] == RowOf(e);
      assert AnalyzedAtLeq(RowOf(e), x);
    }
  }

  /** Rows with the same timestamp keep the order in which the query returned their entities. */
  lemma ListingStable(entities: seq<Entity>, k: Row)
    ensures StableSort.Ties(StableSort.SortDesc(RowsOf(entities), AnalyzedAtLeq), k, AnalyzedAtLeq)
         == StableSort.Ties(RowsOf(entities), k, AnalyzedAtLeq)
  {
    AnalyzedAtLeqTotalPreorder();
    StableSort.SortStable(RowsOf(entities), k, AnalyzedAtLeq);
  }

  /** A negative limit drops that many rows from the end, as Python's slice does. */
  lemma NegativeLimit(entities: seq<Entity>, limit: int)
    requires limit < 0
    ensures |ListingOf(entities, limit).results| == if |entities| + limit > 0 then |entities| + limit else 0
  {
  }
}
