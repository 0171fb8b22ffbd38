/** Queries after whole runs: what holds in every clean state holds after every run from an empty database. */
module QueryRuns {
  import opened Wrappers
  import opened Bytes
  import opened Keys
  import opened FilterSyntax
  import opened Store
  import opened StoreInvariants
  import opened StoreRuns
  import opened Scan
  import opened Planner
  import opened Sorter
  import opened Streaming

  /** What a query plan needs of the collection and the filter: typed paths, in whatever order the indexes come. */
  ghost predicate TypedQuery(nz: Normalizer, s: State, name: Name, order: seq<IndexRef>, f: Filter<Term>) {
    && NormalizesTyped(nz) && name in s.cat.collections
    && RuntimeOf(s.cat.collections[name], order) && TypedFilter(order, f)
    && forall id | id in Live(s, name) :: TypedPaths(order, Live(s, name)[id])
  }

  /**
   After every run of writes, transactions, collection and index changes, a query for whose filter an index
   is chosen returns the same set of documents as the same query with noidx.
   */
  lemma EveryRunAnswersAlike(env: Env, nz: Normalizer, run: seq<Command>, name: Name, order: seq<IndexRef>,
                             f: Filter<Term>, plan: Plan)
    requires Tame(IndexerOf(nz), INITIAL, run) && 1 + TotalCost(run) <= MAX_I64
    requires TypedQuery(nz, Run(IndexerOf(nz), INITIAL, run), name, order, f)
    requires Candidate(env, nz, Run(IndexerOf(nz), INITIAL, run).cat.collections[name].rnum, order, f) == Some(plan)
    ensures var s := Run(IndexerOf(nz), INITIAL, run);
            Answer(env, Live(s, name), ScanSet(nz, s.engine, plan.idx, plan.op), f)
            == Answer(env, Live(s, name), Live(s, name).Keys, f)
  {
    hide Run, Tame, Clean, Candidate, TypedFilter, TypedPaths, NormalizesTyped, Answer, ScanSet, Live;
    EveryRunIsClean(IndexerOf(nz), run);
    IndexedAnswerIsComplete(env, nz, Run(IndexerOf(nz), INITIAL, run), name, order, f);
  }

  /**
   After every run, a query that walks an index for its order only answers like the same query with noidx if and
   only if every matching document has a value in the index.
   */
  lemma EveryRunOrdersAlike(env: Env, nz: Normalizer, run: seq<Command>, name: Name, idx: IndexRef, f: Filter<Term>)
    requires Tame(IndexerOf(nz), INITIAL, run) && 1 + TotalCost(run) <= MAX_I64
    requires var s := Run(IndexerOf(nz), INITIAL, run);
             name in s.cat.collections && RuntimeOf(s.cat.collections[name], [idx])
    ensures var s := Run(IndexerOf(nz), INITIAL, run);
            Answer(env, Live(s, name), ScanSet(nz, s.engine, idx, Whole), f)
            == Answer(env, Live(s, name), Live(s, name).Keys, f)
            <==> forall id | id in Live(s, name) && Matches(env, Live(s, name)[id], id, f) ::
                   Values(nz, Live(s, name)[id], idx.def) != []
  {
    hide Run, Tame, Matches, Answer, ScanSet, IndexAgrees, LogOk, CountersOk, CatalogOk, NoOrphans, StoredDocs, Values;
    EveryRunIsClean(IndexerOf(nz), run);
    var s := Run(IndexerOf(nz), INITIAL, run);
    assert [idx][0] == idx;
    OrderPlanAnswersExactly(env, IndexerOf(nz), nz, s.engine, idx, Live(s, name), f);
  }

  /** After every run, the window streamed off an int64 index is the window of the sorted matches. */
  lemma EveryRunStreamsSorted(env: Env, nz: Normalizer, run: seq<Command>, name: Name, order: seq<IndexRef>,
                              f: Filter<Term>, plan: Plan, desc: bool, ks: seq<Key>, rows: seq<Row>, sorted: seq<Row>,
                              skip: nat, limit: int)
    requires Tame(IndexerOf(nz), INITIAL, run) && 1 + TotalCost(run) <= MAX_I64
    requires TypedQuery(nz, Run(IndexerOf(nz), INITIAL, run), name, order, f)
    requires var s := Run(IndexerOf(nz), INITIAL, run);
             && Chosen(env, nz, s.cat.collections[name].rnum, order, f, plan) && Ordered(plan.op)
             && plan.idx.def.kind.Int64Index? && ValueDesc(plan.op, desc) == desc
             && (forall id | id in Live(s, name) :: HasInt(plan.idx.def.path, Live(s, name)[id]))
             && Iterates(s.engine, k => Visits(nz, plan.idx, plan.op, k), ks)
             && RowsOf(env, Live(s, name), f, plan.idx.def.path, rows) && Arranged(env.lib, [desc], rows, sorted)
    ensures var s := Run(IndexerOf(nz), INITIAL, run);
            Slice(Stream(env, s, name, f, plan, desc, ks), skip, limit) == RowIds(Slice(sorted, skip, limit))
  {
    hide Run, Tame, Clean, Chosen, TypedFilter, TypedPaths, NormalizesTyped, Stream, Slice, Live, RowsOf, Arranged, Visits,
         Iterates, HasInt;
    EveryRunIsClean(IndexerOf(nz), run);
    StreamingEqualsSorting(env, nz, Run(IndexerOf(nz), INITIAL, run), name, order, f, plan, desc, ks, rows, sorted,
                           skip, limit);
  }
}
