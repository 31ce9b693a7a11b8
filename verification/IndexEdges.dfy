/**
  The import graph under incremental indexing: where its edges come from, what a diff
  leaves alone, and when it is the graph of a full rebuild.
 */
module IndexEdges {
  import opened Common
  import opened Walker
  import opened Index
  import opened Imports
  import opened IndexHistory

  // ------------------------------------------------------------------
  // Provenance
  // ------------------------------------------------------------------

  /** The worlds edges were built in are worlds some call saw. */
  lemma {:induction false} BuiltIsVisited(cfg: Config, commits: map<string, Tree>, visits: seq<Visit>, p: Path)
    requires GoodHistory(cfg, commits, visits)
    requires RunHistory(cfg, visits).Some? && p in RunHistory(cfg, visits).value.built
    ensures exists k :: 0 <= k < |visits| && visits[k].world == RunHistory(cfg, visits).value.built[p]
  {
    hide IndexRepository;
    var front, last := visits[..|visits| - 1], visits[|visits| - 1];
    var acc := RunHistory(cfg, front).value;
    if RunHistory(cfg, visits).value.built[p] != last.world {
      assert p in acc.built && RunHistory(cfg, visits).value.built[p] == acc.built[p];
      if |visits| > 1 {
        GoodFront(cfg, commits, visits);
      }
      BuiltIsVisited(cfg, commits, front, p);
      var k :| 0 <= k < |front| && front[k].world == acc.built[p];
      assert visits[k].world == acc.built[p];
    }
  }

  /**
    After any history every edge starts at an indexed file, and a resolved edge ends at a
    repository file that existed in the run that built the edge.
   */
  lemma EveryEdgeIsGrounded(cfg: Config, commits: map<string, Tree>, visits: seq<Visit>, e: Edge)
    requires |visits| > 0 && GoodHistory(cfg, commits, visits)
    requires RunHistory(cfg, visits).Some? && e in RunHistory(cfg, visits).value.tables.edges
    ensures e.src in RunHistory(cfg, visits).value.tables.rows && e.src in RunHistory(cfg, visits).value.built
    ensures exists k :: 0 <= k < |visits|
              && visits[k].world == RunHistory(cfg, visits).value.built[e.src]
              && (e.dst.Some? ==> e.dst.value in visits[k].world.tree)
  {
    EveryHistory(cfg, commits, visits);
    var acc := RunHistory(cfg, visits).value;
    assert multiset(acc.tables.edges)[e] > 0;
    CountAsBuilt(cfg, acc.tables, acc.built, e);
    var w := acc.built[e.src];
    OutEdgesFrom(cfg, w, Roots(cfg, w), Coded(e.src, acc.tables.rows[e.src]), e);
    BuiltIsVisited(cfg, commits, visits, e.src);
  }

  /** An incremental run leaves the outgoing edges of every file the diff does not mention. */
  lemma UntouchedEdgesStay(cfg: Config, tables: Tables, w: World, cs: seq<Change>, head: Option<string>, e: Edge)
    requires CanDiscover(cfg, w) && ReadOnce(cs) && !Touches(cs, e.src)
    requires IncrementalIndex(cfg, tables, w, cs, head).Success?
    ensures multiset(IncrementalIndex(cfg, tables, w, cs, head).value.edges)[e] == multiset(tables.edges)[e]
    ensures e.src in IncrementalIndex(cfg, tables, w, cs, head).value.rows <==> e.src in tables.rows
  {
    hide OutEdges, BuildEdges, Indexable;
    var coded := Reread(cfg, w, cs, |cs|, head);
    AfterDeletesFacts(cfg, tables.rows, tables.edges, cs, |cs|, e);
    RereadFacts(cfg, w, cs, |cs|, head);
    AddRowsFacts(map[], coded);
    AddRowsFacts(AfterDeletes(cfg, tables.rows, tables.edges, cs, |cs|).0, coded);
    IncrementalEdgeCount(cfg, tables.rows, tables.edges, w, cs, head, Roots(cfg, w), e);
    ReadPathsAre(cs, e.src);
    assert !Reads(cs, |cs|, e.src) && e.src !in DeletedPaths(cfg, cs, |cs|);
  }

  // ------------------------------------------------------------------
  // Agreement with a full rebuild
  // ------------------------------------------------------------------

  ghost predicate Agrees(cfg: Config, tables: Tables, w: World)
    requires CanDiscover(cfg, w)
  {
    && Forget(tables.rows) == Forget(FullIndex(cfg, w, None).rows)
    && multiset(tables.edges) == multiset(FullIndex(cfg, w, None).edges)
  }

  /** The edges of a row do not depend on the commit it was read at. */
  lemma {:induction false} ShaIsNoMatter(cfg: Config, w: World, roots: seq<Path>, c: Coded, sha: Option<string>, n: nat)
    requires n <= |c.row.structure.imports|
    ensures RowEdges(cfg, w, roots, c, n) == RowEdges(cfg, w, roots, Coded(c.path, c.row.(sha := sha)), n)
  {
    hide Resolve;
    if n > 0 {
      ShaIsNoMatter(cfg, w, roots, c, sha, n - 1);
    }
  }

  lemma SameButSha(cfg: Config, w: World, roots: seq<Path>, p: Path, a: Row, b: Row)
    requires a.(sha := None) == b.(sha := None)
    ensures OutEdges(cfg, w, roots, Coded(p, a)) == OutEdges(cfg, w, roots, Coded(p, b))
  {
    ShaIsNoMatter(cfg, w, roots, Coded(p, a), None, |a.structure.imports|);
    ShaIsNoMatter(cfg, w, roots, Coded(p, b), None, |b.structure.imports|);
  }

  lemma SameButShaOutgoing(cfg: Config, w: World, roots: seq<Path>, rows: map<Path, Row>, rows': map<Path, Row>,
                           e: Edge)
    requires Forget(rows) == Forget(rows')
    ensures Outgoing(cfg, w, roots, rows, e) == Outgoing(cfg, w, roots, rows', e)
  {
    hide OutEdges;
    assert e.src in rows <==> e.src in Forget(rows);
    assert e.src in rows' <==> e.src in Forget(rows');
    if e.src in rows {
      assert Forget(rows)[e.src] == Forget(rows')[e.src];
      SameButSha(cfg, w, roots, e.src, rows[e.src], rows'[e.src]);
    }
  }

  /** The row's imports resolve alike in the world its edges were built in and in w. */
  ghost predicate ResolvesAlike(cfg: Config, built: World, w: World, p: Path, row: Row)
    requires CanDiscover(cfg, built) && CanDiscover(cfg, w)
  {
    multiset(OutEdges(cfg, built, Roots(cfg, built), Coded(p, row)))
      == multiset(OutEdges(cfg, w, Roots(cfg, w), Coded(p, row)))
  }

  lemma EdgeCountsDecide(cfg: Config, tables: Tables, built: map<Path, World>, w: World, full: Tables)
    requires EdgesAsBuilt(cfg, tables, built) && CanDiscover(cfg, w)
    requires forall p :: p in built ==> CanDiscover(cfg, built[p])
    requires forall e: Edge :: multiset(full.edges)[e] == Outgoing(cfg, w, Roots(cfg, w), tables.rows, e)
    ensures multiset(tables.edges) == multiset(full.edges)
       <==> forall p :: p in tables.rows ==> ResolvesAlike(cfg, built[p], w, p, tables.rows[p])
  {
    hide OutEdges, Roots, WellFormedWorld;
    if multiset(tables.edges) == multiset(full.edges) {
      forall p | p in tables.rows ensures ResolvesAlike(cfg, built[p], w, p, tables.rows[p]) {
        var mine := multiset(OutEdges(cfg, built[p], Roots(cfg, built[p]), Coded(p, tables.rows[p])));
        var theirs := multiset(OutEdges(cfg, w, Roots(cfg, w), Coded(p, tables.rows[p])));
        forall e: Edge ensures mine[e] == theirs[e] {
          OutEdgesFrom(cfg, built[p], Roots(cfg, built[p]), Coded(p, tables.rows[p]), e);
          OutEdgesFrom(cfg, w, Roots(cfg, w), Coded(p, tables.rows[p]), e);
          assert multiset(tables.edges)[e] == EdgesWanted(cfg, built, tables.rows, e);
        }
      }
    }
    if forall p :: p in tables.rows ==> ResolvesAlike(cfg, built[p], w, p, tables.rows[p]) {
      forall e: Edge ensures multiset(tables.edges)[e] == multiset(full.edges)[e] {
        assert multiset(tables.edges)[e] == EdgesWanted(cfg, built, tables.rows, e);
        if e.src in tables.rows {
          assert ResolvesAlike(cfg, built[e.src], w, e.src, tables.rows[e.src]);
        }
      }
    }
  }

  lemma FullEdgeCounts(cfg: Config, w: World, head: Option<string>, e: Edge)
    requires WellFormedWorld(cfg, w)
    ensures multiset(FullIndex(cfg, w, head).edges)[e]
         == Outgoing(cfg, w, Roots(cfg, w), FullIndex(cfg, w, head).rows, e)
  {
    hide Outgoing, Roots;
    WalkRowsFacts(cfg, w, |w.listing|, head);
    BuildEdgesCount(cfg, w, Roots(cfg, w), WalkRows(cfg, w, |w.listing|, head), e);
  }

  // ------------------------------------------------------------------
  // Rows that agree
  // ------------------------------------------------------------------

  lemma SmallReread(cfg: Config, cs: seq<Change>, tree: Tree)
    requires forall i :: 0 <= i < |cs| && cs[i].path in tree ==> tree[cs[i].path].size <= MAX_FILE_SIZE
    ensures forall p :: p in {} - TouchedPaths(cs) + ReadPaths(cs) && Readable(cfg, tree, p) ==>
              tree[p].size <= MAX_FILE_SIZE
  {}

  /** Rows that agree with a full rebuild are the rows of its tree. */
  lemma AgreeingRows(cfg: Config, rows: map<Path, Row>, full: map<Path, Row>, tree: Tree)
    requires Forget(rows) == Forget(full)
    requires forall p :: p in full <==> WalkTakes(cfg, tree, p)
    requires forall p :: p in full ==> IsRowOf(cfg, tree, p, full[p], None)
    ensures RowsOf(cfg, rows, tree, {})
  {
    hide Indexable;
    forall p ensures p in rows <==> p in full {
      assert p in Forget(rows) <==> p in Forget(full);
    }
    forall p | p in rows ensures IsRowOf(cfg, tree, p, rows[p], rows[p].sha) {
      assert Forget(rows)[p] == Forget(full)[p];
      RowKeepsSha(cfg, tree, p, full[p], None);
      SameRowButSha(rows[p], full[p]);
    }
  }

  lemma SameRowButSha(a: Row, b: Row)
    requires a.(sha := None) == b.(sha := None)
    ensures a == b.(sha := a.sha)
  {}

  lemma WellFormedDiscovers(cfg: Config, w: World)
    requires WellFormedWorld(cfg, w)
    ensures CanDiscover(cfg, w)
  {}
}
