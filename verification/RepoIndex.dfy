/**
  The ingest pipeline as it runs: an object that deletes and inserts table rows, tied
  method by method to the functions of Index.
 */
module RepoIndex {
  import opened Common
  import opened Walker
  import opened NameStatus
  import opened Index
  import Imports

  datatype IngestResult = IngestResult(
    filesIndexed: nat, edgesTotal: nat, edgesResolved: nat, mode: Mode, filesDeleted: nat, addedFiles: seq<Path>)

  /** The paths re-read because they were added, in the order of the changes. */
  function AddedFiles(cfg: Config, w: World, cs: seq<Change>, n: nat): seq<Path>
    requires n <= |cs|
  {
    if n == 0 then []
    else
      var rest, c := AddedFiles(cfg, w, cs, n - 1), cs[n - 1];
      if c.status == Added && Indexable(c.path, cfg.includeTests).Some? && c.path in w.tree && w.tree[c.path].text.Some?
      then rest + [c.path] else rest
  }

  function CountDeleted(cs: seq<Change>, n: nat): nat
    requires n <= |cs|
  {
    if n == 0 then 0 else CountDeleted(cs, n - 1) + (if cs[n - 1].status == Deleted then 1 else 0)
  }

  /** The walk meets no file twice. */
  lemma {:induction false} WalkRowsDistinct(cfg: Config, w: World, n: nat, sha: Option<string>)
    requires WellFormedWorld(cfg, w) && n <= |w.listing|
    ensures forall i :: 0 <= i < |WalkRows(cfg, w, n, sha)| ==> WalkRows(cfg, w, n, sha)[i].path in w.listing[..n]
    ensures Admits(map[], WalkRows(cfg, w, n, sha))
  {
    hide Indexable, ParseRow;
    if n > 0 {
      WalkRowsDistinct(cfg, w, n - 1, sha);
      assert w.listing[..n] == w.listing[..n - 1] + [w.listing[n - 1]];
      assert w.listing[n - 1] !in w.listing[..n - 1];
    }
  }

  lemma BuildNone(cfg: Config, w: World, roots: seq<Path>)
    ensures BuildEdges(cfg, w, roots, []) == [] && CountResolved([]) == 0
  {}

  lemma RowNone(cfg: Config, w: World, roots: seq<Path>, c: Coded)
    ensures RowEdges(cfg, w, roots, c, 0) == []
  {}

  lemma RowStep(cfg: Config, w: World, roots: seq<Path>, c: Coded, n: nat)
    requires n < |c.row.structure.imports|
    ensures RowEdges(cfg, w, roots, c, n + 1) == RowEdges(cfg, w, roots, c, n)
              + (if c.row.structure.imports[n] == "" then []
                 else [EdgeFor(cfg, w, roots, c, c.row.structure.imports[n])])
  {
    hide EdgeFor;
  }

  lemma BuildStep(cfg: Config, w: World, roots: seq<Path>, coded: seq<Coded>, n: nat)
    requires n < |coded|
    ensures BuildEdges(cfg, w, roots, coded[..n + 1])
         == BuildEdges(cfg, w, roots, coded[..n]) + RowEdges(cfg, w, roots, coded[n], |coded[n].row.structure.imports|)
  {
    hide RowEdges;
    assert coded[..n + 1][..n] == coded[..n];
  }

  lemma CountStep(edges: seq<Edge>, e: Edge)
    ensures CountResolved(edges + [e]) == CountResolved(edges) + (if e.dst.Some? then 1 else 0)
  {
    assert (edges + [e])[..|edges|] == edges;
  }

  class Repository {
    const cfg: Config
    var head: Option<string>
    var rows: map<Path, Row>
    var edges: seq<Edge>

    constructor (cfg: Config)
      ensures this.cfg == cfg && State() == Tables(None, map[], [])
    {
      this.cfg := cfg;
      head, rows, edges := None, map[], [];
    }

    function State(): Tables
      reads this
    {
      Tables(head, rows, edges)
    }

    /** `_clear_repo_rows`. */
    method Clear()
      modifies this`rows, this`edges
      ensures rows == map[] && edges == []
    {
      rows, edges := map[], [];
    }

    /** DELETE the outgoing edges and the row of one file. */
    method DeleteFile(p: Path)
      modifies this`rows, this`edges
      ensures rows == old(rows) - {p} && edges == DropEdges(old(edges), p)
    {
      var kept: seq<Edge> := [];
      for i := 0 to |edges|
        invariant kept == DropEdges(edges[..i], p)
      {
        assert edges[..i + 1][..i] == edges[..i];
        if edges[i].src != p {
          kept := kept + [edges[i]];
        }
      }
      assert edges[..|edges|] == edges;
      edges := kept;
      rows := rows - {p};
    }

    /** `session.add_all(code_rows)` and flush: all rows, or the unique constraint's refusal. */
    method AddAll(coded: seq<Coded>) returns (ok: bool)
      modifies this`rows
      ensures ok == Admits(old(rows), coded)
      ensures rows == if ok then AddRows(old(rows), coded) else old(rows)
    {
      ghost var before := rows;
      ok := Admits(rows, coded);
      if ok {
        for i := 0 to |coded|
          invariant rows == AddRows(before, coded[..i])
        {
          assert coded[..i + 1][..i] == coded[..i];
          rows := rows[coded[i].path := coded[i].row];
        }
        assert coded[..|coded|] == coded;
      }
    }

    /** `_build_edges`, with its count of the edges that end inside the repository. */
    method LinkRows(w: World, roots: seq<Path>, coded: seq<Coded>) returns (built: seq<Edge>, resolved: nat)
      ensures built == BuildEdges(cfg, w, roots, coded)
      ensures resolved == CountResolved(built)
    {
      hide Imports.Resolve, CountResolved, BuildEdges, RowEdges;
      BuildNone(cfg, w, roots);
      built, resolved := [], 0;
      for i := 0 to |coded|
        invariant built == BuildEdges(cfg, w, roots, coded[..i])
        invariant resolved == CountResolved(built)
      {
        var c := coded[i];
        ghost var earlier := built;
        RowNone(cfg, w, roots, c);
        for j := 0 to |c.row.structure.imports|
          invariant built == earlier + RowEdges(cfg, w, roots, c, j)
          invariant resolved == CountResolved(built)
        {
          var raw := c.row.structure.imports[j];
          RowStep(cfg, w, roots, c, j);
          if raw == "" {
            continue;
          }
          var found := Imports.Resolve(w.fs, raw, cfg.root + c.path, cfg.root, c.row.language, roots);
          var dst: Option<Path> := None;
          if found.Some? {
            dst := Relative(cfg.root, found.value);
            if dst.Some? {
              resolved := resolved + 1;
            }
          }
          CountStep(built, Edge(c.path, dst, raw, c.row.language));
          built := built + [Edge(c.path, dst, raw, c.row.language)];
        }
        BuildStep(cfg, w, roots, coded, i);
      }
      assert coded[..|coded|] == coded;
    }

    /** `_full_index`. */
    method IndexFully(w: World, roots: seq<Path>, newHead: Option<string>) returns (result: IngestResult)
      requires WellFormedWorld(cfg, w) && roots == Roots(cfg, w)
      modifies this
      ensures State() == FullIndex(cfg, w, newHead)
      ensures result
           == IngestResult(|WalkRows(cfg, w, |w.listing|, newHead)|, |edges|, CountResolved(edges), FullMode, 0, [])
    {
      hide Indexable, ParseRow, Roots, BuildEdges, CountResolved;
      Clear();
      var coded := ReadWalk(w, newHead);
      WalkRowsDistinct(cfg, w, |w.listing|, newHead);
      var _ := AddAll(coded);
      var built, resolved := LinkRows(w, roots, coded);
      assert [] + built == built;
      edges := edges + built;
      head := newHead;
      result := IngestResult(|coded|, |built|, resolved, FullMode, 0, []);
    }

    /** The reading loop of `_full_index`. */
    method ReadWalk(w: World, newHead: Option<string>) returns (coded: seq<Coded>)
      requires WellFormedWorld(cfg, w)
      ensures coded == WalkRows(cfg, w, |w.listing|, newHead)
    {
      hide Indexable;
      coded := [];
      for n := 0 to |w.listing|
        invariant coded == WalkRows(cfg, w, n, newHead)
      {
        var p := w.listing[n];
        var language := Indexable(p, cfg.includeTests);
        if language.None? || p !in w.tree || w.tree[p].size > MAX_FILE_SIZE {
          continue;
        }
        var row := ParseRow(cfg, w.tree, p, language.value, newHead);
        if row.None? {
          continue;
        }
        coded := coded + [Coded(p, row.value)];
      }
    }

    /** `_incremental_index`; on a refused insert the caller's transaction is rolled back. */
    method IndexChanges(w: World, roots: seq<Path>, cs: seq<Change>, newHead: Option<string>)
      returns (result: Result<IngestResult, Conflict>)
      requires WellFormedWorld(cfg, w) && roots == Roots(cfg, w)
      modifies this
      ensures match IncrementalIndex(cfg, old(State()), w, cs, newHead)
              case Failure(e) => result == Failure(e) && State() == old(State())
              case Success(after) =>
                && State() == after && result.Success?
                && result.value.filesIndexed == |Reread(cfg, w, cs, |cs|, newHead)|
                && result.value.filesDeleted == CountDeleted(cs, |cs|)
                && result.value.addedFiles == AddedFiles(cfg, w, cs, |cs|)
                && result.value.mode == IncrementalMode
                && result.value.edgesResolved
                     == CountResolved(BuildEdges(cfg, w, roots, Reread(cfg, w, cs, |cs|, newHead)))
    {
      hide Indexable, Roots, BuildEdges, CountResolved, DropEdges;
      var savedRows, savedEdges := rows, edges;
      var coded: seq<Coded> := [];
      var deleted: nat := 0;
      var added: seq<Path> := [];
      for n := 0 to |cs|
        invariant (rows, edges) == AfterDeletes(cfg, savedRows, savedEdges, cs, n)
        invariant coded == Reread(cfg, w, cs, n, newHead)
        invariant deleted == CountDeleted(cs, n)
        invariant added == AddedFiles(cfg, w, cs, n)
        invariant head == old(head)
      {
        var c := cs[n];
        if c.status == Deleted {
          DeleteFile(c.path);
          deleted := deleted + 1;
          continue;
        }
        var language := Indexable(c.path, cfg.includeTests);
        if language.None? {
          continue;
        }
        if c.status == Modified {
          DeleteFile(c.path);
        }
        var row := ParseRow(cfg, w.tree, c.path, language.value, newHead);
        if row.None? {
          continue;
        }
        coded := coded + [Coded(c.path, row.value)];
        if c.status == Added {
          added := added + [c.path];
        }
      }
      var ok := AddAll(coded);
      if !ok {
        rows, edges := savedRows, savedEdges;
        return Failure(Conflict);
      }
      var built, resolved := LinkRows(w, roots, coded);
      edges := edges + built;
      head := newHead;
      return Success(IngestResult(|coded|, |built|, resolved, IncrementalMode, deleted, added));
    }

    /** `index_repository`: discover the package roots, choose the mode, update the tables. */
    method Run(v: Visit) returns (result: Result<IngestResult, Conflict>)
      requires WellFormedWorld(cfg, v.world)
      modifies this
      ensures match IndexRepository(cfg, old(State()), v)
              case Failure(e) => result == Failure(e) && State() == old(State())
              case Success(after) => State() == after && result.Success? && result.value.mode == ModeOf(old(State()), v)
    {
      var roots := Imports.DiscoverPackageRoots(v.world.fs, cfg.root, v.world.inits);
      var useFull := v.force || head.None?;
      if !useFull && v.head.Some? {
        if head == v.head {
          return Success(IngestResult(0, 0, 0, NoopMode, 0, []));
        }
        if v.diff.Some? {
          result := IndexChanges(v.world, roots, v.diff.value, v.head);
          return;
        }
      }
      var r := IndexFully(v.world, roots, v.head);
      return Success(r);
    }
  }
}
