/**
  Incremental indexing against full rebuilds, over every history of `index_repository`
  calls: full, forced, incremental, no-op and fallback.
 */
module IndexHistory {
  import opened Common
  import opened Walker
  import opened NameStatus
  import opened Index
  import opened Imports

  // ------------------------------------------------------------------
  // What the loops leave in the tables
  // ------------------------------------------------------------------

  ghost predicate Holds(coded: seq<Coded>, p: Path) {
    exists i :: 0 <= i < |coded| && coded[i].path == p
  }

  lemma HoldsAppend(coded: seq<Coded>, c: Coded, p: Path)
    ensures Holds(coded + [c], p) <==> Holds(coded, p) || p == c.path
  {
    var all := coded + [c];
    assert all[|coded|] == c;
    if Holds(coded, p) {
      var i :| 0 <= i < |coded| && coded[i].path == p;
      assert all[i].path == p;
    }
  }

  /** The row is the current content of the file, read at that commit. */
  ghost predicate IsRowOf(cfg: Config, tree: Tree, p: Path, row: Row, sha: Option<string>) {
    && Readable(cfg, tree, p)
    && row == RowOf(cfg, tree[p].text.value, Indexable(p, cfg.includeTests).value, sha)
  }

  predicate Readable(cfg: Config, tree: Tree, p: Path) {
    p in tree && tree[p].text.Some? && Indexable(p, cfg.includeTests).Some?
  }

  ghost predicate AllRowsOf(cfg: Config, tree: Tree, coded: seq<Coded>, sha: Option<string>) {
    forall i :: 0 <= i < |coded| ==> IsRowOf(cfg, tree, coded[i].path, coded[i].row, sha)
  }

  lemma {:induction false} AddRowsFacts(rows: map<Path, Row>, coded: seq<Coded>)
    requires Admits(rows, coded)
    ensures forall p :: p in AddRows(rows, coded) <==> p in rows || Holds(coded, p)
    ensures forall p :: p in rows ==> AddRows(rows, coded)[p] == rows[p]
    ensures forall i :: 0 <= i < |coded| ==>
              Holds(coded, coded[i].path) && AddRows(rows, coded)[coded[i].path] == coded[i].row
  {
    if |coded| > 0 {
      var front, last := coded[..|coded| - 1], coded[|coded| - 1];
      assert coded == front + [last];
      AddRowsFacts(rows, front);
      forall p ensures Holds(coded, p) <==> Holds(front, p) || p == last.path {
        HoldsAppend(front, last, p);
      }
      forall i | 0 <= i < |coded|
        ensures Holds(coded, coded[i].path) && AddRows(rows, coded)[coded[i].path] == coded[i].row
      {
        if i < |front| { assert front[i] == coded[i]; }
      }
    }
  }

  /** Files read by the walk, one by one. */
  lemma {:induction false} WalkRowsFacts(cfg: Config, w: World, n: nat, sha: Option<string>)
    requires WellFormedWorld(cfg, w) && n <= |w.listing|
    ensures forall p :: Holds(WalkRows(cfg, w, n, sha), p) <==> p in w.listing[..n] && WalkTakes(cfg, w.tree, p)
    ensures AllRowsOf(cfg, w.tree, WalkRows(cfg, w, n, sha), sha)
    ensures Admits(map[], WalkRows(cfg, w, n, sha))
  {
    hide Indexable, RowOf;
    if n > 0 {
      WalkRowsFacts(cfg, w, n - 1, sha);
      var rest, q := WalkRows(cfg, w, n - 1, sha), w.listing[n - 1];
      assert w.listing[..n] == w.listing[..n - 1] + [q];
      assert q !in w.listing[..n - 1];
      if WalkTakes(cfg, w.tree, q) {
        var c := Coded(q, RowOf(cfg, w.tree[q].text.value, Indexable(q, cfg.includeTests).value, sha));
        assert WalkRows(cfg, w, n, sha) == rest + [c];
        RowsAppend(cfg, w.tree, rest, c, sha);
      }
    }
  }

  lemma RowsAppend(cfg: Config, tree: Tree, rest: seq<Coded>, c: Coded, sha: Option<string>)
    requires Admits(map[], rest) && AllRowsOf(cfg, tree, rest, sha)
    requires !Holds(rest, c.path) && IsRowOf(cfg, tree, c.path, c.row, sha)
    ensures Admits(map[], rest + [c]) && AllRowsOf(cfg, tree, rest + [c], sha)
    ensures forall p :: Holds(rest + [c], p) <==> Holds(rest, p) || p == c.path
  {
    hide IsRowOf;
    forall p ensures Holds(rest + [c], p) <==> Holds(rest, p) || p == c.path {
      HoldsAppend(rest, c, p);
    }
  }

  /** A full rebuild indexes exactly the files the walk takes. */
  lemma FullIndexRows(cfg: Config, w: World, head: Option<string>)
    requires WellFormedWorld(cfg, w)
    ensures var rows := FullIndex(cfg, w, head).rows;
            && (forall p :: p in rows <==> WalkTakes(cfg, w.tree, p))
            && (forall p :: p in rows ==> IsRowOf(cfg, w.tree, p, rows[p], head))
  {
    hide WalkTakes, IsRowOf, BuildEdges, Roots;
    var coded := WalkRows(cfg, w, |w.listing|, head);
    WalkRowsFacts(cfg, w, |w.listing|, head);
    AddRowsFacts(map[], coded);
    assert w.listing[..|w.listing|] == w.listing;
    assert forall p :: p in w.listing ==> p in w.tree;
    forall p ensures Holds(coded, p) <==> WalkTakes(cfg, w.tree, p) {
      TakenIsListed(cfg, w, p);
    }
    forall p | p in AddRows(map[], coded) ensures IsRowOf(cfg, w.tree, p, AddRows(map[], coded)[p], head) {
      var i :| 0 <= i < |coded| && coded[i].path == p;
    }
  }

  lemma TakenIsListed(cfg: Config, w: World, p: Path)
    requires WellFormedWorld(cfg, w)
    ensures WalkTakes(cfg, w.tree, p) ==> p in w.listing
  {}

  // ------------------------------------------------------------------
  // Edges as a multiset
  // ------------------------------------------------------------------

  lemma {:induction false} DropEdgesCount(edges: seq<Edge>, p: Path, e: Edge)
    ensures multiset(DropEdges(edges, p))[e] == if e.src == p then 0 else multiset(edges)[e]
  {
    if |edges| > 0 {
      DropEdgesCount(edges[..|edges| - 1], p, e);
      assert edges == edges[..|edges| - 1] + [edges[|edges| - 1]];
    }
  }

  lemma {:induction false} RowEdgesFrom(cfg: Config, w: World, roots: seq<Path>, c: Coded, n: nat, e: Edge)
    requires n <= |c.row.structure.imports|
    requires e in RowEdges(cfg, w, roots, c, n)
    ensures e.src == c.path && (e.dst.Some? ==> cfg.root + e.dst.value in w.fs)
  {
    hide Resolve;
    var raw, rest := c.row.structure.imports[n - 1], RowEdges(cfg, w, roots, c, n - 1);
    if e in rest {
      RowEdgesFrom(cfg, w, roots, c, n - 1, e);
    } else {
      assert e == EdgeFor(cfg, w, roots, c, raw);
      var found := Resolve(w.fs, raw, cfg.root + c.path, cfg.root, c.row.language, roots);
      if found.Some? && cfg.root <= found.value {
        assert cfg.root + found.value[|cfg.root|..] == found.value;
      }
    }
  }

  /** An edge leaves its row's file, and ends at a file that existed when it was built. */
  lemma OutEdgesFrom(cfg: Config, w: World, roots: seq<Path>, c: Coded, e: Edge)
    ensures e in multiset(OutEdges(cfg, w, roots, c)) ==> e.src == c.path
    ensures e in multiset(OutEdges(cfg, w, roots, c)) && e.dst.Some? ==> cfg.root + e.dst.value in w.fs
  {
    if e in multiset(OutEdges(cfg, w, roots, c)) {
      assert e in OutEdges(cfg, w, roots, c);
      RowEdgesFrom(cfg, w, roots, c, |c.row.structure.imports|, e);
    }
  }

  /** How often an edge occurs among the outgoing edges of the row its source has in `rows`. */
  ghost function Outgoing(cfg: Config, w: World, roots: seq<Path>, rows: map<Path, Row>, e: Edge): nat {
    if e.src in rows then multiset(OutEdges(cfg, w, roots, Coded(e.src, rows[e.src])))[e] else 0
  }

  lemma {:induction false} BuildEdgesCount(cfg: Config, w: World, roots: seq<Path>, coded: seq<Coded>, e: Edge)
    requires Admits(map[], coded)
    ensures multiset(BuildEdges(cfg, w, roots, coded))[e] == Outgoing(cfg, w, roots, AddRows(map[], coded), e)
  {
    hide OutEdges;
    if |coded| > 0 {
      var front, last := coded[..|coded| - 1], coded[|coded| - 1];
      BuildEdgesCount(cfg, w, roots, front, e);
      AddRowsFacts(map[], front);
      OutEdgesFrom(cfg, w, roots, last, e);
      assert last == Coded(last.path, last.row);
      assert !Holds(front, last.path) by {
        assert forall i :: 0 <= i < |front| ==> front[i] == coded[i];
      }
    }
  }

  // ------------------------------------------------------------------
  // The incremental loop
  // ------------------------------------------------------------------

  function DeletedPaths(cfg: Config, cs: seq<Change>, n: nat): set<Path>
    requires n <= |cs|
  {
    set i | 0 <= i < n && Deletes(cfg, cs[i]) :: cs[i].path
  }

  lemma DeletedPathsStep(cfg: Config, cs: seq<Change>, n: nat)
    requires n <= |cs|
    ensures DeletedPaths(cfg, cs, n) == if n == 0 then {} else
      DeletedPaths(cfg, cs, n - 1) + (if Deletes(cfg, cs[n - 1]) then {cs[n - 1].path} else {})
  {
    hide Deletes;
  }

  lemma {:induction false} AfterDeletesFacts(cfg: Config, rows: map<Path, Row>, edges: seq<Edge>, cs: seq<Change>,
                                             n: nat, e: Edge)
    requires n <= |cs|
    ensures var (rows', edges') := AfterDeletes(cfg, rows, edges, cs, n);
            && rows' == rows - DeletedPaths(cfg, cs, n)
            && multiset(edges')[e] == if e.src in DeletedPaths(cfg, cs, n) then 0 else multiset(edges)[e]
  {
    hide Deletes, DeletedPaths, DropEdges;
    DeletedPathsStep(cfg, cs, n);
    if n > 0 {
      AfterDeletesFacts(cfg, rows, edges, cs, n - 1, e);
      var (_, edges') := AfterDeletes(cfg, rows, edges, cs, n - 1);
      DropEdgesCount(edges', cs[n - 1].path, e);
    }
  }

  /** Some change re-reads p. */
  ghost predicate Reads(cs: seq<Change>, n: nat, p: Path)
    requires n <= |cs|
  {
    exists i :: 0 <= i < n && cs[i].status != Deleted && cs[i].path == p
  }

  ghost predicate ReadOnce(cs: seq<Change>) {
    forall i, j :: 0 <= i < j < |cs| && cs[i].status != Deleted && cs[j].status != Deleted ==> cs[i].path != cs[j].path
  }

  lemma {:induction false} RereadFacts(cfg: Config, w: World, cs: seq<Change>, n: nat, head: Option<string>)
    requires n <= |cs| && ReadOnce(cs)
    ensures forall p :: Holds(Reread(cfg, w, cs, n, head), p) <==> Reads(cs, n, p) && Readable(cfg, w.tree, p)
    ensures AllRowsOf(cfg, w.tree, Reread(cfg, w, cs, n, head), head)
    ensures Admits(map[], Reread(cfg, w, cs, n, head))
  {
    hide Indexable, RowOf;
    if n > 0 {
      RereadFacts(cfg, w, cs, n - 1, head);
      var rest, c := Reread(cfg, w, cs, n - 1, head), cs[n - 1];
      forall p ensures Reads(cs, n, p) <==> Reads(cs, n - 1, p) || (c.status != Deleted && c.path == p) {}
      if c.status != Deleted && Readable(cfg, w.tree, c.path) {
        var row := RowOf(cfg, w.tree[c.path].text.value, Indexable(c.path, cfg.includeTests).value, head);
        assert Reread(cfg, w, cs, n, head) == rest + [Coded(c.path, row)];
        assert !Reads(cs, n - 1, c.path);
        RowsAppend(cfg, w.tree, rest, Coded(c.path, row), head);
      }
    }
  }

  // ------------------------------------------------------------------
  // Faithful diffs
  // ------------------------------------------------------------------

  ghost predicate Touches(cs: seq<Change>, p: Path) {
    exists i :: 0 <= i < |cs| && cs[i].path == p
  }

  ghost predicate Removes(cs: seq<Change>, p: Path) {
    exists i :: 0 <= i < |cs| && cs[i].path == p && cs[i].status == Deleted
  }

  /** The list says, path by path, how to get from the old tree to the new one. */
  ghost predicate Faithful(before: Tree, after: Tree, cs: seq<Change>) {
    && ReadOnce(cs)
    && (forall p :: !Touches(cs, p) ==> (p in before <==> p in after) && (p in before ==> before[p] == after[p]))
    && (forall p :: Touches(cs, p) ==> (Reads(cs, |cs|, p) <==> p in after))
    && (forall i :: 0 <= i < |cs| ==> cs[i].status != Renamed && (cs[i].status == Modified ==> cs[i].path in before))
    && (forall i :: 0 <= i < |cs| && cs[i].status == Added && !Removes(cs, cs[i].path) ==> cs[i].path !in before)
  }

  // ------------------------------------------------------------------
  // Histories
  // ------------------------------------------------------------------

  /**
    The tables, with two things the program does not store: the paths re-read since the
    last full index, and the world in which each row's edges were last built.
   */
  datatype Account = Account(tables: Tables, since: set<Path>, built: map<Path, World>)

  function ReadPaths(cs: seq<Change>): set<Path> {
    set i | 0 <= i < |cs| && cs[i].status != Deleted :: cs[i].path
  }

  function TouchedPaths(cs: seq<Change>): set<Path> {
    set i | 0 <= i < |cs| :: cs[i].path
  }

  /** One call of `index_repository`, with its bookkeeping; None when the insert is refused. */
  function Step(cfg: Config, acc: Account, v: Visit): Option<Account>
    requires CanDiscover(cfg, v.world)
  {
    match IndexRepository(cfg, acc.tables, v)
    case Failure(_) => None
    case Success(t) =>
      match ModeOf(acc.tables, v)
      case NoopMode => Some(acc.(tables := t))
      case FullMode => Some(Account(t, {}, map p | p in t.rows :: v.world))
      case IncrementalMode =>
        var cs := v.diff.value;
        Some(Account(t, acc.since - TouchedPaths(cs) + ReadPaths(cs),
                     map p | p in t.rows :: if p in ReadPaths(cs) || p !in acc.built then v.world else acc.built[p]))
  }

  const EMPTY := Account(Tables(None, map[], []), {}, map[])

  function RunHistory(cfg: Config, visits: seq<Visit>): Option<Account>
    requires forall k :: 0 <= k < |visits| ==> CanDiscover(cfg, visits[k].world)
  {
    if |visits| == 0 then Some(EMPTY)
    else match RunHistory(cfg, visits[..|visits| - 1])
      case None => None
      case Some(acc) => Step(cfg, acc, visits[|visits| - 1])
  }

  /** HEAD names a commit that is what lies on disk, and a diff that is used is faithful. */
  ghost predicate GoodVisit(cfg: Config, commits: map<string, Tree>, tables: Tables, v: Visit) {
    && WellFormedWorld(cfg, v.world)
    && (v.head.Some? ==> v.head.value in commits && commits[v.head.value] == v.world.tree)
    && (ModeOf(tables, v) == IncrementalMode ==>
          tables.head.value in commits && Faithful(commits[tables.head.value], v.world.tree, v.diff.value))
  }

  ghost predicate GoodHistory(cfg: Config, commits: map<string, Tree>, visits: seq<Visit>) {
    (forall k :: 0 <= k < |visits| ==> WellFormedWorld(cfg, visits[k].world))
    && forall k :: 0 <= k < |visits| ==>
         RunHistory(cfg, visits[..k]).Some? ==>
           GoodVisit(cfg, commits, RunHistory(cfg, visits[..k]).value.tables, visits[k])
  }

  // ------------------------------------------------------------------
  // The invariant
  // ------------------------------------------------------------------

  /** The rows are those of the tree: what a walk takes, and what was re-read whatever its size. */
  ghost predicate RowsOf(cfg: Config, rows: map<Path, Row>, tree: Tree, since: set<Path>) {
    && (forall p :: p in rows <==> Readable(cfg, tree, p) && (tree[p].size <= MAX_FILE_SIZE || p in since))
    && (forall p :: p in rows ==> IsRowOf(cfg, tree, p, rows[p], rows[p].sha))
  }

  /** A row that names a commit holds exactly what that commit holds at that path. */
  ghost predicate ShasTell(commits: map<string, Tree>, rows: map<Path, Row>) {
    forall p :: p in rows && rows[p].sha.Some? ==>
      rows[p].sha.value in commits && p in commits[rows[p].sha.value]
      && commits[rows[p].sha.value][p].text == Some(rows[p].content)
  }

  /** Every edge is exactly what resolving its row's imports gave in the world it was built in. */
  ghost predicate EdgesAsBuilt(cfg: Config, tables: Tables, built: map<Path, World>) {
    && built.Keys == tables.rows.Keys
    && (forall p :: p in built ==> WellFormedWorld(cfg, built[p]))
    && (forall e: Edge :: multiset(tables.edges)[e] == EdgesWanted(cfg, built, tables.rows, e))
  }

  ghost predicate Inv(cfg: Config, commits: map<string, Tree>, acc: Account, tree: Tree) {
    && RowsOf(cfg, acc.tables.rows, tree, acc.since)
    && ShasTell(commits, acc.tables.rows)
    && EdgesAsBuilt(cfg, acc.tables, acc.built)
    && (acc.tables.head.Some? ==> acc.tables.head.value in commits && commits[acc.tables.head.value] == tree)
  }

  lemma FullKeepsInv(cfg: Config, commits: map<string, Tree>, acc: Account, v: Visit)
    requires GoodVisit(cfg, commits, acc.tables, v) && ModeOf(acc.tables, v) == FullMode
    ensures Inv(cfg, commits, Step(cfg, acc, v).value, v.world.tree)
  {
    hide FullIndex, IsRowOf, EdgesAsBuilt;
    var rows := FullIndex(cfg, v.world, v.head).rows;
    FullIndexRows(cfg, v.world, v.head);
    FullEdges(cfg, v.world, v.head);
    FreshRowsTell(cfg, commits, rows, v.world.tree, v.head);
    assert FullIndex(cfg, v.world, v.head).head == v.head by { FullHead(cfg, v.world, v.head); }
  }

  lemma FullHead(cfg: Config, w: World, head: Option<string>)
    requires CanDiscover(cfg, w)
    ensures FullIndex(cfg, w, head).head == head
  {}

  lemma FreshRowsTell(cfg: Config, commits: map<string, Tree>, rows: map<Path, Row>, tree: Tree, head: Option<string>)
    requires forall p :: p in rows ==> IsRowOf(cfg, tree, p, rows[p], head)
    requires head.Some? ==> head.value in commits && commits[head.value] == tree
    ensures ShasTell(commits, rows)
    ensures forall p :: p in rows ==> IsRowOf(cfg, tree, p, rows[p], rows[p].sha)
  {}

  lemma FullEdges(cfg: Config, w: World, head: Option<string>)
    requires WellFormedWorld(cfg, w)
    ensures var t := FullIndex(cfg, w, head); EdgesAsBuilt(cfg, t, map p | p in t.rows :: w)
  {
    hide Outgoing, Roots, WalkRows, BuildEdges, AddRows, FullIndex, WellFormedWorld;
    GoodMeansDiscoverable(cfg, w);
    var coded, roots, t := WalkRows(cfg, w, |w.listing|, head), Roots(cfg, w), FullIndex(cfg, w, head);
    var built := map p | p in t.rows :: w;
    FullIs(cfg, w, head);
    WalkRowsAdmitted(cfg, w, head);
    NoRowNoEdge(cfg, w, roots, t.rows);
    forall e: Edge ensures multiset(t.edges)[e] == EdgesWanted(cfg, built, t.rows, e) {
      BuildEdgesCount(cfg, w, roots, coded, e);
    }
    MakeEdgesAsBuilt(cfg, t, built);
  }

  lemma FullIs(cfg: Config, w: World, head: Option<string>)
    requires CanDiscover(cfg, w)
    ensures var coded, t := WalkRows(cfg, w, |w.listing|, head), FullIndex(cfg, w, head);
            t.rows == AddRows(map[], coded) && t.edges == BuildEdges(cfg, w, Roots(cfg, w), coded)
  {
    hide WalkRows, AddRows, BuildEdges, Roots;
  }

  lemma WalkRowsAdmitted(cfg: Config, w: World, head: Option<string>)
    requires WellFormedWorld(cfg, w)
    ensures Admits(map[], WalkRows(cfg, w, |w.listing|, head))
  {
    WalkRowsFacts(cfg, w, |w.listing|, head);
  }

  lemma NoRowNoEdge(cfg: Config, w: World, roots: seq<Path>, rows: map<Path, Row>)
    ensures forall e: Edge :: e.src !in rows ==> Outgoing(cfg, w, roots, rows, e) == 0
  {}

  // ------------------------------------------------------------------
  // An incremental step
  // ------------------------------------------------------------------

  /** The rows an incremental run keeps are those of the files the diff does not mention. */
  lemma KeptAreUntouched(cfg: Config, rows: map<Path, Row>, before: Tree, after: Tree, since: set<Path>,
                         cs: seq<Change>, p: Path)
    requires RowsOf(cfg, rows, before, since) && Faithful(before, after, cs)
    ensures p in rows - DeletedPaths(cfg, cs, |cs|) <==> p in rows && !Touches(cs, p)
  {
    hide IsRowOf;
    if p in rows && Touches(cs, p) {
      var i :| 0 <= i < |cs| && cs[i].path == p;
      if cs[i].status == Added {
        assert Removes(cs, p);
        var j :| 0 <= j < |cs| && cs[j].path == p && cs[j].status == Deleted;
        assert Deletes(cfg, cs[j]);
      } else {
        assert Readable(cfg, before, p);
        assert Deletes(cfg, cs[i]);
      }
    }
  }

  lemma ReadPathsAre(cs: seq<Change>, p: Path)
    ensures p in ReadPaths(cs) <==> Reads(cs, |cs|, p)
    ensures p in TouchedPaths(cs) <==> Touches(cs, p)
    ensures Reads(cs, |cs|, p) ==> Touches(cs, p)
  {}

  /** The unique constraint never refuses a faithful diff, and the rows are those of the new tree. */
  lemma IncrementalRows(cfg: Config, rows: map<Path, Row>, before: Tree, w: World, since: set<Path>,
                        cs: seq<Change>, head: Option<string>)
    requires RowsOf(cfg, rows, before, since) && Faithful(before, w.tree, cs)
    ensures var kept, coded := rows - DeletedPaths(cfg, cs, |cs|), Reread(cfg, w, cs, |cs|, head);
            && Admits(kept, coded)
            && RowsOf(cfg, AddRows(kept, coded), w.tree, since - TouchedPaths(cs) + ReadPaths(cs))
            && (forall p :: p in AddRows(kept, coded) ==>
                  if Reads(cs, |cs|, p) then IsRowOf(cfg, w.tree, p, AddRows(kept, coded)[p], head)
                  else p in rows && AddRows(kept, coded)[p] == rows[p])
  {
    var kept, coded := rows - DeletedPaths(cfg, cs, |cs|), Reread(cfg, w, cs, |cs|, head);
    RereadFacts(cfg, w, cs, |cs|, head);
    forall p ensures p in kept <==> p in rows && !Touches(cs, p) {
      KeptAreUntouched(cfg, rows, before, w.tree, since, cs, p);
    }
    forall p
      ensures p in ReadPaths(cs) <==> Reads(cs, |cs|, p)
      ensures p in TouchedPaths(cs) <==> Touches(cs, p)
      ensures Reads(cs, |cs|, p) ==> Touches(cs, p)
    {
      ReadPathsAre(cs, p);
    }
    IncrementalRowsFit(cfg, rows, kept, coded, before, w.tree, since, cs, head);
  }

  lemma IncrementalRowsFit(cfg: Config, rows: map<Path, Row>, kept: map<Path, Row>, coded: seq<Coded>,
                           before: Tree, after: Tree, since: set<Path>, cs: seq<Change>, head: Option<string>)
    requires RowsOf(cfg, rows, before, since) && Faithful(before, after, cs)
    requires forall p :: p in kept <==> p in rows && !Touches(cs, p)
    requires forall p :: p in kept ==> kept[p] == rows[p]
    requires forall p :: Holds(coded, p) <==> Reads(cs, |cs|, p) && Readable(cfg, after, p)
    requires AllRowsOf(cfg, after, coded, head)
    requires Admits(map[], coded)
    requires forall p :: p in ReadPaths(cs) <==> Reads(cs, |cs|, p)
    requires forall p :: p in TouchedPaths(cs) <==> Touches(cs, p)
    requires forall p :: Reads(cs, |cs|, p) ==> Touches(cs, p)
    ensures Admits(kept, coded)
    ensures RowsOf(cfg, AddRows(kept, coded), after, since - TouchedPaths(cs) + ReadPaths(cs))
    ensures forall p :: p in AddRows(kept, coded) ==>
              if Reads(cs, |cs|, p) then IsRowOf(cfg, after, p, AddRows(kept, coded)[p], head)
              else p in rows && AddRows(kept, coded)[p] == rows[p]
  {
    hide Indexable, IsRowOf, AllRowsOf, ReadPaths, TouchedPaths, Reads, Touches, AddRows;
    assert forall i :: 0 <= i < |coded| ==> Holds(coded, coded[i].path);
    AddRowsFacts(kept, coded);
    var all := AddRows(kept, coded);
    forall p | p in all
      ensures if Reads(cs, |cs|, p) then IsRowOf(cfg, after, p, all[p], head) else p in rows && all[p] == rows[p]
      ensures IsRowOf(cfg, after, p, all[p], all[p].sha)
    {
      MergedRow(cfg, rows, kept, coded, before, after, since, cs, head, p);
    }
  }

  /** One row after an incremental run: re-read, or kept and still that of its file. */
  lemma MergedRow(cfg: Config, rows: map<Path, Row>, kept: map<Path, Row>, coded: seq<Coded>, before: Tree, after: Tree,
                  since: set<Path>, cs: seq<Change>, head: Option<string>, p: Path)
    requires RowsOf(cfg, rows, before, since) && Faithful(before, after, cs)
    requires forall p :: p in kept <==> p in rows && !Touches(cs, p)
    requires forall p :: p in kept ==> kept[p] == rows[p]
    requires forall p :: Holds(coded, p) <==> Reads(cs, |cs|, p) && Readable(cfg, after, p)
    requires AllRowsOf(cfg, after, coded, head)
    requires Admits(kept, coded) && p in AddRows(kept, coded) && (Reads(cs, |cs|, p) ==> Touches(cs, p))
    ensures var row := AddRows(kept, coded)[p];
            && IsRowOf(cfg, after, p, row, row.sha)
            && if Reads(cs, |cs|, p) then IsRowOf(cfg, after, p, row, head) else p in rows && row == rows[p]
  {
    hide Indexable, IsRowOf, Reads, Touches, AddRows;
    AddRowsFacts(kept, coded);
    if Holds(coded, p) {
      var i :| 0 <= i < |coded| && coded[i].path == p;
      assert IsRowOf(cfg, after, coded[i].path, coded[i].row, head);
      RowKeepsSha(cfg, after, p, coded[i].row, head);
    } else {
      assert p in kept && p in before && before[p] == after[p];
      RowMoves(cfg, before, after, p, rows[p]);
    }
  }

  lemma RowMoves(cfg: Config, before: Tree, after: Tree, p: Path, row: Row)
    requires IsRowOf(cfg, before, p, row, row.sha) && p in before && p in after && before[p] == after[p]
    ensures IsRowOf(cfg, after, p, row, row.sha)
  {}

  lemma RowKeepsSha(cfg: Config, tree: Tree, p: Path, row: Row, sha: Option<string>)
    requires IsRowOf(cfg, tree, p, row, sha)
    ensures row.sha == sha
  {}

  /** The count of one edge after an incremental run: the kept edges and the re-built ones. */
  lemma IncrementalEdgeCount(cfg: Config, rows: map<Path, Row>, edges: seq<Edge>, w: World, cs: seq<Change>,
                             head: Option<string>, roots: seq<Path>, e: Edge)
    requires ReadOnce(cs)
    ensures var coded := Reread(cfg, w, cs, |cs|, head);
            var (_, kept) := AfterDeletes(cfg, rows, edges, cs, |cs|);
            multiset(kept + BuildEdges(cfg, w, roots, coded))[e]
              == (if e.src in DeletedPaths(cfg, cs, |cs|) then 0 else multiset(edges)[e])
               + Outgoing(cfg, w, roots, AddRows(map[], coded), e)
  {
    hide Outgoing, DeletedPaths;
    AfterDeletesFacts(cfg, rows, edges, cs, |cs|, e);
    RereadFacts(cfg, w, cs, |cs|, head);
    BuildEdgesCount(cfg, w, roots, Reread(cfg, w, cs, |cs|, head), e);
  }

  /** The world each row was built in, after an incremental run. */
  function Rebuilt(built: map<Path, World>, rows: map<Path, Row>, cs: seq<Change>, w: World): map<Path, World> {
    map p | p in rows :: if p in ReadPaths(cs) || p !in built then w else built[p]
  }

  /** What happens to the source of one edge: it is kept, or re-read, or gone. */
  lemma EdgeAccount(cfg: Config, rows: map<Path, Row>, dropped: bool, reread: map<Path, Row>, after: map<Path, Row>,
                    source: World, w: World, roots: seq<Path>, e: Edge)
    requires CanDiscover(cfg, source)
    requires e.src in after <==> (e.src in rows && !dropped) || e.src in reread
    requires e.src in reread ==> (e.src !in rows || dropped) && after[e.src] == reread[e.src]
    requires e.src in rows && !dropped ==> after[e.src] == rows[e.src]
    ensures (if dropped || e.src !in rows then 0 else Outgoing(cfg, source, Roots(cfg, source), rows, e))
              + Outgoing(cfg, w, roots, reread, e)
         == if e.src !in after then 0
            else if e.src in reread then Outgoing(cfg, w, roots, after, e)
            else Outgoing(cfg, source, Roots(cfg, source), after, e)
  {
    hide OutEdges, Roots;
  }

  /** The tables an admitted incremental run leaves. */
  ghost function Updated(cfg: Config, tables: Tables, w: World, cs: seq<Change>, head: Option<string>): Tables
    requires CanDiscover(cfg, w)
  {
    var coded := Reread(cfg, w, cs, |cs|, head);
    Tables(head, AddRows(tables.rows - DeletedPaths(cfg, cs, |cs|), coded),
           AfterDeletes(cfg, tables.rows, tables.edges, cs, |cs|).1 + BuildEdges(cfg, w, Roots(cfg, w), coded))
  }

  lemma IncrementalIsUpdated(cfg: Config, tables: Tables, w: World, cs: seq<Change>, head: Option<string>)
    requires CanDiscover(cfg, w)
    requires Admits(tables.rows - DeletedPaths(cfg, cs, |cs|), Reread(cfg, w, cs, |cs|, head))
    ensures IncrementalIndex(cfg, tables, w, cs, head) == Success(Updated(cfg, tables, w, cs, head))
  {
    AfterDeletesFacts(cfg, tables.rows, tables.edges, cs, |cs|, Edge([], None, "", ""));
  }

  lemma UpdatedEdges(cfg: Config, tables: Tables, built: map<Path, World>, before: Tree, since: set<Path>,
                     w: World, cs: seq<Change>, head: Option<string>)
    requires RowsOf(cfg, tables.rows, before, since) && Faithful(before, w.tree, cs)
    requires EdgesAsBuilt(cfg, tables, built) && WellFormedWorld(cfg, w)
    requires Admits(tables.rows - DeletedPaths(cfg, cs, |cs|), Reread(cfg, w, cs, |cs|, head))
    ensures var after := Updated(cfg, tables, w, cs, head); EdgesAsBuilt(cfg, after, Rebuilt(built, after.rows, cs, w))
  {
    assert CanDiscover(cfg, w) && ReadOnce(cs);
    assert forall p :: p in built ==> CanDiscover(cfg, built[p]);
    var after := Updated(cfg, tables, w, cs, head);
    RebuiltWorlds(cfg, built, after.rows, cs, w);
    forall e: Edge
      ensures multiset(after.edges)[e] == EdgesWanted(cfg, Rebuilt(built, after.rows, cs, w), after.rows, e)
    {
      CountAsBuilt(cfg, tables, built, e);
      OneUpdatedEdge(cfg, tables, built, before, since, w, cs, head, e);
    }
    MakeEdgesAsBuilt(cfg, after, Rebuilt(built, after.rows, cs, w));
  }

  lemma CountAsBuilt(cfg: Config, tables: Tables, built: map<Path, World>, e: Edge)
    requires EdgesAsBuilt(cfg, tables, built)
    ensures built.Keys == tables.rows.Keys
    ensures forall p :: p in built ==> CanDiscover(cfg, built[p])
    ensures multiset(tables.edges)[e] == EdgesWanted(cfg, built, tables.rows, e)
  {}

  lemma MakeEdgesAsBuilt(cfg: Config, tables: Tables, built: map<Path, World>)
    requires built.Keys == tables.rows.Keys
    requires forall p :: p in built ==> WellFormedWorld(cfg, built[p]) && CanDiscover(cfg, built[p])
    requires forall e: Edge :: multiset(tables.edges)[e] == EdgesWanted(cfg, built, tables.rows, e)
    ensures EdgesAsBuilt(cfg, tables, built)
  {
    hide EdgesWanted;
  }

  lemma RebuiltWorlds(cfg: Config, built: map<Path, World>, rows: map<Path, Row>, cs: seq<Change>, w: World)
    requires WellFormedWorld(cfg, w) && forall p :: p in built ==> WellFormedWorld(cfg, built[p])
    ensures Rebuilt(built, rows, cs, w).Keys == rows.Keys
    ensures forall p :: p in Rebuilt(built, rows, cs, w) ==>
              WellFormedWorld(cfg, Rebuilt(built, rows, cs, w)[p]) && CanDiscover(cfg, Rebuilt(built, rows, cs, w)[p])
  {}

  /** The right-hand side of EdgesAsBuilt. */
  ghost function EdgesWanted(cfg: Config, built: map<Path, World>, rows: map<Path, Row>, e: Edge): nat
    requires forall p :: p in built ==> CanDiscover(cfg, built[p])
    requires built.Keys == rows.Keys
  {
    if e.src in rows then Outgoing(cfg, built[e.src], Roots(cfg, built[e.src]), rows, e) else 0
  }

  lemma OneUpdatedEdge(cfg: Config, tables: Tables, built: map<Path, World>, before: Tree, since: set<Path>,
                       w: World, cs: seq<Change>, head: Option<string>, e: Edge)
    requires RowsOf(cfg, tables.rows, before, since) && Faithful(before, w.tree, cs) && ReadOnce(cs)
    requires CanDiscover(cfg, w) && forall p :: p in built ==> CanDiscover(cfg, built[p])
    requires built.Keys == tables.rows.Keys
    requires multiset(tables.edges)[e] == EdgesWanted(cfg, built, tables.rows, e)
    requires Admits(tables.rows - DeletedPaths(cfg, cs, |cs|), Reread(cfg, w, cs, |cs|, head))
    ensures var after := Updated(cfg, tables, w, cs, head);
            multiset(after.edges)[e] == EdgesWanted(cfg, Rebuilt(built, after.rows, cs, w), after.rows, e)
  {
    hide RowsOf, Faithful, ReadOnce, Admits, Reread, AddRows, DeletedPaths, AfterDeletes,
         BuildEdges, Outgoing, Roots, ReadPaths;
    var coded, roots := Reread(cfg, w, cs, |cs|, head), Roots(cfg, w);
    var dropped, reread := DeletedPaths(cfg, cs, |cs|), AddRows(map[], coded);
    var after := Updated(cfg, tables, w, cs, head);
    IncrementalEdgeCount(cfg, tables.rows, tables.edges, w, cs, head, roots, e);
    SourceFacts(cfg, tables.rows, before, since, w, cs, head, e.src);
    var source := if e.src in built then built[e.src] else w;
    EdgeAccount(cfg, tables.rows, e.src in dropped, reread, after.rows, source, w, roots, e);
    RebuiltAt(built, after.rows, cs, w, e.src);
  }

  lemma RebuiltAt(built: map<Path, World>, rows: map<Path, Row>, cs: seq<Change>, w: World, p: Path)
    ensures Rebuilt(built, rows, cs, w).Keys == rows.Keys
    ensures p in rows ==> Rebuilt(built, rows, cs, w)[p] == if p in ReadPaths(cs) || p !in built then w else built[p]
  {}

  /** Where the row of one path comes from after an incremental run. */
  lemma SourceFacts(cfg: Config, rows: map<Path, Row>, before: Tree, since: set<Path>, w: World, cs: seq<Change>,
                    head: Option<string>, p: Path)
    requires RowsOf(cfg, rows, before, since) && Faithful(before, w.tree, cs)
    requires Admits(rows - DeletedPaths(cfg, cs, |cs|), Reread(cfg, w, cs, |cs|, head))
    ensures var coded, dropped := Reread(cfg, w, cs, |cs|, head), DeletedPaths(cfg, cs, |cs|);
            var reread, after := AddRows(map[], coded), AddRows(rows - dropped, coded);
            && (p in after <==> (p in rows && p !in dropped) || p in reread)
            && (p in reread ==> (p !in rows || p in dropped) && after[p] == reread[p] && p in ReadPaths(cs))
            && (p in rows && p !in dropped ==> after[p] == rows[p] && p !in ReadPaths(cs))
  {
    hide IsRowOf, Reread, RowsOf, Readable, DeletedPaths;
    var coded, dropped := Reread(cfg, w, cs, |cs|, head), DeletedPaths(cfg, cs, |cs|);
    assert ReadOnce(cs);
    RereadFacts(cfg, w, cs, |cs|, head);
    AddRowsFacts(map[], coded);
    AddRowsFacts(rows - dropped, coded);
    KeptAreUntouched(cfg, rows, before, w.tree, since, cs, p);
    ReadPathsAre(cs, p);
    if Holds(coded, p) {
      var i :| 0 <= i < |coded| && coded[i].path == p;
      assert AddRows(rows - dropped, coded)[p] == coded[i].row == AddRows(map[], coded)[p];
    }
  }

  lemma IncrementalShas(cfg: Config, commits: map<string, Tree>, rows: map<Path, Row>, after: map<Path, Row>,
                        tree: Tree, cs: seq<Change>, head: Option<string>)
    requires ShasTell(commits, rows)
    requires head.Some? ==> head.value in commits && commits[head.value] == tree
    requires forall p :: p in after ==>
               if Reads(cs, |cs|, p) then IsRowOf(cfg, tree, p, after[p], head) else p in rows && after[p] == rows[p]
    ensures ShasTell(commits, after)
  {
    hide Reads;
  }

  lemma IncrementalKeepsInv(cfg: Config, commits: map<string, Tree>, acc: Account, before: Tree, v: Visit)
    requires Inv(cfg, commits, acc, before) && GoodVisit(cfg, commits, acc.tables, v)
    requires ModeOf(acc.tables, v) == IncrementalMode
    ensures Step(cfg, acc, v).Some? && Inv(cfg, commits, Step(cfg, acc, v).value, v.world.tree)
  {
    hide IncrementalIndex, Reread, AddRows, RowsOf, EdgesAsBuilt, ShasTell, IsRowOf, Faithful, DeletedPaths, Admits,
         WellFormedWorld, AfterDeletes, BuildEdges;
    var w, cs := v.world, v.diff.value;
    GoodMeansDiscoverable(cfg, w);
    IncrementalRows(cfg, acc.tables.rows, before, w, acc.since, cs, v.head);
    IncrementalIsUpdated(cfg, acc.tables, w, cs, v.head);
    UpdatedEdges(cfg, acc.tables, acc.built, before, acc.since, w, cs, v.head);
    var after := Updated(cfg, acc.tables, w, cs, v.head);
    IncrementalShas(cfg, commits, acc.tables.rows, after.rows, w.tree, cs, v.head);
  }

  lemma GoodMeansDiscoverable(cfg: Config, w: World)
    requires WellFormedWorld(cfg, w)
    ensures CanDiscover(cfg, w)
  {}

  lemma NoopKeepsInv(cfg: Config, commits: map<string, Tree>, acc: Account, before: Tree, v: Visit)
    requires Inv(cfg, commits, acc, before) && GoodVisit(cfg, commits, acc.tables, v)
    requires ModeOf(acc.tables, v) == NoopMode
    ensures Step(cfg, acc, v) == Some(acc) && Inv(cfg, commits, acc, v.world.tree)
  {
    hide RowsOf, EdgesAsBuilt, ShasTell, WellFormedWorld;
    assert CanDiscover(cfg, v.world) by { GoodMeansDiscoverable(cfg, v.world); }
    assert before == v.world.tree;
  }

  // ------------------------------------------------------------------
  // The main theorems
  // ------------------------------------------------------------------

  /**
    Over every history: no insert is ever refused, the rows are those of the last tree, a
    commit named by a row holds that content at that path, and every edge is what its
    source's imports resolved to when that source was last read.
   */
  lemma {:induction false} EveryHistory(cfg: Config, commits: map<string, Tree>, visits: seq<Visit>)
    requires |visits| > 0 && GoodHistory(cfg, commits, visits)
    ensures RunHistory(cfg, visits).Some?
    ensures Inv(cfg, commits, RunHistory(cfg, visits).value, visits[|visits| - 1].world.tree)
  {
    assert forall k :: 0 <= k < |visits| ==> CanDiscover(cfg, visits[k].world);
    var front, last := visits[..|visits| - 1], visits[|visits| - 1];
    assert visits[..|visits| - 1] == front;
    if |visits| == 1 {
      assert RunHistory(cfg, front) == Some(EMPTY);
      FullKeepsInv(cfg, commits, EMPTY, last);
      FullSucceeds(cfg, EMPTY, last);
    } else {
      GoodFront(cfg, commits, visits);
      EveryHistory(cfg, commits, front);
      var acc, before := RunHistory(cfg, front).value, front[|front| - 1].world.tree;
      match ModeOf(acc.tables, last) {
        case FullMode => FullKeepsInv(cfg, commits, acc, last); FullSucceeds(cfg, acc, last);
        case IncrementalMode => IncrementalKeepsInv(cfg, commits, acc, before, last);
        case NoopMode => NoopKeepsInv(cfg, commits, acc, before, last);
      }
    }
  }

  lemma FullSucceeds(cfg: Config, acc: Account, v: Visit)
    requires CanDiscover(cfg, v.world) && ModeOf(acc.tables, v) == FullMode
    ensures Step(cfg, acc, v).Some?
  {}

  lemma GoodFront(cfg: Config, commits: map<string, Tree>, visits: seq<Visit>)
    requires |visits| > 1 && GoodHistory(cfg, commits, visits)
    ensures GoodHistory(cfg, commits, visits[..|visits| - 1])
  {
    hide GoodVisit;
    var front := visits[..|visits| - 1];
    forall k | 0 <= k < |front| ensures front[..k] == visits[..k] {}
  }

  /** A row without the commit it was read at. */
  function Forget(rows: map<Path, Row>): map<Path, Row> {
    map p | p in rows :: rows[p].(sha := None)
  }

  /**
    Incremental indexing does not apply MAX_FILE_SIZE. So after any history the rows equal
    those of a full rebuild of the head tree (path, language, content, line count and
    structure) exactly when no file re-read since the last full index is over the limit.
   */
  lemma AgreesWithFullRebuildExactlyWhen(cfg: Config, commits: map<string, Tree>, visits: seq<Visit>)
    requires |visits| > 0 && GoodHistory(cfg, commits, visits)
    ensures var acc, last := RunHistory(cfg, visits), visits[|visits| - 1];
            acc.Some? &&
            (Forget(acc.value.tables.rows) == Forget(FullIndex(cfg, last.world, last.head).rows)
             <==> forall p :: p in acc.value.since && Readable(cfg, last.world.tree, p) ==>
                    last.world.tree[p].size <= MAX_FILE_SIZE)
  {
    EveryHistory(cfg, commits, visits);
    var acc, last := RunHistory(cfg, visits).value, visits[|visits| - 1];
    FullIndexRows(cfg, last.world, last.head);
    RowsAgree(cfg, acc.tables.rows, FullIndex(cfg, last.world, last.head).rows, last.world.tree, acc.since, last.head);
  }

  lemma RowsAgree(cfg: Config, rows: map<Path, Row>, full: map<Path, Row>, tree: Tree, since: set<Path>,
                  head: Option<string>)
    requires RowsOf(cfg, rows, tree, since)
    requires forall p :: p in full <==> WalkTakes(cfg, tree, p)
    requires forall p :: p in full ==> IsRowOf(cfg, tree, p, full[p], head)
    ensures Forget(rows) == Forget(full)
       <==> forall p :: p in since && Readable(cfg, tree, p) ==> tree[p].size <= MAX_FILE_SIZE
  {
    hide Indexable;
    if p :| p in since && Readable(cfg, tree, p) && tree[p].size > MAX_FILE_SIZE {
      assert p in Forget(rows) && p !in Forget(full);
    } else {
      forall p ensures p in rows <==> p in full {}
      forall p | p in rows ensures rows[p].(sha := None) == full[p].(sha := None) {
        RowKeepsSha(cfg, tree, p, full[p], head);
        assert IsRowOf(cfg, tree, p, rows[p], rows[p].sha);
      }
    }
  }
}
